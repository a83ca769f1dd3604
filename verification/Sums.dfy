/** Sums over finite maps and over lists, independent of the order of summation. */
module Sums {

  ghost function Sum<K>(m: map<K, int>): int {
    if m == map[] then 0
    else
      var k :| k in m;
      m[k] + Sum(m - {k})
  }

  lemma {:induction false} SumWithout<K>(m: map<K, int>, k: K)
    requires k in m
    ensures Sum(m) == m[k] + Sum(m - {k})
    decreases |m|
  {
    var j :| j in m && Sum(m) == m[j] + Sum(m - {j});
    if j != k {
      SumWithout(m - {j}, k);
      SumWithout(m - {k}, j);
      assert m - {j} - {k} == m - {k} - {j};
    }
  }

  lemma SumUpdate<K>(m: map<K, int>, k: K, v: int)
    ensures Sum(m[k := v]) == Sum(m) - (if k in m then m[k] else 0) + v
  {
    SumWithout(m[k := v], k);
    assert m[k := v] - {k} == m - {k};
    if k in m {
      SumWithout(m, k);
    } else {
      assert m - {k} == m;
    }
  }

  lemma {:induction false} SumNonNegative<K>(m: map<K, int>)
    requires forall k :: k in m ==> m[k] >= 0
    ensures Sum(m) >= 0
    ensures Sum(m) == 0 <==> forall k :: k in m ==> m[k] == 0
    decreases |m|
  {
    if m != map[] {
      var k :| k in m && Sum(m) == m[k] + Sum(m - {k});
      SumNonNegative(m - {k});
      assert forall j :: j in m ==> j == k || j in m - {k};
    }
  }

  // ---------------------------------------------------------------- over lists

  function Weigh<T>(s: seq<T>, weight: T -> int): int {
    if s == [] then 0 else weight(s[0]) + Weigh(s[1..], weight)
  }

  lemma {:induction false} WeighConcat<T>(s: seq<T>, t: seq<T>, weight: T -> int)
    ensures Weigh(s + t, weight) == Weigh(s, weight) + Weigh(t, weight)
  {
    if s == [] {
      assert s + t == t;
    } else {
      WeighConcat(s[1..], t, weight);
      assert (s + t)[1..] == s[1..] + t;
    }
  }

  lemma {:induction false} WeighSame<T>(s: seq<T>, weight: T -> int, v: int)
    requires forall x :: x in s ==> weight(x) == v
    ensures Weigh(s, weight) == v * |s|
  {
    if s != [] {
      WeighSame(s[1..], weight, v);
    }
  }

  lemma {:induction false} WeighNonNegative<T>(s: seq<T>, weight: T -> int)
    requires forall x :: x in s ==> weight(x) >= 0
    ensures Weigh(s, weight) >= 0
    ensures forall x :: x in s ==> weight(x) <= Weigh(s, weight)
  {
    if s != [] {
      WeighNonNegative(s[1..], weight);
    }
  }

  function Without<T>(s: seq<T>, i: nat): (rest: seq<T>)
    requires i < |s|
    ensures |rest| == |s| - 1
  {
    s[..i] + s[i + 1..]
  }

  lemma WeighWithout<T>(s: seq<T>, i: nat, weight: T -> int)
    requires i < |s|
    ensures Weigh(s, weight) == weight(s[i]) + Weigh(Without(s, i), weight)
  {
    WeighConcat(s[..i], s[i + 1..], weight);
    WeighConcat(s[..i], s[i..], weight);
    assert s == s[..i] + s[i..];
    assert s[i..][1..] == s[i + 1..];
  }

  lemma MultisetWithout<T>(s: seq<T>, i: nat)
    requires i < |s|
    ensures multiset(Without(s, i)) == multiset(s) - multiset{s[i]}
  {
    assert s == s[..i] + [s[i]] + s[i + 1..];
  }

  /** Lists that are rearrangements of each other weigh the same. */
  lemma {:induction false} WeighPermutation<T>(s: seq<T>, t: seq<T>, weight: T -> int)
    requires multiset(s) == multiset(t)
    ensures Weigh(s, weight) == Weigh(t, weight)
  {
    assert |s| == |multiset(s)| == |multiset(t)| == |t|;
    if s != [] {
      assert s[0] in multiset(t);
      var i :| 0 <= i < |t| && t[i] == s[0];
      MultisetWithout(s, 0);
      MultisetWithout(t, i);
      WeighWithout(s, 0, weight);
      WeighWithout(t, i, weight);
      WeighPermutation(Without(s, 0), Without(t, i), weight);
    }
  }
}
