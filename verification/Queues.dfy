/** One account's queue: transactions filed under their nonces, read in nonce order. */
module Queues {
  import opened Types

  type Queue = map<nat, Transaction>

  // ---------------------------------------------------------------- extreme nonces

  /** `h` is the largest of `base` and the given nonces. */
  ghost predicate IsHighest(nonces: set<nat>, base: nat, h: nat) {
    (h == base || h in nonces) && base <= h && forall n :: n in nonces ==> n <= h
  }

  lemma {:induction false} HighestExists(nonces: set<nat>, base: nat)
    ensures exists h: nat :: IsHighest(nonces, base, h)
    decreases nonces
  {
    if nonces == {} {
      assert IsHighest(nonces, base, base);
    } else {
      var n :| n in nonces;
      HighestExists(nonces - {n}, base);
      var h: nat :| IsHighest(nonces - {n}, base, h);
      assert forall m :: m in nonces ==> m == n || m in nonces - {n};
      assert IsHighest(nonces, base, if n > h then n else h);
    }
  }

  ghost function Highest(nonces: set<nat>, base: nat): (h: nat)
    ensures IsHighest(nonces, base, h)
  {
    HighestExists(nonces, base);
    var h: nat :| IsHighest(nonces, base, h);
    h
  }

  ghost predicate IsLowest(nonces: set<nat>, low: nat) {
    low in nonces && forall n :: n in nonces ==> low <= n
  }

  lemma {:induction false} LowestExists(nonces: set<nat>)
    requires nonces != {}
    ensures exists low: nat :: IsLowest(nonces, low)
    decreases nonces
  {
    var n :| n in nonces;
    if nonces == {n} {
      assert IsLowest(nonces, n);
    } else {
      LowestExists(nonces - {n});
      var low: nat :| IsLowest(nonces - {n}, low);
      assert forall m :: m in nonces ==> m == n || m in nonces - {n};
      assert IsLowest(nonces, if n < low then n else low);
    }
  }

  ghost function Lowest(nonces: set<nat>): (low: nat)
    requires nonces != {}
    ensures low in nonces
    ensures forall n :: n in nonces ==> low <= n
  {
    LowestExists(nonces);
    var low: nat :| IsLowest(nonces, low);
    low
  }

  /** The first nonce from n on that has no transaction. */
  ghost function RunEnd(q: Queue, n: nat): (end: nat)
    ensures end >= n && end !in q
    ensures forall k :: n <= k < end ==> k in q
    decreases |q.Keys - set k | k in q && k < n|
  {
    if n !in q then n
    else
      assert q.Keys - (set k | k in q && k < n + 1) == (q.Keys - set k | k in q && k < n) - {n};
      RunEnd(q, n + 1)
  }

  /** There is only one such nonce. */
  lemma RunEndUnique(q: Queue, n: nat, end: nat)
    requires n < end && end !in q && HasRun(q, n, end)
    ensures RunEnd(q, n + 1) == end
  {
  }

  /** The part of a queue strictly between two nonces, and the rest of it. */
  ghost function Between(q: Queue, lo: nat, hi: nat): Queue {
    map n | n in q && lo < n < hi :: q[n]
  }

  ghost function Outside(q: Queue, lo: nat, hi: nat): Queue {
    map n | n in q && !(lo < n < hi) :: q[n]
  }

  ghost predicate HasRun(q: Queue, lo: nat, hi: nat) {
    forall k :: lo < k < hi ==> k in q
  }

  lemma BetweenNothing(q: Queue, lo: nat)
    ensures HasRun(q, lo, lo + 1)
    ensures Between(q, lo, lo + 1) == map[] && Outside(q, lo, lo + 1) == q
  {
  }

  lemma BetweenOneMore(q: Queue, lo: nat, hi: nat)
    requires lo < hi && hi in q
    ensures HasRun(q, lo, hi) ==> HasRun(q, lo, hi + 1)
    ensures hi in Outside(q, lo, hi) && Outside(q, lo, hi)[hi] == q[hi]
    ensures Between(q, lo, hi + 1) == Between(q, lo, hi)[hi := q[hi]]
    ensures Outside(q, lo, hi + 1) == Outside(q, lo, hi) - {hi}
    ensures |Outside(q, lo, hi + 1)| == |Outside(q, lo, hi)| - 1
  {
  }

  /** No gap between any two nonces. */
  ghost predicate Contiguous(nonces: set<nat>) {
    forall a, b, n :: a in nonces && b in nonces && a <= n <= b ==> n in nonces
  }

  // ---------------------------------------------------------------- nonce order

  ghost function Sorted(q: Queue): (s: seq<Transaction>)
    ensures |s| == |q|
    decreases |q|
  {
    if q == map[] then []
    else
      var low := Lowest(q.Keys);
      assert (q - {low}).Keys == q.Keys - {low};
      [q[low]] + Sorted(q - {low})
  }

  /** The queue without its k lowest nonces. */
  ghost function DropLowest(q: Queue, k: nat): Queue {
    if k == 0 || q == map[] then q else DropLowest(q - {Lowest(q.Keys)}, k - 1)
  }

  lemma SortedStep(q: Queue)
    requires q != map[]
    ensures var low := Lowest(q.Keys); var rest := q - {low};
            rest.Keys == q.Keys - {low} && |rest| == |q| - 1 && Sorted(q) == [q[low]] + Sorted(rest)
  {
    assert (q - {Lowest(q.Keys)}).Keys == q.Keys - {Lowest(q.Keys)};
  }

  lemma DropStep(q: Queue, fewer: nat, k: nat)
    requires k == fewer + 1 && q != map[]
    ensures DropLowest(q, k) == DropLowest(q - {Lowest(q.Keys)}, fewer)
  {
  }

  /** `rest` comes after the first of `whole`, and `end` is what `rest` has from k - 1 on. */
  lemma SliceCons(whole: seq<Transaction>, first: Transaction, rest: seq<Transaction>, end: seq<Transaction>, k: nat)
    requires k > 0 && whole == [first] + rest && end == rest[Min(k - 1, |rest|)..]
    ensures end == whole[Min(k, |whole|)..]
  {
  }

  /** `end` is what is left of a queue once its k lowest are dropped. */
  ghost predicate IsTail(end: Queue, q: Queue, k: nat) {
    Sorted(end) == Sorted(q)[Min(k, |q|)..] && |end| == |q| - Min(k, |q|)
  }

  lemma TailStep(end: Queue, q: Queue, fewer: nat, k: nat)
    requires k == fewer + 1 && q != map[] && IsTail(end, q - {Lowest(q.Keys)}, fewer)
    ensures IsTail(end, q, k)
  {
    var rest := q - {Lowest(q.Keys)};
    SortedStep(q);
    SliceCons(Sorted(q), q[Lowest(q.Keys)], Sorted(rest), Sorted(end), k);
  }

  lemma WholeTail(q: Queue, k: nat)
    requires k == 0 || q == map[]
    ensures DropLowest(q, k) == q && IsTail(q, q, k)
  {
  }

  lemma {:induction false} DropSorted(q: Queue, k: nat)
    ensures IsTail(DropLowest(q, k), q, k)
    decreases k
  {
    if k > 0 && q != map[] {
      var rest, fewer := q - {Lowest(q.Keys)}, k - 1;
      DropSorted(rest, fewer);
      DropStep(q, fewer, k);
      TailStep(DropLowest(rest, fewer), q, fewer, k);
    } else {
      WholeTail(q, k);
    }
  }

  /** Dropping one more drops the lowest of what is left. */
  lemma {:induction false} DropOneMore(q: Queue, k: nat)
    ensures var rest := DropLowest(q, k);
            DropLowest(q, k + 1) == if rest == map[] then rest else rest - {Lowest(rest.Keys)}
  {
    if k > 0 && q != map[] {
      DropOneMore(q - {Lowest(q.Keys)}, k - 1);
    }
  }

  ghost predicate IsPart(part: Queue, q: Queue) {
    forall n :: n in part ==> n in q && part[n] == q[n]
  }

  lemma {:induction false} DropIsPart(q: Queue, k: nat)
    ensures IsPart(DropLowest(q, k), q)
  {
    if k > 0 && q != map[] {
      DropIsPart(q - {Lowest(q.Keys)}, k - 1);
    }
  }

  /** Every transaction of the queue is filed under its own nonce and sent by its owner. */
  ghost predicate Filed(q: Queue, owner: Address) {
    forall n :: n in q ==> q[n].nonce == n && q[n].from == owner
  }

  ghost predicate Ascending(s: seq<Transaction>) {
    forall i, j :: 0 <= i < j < |s| ==> s[i].nonce < s[j].nonce
  }

  /** Reading in nonce order lists exactly the transactions of the queue. */
  lemma {:induction false} SortedLists(q: Queue, owner: Address)
    requires Filed(q, owner)
    ensures forall tx :: tx in Sorted(q) <==> tx.nonce in q && q[tx.nonce] == tx
    decreases |q|
  {
    if q != map[] {
      var low := Lowest(q.Keys);
      var rest := q - {low};
      assert rest.Keys == q.Keys - {low};
      SortedLists(rest, owner);
      assert Sorted(q) == [q[low]] + Sorted(rest);
      forall tx
        ensures tx in Sorted(q) <==> tx.nonce in q && q[tx.nonce] == tx
      {
        assert tx in Sorted(q) <==> tx == q[low] || tx in Sorted(rest);
      }
    }
  }

  lemma AscendingCons(tx: Transaction, s: seq<Transaction>)
    requires Ascending(s) && forall u :: u in s ==> tx.nonce < u.nonce
    ensures Ascending([tx] + s)
  {
  }

  lemma LowestFirst(q: Queue, owner: Address)
    requires Filed(q, owner) && q != map[]
    ensures var low := Lowest(q.Keys); forall u :: u in Sorted(q - {low}) ==> q[low].nonce < u.nonce
  {
    var low := Lowest(q.Keys);
    SortedLists(q - {low}, owner);
    forall u | u in Sorted(q - {low})
      ensures q[low].nonce < u.nonce
    {
      assert u.nonce in q - {low};
    }
  }

  lemma {:induction false} SortedAscends(q: Queue, owner: Address)
    requires Filed(q, owner)
    ensures Ascending(Sorted(q))
    decreases |q|
  {
    if q != map[] {
      var low := Lowest(q.Keys);
      assert (q - {low}).Keys == q.Keys - {low};
      LowestFirst(q, owner);
      SortedAscends(q - {low}, owner);
      AscendingCons(q[low], Sorted(q - {low}));
    }
  }

  /** Without its lowest nonce a gap-free queue has no gap and starts one higher. */
  lemma RestContiguous(q: Queue)
    requires Contiguous(q.Keys) && q != map[]
    ensures var low := Lowest(q.Keys); var rest := q - {low};
            && rest.Keys == q.Keys - {low}
            && Contiguous(rest.Keys)
            && (rest != map[] ==> Lowest(rest.Keys) == low + 1)
  {
    var low := Lowest(q.Keys);
    var rest := q - {low};
    assert rest.Keys == q.Keys - {low};
    if rest != map[] {
      var m := Lowest(rest.Keys);
      assert low in q.Keys && m in q.Keys && low <= low + 1 <= m;
      assert low + 1 in rest.Keys;
    }
  }

  lemma SortedTail(q: Queue, fewer: nat, k: nat)
    requires k == fewer + 1 && k < |q|
    ensures fewer < |q - {Lowest(q.Keys)}| && Sorted(q)[k] == Sorted(q - {Lowest(q.Keys)})[fewer]
  {
    SortedStep(q);
  }

  /** In a gap-free queue the k-th transaction has the k-th nonce from the lowest on. */
  lemma {:induction false} SortedConsecutive(q: Queue, owner: Address, k: nat)
    requires Filed(q, owner) && Contiguous(q.Keys) && k < |q|
    ensures Sorted(q)[k].nonce == Lowest(q.Keys) + k
    decreases k
  {
    if k == 0 {
      SortedStep(q);
    } else {
      var rest, fewer := q - {Lowest(q.Keys)}, k - 1;
      RestContiguous(q);
      SortedTail(q, fewer, k);
      SortedConsecutive(rest, owner, fewer);
    }
  }
}
