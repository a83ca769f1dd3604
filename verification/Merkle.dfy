/** The Merkle root of a block: the level-by-level loop of blockchain/utils.go, a top-down
    tree it is proved equal to, and what an equal root says about the leaves. The tree is
    written for any nodes and any way of combining two of them; the node combines two
    32-byte hashes by hashing their concatenation. */
module Merkle {
  import opened Text

  type Hash = seq<Byte> -> Digest

  /** The 64 bytes that are hashed for a parent node. */
  function Join(left: Digest, right: Digest): (bytes: seq<Byte>)
    ensures |bytes| == 64 && bytes[..32] == left && bytes[32..] == right
  {
    var l: seq<Byte> := left;
    l + right
  }

  function Combiner(keccak: Hash): (Digest, Digest) -> Digest {
    (left, right) => keccak(Join(left, right))
  }

  // ---------------------------------------------------------------- one level of the loop

  /** The right neighbour of node 2k; the last node of an odd level stands in for itself. */
  function RightOf<N>(level: seq<N>, k: nat): N
    requires 2 * k < |level|
  {
    if 2 * k + 1 < |level| then level[2 * k + 1] else level[2 * k]
  }

  function Parents<N>(combine: (N, N) -> N, level: seq<N>): (up: seq<N>)
    ensures |up| == (|level| + 1) / 2
    ensures forall k :: 0 <= k < |up| ==> up[k] == combine(level[2 * k], RightOf(level, k))
  {
    seq((|level| + 1) / 2, k requires 0 <= k < (|level| + 1) / 2 => combine(level[2 * k], RightOf(level, k)))
  }

  // ---------------------------------------------------------------- the top-down tree

  function Pow2(h: nat): (p: nat)
    ensures p >= 1
  {
    if h == 0 then 1 else 2 * Pow2(h - 1)
  }

  /** The two subtrees under a root of height h: split at the power of two, or the whole list
      twice when it fits into the left half. */
  function LeftHalf<N>(h: nat, leaves: seq<N>): (half: seq<N>)
    requires h >= 1 && 1 <= |leaves| <= Pow2(h)
    ensures 1 <= |half| <= Pow2(h - 1)
  {
    if |leaves| <= Pow2(h - 1) then leaves else leaves[..Pow2(h - 1)]
  }

  function RightHalf<N>(h: nat, leaves: seq<N>): (half: seq<N>)
    requires h >= 1 && 1 <= |leaves| <= Pow2(h)
    ensures 1 <= |half| <= Pow2(h - 1)
  {
    if |leaves| <= Pow2(h - 1) then leaves else leaves[Pow2(h - 1)..]
  }

  /** The root of the tree of height h over at most 2^h leaves. */
  function Tree<N>(combine: (N, N) -> N, h: nat, leaves: seq<N>): N
    requires 1 <= |leaves| <= Pow2(h)
  {
    if h == 0 then leaves[0]
    else combine(Tree(combine, h - 1, LeftHalf(h, leaves)), Tree(combine, h - 1, RightHalf(h, leaves)))
  }

  /** The least h with n <= 2^h, that is, the base-two logarithm of n rounded up. */
  function Height(n: nat): (h: nat)
    requires n >= 1
    ensures n <= Pow2(h)
    ensures h > 0 ==> Pow2(h - 1) < n
  {
    if n == 1 then 0 else 1 + Height((n + 1) / 2)
  }

  /** Taking parents commutes with splitting. */
  lemma ParentsOfHalves<N>(combine: (N, N) -> N, g: nat, h: nat, leaves: seq<N>)
    requires h == g + 1 && g >= 1 && 1 <= |leaves| <= Pow2(h)
    ensures |Parents(combine, leaves)| <= Pow2(g)
    ensures LeftHalf(g, Parents(combine, leaves)) == Parents(combine, LeftHalf(h, leaves))
    ensures RightHalf(g, Parents(combine, leaves)) == Parents(combine, RightHalf(h, leaves))
  {
    var half := Pow2(g);
    assert half == 2 * Pow2(g - 1);
    if |leaves| > half {
      assert Parents(combine, leaves)[..half / 2] == Parents(combine, leaves[..half]);
      assert Parents(combine, leaves)[half / 2..] == Parents(combine, leaves[half..]);
    }
  }

  lemma LowestTree<N>(combine: (N, N) -> N, leaves: seq<N>)
    requires 1 <= |leaves| <= 2
    ensures |Parents(combine, leaves)| == 1
    ensures Tree(combine, 1, leaves) == Parents(combine, leaves)[0]
  {
  }

  lemma TreeHalves<N>(combine: (N, N) -> N, g: nat, h: nat, leaves: seq<N>)
    requires h == g + 1 && 1 <= |leaves| <= Pow2(h)
    ensures Tree(combine, h, leaves) ==
            combine(Tree(combine, g, LeftHalf(h, leaves)), Tree(combine, g, RightHalf(h, leaves)))
  {
  }

  lemma PeelHalves<N>(combine: (N, N) -> N, f: nat, g: nat, h: nat, leaves: seq<N>)
    requires g == f + 1 && h == g + 1 && 1 <= |leaves| <= Pow2(h)
    requires var left := LeftHalf(h, leaves);
             |Parents(combine, left)| <= Pow2(f) && Tree(combine, g, left) == Tree(combine, f, Parents(combine, left))
    requires var right := RightHalf(h, leaves);
             |Parents(combine, right)| <= Pow2(f) && Tree(combine, g, right) == Tree(combine, f, Parents(combine, right))
    ensures |Parents(combine, leaves)| <= Pow2(g)
    ensures Tree(combine, h, leaves) == Tree(combine, g, Parents(combine, leaves))
  {
    ParentsOfHalves(combine, g, h, leaves);
    TreeHalves(combine, g, h, leaves);
    TreeHalves(combine, f, g, Parents(combine, leaves));
  }

  /** Going up one level of the loop is peeling the bottom layer off the tree. */
  lemma {:induction false} TreeOfParents<N>(combine: (N, N) -> N, g: nat, h: nat, leaves: seq<N>)
    requires h == g + 1 && 1 <= |leaves| <= Pow2(h)
    ensures |Parents(combine, leaves)| <= Pow2(g)
    ensures Tree(combine, h, leaves) == Tree(combine, g, Parents(combine, leaves))
    decreases h
  {
    if g == 0 {
      LowestTree(combine, leaves);
    } else {
      var f := g - 1;
      TreeOfParents(combine, f, g, LeftHalf(h, leaves));
      TreeOfParents(combine, f, g, RightHalf(h, leaves));
      PeelHalves(combine, f, g, h, leaves);
    }
  }

  // ---------------------------------------------------------------- BuildMerkleTree

  predicate IsHashText(s: string) {
    |s| == 64 && DecodeHex(s).Some?
  }

  function DecodeHash(s: string): Digest
    requires IsHashText(s)
  {
    DecodeHex(s).value
  }

  predicate AreHashTexts(texts: seq<string>) {
    forall i :: 0 <= i < |texts| ==> IsHashText(texts[i])
  }

  function DecodeHashes(texts: seq<string>): (hashes: seq<Digest>)
    requires AreHashTexts(texts)
    ensures |hashes| == |texts|
    ensures forall i :: 0 <= i < |texts| ==> hashes[i] == DecodeHash(texts[i])
  {
    seq(|texts|, i requires 0 <= i < |texts| => DecodeHash(texts[i]))
  }

  /** The root the top-down tree assigns to a list of hash texts, if it has one. */
  function RootOf(keccak: Hash, texts: seq<string>): Option<string> {
    if texts == [] || !AreHashTexts(texts) then None
    else Some(EncodeHex(Tree(Combiner(keccak), Height(|texts|), DecodeHashes(texts))))
  }

  /** The first loop: from texts to hashes, stopping at the first text that is no hash. */
  method ReadHashes(texts: seq<string>) returns (hashes: Option<seq<Digest>>)
    ensures hashes == if AreHashTexts(texts) then Some(DecodeHashes(texts)) else None
  {
    var read: seq<Digest> := [];
    for i := 0 to |texts|
      invariant |read| == i
      invariant forall k :: 0 <= k < i ==> IsHashText(texts[k]) && read[k] == DecodeHash(texts[k])
    {
      if |texts[i]| != 64 {
        return None;
      }
      var hash := DecodeHex(texts[i]);
      if hash.None? {
        return None;
      }
      read := read + [hash.value];
    }
    assert read == DecodeHashes(texts);
    hashes := Some(read);
  }

  /** The inner loop: repeat the last node of an odd level, then hash the nodes two by two. */
  method ParentLevel(keccak: Hash, level: seq<Digest>) returns (parentHashes: seq<Digest>)
    requires level != []
    ensures parentHashes == Parents(Combiner(keccak), level)
  {
    var hashes := level;
    if |hashes| % 2 != 0 {
      hashes := hashes + [hashes[|hashes| - 1]];
    }
    parentHashes := [];
    var i := 0;
    while i < |hashes|
      invariant 0 <= i <= |hashes| && i % 2 == 0 && |parentHashes| == i / 2
      invariant forall k :: 0 <= k < i / 2 ==> parentHashes[k] == Combiner(keccak)(level[2 * k], RightOf(level, k))
    {
      parentHashes := parentHashes + [keccak(Join(hashes[i], hashes[i + 1]))];
      i := i + 2;
    }
  }

  /** The source's function. It fails on an empty list and on a text that is no 32-byte hash;
      otherwise it climbs exactly Height(n) levels and returns the root of the top-down tree. */
  method BuildMerkleTree(keccak: Hash, transactionHashes: seq<string>)
    returns (root: Option<string>, levels: nat)
    ensures root == RootOf(keccak, transactionHashes)
    ensures root.Some? ==> levels == Height(|transactionHashes|)
  {
    levels := 0;
    if |transactionHashes| == 0 {
      return None, 0;
    }
    var read := ReadHashes(transactionHashes);
    if read.None? {
      return None, 0;
    }
    var hashes := read.value;
    ghost var combine, n := Combiner(keccak), |hashes|;
    ghost var target := Tree(combine, Height(n), hashes);
    while |hashes| > 1
      invariant |hashes| >= 1
      invariant levels + Height(|hashes|) == Height(n)
      invariant Tree(combine, Height(|hashes|), hashes) == target
      decreases |hashes|
    {
      TreeOfParents(combine, Height(|hashes|) - 1, Height(|hashes|), hashes);
      hashes := ParentLevel(keccak, hashes);
      levels := levels + 1;
    }
    root := Some(EncodeHex(hashes[0]));
  }

  // ---------------------------------------------------------------- binding

  /** The 2^h leaves the tree of height h really stands on, once every stand-in is written out. */
  function Expand<N>(h: nat, leaves: seq<N>): (all: seq<N>)
    requires 1 <= |leaves| <= Pow2(h)
    ensures |all| == Pow2(h)
  {
    if h == 0 then leaves else Expand(h - 1, LeftHalf(h, leaves)) + Expand(h - 1, RightHalf(h, leaves))
  }

  lemma PrefixOfSum<N>(a: seq<N>, b: seq<N>, x: seq<N>, y: seq<N>)
    requires a <= x && |a| == |x| && b <= y
    ensures a + b <= x + y
  {
  }

  lemma PrefixOfMore<N>(a: seq<N>, x: seq<N>, y: seq<N>)
    requires a <= x
    ensures a <= x + y
  {
  }

  lemma HalvesOfLarge<N>(h: nat, leaves: seq<N>)
    requires h >= 1 && Pow2(h - 1) < |leaves| <= Pow2(h)
    ensures |LeftHalf(h, leaves)| == Pow2(h - 1) && LeftHalf(h, leaves) + RightHalf(h, leaves) == leaves
  {
  }

  lemma ExpandHalves<N>(g: nat, h: nat, leaves: seq<N>)
    requires h == g + 1 && 1 <= |leaves| <= Pow2(h)
    ensures Expand(h, leaves) == Expand(g, LeftHalf(h, leaves)) + Expand(g, RightHalf(h, leaves))
  {
    assert Expand(h, leaves) == Expand(h - 1, LeftHalf(h, leaves)) + Expand(h - 1, RightHalf(h, leaves));
  }

  lemma PrefixOfHalves<N>(g: nat, h: nat, leaves: seq<N>, x: seq<N>, y: seq<N>)
    requires h == g + 1 && 1 <= |leaves| <= Pow2(h)
    requires LeftHalf(h, leaves) <= x && RightHalf(h, leaves) <= y && |x| == Pow2(g)
    ensures leaves <= x + y
  {
    if |leaves| <= Pow2(g) {
      PrefixOfMore(leaves, x, y);
    } else {
      HalvesOfLarge(h, leaves);
      PrefixOfSum(LeftHalf(h, leaves), RightHalf(h, leaves), x, y);
    }
  }

  /** The given leaves come first. */
  lemma {:induction false} ExpandPrefix<N>(h: nat, leaves: seq<N>)
    requires 1 <= |leaves| <= Pow2(h)
    ensures leaves <= Expand(h, leaves)
  {
    if h > 0 {
      var g := h - 1;
      ExpandPrefix(g, LeftHalf(h, leaves));
      ExpandPrefix(g, RightHalf(h, leaves));
      PrefixOfHalves(g, h, leaves, Expand(g, LeftHalf(h, leaves)), Expand(g, RightHalf(h, leaves)));
      ExpandHalves(g, h, leaves);
    }
  }

  lemma ExpandedHalves<N>(g: nat, h: nat, leaves: seq<N>)
    requires h == g + 1 && 1 <= |leaves| <= Pow2(h)
    ensures LeftHalf(h, Expand(h, leaves)) == Expand(g, LeftHalf(h, leaves))
    ensures RightHalf(h, Expand(h, leaves)) == Expand(g, RightHalf(h, leaves))
  {
    ExpandHalves(g, h, leaves);
  }

  lemma {:induction false} TreeOfExpand<N>(combine: (N, N) -> N, h: nat, leaves: seq<N>)
    requires 1 <= |leaves| <= Pow2(h)
    ensures Tree(combine, h, leaves) == Tree(combine, h, Expand(h, leaves))
  {
    if h > 0 {
      var g := h - 1;
      TreeOfExpand(combine, g, LeftHalf(h, leaves));
      TreeOfExpand(combine, g, RightHalf(h, leaves));
      ExpandedHalves(g, h, leaves);
      TreeHalves(combine, g, h, leaves);
      TreeHalves(combine, g, h, Expand(h, leaves));
    }
  }

  /** Every pair of nodes that is combined while the tree is computed. */
  ghost function Combined<N>(combine: (N, N) -> N, h: nat, leaves: seq<N>): set<(N, N)>
    requires 1 <= |leaves| <= Pow2(h)
  {
    if h == 0 then {}
    else
      Combined(combine, h - 1, LeftHalf(h, leaves)) + Combined(combine, h - 1, RightHalf(h, leaves))
      + {(Tree(combine, h - 1, LeftHalf(h, leaves)), Tree(combine, h - 1, RightHalf(h, leaves)))}
  }

  /** A pair combined for `a` and a different pair combined for `b` gave the same node. */
  ghost predicate Clash<N>(combine: (N, N) -> N, a: set<(N, N)>, b: set<(N, N)>) {
    exists x, y :: x in a && y in b && x != y && combine(x.0, x.1) == combine(y.0, y.1)
  }

  /** The two nodes right under the root. */
  ghost function Top<N>(combine: (N, N) -> N, h: nat, leaves: seq<N>): (N, N)
    requires h >= 1 && 1 <= |leaves| <= Pow2(h)
  {
    (Tree(combine, h - 1, LeftHalf(h, leaves)), Tree(combine, h - 1, RightHalf(h, leaves)))
  }

  /** What is the case for two lists with equal roots: they stand for the same leaves, or two
      pairs that were combined on the way clash. */
  ghost predicate BoundOrClash<N>(combine: (N, N) -> N, h: nat, a: seq<N>, b: seq<N>)
    requires 1 <= |a| <= Pow2(h) && 1 <= |b| <= Pow2(h)
  {
    Expand(h, a) == Expand(h, b) || Clash(combine, Combined(combine, h, a), Combined(combine, h, b))
  }

  lemma HalvesBind<N>(combine: (N, N) -> N, h: nat, a: seq<N>, b: seq<N>)
    requires h >= 1 && 1 <= |a| <= Pow2(h) && 1 <= |b| <= Pow2(h)
    requires BoundOrClash(combine, h - 1, LeftHalf(h, a), LeftHalf(h, b))
    requires BoundOrClash(combine, h - 1, RightHalf(h, a), RightHalf(h, b))
    ensures BoundOrClash(combine, h, a, b)
  {
  }

  lemma TopsClash<N>(combine: (N, N) -> N, h: nat, a: seq<N>, b: seq<N>)
    requires h >= 1 && 1 <= |a| <= Pow2(h) && 1 <= |b| <= Pow2(h)
    requires Tree(combine, h, a) == Tree(combine, h, b) && Top(combine, h, a) != Top(combine, h, b)
    ensures BoundOrClash(combine, h, a, b)
  {
  }

  /** Equal roots at equal heights bind the leaves the trees stand on, or a clash is found. */
  lemma {:induction false} EqualRoots<N>(combine: (N, N) -> N, h: nat, a: seq<N>, b: seq<N>)
    requires 1 <= |a| <= Pow2(h) && 1 <= |b| <= Pow2(h)
    requires Tree(combine, h, a) == Tree(combine, h, b)
    ensures BoundOrClash(combine, h, a, b)
  {
    if h > 0 {
      if Top(combine, h, a) == Top(combine, h, b) {
        EqualRoots(combine, h - 1, LeftHalf(h, a), LeftHalf(h, b));
        EqualRoots(combine, h - 1, RightHalf(h, a), RightHalf(h, b));
        HalvesBind(combine, h, a, b);
      } else {
        TopsClash(combine, h, a, b);
      }
    }
  }

  lemma SamePrefix<N>(a: seq<N>, b: seq<N>, x: seq<N>, y: seq<N>)
    requires |a| == |b| && a <= x && b <= y && x == y
    ensures a == b
  {
  }

  /** The root binds a list of a known length: two lists of the same length with the same root
      are the same list, unless two pairs combined on the way clash. */
  lemma MerkleBinding<N>(combine: (N, N) -> N, a: seq<N>, b: seq<N>)
    requires |a| == |b| >= 1
    requires Tree(combine, Height(|a|), a) == Tree(combine, Height(|b|), b)
    ensures var h := Height(|a|); a == b || Clash(combine, Combined(combine, h, a), Combined(combine, h, b))
  {
    var h := Height(|a|);
    EqualRoots(combine, h, a, b);
    if Expand(h, a) == Expand(h, b) {
      ExpandPrefix(h, a);
      ExpandPrefix(h, b);
      SamePrefix(a, b, Expand(h, a), Expand(h, b));
    }
  }

  /** Without the known length the root binds exactly the expanded leaves: barring a clash on
      the way, lists of the same height share a root if and only if they expand alike. */
  lemma RootBindsExpansion<N>(combine: (N, N) -> N, h: nat, a: seq<N>, b: seq<N>)
    requires 1 <= |a| <= Pow2(h) && 1 <= |b| <= Pow2(h)
    requires !Clash(combine, Combined(combine, h, a), Combined(combine, h, b))
    ensures Tree(combine, h, a) == Tree(combine, h, b) <==> Expand(h, a) == Expand(h, b)
  {
    if Tree(combine, h, a) == Tree(combine, h, b) {
      EqualRoots(combine, h, a, b);
    }
    TreeOfExpand(combine, h, a);
    TreeOfExpand(combine, h, b);
  }

  lemma SameHeight(n: nat)
    requires n % 2 == 1 && n > 1
    ensures Height(n + 1) == Height(n) >= 1
  {
    assert (n + 2) / 2 == (n + 1) / 2;
  }

  lemma SameParents<N>(combine: (N, N) -> N, leaves: seq<N>)
    requires |leaves| % 2 == 1
    ensures Parents(combine, leaves + [leaves[|leaves| - 1]]) == Parents(combine, leaves)
  {
  }

  lemma SameTree<N>(combine: (N, N) -> N, h: nat, leaves: seq<N>)
    requires h >= 1 && |leaves| % 2 == 1 && |leaves| + 1 <= Pow2(h)
    ensures Tree(combine, h, leaves + [leaves[|leaves| - 1]]) == Tree(combine, h, leaves)
  {
    var g, twice := h - 1, leaves + [leaves[|leaves| - 1]];
    SameParents(combine, leaves);
    TreeOfParents(combine, g, h, leaves);
    TreeOfParents(combine, g, h, twice);
  }

  /** The length does matter: repeating the last leaf of an odd list keeps the root. */
  lemma RepeatedLastLeaf<N>(combine: (N, N) -> N, leaves: seq<N>)
    requires |leaves| % 2 == 1 && |leaves| > 1
    ensures Height(|leaves| + 1) == Height(|leaves|)
    ensures var h := Height(|leaves|); Tree(combine, h, leaves + [leaves[|leaves| - 1]]) == Tree(combine, h, leaves)
  {
    SameHeight(|leaves|);
    SameTree(combine, Height(|leaves|), leaves);
  }

  /** Two different 64-byte inputs, one hashed for each list of leaves, with the same hash value. */
  ghost predicate HashCollision(keccak: Hash, a: seq<Digest>, b: seq<Digest>)
    requires |a| >= 1 && |b| >= 1
  {
    exists x, y ::
      x in Combined(Combiner(keccak), Height(|a|), a) && y in Combined(Combiner(keccak), Height(|b|), b)
      && Join(x.0, x.1) != Join(y.0, y.1) && keccak(Join(x.0, x.1)) == keccak(Join(y.0, y.1))
  }

  /** On the texts a block carries: equally many hash texts with the same root decode to the
      same hashes, unless two 64-byte inputs hashed on the way collide. */
  lemma RootTextBinding(keccak: Hash, a: seq<string>, b: seq<string>)
    requires |a| == |b| && RootOf(keccak, a).Some? && RootOf(keccak, a) == RootOf(keccak, b)
    ensures AreHashTexts(a) && AreHashTexts(b)
    ensures DecodeHashes(a) == DecodeHashes(b) || HashCollision(keccak, DecodeHashes(a), DecodeHashes(b))
  {
    var h, combine := Height(|a|), Combiner(keccak);
    var x, y := DecodeHashes(a), DecodeHashes(b);
    DecodeEncodeHex(Tree(combine, h, x));
    DecodeEncodeHex(Tree(combine, h, y));
    MerkleBinding(combine, x, y);
    if x != y {
      var p, q :| p in Combined(combine, h, x) && q in Combined(combine, h, y) && p != q
                  && combine(p.0, p.1) == combine(q.0, q.1);
      assert Join(p.0, p.1) != Join(q.0, q.1);
    }
  }

  // ---------------------------------------------------------------- the texts themselves

  /** The texts a list of hashes is printed as. */
  function Texts(hashes: seq<Digest>): (texts: seq<string>)
    ensures |texts| == |hashes| && forall i :: 0 <= i < |hashes| ==> texts[i] == EncodeHex(hashes[i])
  {
    seq(|hashes|, i requires 0 <= i < |hashes| => EncodeHex(hashes[i]))
  }

  lemma TextsDecode(hashes: seq<Digest>)
    ensures AreHashTexts(Texts(hashes)) && DecodeHashes(Texts(hashes)) == hashes
  {
    forall i | 0 <= i < |hashes|
      ensures IsHashText(Texts(hashes)[i]) && DecodeHash(Texts(hashes)[i]) == hashes[i]
    {
      DecodeEncodeHex(hashes[i]);
    }
  }

  /** The root of printed hashes is the printed root of the tree over these hashes. */
  lemma RootOfTexts(keccak: Hash, hashes: seq<Digest>)
    requires hashes != []
    ensures RootOf(keccak, Texts(hashes)) == Some(EncodeHex(Tree(Combiner(keccak), Height(|hashes|), hashes)))
  {
    TextsDecode(hashes);
  }

  /** One transaction: its hash is the root. */
  lemma RootOfOne(keccak: Hash, a: Digest)
    ensures RootOf(keccak, [EncodeHex(a)]) == Some(EncodeHex(a))
  {
    assert Texts([a]) == [EncodeHex(a)];
    RootOfTexts(keccak, [a]);
  }

  /** The bytes of one node and then those of the other are hashed. */
  function Pair(keccak: Hash, a: Digest, b: Digest): Digest {
    keccak(a[..] + b[..])
  }

  /** Five transactions, written out: the last one is hashed with itself, and so is what comes of it. */
  lemma RootOfFive(keccak: Hash, a: Digest, b: Digest, c: Digest, d: Digest, e: Digest)
    ensures RootOf(keccak, [EncodeHex(a), EncodeHex(b), EncodeHex(c), EncodeHex(d), EncodeHex(e)]) ==
            Some(EncodeHex(Pair(keccak,
              Pair(keccak, Pair(keccak, a, b), Pair(keccak, c, d)),
              Pair(keccak, Pair(keccak, e, e), Pair(keccak, e, e)))))
  {
    var combine, leaves := Combiner(keccak), [a, b, c, d, e];
    assert Texts(leaves) == [EncodeHex(a), EncodeHex(b), EncodeHex(c), EncodeHex(d), EncodeHex(e)];
    RootOfTexts(keccak, leaves);
    CombinerIsPair(keccak);
    TreeOfFive(combine, leaves);
  }

  lemma CombinerIsPair(keccak: Hash)
    ensures forall x, y :: Combiner(keccak)(x, y) == Pair(keccak, x, y)
  {
    forall x: Digest, y: Digest
      ensures Combiner(keccak)(x, y) == Pair(keccak, x, y)
    {
      assert Join(x, y) == x[..] + y[..];
    }
  }

  lemma TreeOfFive<N>(combine: (N, N) -> N, leaves: seq<N>)
    requires |leaves| == 5
    ensures Height(5) == 3 && 5 <= Pow2(3)
    ensures Tree(combine, 3, leaves) ==
            combine(combine(combine(leaves[0], leaves[1]), combine(leaves[2], leaves[3])),
                    combine(combine(leaves[4], leaves[4]), combine(leaves[4], leaves[4])))
  {
    assert Height(1) == 0 && Height(2) == 1 && Height(3) == 2;
    assert Pow2(0) == 1 && Pow2(1) == 2 && Pow2(2) == 4;
    TreeHalves(combine, 2, 3, leaves);
    TreeOfFour(combine, leaves[..4]);
    TreeHalves(combine, 1, 2, leaves[4..]);
    TreeHalves(combine, 0, 1, leaves[4..]);
  }

  lemma TreeOfFour<N>(combine: (N, N) -> N, leaves: seq<N>)
    requires |leaves| == 4
    ensures 4 <= Pow2(2)
    ensures Tree(combine, 2, leaves) == combine(combine(leaves[0], leaves[1]), combine(leaves[2], leaves[3]))
  {
    assert Pow2(0) == 1 && Pow2(1) == 2;
    TreeHalves(combine, 1, 2, leaves);
    TreeHalves(combine, 0, 1, leaves[..2]);
    TreeHalves(combine, 0, 1, leaves[2..]);
  }

  /** There is a root if and only if there is a text and every text is one of 64 hexadecimal digits. */
  lemma RootExistsIff(keccak: Hash, texts: seq<string>)
    ensures RootOf(keccak, texts).Some? <==> texts != [] && forall i :: 0 <= i < |texts| ==> |texts[i]| == 64 && IsHex(texts[i])
  {
    forall i | 0 <= i < |texts|
      ensures IsHashText(texts[i]) <==> |texts[i]| == 64 && IsHex(texts[i])
    {
      DecodesIff(texts[i]);
    }
  }

  /** On the texts a block carries: equally many texts with the same root are the same texts up to
      capitals, unless two 64-byte inputs hashed on the way collide. */
  lemma RootBindsTexts(keccak: Hash, a: seq<string>, b: seq<string>)
    requires |a| == |b| && RootOf(keccak, a).Some? && RootOf(keccak, a) == RootOf(keccak, b)
    ensures AreHashTexts(a) && AreHashTexts(b)
    ensures (forall i :: 0 <= i < |a| ==> Lower(a[i]) == Lower(b[i]))
            || HashCollision(keccak, DecodeHashes(a), DecodeHashes(b))
  {
    RootTextBinding(keccak, a, b);
    if DecodeHashes(a) == DecodeHashes(b) {
      forall i | 0 <= i < |a|
        ensures Lower(a[i]) == Lower(b[i])
      {
        assert DecodeHash(a[i]) == DecodeHashes(a)[i] == DecodeHashes(b)[i] == DecodeHash(b[i]);
        EncodeDecodeHex(a[i]);
        EncodeDecodeHex(b[i]);
      }
    }
  }
}
