/** What round-robin extraction means for each account, whatever order the accounts come in:
    exactly its lowest transactions are taken, in ascending order, and no account falls more
    than one transaction behind another unless it has run out. */
module Rotation {
  import opened Types
  import opened Queues
  import opened Pools

  /** The transactions of one sender, in the order they occur. */
  function Of(txs: seq<Transaction>, a: Address): seq<Transaction> {
    if txs == [] then []
    else
      var last := txs[|txs| - 1];
      Of(txs[..|txs| - 1], a) + if last.from == a then [last] else []
  }

  lemma OfSnoc(txs: seq<Transaction>, tx: Transaction, a: Address)
    ensures Of(txs + [tx], a) == Of(txs, a) + if tx.from == a then [tx] else []
  {
  }

  lemma {:induction false} OfConcat(s: seq<Transaction>, t: seq<Transaction>, a: Address)
    ensures Of(s + t, a) == Of(s, a) + Of(t, a)
  {
    if t == [] {
      assert s + t == s;
    } else {
      OfConcat(s, t[..|t| - 1], a);
      assert (s + t)[..|s + t| - 1] == s + t[..|t| - 1];
    }
  }

  lemma {:induction false} OfMembers(txs: seq<Transaction>, a: Address, tx: Transaction)
    ensures tx in Of(txs, a) <==> tx in txs && tx.from == a
  {
    if txs != [] {
      OfMembers(txs[..|txs| - 1], a, tx);
      assert txs == txs[..|txs| - 1] + [txs[|txs| - 1]];
    }
  }

  /** Every queue of the shelf belongs to the account it is kept under. */
  ghost predicate FiledShelf(shelf: Shelf) {
    forall a :: a in shelf ==> Filed(shelf[a], a)
  }

  lemma SortedFrom(shelf: Shelf, a: Address, k: nat)
    requires FiledShelf(shelf) && k < |Sorted(At(shelf, a))|
    ensures Sorted(At(shelf, a))[k].from == a
  {
    SortedLists(At(shelf, a), a);
    assert Sorted(At(shelf, a))[k] in Sorted(At(shelf, a));
  }

  /** The k lowest transactions of a queue, or all of them. */
  ghost function Firsts(q: Queue, k: nat): (s: seq<Transaction>)
    ensures |s| == Min(k, |q|)
  {
    Sorted(q)[..Min(k, |q|)]
  }

  /** What one more visit to an account meets. */
  ghost function Met(q: Queue, r: nat): seq<Transaction> {
    if r < |Sorted(q)| then [Sorted(q)[r]] else []
  }

  lemma FirstsOneMore(q: Queue, r: nat)
    ensures Firsts(q, r + 1) == Firsts(q, r) + Met(q, r)
  {
  }

  /** One more visit, seen from any account. */
  lemma VisitOf(shelf: Shelf, a: Address, r: nat, before: seq<Transaction>, b: Address)
    requires FiledShelf(shelf)
    ensures Of(before + Met(At(shelf, a), r), b) == Of(before, b) + if a == b then Met(At(shelf, a), r) else []
  {
    if r < |Sorted(At(shelf, a))| {
      SortedFrom(shelf, a, r);
      OfSnoc(before, Sorted(At(shelf, a))[r], b);
    } else {
      assert before + [] == before;
    }
  }

  lemma VisitedStep(shelf: Shelf, order: seq<Address>, r: nat, before: nat, i: nat)
    requires i == before + 1 && i <= |order|
    ensures Visited(shelf, order, r, i) == Visited(shelf, order, r, before) + Met(At(shelf, order[before]), r)
  {
  }

  lemma VisitedRound(shelf: Shelf, order: seq<Address>, done: nat, r: nat)
    requires r == done + 1
    ensures Visited(shelf, order, r, 0) == Visited(shelf, order, done, |order|)
  {
  }

  /** Of the visited transactions, those of the j-th account are its lowest, one a visit. */
  lemma {:induction false} VisitedOf(shelf: Shelf, order: seq<Address>, r: nat, i: nat, j: nat)
    requires FiledShelf(shelf) && NoRepeats(order) && i <= |order| && j < |order|
    ensures Of(Visited(shelf, order, r, i), order[j]) == Firsts(At(shelf, order[j]), Visits(j, r, i))
    decreases r, i
  {
    if i > 0 {
      var before := i - 1;
      VisitedOf(shelf, order, r, before, j);
      VisitedStep(shelf, order, r, before, i);
      VisitOf(shelf, order[before], r, Visited(shelf, order, r, before), order[j]);
      FirstsOneMore(At(shelf, order[j]), r);
      assert order[before] == order[j] <==> before == j;
    } else if r > 0 {
      var done := r - 1;
      VisitedOf(shelf, order, done, |order|, j);
      VisitedRound(shelf, order, done, r);
    }
  }

  lemma MetFrom(shelf: Shelf, a: Address, r: nat)
    requires FiledShelf(shelf) && a in shelf
    ensures forall tx :: tx in Met(At(shelf, a), r) ==>
              tx.from == a && tx.nonce in shelf[a] && shelf[a][tx.nonce] == tx
  {
    var queue := Sorted(shelf[a]);
    SortedLists(shelf[a], a);
    if r < |queue| {
      assert queue[r] in queue;
    }
  }

  /** The transaction lies in the shelf, under its sender and nonce. */
  ghost predicate LiesIn(shelf: Shelf, tx: Transaction) {
    tx.from in shelf && tx.nonce in shelf[tx.from] && shelf[tx.from][tx.nonce] == tx
  }

  /** Nothing is visited that is not in the shelf. */
  lemma {:induction false} VisitedFrom(shelf: Shelf, order: seq<Address>, r: nat, i: nat)
    requires FiledShelf(shelf) && IsOrder(order, shelf.Keys) && i <= |order|
    ensures forall tx :: tx in Visited(shelf, order, r, i) ==> LiesIn(shelf, tx)
    decreases r, i
  {
    if i > 0 {
      var before := i - 1;
      VisitedFrom(shelf, order, r, before);
      MetFrom(shelf, order[before], r);
      VisitedStep(shelf, order, r, before, i);
    } else if r > 0 {
      var done := r - 1;
      VisitedFrom(shelf, order, done, |order|);
      VisitedRound(shelf, order, done, r);
    }
  }

  /** `taken` are the lowest transactions of a queue and `rest` is the queue without them. */
  ghost predicate TookLowest(whole: Queue, taken: seq<Transaction>, rest: Queue) {
    && |taken| <= |whole|
    && taken == Sorted(whole)[..|taken|]
    && rest == DropLowest(whole, |taken|)
  }

  lemma TookByVisits(whole: Queue, v: nat, taken: seq<Transaction>, rest: Queue)
    requires taken == Firsts(whole, v) && rest == DropLowest(whole, v)
    ensures TookLowest(whole, taken, rest) && |taken| == Min(v, |whole|)
  {
    DropSorted(whole, v);
    DropSorted(whole, |whole|);
  }

  /** What the visits have taken from an account is the lowest it had: as many as it was visited,
      up to all. */
  lemma TakenFrom(shelf: Shelf, order: seq<Address>, r: nat, i: nat, a: Address)
    requires FiledShelf(shelf) && IsOrder(order, shelf.Keys) && i <= |order|
    ensures var taken := Of(Visited(shelf, order, r, i), a);
            TookLowest(At(shelf, a), taken, At(Left(shelf, order, r, i), a)) && Min(r, |At(shelf, a)|) <= |taken| <= r + 1
  {
    if a in shelf {
      var j :| 0 <= j < |order| && order[j] == a;
      VisitedOf(shelf, order, r, i, j);
      LeftAt(shelf, order, r, i, j);
      TookByVisits(At(shelf, a), Visits(j, r, i), Of(Visited(shelf, order, r, i), a), At(Left(shelf, order, r, i), a));
    } else {
      NothingOf(shelf, order, r, i, a);
      LeftKeys(shelf, order, r, i);
    }
  }

  lemma {:induction false} LeftKeys(shelf: Shelf, order: seq<Address>, r: nat, i: nat)
    requires i <= |order|
    ensures Left(shelf, order, r, i).Keys <= shelf.Keys
    decreases r, i
  {
    if i > 0 {
      LeftKeys(shelf, order, r, i - 1);
    } else if r > 0 {
      LeftKeys(shelf, order, r - 1, |order|);
    }
  }

  lemma NothingOf(shelf: Shelf, order: seq<Address>, r: nat, i: nat, a: Address)
    requires FiledShelf(shelf) && IsOrder(order, shelf.Keys) && i <= |order| && a !in shelf
    ensures Of(Visited(shelf, order, r, i), a) == []
  {
    VisitedFrom(shelf, order, r, i);
    OfNobody(Visited(shelf, order, r, i), a);
  }

  lemma {:induction false} OfNobody(txs: seq<Transaction>, a: Address)
    requires forall tx :: tx in txs ==> tx.from != a
    ensures Of(txs, a) == []
  {
    if txs != [] {
      OfNobody(txs[..|txs| - 1], a);
    }
  }

  /** As many are taken as were asked for, if so many are pending; none for a limit of 0 or below. */
  lemma ExtractionSize(shelf: Shelf, maxTxs: int, order: seq<Address>, r: nat, i: nat,
                       blockTxs: seq<Transaction>, left: Shelf)
    requires Extracts(shelf, maxTxs, order, r, i, blockTxs, left)
    ensures |blockTxs| == if maxTxs <= 0 then 0 else Min(maxTxs, TotalPending(shelf))
  {
  }

  /** Extraction is a partition: for every account, what was taken followed by what is left, in
      nonce order, is what there was; every transaction taken was pending; and exactly as many
      were taken as were asked for and available. */
  lemma ExtractionPartition(shelf: Shelf, maxTxs: int, order: seq<Address>, r: nat, i: nat,
                            blockTxs: seq<Transaction>, left: Shelf, a: Address)
    requires FiledShelf(shelf) && Extracts(shelf, maxTxs, order, r, i, blockTxs, left)
    ensures Of(blockTxs, a) + Sorted(At(left, a)) == Sorted(At(shelf, a))
    ensures forall tx :: tx in Of(blockTxs, a) ==> tx.nonce in At(shelf, a) && At(shelf, a)[tx.nonce] == tx
    ensures |blockTxs| == if maxTxs <= 0 then 0 else Min(maxTxs, TotalPending(shelf))
  {
    TakenFrom(shelf, order, r, i, a);
    TookPartition(At(shelf, a), Of(blockTxs, a), At(left, a), a);
  }

  lemma TookSplit(whole: Queue, taken: seq<Transaction>, rest: Queue)
    requires TookLowest(whole, taken, rest)
    ensures taken + Sorted(rest) == Sorted(whole)
  {
    DropSorted(whole, |taken|);
  }

  lemma TookPartition(whole: Queue, taken: seq<Transaction>, rest: Queue, a: Address)
    requires Filed(whole, a) && TookLowest(whole, taken, rest)
    ensures taken + Sorted(rest) == Sorted(whole)
    ensures forall tx :: tx in taken ==> tx.nonce in whole && whole[tx.nonce] == tx
  {
    TookSplit(whole, taken, rest);
    SortedLists(whole, a);
    assert forall tx :: tx in taken ==> tx in Sorted(whole);
  }

  /** Per account the block is ascending, and everything taken lies below everything left. */
  lemma ExtractionAscends(shelf: Shelf, maxTxs: int, order: seq<Address>, r: nat, i: nat,
                          blockTxs: seq<Transaction>, left: Shelf, a: Address)
    requires FiledShelf(shelf) && Extracts(shelf, maxTxs, order, r, i, blockTxs, left)
    ensures Ascending(Of(blockTxs, a))
    ensures forall tx, n :: tx in Of(blockTxs, a) && n in At(left, a) ==> tx.nonce < n
  {
    TakenFrom(shelf, order, r, i, a);
    TookAscends(At(shelf, a), Of(blockTxs, a), At(left, a), a);
  }

  lemma TookAscends(whole: Queue, taken: seq<Transaction>, rest: Queue, a: Address)
    requires Filed(whole, a) && TookLowest(whole, taken, rest)
    ensures Ascending(taken)
    ensures forall tx, n :: tx in taken && n in rest ==> tx.nonce < n
  {
    SortedAscends(whole, a);
    DropSorted(whole, |taken|);
    RestListed(whole, |taken|, a);
    forall tx, n | tx in taken && n in rest
      ensures tx.nonce < n
    {
      assert rest[n] in Sorted(whole)[|taken|..];
      AscendingSplit(Sorted(whole), |taken|, tx, rest[n]);
    }
  }

  lemma RestListed(whole: Queue, k: nat, a: Address)
    requires Filed(whole, a) && k <= |whole|
    ensures var rest := DropLowest(whole, k);
            Filed(rest, a) && forall n :: n in rest ==> rest[n] in Sorted(whole)[k..]
  {
    DropSorted(whole, k);
    DropIsPart(whole, k);
    SortedLists(DropLowest(whole, k), a);
  }

  lemma AscendingSplit(s: seq<Transaction>, k: nat, low: Transaction, high: Transaction)
    requires Ascending(s) && k <= |s| && low in s[..k] && high in s[k..]
    ensures low.nonce < high.nonce
  {
  }

  lemma ExtractedBounds(shelf: Shelf, maxTxs: int, order: seq<Address>, r: nat, i: nat,
                        blockTxs: seq<Transaction>, left: Shelf, a: Address)
    requires FiledShelf(shelf) && Extracts(shelf, maxTxs, order, r, i, blockTxs, left)
    ensures Min(r, |At(shelf, a)|) <= |Of(blockTxs, a)| <= r + 1
  {
    TakenFrom(shelf, order, r, i, a);
  }

  /** Fairness: an account that is more than one transaction behind another has run out. */
  lemma ExtractionIsFair(shelf: Shelf, maxTxs: int, order: seq<Address>, r: nat, i: nat,
                         blockTxs: seq<Transaction>, left: Shelf, a: Address, b: Address)
    requires FiledShelf(shelf) && Extracts(shelf, maxTxs, order, r, i, blockTxs, left)
    ensures |Of(blockTxs, a)| >= Min(|At(shelf, a)|, |Of(blockTxs, b)| - 1)
  {
    ExtractedBounds(shelf, maxTxs, order, r, i, blockTxs, left, a);
    ExtractedBounds(shelf, maxTxs, order, r, i, blockTxs, left, b);
  }

  lemma WithoutLowestAccounts(shelf: Shelf, a: Address, b: Address)
    ensures b in WithoutLowest(shelf, a) <==>
            b in shelf && (At(WithoutLowest(shelf, a), b) != map[] || At(shelf, b) == map[])
  {
  }

  /** An account leaves the shelf exactly when its last transaction is taken. */
  lemma {:induction false} LeftAccounts(shelf: Shelf, order: seq<Address>, r: nat, i: nat, a: Address)
    requires i <= |order|
    ensures var left := Left(shelf, order, r, i);
            && (a in left <==> a in shelf && (At(left, a) != map[] || At(shelf, a) == map[]))
            && (At(shelf, a) == map[] ==> At(left, a) == map[])
    decreases r, i
  {
    if i > 0 {
      var before := i - 1;
      LeftAccounts(shelf, order, r, before, a);
      WithoutLowestAccounts(Left(shelf, order, r, before), order[before], a);
      WithoutLowestAt(Left(shelf, order, r, before), order[before], a);
    } else if r > 0 {
      var done := r - 1;
      LeftAccounts(shelf, order, done, |order|, a);
    }
  }

  // ---------------------------------------------------------------- every extraction comes to an end

  /** Nothing gets lost on the way. */
  lemma {:induction false} VisitedCount(shelf: Shelf, order: seq<Address>, r: nat, i: nat)
    requires NoRepeats(order) && i <= |order|
    ensures |Visited(shelf, order, r, i)| + TotalPending(Left(shelf, order, r, i)) == TotalPending(shelf)
    decreases r, i
  {
    if i > 0 {
      var before := i - 1;
      VisitedCount(shelf, order, r, before);
      VisitOne(shelf, order, r, before);
      TotalWithoutLowest(Left(shelf, order, r, before), order[before]);
    } else if r > 0 {
      VisitedCount(shelf, order, r - 1, |order|);
    }
  }

  lemma OnePartOfTotal(shelf: Shelf, a: Address)
    ensures |At(shelf, a)| <= TotalPending(shelf)
  {
    if a in shelf {
      TotalPendingPut(shelf, a, map[]);
      TotalPendingEmpty(Put(shelf, a, map[]));
    } else {
      TotalPendingEmpty(shelf);
    }
  }

  /** As many rounds as there are transactions take all of them. */
  lemma AllVisited(shelf: Shelf, order: seq<Address>, r: nat)
    requires IsOrder(order, shelf.Keys) && r == TotalPending(shelf)
    ensures |Visited(shelf, order, r, 0)| == r
  {
    var left := Left(shelf, order, r, 0);
    LeftKeys(shelf, order, r, 0);
    forall a | a in left
      ensures left[a] == map[]
    {
      var j :| 0 <= j < |order| && order[j] == a;
      LeftAt(shelf, order, r, 0, j);
      OnePartOfTotal(shelf, a);
      DropSorted(At(shelf, a), r);
    }
    VisitedCount(shelf, order, r, 0);
    TotalPendingEmpty(left);
  }

  /** One visit more brings at most one transaction more, so every number is met on the way. */
  lemma {:induction false} EveryNumberMet(shelf: Shelf, order: seq<Address>, n: nat, r: nat, i: nat) returns (r': nat, i': nat)
    requires i <= |order| && n <= |Visited(shelf, order, r, i)|
    ensures i' <= |order| && |Visited(shelf, order, r', i')| == n
    decreases r, i
  {
    if |Visited(shelf, order, r, i)| == n {
      r', i' := r, i;
    } else if i > 0 {
      var before := i - 1;
      VisitedStep(shelf, order, r, before, i);
      r', i' := EveryNumberMet(shelf, order, n, r, before);
    } else {
      var done := r - 1;
      VisitedRound(shelf, order, done, r);
      r', i' := EveryNumberMet(shelf, order, n, done, |order|);
    }
  }

  lemma {:induction false} OrderExists(accounts: set<Address>) returns (order: seq<Address>)
    ensures IsOrder(order, accounts)
    decreases accounts
  {
    if accounts == {} {
      order := [];
    } else {
      var a :| a in accounts;
      order := OrderExists(accounts - {a});
      order := order + [a];
    }
  }

  /** From every pending shelf an extraction is possible, for every limit. */
  lemma ExtractionExists(shelf: Shelf, maxTxs: int)
    returns (order: seq<Address>, r: nat, i: nat, blockTxs: seq<Transaction>, left: Shelf)
    ensures Extracts(shelf, maxTxs, order, r, i, blockTxs, left)
  {
    TotalPendingEmpty(shelf);
    order := OrderExists(shelf.Keys);
    AllVisited(shelf, order, TotalPending(shelf));
    r, i := EveryNumberMet(shelf, order, Wanted(maxTxs, TotalPending(shelf)), TotalPending(shelf), 0);
    blockTxs, left := Visited(shelf, order, r, i), Left(shelf, order, r, i);
  }
}
