/** The mempool's operations as functions from one state to the next: admission, promotion of
    future transactions, round-robin extraction, and cleaning after a received block. */
module Pools {
  import opened Types
  import opened Sums
  import opened Queues

  type Shelf = map<Address, Queue>

  datatype Pool = Pool(pending: Shelf, future: Shelf)

  const EMPTY_POOL := Pool(map[], map[])

  /** An account's queue; an account without one has an empty one. */
  function At(shelf: Shelf, a: Address): Queue {
    if a in shelf then shelf[a] else map[]
  }

  function Opened(shelf: Shelf, a: Address): Shelf {
    if a in shelf then shelf else shelf[a := map[]]
  }

  /** Puts a queue back, or removes the account when the queue is empty. */
  function Put(shelf: Shelf, a: Address, q: Queue): Shelf {
    if q == map[] then shelf - {a} else shelf[a := q]
  }

  // ---------------------------------------------------------------- admission

  datatype Admission =
    ToPending | ToFuture | DuplicateInPending | DuplicateInFuture | NonceTooLow | UnknownSender

  /** Where a transaction goes, given its sender's two queues and the nonce in the account store. */
  ghost function Classify(pending: Queue, future: Queue, nonce: nat, dbNonce: nat): Admission {
    if nonce in pending then DuplicateInPending
    else if nonce in future then DuplicateInFuture
    else
      var h := Highest(pending.Keys, dbNonce);
      if nonce == h + 1 then ToPending else if nonce > h then ToFuture else NonceTooLow
  }

  function File(shelf: Shelf, tx: Transaction): Shelf {
    shelf[tx.from := At(shelf, tx.from)[tx.nonce := tx]]
  }

  /** The pool after a classified transaction; a refused one still leaves empty queues behind. */
  function Admitted(pool: Pool, tx: Transaction, admission: Admission): Pool {
    var pending, future := Opened(pool.pending, tx.from), Opened(pool.future, tx.from);
    match admission
    case ToPending => Pool(File(pending, tx), future)
    case ToFuture => Pool(pending, File(future, tx))
    case UnknownSender => pool
    case _ => Pool(pending, future)
  }

  ghost function Decide(pool: Pool, tx: Transaction, dbNonce: nat): Admission {
    Classify(At(pool.pending, tx.from), At(pool.future, tx.from), tx.nonce, dbNonce)
  }

  // ---------------------------------------------------------------- promotion

  /** Promoted is the run of future nonces right above the highest pending one, or from 1 on
      when nothing is pending. */
  ghost function PromotedPending(pending: Queue, future: Queue): Queue {
    var h := Highest(pending.Keys, 0);
    pending + Between(future, h, RunEnd(future, h + 1))
  }

  ghost function PromotedFuture(pending: Queue, future: Queue): Queue {
    var h := Highest(pending.Keys, 0);
    Outside(future, h, RunEnd(future, h + 1))
  }

  /** The two shelves once those of the given accounts that have a future queue were promoted. */
  ghost function SyncedPending(pool: Pool, accounts: set<Address>): Shelf {
    map a | a in pool.pending.Keys + accounts * pool.future.Keys ::
      if a in accounts && a in pool.future then PromotedPending(At(pool.pending, a), pool.future[a])
      else pool.pending[a]
  }

  ghost function SyncedQueue(pool: Pool, accounts: set<Address>, a: Address): Queue {
    if a in accounts then PromotedFuture(At(pool.pending, a), At(pool.future, a)) else At(pool.future, a)
  }

  ghost function SyncedFuture(pool: Pool, accounts: set<Address>): Shelf {
    map a | a in pool.future && (a in accounts ==> SyncedQueue(pool, accounts, a) != map[]) ::
      SyncedQueue(pool, accounts, a)
  }

  ghost function Synced(pool: Pool): Pool {
    Pool(SyncedPending(pool, pool.future.Keys), SyncedFuture(pool, pool.future.Keys))
  }

  // ---------------------------------------------------------------- extraction

  ghost function Sizes(shelf: Shelf): map<Address, int> {
    map a | a in shelf :: |shelf[a]|
  }

  ghost function TotalPending(shelf: Shelf): int {
    Sum(Sizes(shelf))
  }

  ghost predicate NoRepeats(order: seq<Address>) {
    forall i, j :: 0 <= i < j < |order| ==> order[i] != order[j]
  }

  /** A round-robin order: every account of the shelf once. */
  ghost predicate IsOrder(order: seq<Address>, accounts: set<Address>) {
    && (forall j :: 0 <= j < |order| ==> order[j] in accounts)
    && (forall a :: a in accounts ==> a in order)
    && NoRepeats(order)
  }

  /** The transactions met when r full rounds and then i more accounts have been visited: the
      visit of round k to an account meets its k-th lowest transaction. */
  ghost function Visited(shelf: Shelf, order: seq<Address>, r: nat, i: nat): seq<Transaction>
    requires i <= |order|
    decreases r, i
  {
    if i > 0 then
      var queue := Sorted(At(shelf, order[i - 1]));
      Visited(shelf, order, r, i - 1) + if r < |queue| then [queue[r]] else []
    else if r > 0 then Visited(shelf, order, r - 1, |order|)
    else []
  }

  /** An account loses its lowest transaction, if it has one. */
  ghost function WithoutLowest(shelf: Shelf, a: Address): Shelf {
    var queue := At(shelf, a);
    if queue == map[] then shelf else Put(shelf, a, queue - {Lowest(queue.Keys)})
  }

  /** What those visits leave. */
  ghost function Left(shelf: Shelf, order: seq<Address>, r: nat, i: nat): Shelf
    requires i <= |order|
    decreases r, i
  {
    if i > 0 then WithoutLowest(Left(shelf, order, r, i - 1), order[i - 1])
    else if r > 0 then Left(shelf, order, r - 1, |order|)
    else shelf
  }

  function Wanted(maxTxs: int, total: int): int {
    if maxTxs <= 0 then 0 else Min(maxTxs, total)
  }

  /** The extraction of a block: r full rounds and i visits in some order of the accounts. */
  ghost predicate Extracts(shelf: Shelf, maxTxs: int, order: seq<Address>, r: nat, i: nat,
                           blockTxs: seq<Transaction>, left: Shelf)
  {
    && IsOrder(order, shelf.Keys)
    && i <= |order|
    && blockTxs == Visited(shelf, order, r, i)
    && |blockTxs| == Wanted(maxTxs, TotalPending(shelf))
    && left == Left(shelf, order, r, i)
  }

  // ---------------------------------------------------------------- cleaning

  ghost function UsedNonces(txs: seq<Transaction>, a: Address): set<nat> {
    set tx | tx in txs && tx.from == a :: tx.nonce
  }

  ghost predicate Sends(txs: seq<Transaction>, a: Address) {
    exists tx :: tx in txs && tx.from == a
  }

  /** Every nonce the block used is gone from the shelf; so is an account of a sender of the
      block that has nothing left. */
  ghost function CleanedShelf(shelf: Shelf, txs: seq<Transaction>): Shelf {
    map a | a in shelf && (Sends(txs, a) ==> shelf[a] - UsedNonces(txs, a) != map[]) ::
      shelf[a] - UsedNonces(txs, a)
  }

  ghost function Cleaned(pool: Pool, txs: seq<Transaction>): Pool {
    Pool(CleanedShelf(pool.pending, txs), CleanedShelf(pool.future, txs))
  }

  // ---------------------------------------------------------------- maps updated twice

  lemma UpdateTwice<K, V>(m: map<K, V>, k: K, u: V, v: V)
    ensures m[k := u][k := v] == m[k := v]
    ensures m[k := u] - {k} == m - {k}
  {
  }

  lemma EqualMaps<K, V>(m: map<K, V>, n: map<K, V>)
    requires m.Keys == n.Keys && forall k :: k in m.Keys ==> m[k] == n[k]
    ensures m == n
  {
  }

  // ---------------------------------------------------------------- one visit of the extraction

  lemma TotalPendingPut(shelf: Shelf, a: Address, q: Queue)
    requires a in shelf
    ensures TotalPending(Put(shelf, a, q)) == TotalPending(shelf) - |shelf[a]| + |q|
  {
    if q == map[] {
      SumWithout(Sizes(shelf), a);
      EqualMaps(Sizes(shelf - {a}), Sizes(shelf) - {a});
    } else {
      SumUpdate(Sizes(shelf), a, |q|);
      EqualMaps(Sizes(shelf[a := q]), Sizes(shelf)[a := |q|]);
    }
  }

  lemma TotalPendingEmpty(shelf: Shelf)
    ensures TotalPending(shelf) >= 0
    ensures TotalPending(shelf) == 0 <==> forall a :: a in shelf ==> shelf[a] == map[]
  {
    SumNonNegative(Sizes(shelf));
    assert forall a :: a in shelf ==> (Sizes(shelf)[a] == 0 <==> shelf[a] == map[]);
  }

  /** How often the j-th account has been visited after r rounds and i visits. */
  function Visits(j: nat, r: nat, i: nat): nat {
    if j < i then r + 1 else r
  }

  lemma WithoutLowestAt(shelf: Shelf, a: Address, b: Address)
    ensures At(WithoutLowest(shelf, a), b) ==
            if a == b && At(shelf, b) != map[] then At(shelf, b) - {Lowest(At(shelf, b).Keys)} else At(shelf, b)
    ensures a != b ==> (b in WithoutLowest(shelf, a) <==> b in shelf)
  {
  }

  /** Each account has lost as many of its lowest transactions as it was visited. */
  lemma {:induction false} LeftAt(shelf: Shelf, order: seq<Address>, r: nat, i: nat, j: nat)
    requires NoRepeats(order) && i <= |order| && j < |order|
    ensures At(Left(shelf, order, r, i), order[j]) == DropLowest(At(shelf, order[j]), Visits(j, r, i))
    decreases r, i
  {
    if i > 0 {
      LeftAt(shelf, order, r, i - 1, j);
      WithoutLowestAt(Left(shelf, order, r, i - 1), order[i - 1], order[j]);
      DropOneMore(At(shelf, order[j]), r);
    } else if r > 0 {
      LeftAt(shelf, order, r - 1, |order|, j);
    }
  }

  /** The r-th lowest transaction is what the next visit finds, if the account has one left. */
  lemma VisitFinds(whole: Queue, r: nat)
    ensures var queue := DropLowest(whole, r);
            if queue == map[] then |whole| <= r
            else r < |whole| && Sorted(whole)[r] == queue[Lowest(queue.Keys)]
  {
  }

  /** Visiting an account takes its lowest transaction, if it has one left. */
  lemma VisitOne(shelf: Shelf, order: seq<Address>, r: nat, i: nat)
    requires NoRepeats(order) && i < |order|
    ensures var queue := At(Left(shelf, order, r, i), order[i]);
            Visited(shelf, order, r, i + 1) ==
            Visited(shelf, order, r, i) + if queue == map[] then [] else [queue[Lowest(queue.Keys)]]
  {
    LeftAt(shelf, order, r, i, i);
    VisitFinds(At(shelf, order[i]), r);
  }

  lemma TotalWithoutLowest(shelf: Shelf, a: Address)
    ensures TotalPending(WithoutLowest(shelf, a)) == TotalPending(shelf) - if At(shelf, a) == map[] then 0 else 1
  {
    var queue := At(shelf, a);
    if queue != map[] {
      var rest := queue - {Lowest(queue.Keys)};
      assert rest.Keys == queue.Keys - {Lowest(queue.Keys)};
      TotalPendingPut(shelf, a, rest);
    }
  }
}
