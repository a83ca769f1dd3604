/** What every mempool operation keeps: queues stay filed and disjoint under any interleaving,
    and, as long as admission sees the current account nonce, they stay one gap-free interval
    above that nonce with every future transaction above it. */
module Coherence {
  import opened Types
  import opened Queues
  import opened Pools
  import opened Rotation

  // ---------------------------------------------------------------- each operation, at one account

  lemma AdmittedAt(pool: Pool, tx: Transaction, admission: Admission, a: Address)
    ensures At(Admitted(pool, tx, admission).pending, a) ==
            if a == tx.from && admission == ToPending then At(pool.pending, a)[tx.nonce := tx] else At(pool.pending, a)
    ensures At(Admitted(pool, tx, admission).future, a) ==
            if a == tx.from && admission == ToFuture then At(pool.future, a)[tx.nonce := tx] else At(pool.future, a)
  {
  }

  lemma SyncedAt(pool: Pool, a: Address)
    ensures At(Synced(pool).pending, a) == PromotedPending(At(pool.pending, a), At(pool.future, a))
    ensures At(Synced(pool).future, a) == PromotedFuture(At(pool.pending, a), At(pool.future, a))
  {
  }

  lemma CleanedAt(shelf: Shelf, txs: seq<Transaction>, a: Address)
    ensures At(CleanedShelf(shelf, txs), a) == At(shelf, a) - UsedNonces(txs, a)
  {
  }

  // ---------------------------------------------------------------- promotion

  /** Promotion moves transactions and neither loses nor overwrites any: those promoted were not
      pending, and the two queues together hold what they held. */
  lemma PromotionMoves(p: Queue, f: Queue)
    requires p.Keys !! f.Keys
    ensures var h := Highest(p.Keys, 0); var end := RunEnd(f, h + 1);
            && p.Keys !! Between(f, h, end).Keys
            && PromotedPending(p, f).Keys !! PromotedFuture(p, f).Keys
            && PromotedPending(p, f) + PromotedFuture(p, f) == p + f
            && (forall n :: h < n < end ==> n in PromotedPending(p, f))
            && end !in PromotedPending(p, f) && end !in PromotedFuture(p, f)
  {
  }

  lemma HighestUnique(nonces: set<nat>, base: nat, h: nat)
    requires IsHighest(nonces, base, h)
    ensures Highest(nonces, base) == h
  {
  }

  /** Promoting twice is promoting once. */
  lemma PromotionIsIdempotent(p: Queue, f: Queue)
    ensures PromotedPending(PromotedPending(p, f), PromotedFuture(p, f)) == PromotedPending(p, f)
    ensures PromotedFuture(PromotedPending(p, f), PromotedFuture(p, f)) == PromotedFuture(p, f)
  {
  }

  lemma SyncedKeys(pool: Pool)
    ensures Synced(pool).pending.Keys == pool.pending.Keys + pool.future.Keys
    ensures Synced(pool).future.Keys <= pool.future.Keys
  {
  }

  lemma FutureKey(pool: Pool, a: Address)
    ensures a in Synced(pool).future <==> a in pool.future && At(Synced(pool).future, a) != map[]
  {
  }

  lemma SyncTwiceAt(pool: Pool, a: Address)
    ensures At(Synced(Synced(pool)).pending, a) == At(Synced(pool).pending, a)
    ensures At(Synced(Synced(pool)).future, a) == At(Synced(pool).future, a)
  {
    SyncedAt(pool, a);
    SyncedAt(Synced(pool), a);
    PromotionIsIdempotent(At(pool.pending, a), At(pool.future, a));
  }

  lemma SyncTwicePendingKeys(pool: Pool)
    ensures Synced(Synced(pool)).pending.Keys == Synced(pool).pending.Keys
  {
    SyncedKeys(pool);
    SyncedKeys(Synced(pool));
  }

  lemma SyncTwiceFutureKeys(pool: Pool)
    ensures Synced(Synced(pool)).future.Keys == Synced(pool).future.Keys
  {
    forall a
      ensures a in Synced(Synced(pool)).future <==> a in Synced(pool).future
    {
      FutureKey(pool, a);
      FutureKey(Synced(pool), a);
      SyncTwiceAt(pool, a);
    }
  }

  /** So a second call of the method changes nothing at all in the pool, empty queues included. */
  lemma SyncIsIdempotent(pool: Pool)
    ensures Synced(Synced(pool)) == Synced(pool)
  {
    var once, twice := Synced(pool), Synced(Synced(pool));
    SyncTwicePendingKeys(pool);
    SyncTwiceFutureKeys(pool);
    forall a
      ensures At(twice.pending, a) == At(once.pending, a) && At(twice.future, a) == At(once.future, a)
    {
      SyncTwiceAt(pool, a);
    }
    EqualShelves(twice.pending, once.pending);
    EqualShelves(twice.future, once.future);
  }

  lemma EqualShelves(s: Shelf, t: Shelf)
    requires s.Keys == t.Keys && forall a :: At(s, a) == At(t, a)
    ensures s == t
  {
    forall a | a in s.Keys
      ensures s[a] == t[a]
    {
      assert At(s, a) == At(t, a);
    }
    EqualMaps(s, t);
  }

  // ---------------------------------------------------------------- any interleaving

  /** One call of a mempool method. The account nonce that admission sees may be stale, so it is
      any number. */
  datatype PoolOp =
    | Add(tx: Transaction, dbNonce: nat)
    | Promote
    | Extract(maxTxs: int)
    | Select(account: Address, currentNonce: nat)
    | Clean(blockTxs: seq<Transaction>)

  ghost predicate PoolNext(pool: Pool, op: PoolOp, next: Pool) {
    match op
    case Add(tx, dbNonce) => next == Admitted(pool, tx, Decide(pool, tx, dbNonce))
    case Promote => next == Synced(pool)
    case Extract(maxTxs) =>
      next.future == pool.future
      && exists order, r, i, txs :: Extracts(pool.pending, maxTxs, order, r, i, txs, next.pending)
    case Select(a, n) =>
      next.future == pool.future
      && next.pending == if a in pool.pending
                         then pool.pending[a := Outside(pool.pending[a], n, RunEnd(pool.pending[a], n + 1))]
                         else pool.pending
    case Clean(txs) => next == Cleaned(pool, txs)
  }

  /** Every transaction is filed under its own sender and nonce, and no nonce is both pending and
      future. */
  ghost predicate Orderly(pool: Pool) {
    && FiledShelf(pool.pending)
    && FiledShelf(pool.future)
    && forall a :: At(pool.pending, a).Keys !! At(pool.future, a).Keys
  }

  ghost predicate OrderlyAt(p: Queue, f: Queue, a: Address) {
    Filed(p, a) && Filed(f, a) && p.Keys !! f.Keys
  }

  lemma OrderlyByAccount(pool: Pool)
    ensures Orderly(pool) <==> forall a :: OrderlyAt(At(pool.pending, a), At(pool.future, a), a)
  {
    if forall a :: OrderlyAt(At(pool.pending, a), At(pool.future, a), a) {
      forall a
        ensures a in pool.pending ==> Filed(pool.pending[a], a)
        ensures a in pool.future ==> Filed(pool.future[a], a)
        ensures At(pool.pending, a).Keys !! At(pool.future, a).Keys
      {
        assert OrderlyAt(At(pool.pending, a), At(pool.future, a), a);
      }
    }
  }

  lemma PromotedOrderly(p: Queue, f: Queue, a: Address)
    requires OrderlyAt(p, f, a)
    ensures OrderlyAt(PromotedPending(p, f), PromotedFuture(p, f), a)
  {
  }

  lemma ExtractOrderlyAt(shelf: Shelf, maxTxs: int, order: seq<Address>, r: nat, i: nat,
                         txs: seq<Transaction>, left: Shelf, f: Queue, a: Address)
    requires FiledShelf(shelf) && Extracts(shelf, maxTxs, order, r, i, txs, left)
    requires OrderlyAt(At(shelf, a), f, a)
    ensures OrderlyAt(At(left, a), f, a)
  {
    TakenFrom(shelf, order, r, i, a);
    DropIsPart(At(shelf, a), |Of(txs, a)|);
  }

  lemma NextOrderlyAt(pool: Pool, op: PoolOp, next: Pool, a: Address)
    requires FiledShelf(pool.pending) && PoolNext(pool, op, next)
    requires OrderlyAt(At(pool.pending, a), At(pool.future, a), a)
    ensures OrderlyAt(At(next.pending, a), At(next.future, a), a)
  {
    match op {
      case Add(tx, dbNonce) =>
        AdmittedAt(pool, tx, Decide(pool, tx, dbNonce), a);
      case Promote =>
        SyncedAt(pool, a);
        PromotedOrderly(At(pool.pending, a), At(pool.future, a), a);
      case Extract(maxTxs) =>
        var order, r, i, txs :| Extracts(pool.pending, maxTxs, order, r, i, txs, next.pending);
        ExtractOrderlyAt(pool.pending, maxTxs, order, r, i, txs, next.pending, At(pool.future, a), a);
      case Select(_, _) =>
      case Clean(txs) =>
        CleanedAt(pool.pending, txs, a);
        CleanedAt(pool.future, txs, a);
    }
  }

  /** Every mempool method keeps the queues filed and disjoint, whatever nonce admission saw. */
  lemma OrderlyKept(pool: Pool, op: PoolOp, next: Pool)
    requires Orderly(pool) && PoolNext(pool, op, next)
    ensures Orderly(next)
  {
    OrderlyByAccount(pool);
    forall a
      ensures OrderlyAt(At(next.pending, a), At(next.future, a), a)
    {
      assert OrderlyAt(At(pool.pending, a), At(pool.future, a), a);
      NextOrderlyAt(pool, op, next, a);
    }
    OrderlyByAccount(next);
  }

  /** In any sequence of calls from the empty pool. */
  lemma {:induction false} OrderlyAlways(pools: seq<Pool>, ops: seq<PoolOp>)
    requires |pools| == |ops| + 1 && pools[0] == EMPTY_POOL
    requires forall k :: 0 <= k < |ops| ==> PoolNext(pools[k], ops[k], pools[k + 1])
    ensures Orderly(pools[|ops|])
  {
    if ops != [] {
      var n := |ops| - 1;
      OrderlyAlways(pools[..n + 1], ops[..n]);
      OrderlyKept(pools[n], ops[n], pools[n + 1]);
    }
  }

  // ---------------------------------------------------------------- coherence with the account nonce

  /** The pending nonces are one gap-free interval above the account nonce, and the future ones
      lie above that interval. */
  ghost predicate CoherentAt(p: Queue, f: Queue, dbNonce: nat) {
    && Contiguous(p.Keys)
    && (forall n :: n in p ==> dbNonce < n)
    && (forall m :: m in f ==> dbNonce < m)
    && (forall n, m :: n in p && m in f ==> n < m)
  }

  /** A non-empty pending queue continues the account nonce without a gap. */
  ghost predicate ReadyAt(p: Queue, dbNonce: nat) {
    p != map[] ==> dbNonce + 1 in p
  }

  /** Admission with the current account nonce keeps the queues coherent. */
  lemma AdmitCoherent(p: Queue, f: Queue, dbNonce: nat, tx: Transaction)
    requires CoherentAt(p, f, dbNonce)
    ensures var admission := Classify(p, f, tx.nonce, dbNonce);
            && (admission == ToPending ==> CoherentAt(p[tx.nonce := tx], f, dbNonce))
            && (admission == ToFuture ==> CoherentAt(p, f[tx.nonce := tx], dbNonce))
            && (admission == ToPending && ReadyAt(p, dbNonce) ==> ReadyAt(p[tx.nonce := tx], dbNonce))
  {
  }

  /** Promotion keeps the queues coherent. When nothing is pending it starts at 1, which can only
      be a future nonce if the account nonce is 0. */
  lemma PromoteCoherent(p: Queue, f: Queue, dbNonce: nat)
    requires CoherentAt(p, f, dbNonce)
    ensures CoherentAt(PromotedPending(p, f), PromotedFuture(p, f), dbNonce)
    ensures ReadyAt(p, dbNonce) ==> ReadyAt(PromotedPending(p, f), dbNonce)
  {
  }

  /** Removing the nonces of a block that continues the account nonce keeps the queues coherent
      with every account nonce the block can lead to. */
  lemma CleanCoherent(p: Queue, f: Queue, dbNonce: nat, used: set<nat>, k: nat, next: nat)
    requires CoherentAt(p, f, dbNonce) && next <= dbNonce + k
    requires forall n :: n in used <==> dbNonce < n <= dbNonce + k
    ensures CoherentAt(p - used, f - used, next)
    ensures ReadyAt(p, dbNonce) && next == dbNonce + k ==> ReadyAt(p - used, next)
  {
  }

  /** Taking the lowest transactions keeps the queues coherent with every account nonce their
      execution can lead to; what is taken from a queue that continues the account nonce is the
      next nonces, one after the other. */
  lemma TakeCoherent(p: Queue, f: Queue, dbNonce: nat, taken: seq<Transaction>, rest: Queue, next: nat, a: Address)
    requires CoherentAt(p, f, dbNonce) && Filed(p, a) && TookLowest(p, taken, rest)
    requires next <= dbNonce + |taken|
    ensures CoherentAt(rest, f, next)
    ensures ReadyAt(p, dbNonce) ==> forall k :: 0 <= k < |taken| ==> taken[k].nonce == dbNonce + 1 + k
    ensures ReadyAt(p, dbNonce) && next == dbNonce + |taken| ==> ReadyAt(rest, next)
    ensures forall k :: 0 <= k < |taken| ==> taken[k].nonce > dbNonce
  {
    TakenNonces(p, taken, rest, a);
    DropIsPart(p, |taken|);
    if taken != [] {
      LowestTaken(p, taken, rest, a);
    }
  }

  /** The highest nonce taken is one of the queue's, and at least as many above the account nonce
      as were taken. */
  lemma LowestTaken(p: Queue, taken: seq<Transaction>, rest: Queue, a: Address)
    requires Contiguous(p.Keys) && Filed(p, a) && TookLowest(p, taken, rest) && taken != []
    ensures p != map[] && Lowest(p.Keys) + |taken| - 1 in p
  {
    TakenNonces(p, taken, rest, a);
    TookPartition(p, taken, rest, a);
    assert taken[|taken| - 1] in taken;
  }

  lemma {:induction false} DropContiguous(q: Queue, k: nat)
    requires Contiguous(q.Keys)
    ensures var rest := DropLowest(q, k);
            Contiguous(rest.Keys) && (rest != map[] ==> q != map[] && Lowest(rest.Keys) == Lowest(q.Keys) + k)
  {
    if k > 0 && q != map[] {
      RestContiguous(q);
      DropContiguous(q - {Lowest(q.Keys)}, k - 1);
    }
  }

  /** The nonces taken are consecutive from the lowest on; what is left starts right above. */
  lemma TakenNonces(p: Queue, taken: seq<Transaction>, rest: Queue, a: Address)
    requires Contiguous(p.Keys) && Filed(p, a) && TookLowest(p, taken, rest)
    ensures Contiguous(rest.Keys)
    ensures forall k :: 0 <= k < |taken| ==> p != map[] && taken[k].nonce == Lowest(p.Keys) + k
    ensures rest != map[] ==> p != map[] && Lowest(rest.Keys) == Lowest(p.Keys) + |taken|
  {
    DropContiguous(p, |taken|);
    forall k | 0 <= k < |taken|
      ensures p != map[] && taken[k].nonce == Lowest(p.Keys) + k
    {
      SortedConsecutive(p, a, k);
    }
  }
}
