/** The mempool itself, with the loops of blockchain/mempool.go over its two nested maps. Go's
    maps are ranged over in an arbitrary order; so are the sets below. */
module Mempools {
  import opened Types
  import opened Queues
  import opened Pools
  import opened Ledger

  /** The largest of the nonces and a starting value, found by one pass in any order. */
  method FindHighest(nonces: set<nat>, start: nat) returns (h: nat)
    ensures h == Highest(nonces, start)
  {
    h := start;
    var rest := nonces;
    while rest != {}
      invariant rest <= nonces
      invariant IsHighest(nonces - rest, start, h)
      decreases rest
    {
      var n :| n in rest;
      if n > h {
        h := n;
      }
      assert forall m :: m in nonces - (rest - {n}) ==> m == n || m in nonces - rest;
      rest := rest - {n};
    }
    assert nonces - rest == nonces;
  }

  /** The nonces in ascending order: each one found is inserted where it belongs. */
  method SortNonces(found: set<nat>) returns (nonces: seq<nat>)
    ensures forall i, j :: 0 <= i < j < |nonces| ==> nonces[i] < nonces[j]
    ensures forall n :: n in nonces <==> n in found
  {
    nonces := [];
    var rest := found;
    while rest != {}
      invariant rest <= found
      invariant forall i, j :: 0 <= i < j < |nonces| ==> nonces[i] < nonces[j]
      invariant forall n :: n in nonces <==> n in found - rest
      decreases rest
    {
      var n :| n in rest;
      var i := 0;
      while i < |nonces| && nonces[i] < n
        invariant i <= |nonces|
        invariant forall k :: 0 <= k < i ==> nonces[k] < n
      {
        i := i + 1;
      }
      assert n !in nonces;
      assert forall k :: i <= k < |nonces| ==> n < nonces[k];
      InsertedMembers(nonces, i, n);
      nonces := nonces[..i] + [n] + nonces[i..];
      rest := rest - {n};
    }
  }

  /** The inner promotion loop: moves one transaction after the other while there is no gap. */
  method MoveRun(p: Queue, f: Queue, highest: nat) returns (pendingTxs: Queue, futureTxs: Queue)
    ensures var end := RunEnd(f, highest + 1);
            pendingTxs == p + Between(f, highest, end) && futureTxs == Outside(f, highest, end)
  {
    pendingTxs, futureTxs := p, f;
    var nonce := highest + 1;
    BetweenNothing(f, highest);
    while nonce in futureTxs
      invariant highest < nonce && HasRun(f, highest, nonce)
      invariant pendingTxs == p + Between(f, highest, nonce)
      invariant futureTxs == Outside(f, highest, nonce)
      decreases |futureTxs|
    {
      BetweenOneMore(f, highest, nonce);
      MergeOneMore(p, f, highest, nonce);
      pendingTxs := pendingTxs[nonce := futureTxs[nonce]];
      futureTxs := futureTxs - {nonce};
      nonce := nonce + 1;
    }
    RunEndUnique(f, highest, nonce);
  }

  method Promote(p: Queue, f: Queue) returns (pendingTxs: Queue, futureTxs: Queue)
    ensures pendingTxs == PromotedPending(p, f) && futureTxs == PromotedFuture(p, f)
  {
    var highestPendingNonce := FindHighest(p.Keys, 0);
    pendingTxs, futureTxs := MoveRun(p, f, highestPendingNonce);
  }

  /** The loop that selects the run of one account's transactions above a nonce. */
  method SelectRun(q: Queue, currentNonce: nat) returns (blockTxs: seq<Transaction>, pendingTxs: Queue)
    ensures var end := RunEnd(q, currentNonce + 1);
            && |blockTxs| == end - currentNonce - 1
            && (forall k :: 0 <= k < |blockTxs| ==> blockTxs[k] == q[currentNonce + 1 + k])
            && pendingTxs == Outside(q, currentNonce, end)
  {
    blockTxs, pendingTxs := [], q;
    var nonce := currentNonce + 1;
    BetweenNothing(q, currentNonce);
    while nonce in pendingTxs
      invariant currentNonce < nonce && |blockTxs| == nonce - currentNonce - 1
      invariant HasRun(q, currentNonce, nonce)
      invariant forall k :: 0 <= k < |blockTxs| ==> blockTxs[k] == q[currentNonce + 1 + k]
      invariant pendingTxs == Outside(q, currentNonce, nonce)
      decreases |pendingTxs|
    {
      BetweenOneMore(q, currentNonce, nonce);
      blockTxs := blockTxs + [pendingTxs[nonce]];
      pendingTxs := pendingTxs - {nonce};
      nonce := nonce + 1;
    }
    RunEndUnique(q, currentNonce, nonce);
  }

  /** Removes a transaction of a block from a shelf, and its account if that empties the queue. */
  method RemoveUsed(shelf: Shelf, tx: Transaction) returns (left: Shelf)
    ensures left == if tx.from in shelf then Put(shelf, tx.from, shelf[tx.from] - {tx.nonce}) else shelf
  {
    left := shelf;
    if tx.from in left {
      var queue := left[tx.from] - {tx.nonce};
      UpdateTwice(left, tx.from, queue, queue);
      left := left[tx.from := queue];
      if |queue| == 0 {
        left := left - {tx.from};
      }
    }
  }

  class Mempool {
    var pending: Shelf
    var future: Shelf

    ghost function View(): Pool
      reads this
    {
      Pool(pending, future)
    }

    constructor ()
      ensures View() == EMPTY_POOL
    {
      pending, future := map[], map[];
    }

    /** `accounts` is what the account store held when the sender was looked up, which is before
        the pool is locked: it may be older than the pool. The caller's own idea of the nonce is
        not used. */
    method AddTransaction(accounts: Accounts, tx: Transaction, currentNonce: nat) returns (admission: Admission)
      modifies this
      ensures admission ==
              if tx.from in accounts then Decide(old(View()), tx, accounts[tx.from].nonce) else UnknownSender
      ensures View() == Admitted(old(View()), tx, admission)
    {
      if tx.from !in accounts {
        return UnknownSender;
      }
      var dbNonce := accounts[tx.from].nonce;
      if tx.from !in pending {
        pending := pending[tx.from := map[]];
      }
      if tx.from !in future {
        future := future[tx.from := map[]];
      }
      if tx.nonce in pending[tx.from] {
        return DuplicateInPending;
      }
      if tx.nonce in future[tx.from] {
        return DuplicateInFuture;
      }
      var highestPendingNonce := FindHighest(pending[tx.from].Keys, dbNonce);
      if tx.nonce == highestPendingNonce + 1 {
        var pendingTxs: Queue := pending[tx.from];
        pending := pending[tx.from := pendingTxs[tx.nonce := tx]];
        return ToPending;
      } else if tx.nonce > highestPendingNonce {
        var futureTxs: Queue := future[tx.from];
        future := future[tx.from := futureTxs[tx.nonce := tx]];
        return ToFuture;
      } else {
        return Admission.NonceTooLow;
      }
    }

    /** The body of the promotion loop, for one account with a future queue. */
    method PromoteAccount(account: Address)
      requires account in future
      modifies this
      ensures pending == old(pending)[account := PromotedPending(At(old(pending), account), old(future)[account])]
      ensures future == Put(old(future), account, PromotedFuture(At(old(pending), account), old(future)[account]))
    {
      if account !in pending {
        pending := pending[account := map[]];
      }
      var pendingTxs, futureTxs := Promote(pending[account], future[account]);
      UpdateTwice(old(pending), account, map[], pendingTxs);
      UpdateTwice(old(future), account, futureTxs, futureTxs);
      pending := pending[account := pendingTxs];
      future := future[account := futureTxs];
      if |futureTxs| == 0 {
        future := future - {account};
      }
    }

    method SyncFutureToPending()
      modifies this
      ensures View() == Synced(old(View()))
    {
      ghost var before := View();
      var rest := future.Keys;
      NothingSynced(before);
      while rest != {}
        invariant rest <= before.future.Keys
        invariant pending == SyncedPending(before, before.future.Keys - rest)
        invariant future == SyncedFuture(before, before.future.Keys - rest)
        decreases rest
      {
        var account :| account in rest;
        ghost var done := before.future.Keys - rest;
        SyncOneMore(before, done, account);
        PromoteAccount(account);
        rest := rest - {account};
        assert before.future.Keys - rest == done + {account};
      }
      assert before.future.Keys - rest == before.future.Keys;
    }

    /** The number of pending transactions, counted account by account. */
    method CountPending() returns (total: nat)
      ensures total == TotalPending(pending)
    {
      total := 0;
      var rest := pending;
      while rest != map[]
        invariant rest.Keys <= pending.Keys
        invariant total + TotalPending(rest) == TotalPending(pending)
        decreases |rest|
      {
        var account :| account in rest;
        TotalPendingPut(rest, account, map[]);
        assert (rest - {account}).Keys == rest.Keys - {account};
        total := total + |rest[account]|;
        rest := rest - {account};
      }
      TotalPendingEmpty(rest);
    }

    /** The accounts of the pending shelf in the order the runtime happens to list them. */
    method ListAccounts() returns (accounts: seq<Address>)
      ensures IsOrder(accounts, pending.Keys)
    {
      accounts := [];
      var rest := pending.Keys;
      while rest != {}
        invariant rest <= pending.Keys
        invariant IsOrder(accounts, pending.Keys - rest)
        decreases rest
      {
        var account :| account in rest;
        accounts := accounts + [account];
        rest := rest - {account};
      }
      assert pending.Keys - rest == pending.Keys;
    }

    /** One visit to an account with pending transactions: its lowest is taken, and the account
        goes when that was its last. */
    method TakeLowest(account: Address) returns (tx: Transaction)
      requires At(pending, account) != map[]
      modifies this
      ensures var queue := At(old(pending), account); tx == queue[Lowest(queue.Keys)]
      ensures pending == WithoutLowest(old(pending), account)
      ensures future == old(future)
    {
      var pendingTxs := pending[account];
      var nonces := SortNonces(pendingTxs.Keys);
      ghost var low := Lowest(pendingTxs.Keys);
      assert low in nonces;
      var lowestNonce := nonces[0];
      assert lowestNonce in nonces;
      tx := pendingTxs[lowestNonce];
      pendingTxs := pendingTxs - {lowestNonce};
      pending := pending[account := pendingTxs];
      if |pendingTxs| == 0 {
        pending := pending - {account};
      }
    }

    /** One visit of the extraction loop: nothing happens at an account that has run out. */
    method VisitAccount(account: Address) returns (taken: seq<Transaction>)
      modifies this
      ensures var queue := At(old(pending), account);
              taken == if queue == map[] then [] else [queue[Lowest(queue.Keys)]]
      ensures pending == WithoutLowest(old(pending), account) && pending.Keys <= old(pending).Keys
      ensures taken == [] ==> pending == old(pending) && At(pending, account) == map[]
      ensures |taken| + TotalPending(pending) == TotalPending(old(pending)) && future == old(future)
    {
      taken := [];
      TotalWithoutLowest(pending, account);
      if account in pending && |pending[account]| > 0 {
        var tx := TakeLowest(account);
        taken := [tx];
      }
    }

    /** One round over the accounts, given up when the block is full. `shelf` is what was pending
        before the first round and r the number of rounds completed. */
    method ExtractRound(accounts: seq<Address>, maxTxs: int, blockTxs: seq<Transaction>,
                        ghost shelf: Shelf, ghost r: nat)
      returns (txs: seq<Transaction>, noMoreTxs: bool, i: nat)
      requires IsOrder(accounts, shelf.Keys) && |blockTxs| < maxTxs
      requires blockTxs == Visited(shelf, accounts, r, 0) && pending == Left(shelf, accounts, r, 0)
      requires pending.Keys <= shelf.Keys
      modifies this
      ensures i <= |accounts| && (|txs| < maxTxs ==> i == |accounts|)
      ensures txs == Visited(shelf, accounts, r, i) && pending == Left(shelf, accounts, r, i)
      ensures pending.Keys <= shelf.Keys && future == old(future)
      ensures |txs| + TotalPending(pending) == |blockTxs| + TotalPending(old(pending))
      ensures |txs| <= maxTxs && if noMoreTxs then TotalPending(pending) == 0 else |txs| > |blockTxs|
    {
      txs, noMoreTxs, i := blockTxs, true, 0;
      while i < |accounts| && |txs| < maxTxs
        invariant i <= |accounts|
        invariant txs == Visited(shelf, accounts, r, i) && pending == Left(shelf, accounts, r, i)
        invariant pending.Keys <= shelf.Keys && future == old(future)
        invariant |txs| + TotalPending(pending) == |blockTxs| + TotalPending(old(pending))
        invariant |blockTxs| <= |txs| <= maxTxs && (noMoreTxs <==> |txs| == |blockTxs|)
        invariant noMoreTxs ==> forall j :: 0 <= j < i ==> At(pending, accounts[j]) == map[]
        decreases |accounts| - i
      {
        var account := accounts[i];
        VisitOne(shelf, accounts, r, i);
        var taken := VisitAccount(account);
        if taken != [] {
          noMoreTxs := false;
        }
        txs := txs + taken;
        i := i + 1;
      }
      if noMoreTxs {
        AllExhausted(shelf, accounts, pending);
      }
    }

    method ExtractTransactionsForBlock(maxTxs: int)
      returns (blockTxs: seq<Transaction>, ghost order: seq<Address>, ghost r: nat, ghost i: nat)
      modifies this
      ensures Extracts(old(pending), maxTxs, order, r, i, blockTxs, pending)
      ensures future == old(future)
    {
      blockTxs := [];
      var accounts := ListAccounts();
      order, r, i := accounts, 0, 0;
      while |blockTxs| < maxTxs
        invariant order == accounts && i <= |order| && future == old(future)
        invariant blockTxs == Visited(old(pending), order, r, i) && pending == Left(old(pending), order, r, i)
        invariant pending.Keys <= old(pending).Keys
        invariant |blockTxs| + TotalPending(pending) == TotalPending(old(pending))
        invariant |blockTxs| < maxTxs ==> i == 0
        invariant |blockTxs| == 0 || |blockTxs| <= maxTxs
        decreases maxTxs - |blockTxs|
      {
        var noMoreTxs;
        blockTxs, noMoreTxs, i := ExtractRound(accounts, maxTxs, blockTxs, old(pending), r);
        if noMoreTxs {
          break;
        }
        if |blockTxs| < maxTxs {
          r, i := r + 1, 0;
        }
      }
      TotalPendingEmpty(pending);
    }

    method SelectTransactionsForBlock(account: Address, currentNonce: nat) returns (blockTxs: seq<Transaction>)
      modifies this
      ensures var queue := At(old(pending), account); var end := RunEnd(queue, currentNonce + 1);
              && |blockTxs| == end - currentNonce - 1
              && (forall k :: 0 <= k < |blockTxs| ==> blockTxs[k] == queue[currentNonce + 1 + k])
              && pending == if account in old(pending) then old(pending)[account := Outside(queue, currentNonce, end)]
                            else old(pending)
      ensures future == old(future)
    {
      blockTxs := [];
      if account in pending {
        var pendingTxs;
        blockTxs, pendingTxs := SelectRun(pending[account], currentNonce);
        pending := pending[account := pendingTxs];
      }
    }

    method CleanMempoolAfterReceiveBlock(blockTxs: seq<Transaction>)
      modifies this
      ensures View() == Cleaned(old(View()), blockTxs)
    {
      ghost var before := View();
      NothingUsed(before.pending);
      NothingUsed(before.future);
      for i := 0 to |blockTxs|
        invariant View() == Cleaned(before, blockTxs[..i])
      {
        var tx := blockTxs[i];
        assert blockTxs[..i + 1] == blockTxs[..i] + [tx];
        CleanOneMore(before.pending, blockTxs[..i], tx);
        CleanOneMore(before.future, blockTxs[..i], tx);
        pending := RemoveUsed(pending, tx);
        future := RemoveUsed(future, tx);
      }
      assert blockTxs[..|blockTxs|] == blockTxs;
    }
  }

  // ---------------------------------------------------------------- steps of the loops

  lemma NothingSynced(pool: Pool)
    ensures SyncedPending(pool, pool.future.Keys - pool.future.Keys) == pool.pending
    ensures SyncedFuture(pool, pool.future.Keys - pool.future.Keys) == pool.future
  {
  }

  lemma SyncOneMore(pool: Pool, done: set<Address>, a: Address)
    requires a in pool.future && a !in done
    ensures At(SyncedPending(pool, done), a) == At(pool.pending, a)
    ensures SyncedPending(pool, done + {a}) ==
            SyncedPending(pool, done)[a := PromotedPending(At(pool.pending, a), pool.future[a])]
    ensures a in SyncedFuture(pool, done) && SyncedFuture(pool, done)[a] == pool.future[a]
    ensures SyncedFuture(pool, done + {a}) ==
            Put(SyncedFuture(pool, done), a, PromotedFuture(At(pool.pending, a), pool.future[a]))
  {
    SyncOneMorePending(pool, done, a);
    SyncOneMoreFuture(pool, done, a);
  }

  lemma SyncOneMorePending(pool: Pool, done: set<Address>, a: Address)
    requires a in pool.future && a !in done
    ensures At(SyncedPending(pool, done), a) == At(pool.pending, a)
    ensures SyncedPending(pool, done + {a}) ==
            SyncedPending(pool, done)[a := PromotedPending(At(pool.pending, a), pool.future[a])]
  {
    EqualMaps(SyncedPending(pool, done + {a}),
              SyncedPending(pool, done)[a := PromotedPending(At(pool.pending, a), pool.future[a])]);
  }

  lemma SyncOneMoreFuture(pool: Pool, done: set<Address>, a: Address)
    requires a in pool.future && a !in done
    ensures a in SyncedFuture(pool, done) && SyncedFuture(pool, done)[a] == pool.future[a]
    ensures SyncedFuture(pool, done + {a}) ==
            Put(SyncedFuture(pool, done), a, PromotedFuture(At(pool.pending, a), pool.future[a]))
  {
  }

  /** Removing one more transaction of the block from a shelf, the way the loop does. */
  lemma CleanOneMore(shelf: Shelf, txs: seq<Transaction>, tx: Transaction)
    ensures CleanedShelf(shelf, txs + [tx]) ==
            var now := CleanedShelf(shelf, txs);
            if tx.from in now then Put(now, tx.from, now[tx.from] - {tx.nonce}) else now
  {
    var a, now, next := tx.from, CleanedShelf(shelf, txs), CleanedShelf(shelf, txs + [tx]);
    forall b | b in shelf
      ensures b != a ==> (b in next <==> b in now) && (b in now ==> next[b] == now[b])
      ensures b == a ==> (a in next <==> a in now && now[a] - {tx.nonce} != map[])
                         && (a in next ==> next[a] == now[a] - {tx.nonce})
    {
      UseOneMore(txs, tx, b);
      CleanOneQueue(shelf[b], txs, tx, b);
    }
    EqualMaps(next, if a in now then Put(now, a, now[a] - {tx.nonce}) else now);
  }

  lemma CleanOneQueue(q: Queue, txs: seq<Transaction>, tx: Transaction, a: Address)
    ensures a == tx.from ==> q - UsedNonces(txs + [tx], a) == q - UsedNonces(txs, a) - {tx.nonce}
    ensures a != tx.from ==> q - UsedNonces(txs + [tx], a) == q - UsedNonces(txs, a)
    ensures !Sends(txs, a) ==> q - UsedNonces(txs, a) == q
  {
  }

  lemma UseOneMore(txs: seq<Transaction>, tx: Transaction, a: Address)
    ensures UsedNonces(txs + [tx], a) == if a == tx.from then UsedNonces(txs, a) + {tx.nonce} else UsedNonces(txs, a)
    ensures Sends(txs + [tx], a) <==> Sends(txs, a) || a == tx.from
  {
  }

  lemma NothingUsed(shelf: Shelf)
    ensures CleanedShelf(shelf, []) == shelf
  {
    forall a | a in shelf
      ensures shelf[a] - UsedNonces([], a) == shelf[a]
    {
      assert UsedNonces([], a) == {};
    }
    EqualMaps(CleanedShelf(shelf, []), shelf);
  }

  lemma MergeOneMore(p: Queue, f: Queue, lo: nat, hi: nat)
    requires lo < hi && hi in f
    ensures p + Between(f, lo, hi + 1) == (p + Between(f, lo, hi))[hi := f[hi]]
  {
  }

  lemma InsertedMembers(s: seq<nat>, i: nat, n: nat)
    requires i <= |s|
    ensures forall m :: m in s[..i] + [n] + s[i..] <==> m in s || m == n
  {
  }

  /** A round that takes nothing has found every account empty. */
  lemma AllExhausted(shelf: Shelf, order: seq<Address>, left: Shelf)
    requires IsOrder(order, shelf.Keys) && left.Keys <= shelf.Keys
    requires forall j :: 0 <= j < |order| ==> At(left, order[j]) == map[]
    ensures TotalPending(left) == 0
  {
    forall a | a in left
      ensures left[a] == map[]
    {
      var j :| 0 <= j < |order| && order[j] == a;
      assert At(left, order[j]) == map[];
    }
    TotalPendingEmpty(left);
  }
}
