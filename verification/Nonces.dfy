/** Nonces over whole runs: the mempool stays coherent with the account store, and the chain
    carries each sender's nonces 1, 2, 3 and so on, without a gap or a repeat. */
module Nonces {
  import opened Text
  import opened Types
  import opened Sums
  import opened Ledger
  import opened Blocks
  import opened Pools
  import opened Rotation
  import opened Coherence
  import opened Nodes
  import opened Settlement
  import opened Runs

  // ---------------------------------------------------------------- counting a sender's transactions

  lemma {:induction false} CountOf(txs: seq<Transaction>, a: Address)
    ensures 0 <= Weigh(txs, Counts(a)) <= |Of(txs, a)|
    ensures (forall tx :: tx in txs ==> !IsSelfTransfer(tx)) ==> Weigh(txs, Counts(a)) == |Of(txs, a)|
  {
    if txs != [] {
      var first, rest := txs[0], txs[1..];
      CountOf(rest, a);
      OfConcat([first], rest, a);
      OfSnoc([], first, a);
      assert [first] + rest == txs && [] + [first] == [first];
      assert first in txs;
    }
  }

  lemma CountOfPart(txs: seq<Transaction>, k: nat, a: Address)
    requires k <= |txs|
    ensures 0 <= Weigh(txs[..k], Counts(a)) <= |Of(txs, a)|
  {
    CountOf(txs[..k], a);
    OfConcat(txs[..k], txs[k..], a);
    assert txs[..k] + txs[k..] == txs;
  }

  lemma RewardNonce(l: Accounts, miner: Address, a: Address)
    ensures Read(Reward(l, miner), a).nonce == Read(l, a).nonce
  {
  }

  /** Executing a list raises a sender's nonce by at most its transactions, and by exactly them when
      all are executed and none goes to its own sender. */
  lemma NonceAfter(l: Accounts, txs: seq<Transaction>, a: Address)
    ensures var e := Execute(l, txs);
            && Read(l, a).nonce <= Read(e.accounts, a).nonce <= Read(l, a).nonce + |Of(txs, a)|
            && (e.executed == |txs| && NoSelfTransfers(txs) ==> Read(e.accounts, a).nonce == Read(l, a).nonce + |Of(txs, a)|)
  {
    var e := Execute(l, txs);
    ExecuteEffect(l, txs, a);
    CountOfPart(txs, e.executed, a);
    CountOf(txs, a);
    if e.executed == |txs| {
      assert txs[..|txs|] == txs;
    }
  }

  // ---------------------------------------------------------------- blocks that follow on

  /** Each sender's transactions in the list carry its next nonces, one after the other. */
  ghost predicate FollowsOn(accounts: Accounts, txs: seq<Transaction>) {
    forall a :: FollowsAt(Read(accounts, a).nonce, Of(txs, a))
  }

  ghost predicate FollowsAt(dbNonce: nat, own: seq<Transaction>) {
    forall k :: 0 <= k < |own| ==> own[k].nonce == dbNonce + 1 + k
  }

  lemma UsedByFollowing(txs: seq<Transaction>, a: Address, dbNonce: nat, n: nat)
    requires FollowsAt(dbNonce, Of(txs, a))
    ensures n in UsedNonces(txs, a) <==> dbNonce < n <= dbNonce + |Of(txs, a)|
  {
    var own := Of(txs, a);
    if n in UsedNonces(txs, a) {
      var tx :| tx in txs && tx.from == a && tx.nonce == n;
      OfMembers(txs, a, tx);
      var k :| 0 <= k < |own| && own[k] == tx;
    }
    if dbNonce < n <= dbNonce + |own| {
      var tx := own[n - dbNonce - 1];
      assert tx in own;
      OfMembers(txs, a, tx);
    }
  }

  // ---------------------------------------------------------------- coherence

  ghost predicate Coherent(s: State) {
    forall a :: CoherentAt(At(s.pool.pending, a), At(s.pool.future, a), Read(s.accounts, a).nonce)
  }

  /** Every non-empty pending queue starts with the next nonce of its account. */
  ghost predicate Ready(s: State) {
    forall a :: ReadyAt(At(s.pool.pending, a), Read(s.accounts, a).nonce)
  }

  /** What an event has to satisfy for coherence: a block accepted from a peer follows on. */
  ghost predicate PeerFollows(env: Env, s: State, event: Event) {
    event.Receive? && Accepts(env, s, event.block) ==> FollowsOn(s.accounts, event.block.transactions)
  }

  lemma AdmittedCoherentAt(pool: Pool, tx: Transaction, admission: Admission, dbNonce: nat, a: Address)
    requires a == tx.from ==> admission == Decide(pool, tx, dbNonce)
    requires CoherentAt(At(pool.pending, a), At(pool.future, a), dbNonce)
    ensures var next := Admitted(pool, tx, admission);
            && CoherentAt(At(next.pending, a), At(next.future, a), dbNonce)
            && (ReadyAt(At(pool.pending, a), dbNonce) ==> ReadyAt(At(next.pending, a), dbNonce))
  {
    AdmittedAt(pool, tx, admission, a);
    if a == tx.from {
      AdmitCoherent(At(pool.pending, a), At(pool.future, a), dbNonce, tx);
    }
  }

  lemma SubmitCoherentAt(env: Env, s: State, raw: RawTransaction, a: Address)
    requires CoherentAt(At(s.pool.pending, a), At(s.pool.future, a), Read(s.accounts, a).nonce)
    ensures var next := Submitted(env, s, raw);
            && Read(next.accounts, a) == Read(s.accounts, a)
            && CoherentAt(At(next.pool.pending, a), At(next.pool.future, a), Read(s.accounts, a).nonce)
            && (ReadyAt(At(s.pool.pending, a), Read(s.accounts, a).nonce) ==>
                  ReadyAt(At(next.pool.pending, a), Read(s.accounts, a).nonce))
  {
    var response := ResponseTo(env, s, raw);
    if response.Offered? {
      AdmittedCoherentAt(s.pool, Create(env, raw), response.admission, Read(s.accounts, a).nonce, a);
    }
  }

  lemma SyncCoherentAt(pool: Pool, dbNonce: nat, a: Address)
    requires CoherentAt(At(pool.pending, a), At(pool.future, a), dbNonce)
    ensures CoherentAt(At(Synced(pool).pending, a), At(Synced(pool).future, a), dbNonce)
    ensures ReadyAt(At(pool.pending, a), dbNonce) ==> ReadyAt(At(Synced(pool).pending, a), dbNonce)
  {
    SyncedAt(pool, a);
    PromoteCoherent(At(pool.pending, a), At(pool.future, a), dbNonce);
  }

  /** A tick that made a block, seen from one account. */
  lemma TickCoherentAt(env: Env, miner: Address, s: State, now: nat, block: Block, next: State, a: Address)
    requires PoolOk(env, s.accounts, s.pool) && TickMade(env, miner, s, now, block, next)
    requires CoherentAt(At(s.pool.pending, a), At(s.pool.future, a), Read(s.accounts, a).nonce)
    ensures CoherentAt(At(next.pool.pending, a), At(next.pool.future, a), Read(next.accounts, a).nonce)
    ensures forall k :: 0 <= k < |Of(block.transactions, a)| ==> Of(block.transactions, a)[k].nonce > Read(s.accounts, a).nonce
    ensures ReadyAt(At(s.pool.pending, a), Read(s.accounts, a).nonce) ==>
              FollowsAt(Read(s.accounts, a).nonce, Of(block.transactions, a))
    ensures ReadyAt(At(s.pool.pending, a), Read(s.accounts, a).nonce)
            && Execute(s.accounts, block.transactions).executed == |block.transactions|
            && NoSelfTransfers(block.transactions) ==>
              ReadyAt(At(next.pool.pending, a), Read(next.accounts, a).nonce)
  {
    var synced, txs, dbNonce := Synced(s.pool), block.transactions, Read(s.accounts, a).nonce;
    OrderlyKept(s.pool, Promote, synced);
    OrderlyByAccount(synced);
    assert OrderlyAt(At(synced.pending, a), At(synced.future, a), a);
    SyncCoherentAt(s.pool, dbNonce, a);
    NonceAfter(s.accounts, txs, a);
    RewardNonce(Execute(s.accounts, txs).accounts, block.miner, a);
    TakeCoherent(At(synced.pending, a), At(synced.future, a), dbNonce, Of(txs, a), At(next.pool.pending, a),
                 Read(next.accounts, a).nonce, a);
  }

  /** The ledger after a block was accepted. */
  lemma ReceivedNonce(env: Env, s: State, block: Block, a: Address)
    requires Accepts(env, s, block)
    ensures var rewarded := Reward(Validate(env, s.accounts, s.last, block).accounts, block.miner);
            var before, after := Read(s.accounts, a).nonce, Read(Received(env, s, block).accounts, a).nonce;
            && before <= after <= before + |Of(block.transactions, a)|
            && (Execute(rewarded, block.transactions).executed == |block.transactions| && NoSelfTransfers(block.transactions)
                ==> after == before + |Of(block.transactions, a)|)
  {
    var checked := Validate(env, s.accounts, s.last, block).accounts;
    ValidateEffect(env, s.accounts, s.last, block);
    RewardNonce(checked, block.miner, a);
    NonceAfter(Reward(checked, block.miner), block.transactions, a);
    assert Read(s.accounts, a) == Read(checked, a);
  }

  lemma ReceiveCoherentAt(env: Env, s: State, block: Block, a: Address)
    requires Accepts(env, s, block) && FollowsAt(Read(s.accounts, a).nonce, Of(block.transactions, a))
    requires CoherentAt(At(s.pool.pending, a), At(s.pool.future, a), Read(s.accounts, a).nonce)
    ensures var next := Received(env, s, block);
            && CoherentAt(At(next.pool.pending, a), At(next.pool.future, a), Read(next.accounts, a).nonce)
            && (ReadyAt(At(s.pool.pending, a), Read(s.accounts, a).nonce)
                && Read(next.accounts, a).nonce == Read(s.accounts, a).nonce + |Of(block.transactions, a)| ==>
                  ReadyAt(At(next.pool.pending, a), Read(next.accounts, a).nonce))
  {
    var next, txs, dbNonce := Received(env, s, block), block.transactions, Read(s.accounts, a).nonce;
    ReceivedNonce(env, s, block, a);
    CleanedAt(s.pool.pending, txs, a);
    CleanedAt(s.pool.future, txs, a);
    forall n: nat
      ensures n in UsedNonces(txs, a) <==> dbNonce < n <= dbNonce + |Of(txs, a)|
    {
      UsedByFollowing(txs, a, dbNonce, n);
    }
    CleanCoherent(At(s.pool.pending, a), At(s.pool.future, a), dbNonce, UsedNonces(txs, a), |Of(txs, a)|,
                  Read(next.accounts, a).nonce);
  }

  lemma NextCoherentAt(env: Env, miner: Address, s: State, event: Event, next: State, a: Address)
    requires PoolOk(env, s.accounts, s.pool) && s.last.Some? && Next(env, miner, s, event, next)
    requires PeerFollows(env, s, event)
    requires CoherentAt(At(s.pool.pending, a), At(s.pool.future, a), Read(s.accounts, a).nonce)
    ensures CoherentAt(At(next.pool.pending, a), At(next.pool.future, a), Read(next.accounts, a).nonce)
  {
    match event {
      case Submit(raw) =>
        SubmitCoherentAt(env, s, raw, a);
      case Tick(now, made) =>
        TickShape(env, miner, s, now, made, next);
        if made.Some? {
          TickCoherentAt(env, miner, s, now, made.value, next, a);
        } else {
          SyncCoherentAt(s.pool, Read(s.accounts, a).nonce, a);
        }
      case Receive(block) =>
        if Accepts(env, s, block) {
          ReceiveCoherentAt(env, s, block, a);
        } else {
          ValidateEffect(env, s.accounts, s.last, block);
          assert Read(s.accounts, a) == Read(next.accounts, a);
        }
      case Restart =>
    }
  }

  /** Every block accepted from a peer follows on, at the time it is accepted. */
  ghost predicate PeersFollow(env: Env, miner: Address, run: Run) {
    match run
    case Begin => true
    case Then(before, event, _) =>
      PeersFollow(env, miner, before) && PeerFollows(env, Current(env, miner, before), event)
  }

  lemma FirstCoherent(env: Env, miner: Address)
    ensures Coherent(FirstState(env, miner)) && Ready(FirstState(env, miner))
  {
  }

  /** Coherence is kept by every event: submissions, ticks and received blocks, whether or not
      their transactions execute to the end. */
  lemma {:induction false} CoherentAlways(env: Env, miner: Address, run: Run)
    requires IsRun(env, miner, run) && PeersFollow(env, miner, run)
    ensures Coherent(Current(env, miner, run))
  {
    match run {
      case Begin =>
        FirstCoherent(env, miner);
      case Then(before, event, state) =>
        var s := Current(env, miner, before);
        CoherentAlways(env, miner, before);
        PoolAlwaysOk(env, miner, before);
        forall a
          ensures CoherentAt(At(state.pool.pending, a), At(state.pool.future, a), Read(state.accounts, a).nonce)
        {
          NextCoherentAt(env, miner, s, event, state, a);
        }
    }
  }

  // ---------------------------------------------------------------- the nonces on the chain

  /** Whether the block an event adds executes to its end. */
  predicate ExecutesFully(env: Env, s: State, event: Event) {
    match event
    case Tick(_, Some(block)) => Execute(s.accounts, block.transactions).executed == |block.transactions|
    case Receive(block) =>
      var rewarded := Reward(Validate(env, s.accounts, s.last, block).accounts, block.miner);
      Accepts(env, s, block) ==> Execute(rewarded, block.transactions).executed == |block.transactions|
    case _ => true
  }

  /** Every block added executes to its end, has no transfer of an account to itself, and follows
      on if it comes from a peer. */
  ghost predicate Smooth(env: Env, miner: Address, run: Run) {
    match run
    case Begin => true
    case Then(before, event, _) =>
      var s := Current(env, miner, before);
      && Smooth(env, miner, before)
      && PeerFollows(env, s, event)
      && ExecutesFully(env, s, event)
      && (AddedBy(env, s, event).Some? ==> NoSelfTransfers(AddedBy(env, s, event).value.transactions))
  }

  lemma {:induction false} SmoothPeersFollow(env: Env, miner: Address, run: Run)
    requires Smooth(env, miner, run)
    ensures PeersFollow(env, miner, run)
  {
    if run.Then? {
      SmoothPeersFollow(env, miner, run.before);
    }
  }

  function TransactionsOf(added: Option<Block>): seq<Transaction> {
    if added.Some? then added.value.transactions else []
  }

  /** The transactions of all blocks of the chain, in order. */
  function OnChain(env: Env, miner: Address, run: Run): seq<Transaction> {
    match run
    case Begin => []
    case Then(before, event, _) =>
      OnChain(env, miner, before) + TransactionsOf(AddedBy(env, Current(env, miner, before), event))
  }

  /** One event, seen from one account: what it adds to the chain follows on, the account nonce
      counts it, and what is pending starts right after. */
  lemma SmoothStep(env: Env, miner: Address, s: State, event: Event, next: State, a: Address)
    requires PoolOk(env, s.accounts, s.pool) && s.last.Some? && Next(env, miner, s, event, next)
    requires PeerFollows(env, s, event) && ExecutesFully(env, s, event)
    requires AddedBy(env, s, event).Some? ==> NoSelfTransfers(AddedBy(env, s, event).value.transactions)
    requires CoherentAt(At(s.pool.pending, a), At(s.pool.future, a), Read(s.accounts, a).nonce)
    requires ReadyAt(At(s.pool.pending, a), Read(s.accounts, a).nonce)
    ensures var own := Of(TransactionsOf(AddedBy(env, s, event)), a);
            && FollowsAt(Read(s.accounts, a).nonce, own)
            && Read(next.accounts, a).nonce == Read(s.accounts, a).nonce + |own|
            && ReadyAt(At(next.pool.pending, a), Read(next.accounts, a).nonce)
  {
    match event {
      case Submit(raw) =>
        SubmitCoherentAt(env, s, raw, a);
      case Tick(now, made) =>
        TickShape(env, miner, s, now, made, next);
        if made.Some? {
          TickCoherentAt(env, miner, s, now, made.value, next, a);
          NonceAfter(s.accounts, made.value.transactions, a);
          RewardNonce(Execute(s.accounts, made.value.transactions).accounts, made.value.miner, a);
        } else {
          SyncCoherentAt(s.pool, Read(s.accounts, a).nonce, a);
        }
      case Receive(block) =>
        if Accepts(env, s, block) {
          ReceivedNonce(env, s, block, a);
          ReceiveCoherentAt(env, s, block, a);
        } else {
          ValidateEffect(env, s.accounts, s.last, block);
          assert Read(s.accounts, a) == Read(next.accounts, a);
        }
      case Restart =>
    }
  }

  /** In every state a smooth run reaches, the chain carries of each sender exactly the nonces from
      1 to its account nonce, in order, and a non-empty pending queue starts with the next one. */
  lemma {:induction false} ChainCarriesNonces(env: Env, miner: Address, run: Run, a: Address)
    requires IsRun(env, miner, run) && Smooth(env, miner, run)
    ensures var s, own := Current(env, miner, run), Of(OnChain(env, miner, run), a);
            && |own| == Read(s.accounts, a).nonce
            && FollowsAt(0, own)
            && ReadyAt(At(s.pool.pending, a), Read(s.accounts, a).nonce)
  {
    match run {
      case Begin =>
        FirstCoherent(env, miner);
      case Then(before, event, state) =>
        var s := Current(env, miner, before);
        ChainCarriesNonces(env, miner, before, a);
        PoolAlwaysOk(env, miner, before);
        SmoothPeersFollow(env, miner, before);
        CoherentAlways(env, miner, before);
        SmoothStep(env, miner, s, event, state, a);
        OfConcat(OnChain(env, miner, before), TransactionsOf(AddedBy(env, s, event)), a);
    }
  }
}
