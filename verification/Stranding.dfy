/** A transaction that no promotion ever reaches. */
module Stranding {
  import opened Text
  import opened Types
  import opened Ledger
  import opened Blocks
  import opened Queues
  import opened Pools
  import opened Rotation
  import opened Coherence
  import opened Nodes
  import opened Runs
  import opened Nonces
  import opened Replicas
  import opened Submissions

  /** The next transaction of an account waits as a future one while nothing of it is pending. */
  ghost predicate StrandedAt(p: Queue, f: Queue, dbNonce: nat) {
    p == map[] && dbNonce > 0 && dbNonce + 1 in f && forall n :: n in f ==> dbNonce < n
  }

  ghost predicate Stranded(s: State, a: Address) {
    StrandedAt(At(s.pool.pending, a), At(s.pool.future, a), Read(s.accounts, a).nonce)
  }

  lemma StrandedClassify(p: Queue, f: Queue, nonce: nat, dbNonce: nat)
    requires StrandedAt(p, f, dbNonce)
    ensures Classify(p, f, nonce, dbNonce) != ToPending
    ensures Classify(p, f, nonce, dbNonce) == ToFuture ==> dbNonce < nonce
  {
    HighestUnique(p.Keys, dbNonce, dbNonce);
  }

  lemma StrandedPromote(p: Queue, f: Queue, dbNonce: nat)
    requires StrandedAt(p, f, dbNonce)
    ensures PromotedPending(p, f) == map[] && PromotedFuture(p, f) == f
  {
    HighestUnique(p.Keys, 0, 0);
    assert 1 !in f;
    BetweenNothing(f, 0);
  }

  lemma SubmitKeepsStranded(env: Env, s: State, raw: RawTransaction, a: Address)
    requires Stranded(s, a)
    ensures Stranded(Submitted(env, s, raw), a)
    ensures Read(Submitted(env, s, raw).accounts, a) == Read(s.accounts, a)
    ensures forall n :: n in At(s.pool.future, a) ==> n in At(Submitted(env, s, raw).pool.future, a)
  {
    var response := ResponseTo(env, s, raw);
    if response.Offered? {
      AdmittedAt(s.pool, Create(env, raw), response.admission, a);
      if raw.from == a {
        StrandedClassify(At(s.pool.pending, a), At(s.pool.future, a), raw.nonce, Read(s.accounts, a).nonce);
      }
    }
  }

  lemma TickKeepsStranded(env: Env, miner: Address, s: State, now: nat, made: Option<Block>, next: State, a: Address)
    requires PoolOk(env, s.accounts, s.pool) && s.last.Some? && Ticks(env, miner, s, now, made, next)
    requires Stranded(s, a)
    ensures Stranded(next, a) && Read(next.accounts, a).nonce == Read(s.accounts, a).nonce
    ensures At(next.pool.future, a) == At(s.pool.future, a)
  {
    SyncedAt(s.pool, a);
    StrandedPromote(At(s.pool.pending, a), At(s.pool.future, a), Read(s.accounts, a).nonce);
    TickShape(env, miner, s, now, made, next);
    if made.Some? {
      var txs := made.value.transactions;
      assert TookLowest(At(Synced(s.pool).pending, a), Of(txs, a), At(next.pool.pending, a));
      NonceAfter(s.accounts, txs, a);
      RewardNonce(Execute(s.accounts, txs).accounts, made.value.miner, a);
    }
  }

  /** What is left of a node that receives no further block: submissions and its own ticks. */
  ghost predicate OwnStep(env: Env, miner: Address, s: State, event: Event, next: State) {
    (event.Submit? || event.Tick?) && Next(env, miner, s, event, next)
  }

  /** Once stranded, an account stays so through any submissions and ticks of the node: its next
      transaction is never promoted, its nonce never moves. */
  lemma {:induction false} StrandedStays(env: Env, miner: Address, states: seq<State>, events: seq<Event>, a: Address)
    requires |states| == |events| + 1
    requires forall n :: 0 <= n < |events| ==> OwnStep(env, miner, states[n], events[n], states[n + 1])
    requires PoolOk(env, states[0].accounts, states[0].pool) && states[0].last.Some? && Stranded(states[0], a)
    ensures var last := states[|events|];
            && PoolOk(env, last.accounts, last.pool) && last.last.Some? && Stranded(last, a)
            && Read(last.accounts, a).nonce == Read(states[0].accounts, a).nonce
  {
    if events != [] {
      var n := |events| - 1;
      StrandedStays(env, miner, states[..n + 1], events[..n], a);
      assert OwnStep(env, miner, states[n], events[n], states[n + 1]);
      NextPoolOk(env, miner, states[n], events[n], states[n + 1]);
      match events[n] {
        case Submit(raw) =>
          SubmitKeepsStranded(env, states[n], raw, a);
        case Tick(now, made) =>
          TickKeepsStranded(env, miner, states[n], now, made, states[n + 1], a);
      }
    }
  }

  lemma WaitsAlone(env: Env, to: Address, s: State, raw: RawTransaction)
    requires LikeNew(s, env) && s.pool == EMPTY_POOL && IsPayment(env, to, raw, 6)
    ensures var next := Submitted(env, s, raw);
            && LikeNew(next, env) && At(next.pool.pending, PAYER) == map[]
            && At(next.pool.future, PAYER) == map[6 := Create(env, raw)]
  {
    PaymentIsValid(env, to, s, raw);
    var none: Queue := map[];
    HighestUnique(none.Keys, 0, 0);
    AdmittedAt(s.pool, Create(env, raw), ToFuture, PAYER);
  }

  lemma SixIsUnused(env: Env, to: Address, txs: seq<Transaction>, raws: seq<RawTransaction>)
    requires Payments(env, to, raws) && HoldsFirst(env, txs, raws)
    ensures 6 !in UsedNonces(txs, PAYER)
  {
    forall tx | tx in txs
      ensures tx.nonce < 6
    {
      var k: nat :| k < |txs| && txs[k] == tx;
      assert IsPayment(env, to, raws[k], k + 1);
    }
  }

  lemma SixStays(env: Env, to: Address, pool: Pool, txs: seq<Transaction>, raws: seq<RawTransaction>, tx: Transaction)
    requires Payments(env, to, raws) && HoldsFirst(env, txs, raws)
    requires At(pool.pending, PAYER) == map[] && At(pool.future, PAYER) == map[6 := tx]
    ensures At(Cleaned(pool, txs).pending, PAYER) == map[] && At(Cleaned(pool, txs).future, PAYER) == map[6 := tx]
  {
    SixIsUnused(env, to, txs, raws);
    CleanedAt(pool.pending, txs, PAYER);
    CleanedAt(pool.future, txs, PAYER);
  }

  lemma StrandedAfter(env: Env, to: Address, s: State, block: Block, raws: seq<RawTransaction>, tx: Transaction, made: State)
    requires Payments(env, to, raws) && HoldsFirst(env, block.transactions, raws)
    requires At(s.pool.pending, PAYER) == map[] && At(s.pool.future, PAYER) == map[6 := tx]
    requires Accepts(env, s, block) && Agree(made, Received(env, s, block)) && Read(made.accounts, PAYER).nonce == 5
    ensures Stranded(Received(env, s, block), PAYER) && Read(Received(env, s, block).accounts, PAYER).nonce == 5
  {
    SixStays(env, to, s.pool, block.transactions, raws, tx);
    assert Read(made.accounts, PAYER) == Read(Received(env, s, block).accounts, PAYER);
  }

  /** It happens: the sixth payment reaches a new node first; the first five reach another node,
      which makes a block of them. Once the first node has accepted the block, the sixth payment
      is the payer's next, waits as a future one, and no promotion ever moves it. */
  lemma Strands(env: Env, miner: Address, to: Address, raws: seq<RawTransaction>, sixth: RawTransaction, maker: Address, now: nat)
    returns (block: Block, made: State)
    requires to != PAYER && Payments(env, to, raws) && |raws| == TRANSACTIONS_PER_BLOCK && IsPayment(env, to, sixth, 6)
    requires (forall raw :: raw in raws ==> raw.value == 2000) && now > 0
    ensures var s := Submitted(env, FirstState(env, miner), sixth);
            && Ticks(env, maker, Current(env, maker, SubmitRun(env, maker, raws)), now, Some(block), made)
            && Accepts(env, s, block) && Stranded(Received(env, s, block), PAYER)
            && Read(Received(env, s, block).accounts, PAYER).nonce == 5
  {
    var s, p := Submitted(env, FirstState(env, miner), sixth), Current(env, maker, SubmitRun(env, maker, raws));
    FirstLikeNew(env, miner);
    WaitsAlone(env, to, FirstState(env, miner), sixth);
    var q := SubmitAll(env, maker, to, raws);
    SubmittedSound(env, maker, raws);
    var result;
    result, made := TickHappens(env, maker, p, now);
    FirstBlock(env, maker, to, q, raws, p, now, result, made);
    block := result.value;
    TakenOf(env, to, q, raws, 2000, q, block.transactions, At(made.pool.pending, PAYER));
    LikeNewAgree(p, s, env);
    FiveSpent(env, maker, to, p, now, block, made, s);
    StrandedAfter(env, to, s, block, raws, Create(env, sixth), made);
  }
}
