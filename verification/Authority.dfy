/** Nothing moves without its sender: every transaction a node keeps, puts into a block or executes
    is signed by its sender, what the node itself makes carries the hash of its own content, and an
    account whose key nobody uses never loses anything. */
module Authority {
  import opened Text
  import opened Types
  import opened Sums
  import opened Ledger
  import opened Blocks
  import opened Queues
  import opened Pools
  import opened Rotation
  import opened Nodes
  import opened Settlement
  import opened Runs
  import opened Money
  import opened History
  import opened Replicas
  import opened Formats

  /** The sender's key is recovered from some bytes and some digest. */
  ghost predicate Recovered(env: Env, a: Address) {
    exists digest, bytes :: env.recovers(digest, bytes, a)
  }

  /** A signature that is accepted is the sender's. */
  lemma ValidIsRecovered(env: Env, raw: RawTransaction)
    requires SignatureValid(env, raw)
    ensures Recovered(env, raw.from)
  {
    var bytes := DecodeHex(raw.signature).value;
    assert env.recovers(env.keccak(Utf8(Message(raw))), bytes, raw.from);
  }

  ghost predicate AllSigned(env: Env, txs: seq<Transaction>) {
    forall tx :: tx in txs ==> FieldsValid(RawOf(tx)) && SignatureValid(env, RawOf(tx))
  }

  lemma PrefixSigned(env: Env, txs: seq<Transaction>, n: nat)
    requires AllSigned(env, txs) && n <= |txs|
    ensures AllSigned(env, txs[..n])
  {
  }

  lemma SoundAreSigned(env: Env, accounts: Accounts, txs: seq<Transaction>)
    requires forall tx :: tx in txs ==> TxOk(env, accounts, tx)
    ensures AllSigned(env, txs)
  {
  }

  lemma AcceptedAreSigned(env: Env, s: State, block: Block)
    requires Accepts(env, s, block)
    ensures AllSigned(env, block.transactions)
  {
    CheckAllIff(env, s.accounts, block.transactions);
  }

  /** What an event executes is signed. */
  lemma ExecutedSigned(env: Env, miner: Address, s: State, event: Event, next: State)
    requires PoolOk(env, s.accounts, s.pool) && s.last.Some? && Next(env, miner, s, event, next)
    ensures AllSigned(env, ExecutedBy(env, s, event))
  {
    match event {
      case Submit(_) =>
      case Tick(now, made) =>
        TickShape(env, miner, s, now, made, next);
        if made.Some? {
          var txs := made.value.transactions;
          SoundAreSigned(env, s.accounts, txs);
          PrefixSigned(env, txs, Execute(s.accounts, txs).executed);
        }
      case Receive(block) =>
        if Accepts(env, s, block) {
          var l := Reward(Validate(env, s.accounts, s.last, block).accounts, block.miner);
          AcceptedAreSigned(env, s, block);
          PrefixSigned(env, block.transactions, Execute(l, block.transactions).executed);
        }
      case Restart =>
    }
  }

  /** The transaction's signature is the sender's, over its own sender, receiver, value and nonce. */
  ghost predicate SignedBySender(env: Env, tx: Transaction) {
    tx.value >= 0
    && exists bytes :: EncodeHex(bytes) == Lower(tx.signature)
                       && SignedBy(env, tx.from + tx.to + Decimal(tx.value) + Decimal(tx.nonce), bytes, tx.from)
  }

  lemma SignedOver(env: Env, tx: Transaction)
    requires FieldsValid(RawOf(tx)) && SignatureValid(env, RawOf(tx))
    ensures SignedBySender(env, tx)
  {
    SignatureIff(env, RawOf(tx));
    var bytes :| EncodeHex(bytes) == Lower(tx.signature)
                 && SignedBy(env, tx.from + tx.to + Decimal(tx.value) + Decimal(tx.nonce), bytes, tx.from);
  }

  /** Every transaction executed in a run is signed by its sender. */
  lemma {:induction false} AlwaysSigned(env: Env, miner: Address, run: Run)
    requires IsRun(env, miner, run)
    ensures AllSigned(env, Executed(env, miner, run))
    ensures forall tx :: tx in Executed(env, miner, run) ==> SignedBySender(env, tx)
  {
    match run {
      case Begin =>
      case Then(before, event, state) =>
        AlwaysSigned(env, miner, before);
        PoolAlwaysOk(env, miner, before);
        ExecutedSigned(env, miner, Current(env, miner, before), event, state);
    }
    forall tx | tx in Executed(env, miner, run)
      ensures SignedBySender(env, tx)
    {
      SignedOver(env, tx);
    }
  }

  // ---------------------------------------------------------------- an account nobody signs for

  lemma SilentQueue(env: Env, accounts: Accounts, q: Queue, a: Address)
    requires QueueOk(env, accounts, q) && Filed(q, a) && !Recovered(env, a)
    ensures q == map[]
  {
    forall n | n in q
      ensures false
    {
      ValidIsRecovered(env, RawOf(q[n]));
    }
  }

  /** In every reachable state nothing of the account is in the mempool. */
  lemma SilentPool(env: Env, s: State, a: Address)
    requires PoolOk(env, s.accounts, s.pool) && !Recovered(env, a)
    ensures At(s.pool.pending, a) == map[] && At(s.pool.future, a) == map[]
  {
    SilentQueue(env, s.accounts, At(s.pool.pending, a), a);
    SilentQueue(env, s.accounts, At(s.pool.future, a), a);
  }

  lemma SilentList(env: Env, txs: seq<Transaction>, a: Address)
    requires AllSigned(env, txs) && !Recovered(env, a)
    ensures forall tx :: tx in txs ==> tx.from != a
    ensures Of(txs, a) == []
  {
    forall tx | tx in txs
      ensures tx.from != a
    {
      ValidIsRecovered(env, RawOf(tx));
    }
    OfNobody(txs, a);
  }

  /** Executing transactions of others can only add to a balance and leaves the nonce. */
  lemma OthersExecuted(l: Accounts, txs: seq<Transaction>, a: Address)
    requires var done := txs[..Execute(l, txs).executed]; Positive(done) && forall tx :: tx in done ==> tx.from != a
    ensures var after := Read(Execute(l, txs).accounts, a);
            after.balance >= Read(l, a).balance && after.nonce == Read(l, a).nonce
  {
    var done := txs[..Execute(l, txs).executed];
    ExecuteEffect(l, txs, a);
    WeighSame(done, Spends(a), 0);
    WeighSame(done, Counts(a), 0);
    WeighNonNegative(done, Gains(a));
  }

  lemma OthersRewarded(l: Accounts, miner: Address, a: Address)
    ensures Read(Reward(l, miner), a).balance >= Read(l, a).balance && Read(Reward(l, miner), a).nonce == Read(l, a).nonce
  {
    RewardMeans(l, miner, a);
  }

  lemma SignedArePositive(env: Env, txs: seq<Transaction>)
    requires AllSigned(env, txs)
    ensures Positive(txs)
  {
    forall tx | tx in txs
      ensures tx.value > 0
    {
      assert FieldsValid(RawOf(tx));
    }
  }

  /** One event takes nothing from the account. */
  lemma SilentStep(env: Env, miner: Address, s: State, event: Event, next: State, a: Address)
    requires PoolOk(env, s.accounts, s.pool) && s.last.Some? && Next(env, miner, s, event, next)
    requires !Recovered(env, a)
    ensures Read(next.accounts, a).balance >= Read(s.accounts, a).balance
    ensures Read(next.accounts, a).nonce == Read(s.accounts, a).nonce
  {
    var done := ExecutedBy(env, s, event);
    ExecutedSigned(env, miner, s, event, next);
    SilentList(env, done, a);
    SignedArePositive(env, done);
    match event {
      case Submit(_) =>
      case Tick(now, made) =>
        TickShape(env, miner, s, now, made, next);
        if made.Some? {
          OthersExecuted(s.accounts, made.value.transactions, a);
          OthersRewarded(Execute(s.accounts, made.value.transactions).accounts, made.value.miner, a);
        }
      case Receive(block) =>
        SilentReceive(env, s, block, a);
      case Restart =>
    }
  }

  lemma SilentReceive(env: Env, s: State, block: Block, a: Address)
    requires var done := ExecutedBy(env, s, Receive(block)); Positive(done) && forall tx :: tx in done ==> tx.from != a
    ensures var next := Received(env, s, block);
            && Read(next.accounts, a).balance >= Read(s.accounts, a).balance
            && Read(next.accounts, a).nonce == Read(s.accounts, a).nonce
  {
    var checked := Validate(env, s.accounts, s.last, block).accounts;
    ValidateEffect(env, s.accounts, s.last, block);
    assert Read(checked, a) == Read(s.accounts, a);
    if Accepts(env, s, block) {
      OthersRewarded(checked, block.miner, a);
      OthersExecuted(Reward(checked, block.miner), block.transactions, a);
    }
  }

  /** If no digest and bytes recover the key of an account, then in every run, whatever blocks come in,
      no transaction of it is ever in the mempool or executed, its nonce stays 0, and its balance
      never falls. */
  lemma {:induction false} SilentAlways(env: Env, miner: Address, run: Run, later: Run, a: Address)
    requires forall digest, bytes :: !env.recovers(digest, bytes, a)
    requires IsRun(env, miner, later) && GoesOn(run, later)
    ensures var s, t := Current(env, miner, run), Current(env, miner, later);
            && At(t.pool.pending, a) == map[] && At(t.pool.future, a) == map[]
            && Of(Executed(env, miner, later), a) == []
            && Read(t.accounts, a).nonce == 0
            && Read(s.accounts, a).balance <= Read(t.accounts, a).balance
  {
    PoolAlwaysOk(env, miner, later);
    SilentPool(env, Current(env, miner, later), a);
    AlwaysSigned(env, miner, later);
    SilentList(env, Executed(env, miner, later), a);
    SilentNonce(env, miner, later, a);
    if run != later {
      SilentAlways(env, miner, run, later.before, a);
      PoolAlwaysOk(env, miner, later.before);
      SilentStep(env, miner, Current(env, miner, later.before), later.event, later.state, a);
    }
  }

  lemma {:induction false} SilentNonce(env: Env, miner: Address, run: Run, a: Address)
    requires IsRun(env, miner, run) && !Recovered(env, a)
    ensures Read(Current(env, miner, run).accounts, a).nonce == 0
  {
    if run.Then? {
      SilentNonce(env, miner, run.before, a);
      PoolAlwaysOk(env, miner, run.before);
      SilentStep(env, miner, Current(env, miner, run.before), run.event, run.state, a);
    }
  }

  // ---------------------------------------------------------------- hashes of contents

  /** Everything in a reachable mempool carries the digest of its own content. */
  lemma PoolCarriesOwnHashes(env: Env, miner: Address, run: Run, a: Address)
    requires IsRun(env, miner, run)
    ensures var pool := Current(env, miner, run).pool;
            && (forall n :: n in At(pool.pending, a) ==> CarriesOwnHash(env, At(pool.pending, a)[n]))
            && (forall n :: n in At(pool.future, a) ==> CarriesOwnHash(env, At(pool.future, a)[n]))
  {
    PoolAlwaysOk(env, miner, run);
  }

  /** So does everything in a block that the node makes, and it is signed. */
  lemma MadeCarryOwnHashes(env: Env, miner: Address, run: Run, now: nat, block: Block, next: State)
    requires IsRun(env, miner, run) && Ticks(env, miner, Current(env, miner, run), now, Some(block), next)
    ensures forall tx :: tx in block.transactions ==> CarriesOwnHash(env, tx) && SignedBySender(env, tx)
  {
    PoolAlwaysOk(env, miner, run);
    TickShape(env, miner, Current(env, miner, run), now, Some(block), next);
    forall tx | tx in block.transactions
      ensures CarriesOwnHash(env, tx) && SignedBySender(env, tx)
    {
      assert TxOk(env, Current(env, miner, run).accounts, tx);
      SignedOver(env, tx);
    }
  }

  /** Two transactions that carry their own digests under one hash have the same JSON text, or these
      two texts collide under Keccak. */
  lemma OneHashOneContent(env: Env, tx: Transaction, u: Transaction)
    requires CarriesOwnHash(env, tx) && CarriesOwnHash(env, u) && Lower(TrimPrefix(tx.hash)) == Lower(TrimPrefix(u.hash))
    ensures var t, t' := env.encode(RawOf(tx)), env.encode(RawOf(u));
            t == t' || (t != t' && env.keccak(t) == env.keccak(t'))
  {
    EncodeDecodeHex(TrimPrefix(tx.hash));
    EncodeDecodeHex(TrimPrefix(u.hash));
    DecodeEncodeHex(env.keccak(env.encode(RawOf(tx))));
    DecodeEncodeHex(env.keccak(env.encode(RawOf(u))));
  }
}
