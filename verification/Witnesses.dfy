/** Concrete runs in which things go wrong: a block that is accepted and leaves maker and receiver
    with different ledgers, blocks that a node in the same state refuses, transfers that create
    money, and two ledgers under one block hash. */
module Witnesses {
  import opened Text
  import opened Types
  import opened Sums
  import opened Ledger
  import opened Header
  import opened Blocks
  import opened Queues
  import opened Pools
  import opened Coherence
  import opened Nodes
  import opened Settlement
  import opened Runs
  import opened Nonces
  import opened Replicas
  import opened Submissions

  // ---------------------------------------------------------------- accepted, and yet different

  lemma AloneIsPayable(env: Env, to: Address, raws: seq<RawTransaction>, s: State, txs: seq<Transaction>)
    requires Payments(env, to, raws) && LikeNew(s, env) && HoldsFirst(env, txs, raws)
    ensures Payable(s.accounts, txs)
  {
    forall tx | tx in txs
      ensures Read(s.accounts, tx.from).balance >= tx.value
    {
      var k: nat :| k < |txs| && txs[k] == tx;
      assert IsPayment(env, to, raws[k], k + 1);
    }
  }

  lemma SpentOnce(txs: seq<Transaction>, to: Address)
    requires |txs| >= 1 && to != PAYER && txs[0].from == PAYER && txs[0].to == to
    ensures Weigh(txs[..1], Spends(PAYER)) == txs[0].value && Weigh(txs[..1], Gains(PAYER)) == 0
    ensures Weigh(txs[..1], Counts(PAYER)) == 1
    ensures Weigh(txs[..0], Spends(PAYER)) == Weigh(txs[..0], Gains(PAYER)) == 0
  {
    assert txs[..0] == [] && txs[..1] == [txs[0]];
  }

  /** After 6000 of the payer's 10000 are gone, 4500 cannot be paid, but with the reward it can. */
  lemma SecondTips(l: Accounts, txs: seq<Transaction>, to: Address)
    requires IsValidAddress(PAYER) && |txs| >= 2 && to != PAYER && Read(l, PAYER) == Account(10000, 0)
    requires txs[0].from == txs[1].from == PAYER && txs[0].to == to && txs[0].value == 6000 && txs[1].value == 4500
    ensures TipsAt(l, txs, PAYER, 1)
    ensures Running(l, txs, 1) == 4000
  {
    SpentOnce(txs, to);
  }

  lemma AfterTheFirst(l: Accounts, txs: seq<Transaction>, to: Address)
    requires IsValidAddress(PAYER) && AllExist(l, txs) && |txs| >= 2 && to != PAYER && Read(l, PAYER) == Account(10000, 0)
    requires txs[0].from == txs[1].from == PAYER && txs[0].to == to && txs[0].value == 6000 && txs[1].value == 4500
    ensures Read(Reward(Execute(l, txs).accounts, PAYER), PAYER) == Account(5000, 1)
  {
    SecondTips(l, txs, to);
    FirstUnpaid(l, txs, 1);
    ExecuteEffect(l, txs, PAYER);
    SpentOnce(txs, to);
  }

  /** A new node whose miner is the payer is given five payments, 6000 and 4500 being the first two,
      and makes a block of them. Every new node is in the same state as the maker and accepts the
      block, and then the two have different ledgers: the maker has executed one payment, the
      receiver more. Such a tick exists, and every tick at a time after the first block is like
      this. */
  lemma TippedBlock(env: Env, to: Address, raws: seq<RawTransaction>, now: nat, other: Address)
    returns (block: Block, next: State)
    requires to != PAYER && Payments(env, to, raws) && |raws| == TRANSACTIONS_PER_BLOCK && now > 0
    requires raws[0].value == 6000 && raws[1].value == 4500
    ensures var s, t := Current(env, PAYER, SubmitRun(env, PAYER, raws)), FirstState(env, other);
            && Ticks(env, PAYER, s, now, Some(block), next)
            && Agree(s, t) && Accepts(env, t, block) && !Agree(next, Received(env, t, block))
            && Read(next.accounts, PAYER) == Account(5000, 1)
            && Read(Received(env, t, block).accounts, PAYER).nonce >= 2
  {
    var s, t := Current(env, PAYER, SubmitRun(env, PAYER, raws)), FirstState(env, other);
    var made;
    made, next := TickHappens(env, PAYER, s, now);
    var q := SubmitAll(env, PAYER, to, raws);
    SubmittedSound(env, PAYER, raws);
    FirstBlock(env, PAYER, to, q, raws, s, now, made, next);
    block := made.value;
    FirstLikeNew(env, other);
    TippedAt(env, to, raws, s, now, block, next, t);
  }

  lemma TippedAt(env: Env, to: Address, raws: seq<RawTransaction>, s: State, now: nat, block: Block, next: State, t: State)
    requires to != PAYER && Payments(env, to, raws) && |raws| == TRANSACTIONS_PER_BLOCK && now > 0
    requires raws[0].value == 6000 && raws[1].value == 4500
    requires PoolOk(env, s.accounts, s.pool) && Coherent(s) && LikeNew(s, env) && LikeNew(t, env)
    requires TickMade(env, PAYER, s, now, block, next)
    requires HoldsFirst(env, block.transactions, raws)
    ensures Agree(s, t) && Accepts(env, t, block) && !Agree(next, Received(env, t, block))
    ensures Read(next.accounts, PAYER) == Account(5000, 1)
    ensures Read(Received(env, t, block).accounts, PAYER).nonce >= 2
  {
    var txs := block.transactions;
    LikeNewAgree(s, t, env);
    AloneIsPayable(env, to, raws, s, txs);
    MadeBlockNonces(env, PAYER, s, now, block, next);
    MadeBlockAcceptedIff(env, PAYER, s, now, block, next, t);
    assert IsPayment(env, to, raws[0], 1) && IsPayment(env, to, raws[1], 2);
    SecondTips(s.accounts, txs, to);
    ReplicasAgreeIff(env, PAYER, s, now, block, next, t);
    SoundExist(env, s.accounts, txs);
    AfterTheFirst(s.accounts, txs, to);
    ReadyForBlock(env, t, block);
    SentByPayer(env, to, raws, txs);
    BothPaid(ReadyLedger(env, t, block), txs, to);
  }

  lemma SentByPayer(env: Env, to: Address, raws: seq<RawTransaction>, txs: seq<Transaction>)
    requires Payments(env, to, raws) && HoldsFirst(env, txs, raws)
    ensures forall tx :: tx in txs ==> tx.from == PAYER && tx.to == to
  {
    forall tx | tx in txs
      ensures tx.from == PAYER && tx.to == to
    {
      var k: nat :| k < |txs| && txs[k] == tx;
      assert IsPayment(env, to, raws[k], k + 1);
    }
  }

  /** With the reward on top both payments are executed. */
  lemma BothPaid(l: Accounts, txs: seq<Transaction>, to: Address)
    requires AllExist(l, txs) && |txs| >= 2 && to != PAYER && Read(l, PAYER) == Account(11000, 0)
    requires forall tx :: tx in txs ==> tx.from == PAYER && tx.to == to
    requires txs[0].value == 6000 && txs[1].value == 4500
    ensures Read(Execute(l, txs).accounts, PAYER).nonce >= 2
  {
    var done := txs[..Execute(l, txs).executed];
    SpentOnce(txs, to);
    assert Running(l, txs, 0) == 11000 && Running(l, txs, 1) == 5000;
    ExecutedIff(l, txs, 2);
    ExecuteEffect(l, txs, PAYER);
    WeighSame(done, Counts(PAYER), 1);
  }

  // ---------------------------------------------------------------- refused by a node in the same state

  lemma UnpayableIsRefused(env: Env, t: State, block: Block)
    requires !Payable(t.accounts, block.transactions)
    ensures !Accepts(env, t, block)
  {
    CheckAllIff(env, t.accounts, block.transactions);
  }

  lemma SpendingBlock(env: Env, miner: Address, to: Address, q: Queue, raws: seq<RawTransaction>, s: State, now: nat,
                      made: Option<Block>, next: State, t: State)
    requires to != PAYER && Payments(env, to, raws) && Files(env, q, raws) && |raws| == 10
    requires forall raw :: raw in raws ==> raw.value == 2000
    requires PoolOk(env, s.accounts, s.pool) && Coherent(s) && OnlyQueue(s.pool, PAYER, q)
    requires LikeNew(s, env) && Agree(s, t) && now > 0 && Ticks(env, miner, s, now, made, next)
    ensures made.Some? && Accepts(env, t, made.value) && Agree(next, Received(env, t, made.value))
    ensures PoolOk(env, next.accounts, next.pool) && next.last == made
    ensures OnlyQueue(next.pool, PAYER, DropLowest(q, 5)) && Read(next.accounts, PAYER).balance <= REWARD
  {
    FirstBlock(env, miner, to, q, raws, s, now, made, next);
    TakenOf(env, to, q, raws, 2000, q, made.value.transactions, At(next.pool.pending, PAYER));
    FiveSpent(env, miner, to, s, now, made.value, next, t);
    TickPoolOk(env, miner, s, now, made.value, next);
  }

  /** The second block is made of what is left. */
  lemma UnpayableBlock(env: Env, miner: Address, to: Address, q: Queue, raws: seq<RawTransaction>, s: State, now: nat,
                       made: Option<Block>, next: State, t: State)
    requires to != PAYER && Payments(env, to, raws) && Files(env, q, raws) && |raws| == 10
    requires forall raw :: raw in raws ==> raw.value == 2000
    requires PoolOk(env, s.accounts, s.pool) && s.last.Some? && OnlyQueue(s.pool, PAYER, DropLowest(q, 5))
    requires Read(s.accounts, PAYER).balance <= REWARD
    requires Agree(s, t) && Ticks(env, miner, s, now, made, next)
    ensures made.Some? && !Accepts(env, t, made.value) && !Agree(next, Received(env, t, made.value))
  {
    var rest := DropLowest(q, 5);
    DropSorted(q, 5);
    DropIsPart(q, 5);
    OnlyTick(env, miner, s, now, made, next, PAYER, rest);
    var block := made.value;
    TakenOf(env, to, q, raws, 2000, rest, block.transactions, At(next.pool.pending, PAYER));
    assert block.transactions[0] in block.transactions;
    assert Read(s.accounts, PAYER) == Read(t.accounts, PAYER);
    UnpayableIsRefused(env, t, block);
    RefusedDiffers(env, miner, s, now, block, next, t);
  }

  /** Ten payments of 2000 are admitted, since each is covered when it is submitted. The first block
      spends all the payer has; the node still makes a second one, and a node that has accepted
      the first and is in the same state refuses it, whatever the clocks. */
  lemma RefusedBlock(env: Env, miner: Address, to: Address, raws: seq<RawTransaction>, now: nat, later: nat, other: Address)
    returns (first: Block, between: State, second: Block, next: State)
    requires to != PAYER && Payments(env, to, raws) && |raws| == 10 && (forall raw :: raw in raws ==> raw.value == 2000)
    requires now > 0
    ensures var s, t := Current(env, miner, SubmitRun(env, miner, raws)), FirstState(env, other);
            var t' := Received(env, t, first);
            && Ticks(env, miner, s, now, Some(first), between) && Accepts(env, t, first) && Agree(between, t')
            && Ticks(env, miner, between, later, Some(second), next) && !Accepts(env, t', second)
            && !Agree(next, Received(env, t', second))
  {
    var s, t := Current(env, miner, SubmitRun(env, miner, raws)), FirstState(env, other);
    var q := SubmitAll(env, miner, to, raws);
    SubmittedSound(env, miner, raws);
    FirstLikeNew(env, other);
    var made;
    made, between := TickHappens(env, miner, s, now);
    LikeNewAgree(s, t, env);
    SpendingBlock(env, miner, to, q, raws, s, now, made, between, t);
    first := made.value;
    made, next := TickHappens(env, miner, between, later);
    UnpayableBlock(env, miner, to, q, raws, between, later, made, next, Received(env, t, first));
    second := made.value;
  }

  // ---------------------------------------------------------------- refused for its nonces

  /** Five payments with the nonces after those of the first five. */
  ghost predicate NextFive(env: Env, to: Address, raws: seq<RawTransaction>) {
    |raws| == 5 && forall k :: 0 <= k < |raws| ==> IsPayment(env, to, raws[k], k + 6) && raws[k].value == 1000
  }

  lemma NextFiveSent(env: Env, to: Address, raws: seq<RawTransaction>)
    requires NextFive(env, to, raws)
    ensures AnyPayments(env, to, raws) && AllOf(CreateAll(env, raws), to, 1000)
    ensures forall tx :: tx in CreateAll(env, raws) ==> tx.nonce > 5
  {
    var txs := CreateAll(env, raws);
    forall k | 0 <= k < |raws|
      ensures IsPayment(env, to, raws[k], raws[k].nonce) && raws[k].nonce > 5 && raws[k].value == 1000
    {
      assert IsPayment(env, to, raws[k], k + 6);
    }
    forall tx | tx in txs
      ensures tx.from == PAYER && tx.to == to && tx.value == 1000 && tx.nonce > 5
    {
      var k: nat :| k < |txs| && txs[k] == tx;
    }
  }

  /** A block of other nonces takes nothing out of the queue. */
  lemma QueueUntouched(pool: Pool, q: Queue, txs: seq<Transaction>)
    requires OnlyQueue(pool, PAYER, q) && forall tx, n :: tx in txs && n in q ==> n < tx.nonce
    ensures OnlyQueue(Cleaned(pool, txs), PAYER, q)
  {
    forall a
      ensures At(Cleaned(pool, txs).pending, a) == if a == PAYER then q else map[]
      ensures At(Cleaned(pool, txs).future, a) == map[]
    {
      CleanedAt(pool.pending, txs, a);
      CleanedAt(pool.future, txs, a);
    }
    assert q - UsedNonces(txs, PAYER) == q;
  }

  /** What a node with five pending payments is left with after a block of the next five. */
  lemma AfterForeign(env: Env, to: Address, q: Queue, raws: seq<RawTransaction>, others: seq<RawTransaction>, s: State, foreign: Block)
    requires to != PAYER && Payments(env, to, raws) && Files(env, q, raws) && |raws| == 5 && NextFive(env, to, others)
    requires PoolOk(env, s.accounts, s.pool) && LikeNew(s, env) && OnlyQueue(s.pool, PAYER, q)
    requires Accepts(env, s, foreign) && foreign.transactions == CreateAll(env, others)
    ensures var s' := Received(env, s, foreign);
            && PoolOk(env, s'.accounts, s'.pool) && s'.last == Some(foreign) && OnlyQueue(s'.pool, PAYER, q)
            && Read(s'.accounts, PAYER).nonce == 5 && Read(s'.accounts, PAYER).balance >= 5000
  {
    NextFiveSent(env, to, others);
    ReceivedSpent(env, s, foreign, to, 1000);
    ReceivePoolOk(env, s, foreign);
    QueueUntouched(s.pool, q, foreign.transactions);
  }

  /** Payable, and nothing tips: the first three conditions for agreement say nothing against it. */
  lemma PayableNoTip(env: Env, accounts: Accounts, txs: seq<Transaction>, to: Address, miner: Address)
    requires AllOf(txs, to, 1000) && |txs| == 5 && Read(accounts, PAYER).balance >= 5000
    requires forall tx :: tx in txs ==> TxOk(env, accounts, tx)
    ensures Payable(accounts, txs) && !exists k: nat :: TipsAt(accounts, txs, miner, k)
  {
    PayableFromStart(accounts, txs, to, 1000);
    TogetherIsCovered(env, accounts, txs);
    CoveredExecutes(accounts, txs);
    SoundExist(env, accounts, txs);
    RewardTipsIff(accounts, txs, miner);
  }

  /** A block with the first payment is stale once the account nonce is 5. */
  lemma FirstIsStale(env: Env, to: Address, raws: seq<RawTransaction>, accounts: Accounts, txs: seq<Transaction>)
    requires Payments(env, to, raws) && HoldsFirst(env, txs, raws) && Read(accounts, PAYER).nonce == 5
    ensures !NoneStale(accounts, txs)
  {
    assert IsPayment(env, to, raws[0], 1) && txs[0] in txs;
  }

  /** The tick of such a node. */
  lemma StaleTick(env: Env, miner: Address, to: Address, q: Queue, raws: seq<RawTransaction>, s: State, now: nat,
                  made: Option<Block>, next: State)
    requires Payments(env, to, raws) && Files(env, q, raws) && |raws| == 5
    requires forall raw :: raw in raws ==> raw.value == 1000
    requires PoolOk(env, s.accounts, s.pool) && s.last.Some? && OnlyQueue(s.pool, PAYER, q)
    requires Read(s.accounts, PAYER).nonce == 5 && Read(s.accounts, PAYER).balance >= 5000
    requires Ticks(env, miner, s, now, made, next)
    ensures made.Some? && TickMade(env, miner, s, now, made.value, next)
    ensures var txs := made.value.transactions;
            && Payable(s.accounts, txs) && !NoneStale(s.accounts, txs)
            && !exists k: nat :: TipsAt(s.accounts, txs, miner, k)
  {
    OnlyTick(env, miner, s, now, made, next, PAYER, q);
    var txs, left := made.value.transactions, At(next.pool.pending, PAYER);
    LowestAreFirst(env, to, q, raws, txs, left);
    TakenOf(env, to, q, raws, 1000, q, txs, left);
    FirstIsStale(env, to, raws, s.accounts, txs);
    PayableNoTip(env, s.accounts, txs, to, miner);
  }

  /** Five payments with nonces 1 to 5 are pending at a node when a block with nonces 6 to 10 comes in
      from outside. It is accepted, since validation only asks that a nonce is not below the
      account's, and brings the account nonce to 5; the five stay pending. The block the node then
      makes of them is payable, in time, and tips nothing, and every node in the same state refuses
      it. */
  lemma StaleBlock(env: Env, miner: Address, to: Address, raws: seq<RawTransaction>, others: seq<RawTransaction>,
                   outsider: Address, now: nat, later: nat)
    returns (foreign: Block, block: Block, next: State)
    requires to != PAYER && Payments(env, to, raws) && |raws| == 5 && NextFive(env, to, others)
    requires (forall raw :: raw in raws ==> raw.value == 1000) && 0 < now < later
    ensures var s := Current(env, miner, SubmitRun(env, miner, raws));
            var s' := Received(env, s, foreign);
            && Accepts(env, s, foreign) && s'.last == Some(foreign) && foreign.timestamp == now
            && Ticks(env, miner, s', later, Some(block), next)
            && Payable(s'.accounts, block.transactions)
            && (!exists k: nat :: TipsAt(s'.accounts, block.transactions, miner, k))
            && forall t :: Agree(s', t) ==> !Accepts(env, t, block) && !Agree(next, Received(env, t, block))
  {
    var s := Current(env, miner, SubmitRun(env, miner, raws));
    var q := SubmitAll(env, miner, to, raws);
    SubmittedSound(env, miner, raws);
    NextFiveSent(env, to, others);
    foreign := ForeignBlock(env, outsider, to, others, now, s);
    AfterForeign(env, to, q, raws, others, s, foreign);
    var s', made := Received(env, s, foreign), None;
    made, next := TickHappens(env, miner, s', later);
    StaleTick(env, miner, to, q, raws, s', later, made, next);
    block := made.value;
    forall t | Agree(s', t)
      ensures !Accepts(env, t, block) && !Agree(next, Received(env, t, block))
    {
      MadeBlockAcceptedIff(env, miner, s', later, block, next, t);
      RefusedDiffers(env, miner, s', later, block, next, t);
    }
  }

  // ---------------------------------------------------------------- money from nothing

  lemma SelfCosts(l: Accounts, txs: seq<Transaction>)
    requires AllOf(txs, PAYER, 2000) && |txs| == 5 && Execute(l, txs).executed == |txs|
    ensures Read(Execute(l, txs).accounts, PAYER) == Account(Read(l, PAYER).balance + 10000, Read(l, PAYER).nonce)
    ensures Supply(Execute(l, txs).accounts) == Supply(l) + 10000
  {
    WeighSame(txs, Spends(PAYER), 0);
    WeighSame(txs, Gains(PAYER), 2000);
    WeighSame(txs, Counts(PAYER), 0);
    WeighSame(txs, Mints(), 2000);
    FullEffect(l, txs, PAYER);
    ExecuteSupply(l, txs);
    assert txs[..|txs|] == txs;
  }

  /** Five payments of the payer to itself are admitted, put into a block and executed. They double
      its money, and its nonce stays 0 although nonces 1 to 5 are on the chain. */
  lemma SelfTransferMints(env: Env, miner: Address, raws: seq<RawTransaction>, now: nat) returns (block: Block, next: State)
    requires Payments(env, PAYER, raws) && |raws| == 5 && forall raw :: raw in raws ==> raw.value == 2000
    ensures var s := Current(env, miner, SubmitRun(env, miner, raws));
            && Ticks(env, miner, s, now, Some(block), next)
            && Execute(s.accounts, block.transactions).executed == 5
            && Supply(next.accounts) == Supply(s.accounts) + 10000 + (if IsValidAddress(miner) then REWARD else 0)
            && Read(next.accounts, PAYER).balance >= 20000 && Read(next.accounts, PAYER).nonce == 0
  {
    var s := Current(env, miner, SubmitRun(env, miner, raws));
    var q := SubmitAll(env, miner, PAYER, raws);
    SubmittedSound(env, miner, raws);
    var made;
    made, next := TickHappens(env, miner, s, now);
    OnlyTick(env, miner, s, now, made, next, PAYER, q);
    block := made.value;
    TakenOf(env, PAYER, q, raws, 2000, q, block.transactions, At(next.pool.pending, PAYER));
    SelfBlock(env, miner, s, now, block, next);
  }

  lemma SelfBlock(env: Env, miner: Address, s: State, now: nat, block: Block, next: State)
    requires LikeNew(s, env) && TickMade(env, miner, s, now, block, next) && AllOf(block.transactions, PAYER, 2000)
    ensures Execute(s.accounts, block.transactions).executed == 5
    ensures Supply(next.accounts) == Supply(s.accounts) + 10000 + (if IsValidAddress(miner) then REWARD else 0)
    ensures Read(next.accounts, PAYER).balance >= 20000 && Read(next.accounts, PAYER).nonce == 0
  {
    var l, txs := s.accounts, block.transactions;
    assert Read(l, PAYER) == Account(10000, 0);
    SoundExist(env, l, txs);
    CoveredFromStart(l, txs, PAYER, 2000);
    SelfCosts(l, txs);
    RewardSupply(Execute(l, txs).accounts, block.miner);
    NoLess(Execute(l, txs).accounts, block.miner);
  }

  lemma NoLess(l: Accounts, miner: Address)
    ensures var before, after := Read(l, PAYER), Read(Reward(l, miner), PAYER);
            after.nonce == before.nonce && after.balance >= before.balance
  {
  }

  // ---------------------------------------------------------------- one hash, two ledgers

  lemma OneOf(tx: Transaction, to: Address, value: nat)
    requires tx.from == PAYER && tx.to == to && tx.value == value
    ensures AllOf([tx], to, value)
  {
  }

  /** A transaction under the hash of another one. */
  function Disguised(env: Env, raw: RawTransaction, hash: string): Transaction {
    Create(env, raw).(hash := hash)
  }

  lemma TwinAccepted(env: Env, to: Address, t: State, block: Block, raw: RawTransaction)
    requires LikeNew(t, env) && Accepts(env, t, block) && |block.transactions| == 1 && IsPayment(env, to, raw, 1)
    ensures var twin := block.(transactions := [Disguised(env, raw, block.transactions[0].hash)]);
            Accepts(env, t, twin) && AllOf(twin.transactions, to, raw.value)
  {
    var disguised := Disguised(env, raw, block.transactions[0].hash);
    assert HashTexts([disguised]) == HashTexts(block.transactions);
    assert RawOf(disguised) == raw;
    TakenIfFits(env, t, block.(transactions := [disguised]));
  }

  /** Two signed payments with nonce 1 and different values. A block of the first and the same block
      with the second in its place, carrying the hash of the first, have one block hash; a new node
      accepts either, and the payer is left with different balances. */
  lemma OneHashTwoLedgers(env: Env, miner: Address, to: Address, raw: RawTransaction, raw': RawTransaction, now: nat, other: Address)
    returns (block: Block, twin: Block)
    requires to != PAYER && IsPayment(env, to, raw, 1) && IsPayment(env, to, raw', 1) && raw.value != raw'.value && now > 0
    ensures block.hash == twin.hash && FieldsOf(block) == FieldsOf(twin)
    ensures var t := FirstState(env, other);
            && Accepts(env, t, block) && Accepts(env, t, twin)
            && Read(Received(env, t, block).accounts, PAYER).balance - Read(Received(env, t, twin).accounts, PAYER).balance
               == raw'.value - raw.value
  {
    var t := FirstState(env, other);
    FirstLikeNew(env, other);
    assert AnyPayments(env, to, [raw]);
    block := ForeignBlock(env, miner, to, [raw], now, t);
    OneOf(block.transactions[0], to, raw.value);
    assert block.transactions == [block.transactions[0]];
    twin := block.(transactions := [Disguised(env, raw', block.transactions[0].hash)]);
    TwinAccepted(env, to, t, block, raw');
    ReceivedSpent(env, t, block, to, raw.value);
    ReceivedSpent(env, t, twin, to, raw'.value);
  }
}
