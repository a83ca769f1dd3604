/** A new node to which the account of the first block submits payments with nonces 1, 2, 3 and so
    on: what its mempool then holds, what its ticks make of it, and what five of them cost. */
module Submissions {
  import opened Text
  import opened Types
  import opened Sums
  import opened Ledger
  import opened Header
  import opened Blocks
  import opened Queues
  import opened Pools
  import opened Rotation
  import opened Coherence
  import opened Nodes
  import opened Settlement
  import opened Runs
  import opened Nonces
  import opened Replicas
  import opened Formats

  const PAYER: Address := GENESIS_MINER

  // ---------------------------------------------------------------- payments that are submitted

  /** A signed payment of at most the initial balance. */
  predicate IsPayment(env: Env, to: Address, raw: RawTransaction, nonce: nat) {
    && raw.from == PAYER && raw.to == to && raw.nonce == nonce && raw.value <= INITIAL_BALANCE
    && FieldsValid(raw) && SignatureValid(env, raw)
  }

  ghost predicate Payments(env: Env, to: Address, raws: seq<RawTransaction>) {
    forall k :: 0 <= k < |raws| ==> IsPayment(env, to, raws[k], k + 1)
  }

  /** A new node to which the payments are submitted one after the other. */
  ghost function SubmitRun(env: Env, miner: Address, raws: seq<RawTransaction>): Run {
    if raws == [] then Begin
    else
      var before := SubmitRun(env, miner, raws[..|raws| - 1]);
      Then(before, Submit(raws[|raws| - 1]), Submitted(env, Current(env, miner, before), raws[|raws| - 1]))
  }

  /** The queue holds exactly the payments, each under its nonce. */
  ghost predicate Files(env: Env, q: Queue, raws: seq<RawTransaction>) {
    && |q| == |raws|
    && (forall n :: n in q ==> 1 <= n <= |raws|)
    && (forall raw :: raw in raws ==> raw.nonce in q && q[raw.nonce] == Create(env, raw))
  }

  /** Nothing is in the pool but one account's pending queue. */
  ghost predicate OnlyQueue(pool: Pool, a: Address, q: Queue) {
    && At(pool.pending, a) == q
    && (forall b :: b != a ==> At(pool.pending, b) == map[])
    && (forall b :: At(pool.future, b) == map[])
  }

  /** The ledger reads like that of a new node. */
  ghost predicate LikeNew(s: State, env: Env) {
    && s.last == Some(Genesis(env)) && PAYER in s.accounts
    && forall a :: Read(s.accounts, a) == if a == PAYER then Account(INITIAL_BALANCE, 0) else EMPTY_ACCOUNT
  }

  lemma FirstLikeNew(env: Env, miner: Address)
    ensures LikeNew(FirstState(env, miner), env)
  {
  }

  lemma LikeNewAgree(s: State, t: State, env: Env)
    requires LikeNew(s, env) && LikeNew(t, env)
    ensures Agree(s, t)
  {
  }

  lemma {:induction false} SubmitRunIsRun(env: Env, miner: Address, raws: seq<RawTransaction>)
    ensures IsRun(env, miner, SubmitRun(env, miner, raws))
    ensures PeersFollow(env, miner, SubmitRun(env, miner, raws))
  {
    if raws != [] {
      SubmitRunIsRun(env, miner, raws[..|raws| - 1]);
    }
  }

  lemma FilesOne(env: Env, to: Address, q: Queue, raws: seq<RawTransaction>, k: nat, n: nat)
    requires Payments(env, to, raws) && Files(env, q, raws) && n == k + 1 && k < |raws|
    ensures n in q && q[n].nonce == n && q[n].from == PAYER && q[n] == Create(env, raws[k])
  {
    assert IsPayment(env, to, raws[k], k + 1) && raws[k] in raws;
  }

  lemma FilesHighest(env: Env, to: Address, q: Queue, raws: seq<RawTransaction>, next: nat)
    requires Payments(env, to, raws) && Files(env, q, raws) && next == |raws| + 1
    ensures Highest(q.Keys, 0) + 1 == next && next !in q
  {
    if raws != [] {
      FilesOne(env, to, q, raws, |raws| - 1, |raws|);
    }
    HighestUnique(q.Keys, 0, |raws|);
  }

  lemma FilesSnoc(env: Env, q: Queue, raws: seq<RawTransaction>, raw: RawTransaction)
    requires Files(env, q, raws) && raw.nonce == |raws| + 1
    ensures Files(env, q[raw.nonce := Create(env, raw)], raws + [raw])
  {
    var more := q[raw.nonce := Create(env, raw)];
    assert more.Keys == q.Keys + {raw.nonce};
    forall u | u in raws + [raw]
      ensures u.nonce in more && more[u.nonce] == Create(env, u)
    {
      assert u in raws || u == raw;
    }
  }

  lemma PaymentIsValid(env: Env, to: Address, s: State, raw: RawTransaction)
    requires LikeNew(s, env) && IsPayment(env, to, raw, raw.nonce)
    ensures Judge(env, s.accounts, raw) == Valid && s.accounts[PAYER].nonce == 0
    ensures forall a :: Read(WithAccount(s.accounts, to), a) == Read(s.accounts, a)
  {
    assert Read(s.accounts, PAYER) == Account(INITIAL_BALANCE, 0);
  }

  lemma AdmittedOnly(pool: Pool, tx: Transaction, q: Queue)
    requires OnlyQueue(pool, tx.from, q) && tx.nonce !in q && Highest(q.Keys, 0) + 1 == tx.nonce
    ensures Decide(pool, tx, 0) == ToPending
    ensures OnlyQueue(Admitted(pool, tx, ToPending), tx.from, q[tx.nonce := tx])
  {
    forall a
      ensures At(Admitted(pool, tx, ToPending).pending, a) == if a == tx.from then q[tx.nonce := tx] else map[]
      ensures At(Admitted(pool, tx, ToPending).future, a) == map[]
    {
      AdmittedAt(pool, tx, ToPending, a);
    }
  }

  lemma SubmitOne(env: Env, to: Address, s: State, q: Queue, raw: RawTransaction)
    requires LikeNew(s, env) && OnlyQueue(s.pool, PAYER, q)
    requires IsPayment(env, to, raw, raw.nonce) && raw.nonce !in q && Highest(q.Keys, 0) + 1 == raw.nonce
    ensures var next := Submitted(env, s, raw);
            LikeNew(next, env) && OnlyQueue(next.pool, PAYER, q[raw.nonce := Create(env, raw)])
  {
    PaymentIsValid(env, to, s, raw);
    AdmittedOnly(s.pool, Create(env, raw), q);
    assert Submitted(env, s, raw) ==
           s.(accounts := WithAccount(s.accounts, to), pool := Admitted(s.pool, Create(env, raw), ToPending));
  }

  lemma SubmitNext(env: Env, to: Address, s: State, q: Queue, before: seq<RawTransaction>, raw: RawTransaction)
    requires Payments(env, to, before) && Files(env, q, before) && IsPayment(env, to, raw, |before| + 1)
    requires LikeNew(s, env) && OnlyQueue(s.pool, PAYER, q)
    ensures var next, more := Submitted(env, s, raw), q[raw.nonce := Create(env, raw)];
            LikeNew(next, env) && OnlyQueue(next.pool, PAYER, more) && Files(env, more, before + [raw])
  {
    FilesHighest(env, to, q, before, raw.nonce);
    SubmitOne(env, to, s, q, raw);
    FilesSnoc(env, q, before, raw);
  }

  lemma LastSubmitted(env: Env, miner: Address, before: seq<RawTransaction>, raw: RawTransaction)
    ensures Current(env, miner, SubmitRun(env, miner, before + [raw])) ==
            Submitted(env, Current(env, miner, SubmitRun(env, miner, before)), raw)
  {
    assert (before + [raw])[..|before|] == before;
  }

  /** All the payments wait in one pending queue; the ledger is as it was. */
  lemma {:induction false} SubmitAll(env: Env, miner: Address, to: Address, raws: seq<RawTransaction>) returns (q: Queue)
    requires Payments(env, to, raws)
    ensures Files(env, q, raws)
    ensures var s := Current(env, miner, SubmitRun(env, miner, raws)); LikeNew(s, env) && OnlyQueue(s.pool, PAYER, q)
  {
    if raws == [] {
      q := map[];
      FirstLikeNew(env, miner);
    } else {
      var n := |raws| - 1;
      var before, raw := raws[..n], raws[n];
      assert raws == before + [raw];
      assert IsPayment(env, to, raw, n + 1);
      q := SubmitAll(env, miner, to, before);
      LastSubmitted(env, miner, before, raw);
      SubmitNext(env, to, Current(env, miner, SubmitRun(env, miner, before)), q, before, raw);
      q := q[raw.nonce := Create(env, raw)];
    }
  }

  lemma SubmittedSound(env: Env, miner: Address, raws: seq<RawTransaction>)
    ensures var s := Current(env, miner, SubmitRun(env, miner, raws));
            PoolOk(env, s.accounts, s.pool) && s.last.Some? && Coherent(s)
  {
    SubmitRunIsRun(env, miner, raws);
    PoolAlwaysOk(env, miner, SubmitRun(env, miner, raws));
    CoherentAlways(env, miner, SubmitRun(env, miner, raws));
  }

  // ---------------------------------------------------------------- a tick takes the first five

  lemma PromoteNothing(p: Queue)
    ensures PromotedPending(p, map[]) == p && PromotedFuture(p, map[]) == map[]
  {
  }

  lemma SyncOnlyQueue(pool: Pool, a: Address, q: Queue)
    requires OnlyQueue(pool, a, q)
    ensures OnlyQueue(Synced(pool), a, q)
  {
    forall b
      ensures At(Synced(pool).pending, b) == if b == a then q else map[]
      ensures At(Synced(pool).future, b) == map[]
    {
      SyncedAt(pool, b);
      PromoteNothing(At(pool.pending, b));
    }
  }

  lemma {:induction false} OfOnly(txs: seq<Transaction>, a: Address)
    requires forall tx :: tx in txs ==> tx.from == a
    ensures Of(txs, a) == txs
  {
    if txs != [] {
      OfOnly(txs[..|txs| - 1], a);
    }
  }

  lemma OnlyFrom(txs: seq<Transaction>, a: Address)
    requires forall b :: b != a ==> Of(txs, b) == []
    ensures Of(txs, a) == txs
  {
    forall tx | tx in txs
      ensures tx.from == a
    {
      OfMembers(txs, tx.from, tx);
    }
    OfOnly(txs, a);
  }

  lemma TookAll(env: Env, miner: Address, s: State, now: nat, block: Block, next: State, a: Address, q: Queue)
    requires TickMade(env, miner, s, now, block, next) && OnlyQueue(Synced(s.pool), a, q)
    ensures Of(block.transactions, a) == block.transactions
    ensures TookLowest(q, block.transactions, At(next.pool.pending, a))
    ensures forall b :: b != a ==> At(next.pool.pending, b) == map[]
  {
    var txs := block.transactions;
    forall b | b != a
      ensures Of(txs, b) == [] && At(next.pool.pending, b) == map[]
    {
      assert TookLowest(At(Synced(s.pool).pending, b), Of(txs, b), At(next.pool.pending, b));
    }
    OnlyFrom(txs, a);
    assert TookLowest(At(Synced(s.pool).pending, a), Of(txs, a), At(next.pool.pending, a));
  }

  /** The block holds the five lowest payments, the rest stays. */
  lemma OnlyTick(env: Env, miner: Address, s: State, now: nat, made: Option<Block>, next: State, a: Address, q: Queue)
    requires PoolOk(env, s.accounts, s.pool) && s.last.Some? && Ticks(env, miner, s, now, made, next)
    requires OnlyQueue(s.pool, a, q) && |q| >= TRANSACTIONS_PER_BLOCK
    ensures made.Some? && TickMade(env, miner, s, now, made.value, next)
    ensures TookLowest(q, made.value.transactions, At(next.pool.pending, a))
    ensures OnlyQueue(next.pool, a, At(next.pool.pending, a))
    ensures Of(made.value.transactions, a) == made.value.transactions
  {
    SyncOnlyQueue(s.pool, a, q);
    OnePartOfTotal(Synced(s.pool).pending, a);
    TickShape(env, miner, s, now, made, next);
    TookAll(env, miner, s, now, made.value, next, a, q);
  }

  lemma FilesOrderly(env: Env, to: Address, q: Queue, raws: seq<RawTransaction>)
    requires Payments(env, to, raws) && Files(env, q, raws)
    ensures Filed(q, PAYER) && Contiguous(q.Keys)
  {
    forall n: nat | 1 <= n <= |raws|
      ensures n in q && q[n].nonce == n && q[n].from == PAYER
    {
      FilesOne(env, to, q, raws, n - 1, n);
    }
  }

  lemma FilesLowest(env: Env, to: Address, q: Queue, raws: seq<RawTransaction>)
    requires Payments(env, to, raws) && Files(env, q, raws) && raws != []
    ensures q != map[] && Lowest(q.Keys) == 1
  {
    FilesOne(env, to, q, raws, 0, 1);
  }

  lemma ListedUnder(q: Queue, k: nat)
    requires Filed(q, PAYER) && k < |q|
    ensures var tx := Sorted(q)[k]; tx.nonce in q && q[tx.nonce] == tx
  {
    SortedLists(q, PAYER);
    assert Sorted(q)[k] in Sorted(q);
  }

  lemma FilesSorted(env: Env, to: Address, q: Queue, raws: seq<RawTransaction>, k: nat)
    requires Payments(env, to, raws) && Files(env, q, raws) && k < |raws|
    ensures Sorted(q)[k] == Create(env, raws[k])
  {
    FilesOrderly(env, to, q, raws);
    FilesLowest(env, to, q, raws);
    var place := k + 1;
    SortedConsecutive(q, PAYER, k);
    ListedUnder(q, k);
    FilesOne(env, to, q, raws, k, place);
  }

  /** The transactions are made of the first payments. */
  ghost predicate HoldsFirst(env: Env, txs: seq<Transaction>, raws: seq<RawTransaction>) {
    TRANSACTIONS_PER_BLOCK == |txs| <= |raws| && forall k :: 0 <= k < |txs| ==> txs[k] == Create(env, raws[k])
  }

  lemma LowestAreFirst(env: Env, to: Address, q: Queue, raws: seq<RawTransaction>, txs: seq<Transaction>, rest: Queue)
    requires Payments(env, to, raws) && Files(env, q, raws)
    requires |txs| == TRANSACTIONS_PER_BLOCK && TookLowest(q, txs, rest)
    ensures HoldsFirst(env, txs, raws)
  {
    forall k: nat | k < |txs|
      ensures txs[k] == Create(env, raws[k])
    {
      FilesSorted(env, to, q, raws, k);
    }
  }

  /** What the first tick of a node with at least five payments makes. */
  lemma FirstBlock(env: Env, miner: Address, to: Address, q: Queue, raws: seq<RawTransaction>, s: State, now: nat,
                   made: Option<Block>, next: State)
    requires Payments(env, to, raws) && Files(env, q, raws) && |raws| >= TRANSACTIONS_PER_BLOCK
    requires PoolOk(env, s.accounts, s.pool) && s.last.Some? && OnlyQueue(s.pool, PAYER, q)
    requires Ticks(env, miner, s, now, made, next)
    ensures made.Some? && TickMade(env, miner, s, now, made.value, next)
    ensures HoldsFirst(env, made.value.transactions, raws)
    ensures TookLowest(q, made.value.transactions, At(next.pool.pending, PAYER))
    ensures OnlyQueue(next.pool, PAYER, At(next.pool.pending, PAYER))
  {
    OnlyTick(env, miner, s, now, made, next, PAYER, q);
    LowestAreFirst(env, to, q, raws, made.value.transactions, At(next.pool.pending, PAYER));
  }

  // ---------------------------------------------------------------- what payments cost

  /** Payments of the same value. */
  predicate AllOf(txs: seq<Transaction>, to: Address, value: nat) {
    forall tx :: tx in txs ==> tx.from == PAYER && tx.to == to && tx.value == value
  }

  lemma SpentTogether(l: Accounts, txs: seq<Transaction>, to: Address, value: nat)
    requires to != PAYER && AllOf(txs, to, value) && Execute(l, txs).executed == |txs|
    ensures Read(Execute(l, txs).accounts, PAYER) ==
            Account(Read(l, PAYER).balance - value * |txs|, Read(l, PAYER).nonce + |txs|)
  {
    WeighSame(txs, Spends(PAYER), value);
    WeighSame(txs, Gains(PAYER), 0);
    WeighSame(txs, Counts(PAYER), 1);
    FullEffect(l, txs, PAYER);
  }

  lemma PayableFromStart(l: Accounts, txs: seq<Transaction>, to: Address, value: nat)
    requires AllOf(txs, to, value) && Read(l, PAYER).balance >= value * |txs|
    ensures PayableTogether(l, txs)
  {
    WeighSame(txs, Outlays(PAYER), value);
  }

  lemma FiledOf(env: Env, to: Address, q: Queue, raws: seq<RawTransaction>, value: nat, n: nat)
    requires Payments(env, to, raws) && Files(env, q, raws) && n in q
    requires forall raw :: raw in raws ==> raw.value == value
    ensures q[n].from == PAYER && q[n].to == to && q[n].value == value
  {
    FilesOne(env, to, q, raws, n - 1, n);
    assert raws[n - 1] in raws && IsPayment(env, to, raws[n - 1], n - 1 + 1);
  }

  /** Whatever is taken from the queue or from the rest of it are such payments. */
  lemma TakenOf(env: Env, to: Address, q: Queue, raws: seq<RawTransaction>, value: nat, part: Queue,
                taken: seq<Transaction>, rest: Queue)
    requires Payments(env, to, raws) && Files(env, q, raws) && IsPart(part, q) && TookLowest(part, taken, rest)
    requires forall raw :: raw in raws ==> raw.value == value
    ensures AllOf(taken, to, value)
  {
    FilesOrderly(env, to, q, raws);
    SortedLists(part, PAYER);
    forall tx | tx in taken
      ensures tx.from == PAYER && tx.to == to && tx.value == value
    {
      assert tx in Sorted(part);
      FiledOf(env, to, q, raws, value, tx.nonce);
    }
  }

  lemma FiveCost(l: Accounts, txs: seq<Transaction>, to: Address, miner: Address)
    requires to != PAYER && AllOf(txs, to, 2000) && |txs| == 5 && Execute(l, txs).executed == |txs|
    requires Read(l, PAYER) == Account(10000, 0)
    ensures var after := Read(Reward(Execute(l, txs).accounts, miner), PAYER); after.nonce == 5 && after.balance <= REWARD
  {
    SpentTogether(l, txs, to, 2000);
  }

  lemma FiveAccepted(env: Env, miner: Address, to: Address, s: State, now: nat, block: Block, next: State, t: State)
    requires PoolOk(env, s.accounts, s.pool) && Coherent(s) && TickMade(env, miner, s, now, block, next) && now > 0
    requires LikeNew(s, env) && Agree(s, t) && AllOf(block.transactions, to, 2000)
    ensures Accepts(env, t, block) && Agree(next, Received(env, t, block))
    ensures Execute(s.accounts, block.transactions).executed == |block.transactions|
  {
    assert Read(s.accounts, PAYER) == Account(10000, 0);
    PayableFromStart(s.accounts, block.transactions, to, 2000);
    ReplicasAgree(env, miner, s, now, block, next, t);
  }

  /** A block of five payments of 2000 is accepted, and takes all the payer has but for a reward. */
  lemma FiveSpent(env: Env, miner: Address, to: Address, s: State, now: nat, block: Block, next: State, t: State)
    requires PoolOk(env, s.accounts, s.pool) && Coherent(s) && TickMade(env, miner, s, now, block, next) && now > 0
    requires LikeNew(s, env) && Agree(s, t) && to != PAYER && AllOf(block.transactions, to, 2000)
    ensures Accepts(env, t, block) && Agree(next, Received(env, t, block))
    ensures Read(next.accounts, PAYER).nonce == 5 && Read(next.accounts, PAYER).balance <= REWARD
  {
    FiveAccepted(env, miner, to, s, now, block, next, t);
    assert Read(s.accounts, PAYER) == Account(10000, 0);
    FiveCost(s.accounts, block.transactions, to, block.miner);
  }

  // ---------------------------------------------------------------- a block of payments from anywhere

  function CreateAll(env: Env, raws: seq<RawTransaction>): (txs: seq<Transaction>)
    ensures |txs| == |raws| && forall k :: 0 <= k < |raws| ==> txs[k] == Create(env, raws[k])
  {
    seq(|raws|, k requires 0 <= k < |raws| => Create(env, raws[k]))
  }

  /** Payments with any nonces. */
  ghost predicate AnyPayments(env: Env, to: Address, raws: seq<RawTransaction>) {
    forall k :: 0 <= k < |raws| ==> IsPayment(env, to, raws[k], raws[k].nonce)
  }

  lemma PaymentsAreSound(env: Env, to: Address, raws: seq<RawTransaction>, t: State)
    requires AnyPayments(env, to, raws) && LikeNew(t, env)
    ensures forall tx :: tx in CreateAll(env, raws) ==> TxOk(env, WithAccount(t.accounts, to), tx)
  {
    var txs := CreateAll(env, raws);
    forall tx | tx in txs
      ensures TxOk(env, WithAccount(t.accounts, to), tx)
    {
      var k: nat :| k < |txs| && txs[k] == tx;
      assert IsPayment(env, to, raws[k], raws[k].nonce);
      PaymentIsValid(env, to, t, raws[k]);
      CreatedOk(env, t.accounts, raws[k]);
    }
  }

  /** Transactions that a node in the first state takes: signed payments the payer can pay alone. */
  ghost predicate Takeable(env: Env, txs: seq<Transaction>) {
    forall tx :: tx in txs ==>
      FieldsValid(RawOf(tx)) && SignatureValid(env, RawOf(tx)) && tx.from == PAYER && tx.value <= INITIAL_BALANCE
  }

  lemma PaymentsAreTakeable(env: Env, to: Address, raws: seq<RawTransaction>)
    requires AnyPayments(env, to, raws)
    ensures Takeable(env, CreateAll(env, raws))
  {
    var txs := CreateAll(env, raws);
    forall tx | tx in txs
      ensures FieldsValid(RawOf(tx)) && SignatureValid(env, RawOf(tx)) && tx.from == PAYER && tx.value <= INITIAL_BALANCE
    {
      var k: nat :| k < |txs| && txs[k] == tx;
      assert IsPayment(env, to, raws[k], raws[k].nonce) && RawOf(tx) == raws[k];
    }
  }

  lemma TakenIfFits(env: Env, t: State, block: Block)
    requires LikeNew(t, env) && BlockFits(env, t.last, block) && Takeable(env, block.transactions)
    ensures Accepts(env, t, block)
  {
    assert Read(t.accounts, PAYER) == Account(INITIAL_BALANCE, 0);
    CheckAllIff(env, t.accounts, block.transactions);
  }

  /** Anybody can put any payments into a block on the first one, whatever their nonces, and every
      node in the first state accepts it. */
  lemma ForeignBlock(env: Env, miner: Address, to: Address, raws: seq<RawTransaction>, now: nat, t: State) returns (block: Block)
    requires AnyPayments(env, to, raws) && raws != [] && LikeNew(t, env) && now > 0
    ensures block.transactions == CreateAll(env, raws) && block.miner == miner && block.timestamp == now
    ensures BlockFits(env, t.last, block) && Accepts(env, t, block)
  {
    var txs := CreateAll(env, raws);
    PaymentsAreSound(env, to, raws, t);
    BlockIsMade(env, WithAccount(t.accounts, to), t.last, miner, now, txs);
    block := NewBlock(env, t.last, miner, now, txs).value;
    MadeBlockFits(env, miner, t, now, block);
    PaymentsAreTakeable(env, to, raws);
    TakenIfFits(env, t, block);
  }

  /** The ledger a receiver executes a block on: rewarded, with all accounts open. */
  ghost function ReadyLedger(env: Env, t: State, block: Block): Accounts {
    Reward(Validate(env, t.accounts, t.last, block).accounts, block.miner)
  }

  lemma ReadyForBlock(env: Env, t: State, block: Block)
    requires LikeNew(t, env) && Accepts(env, t, block)
    ensures var l := ReadyLedger(env, t, block);
            && AllExist(l, block.transactions) && Received(env, t, block).accounts == Execute(l, block.transactions).accounts
            && Read(l, PAYER).nonce == 0
            && Read(l, PAYER).balance ==
               INITIAL_BALANCE + if block.miner == PAYER && IsValidAddress(PAYER) then REWARD else 0
  {
    var checked := Validate(env, t.accounts, t.last, block).accounts;
    ValidateEffect(env, t.accounts, t.last, block);
    assert Read(checked, PAYER) == Read(t.accounts, PAYER) == Account(INITIAL_BALANCE, 0);
  }

  lemma CoveredFromStart(l: Accounts, txs: seq<Transaction>, to: Address, value: nat)
    requires AllExist(l, txs) && AllOf(txs, to, value) && Read(l, PAYER).balance >= value * |txs|
    ensures Execute(l, txs).executed == |txs|
  {
    PayableFromStart(l, txs, to, value);
    CoveredExecutes(l, txs);
  }

  /** What equal payments of an accepted block leave to the payer. */
  lemma ReceivedSpent(env: Env, t: State, block: Block, to: Address, value: nat)
    requires LikeNew(t, env) && Accepts(env, t, block) && to != PAYER
    requires AllOf(block.transactions, to, value) && value * |block.transactions| <= INITIAL_BALANCE
    ensures var left := Read(Received(env, t, block).accounts, PAYER);
            && left.nonce == |block.transactions|
            && left.balance == INITIAL_BALANCE - value * |block.transactions|
                               + if block.miner == PAYER && IsValidAddress(PAYER) then REWARD else 0
  {
    var l, txs := ReadyLedger(env, t, block), block.transactions;
    ReadyForBlock(env, t, block);
    CoveredFromStart(l, txs, to, value);
    SpentTogether(l, txs, to, value);
  }

  // ---------------------------------------------------------------- such payments exist

  const ZERO: Digest := seq(32, _ => 0)

  /** Surroundings in which every signature is taken for the sender's. */
  const TRUSTING := Env((bytes: seq<Byte>) => ZERO, (digest: Digest, bytes: seq<Byte>, address: Address) => true,
                        (raw: RawTransaction) => [])

  /** The address of twenty zero bytes. */
  const SOMEBODY: Address := "0x" + EncodeHex(seq(20, _ => 0))

  lemma SomebodyElse()
    ensures IsValidAddress(SOMEBODY) && SOMEBODY != PAYER
  {
    var zeros: seq<Byte> := seq(20, _ => 0);
    assert SOMEBODY[2..] == EncodeHex(zeros);
    assert EncodeHex(zeros)[0] == '0' && SOMEBODY[2] == '0';
    assert PAYER[2] == 'd';
  }

  lemma TrustingSignature(raw: RawTransaction)
    requires raw.signature == "00"
    ensures SignatureValid(TRUSTING, raw)
  {
    DecodesIff("00");
  }

  /** Payments of any values a new node admits, to the payer itself or to anybody else. */
  lemma PaymentsExist(to: Address, values: seq<nat>, first: nat) returns (raws: seq<RawTransaction>)
    requires IsValidAddress(to) && forall k :: 0 <= k < |values| ==> 1 <= values[k] <= INITIAL_BALANCE
    ensures |raws| == |values|
    ensures forall k :: 0 <= k < |raws| ==> raws[k].value == values[k] && IsPayment(TRUSTING, to, raws[k], k + first)
  {
    raws := seq(|values|, k requires 0 <= k < |values| => RawTransaction(PAYER, to, values[k], k + first, "00"));
    GenesisMinerIsAddress();
    forall k | 0 <= k < |raws|
      ensures IsPayment(TRUSTING, to, raws[k], k + first)
    {
      TrustingSignature(raws[k]);
    }
  }

  /** So the payments of every run told of here exist. */
  lemma PaymentListsExist(values: seq<nat>) returns (raws: seq<RawTransaction>, own: seq<RawTransaction>)
    requires forall k :: 0 <= k < |values| ==> 1 <= values[k] <= INITIAL_BALANCE
    ensures SOMEBODY != PAYER && |raws| == |own| == |values|
    ensures Payments(TRUSTING, SOMEBODY, raws) && Payments(TRUSTING, PAYER, own)
    ensures forall k :: 0 <= k < |values| ==> raws[k].value == own[k].value == values[k]
  {
    SomebodyElse();
    GenesisMinerIsAddress();
    raws := PaymentsExist(SOMEBODY, values, 1);
    own := PaymentsExist(PAYER, values, 1);
  }
}
