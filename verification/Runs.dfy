/** Runs of one node: everything that can happen to it, in any order and number, and what is true
    of its mempool in every state it reaches. */
module Runs {
  import opened Text
  import opened Types
  import opened Ledger
  import opened Blocks
  import opened Queues
  import opened Pools
  import opened Rotation
  import opened Coherence
  import opened Nodes
  import opened Settlement
  import Merkle

  // ---------------------------------------------------------------- runs

  /** `Restart` is the process stopping and starting again: the stores stay, the pool is lost. */
  datatype Event =
    | Submit(raw: RawTransaction)
    | Tick(now: nat, made: Option<Block>)
    | Receive(block: Block)
    | Restart

  ghost predicate Next(env: Env, miner: Address, s: State, event: Event, next: State) {
    match event
    case Submit(raw) => next == Submitted(env, s, raw)
    case Tick(now, made) => Ticks(env, miner, s, now, made, next)
    case Receive(block) => next == Received(env, s, block)
    case Restart => next == Started(env, s.(pool := EMPTY_POOL))
  }

  /** The state of a new node, holding its own account, after the first block was written. */
  function FirstState(env: Env, miner: Address): State {
    Started(env, State(map[miner := EMPTY_ACCOUNT], map[], None, EMPTY_POOL))
  }

  datatype Run = Begin | Then(before: Run, event: Event, state: State)

  function Current(env: Env, miner: Address, run: Run): State {
    match run
    case Begin => FirstState(env, miner)
    case Then(_, _, state) => state
  }

  ghost predicate IsRun(env: Env, miner: Address, run: Run) {
    match run
    case Begin => true
    case Then(before, event, state) =>
      IsRun(env, miner, before) && Next(env, miner, Current(env, miner, before), event, state)
  }

  /** The block an event adds to the chain, if it adds one. */
  function AddedBy(env: Env, s: State, event: Event): Option<Block> {
    match event
    case Tick(_, made) => made
    case Receive(block) => if Accepts(env, s, block) then Some(block) else None
    case _ => None
  }

  /** All blocks of the chain, the first one included, in the order they were added. */
  function ChainOf(env: Env, miner: Address, run: Run): (chain: seq<Block>)
    ensures chain != []
  {
    match run
    case Begin => [Genesis(env)]
    case Then(before, event, _) =>
      var added := AddedBy(env, Current(env, miner, before), event);
      ChainOf(env, miner, before) + if added.Some? then [added.value] else []
  }

  // ---------------------------------------------------------------- what is in the mempool

  /** The transaction carries the digest of the JSON text of its own content. */
  predicate CarriesOwnHash(env: Env, tx: Transaction) {
    DecodeHex(TrimPrefix(tx.hash)) == Some(env.keccak(env.encode(RawOf(tx))))
  }

  /** A transaction as admission leaves it: checked, under its own hash, both accounts existing. */
  predicate TxOk(env: Env, accounts: Accounts, tx: Transaction) {
    && FieldsValid(RawOf(tx)) && SignatureValid(env, RawOf(tx)) && CarriesOwnHash(env, tx)
    && tx.from in accounts && tx.to in accounts
  }

  ghost predicate QueueOk(env: Env, accounts: Accounts, q: Queue) {
    forall n :: n in q ==> TxOk(env, accounts, q[n])
  }

  ghost predicate PoolOk(env: Env, accounts: Accounts, pool: Pool) {
    && Orderly(pool)
    && forall a :: QueueOk(env, accounts, At(pool.pending, a)) && QueueOk(env, accounts, At(pool.future, a))
  }

  lemma CreatedOk(env: Env, accounts: Accounts, raw: RawTransaction)
    requires Judge(env, accounts, raw) == Valid
    ensures TxOk(env, WithAccount(accounts, raw.to), Create(env, raw))
  {
    var digest := env.keccak(env.encode(raw));
    DecodeEncodeHex(digest);
    var hash := Create(env, raw).hash;
    assert hash[..2] == "0x" && hash[2..] == EncodeHex(digest);
    assert CarriesOwnHash(env, Create(env, raw));
    assert RawOf(Create(env, raw)) == raw;
  }

  lemma MoreAccounts(env: Env, accounts: Accounts, more: Accounts, q: Queue)
    requires QueueOk(env, accounts, q) && accounts.Keys <= more.Keys
    ensures QueueOk(env, more, q)
  {
  }

  lemma SubmitPoolOk(env: Env, s: State, raw: RawTransaction)
    requires PoolOk(env, s.accounts, s.pool)
    ensures var next := Submitted(env, s, raw);
            PoolOk(env, next.accounts, next.pool) && s.accounts.Keys <= next.accounts.Keys
  {
    var next, response := Submitted(env, s, raw), ResponseTo(env, s, raw);
    if response.Offered? {
      var tx, dbNonce := Create(env, raw), s.accounts[raw.from].nonce;
      OrderlyKept(s.pool, Add(tx, dbNonce), next.pool);
      CreatedOk(env, s.accounts, raw);
      forall a
        ensures QueueOk(env, next.accounts, At(next.pool.pending, a))
        ensures QueueOk(env, next.accounts, At(next.pool.future, a))
      {
        MoreAccounts(env, s.accounts, next.accounts, At(s.pool.pending, a));
        MoreAccounts(env, s.accounts, next.accounts, At(s.pool.future, a));
        AdmittedAt(s.pool, tx, response.admission, a);
      }
    }
  }

  lemma PromotedOk(env: Env, accounts: Accounts, p: Queue, f: Queue)
    requires QueueOk(env, accounts, p) && QueueOk(env, accounts, f)
    ensures QueueOk(env, accounts, PromotedPending(p, f)) && QueueOk(env, accounts, PromotedFuture(p, f))
  {
  }

  lemma SyncPoolOk(env: Env, accounts: Accounts, pool: Pool)
    requires PoolOk(env, accounts, pool)
    ensures PoolOk(env, accounts, Synced(pool))
  {
    var synced := Synced(pool);
    OrderlyKept(pool, Promote, synced);
    forall a
      ensures QueueOk(env, accounts, At(synced.pending, a)) && QueueOk(env, accounts, At(synced.future, a))
    {
      SyncedAt(pool, a);
      PromotedOk(env, accounts, At(pool.pending, a), At(pool.future, a));
    }
  }

  lemma CleanPoolOk(env: Env, accounts: Accounts, more: Accounts, pool: Pool, txs: seq<Transaction>)
    requires PoolOk(env, accounts, pool) && accounts.Keys <= more.Keys
    ensures PoolOk(env, more, Cleaned(pool, txs))
  {
    OrderlyKept(pool, Clean(txs), Cleaned(pool, txs));
    forall a
      ensures QueueOk(env, more, At(Cleaned(pool, txs).pending, a)) && QueueOk(env, more, At(Cleaned(pool, txs).future, a))
    {
      CleanedAt(pool.pending, txs, a);
      CleanedAt(pool.future, txs, a);
      assert QueueOk(env, accounts, At(pool.pending, a)) && QueueOk(env, accounts, At(pool.future, a));
    }
  }

  // ---------------------------------------------------------------- what a tick does

  /** Every transaction that is extracted from a sound pool is sound. */
  lemma ExtractedOk(env: Env, accounts: Accounts, shelf: Shelf, maxTxs: int, order: seq<Address>, r: nat, i: nat,
                    txs: seq<Transaction>, left: Shelf)
    requires FiledShelf(shelf) && Extracts(shelf, maxTxs, order, r, i, txs, left)
    requires forall a :: QueueOk(env, accounts, At(shelf, a))
    ensures forall tx :: tx in txs ==> TxOk(env, accounts, tx)
  {
    VisitedFrom(shelf, order, r, i);
    forall tx | tx in txs
      ensures TxOk(env, accounts, tx)
    {
      assert QueueOk(env, accounts, At(shelf, tx.from));
    }
  }

  lemma SoundPositive(env: Env, accounts: Accounts, txs: seq<Transaction>)
    requires forall tx :: tx in txs ==> TxOk(env, accounts, tx)
    ensures Positive(txs)
  {
  }

  lemma HashTextsOk(env: Env, accounts: Accounts, txs: seq<Transaction>)
    requires forall tx :: tx in txs ==> TxOk(env, accounts, tx)
    ensures Merkle.AreHashTexts(HashTexts(txs))
  {
    forall i | 0 <= i < |txs|
      ensures Merkle.IsHashText(HashTexts(txs)[i])
    {
      assert txs[i] in txs;
    }
  }

  /** A tick that has enough transactions always makes a block. */
  lemma BlockIsMade(env: Env, accounts: Accounts, last: Option<Block>, miner: Address, now: nat, txs: seq<Transaction>)
    requires txs != [] && last.Some? && forall tx :: tx in txs ==> TxOk(env, accounts, tx)
    ensures NewBlock(env, last, miner, now, txs).Some?
  {
    HashTextsOk(env, accounts, txs);
  }

  /** The state after a tick that made a block. */
  ghost predicate TickMade(env: Env, miner: Address, s: State, now: nat, block: Block, next: State) {
    var synced, txs := Synced(s.pool), block.transactions;
    && NewBlock(env, s.last, miner, now, txs) == Some(block)
    && |txs| == TRANSACTIONS_PER_BLOCK
    && next == Applied(s, block).(pool := next.pool)
    && next.pool.future == synced.future
    && (forall tx :: tx in txs ==> TxOk(env, s.accounts, tx))
    && (forall a :: TookLowest(At(synced.pending, a), Of(txs, a), At(next.pool.pending, a)))
  }

  /** A tick makes a block exactly when enough is pending after promotion; it holds five sound
      transactions, for each account its lowest pending ones. */
  lemma TickShape(env: Env, miner: Address, s: State, now: nat, made: Option<Block>, next: State)
    requires PoolOk(env, s.accounts, s.pool) && s.last.Some? && Ticks(env, miner, s, now, made, next)
    ensures made.Some? <==> EnoughPending(s.pool)
    ensures made.None? ==> next == s.(pool := Synced(s.pool))
    ensures made.Some? ==> TickMade(env, miner, s, now, made.value, next)
  {
    var synced := Synced(s.pool);
    SyncPoolOk(env, s.accounts, s.pool);
    if EnoughPending(s.pool) {
      var order, r, i, txs, left :|
        && Extracts(synced.pending, TRANSACTIONS_PER_BLOCK, order, r, i, txs, left)
        && made == NewBlock(env, s.last, miner, now, txs)
        && next == var taken := s.(pool := Pool(left, synced.future));
                   if made.None? then taken else Applied(taken, made.value);
      ExtractedOk(env, s.accounts, synced.pending, TRANSACTIONS_PER_BLOCK, order, r, i, txs, left);
      BlockIsMade(env, s.accounts, s.last, miner, now, txs);
      forall a
        ensures TookLowest(At(synced.pending, a), Of(txs, a), At(left, a))
      {
        TakenFrom(synced.pending, order, r, i, a);
      }
    }
  }

  /** A tick is possible in every state and at every time. */
  lemma TickHappens(env: Env, miner: Address, s: State, now: nat) returns (made: Option<Block>, next: State)
    ensures Ticks(env, miner, s, now, made, next)
  {
    var synced := Synced(s.pool);
    if EnoughPending(s.pool) {
      var order, r, i, txs, left := ExtractionExists(synced.pending, TRANSACTIONS_PER_BLOCK);
      made := NewBlock(env, s.last, miner, now, txs);
      var taken := s.(pool := Pool(left, synced.future));
      next := if made.None? then taken else Applied(taken, made.value);
    } else {
      made, next := None, s.(pool := synced);
    }
  }

  lemma PartOk(env: Env, accounts: Accounts, more: Accounts, whole: Queue, f: Queue, part: Queue, a: Address)
    requires QueueOk(env, accounts, whole) && accounts.Keys <= more.Keys
    requires OrderlyAt(whole, f, a) && IsPart(part, whole)
    ensures QueueOk(env, more, part) && OrderlyAt(part, f, a)
  {
  }

  lemma TickPoolOk(env: Env, miner: Address, s: State, now: nat, block: Block, next: State)
    requires PoolOk(env, s.accounts, s.pool) && TickMade(env, miner, s, now, block, next)
    ensures PoolOk(env, next.accounts, next.pool) && s.accounts.Keys <= next.accounts.Keys
  {
    var synced := Synced(s.pool);
    SyncPoolOk(env, s.accounts, s.pool);
    OrderlyByAccount(synced);
    forall a
      ensures OrderlyAt(At(next.pool.pending, a), At(next.pool.future, a), a)
      ensures QueueOk(env, next.accounts, At(next.pool.pending, a)) && QueueOk(env, next.accounts, At(next.pool.future, a))
    {
      DropIsPart(At(synced.pending, a), |Of(block.transactions, a)|);
      PartOk(env, s.accounts, next.accounts, At(synced.pending, a), At(synced.future, a), At(next.pool.pending, a), a);
      MoreAccounts(env, s.accounts, next.accounts, At(synced.future, a));
    }
    OrderlyByAccount(next.pool);
  }

  // ---------------------------------------------------------------- what a received block does

  lemma {:induction false} CheckAllEffect(env: Env, accounts: Accounts, txs: seq<Transaction>)
    ensures var checked := CheckAll(env, accounts, txs);
            && accounts.Keys <= checked.accounts.Keys
            && SameState(accounts, checked.accounts)
            && (checked.ok ==> forall tx :: tx in txs ==>
                  FieldsValid(RawOf(tx)) && tx.from in checked.accounts && tx.to in checked.accounts)
    decreases txs
  {
    if txs != [] && Judge(env, accounts, RawOf(txs[0])) == Valid {
      CheckAllEffect(env, WithAccount(accounts, txs[0].to), txs[1..]);
    }
  }

  /** Validation changes no balance and no nonce; it only opens empty accounts. */
  lemma ValidateEffect(env: Env, accounts: Accounts, last: Option<Block>, block: Block)
    ensures var checked := Validate(env, accounts, last, block);
            && accounts.Keys <= checked.accounts.Keys
            && SameState(accounts, checked.accounts)
            && (checked.ok ==> BlockFits(env, last, block) && Positive(block.transactions)
                               && forall tx :: tx in block.transactions ==> tx.from in checked.accounts && tx.to in checked.accounts)
  {
    CheckAllEffect(env, accounts, block.transactions);
  }

  // ---------------------------------------------------------------- in every reachable state

  lemma RejectedPoolOk(env: Env, accounts: Accounts, more: Accounts, pool: Pool)
    requires PoolOk(env, accounts, pool) && accounts.Keys <= more.Keys
    ensures PoolOk(env, more, pool)
  {
  }

  lemma ReceivePoolOk(env: Env, s: State, block: Block)
    requires PoolOk(env, s.accounts, s.pool)
    ensures var next := Received(env, s, block);
            PoolOk(env, next.accounts, next.pool) && s.accounts.Keys <= next.accounts.Keys
  {
    var next := Received(env, s, block);
    ValidateEffect(env, s.accounts, s.last, block);
    if Accepts(env, s, block) {
      CleanPoolOk(env, s.accounts, next.accounts, s.pool, block.transactions);
    } else {
      RejectedPoolOk(env, s.accounts, next.accounts, s.pool);
    }
  }

  lemma EmptyPoolOk(env: Env, accounts: Accounts)
    ensures PoolOk(env, accounts, EMPTY_POOL)
  {
  }

  lemma NextPoolOk(env: Env, miner: Address, s: State, event: Event, next: State)
    requires PoolOk(env, s.accounts, s.pool) && s.last.Some? && Next(env, miner, s, event, next)
    ensures PoolOk(env, next.accounts, next.pool) && next.last.Some?
    ensures s.accounts.Keys <= next.accounts.Keys
  {
    match event {
      case Submit(raw) =>
        SubmitPoolOk(env, s, raw);
      case Tick(now, made) =>
        TickShape(env, miner, s, now, made, next);
        if made.Some? {
          TickPoolOk(env, miner, s, now, made.value, next);
        } else {
          SyncPoolOk(env, s.accounts, s.pool);
        }
      case Receive(block) =>
        ReceivePoolOk(env, s, block);
      case Restart =>
        EmptyPoolOk(env, s.accounts);
    }
  }

  /** In every reachable state the mempool holds only checked transactions between existing
      accounts, filed under their sender and nonce, none of them twice. */
  lemma {:induction false} PoolAlwaysOk(env: Env, miner: Address, run: Run)
    requires IsRun(env, miner, run)
    ensures var s := Current(env, miner, run); PoolOk(env, s.accounts, s.pool) && s.last.Some?
  {
    match run {
      case Begin =>
      case Then(before, event, state) =>
        PoolAlwaysOk(env, miner, before);
        NextPoolOk(env, miner, Current(env, miner, before), event, state);
    }
  }
}
