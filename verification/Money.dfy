/** Money over whole runs: where every coin comes from, and that nobody ever owes any. */
module Money {
  import opened Text
  import opened Types
  import opened Sums
  import opened Ledger
  import opened Header
  import opened Blocks
  import opened Nodes
  import opened Settlement
  import opened Runs

  /** The transactions an event really executes. */
  function ExecutedBy(env: Env, s: State, event: Event): seq<Transaction> {
    match event
    case Tick(_, Some(block)) =>
      block.transactions[..Execute(s.accounts, block.transactions).executed]
    case Receive(block) =>
      if !Accepts(env, s, block) then []
      else
        var rewarded := Reward(Validate(env, s.accounts, s.last, block).accounts, block.miner);
        block.transactions[..Execute(rewarded, block.transactions).executed]
    case _ => []
  }

  /** 1 for a block whose miner has an address that can be rewarded. */
  function RewardsOf(added: Option<Block>): nat {
    if added.Some? && IsValidAddress(added.value.miner) then 1 else 0
  }

  function Rewards(env: Env, miner: Address, run: Run): nat {
    match run
    case Begin => 0
    case Then(before, event, _) =>
      Rewards(env, miner, before) + RewardsOf(AddedBy(env, Current(env, miner, before), event))
  }

  /** All transactions executed in a run. */
  function Executed(env: Env, miner: Address, run: Run): seq<Transaction> {
    match run
    case Begin => []
    case Then(before, event, _) =>
      Executed(env, miner, before) + ExecutedBy(env, Current(env, miner, before), event)
  }

  // ---------------------------------------------------------------- one event

  lemma OpeningKeepsSupply(l: Accounts, a: Address)
    ensures Supply(WithAccount(l, a)) == Supply(l)
  {
    SupplyUpdate(l, a, EMPTY_ACCOUNT);
  }

  lemma {:induction false} CheckAllSupply(env: Env, accounts: Accounts, txs: seq<Transaction>)
    ensures Supply(CheckAll(env, accounts, txs).accounts) == Supply(accounts)
    decreases txs
  {
    if txs != [] && Judge(env, accounts, RawOf(txs[0])) == Valid {
      OpeningKeepsSupply(accounts, txs[0].to);
      CheckAllSupply(env, WithAccount(accounts, txs[0].to), txs[1..]);
    }
  }

  lemma SupplyStep(env: Env, miner: Address, s: State, event: Event, next: State)
    requires PoolOk(env, s.accounts, s.pool) && s.last.Some? && Next(env, miner, s, event, next)
    ensures Supply(next.accounts) ==
            Supply(s.accounts) + REWARD * RewardsOf(AddedBy(env, s, event)) + Weigh(ExecutedBy(env, s, event), Mints())
  {
    match event {
      case Submit(raw) =>
        OpeningKeepsSupply(s.accounts, raw.to);
      case Tick(now, made) =>
        TickShape(env, miner, s, now, made, next);
        if made.Some? {
          var txs := made.value.transactions;
          ExecuteSupply(s.accounts, txs);
          RewardSupply(Execute(s.accounts, txs).accounts, made.value.miner);
        }
      case Receive(block) =>
        CheckAllSupply(env, s.accounts, block.transactions);
        if Accepts(env, s, block) {
          var checked := Validate(env, s.accounts, s.last, block).accounts;
          RewardSupply(checked, block.miner);
          ExecuteSupply(Reward(checked, block.miner), block.transactions);
        }
      case Restart =>
    }
  }

  lemma FirstSupply(env: Env, miner: Address)
    ensures Supply(FirstState(env, miner).accounts) == INITIAL_BALANCE
  {
    var none: Accounts := map[];
    SupplyUpdate(none, miner, EMPTY_ACCOUNT);
    assert Balances(none) == map[];
    SupplyUpdate(none[miner := EMPTY_ACCOUNT], GENESIS_MINER, Account(INITIAL_BALANCE, 0));
  }

  // ---------------------------------------------------------------- whole runs

  /** In every reachable state the supply is the initial balance, plus one reward for every block
      of the chain with a rewardable miner, plus what transfers of accounts to themselves have
      created. Aborted executions and rejected blocks are included. */
  lemma {:induction false} SupplyAlways(env: Env, miner: Address, run: Run)
    requires IsRun(env, miner, run)
    ensures Supply(Current(env, miner, run).accounts) ==
            INITIAL_BALANCE + REWARD * Rewards(env, miner, run) + Weigh(Executed(env, miner, run), Mints())
  {
    match run {
      case Begin =>
        FirstSupply(env, miner);
      case Then(before, event, state) =>
        var s := Current(env, miner, before);
        SupplyAlways(env, miner, before);
        PoolAlwaysOk(env, miner, before);
        SupplyStep(env, miner, s, event, state);
        WeighConcat(Executed(env, miner, before), ExecutedBy(env, s, event), Mints());
    }
  }

  /** So in a run that executes no transfer of an account to itself, money comes from the first
      block and from rewards only. */
  lemma SupplyWithoutSelfTransfers(env: Env, miner: Address, run: Run)
    requires IsRun(env, miner, run)
    requires forall i :: 0 <= i < |Executed(env, miner, run)| ==> !IsSelfTransfer(Executed(env, miner, run)[i])
    ensures Supply(Current(env, miner, run).accounts) == INITIAL_BALANCE + REWARD * Rewards(env, miner, run)
  {
    SupplyAlways(env, miner, run);
    NothingMinted(Executed(env, miner, run));
  }

  lemma {:induction false} CheckAllNonNegative(env: Env, accounts: Accounts, txs: seq<Transaction>)
    requires NonNegative(accounts)
    ensures NonNegative(CheckAll(env, accounts, txs).accounts)
    decreases txs
  {
    if txs != [] && Judge(env, accounts, RawOf(txs[0])) == Valid {
      CheckAllNonNegative(env, WithAccount(accounts, txs[0].to), txs[1..]);
    }
  }

  lemma ReceiveNonNegative(env: Env, s: State, block: Block)
    requires NonNegative(s.accounts)
    ensures NonNegative(Received(env, s, block).accounts)
    ensures Positive(ExecutedBy(env, s, Receive(block)))
  {
    CheckAllNonNegative(env, s.accounts, block.transactions);
    if Accepts(env, s, block) {
      ValidateEffect(env, s.accounts, s.last, block);
      RewardNonNegative(Validate(env, s.accounts, s.last, block).accounts, block.miner);
      ExecuteNonNegative(Reward(Validate(env, s.accounts, s.last, block).accounts, block.miner), block.transactions);
    }
  }

  lemma NonNegativeStep(env: Env, miner: Address, s: State, event: Event, next: State)
    requires PoolOk(env, s.accounts, s.pool) && s.last.Some? && Next(env, miner, s, event, next)
    requires NonNegative(s.accounts)
    ensures NonNegative(next.accounts)
    ensures Positive(ExecutedBy(env, s, event))
  {
    match event {
      case Submit(raw) =>
      case Tick(now, made) =>
        TickShape(env, miner, s, now, made, next);
        if made.Some? {
          SoundPositive(env, s.accounts, made.value.transactions);
          ExecuteNonNegative(s.accounts, made.value.transactions);
          RewardNonNegative(Execute(s.accounts, made.value.transactions).accounts, made.value.miner);
        }
      case Receive(block) =>
        ReceiveNonNegative(env, s, block);
      case Restart =>
    }
  }

  /** No reachable state has a negative balance, and no negative or empty payment is ever executed. */
  lemma {:induction false} BalancesNeverNegative(env: Env, miner: Address, run: Run)
    requires IsRun(env, miner, run)
    ensures NonNegative(Current(env, miner, run).accounts)
    ensures Positive(Executed(env, miner, run))
  {
    match run {
      case Begin =>
      case Then(before, event, state) =>
        BalancesNeverNegative(env, miner, before);
        PoolAlwaysOk(env, miner, before);
        NonNegativeStep(env, miner, Current(env, miner, before), event, state);
    }
  }
}
