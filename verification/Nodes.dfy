/** One node: its account store, its block store and its mempool, and the three things that
    happen to it - a transaction is submitted, a tick of the block creator, a block arrives
    (blockchain/blockchain.go). */
module Nodes {
  import opened Text
  import opened Types
  import opened Ledger
  import opened Header
  import opened Blocks
  import opened Pools
  import opened Mempools
  import Merkle

  const TRANSACTIONS_PER_BLOCK: nat := 5

  /** Everything a node remembers. */
  datatype State = State(accounts: Accounts, blocks: map<string, Block>, last: Option<Block>, pool: Pool)

  datatype Response = Refused(verdict: Verdict) | Offered(admission: Admission)

  // ---------------------------------------------------------------- a transaction is submitted

  ghost function ResponseTo(env: Env, s: State, raw: RawTransaction): Response {
    var verdict := Judge(env, s.accounts, raw);
    if verdict != Valid then Refused(verdict)
    else Offered(Decide(s.pool, Create(env, raw), s.accounts[raw.from].nonce))
  }

  /** The receiver's account is there from now on, even when the pool then refuses the transaction. */
  ghost function Submitted(env: Env, s: State, raw: RawTransaction): State {
    match ResponseTo(env, s, raw)
    case Refused(_) => s
    case Offered(admission) =>
      s.(accounts := WithAccount(s.accounts, raw.to), pool := Admitted(s.pool, Create(env, raw), admission))
  }

  // ---------------------------------------------------------------- a block arrives

  function WithBlock(s: State, block: Block): State {
    s.(blocks := s.blocks[block.hash := block], last := Some(block))
  }

  predicate Accepts(env: Env, s: State, block: Block) {
    Validate(env, s.accounts, s.last, block).ok
  }

  /** The receiver rewards first and executes afterwards. */
  ghost function Received(env: Env, s: State, block: Block): State {
    var checked := Validate(env, s.accounts, s.last, block);
    if !checked.ok then s.(accounts := checked.accounts)
    else
      WithBlock(s, block).(
        accounts := Execute(Reward(checked.accounts, block.miner), block.transactions).accounts,
        pool := Cleaned(s.pool, block.transactions))
  }

  // ---------------------------------------------------------------- the block creator ticks

  /** The creator executes first and rewards afterwards. */
  function Applied(s: State, block: Block): State {
    WithBlock(s, block).(accounts := Reward(Execute(s.accounts, block.transactions).accounts, block.miner))
  }

  ghost predicate EnoughPending(pool: Pool) {
    TotalPending(Synced(pool).pending) >= TRANSACTIONS_PER_BLOCK
  }

  /** What a tick at time `now` may do: promote, and if enough is pending extract the transactions
      of a block in some order of the accounts, create the block, store it, execute it and take
      the reward. */
  ghost predicate Ticks(env: Env, miner: Address, s: State, now: nat, made: Option<Block>, next: State) {
    var synced := Synced(s.pool);
    if !EnoughPending(s.pool) then made == None && next == s.(pool := synced)
    else
      exists order, r, i, txs, left ::
        && Extracts(synced.pending, TRANSACTIONS_PER_BLOCK, order, r, i, txs, left)
        && made == NewBlock(env, s.last, miner, now, txs)
        && next == var taken := s.(pool := Pool(left, synced.future));
                   if made.None? then taken else Applied(taken, made.value)
  }

  // ---------------------------------------------------------------- the first start

  function Started(env: Env, s: State): State {
    if s.last.Some? then s
    else WithBlock(s, Genesis(env)).(accounts := s.accounts[GENESIS_MINER := Account(INITIAL_BALANCE, 0)])
  }

  // ---------------------------------------------------------------- the node

  class Node {
    const env: Env
    const nodeAccount: Address
    const accounts: AccountStore
    const chain: BlockStore
    const mempool: Mempool

    ghost function View(): State
      reads accounts, chain, mempool
    {
      State(accounts.accounts, chain.blocks, chain.lastBlock, mempool.View())
    }

    /** A node whose stores are empty but for its own account. */
    constructor (env: Env, nodeAccount: Address)
      ensures this.env == env && this.nodeAccount == nodeAccount
      ensures View() == State(map[nodeAccount := EMPTY_ACCOUNT], map[], None, EMPTY_POOL)
      ensures fresh(accounts) && fresh(chain) && fresh(mempool)
    {
      this.env := env;
      this.nodeAccount := nodeAccount;
      accounts := new AccountStore();
      chain := new BlockStore();
      mempool := new Mempool();
      new;
      accounts.StoreAccount(nodeAccount);
    }

    method InitGenesisBlock()
      modifies accounts, chain
      ensures View() == Started(env, old(View()))
    {
      if chain.lastBlock.Some? {
        return;
      }
      var hash := EncodeHex(env.keccak(Utf8(Print(Fields(1, "0x0", "0x0", GENESIS_MINER, 0)))));
      accounts.StoreAccountForGenesisMiner(GENESIS_MINER, INITIAL_BALANCE);
      chain.StoreBlock(Block(1, hash, "0x0", 0, "0x0", [], GENESIS_MINER));
    }

    method VerifySignature(raw: RawTransaction) returns (ok: bool)
      ensures ok <==> SignatureValid(env, raw)
    {
      var message := raw.from + raw.to + ShowInt(raw.value) + Decimal(raw.nonce);
      var messageHash := env.keccak(Utf8(message));
      var decodedSignature := DecodeHex(raw.signature);
      if decodedSignature.None? {
        return false;
      }
      return env.recovers(messageHash, decodedSignature.value, raw.from);
    }

    /** The checks a submitted transaction and a block's transaction have in common. */
    method CheckTransaction(raw: RawTransaction) returns (verdict: Verdict)
      modifies accounts
      ensures verdict == Judge(env, old(accounts.accounts), raw)
      ensures accounts.accounts == AccountsAfter(old(accounts.accounts), raw, verdict)
    {
      var fieldsOk := ValidateTransactionFields(raw.from, raw.to, raw.value, raw.signature, raw.nonce);
      if !fieldsOk {
        return FieldsInvalid;
      }
      var signatureOk := VerifySignature(raw);
      if !signatureOk {
        return SignatureInvalid;
      }
      var check := accounts.CheckAccountState(raw.from, raw.to, raw.value, raw.nonce);
      return if check == Passed then Valid else StateInvalid(check);
    }

    method ProcessTransaction(raw: RawTransaction) returns (response: Response)
      modifies accounts, mempool
      ensures response == ResponseTo(env, old(View()), raw)
      ensures View() == Submitted(env, old(View()), raw)
    {
      var verdict := CheckTransaction(raw);
      if verdict != Valid {
        return Refused(verdict);
      }
      var hash := "0x" + EncodeHex(env.keccak(env.encode(raw)));
      var tx := Transaction(hash, raw.from, raw.to, raw.value, raw.nonce, raw.signature);
      var admission := mempool.AddTransaction(accounts.accounts, tx, raw.nonce);
      return Offered(admission);
    }

    /** Stops at the first transaction that fails; the accounts created before it stay. */
    method ValidateTransactions(transactions: seq<Transaction>) returns (ok: bool)
      modifies accounts
      ensures Checked(accounts.accounts, ok) == CheckAll(env, old(accounts.accounts), transactions)
    {
      var i := 0;
      while i < |transactions|
        invariant i <= |transactions|
        invariant CheckAll(env, old(accounts.accounts), transactions) ==
                  CheckAll(env, accounts.accounts, transactions[i..])
      {
        var verdict := CheckTransaction(RawOf(transactions[i]));
        if verdict != Valid {
          return false;
        }
        assert transactions[i..][1..] == transactions[i + 1..];
        i := i + 1;
      }
      return true;
    }

    method ValidateReceivedBlock(block: Block) returns (ok: bool)
      modifies accounts
      ensures Checked(accounts.accounts, ok) == Validate(env, old(accounts.accounts), chain.lastBlock, block)
    {
      var follows := chain.ValidateBlockWithPrevBlock(block);
      if !follows {
        return false;
      }
      var header := Fields(block.number, block.parentHash, block.merkleRoot, block.miner, block.timestamp);
      var expectedHash := EncodeHex(env.keccak(Utf8(Print(header))));
      if block.hash != expectedHash {
        return false;
      }
      var transactionHashes := CollectHashes(block.transactions);
      var calculatedMerkleRoot, _ := Merkle.BuildMerkleTree(env.keccak, transactionHashes);
      if calculatedMerkleRoot != Some(block.merkleRoot) {
        return false;
      }
      ok := ValidateTransactions(block.transactions);
    }

    /** The block branch of the processor's loop. A failed reward or execution is only logged. */
    method ProcessBlock(block: Block) returns (accepted: bool)
      modifies accounts, chain, mempool
      ensures accepted <==> Accepts(env, old(View()), block)
      ensures View() == Received(env, old(View()), block)
    {
      accepted := ValidateReceivedBlock(block);
      if !accepted {
        return;
      }
      var rewarded := accounts.RewardToMiner(block.miner);
      chain.StoreBlock(block);
      var executed, _ := accounts.ExecuteTransactions(block.transactions);
      mempool.CleanMempoolAfterReceiveBlock(block.transactions);
    }

    /** The body of the creator's loop, at time `now`. */
    method Tick(now: nat) returns (made: Option<Block>)
      modifies accounts, chain, mempool
      ensures Ticks(env, nodeAccount, old(View()), now, made, View())
    {
      mempool.SyncFutureToPending();
      var totalTransactions := mempool.CountPending();
      if totalTransactions < TRANSACTIONS_PER_BLOCK {
        return None;
      }
      ghost var synced := mempool.View();
      var blockTxs;
      ghost var order, r, i;
      blockTxs, order, r, i := mempool.ExtractTransactionsForBlock(TRANSACTIONS_PER_BLOCK);
      ghost var left := mempool.pending;
      made := chain.CreateNewBlock(env, blockTxs, nodeAccount, now);
      if made.Some? {
        var block := made.value;
        chain.StoreBlock(block);
        var executed, _ := accounts.ExecuteTransactions(block.transactions);
        var rewarded := accounts.RewardToMiner(block.miner);
      }
      assert Extracts(synced.pending, TRANSACTIONS_PER_BLOCK, order, r, i, blockTxs, left);
    }
  }
}
