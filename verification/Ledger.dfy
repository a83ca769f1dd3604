/** The account store (account/account.go) and the two operations that move money in it:
    executing a list of transactions and rewarding a miner. */
module Ledger {
  import opened Text
  import opened Types

  datatype Account = Account(balance: int, nonce: nat)

  type Accounts = map<Address, Account>

  const EMPTY_ACCOUNT := Account(0, 0)

  const REWARD: nat := 1000

  // ---------------------------------------------------------------- reading and checking

  /** What an address owns, whether or not it has an account yet. */
  function Read(accounts: Accounts, address: Address): Account {
    if address in accounts then accounts[address] else EMPTY_ACCOUNT
  }

  /** The same state: missing accounts count as empty ones. */
  ghost predicate SameState(a: Accounts, b: Accounts) {
    forall address :: Read(a, address) == Read(b, address)
  }

  function WithAccount(accounts: Accounts, address: Address): (more: Accounts)
    ensures more.Keys == accounts.Keys + {address}
  {
    if address in accounts then accounts else accounts[address := EMPTY_ACCOUNT]
  }

  /** Why a sender may be refused, in the order the source looks. */
  datatype Check = Passed | NoSender | InsufficientFunds | NonceTooLow

  function CheckSender(accounts: Accounts, from: Address, value: int, nonce: nat): Check {
    if from !in accounts then NoSender
    else if accounts[from].balance < value then InsufficientFunds
    else if accounts[from].nonce > nonce then NonceTooLow
    else Passed
  }

  // ---------------------------------------------------------------- executing

  /** Execution needs both accounts and the money; it looks at no nonce. */
  predicate CanExecute(accounts: Accounts, tx: Transaction) {
    tx.from in accounts && tx.to in accounts && accounts[tx.from].balance >= tx.value
  }

  /** Both copies are changed and then written, the sender's first: when the two are one
      account, the receiver's copy is what stays. */
  function Transfer(accounts: Accounts, tx: Transaction): Accounts
    requires tx.from in accounts && tx.to in accounts
  {
    var from, to := accounts[tx.from], accounts[tx.to];
    accounts[tx.from := Account(from.balance - tx.value, from.nonce + 1)]
            [tx.to := Account(to.balance + tx.value, to.nonce)]
  }

  datatype Execution = Execution(accounts: Accounts, executed: nat)

  /** Transactions are executed one by one up to the first that cannot be; what was executed
      before it stays executed. */
  function Execute(accounts: Accounts, txs: seq<Transaction>): (e: Execution)
    ensures e.executed <= |txs|
    ensures e.accounts.Keys == accounts.Keys
    ensures e.executed < |txs| ==> !CanExecute(e.accounts, txs[e.executed])
  {
    if txs == [] || !CanExecute(accounts, txs[0]) then Execution(accounts, 0)
    else
      var rest := Execute(Transfer(accounts, txs[0]), txs[1..]);
      Execution(rest.accounts, rest.executed + 1)
  }

  /** Execution as a whole, given what its rest does after the first n transactions. */
  predicate Continues(whole: Execution, rest: Execution, n: nat) {
    whole.accounts == rest.accounts && whole.executed == n + rest.executed
  }

  lemma ExecuteOne(accounts: Accounts, txs: seq<Transaction>)
    requires txs != []
    ensures !CanExecute(accounts, txs[0]) ==> Execute(accounts, txs) == Execution(accounts, 0)
    ensures CanExecute(accounts, txs[0]) ==>
              Continues(Execute(accounts, txs), Execute(Transfer(accounts, txs[0]), txs[1..]), 1)
  {
  }

  /** Going on with the n-th transaction of the list. */
  lemma ExecuteNext(whole: Execution, accounts: Accounts, txs: seq<Transaction>, n: nat)
    requires n < |txs| && Continues(whole, Execute(accounts, txs[n..]), n)
    ensures !CanExecute(accounts, txs[n]) ==> whole == Execution(accounts, n)
    ensures CanExecute(accounts, txs[n]) ==>
              Continues(whole, Execute(Transfer(accounts, txs[n]), txs[n + 1..]), n + 1)
  {
    ExecuteOne(accounts, txs[n..]);
    assert txs[n..][1..] == txs[n + 1..];
  }

  function Reward(accounts: Accounts, miner: Address): (rewarded: Accounts)
    ensures rewarded.Keys == accounts.Keys + if IsValidAddress(miner) then {miner} else {}
  {
    if !IsValidAddress(miner) then accounts
    else
      var present := WithAccount(accounts, miner);
      present[miner := Account(present[miner].balance + REWARD, present[miner].nonce)]
  }

  // ---------------------------------------------------------------- the store

  class AccountStore {
    var accounts: Accounts

    constructor ()
      ensures accounts == map[]
    {
      accounts := map[];
    }

    method GetAccount(address: Address) returns (r: Option<Account>)
      ensures r == if address in accounts then Some(accounts[address]) else None
    {
      r := if address in accounts then Some(accounts[address]) else None;
    }

    method AccountExists(address: Address) returns (found: bool)
      ensures found <==> address in accounts
    {
      found := address in accounts;
    }

    /** Overwrites whatever is there. */
    method StoreAccount(address: Address)
      modifies this
      ensures accounts == old(accounts)[address := EMPTY_ACCOUNT]
    {
      accounts := accounts[address := EMPTY_ACCOUNT];
    }

    method StoreAccountForGenesisMiner(address: Address, initialBalance: nat)
      modifies this
      ensures accounts == old(accounts)[address := Account(initialBalance, 0)]
    {
      accounts := accounts[address := Account(initialBalance, 0)];
    }

    method UpdateAccount(address: Address, account: Account)
      modifies this
      ensures accounts == old(accounts)[address := account]
    {
      accounts := accounts[address := account];
    }

    /** A transaction that passes leaves an account for its receiver; one that does not leaves
        no trace. */
    method CheckAccountState(from: Address, to: Address, value: int, nonce: nat) returns (c: Check)
      modifies this
      ensures c == CheckSender(old(accounts), from, value, nonce)
      ensures accounts == if c == Passed then WithAccount(old(accounts), to) else old(accounts)
    {
      var fromExists := AccountExists(from);
      if !fromExists {
        return NoSender;
      }
      var fromAccount := GetAccount(from);
      if fromAccount.value.balance < value {
        return InsufficientFunds;
      }
      if fromAccount.value.nonce > nonce {
        return NonceTooLow;
      }
      var toExists := AccountExists(to);
      if !toExists {
        StoreAccount(to);
      }
      return Passed;
    }

    /** The number of transactions executed is all of them, or the execution stopped early. */
    method ExecuteTransactions(transactions: seq<Transaction>) returns (ok: bool, executed: nat)
      modifies this
      ensures Execution(accounts, executed) == Execute(old(accounts), transactions)
      ensures ok <==> executed == |transactions|
    {
      executed := 0;
      while executed < |transactions|
        invariant executed <= |transactions|
        invariant Continues(Execute(old(accounts), transactions), Execute(accounts, transactions[executed..]), executed)
      {
        var tx := transactions[executed];
        ExecuteNext(Execute(old(accounts), transactions), accounts, transactions, executed);
        var fromAccount := GetAccount(tx.from);
        if fromAccount.None? {
          return false, executed;
        }
        var toAccount := GetAccount(tx.to);
        if toAccount.None? {
          return false, executed;
        }
        var from, to := fromAccount.value, toAccount.value;
        if from.balance < tx.value {
          return false, executed;
        }
        from, to := Account(from.balance - tx.value, from.nonce + 1), Account(to.balance + tx.value, to.nonce);
        accounts := accounts[tx.from := from][tx.to := to];
        executed := executed + 1;
      }
      ok := true;
    }

    method RewardToMiner(miner: Address) returns (ok: bool)
      modifies this
      ensures ok <==> IsValidAddress(miner)
      ensures accounts == Reward(old(accounts), miner)
    {
      if !IsValidAddress(miner) {
        return false;
      }
      var minerExists := AccountExists(miner);
      if !minerExists {
        StoreAccount(miner);
      }
      var minerAccount := GetAccount(miner);
      UpdateAccount(miner, Account(minerAccount.value.balance + REWARD, minerAccount.value.nonce));
      ok := true;
    }
  }
}
