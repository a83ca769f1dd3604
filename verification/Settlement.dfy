/** What executing a list of transactions does as a whole, whatever its order: balances,
    nonces, the money supply, and how it commutes with rewarding the miner. */
module Settlement {
  import opened Types
  import opened Sums
  import opened Ledger

  // ---------------------------------------------------------------- weights of a transaction

  /** A transfer to oneself takes nothing: the receiver's copy of the account is what is kept. */
  predicate IsSelfTransfer(tx: Transaction) {
    tx.from == tx.to
  }

  function Spends(a: Address): Transaction -> int {
    (tx: Transaction) => if tx.from == a && !IsSelfTransfer(tx) then tx.value else 0
  }

  function Gains(a: Address): Transaction -> int {
    (tx: Transaction) => if tx.to == a then tx.value else 0
  }

  function Counts(a: Address): Transaction -> int {
    (tx: Transaction) => if tx.from == a && !IsSelfTransfer(tx) then 1 else 0
  }

  function Outlays(a: Address): Transaction -> int {
    (tx: Transaction) => if tx.from == a then tx.value else 0
  }

  function Mints(): Transaction -> int {
    (tx: Transaction) => if IsSelfTransfer(tx) then tx.value else 0
  }

  predicate Positive(txs: seq<Transaction>) {
    forall tx :: tx in txs ==> tx.value > 0
  }

  predicate NoSelfTransfers(txs: seq<Transaction>) {
    forall tx :: tx in txs ==> !IsSelfTransfer(tx)
  }

  // ---------------------------------------------------------------- balances and nonces

  /** One transfer, at every address. */
  lemma TransferEffect(l: Accounts, tx: Transaction, a: Address)
    requires tx.from in l && tx.to in l
    ensures Read(Transfer(l, tx), a).balance == Read(l, a).balance - Spends(a)(tx) + Gains(a)(tx)
    ensures Read(Transfer(l, tx), a).nonce == Read(l, a).nonce + Counts(a)(tx)
  {
  }

  /** The closed form of an execution: each balance is the old one minus what was spent plus what
      was received, each nonce the old one plus the number of transactions sent, over exactly
      the transactions that were executed. */
  lemma {:induction false} ExecuteEffect(l: Accounts, txs: seq<Transaction>, a: Address)
    ensures var e := Execute(l, txs); var done := txs[..e.executed];
            && Read(e.accounts, a).balance == Read(l, a).balance - Weigh(done, Spends(a)) + Weigh(done, Gains(a))
            && Read(e.accounts, a).nonce == Read(l, a).nonce + Weigh(done, Counts(a))
  {
    if txs != [] && CanExecute(l, txs[0]) {
      TransferEffect(l, txs[0], a);
      ExecuteEffect(Transfer(l, txs[0]), txs[1..], a);
      var done := txs[..Execute(l, txs).executed];
      assert done[1..] == txs[1..][..|done| - 1];
    }
  }

  /** A transaction one of whose accounts is missing is never executed, nor is anything after it. */
  lemma {:induction false} MissingAccountStops(l: Accounts, txs: seq<Transaction>, k: nat)
    requires k < |txs| && (txs[k].from !in l || txs[k].to !in l)
    ensures Execute(l, txs).executed <= k
    decreases k
  {
    ExecuteOne(l, txs);
    if k > 0 && CanExecute(l, txs[0]) {
      MissingAccountStops(Transfer(l, txs[0]), txs[1..], k - 1);
    }
  }

  /** The reward is 1000, goes to the miner, and changes nothing else; without an address there is
      none. */
  lemma RewardMeans(l: Accounts, miner: Address, a: Address)
    ensures Read(Reward(l, miner), a) ==
            if a == miner && IsValidAddress(miner) then Account(Read(l, a).balance + 1000, Read(l, a).nonce) else Read(l, a)
    ensures !IsValidAddress(miner) ==> Reward(l, miner) == l
  {
  }

  /** Every account the list names exists, and every sender can pay all of its transactions
      from what it has before the first. */
  ghost predicate Covered(l: Accounts, txs: seq<Transaction>) {
    forall tx :: tx in txs ==>
      tx.from in l && tx.to in l && tx.value >= 0 && Read(l, tx.from).balance >= Weigh(txs, Outlays(tx.from))
  }

  /** A covered list is executed to its end. */
  lemma {:induction false} CoveredExecutes(l: Accounts, txs: seq<Transaction>)
    requires Covered(l, txs)
    ensures Execute(l, txs).executed == |txs|
  {
    if txs != [] {
      var tx, rest := txs[0], txs[1..];
      assert tx in txs;
      WeighNonNegative(rest, Outlays(tx.from));
      assert Weigh(txs, Outlays(tx.from)) == tx.value + Weigh(rest, Outlays(tx.from));
      var next := Transfer(l, tx);
      forall u | u in rest
        ensures u.from in next && u.to in next && u.value >= 0
        ensures Read(next, u.from).balance >= Weigh(rest, Outlays(u.from))
      {
        assert u in txs;
        TransferEffect(l, tx, u.from);
        assert Weigh(txs, Outlays(u.from)) == Outlays(u.from)(tx) + Weigh(rest, Outlays(u.from));
      }
      CoveredExecutes(next, rest);
    }
  }

  /** Maps with the same keys and the same state are the same map. */
  lemma SameKeysSameState(l: Accounts, k: Accounts)
    requires l.Keys == k.Keys && SameState(l, k)
    ensures l == k
  {
    forall a | a in l
      ensures l[a] == k[a]
    {
      assert Read(l, a) == l[a] && Read(k, a) == k[a];
    }
  }

  /** The order of a covered list does not matter: every rearrangement is covered, is executed to
      its end, and leaves the same ledger. */
  lemma OrderDoesNotMatter(l: Accounts, txs: seq<Transaction>, other: seq<Transaction>)
    requires Covered(l, txs) && multiset(txs) == multiset(other)
    ensures Covered(l, other)
    ensures Execute(l, other).executed == |other|
    ensures Execute(l, other).accounts == Execute(l, txs).accounts
  {
    forall tx | tx in other
      ensures tx in txs && Weigh(other, Outlays(tx.from)) == Weigh(txs, Outlays(tx.from))
    {
      assert tx in multiset(other);
      WeighPermutation(txs, other, Outlays(tx.from));
    }
    CoveredExecutes(l, txs);
    CoveredExecutes(l, other);
    var e, f := Execute(l, txs), Execute(l, other);
    forall a
      ensures Read(e.accounts, a) == Read(f.accounts, a)
    {
      SameEffect(l, txs, other, a);
    }
    SameKeysSameState(e.accounts, f.accounts);
  }

  /** The closed form of an execution that reached its end. */
  lemma FullEffect(l: Accounts, txs: seq<Transaction>, a: Address)
    requires Execute(l, txs).executed == |txs|
    ensures var after := Read(Execute(l, txs).accounts, a);
            && after.balance == Read(l, a).balance - Weigh(txs, Spends(a)) + Weigh(txs, Gains(a))
            && after.nonce == Read(l, a).nonce + Weigh(txs, Counts(a))
  {
    assert txs[..|txs|] == txs;
    ExecuteEffect(l, txs, a);
  }

  lemma SameEffect(l: Accounts, txs: seq<Transaction>, other: seq<Transaction>, a: Address)
    requires multiset(txs) == multiset(other)
    requires Execute(l, txs).executed == |txs| && Execute(l, other).executed == |other|
    ensures Read(Execute(l, txs).accounts, a) == Read(Execute(l, other).accounts, a)
  {
    FullEffect(l, txs, a);
    FullEffect(l, other, a);
    WeighPermutation(txs, other, Spends(a));
    WeighPermutation(txs, other, Gains(a));
    WeighPermutation(txs, other, Counts(a));
  }

  // ---------------------------------------------------------------- the money supply

  ghost function Balances(l: Accounts): map<Address, int> {
    map a | a in l :: l[a].balance
  }

  ghost function Supply(l: Accounts): int {
    Sum(Balances(l))
  }

  lemma SupplyUpdate(l: Accounts, a: Address, account: Account)
    ensures Supply(l[a := account]) == Supply(l) - Read(l, a).balance + account.balance
  {
    SumUpdate(Balances(l), a, account.balance);
    assert Balances(l[a := account]) == Balances(l)[a := account.balance];
  }

  lemma TransferSupply(l: Accounts, tx: Transaction)
    requires tx.from in l && tx.to in l
    ensures Supply(Transfer(l, tx)) == Supply(l) + Mints()(tx)
  {
    var from := Account(l[tx.from].balance - tx.value, l[tx.from].nonce + 1);
    SupplyUpdate(l, tx.from, from);
    SupplyUpdate(l[tx.from := from], tx.to, Account(l[tx.to].balance + tx.value, l[tx.to].nonce));
  }

  /** Execution keeps the supply up to the transfers of an account to itself, which create their
      value; this holds of an aborted execution too. */
  lemma {:induction false} ExecuteSupply(l: Accounts, txs: seq<Transaction>)
    ensures var e := Execute(l, txs); Supply(e.accounts) == Supply(l) + Weigh(txs[..e.executed], Mints())
  {
    if txs != [] && CanExecute(l, txs[0]) {
      TransferSupply(l, txs[0]);
      ExecuteSupply(Transfer(l, txs[0]), txs[1..]);
      var done := txs[..Execute(l, txs).executed];
      assert done[1..] == txs[1..][..|done| - 1];
    }
  }

  /** With positive values the supply is conserved exactly when no executed transaction goes from
      an account to itself. */
  lemma SupplyConservedIff(l: Accounts, txs: seq<Transaction>)
    requires Positive(txs)
    ensures var e := Execute(l, txs);
            Supply(e.accounts) == Supply(l) <==> forall i :: 0 <= i < e.executed ==> !IsSelfTransfer(txs[i])
  {
    var done := txs[..Execute(l, txs).executed];
    ExecuteSupply(l, txs);
    WeighNonNegative(done, Mints());
    if forall i :: 0 <= i < |done| ==> !IsSelfTransfer(txs[i]) {
      NothingMinted(done);
    } else {
      var i :| 0 <= i < |done| && IsSelfTransfer(txs[i]);
      assert done[i] in done && Mints()(done[i]) > 0;
    }
  }

  /** For a covered list that is known beforehand: a transfer of an account to itself in the list
      is exactly what breaks conservation. */
  lemma CoveredSupplyIff(l: Accounts, txs: seq<Transaction>)
    requires Covered(l, txs) && Positive(txs)
    ensures Supply(Execute(l, txs).accounts) == Supply(l) <==> NoSelfTransfers(txs)
  {
    CoveredExecutes(l, txs);
    SupplyConservedIff(l, txs);
  }

  lemma {:induction false} NothingMinted(txs: seq<Transaction>)
    requires forall i :: 0 <= i < |txs| ==> !IsSelfTransfer(txs[i])
    ensures Weigh(txs, Mints()) == 0
  {
    if txs != [] {
      NothingMinted(txs[1..]);
    }
  }

  lemma RewardSupply(l: Accounts, miner: Address)
    ensures Supply(Reward(l, miner)) == Supply(l) + if IsValidAddress(miner) then REWARD else 0
  {
    SupplyUpdate(l, miner, EMPTY_ACCOUNT);
    var present := WithAccount(l, miner);
    SupplyUpdate(present, miner, Account(present[miner].balance + REWARD, present[miner].nonce));
  }

  ghost predicate NonNegative(l: Accounts) {
    forall a :: a in l ==> l[a].balance >= 0
  }

  lemma {:induction false} ExecuteNonNegative(l: Accounts, txs: seq<Transaction>)
    requires NonNegative(l) && Positive(txs)
    ensures NonNegative(Execute(l, txs).accounts)
  {
    if txs != [] && CanExecute(l, txs[0]) {
      assert txs[0] in txs;
      ExecuteNonNegative(Transfer(l, txs[0]), txs[1..]);
    }
  }

  lemma RewardNonNegative(l: Accounts, miner: Address)
    requires NonNegative(l)
    ensures NonNegative(Reward(l, miner))
  {
  }

  // ---------------------------------------------------------------- reward and execution

  lemma TransferAfterReward(l: Accounts, tx: Transaction, miner: Address)
    requires CanExecute(l, tx)
    ensures CanExecute(Reward(l, miner), tx)
    ensures Transfer(Reward(l, miner), tx) == Reward(Transfer(l, tx), miner)
  {
  }

  /** What executes before the reward executes after it, in the same way; and after the reward
      execution goes on exactly where it would go on if the reward came at the point where it
      stopped. */
  lemma {:induction false} ExecuteAfterReward(l: Accounts, txs: seq<Transaction>, miner: Address)
    ensures var first, late := Execute(l, txs), Execute(Reward(l, miner), txs);
            Continues(late, Execute(Reward(first.accounts, miner), txs[first.executed..]), first.executed)
  {
    if txs == [] || !CanExecute(l, txs[0]) {
      assert txs[0..] == txs;
    } else {
      TransferAfterReward(l, txs[0], miner);
      ExecuteAfterReward(Transfer(l, txs[0]), txs[1..], miner);
      ContinueOne(l, txs, miner);
    }
  }

  lemma ContinueOne(l: Accounts, txs: seq<Transaction>, miner: Address)
    requires txs != [] && CanExecute(l, txs[0]) && CanExecute(Reward(l, miner), txs[0])
    requires Transfer(Reward(l, miner), txs[0]) == Reward(Transfer(l, txs[0]), miner)
    requires var rest := Execute(Transfer(l, txs[0]), txs[1..]);
             Continues(Execute(Reward(Transfer(l, txs[0]), miner), txs[1..]),
                       Execute(Reward(rest.accounts, miner), txs[1..][rest.executed..]), rest.executed)
    ensures var first, late := Execute(l, txs), Execute(Reward(l, miner), txs);
            Continues(late, Execute(Reward(first.accounts, miner), txs[first.executed..]), first.executed)
  {
  }

  /** A block that executes fully can be rewarded before or after, with the same ledger; the miner
      may be new, a sender or a receiver. */
  lemma RewardCommutes(l: Accounts, txs: seq<Transaction>, miner: Address)
    requires Execute(l, txs).executed == |txs|
    ensures Execute(Reward(l, miner), txs) == Execution(Reward(Execute(l, txs).accounts, miner), |txs|)
  {
    ExecuteAfterReward(l, txs, miner);
    assert txs[|txs|..] == [];
  }

  /** The first transaction that fails would not have failed with the reward already paid. */
  predicate RewardTips(l: Accounts, txs: seq<Transaction>, miner: Address) {
    var e := Execute(l, txs);
    e.executed < |txs| && CanExecute(Reward(e.accounts, miner), txs[e.executed])
  }

  /** What the sender of the k-th transaction has when its turn comes, going by the amounts alone. */
  function Running(l: Accounts, txs: seq<Transaction>, k: nat): int
    requires k < |txs|
  {
    var a := txs[k].from;
    Read(l, a).balance - Weigh(txs[..k], Spends(a)) + Weigh(txs[..k], Gains(a))
  }

  /** The first n transactions can be paid one after the other. */
  predicate PaysFirst(l: Accounts, txs: seq<Transaction>, n: nat)
    requires n <= |txs|
  {
    forall i :: 0 <= i < n ==> txs[i].value <= Running(l, txs, i)
  }

  predicate AllExist(l: Accounts, txs: seq<Transaction>) {
    forall tx :: tx in txs ==> tx.from in l && tx.to in l
  }

  lemma RunningShift(l: Accounts, txs: seq<Transaction>, i: nat, k: nat)
    requires k == i + 1 && k < |txs| && txs[0].from in l && txs[0].to in l
    ensures Running(Transfer(l, txs[0]), txs[1..], i) == Running(l, txs, k)
  {
    var a := txs[k].from;
    TransferEffect(l, txs[0], a);
    assert txs[..k][1..] == txs[1..][..i];
  }

  lemma PaysShift(l: Accounts, txs: seq<Transaction>, m: nat, n: nat)
    requires n == m + 1 && n <= |txs| && txs[0].from in l && txs[0].to in l
    ensures PaysFirst(l, txs, n) <==>
            txs[0].value <= Read(l, txs[0].from).balance && PaysFirst(Transfer(l, txs[0]), txs[1..], m)
  {
    assert txs[..0] == [];
    assert Running(l, txs, 0) == Read(l, txs[0].from).balance;
    forall i: nat | i < m
      ensures Running(Transfer(l, txs[0]), txs[1..], i) == Running(l, txs, i + 1)
    {
      RunningShift(l, txs, i, i + 1);
    }
    if PaysFirst(l, txs, n) {
      forall i | 0 <= i < m
        ensures txs[1..][i].value <= Running(Transfer(l, txs[0]), txs[1..], i)
      {
        assert txs[i + 1].value <= Running(l, txs, i + 1);
      }
    }
    if txs[0].value <= Read(l, txs[0].from).balance && PaysFirst(Transfer(l, txs[0]), txs[1..], m) {
      forall i | 0 <= i < n
        ensures txs[i].value <= Running(l, txs, i)
      {
        if i > 0 {
          assert txs[1..][i - 1].value <= Running(Transfer(l, txs[0]), txs[1..], i - 1);
        }
      }
    }
  }

  /** Among existing accounts at least n transactions are executed if and only if the first n can
      be paid one after the other. */
  lemma {:induction false} ExecutedIff(l: Accounts, txs: seq<Transaction>, n: nat)
    requires AllExist(l, txs) && n <= |txs|
    ensures Execute(l, txs).executed >= n <==> PaysFirst(l, txs, n)
    decreases n
  {
    if n > 0 {
      var m := n - 1;
      assert txs[0] in txs;
      PaysShift(l, txs, m, n);
      ExecuteOne(l, txs);
      if CanExecute(l, txs[0]) {
        ExecutedIff(Transfer(l, txs[0]), txs[1..], m);
      }
    }
  }

  /** The k-th transaction is the miner's and the first that cannot be paid, by no more than the
      reward. */
  predicate TipsAt(l: Accounts, txs: seq<Transaction>, miner: Address, k: nat) {
    && k < |txs| && PaysFirst(l, txs, k)
    && IsValidAddress(miner) && txs[k].from == miner
    && Running(l, txs, k) < txs[k].value <= Running(l, txs, k) + REWARD
  }

  lemma FirstUnpaid(l: Accounts, txs: seq<Transaction>, k: nat)
    requires AllExist(l, txs) && k < |txs| && PaysFirst(l, txs, k) && Running(l, txs, k) < txs[k].value
    ensures Execute(l, txs).executed == k
  {
    ExecutedIff(l, txs, k);
    ExecutedIff(l, txs, k + 1);
  }

  lemma RewardTipsAt(l: Accounts, txs: seq<Transaction>, miner: Address, k: nat)
    requires AllExist(l, txs) && k < |txs| && Execute(l, txs).executed == k
    ensures RewardTips(l, txs, miner) <==> TipsAt(l, txs, miner, k)
  {
    assert txs[k] in txs;
    ExecutedIff(l, txs, k);
    ExecutedIff(l, txs, k + 1);
    ExecuteEffect(l, txs, txs[k].from);
  }

  /** Whether the reward tips a transaction can be told without executing anything. */
  lemma RewardTipsIff(l: Accounts, txs: seq<Transaction>, miner: Address)
    requires AllExist(l, txs)
    ensures RewardTips(l, txs, miner) <==> exists k: nat :: TipsAt(l, txs, miner, k)
  {
    var e := Execute(l, txs).executed;
    if e < |txs| {
      RewardTipsAt(l, txs, miner, e);
    }
    forall k: nat | TipsAt(l, txs, miner, k)
      ensures RewardTips(l, txs, miner)
    {
      FirstUnpaid(l, txs, k);
      RewardTipsAt(l, txs, miner, k);
    }
  }

  /** Executing a nonempty part of a list of positive transactions changes what somebody owns. */
  lemma ExecutionLeavesTrace(l: Accounts, txs: seq<Transaction>)
    requires Positive(txs) && Execute(l, txs).executed > 0
    ensures !SameState(Execute(l, txs).accounts, l)
  {
    var e := Execute(l, txs);
    var done := txs[..e.executed];
    if exists i :: 0 <= i < |done| && !IsSelfTransfer(done[i]) {
      var i :| 0 <= i < |done| && !IsSelfTransfer(done[i]);
      var a := done[i].from;
      ExecuteEffect(l, txs, a);
      WeighNonNegative(done, Counts(a));
      assert done[i] in done && Counts(a)(done[i]) == 1;
      assert Read(e.accounts, a).nonce > Read(l, a).nonce;
    } else {
      var a := done[0].to;
      ExecuteEffect(l, txs, a);
      OnlySelfTransfers(done, a);
      WeighNonNegative(done, Gains(a));
      assert done[0] in done && done[0] in txs && Gains(a)(done[0]) > 0;
      assert Read(e.accounts, a).balance > Read(l, a).balance;
    }
  }

  lemma {:induction false} OnlySelfTransfers(txs: seq<Transaction>, a: Address)
    requires forall i :: 0 <= i < |txs| ==> IsSelfTransfer(txs[i])
    ensures Weigh(txs, Spends(a)) == 0
  {
    if txs != [] {
      OnlySelfTransfers(txs[1..], a);
    }
  }

  /** Executing and then rewarding, as the creator of a block does, and rewarding and then
      executing, as its receivers do, give the same state if and only if the reward does not tip
      the first transaction that fails. */
  lemma RewardCommutesIff(l: Accounts, txs: seq<Transaction>, miner: Address)
    requires Positive(txs)
    ensures SameState(Reward(Execute(l, txs).accounts, miner), Execute(Reward(l, miner), txs).accounts)
            <==> !RewardTips(l, txs, miner)
  {
    var first := Execute(l, txs);
    var after, left := Reward(first.accounts, miner), txs[first.executed..];
    ExecuteAfterReward(l, txs, miner);
    if RewardTips(l, txs, miner) {
      ExecuteOne(after, left);
      assert Positive(left);
      ExecutionLeavesTrace(after, left);
    } else if left != [] {
      ExecuteOne(after, left);
    }
  }

  /** Ledgers in the same state stay so while the same transactions execute, if all the accounts
      these name exist on both sides. */
  lemma {:induction false} ExecuteSameState(l: Accounts, k: Accounts, txs: seq<Transaction>)
    requires SameState(l, k)
    requires forall tx :: tx in txs ==> tx.from in l && tx.to in l && tx.from in k && tx.to in k
    ensures Execute(l, txs).executed == Execute(k, txs).executed
    ensures SameState(Execute(l, txs).accounts, Execute(k, txs).accounts)
  {
    if txs != [] {
      var tx := txs[0];
      assert tx in txs && Read(l, tx.from) == Read(k, tx.from);
      if CanExecute(l, tx) {
        TransferSameState(l, k, tx);
        ExecuteSameState(Transfer(l, tx), Transfer(k, tx), txs[1..]);
      }
    }
  }

  lemma TransferSameState(l: Accounts, k: Accounts, tx: Transaction)
    requires SameState(l, k) && tx.from in l && tx.to in l && tx.from in k && tx.to in k
    ensures SameState(Transfer(l, tx), Transfer(k, tx))
  {
    forall a
      ensures Read(Transfer(l, tx), a) == Read(Transfer(k, tx), a)
    {
      assert Read(l, a) == Read(k, a);
      TransferEffect(l, tx, a);
      TransferEffect(k, tx, a);
    }
  }

  lemma RewardSameState(l: Accounts, k: Accounts, miner: Address)
    requires SameState(l, k)
    ensures SameState(Reward(l, miner), Reward(k, miner))
  {
    assert Read(l, miner) == Read(k, miner);
    forall a
      ensures Read(Reward(l, miner), a) == Read(Reward(k, miner), a)
    {
      assert Read(l, a) == Read(k, a);
    }
  }
}
