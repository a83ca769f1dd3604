/** Two nodes and one block: when the other node accepts the block a creator made, and when both
    then have the same ledger although one executes and then rewards and the other rewards and
    then executes. */
module Replicas {
  import opened Text
  import opened Types
  import opened Sums
  import opened Ledger
  import opened Blocks
  import opened Rotation
  import opened Nodes
  import opened Settlement
  import opened Runs
  import opened Nonces

  // ---------------------------------------------------------------- validation, exactly

  /** What validation demands of one transaction of a block, on the ledger before the block. */
  predicate Sendable(env: Env, accounts: Accounts, tx: Transaction) {
    && FieldsValid(RawOf(tx)) && SignatureValid(env, RawOf(tx))
    && Read(accounts, tx.from).balance >= tx.value
    && Read(accounts, tx.from).nonce <= tx.nonce
  }

  lemma JudgeIff(env: Env, accounts: Accounts, tx: Transaction)
    ensures Judge(env, accounts, RawOf(tx)) == Valid <==> Sendable(env, accounts, tx)
  {
  }

  /** The transactions of a block pass if and only if each passes on its own on the ledger before
      the block: accounts opened on the way make no difference, and what several transactions of
      one sender need together is not looked at. */
  lemma {:induction false} CheckAllIff(env: Env, accounts: Accounts, txs: seq<Transaction>)
    ensures CheckAll(env, accounts, txs).ok <==> forall tx :: tx in txs ==> Sendable(env, accounts, tx)
    decreases txs
  {
    if txs != [] {
      var more := WithAccount(accounts, txs[0].to);
      JudgeIff(env, accounts, txs[0]);
      assert txs[0] in txs;
      if Judge(env, accounts, RawOf(txs[0])) == Valid {
        CheckAllIff(env, more, txs[1..]);
        forall tx
          ensures Sendable(env, more, tx) <==> Sendable(env, accounts, tx)
        {
          assert Read(more, tx.from) == Read(accounts, tx.from);
        }
        assert forall tx :: tx in txs <==> tx == txs[0] || tx in txs[1..];
      }
    }
  }

  // ---------------------------------------------------------------- a block and two nodes

  /** Two nodes that agree: the same last block and the same ledger, missing accounts being empty. */
  ghost predicate Agree(s: State, t: State) {
    s.last == t.last && SameState(s.accounts, t.accounts)
  }

  lemma MadeBlockFits(env: Env, miner: Address, s: State, now: nat, block: Block)
    requires NewBlock(env, s.last, miner, now, block.transactions) == Some(block)
    ensures BlockFits(env, s.last, block) <==> now > LastOrZero(s.last).timestamp
    ensures block.miner == miner && block.number == LastOrZero(s.last).number + 1
  {
  }

  /** The nonces of a made block are above its senders' account nonces. */
  lemma MadeBlockNonces(env: Env, miner: Address, s: State, now: nat, block: Block, next: State)
    requires PoolOk(env, s.accounts, s.pool) && Coherent(s) && TickMade(env, miner, s, now, block, next)
    ensures forall tx :: tx in block.transactions ==> Read(s.accounts, tx.from).nonce < tx.nonce
  {
    forall tx | tx in block.transactions
      ensures Read(s.accounts, tx.from).nonce < tx.nonce
    {
      var a := tx.from;
      TickCoherentAt(env, miner, s, now, block, next, a);
      OfMembers(block.transactions, a, tx);
      var k :| 0 <= k < |Of(block.transactions, a)| && Of(block.transactions, a)[k] == tx;
    }
  }

  /** Every sender can pay each of its transactions, taken alone. */
  predicate Payable(accounts: Accounts, txs: seq<Transaction>) {
    forall tx :: tx in txs ==> Read(accounts, tx.from).balance >= tx.value
  }

  /** No transaction lies below the nonce its sender has already reached. */
  predicate NoneStale(accounts: Accounts, txs: seq<Transaction>) {
    forall tx :: tx in txs ==> Read(accounts, tx.from).nonce <= tx.nonce
  }

  /** Another node that agrees with the creator accepts the block of its tick if and only if the
      creator's clock is past the last block, every transaction of the block is payable on its own,
      and none lies below its sender's account nonce. */
  lemma MadeBlockAcceptedIff(env: Env, miner: Address, s: State, now: nat, block: Block, next: State, t: State)
    requires TickMade(env, miner, s, now, block, next) && Agree(s, t)
    ensures Accepts(env, t, block) <==>
            && now > LastOrZero(s.last).timestamp
            && Payable(s.accounts, block.transactions)
            && NoneStale(s.accounts, block.transactions)
  {
    MadeBlockFits(env, miner, s, now, block);
    CheckAllIff(env, t.accounts, block.transactions);
    forall tx | tx in block.transactions
      ensures Sendable(env, t.accounts, tx) <==>
              Read(s.accounts, tx.from).balance >= tx.value && Read(s.accounts, tx.from).nonce <= tx.nonce
    {
      assert Read(s.accounts, tx.from) == Read(t.accounts, tx.from);
      assert TxOk(env, s.accounts, tx);
    }
  }

  /** Rewarding first, from ledgers in the same state, leads to the same state. */
  lemma RewardedExecution(l: Accounts, k: Accounts, txs: seq<Transaction>, miner: Address)
    requires SameState(l, k)
    requires forall tx :: tx in txs ==> tx.from in l && tx.to in l && tx.from in k && tx.to in k
    ensures SameState(Execute(Reward(l, miner), txs).accounts, Execute(Reward(k, miner), txs).accounts)
  {
    RewardSameState(l, k, miner);
    ExecuteSameState(Reward(l, miner), Reward(k, miner), txs);
  }

  lemma SameStateSides(a: Accounts, b: Accounts, c: Accounts)
    requires SameState(b, c)
    ensures SameState(a, b) <==> SameState(a, c)
  {
  }

  /** Once the block is accepted, the creator and the other node agree again if and only if the
      reward does not tip the first transaction that fails. */
  lemma AcceptedAgreeIff(env: Env, miner: Address, s: State, now: nat, block: Block, next: State, t: State)
    requires TickMade(env, miner, s, now, block, next) && Agree(s, t) && Accepts(env, t, block)
    ensures Agree(next, Received(env, t, block)) <==> !RewardTips(s.accounts, block.transactions, miner)
  {
    var txs, checked := block.transactions, Validate(env, t.accounts, t.last, block).accounts;
    ValidateEffect(env, t.accounts, t.last, block);
    SameStateSides(s.accounts, t.accounts, checked);
    SoundPositive(env, s.accounts, txs);
    RewardCommutesIff(s.accounts, txs, miner);
    RewardedExecution(s.accounts, checked, txs, miner);
    SameStateSides(next.accounts, Execute(Reward(s.accounts, miner), txs).accounts,
                   Execute(Reward(checked, miner), txs).accounts);
  }

  /** A block that is refused leaves the two nodes with different last blocks. */
  lemma RefusedDiffers(env: Env, miner: Address, s: State, now: nat, block: Block, next: State, t: State)
    requires TickMade(env, miner, s, now, block, next) && Agree(s, t) && !Accepts(env, t, block)
    ensures !Agree(next, Received(env, t, block))
  {
    MadeBlockFits(env, miner, s, now, block);
  }

  lemma SoundExist(env: Env, accounts: Accounts, txs: seq<Transaction>)
    requires forall tx :: tx in txs ==> TxOk(env, accounts, tx)
    ensures AllExist(accounts, txs)
  {
  }

  /** Exactly when two nodes that agree still agree after one of them has made a block and the other
      has received it, in whatever state they are: the clock is past the last block, every
      transaction is payable on its own, none lies below its sender's account nonce, and no
      transaction is the miner's and the first that cannot be paid, by no more than the reward. All
      four can be told from the ledger before the block. */
  lemma ReplicasAgreeIff(env: Env, miner: Address, s: State, now: nat, block: Block, next: State, t: State)
    requires TickMade(env, miner, s, now, block, next) && Agree(s, t)
    ensures Agree(next, Received(env, t, block)) <==>
            && now > LastOrZero(s.last).timestamp
            && Payable(s.accounts, block.transactions)
            && NoneStale(s.accounts, block.transactions)
            && !exists k: nat :: TipsAt(s.accounts, block.transactions, miner, k)
  {
    MadeBlockAcceptedIff(env, miner, s, now, block, next, t);
    if Accepts(env, t, block) {
      AcceptedAgreeIff(env, miner, s, now, block, next, t);
      SoundExist(env, s.accounts, block.transactions);
      RewardTipsIff(s.accounts, block.transactions, miner);
    } else {
      RefusedDiffers(env, miner, s, now, block, next, t);
    }
  }

  /** A coherent mempool holds only nonces above its accounts', so no block made of it has a stale
      transaction and three conditions are left. */
  lemma CoherentAgreeIff(env: Env, miner: Address, s: State, now: nat, block: Block, next: State, t: State)
    requires PoolOk(env, s.accounts, s.pool) && Coherent(s) && TickMade(env, miner, s, now, block, next)
    requires Agree(s, t)
    ensures NoneStale(s.accounts, block.transactions)
    ensures Agree(next, Received(env, t, block)) <==>
            && now > LastOrZero(s.last).timestamp
            && Payable(s.accounts, block.transactions)
            && !exists k: nat :: TipsAt(s.accounts, block.transactions, miner, k)
  {
    MadeBlockNonces(env, miner, s, now, block, next);
    ReplicasAgreeIff(env, miner, s, now, block, next, t);
  }

  /** Every sender can pay all of its transactions of the block together. */
  predicate PayableTogether(accounts: Accounts, txs: seq<Transaction>) {
    forall tx :: tx in txs ==> Read(accounts, tx.from).balance >= Weigh(txs, Outlays(tx.from))
  }

  lemma TogetherIsCovered(env: Env, accounts: Accounts, txs: seq<Transaction>)
    requires PayableTogether(accounts, txs) && forall tx :: tx in txs ==> TxOk(env, accounts, tx)
    ensures Covered(accounts, txs) && Payable(accounts, txs)
  {
    SoundPositive(env, accounts, txs);
    forall tx | tx in txs
      ensures tx.from in accounts && tx.to in accounts && Read(accounts, tx.from).balance >= tx.value
    {
      assert TxOk(env, accounts, tx);
      WeighNonNegative(txs, Outlays(tx.from));
      assert Outlays(tx.from)(tx) == tx.value;
    }
  }

  /** Replica agreement: nodes that agree go on agreeing when one of them makes a block whose
      senders can pay it together and the other receives it. Whether the receivers' accounts and
      the miner's account exist on the other node does not matter. */
  lemma ReplicasAgree(env: Env, miner: Address, s: State, now: nat, block: Block, next: State, t: State)
    requires PoolOk(env, s.accounts, s.pool) && Coherent(s) && TickMade(env, miner, s, now, block, next)
    requires Agree(s, t) && now > LastOrZero(s.last).timestamp
    requires PayableTogether(s.accounts, block.transactions)
    ensures Accepts(env, t, block)
    ensures Agree(next, Received(env, t, block)) && next.last == Some(block)
    ensures Execute(s.accounts, block.transactions).executed == |block.transactions|
  {
    var txs := block.transactions;
    TogetherIsCovered(env, s.accounts, txs);
    CoveredExecutes(s.accounts, txs);
    MadeBlockNonces(env, miner, s, now, block, next);
    MadeBlockAcceptedIff(env, miner, s, now, block, next, t);
    AcceptedAgreeIff(env, miner, s, now, block, next, t);
  }
}
