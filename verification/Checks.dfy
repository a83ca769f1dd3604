/** What the node's decisions mean, said without the functions that make them: where a transaction
    is filed and why it is refused, which block is accepted and which one is made, what a refused
    block and a cleaned mempool keep, and the state a node starts in. */
module Checks {
  import opened Text
  import opened Types
  import opened Ledger
  import opened Header
  import opened Blocks
  import opened Queues
  import opened Pools
  import opened Coherence
  import opened Nodes
  import opened Runs
  import opened Replicas
  import Merkle

  // ---------------------------------------------------------------- admission

  /** Some pending nonce is at least n. */
  ghost predicate Overtaken(pending: Queue, n: nat) {
    exists m :: m in pending && n <= m
  }

  /** For all queues, coherent or not, and any account nonce. */
  lemma ClassifyMeans(p: Queue, f: Queue, n: nat, dbNonce: nat)
    ensures var c := Classify(p, f, n, dbNonce); var unseen := n !in p && n !in f;
            && (c == DuplicateInPending <==> n in p)
            && (c == DuplicateInFuture <==> n !in p && n in f)
            && (c == Admission.NonceTooLow <==> unseen && (n <= dbNonce || Overtaken(p, n)))
            && (c == ToPending <==>
                  unseen && dbNonce < n && !Overtaken(p, n) && (n == dbNonce + 1 || n - 1 in p))
            && (c == ToFuture <==>
                  unseen && dbNonce < n && !Overtaken(p, n) && n != dbNonce + 1 && n - 1 !in p)
  {
  }

  /** A call that knows its sender opens both queues of the sender, whatever becomes of the
      transaction. */
  lemma AdmittedAccounts(pool: Pool, tx: Transaction, admission: Admission)
    requires admission != UnknownSender
    ensures Admitted(pool, tx, admission).pending.Keys == pool.pending.Keys + {tx.from}
    ensures Admitted(pool, tx, admission).future.Keys == pool.future.Keys + {tx.from}
  {
  }

  /** It files the transaction where it was classified, and touches no other queue. */
  lemma AdmittedMeans(pool: Pool, tx: Transaction, admission: Admission, a: Address)
    ensures var next := Admitted(pool, tx, admission);
            && At(next.pending, a) ==
                 (if a == tx.from && admission == ToPending then At(pool.pending, a)[tx.nonce := tx] else At(pool.pending, a))
            && At(next.future, a) ==
                 (if a == tx.from && admission == ToFuture then At(pool.future, a)[tx.nonce := tx] else At(pool.future, a))
  {
    AdmittedAt(pool, tx, admission, a);
  }

  // ---------------------------------------------------------------- checking a transaction

  /** The sender's existence comes first, then its money, then its nonce. */
  lemma CheckMeans(accounts: Accounts, from: Address, value: int, nonce: nat)
    ensures var c := CheckSender(accounts, from, value, nonce);
            && (c == NoSender <==> from !in accounts)
            && (c == InsufficientFunds <==> from in accounts && Read(accounts, from).balance < value)
            && (c == Check.NonceTooLow <==>
                  from in accounts && value <= Read(accounts, from).balance && nonce < Read(accounts, from).nonce)
            && (c == Passed <==>
                  from in accounts && value <= Read(accounts, from).balance && Read(accounts, from).nonce <= nonce)
  {
  }

  /** The fields come first, then the signature, then the account. */
  lemma JudgeMeans(env: Env, accounts: Accounts, raw: RawTransaction)
    ensures var v := Judge(env, accounts, raw);
            && (v == FieldsInvalid <==> !FieldsValid(raw))
            && (v == SignatureInvalid <==> FieldsValid(raw) && !SignatureValid(env, raw))
            && (v.StateInvalid? ==> v.check == CheckSender(accounts, raw.from, raw.value, raw.nonce))
            && (v == Valid <==>
                  FieldsValid(raw) && SignatureValid(env, raw)
                  && CheckSender(accounts, raw.from, raw.value, raw.nonce) == Passed)
  {
  }

  /** A submission that passes the checks opens the receiver's account and is offered to the
      mempool; one that does not changes nothing. Balances, nonces and the chain stay in any case. */
  lemma SubmittedMeans(env: Env, s: State, raw: RawTransaction)
    ensures var next, passes := Submitted(env, s, raw), Judge(env, s.accounts, raw) == Valid;
            && next.blocks == s.blocks && next.last == s.last && SameState(s.accounts, next.accounts)
            && (!passes ==> next == s)
            && (passes ==>
                  && next.accounts.Keys == s.accounts.Keys + {raw.to}
                  && next.pool == Admitted(s.pool, Create(env, raw),
                                           Classify(At(s.pool.pending, raw.from), At(s.pool.future, raw.from), raw.nonce,
                                                    Read(s.accounts, raw.from).nonce)))
  {
  }

  // ---------------------------------------------------------------- a received block

  ghost function Receivers(txs: seq<Transaction>): set<Address> {
    set tx | tx in txs :: tx.to
  }

  /** The first n transactions are sendable on the ledger, and the next one, if there is one, is not. */
  ghost predicate SendableUpTo(env: Env, accounts: Accounts, txs: seq<Transaction>, n: nat) {
    && n <= |txs|
    && (forall i :: 0 <= i < n ==> Sendable(env, accounts, txs[i]))
    && (n < |txs| ==> !Sendable(env, accounts, txs[n]))
  }

  lemma SendableStep(env: Env, accounts: Accounts, txs: seq<Transaction>, m: nat, n: nat)
    requires n == m + 1 && n <= |txs| && Sendable(env, accounts, txs[0])
    requires SendableUpTo(env, WithAccount(accounts, txs[0].to), txs[1..], m)
    ensures SendableUpTo(env, accounts, txs, n)
  {
    SendableWithAccount(env, accounts, txs[0].to, txs);
    forall i | 0 <= i < n
      ensures Sendable(env, accounts, txs[i])
    {
      if i > 0 {
        assert Sendable(env, WithAccount(accounts, txs[0].to), txs[1..][i - 1]);
      }
    }
    if n < |txs| {
      assert txs[1..][m] == txs[n];
    }
  }

  /** Validation goes through the transactions up to the first that is not sendable on the ledger
      before the block, opens exactly the accounts of the receivers before that one, and passes if
      there is none. */
  lemma {:induction false} CheckAllMeans(env: Env, accounts: Accounts, txs: seq<Transaction>) returns (n: nat)
    ensures SendableUpTo(env, accounts, txs, n)
    ensures CheckAll(env, accounts, txs).ok <==> n == |txs|
    ensures CheckAll(env, accounts, txs).accounts.Keys == accounts.Keys + Receivers(txs[..n])
    decreases txs
  {
    n := 0;
    if txs != [] {
      JudgeIff(env, accounts, txs[0]);
      if Judge(env, accounts, RawOf(txs[0])) == Valid {
        var m := CheckAllMeans(env, WithAccount(accounts, txs[0].to), txs[1..]);
        n := m + 1;
        SendableStep(env, accounts, txs, m, n);
        ReceiversStep(txs, m, n);
      }
    }
  }

  lemma SendableWithAccount(env: Env, accounts: Accounts, a: Address, txs: seq<Transaction>)
    ensures forall tx :: Sendable(env, WithAccount(accounts, a), tx) <==> Sendable(env, accounts, tx)
  {
    forall tx: Transaction
      ensures Read(WithAccount(accounts, a), tx.from) == Read(accounts, tx.from)
    {
    }
  }

  lemma ReceiversStep(txs: seq<Transaction>, m: nat, n: nat)
    requires n == m + 1 && n <= |txs|
    ensures Receivers(txs[..n]) == {txs[0].to} + Receivers(txs[1..][..m])
  {
    assert txs[..n] == [txs[0]] + txs[1..][..m];
  }

  /** A block is accepted if and only if it is later than the last one and names its hash, carries the
      hash of its own header and the root of its transactions, and each transaction is sendable on
      the ledger before it. Nothing else is asked, of number, miner or length. Without a last block
      its time is 0 and its hash is empty. */
  lemma AcceptsIff(env: Env, s: State, block: Block)
    ensures Accepts(env, s, block) <==>
            && block.timestamp > (if s.last.Some? then s.last.value.timestamp else 0)
            && block.parentHash == (if s.last.Some? then s.last.value.hash else "")
            && block.hash == EncodeHex(env.keccak(Utf8(
                 Decimal(block.number) + block.parentHash + block.merkleRoot + block.miner + Decimal(block.timestamp))))
            && Merkle.RootOf(env.keccak, HashTexts(block.transactions)) == Some(block.merkleRoot)
            && forall tx :: tx in block.transactions ==> Sendable(env, s.accounts, tx)
  {
    CheckAllIff(env, s.accounts, block.transactions);
  }

  /** An accepted block is accepted with any other number and miner, under the hash that goes with
      them. */
  lemma NumberAndMinerAreFree(env: Env, s: State, block: Block, number: nat, miner: Address)
    requires Accepts(env, s, block)
    ensures var other := block.(number := number, miner := miner);
            Accepts(env, s, other.(hash := HashOf(env.keccak, FieldsOf(other))))
  {
    AcceptsIff(env, s, block);
    var other := block.(number := number, miner := miner);
    AcceptsIff(env, s, other.(hash := HashOf(env.keccak, FieldsOf(other))));
  }

  /** A refused block changes neither chain nor mempool nor what anybody owns. */
  lemma RefusedMeans(env: Env, s: State, block: Block)
    requires !Accepts(env, s, block)
    ensures var next := Received(env, s, block);
            && next.blocks == s.blocks && next.last == s.last && next.pool == s.pool
            && SameState(s.accounts, next.accounts)
            && (BlockFits(env, s.last, block) ==> next.accounts == CheckAll(env, s.accounts, block.transactions).accounts)
            && (!BlockFits(env, s.last, block) ==> next == s)
  {
    ValidateEffect(env, s.accounts, s.last, block);
  }

  /** A transaction of the block with this sender and nonce. */
  ghost predicate Uses(txs: seq<Transaction>, a: Address, n: nat) {
    exists tx :: tx in txs && tx.from == a && tx.nonce == n
  }

  /** Cleaning removes exactly what the block uses, and exactly those accounts of the block's senders
      that are left with nothing. */
  lemma CleanedMeans(shelf: Shelf, txs: seq<Transaction>, a: Address)
    ensures var left := CleanedShelf(shelf, txs);
            && (forall n :: n in At(left, a) <==> n in At(shelf, a) && !Uses(txs, a, n))
            && (forall n :: n in At(left, a) ==> At(left, a)[n] == At(shelf, a)[n])
            && (a in left <==> a in shelf && (At(left, a) != map[] || forall tx :: tx in txs ==> tx.from != a))
  {
    CleanedAt(shelf, txs, a);
    forall n: nat
      ensures n in UsedNonces(txs, a) <==> Uses(txs, a, n)
    {
    }
  }

  /** An accepted block is stored and last, and exactly its transactions leave the mempool, from both
      queues. */
  lemma AcceptedMeans(env: Env, s: State, block: Block, a: Address)
    requires Accepts(env, s, block)
    ensures var next := Received(env, s, block);
            && next.blocks == s.blocks[block.hash := block] && next.last == Some(block)
            && (forall n :: n in At(next.pool.pending, a) <==> n in At(s.pool.pending, a) && !Uses(block.transactions, a, n))
            && (forall n :: n in At(next.pool.future, a) <==> n in At(s.pool.future, a) && !Uses(block.transactions, a, n))
  {
    CleanedMeans(s.pool.pending, block.transactions, a);
    CleanedMeans(s.pool.future, block.transactions, a);
  }

  // ---------------------------------------------------------------- a made block

  /** The texts of the Merkle tree are the transactions' hashes without 0x, in the block's order. */
  lemma HashTextsMean(txs: seq<Transaction>)
    ensures |HashTexts(txs)| == |txs|
    ensures forall i :: 0 <= i < |txs| ==>
              HashTexts(txs)[i] == if "0x" <= txs[i].hash then txs[i].hash[2..] else txs[i].hash
  {
    forall i | 0 <= i < |txs|
      ensures TrimPrefix(txs[i].hash) == if "0x" <= txs[i].hash then txs[i].hash[2..] else txs[i].hash
    {
    }
  }

  /** A block is made if and only if there is a last one and at least one transaction, and every
      transaction hash is 64 hexadecimal digits, with or without 0x. */
  lemma NewBlockIff(env: Env, last: Option<Block>, miner: Address, now: nat, txs: seq<Transaction>)
    ensures NewBlock(env, last, miner, now, txs).Some? <==>
            && last.Some? && txs != []
            && forall i :: 0 <= i < |txs| ==> |TrimPrefix(txs[i].hash)| == 64 && IsHex(TrimPrefix(txs[i].hash))
  {
    Merkle.RootExistsIff(env.keccak, HashTexts(txs));
    assert txs == [] <==> HashTexts(txs) == [];
    assert forall i :: 0 <= i < |txs| ==> HashTexts(txs)[i] == TrimPrefix(txs[i].hash);
  }

  lemma NewBlockMeans(env: Env, last: Option<Block>, miner: Address, now: nat, txs: seq<Transaction>)
    requires NewBlock(env, last, miner, now, txs).Some?
    ensures var block := NewBlock(env, last, miner, now, txs).value;
            && block.number == last.value.number + 1 && block.parentHash == last.value.hash
            && block.timestamp == now && block.miner == miner && block.transactions == txs
            && Merkle.RootOf(env.keccak, HashTexts(txs)) == Some(block.merkleRoot)
            && block.hash == EncodeHex(env.keccak(Utf8(
                 Decimal(block.number) + block.parentHash + block.merkleRoot + block.miner + Decimal(block.timestamp))))
  {
  }

  /** Five pending transactions after promotion are enough, fewer are not. */
  lemma EnoughMeans(pool: Pool)
    ensures EnoughPending(pool) <==> 5 <= TotalPending(Synced(pool).pending)
  {
  }

  /** A tick promotes; where five are then pending it makes a block of five, otherwise it does no
      more. */
  lemma TickMeans(env: Env, miner: Address, s: State, now: nat, made: Option<Block>, next: State)
    requires PoolOk(env, s.accounts, s.pool) && s.last.Some? && Ticks(env, miner, s, now, made, next)
    ensures made.Some? <==> 5 <= TotalPending(Synced(s.pool).pending)
    ensures made.None? ==> next == s.(pool := Synced(s.pool))
    ensures made.Some? ==> |made.value.transactions| == 5 && next.pool.future == Synced(s.pool).future
  {
    EnoughMeans(s.pool);
    TickShape(env, miner, s, now, made, next);
  }

  // ---------------------------------------------------------------- the start

  /** A new node has stored the first block and knows two accounts: the first block's miner with
      10000, and its own with nothing if that is another one. */
  lemma FirstMeans(env: Env, miner: Address)
    ensures var s, g := FirstState(env, miner), "0xde589C867174C349d00e9b582867aF5c13A74679";
            var first := Block(1, EncodeHex(env.keccak(Utf8("10x00x0" + g + "0"))), "0x0", 0, "0x0", [], g);
            && s.last == Some(first) && s.blocks == map[first.hash := first] && s.pool == EMPTY_POOL
            && s.accounts.Keys == {miner, g}
            && forall a :: Read(s.accounts, a) == if a == g then Account(10000, 0) else Account(0, 0)
  {
    GenesisPrinted();
  }

  /** A node that has blocks starts again with everything but its mempool. */
  lemma RestartMeans(env: Env, miner: Address, s: State, next: State)
    requires s.last.Some? && Next(env, miner, s, Restart, next)
    ensures next == s.(pool := EMPTY_POOL)
  {
  }
}
