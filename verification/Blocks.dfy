/** Transactions and blocks as values: how they are checked, created and stored
    (blockchain/transaction.go, blockchain/block.go). */
module Blocks {
  import opened Text
  import opened Types
  import opened Ledger
  import opened Header
  import Merkle

  // ---------------------------------------------------------------- one transaction

  const MAX_INT64: int := 0x7FFF_FFFF_FFFF_FFFF

  /** Nothing empty, a value that is positive and fits the parser's integer, two addresses. */
  predicate FieldsValid(raw: RawTransaction) {
    && raw.from != "" && raw.to != "" && raw.signature != ""
    && 0 < raw.value <= MAX_INT64
    && IsValidAddress(raw.from) && IsValidAddress(raw.to)
  }

  function ShowInt(n: int): string {
    if n < 0 then "-" + Decimal(-n) else Decimal(n)
  }

  /** The text that is signed. */
  function Message(raw: RawTransaction): string {
    raw.from + raw.to + ShowInt(raw.value) + Decimal(raw.nonce)
  }

  predicate SignatureValid(env: Env, raw: RawTransaction) {
    var signature := DecodeHex(raw.signature);
    signature.Some? && env.recovers(env.keccak(Utf8(Message(raw))), signature.value, raw.from)
  }

  function RawOf(tx: Transaction): RawTransaction {
    RawTransaction(tx.from, tx.to, tx.value, tx.nonce, tx.signature)
  }

  function Create(env: Env, raw: RawTransaction): Transaction {
    Transaction("0x" + EncodeHex(env.keccak(env.encode(raw))), raw.from, raw.to, raw.value, raw.nonce, raw.signature)
  }

  datatype Verdict = FieldsInvalid | SignatureInvalid | StateInvalid(check: Check) | Valid

  /** All checks on a transaction, in the order of the source; the last one looks at the accounts. */
  function Judge(env: Env, accounts: Accounts, raw: RawTransaction): Verdict {
    if !FieldsValid(raw) then FieldsInvalid
    else if !SignatureValid(env, raw) then SignatureInvalid
    else
      var check := CheckSender(accounts, raw.from, raw.value, raw.nonce);
      if check == Passed then Valid else StateInvalid(check)
  }

  /** A transaction that passes leaves an account for its receiver. */
  function AccountsAfter(accounts: Accounts, raw: RawTransaction, verdict: Verdict): Accounts {
    if verdict == Valid then WithAccount(accounts, raw.to) else accounts
  }

  // ---------------------------------------------------------------- a block

  function TrimPrefix(hash: string): string {
    if |hash| >= 2 && hash[..2] == "0x" then hash[2..] else hash
  }

  function HashTexts(txs: seq<Transaction>): (texts: seq<string>)
    ensures |texts| == |txs|
  {
    seq(|txs|, i requires 0 <= i < |txs| => TrimPrefix(txs[i].hash))
  }

  function MerkleRootOf(env: Env, txs: seq<Transaction>): Option<string> {
    Merkle.RootOf(env.keccak, HashTexts(txs))
  }

  const NO_BLOCK := Block(0, "", "", 0, "", [], "")

  /** What the code goes on with when there is no last block: a record of zero values. */
  function LastOrZero(last: Option<Block>): Block {
    if last.Some? then last.value else NO_BLOCK
  }

  predicate Follows(last: Option<Block>, block: Block) {
    block.timestamp > LastOrZero(last).timestamp && LastOrZero(last).hash == block.parentHash
  }

  /** Everything about a received block but its transactions: the link to the last block, its own
      hash, and its Merkle root. The number is not looked at. */
  predicate BlockFits(env: Env, last: Option<Block>, block: Block) {
    && Follows(last, block)
    && block.hash == HashOf(env.keccak, FieldsOf(block))
    && MerkleRootOf(env, block.transactions) == Some(block.merkleRoot)
  }

  datatype Checked = Checked(accounts: Accounts, ok: bool)

  /** The transactions of a block are checked one by one, against the accounts as they are before
      any is executed; receivers' accounts are created on the way and stay when a later one fails. */
  function CheckAll(env: Env, accounts: Accounts, txs: seq<Transaction>): Checked
    decreases txs
  {
    if txs == [] then Checked(accounts, true)
    else
      var verdict := Judge(env, accounts, RawOf(txs[0]));
      if verdict != Valid then Checked(accounts, false)
      else CheckAll(env, AccountsAfter(accounts, RawOf(txs[0]), verdict), txs[1..])
  }

  function Validate(env: Env, accounts: Accounts, last: Option<Block>, block: Block): Checked {
    if !BlockFits(env, last, block) then Checked(accounts, false)
    else CheckAll(env, accounts, block.transactions)
  }

  /** A block on top of the last one, unless there is none or a transaction hash is no hash. */
  function NewBlock(env: Env, last: Option<Block>, miner: Address, now: nat, txs: seq<Transaction>): Option<Block> {
    var root := MerkleRootOf(env, txs);
    if last.None? || root.None? then None
    else
      var fields := Fields(last.value.number + 1, last.value.hash, root.value, miner, now);
      Some(Block(fields.number, HashOf(env.keccak, fields), fields.parentHash, now, root.value, txs, miner))
  }

  function Genesis(env: Env): Block {
    Block(1, HashOf(env.keccak, GENESIS_FIELDS), "0x0", 0, "0x0", [], GENESIS_MINER)
  }

  const INITIAL_BALANCE: nat := 10000

  // ---------------------------------------------------------------- the code

  method ValidateTransactionFields(from: Address, to: Address, value: int, signature: string, nonce: nat)
    returns (ok: bool)
    ensures ok <==> FieldsValid(RawTransaction(from, to, value, nonce, signature))
  {
    if from == "" || to == "" || signature == "" {
      return false;
    }
    if value > MAX_INT64 || value <= 0 {
      return false;
    }
    if !IsValidAddress(from) {
      return false;
    }
    if !IsValidAddress(to) {
      return false;
    }
    return true;
  }

  /** The loop that strips the prefixes off the transaction hashes. */
  method CollectHashes(txs: seq<Transaction>) returns (transactionHashes: seq<string>)
    ensures transactionHashes == HashTexts(txs)
  {
    transactionHashes := [];
    for i := 0 to |txs|
      invariant |transactionHashes| == i
      invariant forall k :: 0 <= k < i ==> transactionHashes[k] == TrimPrefix(txs[k].hash)
    {
      transactionHashes := transactionHashes + [TrimPrefix(txs[i].hash)];
    }
  }

  class BlockStore {
    var blocks: map<string, Block>
    var lastBlock: Option<Block>

    constructor ()
      ensures blocks == map[] && lastBlock == None
    {
      blocks, lastBlock := map[], None;
    }

    method ValidateBlockWithPrevBlock(newBlock: Block) returns (ok: bool)
      ensures ok <==> Follows(lastBlock, newBlock)
    {
      var last := if lastBlock.Some? then lastBlock.value else NO_BLOCK;
      if newBlock.timestamp <= last.timestamp {
        return false;
      }
      return last.hash == newBlock.parentHash;
    }

    /** Both entries are written in one batch. */
    method StoreBlock(block: Block)
      modifies this
      ensures blocks == old(blocks)[block.hash := block] && lastBlock == Some(block)
    {
      blocks, lastBlock := blocks[block.hash := block], Some(block);
    }

    method CreateNewBlock(env: Env, transactions: seq<Transaction>, miner: Address, now: nat)
      returns (block: Option<Block>)
      ensures block == NewBlock(env, lastBlock, miner, now, transactions)
    {
      if lastBlock.None? {
        return None;
      }
      var last := lastBlock.value;
      var transactionHashes := CollectHashes(transactions);
      for i := 0 to |transactionHashes|
        invariant forall k :: 0 <= k < i ==> |transactionHashes[k]| == 64
      {
        if |transactionHashes[i]| != 64 {
          assert !Merkle.IsHashText(transactionHashes[i]);
          return None;
        }
      }
      var merkleRoot, _ := Merkle.BuildMerkleTree(env.keccak, transactionHashes);
      if merkleRoot.None? {
        return None;
      }
      var fields := Fields(last.number + 1, last.hash, merkleRoot.value, miner, now);
      var hash := EncodeHex(env.keccak(Utf8(Print(fields))));
      return Some(Block(last.number + 1, hash, last.hash, now, merkleRoot.value, transactions, miner));
    }
  }
}
