/** What the hash of an accepted block binds, from the header down to the transactions, and what
    it does not. */
module Binding {
  import opened Text
  import opened Types
  import opened Header
  import opened Blocks
  import opened Nodes
  import opened Runs
  import opened Replicas
  import opened History
  import Merkle

  lemma LastHash(env: Env, miner: Address, run: Run)
    requires IsRun(env, miner, run)
    ensures var last := Current(env, miner, run).last; last.Some? && IsHash(last.value.hash)
  {
    var chain := ChainOf(env, miner, run);
    ChainAlwaysConnected(env, miner, run);
    ChainHashes(env, chain, |chain| - 1);
  }

  lemma AcceptedHeader(env: Env, miner: Address, run: Run, block: Block)
    requires IsRun(env, miner, run) && Accepts(env, Current(env, miner, run), block)
    requires IsValidAddress(block.miner)
    ensures WellFormed(FieldsOf(block)) && OwnHash(env, block)
    ensures MerkleRootOf(env, block.transactions) == Some(block.merkleRoot)
  {
    LastHash(env, miner, run);
  }

  /** Two blocks with one hash, accepted by any nodes at any time, whose miners are addresses and
      which hold equally many transactions, have equal headers and the same decoded transaction
      hashes - or their two header texts collide under Keccak, or two different 64-byte inputs
      hashed on the way to their Merkle roots do. */
  lemma BlockHashBinds(env: Env, miner: Address, run: Run, block: Block, miner': Address, run': Run, block': Block)
    requires IsRun(env, miner, run) && Accepts(env, Current(env, miner, run), block)
    requires IsRun(env, miner', run') && Accepts(env, Current(env, miner', run'), block')
    requires IsValidAddress(block.miner) && IsValidAddress(block'.miner)
    requires block.hash == block'.hash && |block.transactions| == |block'.transactions|
    ensures block.transactions != []
    ensures var texts, texts' := HashTexts(block.transactions), HashTexts(block'.transactions);
            && Merkle.AreHashTexts(texts) && Merkle.AreHashTexts(texts')
            && (|| HeaderCollision(env.keccak, FieldsOf(block), FieldsOf(block'))
                || Merkle.HashCollision(env.keccak, Merkle.DecodeHashes(texts), Merkle.DecodeHashes(texts'))
                || (FieldsOf(block) == FieldsOf(block') && Merkle.DecodeHashes(texts) == Merkle.DecodeHashes(texts')))
  {
    AcceptedHeader(env, miner, run, block);
    AcceptedHeader(env, miner', run', block');
    HashBindsHeader(env.keccak, FieldsOf(block), FieldsOf(block'));
    if FieldsOf(block) == FieldsOf(block') {
      Merkle.RootTextBinding(env.keccak, HashTexts(block.transactions), HashTexts(block'.transactions));
    }
  }

  /** Not bound are the transactions themselves: a receiver reads the hash a transaction carries and
      does not compute it, so any transactions that carry the same hashes fit the same header. */
  lemma ContentIsNotBound(env: Env, last: Option<Block>, block: Block, others: seq<Transaction>)
    requires HashTexts(others) == HashTexts(block.transactions)
    ensures BlockFits(env, last, block.(transactions := others)) <==> BlockFits(env, last, block)
  {
  }

  /** So a block hash that a node accepts is accepted with any other transactions that carry the same
      hashes, if each of them is one the ledger before the block allows. */
  lemma AcceptedContentIff(env: Env, t: State, block: Block, others: seq<Transaction>)
    requires Accepts(env, t, block) && HashTexts(others) == HashTexts(block.transactions)
    ensures Accepts(env, t, block.(transactions := others)) <==>
            forall tx :: tx in others ==> Sendable(env, t.accounts, tx)
  {
    ValidateEffect(env, t.accounts, t.last, block);
    ContentIsNotBound(env, t.last, block, others);
    CheckAllIff(env, t.accounts, others);
  }
}
