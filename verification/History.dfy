/** The chain over whole runs: every block names the one before, following parent hashes from the
    last block leads back to the first, no block is applied twice, and timestamps rise exactly when
    the creator's clock is ahead. */
module History {
  import opened Text
  import opened Types
  import opened Header
  import opened Blocks
  import opened Nodes
  import opened Runs

  // ---------------------------------------------------------------- the chain

  ghost predicate OwnHash(env: Env, block: Block) {
    block.hash == HashOf(env.keccak, FieldsOf(block))
  }

  /** A block points to the one before and carries the hash of its own header. */
  ghost predicate Joins(env: Env, previous: Block, block: Block) {
    block.parentHash == previous.hash && OwnHash(env, block) && IsHash(block.merkleRoot)
  }

  /** The chain starts with the first block and every other block joins the one before it. */
  ghost predicate Connected(env: Env, chain: seq<Block>) {
    && |chain| > 0 && chain[0] == Genesis(env)
    && forall i :: 0 < i < |chain| ==> Joins(env, chain[i - 1], chain[i])
  }

  ghost predicate Rising(chain: seq<Block>) {
    forall i :: 0 < i < |chain| ==> chain[i - 1].timestamp < chain[i].timestamp
  }

  /** What storing the blocks of a chain one after the other leaves in the store. */
  function Stored(chain: seq<Block>): map<string, Block> {
    if chain == [] then map[]
    else
      var last := chain[|chain| - 1];
      Stored(chain[..|chain| - 1])[last.hash := last]
  }

  /** The block store holds the chain and its end is the last block. */
  ghost predicate Holds(s: State, chain: seq<Block>) {
    |chain| > 0 && s.last == Some(chain[|chain| - 1]) && s.blocks == Stored(chain)
  }

  lemma {:induction false} StoredFrom(chain: seq<Block>, h: string) returns (i: nat)
    requires h in Stored(chain)
    ensures i < |chain| && chain[i] == Stored(chain)[h] && chain[i].hash == h
  {
    i := |chain| - 1;
    if chain[i].hash != h {
      i := StoredFrom(chain[..i], h);
    }
  }

  lemma {:induction false} StoredAll(chain: seq<Block>, i: nat)
    requires i < |chain|
    ensures chain[i].hash in Stored(chain)
  {
    if i < |chain| - 1 {
      StoredAll(chain[..|chain| - 1], i);
    }
  }

  lemma StoredSnoc(chain: seq<Block>, block: Block)
    ensures Stored(chain + [block]) == Stored(chain)[block.hash := block]
  {
    assert (chain + [block])[..|chain|] == chain;
  }

  // ---------------------------------------------------------------- one event

  lemma NewBlockJoins(env: Env, last: Option<Block>, miner: Address, now: nat, txs: seq<Transaction>)
    requires NewBlock(env, last, miner, now, txs).Some?
    ensures var block := NewBlock(env, last, miner, now, txs).value;
            Joins(env, last.value, block) && block.timestamp == now && block.miner == miner
  {
  }

  lemma TickJoins(env: Env, miner: Address, s: State, now: nat, made: Option<Block>, next: State)
    requires PoolOk(env, s.accounts, s.pool) && s.last.Some? && Ticks(env, miner, s, now, made, next)
    ensures made.None? ==> next.blocks == s.blocks && next.last == s.last
    ensures made.Some? ==> next.blocks == s.blocks[made.value.hash := made.value] && next.last == made
                           && Joins(env, s.last.value, made.value) && made.value.timestamp == now
  {
    TickShape(env, miner, s, now, made, next);
    if made.Some? {
      NewBlockJoins(env, s.last, miner, now, made.value.transactions);
    }
  }

  lemma ReceiveJoins(env: Env, s: State, block: Block)
    requires s.last.Some? && Accepts(env, s, block)
    ensures Joins(env, s.last.value, block) && block.timestamp > s.last.value.timestamp
  {
  }

  /** The clock of the block creator is past the last block if it makes one. */
  ghost predicate ClockFits(s: State, event: Event) {
    event.Tick? && event.made.Some? ==> event.now > LastOrZero(s.last).timestamp
  }

  /** What an event adds to the chain: a block that joins the last one, or nothing. The block is
      later than the last one exactly if the creator's clock is ahead. */
  lemma AddedJoins(env: Env, miner: Address, s: State, event: Event, next: State)
    requires PoolOk(env, s.accounts, s.pool) && s.last.Some? && Next(env, miner, s, event, next)
    ensures var added := AddedBy(env, s, event);
            if added.None? then next.blocks == s.blocks && next.last == s.last && ClockFits(s, event)
            else
              var block := added.value;
              && next.blocks == s.blocks[block.hash := block] && next.last == Some(block)
              && Joins(env, s.last.value, block)
              && (s.last.value.timestamp < block.timestamp <==> ClockFits(s, event))
  {
    match event {
      case Submit(raw) =>
      case Tick(now, made) =>
        TickJoins(env, miner, s, now, made, next);
      case Receive(block) =>
        if Accepts(env, s, block) {
          ReceiveJoins(env, s, block);
        }
      case Restart =>
    }
  }

  lemma ConnectedSnoc(env: Env, chain: seq<Block>, block: Block)
    requires Connected(env, chain) && Joins(env, chain[|chain| - 1], block)
    ensures Connected(env, chain + [block])
  {
    var more := chain + [block];
    forall i | 0 < i < |more|
      ensures Joins(env, more[i - 1], more[i])
    {
      if i < |chain| {
        assert Joins(env, chain[i - 1], chain[i]);
      }
    }
  }

  lemma RisingSnoc(chain: seq<Block>, block: Block)
    requires |chain| > 0
    ensures Rising(chain + [block]) <==> Rising(chain) && chain[|chain| - 1].timestamp < block.timestamp
  {
    var more := chain + [block];
    if Rising(more) {
      assert more[|chain| - 1].timestamp < more[|chain|].timestamp;
      forall i | 0 < i < |chain|
        ensures chain[i - 1].timestamp < chain[i].timestamp
      {
        assert more[i - 1].timestamp < more[i].timestamp;
      }
    }
  }

  ghost predicate ChainOk(env: Env, s: State, chain: seq<Block>) {
    Connected(env, chain) && Holds(s, chain)
  }

  lemma ChainGrows(env: Env, s: State, next: State, chain: seq<Block>, block: Block)
    requires ChainOk(env, s, chain) && Joins(env, s.last.value, block)
    requires next.blocks == s.blocks[block.hash := block] && next.last == Some(block)
    ensures ChainOk(env, next, chain + [block])
  {
    ConnectedSnoc(env, chain, block);
    StoredSnoc(chain, block);
  }

  lemma ChainStep(env: Env, miner: Address, s: State, event: Event, next: State, chain: seq<Block>, more: seq<Block>)
    requires PoolOk(env, s.accounts, s.pool) && Next(env, miner, s, event, next) && ChainOk(env, s, chain)
    requires var added := AddedBy(env, s, event); more == chain + if added.Some? then [added.value] else []
    ensures ChainOk(env, next, more)
    ensures Rising(more) <==> Rising(chain) && ClockFits(s, event)
  {
    AddedJoins(env, miner, s, event, next);
    var added := AddedBy(env, s, event);
    if added.Some? {
      ChainGrows(env, s, next, chain, added.value);
      RisingSnoc(chain, added.value);
    } else {
      assert more == chain;
    }
  }

  // ---------------------------------------------------------------- whole runs

  /** The clock of the block creator is past the last block whenever it makes one. */
  ghost predicate ClockAhead(env: Env, miner: Address, run: Run) {
    match run
    case Begin => true
    case Then(before, event, _) =>
      ClockAhead(env, miner, before) && ClockFits(Current(env, miner, before), event)
  }

  /** In every reachable state the chain is connected and the block store holds it; its timestamps
      rise if and only if the creator's clock was always past the last block. */
  lemma {:induction false} ChainAlwaysConnected(env: Env, miner: Address, run: Run)
    requires IsRun(env, miner, run)
    ensures ChainOk(env, Current(env, miner, run), ChainOf(env, miner, run))
    ensures Rising(ChainOf(env, miner, run)) <==> ClockAhead(env, miner, run)
  {
    match run {
      case Begin =>
      case Then(before, event, state) =>
        ChainAlwaysConnected(env, miner, before);
        PoolAlwaysOk(env, miner, before);
        ChainStep(env, miner, Current(env, miner, before), event, state,
                  ChainOf(env, miner, before), ChainOf(env, miner, run));
    }
  }

  lemma {:induction false} TimestampsRise(chain: seq<Block>, i: nat, j: nat)
    requires Rising(chain) && i < j < |chain|
    ensures chain[i].timestamp < chain[j].timestamp
    decreases j
  {
    assert chain[j - 1].timestamp < chain[j].timestamp;
    if i < j - 1 {
      TimestampsRise(chain, i, j - 1);
    }
  }

  // ---------------------------------------------------------------- no block twice

  /** Two blocks of the chain with the same hash. */
  ghost predicate HashRepeats(chain: seq<Block>) {
    exists i, j :: 0 <= i < j < |chain| && chain[i].hash == chain[j].hash
  }

  lemma UnfitIsRefused(env: Env, s: State, block: Block)
    requires s.last.Some?
    requires block.timestamp <= s.last.value.timestamp || block.parentHash != s.last.value.hash
    ensures !Accepts(env, s, block) && Received(env, s, block) == s
  {
  }

  lemma ChainHashes(env: Env, chain: seq<Block>, i: nat)
    requires Connected(env, chain) && i < |chain|
    ensures OwnHash(env, chain[i]) && IsHash(chain[i].hash)
  {
    if i > 0 {
      assert Joins(env, chain[i - 1], chain[i]);
    }
  }

  /** A block of a connected chain with different hashes does not join its end. */
  lemma OldParentIsPassed(env: Env, chain: seq<Block>, k: nat)
    requires Connected(env, chain) && k < |chain| && chain[k].parentHash == chain[|chain| - 1].hash
    ensures HashRepeats(chain)
  {
    if k == 0 {
      ChainHashes(env, chain, |chain| - 1);
    } else {
      assert Joins(env, chain[k - 1], chain[k]);
      assert chain[k - 1].hash == chain[|chain| - 1].hash;
    }
  }

  lemma LastIsLatest(chain: seq<Block>, k: nat)
    requires Rising(chain) && k < |chain|
    ensures chain[k].timestamp <= chain[|chain| - 1].timestamp
  {
    if k < |chain| - 1 {
      TimestampsRise(chain, k, |chain| - 1);
    }
  }

  lemma OldIsRefused(env: Env, s: State, chain: seq<Block>, k: nat)
    requires ChainOk(env, s, chain) && k < |chain|
    requires !HashRepeats(chain) || Rising(chain)
    ensures !Accepts(env, s, chain[k]) && Received(env, s, chain[k]) == s
  {
    if Rising(chain) {
      LastIsLatest(chain, k);
    } else if chain[k].parentHash == chain[|chain| - 1].hash {
      OldParentIsPassed(env, chain, k);
    }
    UnfitIsRefused(env, s, chain[k]);
  }

  /** A block that was added before is refused when it is delivered again, at any later time and
      whatever the clocks, and leaves the node exactly as it is - unless two blocks of the chain
      have one hash and some block was made by a clock that was not ahead. */
  lemma NoBlockTwice(env: Env, miner: Address, run: Run, k: nat)
    requires IsRun(env, miner, run) && k < |ChainOf(env, miner, run)|
    ensures var s, chain := Current(env, miner, run), ChainOf(env, miner, run);
            || (!Accepts(env, s, chain[k]) && Received(env, s, chain[k]) == s)
            || (HashRepeats(chain) && !ClockAhead(env, miner, run))
  {
    ChainAlwaysConnected(env, miner, run);
    if !HashRepeats(ChainOf(env, miner, run)) || ClockAhead(env, miner, run) {
      OldIsRefused(env, Current(env, miner, run), ChainOf(env, miner, run), k);
    }
  }

  /** In particular a block that has just been accepted and is handed to the node again. */
  lemma SelfRedelivery(env: Env, s: State, block: Block)
    requires Accepts(env, s, block)
    ensures var next := Received(env, s, block); !Accepts(env, next, block) && Received(env, next, block) == next
  {
  }

  // ---------------------------------------------------------------- walking back

  /** The blocks met when parent hashes are looked up in the store, at most n of them. */
  function Walk(blocks: map<string, Block>, from: Block, n: nat): seq<Block>
    decreases n
  {
    if n == 0 || from.parentHash !in blocks then [from]
    else [from] + Walk(blocks, blocks[from.parentHash], n - 1)
  }

  /** The store gives back exactly the block of the chain that has a hash. */
  lemma LookUp(chain: seq<Block>, i: nat)
    requires i < |chain| && !HashRepeats(chain)
    ensures chain[i].hash in Stored(chain) && Stored(chain)[chain[i].hash] == chain[i]
  {
    StoredAll(chain, i);
    var j := StoredFrom(chain, chain[i].hash);
    assert i == j by {
      assert chain[i].hash == chain[j].hash;
    }
  }

  lemma GenesisHasNoParent(env: Env, chain: seq<Block>)
    requires Connected(env, chain)
    ensures Genesis(env).parentHash !in Stored(chain)
  {
    if Genesis(env).parentHash in Stored(chain) {
      var i := StoredFrom(chain, Genesis(env).parentHash);
      ChainHashes(env, chain, i);
    }
  }

  /** Every parent hash leads to the block before, and the first one to nothing. */
  ghost predicate Retrievable(blocks: map<string, Block>, chain: seq<Block>) {
    && |chain| > 0 && chain[0].parentHash !in blocks
    && forall i :: 0 < i < |chain| ==> chain[i].parentHash in blocks && blocks[chain[i].parentHash] == chain[i - 1]
  }

  lemma ChainIsRetrievable(env: Env, chain: seq<Block>)
    requires Connected(env, chain) && !HashRepeats(chain)
    ensures Retrievable(Stored(chain), chain)
  {
    GenesisHasNoParent(env, chain);
    forall i | 0 < i < |chain|
      ensures chain[i].parentHash in Stored(chain) && Stored(chain)[chain[i].parentHash] == chain[i - 1]
    {
      assert Joins(env, chain[i - 1], chain[i]);
      LookUp(chain, i - 1);
    }
  }

  function Reverse(chain: seq<Block>): (back: seq<Block>)
    ensures |back| == |chain|
    ensures forall i :: 0 <= i < |chain| ==> back[i] == chain[|chain| - 1 - i]
  {
    if chain == [] then [] else Reverse(chain[1..]) + [chain[0]]
  }

  lemma {:induction false} WalkBack(blocks: map<string, Block>, chain: seq<Block>, i: nat, n: nat)
    requires Retrievable(blocks, chain) && i < |chain| && n >= i
    ensures Walk(blocks, chain[i], n) == Reverse(chain[..i + 1])
  {
    if i > 0 {
      WalkBack(blocks, chain, i - 1, n - 1);
      assert Reverse(chain[..i + 1]) == [chain[i]] + Reverse(chain[..i]);
    }
  }

  /** From the last block of the chain the walk goes through the whole chain to the first block
      and ends there. */
  ghost predicate WalksHome(env: Env, s: State, chain: seq<Block>) {
    && s.last.Some?
    && Walk(s.blocks, s.last.value, |chain|) == Reverse(chain)
    && |chain| > 0 && Reverse(chain)[|chain| - 1] == Genesis(env)
    && Genesis(env).parentHash !in s.blocks
  }

  lemma WalkFromLast(env: Env, s: State, chain: seq<Block>)
    requires ChainOk(env, s, chain) && !HashRepeats(chain)
    ensures WalksHome(env, s, chain)
  {
    GenesisHasNoParent(env, chain);
    ChainIsRetrievable(env, chain);
    WalkBack(Stored(chain), chain, |chain| - 1, |chain|);
    assert chain[..|chain|] == chain;
  }

  /** Following parent hashes from the last block visits the whole chain backwards, down to the
      first block, and stops there, unless two blocks of the chain have the same hash. Nothing is
      assumed of clocks or miners. */
  lemma WalkReachesGenesis(env: Env, miner: Address, run: Run)
    requires IsRun(env, miner, run)
    ensures var s, chain := Current(env, miner, run), ChainOf(env, miner, run);
            HashRepeats(chain) || WalksHome(env, s, chain)
  {
    ChainAlwaysConnected(env, miner, run);
    if !HashRepeats(ChainOf(env, miner, run)) {
      WalkFromLast(env, Current(env, miner, run), ChainOf(env, miner, run));
    }
  }

  // ---------------------------------------------------------------- when a hash repeats

  lemma HeadersWellFormed(env: Env, chain: seq<Block>, i: nat)
    requires Connected(env, chain) && 0 < i < |chain| && IsValidAddress(chain[i].miner)
    ensures WellFormed(FieldsOf(chain[i]))
  {
    assert Joins(env, chain[i - 1], chain[i]);
    ChainHashes(env, chain, i - 1);
  }

  /** Two blocks of a chain with one hash, both of whose miners are addresses, have equal headers
      or their header texts collide under Keccak; if timestamps rise they collide. */
  lemma HashesDiffer(env: Env, chain: seq<Block>, i: nat, j: nat)
    requires Connected(env, chain) && i < j < |chain| && chain[i].hash == chain[j].hash
    requires IsValidAddress(chain[i].miner) && IsValidAddress(chain[j].miner)
    ensures var f, g := FieldsOf(chain[i]), FieldsOf(chain[j]);
            || HeaderCollision(env.keccak, f, g)
            || (f == g && !Rising(chain))
  {
    var f, g := FieldsOf(chain[i]), FieldsOf(chain[j]);
    ChainHashes(env, chain, i);
    ChainHashes(env, chain, j);
    HeadersWellFormed(env, chain, j);
    if i == 0 {
      assert f == GENESIS_FIELDS;
      GenesisUnlike(env.keccak, g);
    } else {
      HeadersWellFormed(env, chain, i);
      HashBindsHeader(env.keccak, f, g);
    }
    if Rising(chain) {
      TimestampsRise(chain, i, j);
    }
  }

  /** Two blocks of the chain whose different headers have the same Keccak value. */
  ghost predicate ChainCollision(env: Env, chain: seq<Block>) {
    exists i, j :: 0 <= i < j < |chain| && HeaderCollision(env.keccak, FieldsOf(chain[i]), FieldsOf(chain[j]))
  }

  ghost predicate AllMinersValid(chain: seq<Block>) {
    forall i :: 0 <= i < |chain| ==> IsValidAddress(chain[i].miner)
  }

  /** So where clocks are ahead and miners are addresses, the walk reaches the first block unless
      two header texts of the chain collide under Keccak. */
  lemma WalkOrCollision(env: Env, miner: Address, run: Run)
    requires IsRun(env, miner, run) && ClockAhead(env, miner, run) && AllMinersValid(ChainOf(env, miner, run))
    ensures var s, chain := Current(env, miner, run), ChainOf(env, miner, run);
            ChainCollision(env, chain) || WalksHome(env, s, chain)
  {
    var chain := ChainOf(env, miner, run);
    ChainAlwaysConnected(env, miner, run);
    WalkReachesGenesis(env, miner, run);
    if HashRepeats(chain) {
      var i: nat, j: nat :| i < j < |chain| && chain[i].hash == chain[j].hash;
      HashesDiffer(env, chain, i, j);
    }
  }

  // ---------------------------------------------------------------- the last block fixes the chain

  /** Two different blocks, one on each chain, with the same hash. */
  ghost predicate ChainsClash(chain: seq<Block>, chain': seq<Block>) {
    exists i, j :: 0 <= i < |chain| && 0 <= j < |chain'| && chain[i].hash == chain'[j].hash && chain[i] != chain'[j]
  }

  lemma ClashAt(chain: seq<Block>, chain': seq<Block>, i: nat, j: nat)
    requires i < |chain| && j < |chain'| && chain[i].hash == chain'[j].hash && chain[i] != chain'[j]
    ensures ChainsClash(chain, chain')
  {
  }

  lemma ClashOfMore(chain: seq<Block>, more: seq<Block>, chain': seq<Block>, more': seq<Block>)
    requires ChainsClash(chain, chain') && chain <= more && chain' <= more'
    ensures ChainsClash(more, more')
  {
    var i, j :| 0 <= i < |chain| && 0 <= j < |chain'| && chain[i].hash == chain'[j].hash && chain[i] != chain'[j];
    ClashAt(more, more', i, j);
  }

  lemma ConnectedPrefix(env: Env, chain: seq<Block>, m: nat, n: nat)
    requires Connected(env, chain) && n == m + 1 && n <= |chain|
    ensures Connected(env, chain[..n]) && chain[..n][|chain[..n]| - 1] == chain[m]
  {
    forall i | 0 < i < n
      ensures Joins(env, chain[..n][i - 1], chain[..n][i])
    {
      assert Joins(env, chain[i - 1], chain[i]);
    }
  }

  lemma LaterHasParent(env: Env, chain: seq<Block>, i: nat)
    requires Connected(env, chain) && 0 < i < |chain|
    ensures IsHash(chain[i].parentHash)
  {
    assert Joins(env, chain[i - 1], chain[i]);
    ChainHashes(env, chain, i - 1);
  }

  /** The first block has no block before it on a connected chain. */
  lemma NothingBeforeFirst(env: Env, chain: seq<Block>)
    requires Connected(env, chain) && chain[|chain| - 1] == Genesis(env)
    ensures |chain| == 1
  {
    var n := |chain| - 1;
    assert !IsHash(chain[n].parentHash);
    if n > 0 {
      LaterHasParent(env, chain, n);
    }
  }

  lemma ParentsMeet(env: Env, chain: seq<Block>, chain': seq<Block>, m: nat, n: nat, m': nat, n': nat)
    requires Connected(env, chain) && Connected(env, chain') && n == m + 1 && n' == m' + 1
    requires n < |chain| && n' < |chain'| && chain[n] == chain'[n']
    ensures chain[m].hash == chain'[m'].hash
  {
    assert Joins(env, chain[n - 1], chain[n]) && Joins(env, chain'[n' - 1], chain'[n']);
  }

  lemma SameUpTo(chain: seq<Block>, chain': seq<Block>, n: nat, n': nat)
    requires |chain| == n + 1 && |chain'| == n' + 1
    requires chain[n] == chain'[n'] && (chain[..n] == chain'[..n'] || ChainsClash(chain[..n], chain'[..n']))
    ensures chain == chain' || ChainsClash(chain, chain')
  {
    if chain[..n] == chain'[..n'] {
      assert chain == chain[..n] + [chain[n]] && chain' == chain'[..n'] + [chain'[n']];
    } else {
      ClashOfMore(chain[..n], chain, chain'[..n'], chain');
    }
  }

  /** Connected chains with the same last block are the same chain, or two different blocks of them
      have one hash. */
  lemma {:induction false} LastFixesChain(env: Env, chain: seq<Block>, chain': seq<Block>)
    requires Connected(env, chain) && Connected(env, chain') && chain[|chain| - 1] == chain'[|chain'| - 1]
    ensures chain == chain' || ChainsClash(chain, chain')
    decreases |chain|
  {
    var n, n' := |chain| - 1, |chain'| - 1;
    if n == 0 {
      NothingBeforeFirst(env, chain');
    } else if n' == 0 {
      NothingBeforeFirst(env, chain);
    } else {
      var m, m' := n - 1, n' - 1;
      ParentsMeet(env, chain, chain', m, n, m', n');
      if chain[m] != chain'[m'] {
        ClashAt(chain, chain', m, m');
      } else {
        ConnectedPrefix(env, chain, m, n);
        ConnectedPrefix(env, chain', m', n');
        LastFixesChain(env, chain[..n], chain'[..n']);
        SameUpTo(chain, chain', n, n');
      }
    }
  }

  lemma LastTellsChain(env: Env, s: State, chain: seq<Block>, s': State, chain': seq<Block>)
    requires ChainOk(env, s, chain) && ChainOk(env, s', chain')
    ensures ChainsClash(chain, chain') || (s.last == s'.last <==> chain == chain')
  {
    if s.last == s'.last {
      LastFixesChain(env, chain, chain');
    }
  }

  /** The last block commits to the whole chain: two nodes in any reachable states, whatever their
      clocks, miners and peers, have the same last block if and only if they have the same chain,
      or two different blocks of the chains have one hash. */
  lemma LastBlockCommits(env: Env, miner: Address, run: Run, miner': Address, run': Run)
    requires IsRun(env, miner, run) && IsRun(env, miner', run')
    ensures ChainsClash(ChainOf(env, miner, run), ChainOf(env, miner', run'))
            || (Current(env, miner, run).last == Current(env, miner', run').last <==>
                ChainOf(env, miner, run) == ChainOf(env, miner', run'))
  {
    ChainAlwaysConnected(env, miner, run);
    ChainAlwaysConnected(env, miner', run');
    LastTellsChain(env, Current(env, miner, run), ChainOf(env, miner, run),
                   Current(env, miner', run'), ChainOf(env, miner', run'));
  }

  /** A run goes on. */
  predicate GoesOn(run: Run, later: Run) {
    run == later || (later.Then? && GoesOn(run, later.before))
  }

  lemma {:induction false} ChainOnlyGrows(env: Env, miner: Address, run: Run, later: Run)
    requires GoesOn(run, later)
    ensures ChainOf(env, miner, run) <= ChainOf(env, miner, later)
  {
    if run != later {
      ChainOnlyGrows(env, miner, run, later.before);
    }
  }

  /** A fork is for ever: once two nodes have different blocks at some place of their chains, they
      never again have the same last block, whatever happens to either of them - unless two
      different blocks of their chains have one hash. */
  lemma ForkIsForEver(env: Env, miner: Address, run: Run, later: Run, miner': Address, run': Run, later': Run, k: nat)
    requires IsRun(env, miner, later) && IsRun(env, miner', later') && GoesOn(run, later) && GoesOn(run', later')
    requires k < |ChainOf(env, miner, run)| && k < |ChainOf(env, miner', run')|
    requires ChainOf(env, miner, run)[k] != ChainOf(env, miner', run')[k]
    ensures ChainsClash(ChainOf(env, miner, later), ChainOf(env, miner', later'))
            || Current(env, miner, later).last != Current(env, miner', later').last
  {
    ChainOnlyGrows(env, miner, run, later);
    ChainOnlyGrows(env, miner', run', later');
    LastBlockCommits(env, miner, later, miner', later');
    assert ChainOf(env, miner, later)[k] == ChainOf(env, miner, run)[k];
    assert ChainOf(env, miner', later')[k] == ChainOf(env, miner', run')[k];
  }
}
