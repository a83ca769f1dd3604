/** Any number of nodes. Transactions reach them in any order, up-to-date nodes make blocks, and
    every block reaches every node late, early, repeatedly or never. As long as senders can pay
    what is put into a block, all nodes stay on one chain, and nodes at the same place of it have
    the same ledger. */
module Network {
  import opened Text
  import opened Types
  import opened Ledger
  import opened Header
  import opened Blocks
  import opened Pools
  import opened Rotation
  import opened Coherence
  import opened Nodes
  import opened Settlement
  import opened Runs
  import opened Nonces
  import opened Replicas
  import opened History

  /** A block that was made: by whom and when, in which state, and the maker's state after it. */
  datatype Entry = Entry(miner: Address, before: State, now: nat, block: Block, after: State)

  /** All blocks made so far, the last one outermost. */
  datatype Log = Start | Made(earlier: Log, entry: Entry)

  datatype Net = Net(nodes: seq<State>, log: Log)

  /** Something happens at node k. A block of the log may be delivered anywhere at any time. */
  datatype NetEvent =
    | SubmitTo(k: nat, raw: RawTransaction)
    | TickAt(k: nat, now: nat, made: Option<Block>)
    | Deliver(k: nat, block: Block)
    | RestartAt(k: nat)

  function Local(event: NetEvent): Event {
    match event
    case SubmitTo(_, raw) => Submit(raw)
    case TickAt(_, now, made) => Tick(now, made)
    case Deliver(_, block) => Receive(block)
    case RestartAt(_) => Restart
  }

  predicate MakesBlock(event: NetEvent) {
    event.TickAt? && event.made.Some?
  }

  predicate InLog(log: Log, block: Block) {
    log.Made? && (log.entry.block == block || InLog(log.earlier, block))
  }

  /** The log after the event, at whose node `s` has become `next`. */
  function Logged(log: Log, miner: Address, s: State, event: NetEvent, next: State): Log {
    if MakesBlock(event) then Made(log, Entry(miner, s, event.now, event.made.value, next)) else log
  }

  ghost predicate NetNext(env: Env, miners: seq<Address>, net: Net, event: NetEvent, next: Net)
    requires |miners| == |net.nodes|
  {
    && event.k < |net.nodes| == |next.nodes|
    && (event.Deliver? ==> InLog(net.log, event.block))
    && Next(env, miners[event.k], net.nodes[event.k], Local(event), next.nodes[event.k])
    && (forall j :: 0 <= j < |net.nodes| && j != event.k ==> next.nodes[j] == net.nodes[j])
    && next.log == Logged(net.log, miners[event.k], net.nodes[event.k], event, next.nodes[event.k])
  }

  /** The state the blocks of the log lead to; before any, that of a new node. */
  function End(env: Env, log: Log): State {
    match log
    case Start => FirstState(env, GENESIS_MINER)
    case Made(_, entry) => entry.after
  }

  /** When a block is made, its maker has seen all blocks made before and its clock is past the last
      of them; every sender can pay its transactions of the block together, and none of them goes
      to its own sender. */
  ghost predicate FairBlock(env: Env, log: Log, s: State, event: NetEvent) {
    MakesBlock(event) ==>
      s.last == End(env, log).last && FairFrom(s, event.now, event.made.value.transactions)
  }

  ghost predicate FairFrom(s: State, now: nat, txs: seq<Transaction>) {
    now > LastOrZero(s.last).timestamp && PayableTogether(s.accounts, txs) && NoSelfTransfers(txs)
  }

  /** A node on its own: sound, coherent, and ready to continue. */
  ghost predicate NodeOk(env: Env, s: State) {
    PoolOk(env, s.accounts, s.pool) && s.last.Some? && Coherent(s) && Ready(s)
  }

  /** A block of the log was made fairly on what the blocks before it lead to. */
  ghost predicate EntryOk(env: Env, reached: State, e: Entry) {
    && NodeOk(env, e.before) && NodeOk(env, e.after) && Agree(reached, e.before)
    && TickMade(env, e.miner, e.before, e.now, e.block, e.after)
    && FairFrom(e.before, e.now, e.block.transactions)
  }

  ghost predicate LogOk(env: Env, log: Log) {
    match log
    case Start => true
    case Made(earlier, entry) => LogOk(env, earlier) && EntryOk(env, End(env, earlier), entry)
  }

  predicate IsPrefix(part: Log, log: Log) {
    part == log || (log.Made? && IsPrefix(part, log.earlier))
  }

  /** What storing the first block and then the blocks of the log one after the other leaves. */
  function StoreOf(env: Env, log: Log): map<string, Block> {
    match log
    case Start => map[Genesis(env).hash := Genesis(env)]
    case Made(earlier, entry) => StoreOf(env, earlier)[entry.block.hash := entry.block]
  }

  /** The node has stored the blocks of a log, in order and no others, and its last block, ledger and
      mempool are what they lead to. */
  ghost predicate Stands(env: Env, part: Log, s: State) {
    NodeOk(env, s) && Agree(End(env, part), s) && s.blocks == StoreOf(env, part)
  }

  /** The node stands at the end of some first part of the log. */
  ghost predicate FollowsLog(env: Env, log: Log, s: State) {
    exists part :: IsPrefix(part, log) && Stands(env, part, s)
  }

  ghost predicate NodesOk(env: Env, log: Log, nodes: seq<State>) {
    forall j :: 0 <= j < |nodes| ==> FollowsLog(env, log, nodes[j])
  }

  ghost predicate NetOk(env: Env, net: Net) {
    LogOk(env, net.log) && NodesOk(env, net.log, net.nodes)
  }

  // ---------------------------------------------------------------- one node

  lemma SubmitOk(env: Env, miner: Address, s: State, raw: RawTransaction)
    requires NodeOk(env, s)
    ensures var next := Submitted(env, s, raw); NodeOk(env, next) && Agree(s, next)
  {
    var next := Submitted(env, s, raw);
    NextPoolOk(env, miner, s, Submit(raw), next);
    forall a
      ensures CoherentAt(At(next.pool.pending, a), At(next.pool.future, a), Read(next.accounts, a).nonce)
      ensures ReadyAt(At(next.pool.pending, a), Read(next.accounts, a).nonce)
    {
      SubmitCoherentAt(env, s, raw, a);
    }
  }

  lemma SyncOk(env: Env, s: State)
    requires NodeOk(env, s)
    ensures var next := s.(pool := Synced(s.pool)); NodeOk(env, next) && Agree(s, next)
  {
    var next := s.(pool := Synced(s.pool));
    SyncPoolOk(env, s.accounts, s.pool);
    forall a
      ensures CoherentAt(At(next.pool.pending, a), At(next.pool.future, a), Read(next.accounts, a).nonce)
      ensures ReadyAt(At(next.pool.pending, a), Read(next.accounts, a).nonce)
    {
      SyncCoherentAt(s.pool, Read(s.accounts, a).nonce, a);
    }
  }

  lemma RestartOk(env: Env, s: State)
    requires NodeOk(env, s)
    ensures var next := Started(env, s.(pool := EMPTY_POOL)); NodeOk(env, next) && Agree(s, next)
  {
    EmptyPoolOk(env, s.accounts);
  }

  /** The creator: it stays sound, and its block follows on. */
  lemma MakeOk(env: Env, miner: Address, s: State, now: nat, block: Block, next: State)
    requires NodeOk(env, s) && TickMade(env, miner, s, now, block, next)
    requires Execute(s.accounts, block.transactions).executed == |block.transactions|
    requires NoSelfTransfers(block.transactions)
    ensures NodeOk(env, next)
    ensures FollowsOn(s.accounts, block.transactions)
    ensures forall a :: Read(next.accounts, a).nonce == Read(s.accounts, a).nonce + |Of(block.transactions, a)|
  {
    TickPoolOk(env, miner, s, now, block, next);
    forall a
      ensures CoherentAt(At(next.pool.pending, a), At(next.pool.future, a), Read(next.accounts, a).nonce)
      ensures ReadyAt(At(next.pool.pending, a), Read(next.accounts, a).nonce)
      ensures FollowsAt(Read(s.accounts, a).nonce, Of(block.transactions, a))
      ensures Read(next.accounts, a).nonce == Read(s.accounts, a).nonce + |Of(block.transactions, a)|
    {
      TickCoherentAt(env, miner, s, now, block, next, a);
      NonceAfter(s.accounts, block.transactions, a);
      RewardNonce(Execute(s.accounts, block.transactions).accounts, block.miner, a);
    }
  }

  /** A receiver of a block that follows on and raises the nonces by exactly its transactions. */
  lemma TakeOk(env: Env, miner: Address, t: State, block: Block)
    requires NodeOk(env, t) && Accepts(env, t, block) && FollowsOn(t.accounts, block.transactions)
    requires forall a :: Read(Received(env, t, block).accounts, a).nonce == Read(t.accounts, a).nonce + |Of(block.transactions, a)|
    ensures NodeOk(env, Received(env, t, block))
  {
    var next := Received(env, t, block);
    NextPoolOk(env, miner, t, Receive(block), next);
    forall a
      ensures CoherentAt(At(next.pool.pending, a), At(next.pool.future, a), Read(next.accounts, a).nonce)
      ensures ReadyAt(At(next.pool.pending, a), Read(next.accounts, a).nonce)
    {
      assert FollowsAt(Read(t.accounts, a).nonce, Of(block.transactions, a));
      ReceiveCoherentAt(env, t, block, a);
    }
  }

  /** A creator and one receiver that agree before the block agree after it. */
  lemma ForgeOk(env: Env, miner: Address, s: State, now: nat, block: Block, next: State, t: State)
    requires NodeOk(env, s) && NodeOk(env, t) && Agree(s, t) && TickMade(env, miner, s, now, block, next)
    requires now > LastOrZero(s.last).timestamp && PayableTogether(s.accounts, block.transactions)
    requires NoSelfTransfers(block.transactions)
    ensures NodeOk(env, next) && NodeOk(env, Received(env, t, block)) && Agree(next, Received(env, t, block))
  {
    ReplicasAgree(env, miner, s, now, block, next, t);
    MakeOk(env, miner, s, now, block, next);
    forall a
      ensures FollowsAt(Read(t.accounts, a).nonce, Of(block.transactions, a))
      ensures Read(Received(env, t, block).accounts, a).nonce == Read(t.accounts, a).nonce + |Of(block.transactions, a)|
    {
      assert Read(s.accounts, a) == Read(t.accounts, a);
      assert FollowsAt(Read(s.accounts, a).nonce, Of(block.transactions, a));
      assert Read(next.accounts, a) == Read(Received(env, t, block).accounts, a);
    }
    TakeOk(env, miner, t, block);
  }

  // ---------------------------------------------------------------- the log

  lemma AgreeThrough(s: State, t: State, u: State)
    requires Agree(s, t) && Agree(s, u)
    ensures Agree(t, u) && Agree(t, s)
  {
  }

  lemma AgreeOn(s: State, t: State, u: State)
    requires Agree(s, t) && Agree(t, u)
    ensures Agree(s, u)
  {
  }

  /** The last block after the blocks of the log. */
  function LastOf(env: Env, log: Log): Block {
    LastOrZero(End(env, log).last)
  }

  /** The chain of the log has a block with this hash. */
  predicate HashIn(env: Env, log: Log, hash: string) {
    LastOf(env, log).hash == hash || (log.Made? && HashIn(env, log.earlier, hash))
  }

  /** Two different blocks of the chain have the same hash. */
  predicate LogRepeats(env: Env, log: Log) {
    log.Made? && (LogRepeats(env, log.earlier) || HashIn(env, log.earlier, LastOf(env, log).hash))
  }

  lemma EntryLinks(env: Env, reached: State, e: Entry)
    requires EntryOk(env, reached, e)
    ensures reached.last.Some? && e.after.last == Some(e.block)
    ensures e.block.parentHash == reached.last.value.hash
    ensures reached.last.value.timestamp < e.block.timestamp
  {
    NewBlockJoins(env, e.before.last, e.miner, e.now, e.block.transactions);
  }

  lemma EndHasLast(env: Env, log: Log)
    requires LogOk(env, log)
    ensures End(env, log).last.Some?
  {
    if log.Made? {
      EntryLinks(env, End(env, log.earlier), log.entry);
    }
  }

  /** The chain grows younger. */
  lemma {:induction false} PrefixIsOlder(env: Env, part: Log, log: Log)
    requires LogOk(env, log) && IsPrefix(part, log)
    ensures LastOf(env, part).timestamp <= LastOf(env, log).timestamp
    ensures part != log ==> LastOf(env, part).timestamp < LastOf(env, log).timestamp
  {
    if part != log {
      EntryLinks(env, End(env, log.earlier), log.entry);
      PrefixIsOlder(env, part, log.earlier);
    }
  }

  lemma {:induction false} PrefixHash(env: Env, part: Log, log: Log)
    requires IsPrefix(part, log)
    ensures HashIn(env, log, LastOf(env, part).hash)
  {
    if part != log {
      PrefixHash(env, part, log.earlier);
    }
  }

  lemma PrefixHashDiffers(env: Env, part: Log, log: Log)
    requires IsPrefix(part, log) && part != log && !LogRepeats(env, log)
    ensures LastOf(env, part).hash != LastOf(env, log).hash
  {
    PrefixHash(env, part, log.earlier);
  }

  lemma {:induction false} OneIsPrefix(part: Log, other: Log, log: Log)
    requires IsPrefix(part, log) && IsPrefix(other, log)
    ensures IsPrefix(part, other) || IsPrefix(other, part)
  {
    if part != log && other != log {
      OneIsPrefix(part, other, log.earlier);
    }
  }

  function Size(log: Log): nat {
    match log
    case Start => 0
    case Made(earlier, _) => Size(earlier) + 1
  }

  /** The blocks of the chain are numbered 1, 2, 3 and so on. */
  lemma {:induction false} LogNumbers(env: Env, log: Log)
    requires LogOk(env, log)
    ensures LastOf(env, log).number == 1 + Size(log)
  {
    if log.Made? {
      var e := log.entry;
      LogNumbers(env, log.earlier);
      EntryLinks(env, End(env, log.earlier), e);
      MadeBlockFits(env, e.miner, e.before, e.now, e.block);
    }
  }

  /** The last block tells the place on the chain. */
  lemma SamePlace(env: Env, part: Log, other: Log, log: Log)
    requires LogOk(env, log) && IsPrefix(part, log) && IsPrefix(other, log)
    requires LastOf(env, part) == LastOf(env, other)
    ensures part == other
  {
    OneIsPrefix(part, other, log);
    PrefixOk(env, part, log);
    PrefixOk(env, other, log);
    if IsPrefix(part, other) {
      PrefixIsOlder(env, part, other);
    } else {
      PrefixIsOlder(env, other, part);
    }
  }

  lemma {:induction false} PrefixOk(env: Env, part: Log, log: Log)
    requires LogOk(env, log) && IsPrefix(part, log)
    ensures LogOk(env, part)
  {
    if part != log {
      PrefixOk(env, part, log.earlier);
    }
  }

  // ---------------------------------------------------------------- a block is delivered

  /** The block right after the node's place is accepted and takes it one place further. */
  lemma DeliverNext(env: Env, log: Log, t: State)
    requires LogOk(env, log) && log.Made? && Stands(env, log.earlier, t)
    ensures Stands(env, log, Received(env, t, log.entry.block))
  {
    var e := log.entry;
    AgreeThrough(End(env, log.earlier), e.before, t);
    ForgeOk(env, e.miner, e.before, e.now, e.block, e.after, t);
    AcceptedIsStored(env, t, e.block, e.after);
  }

  lemma AcceptedIsStored(env: Env, t: State, block: Block, made: State)
    requires Agree(made, Received(env, t, block)) && made.last == Some(block) && t.last != Some(block)
    ensures Received(env, t, block).blocks == t.blocks[block.hash := block]
  {
  }

  /** A block further on is refused without a trace: it does not name the node's last block. */
  lemma DeliverEarly(env: Env, part: Log, log: Log, t: State)
    requires LogOk(env, log) && log.Made? && !LogRepeats(env, log.earlier)
    requires IsPrefix(part, log.earlier) && part != log.earlier && Stands(env, part, t)
    ensures Received(env, t, log.entry.block) == t
  {
    EntryLinks(env, End(env, log.earlier), log.entry);
    PrefixHashDiffers(env, part, log.earlier);
    UnfitIsRefused(env, t, log.entry.block);
  }

  lemma {:induction false} OldIsOlder(env: Env, log: Log, block: Block)
    requires LogOk(env, log) && InLog(log, block)
    ensures block.timestamp <= LastOf(env, log).timestamp
  {
    EntryLinks(env, End(env, log.earlier), log.entry);
    if log.entry.block != block {
      OldIsOlder(env, log.earlier, block);
    }
  }

  /** A block the node has applied is refused without a trace: it is not later than its last one. */
  lemma DeliverLate(env: Env, log: Log, block: Block, t: State)
    requires LogOk(env, log) && InLog(log, block) && Stands(env, log, t)
    ensures Received(env, t, block) == t
  {
    OldIsOlder(env, log, block);
    EndHasLast(env, log);
    UnfitIsRefused(env, t, block);
  }

  /** Whatever block of the log is delivered, the node stays on the log. */
  lemma {:induction false} DeliverAny(env: Env, part: Log, log: Log, block: Block, t: State) returns (after: Log)
    requires LogOk(env, log) && !LogRepeats(env, log) && InLog(log, block)
    requires IsPrefix(part, log) && Stands(env, part, t)
    ensures IsPrefix(after, log) && Stands(env, after, Received(env, t, block))
  {
    if part == log {
      DeliverLate(env, log, block, t);
      after := part;
    } else if block != log.entry.block {
      after := DeliverAny(env, part, log.earlier, block, t);
    } else if part == log.earlier {
      DeliverNext(env, log, t);
      after := log;
    } else {
      DeliverEarly(env, part, log, t);
      after := part;
    }
  }

  // ---------------------------------------------------------------- the whole network

  lemma PlaceFound(env: Env, part: Log, log: Log, s: State)
    requires IsPrefix(part, log) && Stands(env, part, s)
    ensures FollowsLog(env, log, s)
  {
  }

  lemma PlaceKept(env: Env, part: Log, log: Log, s: State, next: State)
    requires IsPrefix(part, log) && Stands(env, part, s)
    requires NodeOk(env, next) && Agree(s, next) && next.blocks == s.blocks
    ensures FollowsLog(env, log, next)
  {
    AgreeOn(End(env, part), s, next);
    PlaceFound(env, part, log, next);
  }

  /** Submissions, restarts and ticks without a block leave the chain alone. */
  lemma OwnQuiet(env: Env, miner: Address, s: State, event: NetEvent, next: State)
    requires NodeOk(env, s) && Next(env, miner, s, Local(event), next)
    requires !MakesBlock(event) && !event.Deliver?
    ensures NodeOk(env, next) && Agree(s, next) && next.blocks == s.blocks
  {
    match event {
      case SubmitTo(_, raw) =>
        SubmitOk(env, miner, s, raw);
      case TickAt(_, now, made) =>
        TickShape(env, miner, s, now, made, next);
        SyncOk(env, s);
      case RestartAt(_) =>
        RestartOk(env, s);
    }
  }

  /** What happens at a node that makes no block leaves it on the log. */
  lemma QuietStep(env: Env, miner: Address, log: Log, s: State, event: NetEvent, next: State)
    requires LogOk(env, log) && !LogRepeats(env, log) && FollowsLog(env, log, s)
    requires event.Deliver? ==> InLog(log, event.block)
    requires Next(env, miner, s, Local(event), next) && !MakesBlock(event)
    ensures FollowsLog(env, log, next)
  {
    var part :| IsPrefix(part, log) && Stands(env, part, s);
    if event.Deliver? {
      var after := DeliverAny(env, part, log, event.block, s);
      PlaceFound(env, after, log, next);
    } else {
      OwnQuiet(env, miner, s, event, next);
      PlaceKept(env, part, log, s, next);
    }
  }

  lemma AtTheEnd(env: Env, log: Log, s: State)
    requires LogOk(env, log) && FollowsLog(env, log, s) && s.last == End(env, log).last
    ensures Stands(env, log, s)
  {
    var part :| IsPrefix(part, log) && Stands(env, part, s);
    SamePlace(env, part, log, log);
  }

  lemma MadeIsOk(env: Env, miner: Address, reached: State, s: State, now: nat, block: Block, next: State)
    requires NodeOk(env, s) && Agree(reached, s) && TickMade(env, miner, s, now, block, next)
    requires FairFrom(s, now, block.transactions)
    ensures EntryOk(env, reached, Entry(miner, s, now, block, next))
    ensures next.blocks == s.blocks[block.hash := block]
  {
    ForgeOk(env, miner, s, now, block, next, s);
  }

  lemma MakerStands(env: Env, log: Log, e: Entry)
    requires NodeOk(env, e.after) && e.after.blocks == StoreOf(env, log)[e.block.hash := e.block]
    ensures FollowsLog(env, Made(log, e), e.after)
  {
    var more := Made(log, e);
    assert Agree(e.after, e.after);
    PlaceFound(env, more, more, e.after);
  }

  lemma Prolonged(env: Env, log: Log, e: Entry)
    requires LogOk(env, log) && EntryOk(env, End(env, log), e)
    ensures LogOk(env, Made(log, e)) && NodeOk(env, e.after)
  {
  }

  /** A block that is made prolongs the log. */
  lemma MakerStep(env: Env, miner: Address, log: Log, s: State, now: nat, block: Block, next: State)
    requires LogOk(env, log) && FollowsLog(env, log, s) && Next(env, miner, s, Tick(now, Some(block)), next)
    requires s.last == End(env, log).last && FairFrom(s, now, block.transactions)
    ensures var more := Made(log, Entry(miner, s, now, block, next)); LogOk(env, more) && FollowsLog(env, more, next)
  {
    AtTheEnd(env, log, s);
    TickShape(env, miner, s, now, Some(block), next);
    MadeIsOk(env, miner, End(env, log), s, now, block, next);
    Prolonged(env, log, Entry(miner, s, now, block, next));
    MakerStands(env, log, Entry(miner, s, now, block, next));
  }

  /** The node of the event follows the log as it then is. */
  lemma StepHere(env: Env, miner: Address, log: Log, s: State, event: NetEvent, next: State)
    requires LogOk(env, log) && !LogRepeats(env, log) && FollowsLog(env, log, s)
    requires event.Deliver? ==> InLog(log, event.block)
    requires Next(env, miner, s, Local(event), next) && FairBlock(env, log, s, event)
    ensures var more := Logged(log, miner, s, event, next); LogOk(env, more) && FollowsLog(env, more, next)
  {
    if MakesBlock(event) {
      MakerStep(env, miner, log, s, event.now, event.made.value, next);
    } else {
      QuietStep(env, miner, log, s, event, next);
    }
  }

  lemma StillFollows(env: Env, log: Log, miner: Address, s: State, event: NetEvent, next: State, other: State)
    requires FollowsLog(env, log, other)
    ensures FollowsLog(env, Logged(log, miner, s, event, next), other)
  {
    var part :| IsPrefix(part, log) && Stands(env, part, other);
    assert IsPrefix(part, Logged(log, miner, s, event, next));
  }

  lemma NetStep(env: Env, miners: seq<Address>, net: Net, event: NetEvent, next: Net)
    requires |miners| == |net.nodes| && NetOk(env, net) && NetNext(env, miners, net, event, next)
    requires FairBlock(env, net.log, net.nodes[event.k], event) && !LogRepeats(env, net.log)
    ensures NetOk(env, next)
  {
    var k := event.k;
    StepHere(env, miners[k], net.log, net.nodes[k], event, next.nodes[k]);
    forall j | 0 <= j < |next.nodes|
      ensures FollowsLog(env, next.log, next.nodes[j])
    {
      if j != k {
        StillFollows(env, net.log, miners[k], net.nodes[k], event, next.nodes[k], net.nodes[j]);
      }
    }
  }

  function FirstNet(env: Env, miners: seq<Address>): (net: Net)
    ensures |net.nodes| == |miners|
  {
    Net(seq(|miners|, j requires 0 <= j < |miners| => FirstState(env, miners[j])), Start)
  }

  lemma FirstFollows(env: Env, miner: Address)
    ensures FollowsLog(env, Start, FirstState(env, miner))
  {
    var s := FirstState(env, miner);
    FirstCoherent(env, miner);
    EmptyPoolOk(env, s.accounts);
    assert IsPrefix(Start, Start) && Stands(env, Start, s);
  }

  lemma FirstNetOk(env: Env, miners: seq<Address>)
    ensures NetOk(env, FirstNet(env, miners))
  {
    forall j | 0 <= j < |miners|
      ensures FollowsLog(env, Start, FirstState(env, miners[j]))
    {
      FirstFollows(env, miners[j]);
    }
  }

  /** Events happen one after the other, and blocks are made fairly. */
  ghost predicate NetRun(env: Env, miners: seq<Address>, nets: seq<Net>, events: seq<NetEvent>) {
    && |nets| == |events| + 1 && nets[0] == FirstNet(env, miners)
    && (forall n :: 0 <= n <= |events| ==> |nets[n].nodes| == |miners|)
    && forall n :: 0 <= n < |events| ==>
         && NetNext(env, miners, nets[n], events[n], nets[n + 1])
         && FairBlock(env, nets[n].log, nets[n].nodes[events[n].k], events[n])
  }

  lemma {:induction false} NetAlwaysOk(env: Env, miners: seq<Address>, nets: seq<Net>, events: seq<NetEvent>)
    requires NetRun(env, miners, nets, events)
    ensures LogRepeats(env, nets[|events|].log) || NetOk(env, nets[|events|])
  {
    if events == [] {
      FirstNetOk(env, miners);
    } else {
      var n := |events| - 1;
      NetAlwaysOk(env, miners, nets[..n + 1], events[..n]);
      assert NetNext(env, miners, nets[n], events[n], nets[n + 1]);
      if !LogRepeats(env, nets[n].log) {
        NetStep(env, miners, nets[n], events[n], nets[n + 1]);
      }
    }
  }

  lemma SameLastAgree(env: Env, log: Log, s: State, t: State)
    requires LogOk(env, log) && FollowsLog(env, log, s) && FollowsLog(env, log, t) && s.last == t.last
    ensures Agree(s, t)
  {
    var part :| IsPrefix(part, log) && Stands(env, part, s);
    var other :| IsPrefix(other, log) && Stands(env, other, t);
    SamePlace(env, part, other, log);
    AgreeThrough(End(env, part), s, t);
  }

  /** In any run of any number of nodes from the start in which blocks are made fairly, whatever
      blocks are delivered when, how often and in which order: every node has applied exactly the
      first blocks of one common chain, in order and each once, and its mempool continues its
      accounts' nonces; and any two nodes with the same last block have the same ledger - or two
      blocks of the chain have the same hash. */
  lemma NetworkAgrees(env: Env, miners: seq<Address>, nets: seq<Net>, events: seq<NetEvent>)
    requires NetRun(env, miners, nets, events)
    ensures var net := nets[|events|];
            || LogRepeats(env, net.log)
            || (&& NodesOk(env, net.log, net.nodes)
                && (forall i, j :: 0 <= i < |net.nodes| && 0 <= j < |net.nodes| && net.nodes[i].last == net.nodes[j].last ==>
                      Agree(net.nodes[i], net.nodes[j])))
  {
    var net := nets[|events|];
    NetAlwaysOk(env, miners, nets, events);
    if !LogRepeats(env, net.log) {
      forall i, j | 0 <= i < |net.nodes| && 0 <= j < |net.nodes| && net.nodes[i].last == net.nodes[j].last
        ensures Agree(net.nodes[i], net.nodes[j])
      {
        SameLastAgree(env, net.log, net.nodes[i], net.nodes[j]);
      }
    }
  }

  // ---------------------------------------------------------------- competing blocks

  /** That a maker has seen all blocks is needed: of two nodes in the same state that each make a
      block, each refuses the other's, unless a new block has the hash of the old one; and from
      then on their last blocks differ unless they have made the same block. */
  lemma CompetingBlocks(env: Env, miner: Address, s: State, now: nat, block: Block, next: State,
                        miner': Address, t: State, now': nat, block': Block, next': State)
    requires Agree(s, t) && s.last.Some?
    requires TickMade(env, miner, s, now, block, next) && TickMade(env, miner', t, now', block', next')
    ensures block.hash == s.last.value.hash || Received(env, next, block') == next
    ensures block'.hash == t.last.value.hash || Received(env, next', block) == next'
    ensures next.last == next'.last <==> block == block'
  {
    if block.hash != s.last.value.hash {
      UnfitIsRefused(env, next, block');
    }
    if block'.hash != t.last.value.hash {
      UnfitIsRefused(env, next', block);
    }
  }
}
