# A verified model of a small peer-to-peer blockchain node

A node keeps three things: an account store, a mempool with a pending and a future queue for every
account, and a chain of stored blocks. Three things happen to it. A signed transaction is submitted;
a tick of the block creator takes five transactions, makes a block, stores it, executes it and pays
the reward; a block arrives from a peer, is validated, rewarded, stored, executed and cleaned out of
the mempool. This project models the three parts as the classes and loops they are, proves each
method against a function of the old state, and proves what the node as a whole keeps over every run
of one node and of a network of nodes.

`dafny verify dfyconfig.toml` checks everything.

## What is where

| files | content |
|---|---|
| `Text`, `Types` | bytes, hexadecimal, decimal and UTF-8 text; transactions, blocks, and the environment (hash function, key recovery, JSON) |
| `Merkle` | the Merkle loop, the top-down tree it equals, binding |
| `Header` | the text a block hash is taken of, and a parser that inverts it |
| `Sums`, `Ledger`, `Settlement` | the account store; execution, reward, and their closed forms |
| `Queues`, `Pools`, `Mempools` | the mempool's loops and the functions they are proved equal to |
| `Rotation`, `Coherence`, `Confluence` | extraction as a fair partition; mempool invariants; order independence of admission |
| `Blocks`, `Nodes` | validation, block creation, block store; the node |
| `Runs`, `Money`, `History`, `Nonces` | every run of one node: mempool soundness, supply, the chain, nonces |
| `Binding` | what the hash of an accepted block binds, and what it does not |
| `Authority` | every kept or executed transaction is signed by its sender and carries its own hash; an account nobody signs for loses nothing |
| `Formats`, `Checks` | what texts, checks and decisions mean, said without the functions that make them |
| `Replicas`, `Network` | exactly when creator and receiver agree; any number of nodes with late, early and repeated blocks |
| `Submissions`, `Witnesses`, `Stranding` | concrete runs from the start in which agreement, conservation and promotion fail |

## How the surroundings are modelled

- Keccak-256 is an arbitrary function to 32 bytes, public-key recovery an arbitrary predicate and the
  JSON text of a transaction an arbitrary function, together in `Types.Env`. Injectivity is never
  assumed. Since some collision always exists, a binding result names the inputs hashed on the way:
  the things are equal, or two of those particular inputs collide.
- The clock is a parameter of the tick.
- Go ranges over maps in an arbitrary order. Loops over maps pick an arbitrary remaining key, and
  extraction is a relation that holds for every order of the accounts.
- A tick, a received block, a submitted transaction and each mempool method is one atomic step. One
  race is kept: `AddTransaction` reads the account store before it locks the pool, so its account
  snapshot is a parameter that may be stale.
- Stopping and starting a node again is an event too: the stores stay, the mempool is lost.

## Where the code differs from what is said about it

- `README.md:146` promises that transactions may be sent in any order. Against a fixed account nonce
  this is so (`Confluence.AnyOrder`, `Confluence.ConsecutiveAllPending`). It fails when the account
  nonce moves on while nothing is pending, because `blockchain/mempool.go:210` starts from 0 and not
  from the account nonce: `Confluence.LeftBehindIff` gives the exact condition, `Stranding.Strands` a
  run that gets there, and `Stranding.StrandedStays` says that no submission and no tick of the node
  ever ends it.
- Creator and receiver apply reward and execution in opposite orders
  (`blockchain/blockchain.go:134-151`, `blockchain/blockchain.go:237-245`), the creator compares its
  clock with nothing (`blockchain/block.go:135`), and it checks neither balances nor nonces when it
  makes a block. So two nodes in the same state need not agree after a block:
  `Replicas.ReplicasAgreeIff` gives the exact condition, for every state and to be told before the
  block. It has four parts, and each can fail alone: the clock; a balance (`Witnesses.RefusedBlock`);
  a nonce below the account's, which gets into a mempool that is not coherent any more
  (`Witnesses.StaleBlock`); and the reward (`Witnesses.TippedBlock`). For the last one the miner has to
  sign payments of its own. A new node generates its account and throws the key away
  (`blockchain/account_manager.go:34`), so this takes a `nodeAccount` entry that was set before
  (`blockchain/account_manager.go:25-30`).
- Two nodes that make different blocks on the same last block refuse each other's
  (`Network.CompetingBlocks`), and once two nodes have different blocks at some place of their chains
  they never have the same last block again (`History.ForkIsForEver`). `Network.NetworkAgrees` assumes
  that makers have seen all blocks.
- A transfer from an account to itself creates its value and leaves the nonce alone, because the
  receiver's copy is written last (`blockchain/transaction.go:220-239`). The closed forms and the
  supply law account for it; `Settlement.SupplyConservedIff` is the exact condition, and
  `Witnesses.SelfTransferMints` a run in which an account doubles its money.
- The branch that creates a missing receiver during execution (`blockchain/transaction.go:203`) is
  never taken, since `GetAccount` wraps its error (`account/account.go:37`): a missing receiver aborts
  the execution. The model does the same.
- `blockchain/blockchain_test.go:262` expects a block from an empty list of transactions; the code
  returns none (`blockchain/utils.go:13`), and so does the model.
- Block numbers of received blocks are not validated. The model does not validate them either, and no
  result rests on the number of a received block.
- The error message at `blockchain/block.go:46` speaks of "greater than or equal"; the comparison
  demands a strictly later timestamp, and so does the model.
- That headers printed without separators can be told apart is proved when both miners are
  addresses, which neither side checks before hashing; with a longer miner there are two headers
  with one text (`Header.LongMinerIsAmbiguous`). What rests on it - `History.HashesDiffer`,
  `History.WalkOrCollision`, `Binding.BlockHashBinds` - says so; `History.WalkReachesGenesis` does not
  rest on it.
- A receiver takes a transaction's hash as it comes and never computes it from the transaction
  (`blockchain/transaction.go:255-284`), so a block hash binds the hashes of its transactions but not
  the transactions (`Binding.BlockHashBinds`, `Binding.AcceptedContentIff`);
  `Witnesses.OneHashTwoLedgers` has two ledgers under one block hash.

## Model

| member | source | states |
|---|---|---|
| Network.NetworkAgrees | blockchain/blockchain.go:84-257 | In every run of any number of nodes - submissions and restarts anywhere, each block made delivered to any node late, early, repeatedly or never - every node stands at some place of one common chain: its block store is what storing the chain up to there in order leaves, its last block and ledger are what the makers reached there, and its mempool is coherent and continues the account nonces; and any two nodes with the same last block have the same ledger; or two blocks of the chain have one hash. Assumed of each block that is made: its maker has seen all blocks before it and has a clock past the last of them, its senders can pay it together, and no transfer goes to its own sender |
| Network.NetStep | blockchain/blockchain.go:84-257 | One event at one node, a delivery of any block made so far included, keeps every node on the common chain |
| Network.LogNumbers | blockchain/block.go:133 | The blocks of the network's chain are numbered 1, 2, 3 and so on |
| Network.DeliverAny | blockchain/blockchain.go:116-170 | A node on the chain that is given any block of the chain takes it if it is the next one, and stays on the chain in any case |
| Network.DeliverNext | blockchain/blockchain.go:128-159 | The next block of the chain is always accepted and brings the node into the state its maker reached, so a node that lags can catch up |
| Network.DeliverLate | blockchain/block.go:43-47 | A block of the chain that the node has applied already is refused and changes nothing |
| Network.DeliverEarly | blockchain/block.go:49-55 | A block further on than the next is refused and changes nothing, unless two blocks of the chain have one hash |
| Network.CompetingBlocks | blockchain/block.go:49-55 | Of two blocks made in the same state, right after both are made each maker refuses the other's unless a new block has the old one's hash, and their last blocks differ unless they made the same block |
| History.ForkIsForEver | blockchain/block.go:26-88 | Once two nodes have different blocks at some place of their chains they never have the same last block again, whatever happens to either, or two different blocks of their chains have one hash |
| History.LastBlockCommits | blockchain/block.go:26-88 | Two nodes in any reachable states, whatever clocks, miners and peers, have the same last block if and only if they have the same chain, or two different blocks of the chains have one hash |
| Network.ForgeOk | blockchain/blockchain.go:116-160 | A maker and a receiver that are coherent, ready and in the same state agree after a block made with a clock past the last block, payable by its senders together and without transfers to the own sender, and both mempools continue the new account nonces |
| Replicas.ReplicasAgree | blockchain/blockchain.go:203-248 | A block made by a tick from a coherent mempool at a time past the last block, payable by its senders together, passes the validation of every node in the same state, executes to its end on both, and both end with the same last block and ledger, whichever accounts were missing on the other node |
| Replicas.ReplicasAgreeIff | blockchain/blockchain.go:128-248 | Two nodes in the same state, whatever it is, agree after one makes a block and the other receives it if and only if the maker's clock is past the last block, each transaction alone is covered by its sender's balance, none has a nonce below its sender's account nonce, and no transaction is the miner's and the first that its running balance does not cover, by no more than the reward |
| Replicas.CoherentAgreeIff | blockchain/blockchain.go:128-248 | From a sound and coherent mempool no stale transaction can come, and the other three conditions are exact |
| Replicas.MadeBlockAcceptedIff | blockchain/block.go:149-199 | A peer in the same state, whatever it is, accepts a made block if and only if the maker's clock is past the last block and each transaction, taken alone, is covered by its sender's balance and not below its sender's nonce before the block |
| Replicas.AcceptedAgreeIff | blockchain/blockchain.go:134-151 | Once the block is accepted, maker and receiver agree if and only if the reward does not turn the first failing transaction into an executable one |
| Witnesses.TippedBlock | blockchain/blockchain.go:134-151 | A new node whose miner holds 10000 and is the sender is given five payments, 6000 and 4500 first, and makes a block of them; every other new node is in the same state and accepts it, and then the two disagree: the maker has executed one payment and its account has 5000 and nonce 1, at the receiver the nonce is at least 2 |
| Witnesses.StaleBlock | account/account.go:222-224 | Nonces 1 to 5 are pending when a block with nonces 6 to 10 comes in and is accepted; the block the node then makes of the five is in time, payable and tips nothing, and every node in the same state refuses it |
| Witnesses.SelfTransferMints | blockchain/transaction.go:220-239 | Five payments of an account to itself are admitted, put into a block and executed: the supply grows by their 10000, and the account nonce stays 0 |
| Witnesses.OneHashTwoLedgers | blockchain/transaction.go:255-284 | Two blocks with the same header and hash, both accepted by a new node, leave the payer with different balances |
| Witnesses.RefusedBlock | blockchain/block.go:189-196 | Ten payments of 2000 are admitted on a balance of 10000; after a first block on which all agree the node makes a second one, which a node in the same state refuses, whatever the time |
| Stranding.Strands | blockchain/mempool.go:209-227 | Nonce 6 reaches a node first, nonces 1 to 5 arrive in a block of another node; after the node has accepted it, nonce 6 is the account's next, waits as a future one, and nothing is pending |
| Stranding.StrandedStays | blockchain/mempool.go:191-234 | An account in that state stays in it through any sequence of submissions and own ticks of the node: the next transaction is never promoted and the account nonce never moves |
| Replicas.CheckAllIff | blockchain/block.go:189-196 | The transactions of a block pass exactly when each passes on its own on the ledger before the block; accounts opened on the way change nothing |
| Checks.AcceptsIff | blockchain/block.go:149-199 | A block is accepted if and only if it is later than the last one and names its hash, its own hash is the hexadecimal Keccak value of number, parent, root, miner and timestamp printed in a row, its root is that of its transactions, and each transaction is sendable on the ledger before it |
| Checks.NumberAndMinerAreFree | blockchain/block.go:149-165 | An accepted block is accepted with any other number and any other miner, under the hash that goes with them |
| Checks.CheckAllMeans | blockchain/block.go:188-196 | Validation stops at the first transaction that is not sendable on the ledger before the block, has then opened exactly the accounts of the receivers before it, and passes if there is none |
| Checks.RefusedMeans | blockchain/blockchain.go:127-132 | A refused block changes neither chain nor mempool nor what anybody owns; one whose header does not fit changes nothing at all |
| Checks.AcceptedMeans | blockchain/blockchain.go:142-159 | An accepted block is stored under its hash and becomes the last one, and exactly its senders' nonces leave the pending and the future queues |
| Authority.SilentAlways | blockchain/transaction.go:36-62 | If the key of an account is recovered from no digest and bytes, then in every run, whatever blocks come in, no transaction of it is ever in the mempool or executed, its nonce stays 0, and its balance never falls |
| Authority.AlwaysSigned | blockchain/transaction.go:257-272 | Every transaction executed in a run has a hexadecimal signature from which, with the Keccak value of its own sender, receiver, value and nonce, the sender's key is recovered |
| Authority.PoolCarriesOwnHashes | blockchain/transaction.go:97-129 | Every transaction of a reachable mempool carries the digest of its own encoded content |
| Authority.MadeCarryOwnHashes | blockchain/blockchain.go:203-212 | Every transaction of a block the node makes carries the digest of its own encoded content and is signed by its sender |
| Authority.OneHashOneContent | blockchain/transaction.go:107-118 | Two such transactions under one hash have the same encoded content, or the two contents collide under Keccak |
| Nonces.ChainCarriesNonces | blockchain/blockchain.go:186-248 | If every block executes fully, has no transfer to its own sender, and follows on when it comes from a peer, the chain carries for each sender exactly the nonces 1 to its account nonce, in order, without gap or repeat, and a non-empty pending queue starts with the next one |
| Nonces.CoherentAlways | blockchain/mempool.go:65-89 | In every reachable state each pending queue is one gap-free interval above the account nonce and every future nonce lies above both, also when executions abort, as long as accepted peer blocks follow on |
| Nonces.NonceAfter | blockchain/transaction.go:216-222 | Executing a list raises a nonce by at most the sender's transactions in it, and by exactly them when it completes without transfers to the own sender |
| Nonces.SmoothStep | blockchain/blockchain.go:116-248 | For every account, what one event adds to the chain follows on its nonce, the new nonce counts it, and pending starts right after |
| Confluence.AdmissionIsConfluent | blockchain/mempool.go:27-92 | Any admissions against fixed account nonces - repeated and low nonces, other and unknown senders among them - mixed with any number of promotions and ending in one, leave an account with exactly this: of the first transaction sent of each nonce above its account nonce, pending is the maximal consecutive run above the account nonce and future the rest |
| Confluence.AnyOrder | README.md:146 | Two such sequences that send the same transactions, in any order and however often, leave every account with the same two queues, if a nonce of a sender always stands for the same transaction |
| Confluence.ConsecutiveAllPending | README.md:146-147 | The n transactions right after the account nonce, sent in any order and however often, all become pending and none stays future |
| Confluence.LeftBehindIff | blockchain/mempool.go:209-227 | Of any two queues promotion leaves the next executable transaction behind if and only if that transaction is future and the run promotion looks at ends at or below the account nonce |
| Confluence.CoherentLeftBehindIff | blockchain/mempool.go:209-227 | In coherent queues this is so if and only if nothing is pending, the account nonce is above 0 and that transaction is future |
| Checks.ClassifyMeans | blockchain/mempool.go:57-89 | For all queues and any account nonce: a nonce seen before is a duplicate of its queue; else it is too low if and only if it is at most the account nonce or some pending nonce, pending if and only if it is above all these and directly follows the account nonce or a pending one, and future otherwise |
| Checks.AdmittedMeans | blockchain/mempool.go:57-89 | The transaction is filed in the queue it was classified for, and no other queue changes |
| Checks.AdmittedAccounts | blockchain/mempool.go:49-55 | A call that knows its sender opens both queues of the sender, also when it refuses the transaction |
| Checks.CleanedMeans | blockchain/mempool.go:297-316 | Exactly the nonces a sender has in the block leave its queue, and exactly the block's senders that are left with nothing leave the pool |
| Coherence.OrderlyAlways | blockchain/mempool.go:26-317 | After any sequence of mempool calls, with any possibly stale account nonces, every transaction is filed under its sender and nonce and no nonce is both pending and future |
| Coherence.OrderlyKept | blockchain/mempool.go:26-317 | Each single mempool method keeps the queues filed and disjoint, whatever nonce admission saw |
| Coherence.PromotionMoves | blockchain/mempool.go:209-227 | Promotion overwrites and loses nothing: what moves was not pending, the two queues together hold what they held, and the run it moves is maximal |
| Coherence.SyncIsIdempotent | blockchain/mempool.go:191-234 | A second call right after the first changes nothing in the pool, empty queues included |
| Coherence.PromotionIsIdempotent | blockchain/mempool.go:209-227 | Promoting one account twice is promoting it once |
| Coherence.AdmitCoherent | blockchain/mempool.go:65-89 | Admission against the current account nonce keeps pending gap-free above that nonce and future above pending |
| Coherence.PromoteCoherent | blockchain/mempool.go:209-227 | Promotion keeps queues coherent and, where pending continued the account nonce, still continuing it |
| Coherence.CleanCoherent | blockchain/mempool.go:297-316 | Removing the nonces of a block that continues the account nonce keeps the queues coherent with every nonce the block can lead to |
| Coherence.TakeCoherent | blockchain/mempool.go:259-275 | What is taken from a queue that continues the account nonce are the next nonces one after the other, and the rest stays coherent with every nonce their execution can lead to |
| Rotation.ExtractionPartition | blockchain/mempool.go:237-286 | For every account, what was extracted followed by what is left in nonce order is what was pending; exactly as many were taken as asked for and available, none for a negative or zero limit |
| Rotation.ExtractionSize | blockchain/mempool.go:246-281 | As many transactions are taken as asked for, or all, and none for a limit of 0 or below |
| Rotation.ExtractionAscends | blockchain/mempool.go:259-270 | Each account's extracted nonces ascend and lie below all that are left |
| Rotation.ExtractionIsFair | blockchain/mempool.go:246-282 | For any accounts a and b and any map order, a gives at least the smaller of all it has and one less than b gives |
| Rotation.TakenFrom | blockchain/mempool.go:248-276 | After r rounds an account has lost exactly its lowest transactions: at least r or all of them, at most r + 1 |
| Rotation.LeftAccounts | blockchain/mempool.go:272-275 | An account leaves the pending shelf exactly when its last transaction is taken |
| Rotation.ExtractionExists | blockchain/mempool.go:237-286 | From every pool and for every limit a round-robin extraction exists |
| Runs.TickHappens | blockchain/blockchain.go:186-248 | A tick is possible in every state and at every time |
| Checks.TickMeans | blockchain/blockchain.go:186-201 | A tick promotes; if at least 5 transactions are then pending it makes a block of 5, otherwise it does no more |
| Pools.LeftAt | blockchain/mempool.go:248-276 | What visits leave an account is its queue without as many lowest transactions as it was visited |
| Pools.VisitOne | blockchain/mempool.go:253-270 | One more visit takes the lowest transaction that is left, which is the r-th lowest of the original queue, or nothing |
| Queues.SortedLists | blockchain/mempool.go:260-264 | A queue read in nonce order lists exactly the transactions filed in it |
| Queues.SortedAscends | blockchain/mempool.go:264-266 | A filed queue read in nonce order ascends strictly |
| Queues.SortedConsecutive | blockchain/mempool.go:264-266 | In a gap-free queue the k-th transaction has the lowest nonce plus k |
| Money.SupplyAlways | blockchain/blockchain.go:54-57 | In every reachable state all balances add up to 10000, plus 1000 for each block of the chain whose miner has a valid address, plus what executed transfers of accounts to themselves created; aborted executions and blocks rejected after opening accounts included |
| Money.SupplyWithoutSelfTransfers | blockchain/block.go:202-237 | Without executed transfers to the own sender all money comes from the first block and from rewards |
| Money.SupplyStep | blockchain/transaction.go:216-242 | One event changes the supply by its reward and what it mints, and by nothing else |
| Money.BalancesNeverNegative | blockchain/transaction.go:216-221 | No reachable ledger has a negative balance, and no payment that is not positive is ever executed |
| Settlement.ExecuteEffect | blockchain/transaction.go:184-252 | Whatever is executed, also before an abort: each balance is the old one minus outflow plus inflow and each nonce the old one plus the transactions sent, over exactly the executed transactions |
| Settlement.MissingAccountStops | blockchain/transaction.go:195-212 | A transaction with a missing sender or receiver is never executed, nor is anything after it |
| Settlement.RewardMeans | blockchain/block.go:202-244 | The miner's balance grows by 1000 and nothing else changes; without an address nothing changes |
| Settlement.CoveredExecutes | blockchain/transaction.go:190-249 | A list whose accounts exist and whose senders can pay all their transactions from the start never aborts |
| Settlement.OrderDoesNotMatter | blockchain/transaction.go:184-252 | Every rearrangement of such a list executes to its end and leaves the same ledger |
| Settlement.ExecuteSupply | blockchain/transaction.go:216-242 | Execution, aborted or not, keeps the sum of balances up to the value of transfers to the own sender |
| Settlement.SupplyConservedIff | blockchain/transaction.go:220-239 | With positive values the supply is conserved if and only if no executed transaction goes to its own sender |
| Settlement.CoveredSupplyIff | blockchain/transaction.go:220-239 | For a list of positive values its senders can pay from the start: conserved if and only if the list holds no transfer to its own sender |
| Settlement.ExecutedIff | blockchain/transaction.go:190-218 | Among existing accounts at least n transactions are executed if and only if each of the first n is covered by what its sender had, spent and received before it |
| Settlement.RewardTipsIff | blockchain/blockchain.go:134-151 | Among existing accounts the reward tips a transaction if and only if one is the miner's, the first not covered by its running balance, and missing no more than the reward; nothing has to be executed to tell |
| Settlement.RewardSupply | blockchain/block.go:202-244 | A reward adds 1000 to the supply when the miner is an address and nothing otherwise |
| Settlement.ExecuteAfterReward | blockchain/blockchain.go:134-151 | Execution after the reward does what execution does without it, and goes on exactly where it would if the reward came at the point where it stopped |
| Settlement.RewardCommutes | blockchain/blockchain.go:237-245 | A list that executes fully gives the same ledger rewarded before or after; the miner may be new, a sender or a receiver |
| Settlement.RewardCommutesIff | blockchain/blockchain.go:237-245 | For positive values the two orders give the same state if and only if the reward does not tip the first failing transaction |
| Settlement.ExecutionLeavesTrace | blockchain/transaction.go:216-222 | Executing at least one positive transaction always changes what somebody owns or has sent |
| Settlement.ExecuteSameState | blockchain/transaction.go:190-249 | Ledgers that read alike and both hold all accounts the list names execute the same transactions and read alike afterwards |
| Settlement.ExecuteNonNegative | blockchain/transaction.go:216-221 | Positive transactions never make a balance negative |
| History.ChainAlwaysConnected | blockchain/block.go:26-88 | In every run, whatever the clocks, each block of the chain names the one before and carries its own header's hash, the chain starts with the first block, and the store holds exactly what storing the chain leaves; its timestamps rise if and only if the creator's clock was past the last block whenever it made one |
| History.TimestampsRise | blockchain/block.go:43-47 | Where each block is later than the one before, any later place has a later timestamp |
| History.NoBlockTwice | blockchain/block.go:43-55 | A block of the chain that is delivered again later is refused and leaves ledger, chain and mempool exactly as they are, unless two blocks of the chain share a hash and also some block was made by a clock not past the last one |
| History.SelfRedelivery | blockchain/blockchain.go:162-170 | The accepted block that a node hands to itself is refused and changes nothing |
| History.WalkReachesGenesis | blockchain/block.go:60-88 | In every run, whatever the clocks and miners: looking up parent hashes from the last block visits the whole chain backwards and stops at the first block, or two blocks of the chain have the same hash |
| History.WalkOrCollision | blockchain/block.go:60-88 | Where clocks are ahead and miners are addresses the exception is a Keccak collision of two different header texts of the chain |
| History.HashesDiffer | blockchain/block.go:141-143 | Two blocks of a chain with one hash, whose two miners are addresses, have colliding header texts, or equal headers in a chain whose timestamps do not rise |
| History.LookUp | blockchain/block.go:72-77 | If no two blocks of the chain share a hash, the store gives back exactly the block that has a hash |
| Binding.BlockHashBinds | blockchain/block.go:160-182 | Two accepted blocks with one hash, miners that are addresses and equally many transactions have equal headers and the same decoded transaction hashes, or a named collision: of the header texts, or of two 64-byte inputs of their Merkle trees |
| Binding.AcceptedContentIff | blockchain/transaction.go:255-284 | An accepted block with other transactions that carry the same hashes is accepted under the same hash if and only if each of them alone is one the ledger before the block allows |
| Binding.ContentIsNotBound | blockchain/block.go:170-182 | Header, own hash and Merkle root of a block are as good with any transactions that carry the same hashes |
| Runs.PoolAlwaysOk | blockchain/transaction.go:132-181 | In every reachable state the mempool holds only field-valid, signed transactions with real hashes between existing accounts, filed under sender and nonce, none twice |
| Runs.TickShape | blockchain/blockchain.go:186-248 | A tick makes a block exactly when five transactions are pending after promotion - block creation never fails then -, it holds exactly five sound ones, for each account its lowest; otherwise a tick only promotes |
| Runs.NextPoolOk | blockchain/blockchain.go:84-257 | Every event keeps the mempool sound, loses no account and keeps a last block |
| Runs.CheckAllEffect | blockchain/block.go:189-196 | Validating transactions changes no balance and no nonce, closes no account, and on success every sender and receiver has an account |
| Runs.ValidateEffect | blockchain/block.go:149-199 | Validation only opens empty accounts; an accepted block fits the chain and holds only positive payments between existing accounts |
| Merkle.BuildMerkleTree | blockchain/utils.go:10-55 | For every list: fails exactly on the empty list or on a text that is no 32-byte hash; otherwise the root is that of the top-down tree split at powers of two, reached in exactly the rounded-up logarithm of n rounds |
| Merkle.TreeOfParents | blockchain/utils.go:31-49 | Going up one level with the last node repeated is peeling the bottom layer off the top-down tree |
| Merkle.RootOfTexts | blockchain/utils.go:10-55 | For every list of 32-byte hashes, the root of their hexadecimal texts is the hexadecimal text of the tree over exactly these hashes |
| Merkle.RootOfOne | blockchain/utils.go:52 | The root of one hash is that hash |
| Merkle.RootOfFive | blockchain/blockchain_test.go:158-171 | The root of five hashes, written out: the last is hashed with itself, and the result with itself again |
| Merkle.RootExistsIff | blockchain/utils.go:13-28 | There is a root if and only if there is a text and all are 64 hexadecimal digits of either case |
| Merkle.RootBindsTexts | blockchain/utils.go:10-55 | Equally many texts with one root are the same texts up to capitals, or two different 64-byte inputs hashed on the way have one Keccak value |
| Merkle.ReadHashes | blockchain/utils.go:17-28 | All texts decode to 32-byte hashes in order, or none is returned |
| Merkle.ParentLevel | blockchain/utils.go:34-45 | Parent k hashes nodes 2k and 2k + 1, or node 2k twice at an odd end |
| Merkle.Height | blockchain/utils.go:31 | The number of rounds is the least h with n at most two to the h |
| Merkle.MerkleBinding | blockchain/utils.go:31-54 | Equally long lists with one root are equal, or two different pairs combined on the way give one node |
| Merkle.RootTextBinding | blockchain/utils.go:10-55 | Equally many hash texts with one root decode to the same hashes, or two different 64-byte inputs hashed on the way have one Keccak value |
| Merkle.RootBindsExpansion | blockchain/utils.go:33-36 | Without such a clash lists of one height share a root if and only if they are the same after every repetition is written out |
| Merkle.EqualRoots | blockchain/utils.go:31-54 | Equal roots at equal heights, of any lengths: equal expansions or a clash |
| Merkle.RepeatedLastLeaf | blockchain/utils.go:33-36 | Repeating the last leaf of an odd list keeps height and root, so equal lengths are needed |
| Header.ParseInvertsPrint | blockchain/block.go:142-143 | With real hashes and a real miner address the five fields can be read back from the text that is hashed, though nothing separates them |
| Header.PrintReads | blockchain/block.go:142 | Number, parent hash, root, miner and timestamp stand in the text in this order, at the places their lengths give |
| Header.GenesisPrinted | blockchain/blockchain.go:50 | The first block's text is 10x00x0, the miner's address and 0 |
| Header.HashBindsHeader | blockchain/block.go:161-165 | Headers with one block hash have equal fields, or their two texts collide under Keccak |
| Header.GenesisUnlike | blockchain/blockchain.go:39-51 | A block with real hashes that has the first block's hash is a collision |
| Header.LongMinerIsAmbiguous | blockchain/block.go:142-143 | With a miner that is not an address two different headers print alike |
| Text.DecodeEncodeHex | blockchain/utils.go:52 | Decoding hexadecimal undoes encoding for every byte string |
| Text.EncodeDecodeHex | blockchain/utils.go:22 | Encoding undoes decoding up to capitals |
| Text.DecodesIff | blockchain/utils.go:22-25 | A text decodes if and only if it is an even number of hexadecimal digits of either case |
| Text.Utf8OfAscii | blockchain/block.go:143 | ASCII text is hashed as one byte a character |
| Text.ParseDecimalInverts | blockchain/block.go:142 | Reading a printed number gives the number back |
| Text.Utf8Injective | blockchain/block.go:143 | Different ASCII texts are hashed from different bytes |
| Checks.FirstMeans | blockchain/blockchain.go:39-76 | A new node has stored the first block, number 1 at time 0 with the Keccak value of its text as hash, and knows two accounts: that block's miner with 10000 and its own with nothing |
| Checks.NewBlockIff | blockchain/block.go:91-129 | A block is made if and only if there is a last one and a transaction and every hash is 64 hexadecimal digits with or without 0x |
| Checks.NewBlockMeans | blockchain/block.go:131-145 | Its number is the next, its parent the last block's hash, and time, miner, transactions, root and hash are its own |
| Checks.HashTextsMean | blockchain/block.go:113-122 | The Merkle tree stands on the transactions' hashes in the block's order, each without a leading 0x |
| Checks.SubmittedMeans | blockchain/transaction.go:132-181 | A submission that passes the checks opens the receiver's account and is offered to the mempool at its account's nonce; one that does not changes nothing; balances, nonces and the chain stay |
| Checks.JudgeMeans | blockchain/transaction.go:141-163 | Fields come before the signature and the signature before the account |
| Checks.CheckMeans | account/account.go:197-224 | A missing sender comes before too little money, and that before a nonce below the account's |
| Formats.AddressIff | account/account.go:182-189 | An address is 0x and the hexadecimal text, in either case, of 20 bytes |
| Formats.GenesisMinerIsAddress | blockchain/blockchain.go:46 | The first block's miner has an address |
| Formats.FieldsIff | blockchain/transaction.go:65-94 | Fields are accepted if and only if there is a signature, both addresses name 20 bytes, and the value is from 1 to 9223372036854775807 |
| Formats.MessageReads | blockchain/transaction.go:148 | Sender, receiver, value and nonce stand in the signed text in this order and can be read at the places their lengths give |
| Formats.MessageBinds | blockchain/transaction.go:148 | Two payments have one signed text if and only if sender and receiver are the same and the digits of value and nonce, next to each other, are |
| Formats.OtherNonceOtherText | blockchain/transaction.go:148 | Another nonce alone is another signed text |
| Formats.OtherValueOtherText | blockchain/transaction.go:148 | Another value alone is another signed text |
| Formats.OneTextTwoPayments | blockchain/transaction.go:148 | Value 1 with nonce 23 and value 12 with nonce 3 have one signed text |
| Formats.SignatureIff | blockchain/transaction.go:148-157 | A signature is accepted if and only if it is the hexadecimal text of bytes from which, with the Keccak value of sender, receiver, value and nonce in a row, the sender's key is recovered |
| Formats.HashOfContent | blockchain/transaction.go:107-126 | A new transaction carries 0x and the digest of the encoded content it was made of, and that content |
| Formats.TrimmedOnce | blockchain/block.go:116 | One leading 0x is taken off a hash, anything else stays |
| Submissions.PaymentListsExist | blockchain/transaction.go:132-163 | Payments of any values up to 10000, to the payer itself or somebody else, meet everything the runs of `Witnesses` and `Stranding` ask of them, in some surroundings |
| Nodes.Node.constructor | blockchain/account_manager.go:34-64 | A new node's stores are empty but for its own account |
| Nodes.Node.InitGenesisBlock | blockchain/blockchain.go:21-81 | Without a last block the first block and its miner's 10000 are written, otherwise nothing changes |
| Nodes.Node.ProcessTransaction | blockchain/transaction.go:132-181 | Answers with the first check that fails or with the mempool's decision; opens the receiver's account even when the mempool refuses; nothing else changes |
| Nodes.Node.CheckTransaction | blockchain/transaction.go:255-284 | Fields, signature and account state are judged in this order; only a transaction that passes opens its receiver's account |
| Nodes.Node.VerifySignature | blockchain/transaction.go:148-157 | Accepts exactly a hexadecimal signature whose recovered address is the sender's, over sender, receiver, value and nonce |
| Nodes.Node.ValidateTransactions | blockchain/block.go:188-196 | The loop's verdict and the accounts it leaves are those of checking one transaction after the other up to the first failure |
| Nodes.Node.ValidateReceivedBlock | blockchain/block.go:149-199 | Accepts exactly a block that follows the last one, carries its own hash and Merkle root and whose transactions all pass; nothing is written when the header is refused |
| Nodes.Node.ProcessBlock | blockchain/blockchain.go:116-159 | An accepted block is rewarded, stored, executed and cleaned out of the mempool; a refused one changes no balance, block or queue |
| Nodes.Node.Tick | blockchain/blockchain.go:186-248 | A tick promotes; with five pending it extracts, creates, stores, executes and rewards, in some order of the accounts |
| Mempools.Mempool.AddTransaction | blockchain/mempool.go:27-92 | The outcome is classified by duplicates and by the highest of snapshot nonce and pending nonces; the new state is exactly the old one with the transaction filed, or with empty queues opened when refused |
| Mempools.FindHighest | blockchain/mempool.go:66-71 | One pass in any order finds the largest of the nonces and the starting value |
| Mempools.SortNonces | blockchain/mempool.go:260-264 | The nonces of a map, strictly ascending, each once |
| Mempools.MoveRun | blockchain/mempool.go:217-227 | Exactly the maximal run above a nonce moves from future to pending, and the loop terminates |
| Mempools.Promote | blockchain/mempool.go:209-227 | The run moved starts above the highest pending nonce, or above 0 when nothing is pending |
| Mempools.Mempool.PromoteAccount | blockchain/mempool.go:201-233 | One account is promoted; its future queue disappears when it is empty, other accounts are untouched |
| Mempools.Mempool.SyncFutureToPending | blockchain/mempool.go:191-234 | Every account with a future queue is promoted once, in whatever order they come |
| Mempools.Mempool.CountPending | blockchain/blockchain.go:192-195 | Counting account by account gives the number of pending transactions |
| Mempools.Mempool.ListAccounts | blockchain/mempool.go:241-244 | Every pending account once, in an arbitrary order |
| Mempools.Mempool.VisitAccount | blockchain/mempool.go:253-275 | A visit takes one transaction or finds the account empty; taken and pending together stay as many |
| Mempools.Mempool.ExtractRound | blockchain/mempool.go:246-281 | A round visits the accounts in order until the block is full; one that takes nothing has found every account empty |
| Mempools.Mempool.ExtractTransactionsForBlock | blockchain/mempool.go:237-286 | For every limit the loops end with a round-robin extraction of exactly the smaller of limit and total; future is untouched |
| Mempools.SelectRun | blockchain/mempool.go:144-151 | Exactly the maximal run above a nonce is selected, in order, and removed |
| Mempools.Mempool.SelectTransactionsForBlock | blockchain/mempool.go:132-154 | The selected run leaves its account's pending queue and nothing else changes |
| Mempools.Mempool.CleanMempoolAfterReceiveBlock | blockchain/mempool.go:289-317 | Every nonce the block used leaves both queues of its sender, emptied senders disappear, all else stays |
| Ledger.AccountStore.ExecuteTransactions | blockchain/transaction.go:184-252 | The loop executes up to the first transaction with a missing account or too little balance, keeps what came before, and reports success exactly when it reached the end |
| Ledger.Execute | blockchain/transaction.go:190-218 | No account appears or disappears, and where execution stops short the next transaction could not be executed |
| Ledger.AccountStore.RewardToMiner | blockchain/block.go:202-244 | A valid miner address gains 1000, its account being opened if needed; any other changes nothing and fails |
| Ledger.AccountStore.CheckAccountState | account/account.go:197-239 | Refuses for a missing sender, too little balance or a nonce below the account's, in this order, without a trace; passing opens the receiver's account |
| Blocks.ValidateTransactionFields | blockchain/transaction.go:65-94 | Accepts exactly non-empty fields, a value from 1 to 2^63-1 and two addresses |
| Blocks.BlockStore.ValidateBlockWithPrevBlock | blockchain/block.go:27-57 | Accepts exactly a block that is strictly later than the last one and names its hash as parent |
| Blocks.BlockStore.CreateNewBlock | blockchain/block.go:91-146 | A block on top of the last one, or none when there is no last block, no transaction or a malformed transaction hash |

The reads and writes of single entries in the account store and the block store, the empty
constructor of the mempool and the smallest loop bodies have no row.

## Left out

- Sockets, node discovery, RPC, the mediator's channels, command line and logging: messages are events of the model; who receives them is part of the run.
- Keccak-256, ECDSA recovery and JSON: parameters of the environment, see above. A message that does not parse is no event.
- LevelDB and its I/O errors: maps; writes succeed and batches are atomic.
- Data races between the creator's and the processor's goroutines: steps are atomic.
- NetworkAgrees: competing blocks are left out, since makers are assumed to have seen every block made; no two branches ever come together again, as `History.ForkIsForEver` shows. Blocks that no node has made are left out too.
- NetStep: like NetworkAgrees.
- Machine integers: nonces, numbers and timestamps are unbounded naturals, so wrap-around at 2^64 is not modelled; balances and values are integers, as `big.Int` is. A transaction without a value is not modelled; the field check would refuse it.
- Sharing of backing arrays by Go slices and of nested maps by reference: the Merkle loop's slices and each account's queue are values that are written back.
- GetPendingTransactions, PromoteFutureToPending and CleanMempool: never called, and the last two depend on map order or are trivial.
- Account generation, key loading and signing; PublicKeyToAddress is part of the recovery predicate.
- The test for an empty extraction (`blockchain/blockchain.go:207`) cannot be true after the count before it and is not part of the tick.
- Splitting of loops: ReadHashes, ParentLevel, FindHighest, SortNonces, MoveRun, Promote, SelectRun, RemoveUsed, PromoteAccount, ListAccounts, TakeLowest, VisitAccount, ExtractRound, CollectHashes, CheckTransaction and ValidateTransactions are bodies of loops or shared passages of the source, given names of their own. The sort of the nonces is an insertion sort.
- Merkle.BuildMerkleTree: error texts and the index in them are not modelled, only that it fails.
- Nonces.ChainCarriesNonces: full execution, no transfers to the own sender and peers' blocks that follow on are hypotheses, because validation only asks for a nonce not below the account's (`account/account.go:222`) and looks at each transaction alone.
- Injectivity of the text that is signed: it does not hold, since value and nonce are printed next to each other (`blockchain/transaction.go:148`); `Formats.MessageBinds` says exactly when two payments share a text, `Formats.OneTextTwoPayments` has two that do.
