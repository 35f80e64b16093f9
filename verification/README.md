# Parallelcoin block chain model

A Dafny model of the block chain core of parallelcoin (Go): the unspent-output ledger and its database, block
validation, reorganisation, the storage formats, the chain view, scalar multiplication, the concurrent script
validator, and the smaller algorithms around them. Code that changes state in place is modelled by classes,
arrays and loops with contracts; each contract ties the new state to a specification function, and lemmas prove
what the code promises about that function.

## How it is organised

| file | part of the system |
|---|---|
| `Wire.dfy` | transactions, blocks, outpoints, 64-bit arithmetic |
| `Ledger.dfy`, `Legacy.dfy` | the unspent set as a value: applying and undoing blocks, the spend journal; journal records without a height |
| `UtxoView.dfy`, `Fetch.dfy`, `Viewpoint.dfy` | the write-back overlay as a value and as an object: connect, disconnect, commit, fetch |
| `Money.dfy`, `Validate.dfy`, `BlockScripts.dfy` | value conservation; sanity, input and block checks; the list of scripts |
| `DryRun.dfy`, `ForwardReference.dfy` | which blocks a used view lets through and which of them connect; a block that passes and should not |
| `Origin.dfy` | where the coins of a chain come from, and when they can be spent |
| `Chain.dfy`, `BlockTree.dfy`, `BlockChain.dfy` | the database as the replay of the best chain; the block tree; connect, disconnect, reorganise |
| `Vlq.dfy`, `Amount.dfy`, `ScriptCodec.dfy`, `ChainIo.dfy`, `Storage.dfy` | the stored formats, and the records of a valid chain |
| `Formats.dfy`, `Truncation.dfy` | the documented examples byte by byte; records that are cut short |
| `ChainView.dfy`, `Logarithm.dfy`, `NodeIndex.dfy` | the height-indexed view, forks, locators; the view and the chain state |
| `Radix.dfy`, `Naf.dfy`, `Group.dfy`, `ScalarMult.dfy`, `Endomorphism.dfy` | digits, recoding, and multiples in an abelian group |
| `ScriptVal.dfy` | dispatcher and workers as interleaved steps |
| `Merkle.dfy`, `Base58.dfy`, `Bits.dfy`, `Difficulty.dfy`, `Halcyon.dfy`, `Orphans.dfy`, `Upgrade.dfy` | the remaining algorithms |

## Assumptions

- Transaction ids are fresh on the chain a block is connected to. The code has no check for this: the one for
  the rule of BIP 30 is commented out (`pkg/blockchain/validate.go:100-117`). `Ledger.UndoExactIff` says exactly
  when undoing a block is still exact, and `Ledger.OverwriteWitness` shows that it can fail.
- Script verdicts, signature-operation costs, the subsidy, sizes and `IsUnspendable` are parameters: the results
  hold for every choice. Script execution and key parsing are not modelled; a valid uncompressed key is assumed to
  be recovered from the oddness of Y and the X coordinate.
- Curve points are elements of an arbitrary abelian group with an endomorphism. The base-point table is assumed to
  hold the multiples it stands for.
- Journal records in the first format, which have no height, are modelled; no record this code writes is one
  (`Ledger.JournalHeightsPositive`).

Places where the code differs from its own comments, and the model follows the code:

- The check phase of a reorganisation is said to catch every failure before the chain is modified
  (`pkg/blockchain/chain.go:814-821`). Nothing looks at the order of the transactions of a block, and on a view that knows
  the detached blocks an input may find an output of a later transaction. `ForwardReference` has such a block;
  `DryRun.PassesIff` says on which views a block passes, and `BlockChain.BlockChain.ReorganizeChain` what follows: it stops
  in the middle exactly when a block that passed refers forward, with that block's parent as the tip. The block keeps its
  valid mark. The database is the replay of the best chain in every outcome.
- `commit` toggles the modified flag, so clean entries are written again, unchanged, by the next flush
  (`BlockChain.CleanIsRewritten`). The view invariant is therefore that entries not marked modified agree with the
  database, and marked ones may too.
- `getReorganizeNodes` is documented to return empty lists for a node that is not on a side chain. For a node of the
  main chain below the tip it returns the nodes above it to detach (`BlockChain.BlockChain.MainNodeDetaches`), and the
  reorganisation then ends at that node.
- The key encoding is said to keep outputs in order under byte-wise comparison. `ChainIo.KeyOrderIff` shows that it
  does so for indexes below 16512 only; the lookup by hash only needs index zero to come first, which always holds.
- A journal record without a height is said to be completed from the other outputs of the transaction that was spent.
  The search runs under the id of the transaction that spends. `Legacy.LegacyExactIff` says when that is good enough:
  for coins of the same block only.
- The table of compressed amounts (`pkg/blockchain/compress.go:77-86`) has 47 for 50000000. Its own formula and the code
  give 48 (`Formats.AmountExamples`).
- Decoding is said to fail where the data ends early. A journal record cut right after the first byte of its script size
  decodes without an error, to an output with an empty script, exactly when that byte is 0x85 (`Truncation.RecordCut`).
- The square root of `pkg/ecc/gensecp256k1.go:92` is said to be computed for the given integer. For one less than a
  square it is not: the iteration alternates between two values for ever (`Endomorphism.SqrtStopsIff`).

## Model

| member | source | states |
|---|---|---|
| Ledger.UndoExactIff | pkg/blockchain/utxoviewpoint.go:269-372 | undoing a block with its own journal gives back the old unspent set, coinbase flags and heights included, if and only if no transaction overwrote a coin that was still unspent |
| Ledger.UndoRestores | pkg/blockchain/utxoviewpoint.go:296-372 | every partial undo, from the last transaction down, restores the set before the first k transactions |
| Ledger.OverwriteIsLost | pkg/blockchain/validate.go:100-117 | when some transaction overwrites an unspent coin, the undo does not restore the set (what the disabled duplicate-id check would rule out) |
| Ledger.OverwriteWitness | pkg/blockchain/validate.go:100-117 | a concrete block that repeats the id of an unspent output: connecting and undoing it loses that output |
| Ledger.FreshNeverOverwrites | pkg/blockchain/validate.go:100-117 | fresh, distinct transaction ids are enough for the undo to be exact |
| Ledger.AvailableIsEarlier | pkg/blockchain/utxoviewpoint.go:448-482 | an input that is available names an old coin or an output of an earlier transaction of the block, never a later one |
| Ledger.JournalIsJournal | pkg/blockchain/utxoviewpoint.go:200-222 | the records of transaction i sit at a fixed place of the journal, in spend order, whatever the block spends of its own outputs |
| Ledger.JournalHeightsPositive | pkg/blockchain/utxoviewpoint.go:341-356 | no journal record of a block above genesis has height zero, so the search for legacy records is never entered |
| UtxoView.ConnectDenotes | pkg/blockchain/utxoviewpoint.go:231-241 | connecting a block on the overlay denotes applying it to the unspent set, emits exactly its journal and finds every input, even after pending outputs were pre-added |
| UtxoView.DisconnectDenotes | pkg/blockchain/utxoviewpoint.go:269-372 | disconnecting on the overlay with that journal denotes the unspent set before the block if and only if no unspent coin was overwritten, with or without outputs of the block added early |
| UtxoView.CommitDenotes | pkg/blockchain/utxoviewpoint.go:386-397 | after the flush the toggled and dropped entries agree with the database and denote the same set |
| Viewpoint.UtxoViewpoint.AddTxOuts | pkg/blockchain/utxoviewpoint.go:127-176 | the entries after the loop are the spendable outputs of the transaction, marked modified, over the old ones |
| Viewpoint.UtxoViewpoint.ConnectTransaction | pkg/blockchain/utxoviewpoint.go:187-226 | spends the inputs, records what they were, adds the outputs; otherwise it names the first missing input and exactly the inputs before it are spent and recorded |
| Viewpoint.UtxoViewpoint.ConnectTransactions | pkg/blockchain/utxoviewpoint.go:231-241 | the block as a whole: success exactly when every input is present, the journal in order, the best hash moved; otherwise everything before the first missing input is spent and recorded, and nothing after it |
| Origin.CoinOrigin | pkg/blockchain/utxoviewpoint.go:127-176 | an output is in the unspent set after n blocks if and only if some transaction of an earlier block made it and none named it since; the coin has the amount and script of that output, the height of that block, and the coinbase flag exactly when that transaction is a coinbase |
| Origin.SpendsMature | pkg/blockchain/validate.go:767-782 | in a chain whose blocks satisfy the rules, what a transaction spends was made before it, not spent since, and at least maturity blocks earlier if a coinbase made it |
| Origin.NoImmatureSpend | pkg/blockchain/validate.go:767-782 | with distinct ids no transaction of block n names an output of the coinbase of block i when n - i is below the maturity |
| BlockChain.BlockChain.CoinsHaveOrigin | pkg/blockchain/utxoviewpoint.go:127-176 | so for the database of every reachable chain state |
| BlockChain.BlockChain.SpendsAreMature | pkg/blockchain/validate.go:767-782 | so for every spend on the best chain of every reachable state |
| Ledger.JournalInOrder | pkg/blockchain/utxoviewpoint.go:200-222 | the journal lists the coins of all spent inputs transaction by transaction and input by input, each as it was when it was spent |
| Viewpoint.UtxoViewpoint.DisconnectTransactions | pkg/blockchain/utxoviewpoint.go:269-372 | refused, with nothing changed, exactly when the number of records differs from the number of inputs; otherwise the exact new view, with records of the first format completed by the search under the spender's id, and where that search fails the exact state in which it stops |
| Viewpoint.UtxoViewpoint.FetchEntryByHash | pkg/blockchain/utxoviewpoint.go:245-262 | the loop over all possible indexes finds the first entry of the transaction in the view, and otherwise what the database search finds |
| Legacy.LegacyExactIff | pkg/blockchain/utxoviewpoint.go:321-364 | a journal with records that lack the height undoes its block if and only if each such record is of a coin the block itself made, in a transaction with a spendable output; the undo stops exactly when such a transaction has none |
| Legacy.TipUndoneIff | pkg/blockchain/chain.go:777-803 | the same for the sequence that a reorganisation starts with: new view, fetch, disconnect on the flushed database |
| Legacy.UndoneComplete | pkg/blockchain/utxoviewpoint.go:341-356 | without such records nothing is looked up and the undo never stops |
| ForwardReference.LegacyRecordLost | pkg/blockchain/utxoviewpoint.go:329-356 | a concrete block whose one record lacks its height: the undo finishes and leaves the coin with a wrong height |
| Viewpoint.UtxoViewpoint.Commit | pkg/blockchain/utxoviewpoint.go:386-397 | drops nil and modified spent entries; every other entry keeps coin and spent flag and has its modified flag toggled |
| Viewpoint.UtxoViewpoint.FetchUtxosMain | pkg/blockchain/utxoviewpoint.go:401-421 | every requested entry becomes what the database has, unspent and not modified, or nil when it has none; all others stay |
| Viewpoint.UtxoViewpoint.FetchInputUtxos | pkg/blockchain/utxoviewpoint.go:448-484 | on any view and any sane block, forward references included, the exact new entries: which outputs are added early, which inputs are looked up, and that everything else stays |
| Fetch.ForwardAnsweredIff | pkg/blockchain/utxoviewpoint.go:448-484 | a forward reference is answered by the fetched view if and only if the view already had a key for it and a later input made its transaction's outputs be added |
| Fetch.ForwardNeverConnects | pkg/blockchain/utxoviewpoint.go:187-241 | a forward reference without such a key and not in the database ends as a nil entry, and the block cannot be connected |
| Fetch.FetchSuffices | pkg/blockchain/utxoviewpoint.go:448-484 | afterwards every input is in the view or provided by the block; the denoted set changed at most at the block's own outputs |
| Viewpoint.CountSpentOutputs | pkg/blockchain/chain.go:699-706 | the number of inputs after the coinbase is the number of journal records |
| BlockChain.PutUtxoView | pkg/blockchain/chainio.go:665-696 | writing the modified entries turns the database into exactly what the view denotes, in any iteration order |
| BlockChain.CleanIsRewritten | pkg/blockchain/utxoviewpoint.go:386-397 | an entry that was not modified is marked modified by the flush, and the next flush writes the same coin again |
| Money.BlockConservesMoney | pkg/blockchain/validate.go:171-213 | connecting a valid block raises the total unspent value by at most the subsidy |
| Money.TotalAfterTxs | pkg/blockchain/validate.go:171-213 | after k transactions the total is at most the old total minus the fees paid plus the coinbase outputs |
| Money.FeeIsWhatIsLeft | pkg/blockchain/validate.go:817-843 | a transaction that overwrites nothing and whose outputs can all be spent takes exactly its fee out of circulation, and a coinbase puts exactly its outputs in |
| Money.FeesLeave | pkg/blockchain/validate.go:171-213 | so over the first k transactions of a block: the total changes by exactly the coinbase outputs less the sum of the fees |
| Chain.SupplyBound | pkg/blockchain/validate.go:171-213 | over any run of blocks that pay no more than the rules allow, fresh ids or not, the money in existence is at most the sum of the subsidies |
| BlockChain.BlockChain.MoneyBound | pkg/blockchain/validate.go:171-213 | the same for the database of every reachable chain state |
| Validate.CheckTransactionSanity | pkg/blockchain/validate.go:847-931 | passes exactly the transactions that satisfy the rules in exact arithmetic, and names the first rule broken in the order of the source; no 64-bit wrap-around is ever mistaken for a good sum |
| Validate.CheckOutputs | pkg/blockchain/validate.go:873-905 | the guarded running sum of outputs accepts exactly the lists in range with total in range |
| Validate.CheckDuplicateInputs | pkg/blockchain/validate.go:906-914 | accepts exactly the lists of distinct outpoints |
| Validate.CheckTransactionInputs | pkg/blockchain/validate.go:744-843 | accepts exactly when every input is present, unspent, mature and in range, sums stay in range and inputs cover outputs; the fee is the exact difference. At the first wrong input: MissingTxOut iff it is absent, ImmatureSpend iff present and not mature, BadTxOutValue iff mature and its amount or the sum up to it out of range; SpendTooHigh iff all inputs pass and the outputs exceed them |
| Validate.CheckConnectBlock | pkg/blockchain/validate.go:75-366 | on any view that stands for the set: accepts exactly the blocks that satisfy every rule on that set with the outputs added early, which is the set itself unless such an output is exposed; a refusal has the reason of the first rule broken; on success the view stands for the set after the block, with the journal |
| Validate.RefusedBecause | pkg/blockchain/validate.go:75-366 | when each verdict of a block is the one returned: signature operations first, then the first transaction with wrong inputs or an overflow of the fees, then the coinbase value, then the scripts |
| Validate.SameRefusal | pkg/blockchain/validate.go:75-366 | on a used view none of whose early outputs is exposed, a block is refused for the reason it is refused for by the rules |
| Validate.VerdictRightIff | pkg/blockchain/validate.go:75-366 | on a used view no acceptable block is refused, and a block that passes is acceptable if and only if none of its early outputs is exposed |
| Validate.ForwardRefused | pkg/blockchain/validate.go:744-843 | by the rules no block with a forward reference is acceptable, whatever the set |
| ForwardReference.AcceptedWrongly | pkg/blockchain/validate.go:1288-1300 | a concrete block whose transactions have distinct ids and are out of order: on a view with a key for the output it passes although it breaks the rules, and makes five units more than the subsidy |
| ForwardReference.DryRunDiffers | pkg/blockchain/chain.go:714-935 | the same block as a replacement, through the code's own steps: the dry run passes, and the real run on the flushed view misses an input |
| DryRun.PassesIff | pkg/blockchain/validate.go:75-366 | a block passes on a view if and only if it passes on some view of the same set and the view has a key for each of its forward references |
| DryRun.AcceptsIff | pkg/blockchain/validate.go:75-366 | by the rules a block is acceptable if and only if it passes on some view and refers to nothing forward |
| DryRun.FetchedConnects | pkg/blockchain/chain.go:837-850 | connected without the check, such a block finds all inputs if and only if the view has keys for its forward references; then the view stands for the set with the block |
| DryRun.MissingIsForward | pkg/blockchain/utxoviewpoint.go:187-241 | the input at which it stops is a forward reference without a key |
| DryRun.RealRunMisses | pkg/blockchain/chain.go:902-926 | on a flushed view no block with a forward reference connects, whatever a check said |
| DryRun.DryIsRealIff | pkg/blockchain/chain.go:808-926 | a block that passed a check on given keys connects on a flushed view if and only if nothing was exposed |
| Fetch.ConnectKeysAre | pkg/blockchain/utxoviewpoint.go:187-241 | after fetching and connecting, the keys are the old ones and those of everything the block names or creates |
| Fetch.DisconnectKeysAre | pkg/blockchain/utxoviewpoint.go:269-372 | the same after fetching and disconnecting |
| BlockScripts.CollectItems | pkg/blockchain/scriptval.go:236-280 | the list has one item for each input of the block, in order, without those that name the index of a coinbase |
| BlockScripts.ItemsSorted | pkg/blockchain/scriptval.go:236-280 | the items are strictly in the order of transaction and input, so none is listed twice |
| BlockScripts.ItemsAreSpends | pkg/blockchain/scriptval.go:262-279 | of a block that spends available coins these are exactly the inputs it spends |
| BlockScripts.ScriptVerdict | pkg/blockchain/scriptval.go:236-286 | whatever the interleaving of the workers, the finished validator returns nil if and only if the script rule of the block holds |
| Validate.AcceptedIsValid | pkg/blockchain/validate.go:75-366 | an accepted sane block is one that conserves money |
| Chain.DisconnectUndoesConnect | pkg/blockchain/chain.go:595-696 | removing the last block from the replayed database gives the database of the shorter chain: set, journal, both buckets, count and tip |
| Chain.IndexBucketsInverse | pkg/blockchain/chainio.go:712-741 | the hash and height buckets are inverse to each other and list exactly the chain |
| Chain.JournalHoldsEveryBlock | pkg/blockchain/chainio.go:414-425 | the journal entry of each block is what it spent on the state below it |
| Chain.JournalHoldsOnlyBlocks | pkg/blockchain/chainio.go:414-425 | the journal holds no entry of any other block |
| Chain.ReplayLocal | pkg/blockchain/chain.go:469-591 | the database after n blocks depends on those n blocks only |
| Chain.CountsAllTxs | pkg/blockchain/chain.go:469-591 | the transaction count of a state is the number of transactions of all its blocks |
| Chain.ConstantSubsidy | pkg/blockchain/validate.go:171-213 | with a constant subsidy the bound is the number of blocks above genesis times it |
| Chain.PrefixOk | pkg/blockchain/chain.go:595-696 | every prefix of a valid chain is a valid chain with the same replay |
| Chain.AppendOk | pkg/blockchain/chain.go:469-591 | appending a connectable block keeps the chain valid and replays as one more connection |
| BlockTree.PathPrefix | pkg/blockchain/blockindex.go:132-141 | cutting the path of a block short gives the path of the block it then ends in |
| BlockTree.PathStable | pkg/blockchain/blockindex.go:222-234 | storing another block changes no path |
| BlockTree.JournalOnPath | pkg/blockchain/chainio.go:389-409 | the replayed journal of a tip has, for each block below it, what that block spent |
| BlockChain.BlockChain.constructor | pkg/blockchain/chainio.go:869-962 | the initial state is the replay of the genesis block alone |
| BlockChain.BlockChain.StoreBlock | pkg/blockchain/blockindex.go:222-234 | a stored block starts without status and disturbs nothing |
| BlockChain.BlockChain.SetStatusFlags | pkg/blockchain/blockindex.go:246-251 | turns on the given fields of one status and none off, and touches no other node; a node is only marked valid when its block passes the check on some view |
| BlockChain.RefusalMarks | pkg/blockchain/chain.go:837-870 | when the node at a position fails: that node has failed set, every node above it the invalid-ancestor mark, the nodes before it gain the valid mark only, and no other node changes |
| BlockChain.ValidatedMarks | pkg/blockchain/chain.go:837-850 | passing nodes gain the valid mark and nothing else |
| BlockChain.BranchInvalidMeans | pkg/blockchain/chain.go:412-444 | a branch is given up if and only if its parent or one of its nodes has failed or has an invalid ancestor |
| BlockChain.TaintedFromMarks | pkg/blockchain/chain.go:412-444 | what is then marked, field by field: the node itself below an invalid parent, otherwise exactly the nodes above the last flagged one |
| BlockChain.RefusedStaysOut | pkg/blockchain/chain.go:412-444 | after a refusal every branch through the node that failed is invalid |
| BlockChain.BlockChain.ConnectBlock | pkg/blockchain/chain.go:469-591 | refused exactly when the block does not extend the tip; otherwise the database is the replay of the longer chain |
| BlockChain.BlockChain.DisconnectBlock | pkg/blockchain/chain.go:595-696 | refused exactly when the block is not the tip; otherwise the database is the replay of the shorter chain |
| BlockChain.BlockChain.BucketsAgreeWithBest | pkg/blockchain/chainio.go:712-741 | in every reachable state both index buckets list exactly the in-memory best chain |
| BlockChain.BlockChain.CheckDetach | pkg/blockchain/chain.go:753-795 | the first half of the dry run: one view, no flush, ends at the fork point's state with the journals cached |
| BlockChain.BlockChain.CheckAttach | pkg/blockchain/chain.go:808-870 | the second half: a node passes if and only if it is marked valid or passes on some view, and every forward reference of it is named or created by an earlier block of the lists; statuses and position exact in all three outcomes |
| BlockChain.BlockChain.CommitDetach | pkg/blockchain/chain.go:876-901 | the real run takes the same blocks off with the cached journals |
| BlockChain.BlockChain.CommitAttach | pkg/blockchain/chain.go:902-926 | the real run connects the checked blocks up to the first that refers forward, and completes if and only if none does |
| BlockChain.BlockChain.ReorganizeChain | pkg/blockchain/chain.go:714-935 | refused lists change nothing; a block that fails the check phase leaves database, best chain and counts untouched, with exact marks and the reason of the rule broken; when all pass, it completes if and only if no block refers forward, and otherwise ends at the parent of the first that does; the database is the replay of the best chain in every outcome |
| BlockChain.CompletesIff | pkg/blockchain/chain.go:808-926 | once the check phase passes, the commit phase completes if and only if no attached block has a forward reference that the dry run knew and added; it stops at the first that has |
| BlockChain.BlockChain.NodesToDetach | pkg/blockchain/chain.go:445-450 | the nodes from the tip down to the fork point, in order |
| BlockChain.BlockChain.GetReorganizeNodes | pkg/blockchain/chain.go:412-452 | the lists lead from the tip to the node by way of the fork point and no attached node has failed or has an invalid ancestor; or they are empty and exactly the nodes above the last one with such a mark are marked |
| BlockChain.BlockChain.MainNodeDetaches | pkg/blockchain/chain.go:411-452 | for a node of the main chain below the tip the detach list starts at the tip and is not empty |
| BlockChain.BlockChain.SwitchTo | pkg/blockchain/chain.go:1048-1062 | a branch with a node that has failed or has an invalid ancestor changes marks only; otherwise it makes the node the tip if and only if every block of the branch passes the check phase and none refers forward, with the exact marks and reason of a refusal, and the exact tip when it stops in between |
| BlockChain.BlockChain.ExtendBestChain | pkg/blockchain/chain.go:966-1018 | extends the chain if and only if the block satisfies every rule, or the node is marked valid and its block refers to nothing forward; otherwise at most the node's failed mark changes, and the reason is that of the rule broken |
| BlockChain.NotYetValidated | pkg/blockchain/chain.go:808-870 | marking earlier attach nodes valid never changes the status a later node is checked with |
| NodeIndex.SlotsAreBest | pkg/blockchain/chainview.go:93-123 | a chain view with the best block as its tip holds the best chain of the chain state, slot by slot |
| NodeIndex.ChainIsShown | pkg/blockchain/chainview.go:93-123 | so in every valid chain state |
| NodeIndex.ShowsIsOnBest | pkg/blockchain/chainview.go:184-186 | the view contains a node exactly when the chain state has its block on the best chain |
| NodeIndex.FindForkAgrees | pkg/blockchain/chain.go:412-452 | the fork point found by the view is the one the reorganisation lists lead to |
| Storage.StoredJournalReadsBack | pkg/blockchain/chainio.go:389-425 | for every block of a valid chain the stored journal entry decodes to exactly what the block spent |
| Storage.StoredCoinsReadBack | pkg/blockchain/chainio.go:537-593 | every unspent coin of a valid chain decodes from its stored bytes to itself |
| Storage.FindStored | pkg/blockchain/chainio.go:598-618 | on a bucket that keeps the unspent set, the search of the bytes by hash finds a coin of the transaction if and only if the set has one, and decodes it |
| Storage.ChainCoinsFit | pkg/blockchain/chainio.go:227-247 | no coin of a valid chain is outside what the formats keep exactly |
| Vlq.RoundTrip | pkg/blockchain/compress.go:316-328 | decoding inverts encoding on every 64-bit number with any bytes following, and reads exactly the bytes written |
| Vlq.PrefixFree | pkg/blockchain/compress.go:438-457 | no code is a prefix of another |
| Vlq.CodesAreExactly | pkg/blockchain/compress.go:459-492 | the codes are exactly the byte strings with the high bit on all bytes but the last, one for each number |
| Vlq.SerializeSizeVLQ | pkg/blockchain/compress.go:496-502 | predicts the length of the code |
| Vlq.DeserializeVLQ | pkg/blockchain/compress.go:316-328 | the loop, with its 64-bit wrap-around, computes the reading function on any bytes |
| Vlq.PutVLQ | pkg/blockchain/compress.go:438-457 | writes the code in place, low group first and then reversed, and nothing else in the target |
| Vlq.ReverseRange | pkg/blockchain/compress.go:453-455 | the swap loop reverses the range and leaves the rest |
| Amount.DecompressCompress | pkg/blockchain/compress.go:276-312 | every amount is recovered |
| Amount.CompressDecompress | pkg/blockchain/compress.go:89-110 | every number is the compressed form of an amount |
| Amount.NoWrap | pkg/blockchain/compress.go:89-110 | the compressed form is at most nine times the amount plus one, so amounts up to the money limit never wrap in 64 bits |
| Amount.CompressTxOutAmount | pkg/blockchain/compress.go:89-110 | the loop computes the compression modulo 2^64 |
| Amount.DecompressTxOutAmount | pkg/blockchain/compress.go:276-312 | the loop computes the decompression modulo 2^64 |
| Amount.AmountFormula | pkg/blockchain/compress.go:62-71 | an amount (10 * n + d) * 10^e with e < 9 and 1 <= d <= 9 is 1 + 10 * (9 * n + d - 1) + e |
| Amount.RoundAmount | pkg/blockchain/compress.go:62-71 | an amount n * 10^9 is 10 + 10 * (n - 1) |
| Formats.AmountExamples | pkg/blockchain/compress.go:73-86 | the documented examples, with 48 where the table says 47 |
| Formats.NumberExamples | pkg/blockchain/compress.go:459-492 | the documented number codes |
| ScriptCodec.CompressedScriptSize | pkg/blockchain/compress.go:114-137 | predicts the bytes written |
| ScriptCodec.PutCompressedScript | pkg/blockchain/compress.go:388-423 | writes the compressed script in place and nothing else |
| ScriptCodec.PubKeyHashBytes | pkg/blockchain/compress.go:388-423 | 76 a9 14, 20 bytes, 88 ac is stored as 00 and the 20 bytes, and comes back |
| ScriptCodec.ScriptHashBytes | pkg/blockchain/compress.go:388-423 | a9 14, 20 bytes, 87 is stored as 01 and the 20 bytes, and comes back |
| ScriptCodec.CompressedKeyBytes | pkg/blockchain/compress.go:388-423 | a compressed key is stored as its 33 bytes, 02 or 03 first, and comes back |
| ScriptCodec.UncompressedKeyBytes | pkg/blockchain/compress.go:388-423 | an uncompressed key is stored as 04 or 05, by the oddness of Y, and X |
| ScriptCodec.FormsAre | pkg/blockchain/compress.go:335-385 | which scripts these are, byte by byte |
| ScriptCodec.OrdinaryBytes | pkg/blockchain/compress.go:419-423 | any other script is preceded by the number of its length plus six |
| ScriptCodec.OrdinaryBack | pkg/blockchain/compress.go:203-272 | bytes that start with a number x of at least six decompress to the x - 6 bytes after it |
| ScriptCodec.ScriptSizeExact | pkg/blockchain/compress.go:155-172 | measuring a compressed script gives the bytes written, whatever follows |
| ScriptCodec.ScriptRoundTrip | pkg/blockchain/compress.go:203-272 | every script is recovered, the special forms and the public keys included |
| ChainIo.CompressedTxOutSize | pkg/blockchain/compress.go:147-150 | predicts the bytes written |
| ChainIo.PutCompressedTxOut | pkg/blockchain/compress.go:429-433 | writes amount and script one after the other |
| ChainIo.TxOutRoundTrip | pkg/blockchain/compress.go:176-197 | amount and script are recovered, with any bytes following |
| ChainIo.SpentTxOutSerializeSize | pkg/blockchain/chainio.go:235-245 | predicts the bytes of a journal record |
| ChainIo.PutSpentTxOut | pkg/blockchain/chainio.go:251-263 | writes header, reserved byte and output |
| ChainIo.SpentRoundTrip | pkg/blockchain/chainio.go:267-308 | a journal record is recovered, with any bytes following |
| ChainIo.SerializeSpendJournalEntry | pkg/blockchain/chainio.go:364-382 | one buffer of exactly the predicted size, the last spent output first |
| ChainIo.JournalReversed | pkg/blockchain/chainio.go:364-382 | the entry of two lists of outputs, one after the other, is the entry of the second followed by that of the first |
| Formats.RecordOfBlockNine | pkg/blockchain/chainio.go:146-158 | the documented journal record |
| Formats.JournalOfTwo | pkg/blockchain/chainio.go:159-178 | the documented journal entry with two records, the last spent first |
| Truncation.RecordCut | pkg/blockchain/chainio.go:267-308 | a journal record cut after any number of bytes is refused with the error of the part that is missing, except after a first script-size byte 0x85: it then decodes with an empty script |
| Truncation.OutputCut | pkg/blockchain/compress.go:176-197 | the same for an output, which is what unspent entries end with |
| ChainIo.DeserializeSpendJournalEntry | pkg/blockchain/chainio.go:316-360 | the nested backward loops read the records in reverse and return them in spend order; errors as for the records |
| ChainIo.JournalRoundTrip | pkg/blockchain/chainio.go:316-382 | reading any part of a journal, at any offset and with any bytes following, gives the outputs in spend order |
| ChainIo.JournalEntryRoundTrip | pkg/blockchain/chainio.go:316-382 | a whole entry reads back for the transactions that spent it, the empty entry included |
| ChainIo.SerializeUtxoEntry | pkg/blockchain/chainio.go:537-558 | nothing for a spent entry, otherwise header and output |
| ChainIo.EntryRoundTrip | pkg/blockchain/chainio.go:562-593 | a stored unspent entry is recovered |
| Formats.EntryOfBlockOne | pkg/blockchain/chainio.go:446-457 | the documented entry of a coinbase |
| Formats.EntryForKeyHash | pkg/blockchain/chainio.go:458-470 | the documented entry for a public key hash |
| Formats.EntryForScriptHash | pkg/blockchain/chainio.go:471-484 | the documented entry for a script hash |
| ChainIo.KeyInjective | pkg/blockchain/chainio.go:504-513 | different outputs have different keys |
| ChainIo.ZeroIndexFirst | pkg/blockchain/chainio.go:598-603 | the key with index zero is a lower bound of all keys of its hash |
| ChainIo.OrderWithinLength | pkg/blockchain/compress.go:459-492 | among codes of one length the byte-wise order is the numeric order |
| ChainIo.OrderFails | pkg/blockchain/chainio.go:505-506 | across lengths it is not: 16511 sorts after 16512, against the comment |
| ChainIo.KeyOrderIff | pkg/blockchain/chainio.go:503-513 | the keys of a transaction's outputs are in the order of the indexes if and only if all indexes are below 16512 |
| ChainIo.Sandwich | pkg/blockchain/chainio.go:608-616 | what lies between two keys of one hash carries that hash |
| ChainIo.FetchUtxoEntryByHash | pkg/blockchain/chainio.go:598-618 | the seek finds an entry of the hash if and only if the bucket has one |
| Naf.NAF | pkg/ecc/btcec.go:684-744 | the difference of the two byte strings is the number; digits are disjoint and no two neighbours are nonzero; one byte longer only for a final carry |
| Naf.RecodeByte | pkg/ecc/btcec.go:702-738 | one byte: digits plus carry equal byte plus carry, sparse, and sparse across the borders |
| ScalarMult.SplitCongruent | pkg/ecc/btcec.go:632-664 | k1 + k2 * lambda is congruent to k modulo the order, whatever the quotients |
| ScalarMult.SplitBalanced | pkg/ecc/btcec.go:624-631 | when the vectors span a lattice of index N both halves are as short as the vectors |
| ScalarMult.Secp256k1Ok | pkg/ecc/btcec.go:880-909 | the hard-coded constants satisfy both congruences and have determinant N |
| ScalarMult.SplitK | pkg/ecc/btcec.go:632-664 | the two signed byte strings recombine to the scalar modulo the order |
| ScalarMult.ModuloReduce | pkg/ecc/btcec.go:669-678 | a long scalar is reduced modulo the order, a short one is left alone |
| ScalarMult.AddBytes | pkg/ecc/btcec.go:805-831 | eight doublings with digit additions multiply by 256 and add both byte differences |
| ScalarMult.AddAll | pkg/ecc/btcec.go:778-832 | the padded loop is the joint left-to-right evaluation of both recoded scalars |
| ScalarMult.ScalarMult | pkg/ecc/btcec.go:749-834 | k times the point, for every byte string, in any abelian group where N * P = 0 and phi(P) = lambda * P |
| ScalarMult.ScalarBaseMult | pkg/ecc/btcec.go:840-854 | k times the base point from the byte table |
| Endomorphism.EndomorphismVectors | pkg/ecc/gensecp256k1.go:124-204 | terminates when N + 1 is no square; both vectors orthogonal to (1, lambda) modulo N; the first short, the second the one of its two neighbours in Euclid's sequence with the smaller norm; determinant plus or minus N exactly when lambda mod N reaches the square root of N and no number from there up divides both, otherwise zero |
| Endomorphism.Sqrt | pkg/ecc/gensecp256k1.go:92-115 | when N + 1 is no square, Newton's iteration ends with the integer square root |
| Endomorphism.SqrtStopsIff | pkg/ecc/gensecp256k1.go:101-114 | from any first guess the iteration ends if and only if N + 1 is no square |
| Endomorphism.SqrtDiverges | pkg/ecc/gensecp256k1.go:101-114 | for 3, 8 and 15 it never ends |
| Endomorphism.Secp256k1Stops | pkg/ecc/btcec.go:880-909 | the order of the curve is not one below a square |
| ScriptVal.StepInv | pkg/blockchain/scriptval.go:42-171 | every step of every worker and of the dispatcher keeps the bookkeeping: no item lost, shared or checked twice |
| ScriptVal.NilMeansAllPassed | pkg/blockchain/scriptval.go:120-171 | a nil result means every item was checked exactly once and passed |
| ScriptVal.NoDeadlock | pkg/blockchain/scriptval.go:120-171 | before it returns, and until all workers have left, some step is possible |
| ScriptVal.RunsEnd | pkg/blockchain/scriptval.go:42-171 | no interleaving is longer than a bound fixed by the start state |
| ScriptVal.EveryInterleaving | pkg/blockchain/scriptval.go:42-171 | all of it for every interleaving: ends within 4n + workers + 1 steps, all workers gone, nil exactly when no item fails |
| ChainView.BlockNode.Ancestor | pkg/blockchain/blockindex.go:132-141 | the walk gives the ancestor at that height, nil out of range |
| ChainView.AncestorOfAncestor | pkg/blockchain/blockindex.go:132-141 | an ancestor's ancestor is the node's own |
| ChainView.View.SetTip | pkg/blockchain/chainview.go:93-123 | after growing, shrinking, switching branch, reallocating or reusing stale slots, slot h is the tip's ancestor at height h |
| ChainView.View.Resize | pkg/blockchain/chainview.go:103-117 | keeps the old slots and clears the new ones, in either array |
| ChainView.View.Equals | pkg/blockchain/chainview.go:172-180 | equal exactly when the tips are, and then all slots are |
| ChainView.View.Contains | pkg/blockchain/chainview.go:184-186 | ancestor or equal of the tip |
| ChainView.View.Next | pkg/blockchain/chainview.go:203-208 | the child on the branch; nil exactly for the tip and for nodes off the branch |
| ChainView.View.FindFork | pkg/blockchain/chainview.go:232-258 | the highest common ancestor, nil exactly when there is none |
| ChainView.View.BlockLocator | pkg/blockchain/chainview.go:279-325 | exactly the hashes of the ancestors at the locator heights, whichever lookup is used |
| ChainView.LocatorDescends | pkg/blockchain/chainview.go:279-325 | the heights strictly decrease |
| ChainView.LocatorLength | pkg/blockchain/chainview.go:288-300 | exactly height + 1 entries up to height 12, otherwise 12 + floor(log2(height - 10)) |
| ChainView.LocatorEntry | pkg/blockchain/chainview.go:279-325 | entry i of a locator, in closed form: one step back for the first entries, then distances that double, genesis last |
| Logarithm.FastLog2Floor | pkg/blockchain/chainview.go:15-26 | the mask loop is floor(log2) on every 32-bit number |
| Logarithm.Log2Exact | pkg/blockchain/chainview.go:12-26 | the recursive logarithm is the exponent of the greatest power of two not above the number |
| ChainView.View.IntervalBlockHashes | pkg/blockchain/chain.go:1271-1299 | no header, not yet validated, or: entry i is the ancestor at (i + 1) * interval, and there are height / interval of them |
| ChainView.View.LocateInventory | pkg/blockchain/chain.go:1313-1353 | starts after the first known locator entry on the branch, or after genesis; the count respects stop hash and limit |
| ChainView.View.LocateBlocks | pkg/blockchain/chain.go:1360-1379 | the hashes of the consecutive branch nodes from there on |
| Merkle.NextPowerOfTwo | pkg/blockchain/merkle.go:37-45 | the mask test tells a power of two, and the result is the least one not below the number |
| Merkle.MaskedIff | pkg/blockchain/merkle.go:37-41 | a number and its predecessor share no bit if and only if the number is a power of two |
| Merkle.BuildMerkleTreeStore | pkg/blockchain/merkle.go:98-142 | the array holds every level one after the other, unfilled slots nil, the specified root last |
| Merkle.LevelsFollow | pkg/blockchain/merkle.go:120-139 | slots computed from their children are the level-by-level tree |
| Merkle.RootCommits | pkg/blockchain/merkle.go:98-142 | without collisions, lists of one length with the same root are equal |
| Merkle.LastHashTwice | pkg/blockchain/merkle.go:129-135 | lists of different length can share a root: an odd last hash is combined with itself |
| Merkle.CombinedHash | pkg/blockchain/merkle.go:98-142 | a single hash that is itself a combination has the root of the pair |
| Merkle.RootCommitsToList | pkg/blockchain/validate.go:1288-1300 | among lists without repetition, whose hashes are not themselves combinations, the root decides the whole list, length included |
| Merkle.SameRootIff | pkg/blockchain/merkle.go:98-142 | lists of hashes that are not combinations share a root if and only if they are the same once everything combined with itself is written twice |
| Base58.DecodeEncode | pkg/base58/base58.go:11-61 | every byte string is recovered, leading zeros included |
| Base58.EncodeDecode | pkg/base58/base58.go:11-61 | every text over the alphabet is recovered, any other text decodes to nothing |
| Base58.Decode | pkg/base58/base58.go:11-36 | the loop computes the base conversion |
| Base58.Encode | pkg/base58/base58.go:39-61 | the loops compute the base conversion with one letter per leading zero |
| Base58.TableInverts | pkg/base58/alphabet.go:9-46 | the table inverts the alphabet and accepts nothing else |
| Base58.EncodedValue | pkg/base58/base58.go:39-61 | the text stands for the same number in base 58 as the bytes in base 256, with one leading 1 for each leading zero byte and no more |
| Base58.PlaceValue | pkg/base58/base58.go:11-61 | the value of a digit string, place by place |
| Bits.CompactTruncates | pkg/bits/bits.go:24-79 | decoding the compact form clears the low bytes until 23 bits are left above them, if and only if the number is below 2^23 * 256^252, where the exponent still fits into its byte |
| Bits.CompactRounding | pkg/bits/bits.go:24-79 | rounds down by less than one part in 2^15, and a second rounding changes nothing |
| Bits.CompactMonotone | pkg/bits/bits.go:50-79 | keeps the order |
| Bits.CompactFormula | pkg/bits/bits.go:24-49 | a compact number stands for mantissa * 256^(exponent - 3), rounded toward zero for small exponents, negative under the sign bit |
| Bits.CompactIsShortest | pkg/bits/bits.go:50-79 | the mantissa of a positive number's compact form is from 0x8000 to 0x7fffff: the exponent is the least possible and the sign bit stays clear |
| Bits.DecodedKept | pkg/bits/bits.go:24-79 | what a 32-bit compact form decodes to comes back from its own compact form unchanged |
| Bits.NegativeRounding | pkg/bits/bits.go:50-79 | a negative number comes back within one part in 2^15 if and only if its size is at most (2^23 - 1) * 256^252 and rounding it up does not carry out of the three leading bytes |
| Bits.NegativeInRange | pkg/bits/bits.go:50-79 | in that range it comes back as zero if and only if the rounding carries out |
| Bits.NegativeLost | pkg/bits/bits.go:50-79 | one more than minus 2^32 is such a number |
| Difficulty.Retarget | pkg/blockchain/forkhalcyon.go:46-67 | two-sided, with the window of the fastest, the actual or the longest time as the span: the new target is the old one times the span over the averaging time, or the limit, less at most one part in 2^15 and the rounding of the division; a window of exactly the averaging time keeps the target |
| Difficulty.TwoSided | pkg/blockchain/forkhalcyon.go:46-67 | the bounds, for every span and limit |
| Difficulty.KeepsTarget | pkg/blockchain/forkhalcyon.go:49-67 | a window of exactly the averaging time gives the old target again, or the limit |
| Halcyon.GetLastWithAlgo | pkg/blockchain/blockindex.go:295-326 | the newest node of the algorithm, with versions sanitised before the fork; nil exactly when no node matches |
| Halcyon.FirstOfWindow | pkg/blockchain/forkhalcyon.go:37-45 | the node with exactly interval - 1 newer ones of its algorithm; nil exactly when there are too few |
| Halcyon.CountZeroMeans | pkg/blockchain/blockindex.go:295-326 | which nodes count for an algorithm: version 514 or 2, and before the fork any other version as 2 |
| Halcyon.CountSplit | pkg/blockchain/blockindex.go:295-326 | counting matching nodes splits at any ancestor |
| Halcyon.NextRequiredDifficulty | pkg/blockchain/forkhalcyon.go:14-67 | the easiest bits until the window is full, then within the same two bounds the newest block's target times the window's clamped time over the averaging time; never easier than the limit |
| Difficulty.RetargetMonotone | pkg/blockchain/forkhalcyon.go:46-67 | a slower window never gives a harder target |
| Difficulty.CalcEasiestDifficulty | pkg/blockchain/difficulty.go:47-64 | equals the target times factor^k limited once at the end, for the k with (k - 1) * span < duration <= k * span, although the loop stops early |
| Difficulty.RetargetsIsCeiling | pkg/blockchain/difficulty.go:55-58 | the number of rounds is the ceiling of the quotient, zero for no elapsed time |
| Difficulty.EasiestMonotone | pkg/blockchain/difficulty.go:47-64 | more elapsed time never gives a harder bound |
| Orphans.OrphanPool.RemoveOrphanBlock | pkg/blockchain/chain.go:206-233 | the block leaves both maps, even when it has already left the pool; no empty list stays |
| Orphans.RemoveKeeps | pkg/blockchain/chain.go:206-233 | the maps agree afterwards: each orphan exactly once under its parent |
| Orphans.AddKeeps | pkg/blockchain/chain.go:263-276 | the maps agree after adding |
| Orphans.OrphanPool.AddOrphanBlock | pkg/blockchain/chain.go:240-276 | expired blocks go, at most one more is evicted, none is older than it; the pool never exceeds the limit by more than one, and eviction always has a block |
| Orphans.OrphanPool.EvictOldest | pkg/blockchain/chain.go:252-262 | at the limit exactly the remembered oldest orphan goes, and no other orphan expires before it |
| Orphans.OrphanPool.ProcessOrphans | pkg/blockchain/process.go:251-295 | terminates; only descendants are accepted, in order; on success none of the accepted hashes has an orphan child left |
| Orphans.DescendantsLeave | pkg/blockchain/process.go:251-295 | after success no descendant of the block is left in the pool |
| Orphans.AcceptedDescend | pkg/blockchain/process.go:251-295 | every accepted block is such a descendant |
| Upgrade.OneDepth | pkg/blockchain/upgrade.go:133-160 | a block has at most one depth |
| Upgrade.BlocksMap.DetermineBlockHeights | pkg/blockchain/upgrade.go:168-191 | terminates on every single-parent map; reachable blocks get their exact depth, all others stay as they are; fails exactly without a genesis |
| Upgrade.BlocksMap.DetermineMainChainBlocks | pkg/blockchain/upgrade.go:196-200 | marks exactly the tip and the blocks below it, down to the zero hash; where the way ends anywhere else, the marks made before nil is dereferenced |
| Upgrade.DepthEnds | pkg/blockchain/upgrade.go:196-200 | from a block that has a depth the way ends at the zero hash |

## Left out

- Viewpoint.UtxoViewpoint.DisconnectTransactions: completing a record without a height also changes the caller's slice, which a second undo with the same records would see; here records are values. Database errors are not modelled.
- Validate.CheckConnectBlock: assumes fresh ids, which the code does not check; script verdicts and signature-operation costs are answers of the rules, and the hard-fork coinbase is not checked.
- BlockChain.BlockChain.ReorganizeChain: takes linked lists as GetReorganizeNodes makes them, and blocks whose stored form is sane and whose ids are fresh on the chain below; the check phase of the source does not collect spent outputs where the model always does.
- BlockChain.BlockChain.ExtendBestChain: the fast-add flag is off.
- ChainIo.DeserializeSpendJournalEntry: where a slice of the source would run past its end the result is the error OutOfRange.
- ChainIo.FetchUtxoEntryByHash: the database cursor is a parameter that must be the first key at or after the one sought.
- Halcyon.NextRequiredDifficulty: the fork tables are not part of this model; which heights lie before the fork, the averaging interval and the easiest bits are parameters, and the algorithm is one of the two the tables give before the fork.
- ScriptVal.EveryInterleaving: the script engine's verdict on an item is fixed in advance and does not depend on timing.
- Orphans.OrphanPool.AddOrphanBlock: the clock is a verdict on each orphan, fixed during one call; the caller has checked that the block is not in the pool.
- ScriptCodec.ScriptRoundTrip: recovering Y from the X coordinate and its oddness is an assumption about the curve, not computed here.
- Merkle.NextPowerOfTwo: the floating-point logarithm is the integer logarithm here.
- Logarithm.FastLog2Floor: the mask tests are written with division and remainder.
- Upgrade.BlocksMap.DetermineMainChainBlocks: the way down must end; on a cycle of parents the source does not return.
- Legacy.LegacyExactIff: a transaction has at most as many outputs as the search looks through, which the weight limit of a block enforces; ids are fresh.
- Entries of the view are values in a map; the source shares pointers, so aliasing between views is not modelled.
- Heights, transaction counts and totals of the chain are unbounded integers; 64-bit wrap-around is modelled where sums are guarded and in the formats, decoded script sizes included.
- Blocks connected with the fast-add flag skip validation and are excluded from conservation.
- The hard-fork coinbase contents, checkpoints, sequence locks and the header-context checks.
- The choice of the best chain by work: `workSum` is not cumulative in this code, so no claim is made about it.
- Database transactions, write errors, locks, notifications, logging, indexers.
- Jacobian formulas and field arithmetic: points are elements of a group.
- JSON-RPC, configuration, build tooling, encryption, the exponentially weighted difficulty controllers.
