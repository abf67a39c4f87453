# btk: verified model of its core

`btk` is a command-line Bitcoin toolkit. These files model its five algorithmic parts and prove what each is for:

- **Sync pipeline** (`BoundedQueue.dfy`, `Pipeline.dfy`, `SyncRuns.dfy`, `SyncCommand.dfy`). The fetch, parse and write threads and their
  two bounded queues are a transition system: a step is one lock-holding queue section, one outside call (which may
  throw) or one look at the stop flag, and any thread may be scheduled at any time. For every schedule the heights
  applied are contiguous and in order, a normal return has applied all of them, no state is deadlocked and every fair
  run ends. Over any sequence of sync commands, cut off anywhere, the index holds exactly blocks 0 .. Mheight.
- **Address index** (`Utxo.dfy`, `BalanceDb.dfy`, `Audit.dfy`, `InflowDb.dfy`, `Indexer.dfy`,
  `IndexedChain.dfy`). `apply` works through two caches over an old snapshot and one atomic batch of byte rows; it is
  proved equal to an overlay function of the ledger the rows spell, for every iteration order of the hash map. That
  function refines a transaction-by-transaction ledger, and over runs of blocks each balance is the sum of its unspent
  coins exactly when no credit overwrote an unspent coin.
- **Radix and checksum codecs** (`Radix.dfy`, `Base58.dfy`, `Privkey.dfy`, `Bech32Checksum.dfy`, `Bech32.dfy`,
  `BitGroups.dfy`, `Segwit.dfy`, `Script.dfy`). In-place base conversion with its fixed buffers, the linear Bech32 code,
  8 to 5 bit regrouping, and the addresses and keys built from them. `KnownAnswers.dfy` meets the codes at known texts.
- **Wire codec** (`Wire.dfy`, `Transaction.dfy`, `Blocks.dfy`, `TxCodec.dfy`, `Formats.dfy`). Readers and writers of CompactSize,
  transactions and blocks, as functions and as the cursor and the appending buffer the program uses; their layouts,
  and those of the database rows, written out byte by byte.
- **Sweeps** (`Sign.dfy`, `SignSteps.dfy`, `Commitments.dfy`, `Sweep.dfy`). Size estimate, signature digests, signing in
  place and the fee arithmetic.

`Bytes.dfy` holds bytes, machine integers (written out: casts, wrap-around and truncation are explicit) and the result
types that stand for thrown `BtkError`s.

Code that changes things step by step is a method or a class proved against a function; the laws are lemmas about those
functions. SHA-256, RIPEMD-160 and libsecp256k1 are parameters: total functions with fixed output sizes (DER at most 72
bytes, Schnorr 64, public keys 33 or 65), the validity check meaning 1 <= s < n. LevelDB is a map with an atomic ordered
batch in which the last operation on a key wins.

## What the model found

- **Two coins under one outpoint.** The sum invariant fails exactly when a credit lands on an outpoint that still holds
  an unspent coin, as the two duplicate coinbase transactions before BIP-30 did: the old coin's amount stays in its
  address's balance for ever. `Audit.SumInvariantIff` says so in both directions, `Audit.DuplicateCoinbaseBreaksSum`
  gives the run.
- **A double spend inside one block** may debit twice, because the second lookup sees the old snapshot. The coin map is
  right even then. A stored balance is never above the true one, and is below it exactly when, after some second debit
  of a coin worth something, the address's true balance is not zero at any later point of the block
  (`Utxo.BalanceAgreesIff`, `Utxo.ApplyRefines`; both cases occur in `Utxo.DoubleSpends`). In a block that spends no
  outpoint twice everything agrees.
- **A sync that starts over and fails early, or is cut off before its first block,** leaves a database without metadata,
  which every later sync without `--force` refuses. This includes `--force` over a good index, which it has destroyed by
  then (`SyncRuns.RefusedIffCutBeforeFirstBlock`).
- **Any odd flag byte** is accepted after the segwit marker (`Transaction.AnyOddFlag`), so a buffer is reproduced exactly
  when its flag byte, if any, is 1 (`Transaction.ReproducedIff`, `Blocks.BlockRespelled`).
- **Base58 addresses** come back from `script_from_address` exactly when the segwit decoder rejects them
  (`Script.HashRoundTrip`).
- **`coinbase_mature`** computes the age in 32 bits: at the one height difference 2^32 - 1 it wraps to zero
  (`Sweep.MatureIff`).

## Model

| member | source | states |
|---|---|---|
| BoundedQueues.BoundedQueue.PushLocked | src/chain/sync.cpp:53-72 | one critical section of push: waits when full, drops when closed or stopped after a wait, rethrows the error, else appends |
| BoundedQueues.BoundedQueue.PopLocked | src/chain/sync.cpp:74-95 | one critical section of pop: waits when empty, the error comes before any item, closed and empty ends |
| BoundedQueues.PushOutcome | src/chain/sync.cpp:53-72 | each outcome of push in one condition: stored exactly into an open queue with room, thrown exactly when an error is set, unless stop is seen after waiting; nothing is ever lost from the queue |
| BoundedQueues.PopOutcome | src/chain/sync.cpp:74-95 | each outcome of pop in one condition: an item, the oldest, exactly when there is one and no error |
| BoundedQueues.BoundedQueue.CloseLocked | src/chain/sync.cpp:97-102 | closes and changes nothing else |
| BoundedQueues.BoundedQueue.FailLocked | src/chain/sync.cpp:104-112 | closes and keeps the first error |
| Pipeline.Delivery | src/chain/sync.cpp:181-262 | under every schedule, stop and failure the applied heights are first, first+1, ... with no gap or repeat, never past tip; queues stay within 8 and 100; a normal return has applied first..tip |
| Pipeline.StepKeeps | src/chain/sync.cpp:181-246 | every step of any thread keeps the invariant: what each queue and thread holds, why a queue is closed, and that a queue ended without error has carried everything |
| Pipeline.ClosedForGood | src/chain/sync.cpp:53-112 | closed queues stay closed, the first error and the stop flag stay, the applied log only grows |
| Pipeline.NoDeadlock | src/chain/sync.cpp:53-112 | while a thread is unfinished some thread changes the state, whatever the outside calls do |
| Pipeline.Progress | src/chain/sync.cpp:181-246 | every step that changes the state decreases a natural-number measure |
| Pipeline.ChangesBounded | src/chain/sync.cpp:181-246 | the number of changing steps of any run is bounded by that measure's drop |
| Pipeline.FairRun | src/chain/sync.cpp:248-250 | from any reachable state, scheduling each thread often enough finishes all three, so the joins return |
| Pipeline.Termination | src/chain/sync.cpp:181-250 | from the start, 12 per block plus a constant fair rounds are enough |
| Pipeline.EndingExplained | src/chain/sync.cpp:197-208 | an error raised at the end was thrown by some call; without throws and stop requests the run returns complete |
| Pipeline.ErrorStops | src/chain/sync.cpp:85-87 | once the writer's queue carries an error, whatever is still queued is dropped: at most the block the writer already holds is applied, under every schedule |
| Pipeline.StopSilencesFetch | src/chain/sync.cpp:197-208 | if stop is requested before anything failed, errors of RPC calls are not reported: every continuation ends as interrupted |
| Pipeline.FetchReportsIff | src/chain/sync.cpp:197-208 | a failed call of the fetch thread reaches the raw queue exactly if it is foreign, or one of the program's own without a stop request and other than "interrupted"; otherwise the queue is just closed |
| Pipeline.ApplyErrorRaised | src/chain/sync.cpp:237-257 | an error of apply is what the run raises, whatever happens next and even if stop is requested |
| Pipeline.ErrorsTravel | src/chain/sync.cpp:197-246 | an error in the raw queue is in the other queue too once the threads are done |
| Pipeline.NoCallAfterStop | src/chain/sync.cpp:181-196 | after a stop request no new block is asked for |
| Pipeline.ThreadsApart | src/chain/sync.cpp:181-246 | which parts of the state each thread leaves alone |
| Pipeline.StopUnblocks | src/chain/sync.cpp:56-83 | after a stop request every unfinished thread changes the state when scheduled, whatever the others do |
| SyncCommand.BalanceCommand.WalkBlocks | src/chain/sync.cpp:152-262 | the preamble's refusals and early return, then every applied height is one block indexed and one batch written to the store |
| SyncCommand.BalanceCommand.DoSync | src/cmd/balance.cpp:253-280 | force destroys and starts over, a valid index is extended, junk is refused and untouched, else a fresh index |
| SyncCommand.InspectDisk | src/chain/balance_db.cpp:157-187 | the index state read off the path and the two metadata rows |
| SyncCommand.BalanceCommand.SyncAll | src/cmd/balance.cpp:253-280 | any sequence of commands on real stores leaves the index their history defines |
| SyncCommand.StoredBalances | src/chain/balance_db.cpp:314-384 | after any sequence of commands cut off anywhere on a chain with distinct ids, no double spend in a block and supply below 2^64: the bytes on disk spell exactly blocks 0..Mheight, every stored balance is the sum of the address's stored unspent outputs, no row is zero |
| SyncRuns.EveryReachableIndexIsSound | src/cmd/balance.cpp:253-280 | after any sequence of commands, each ended or cut off anywhere, the index is empty without metadata or holds exactly blocks 0..Mheight with Mtip that block's hash |
| SyncRuns.SyncStep | src/cmd/balance.cpp:262-270 | one command keeps that, and one that returns leaves all blocks up to the tip |
| SyncRuns.ResumedEqualsUninterrupted | src/chain/sync.cpp:173-173 | a completed command after any history leaves what one uninterrupted fresh sync leaves |
| SyncRuns.NeverGoesBack | src/cmd/balance.cpp:262-271 | without force the stored height never decreases |
| SyncRuns.RefusedIffCutBeforeFirstBlock | src/chain/balance_db.cpp:157-187 | a reachable index counts as junk exactly when it is a database without metadata, and plain syncs refuse it unchanged; a command that starts over (forced, or with no index yet) leaves that exactly when an early call failed or no block was applied |
| SyncRuns.ReorgDetected | src/chain/sync.cpp:159-166 | a resumed sync refuses, leaving the index alone, exactly when the node lacks the index's tip |
| SyncRuns.GrowsByApplied | src/chain/sync.cpp:173-239 | a walk adds to the blocks that were there exactly those its writer applied, however it ends |
| SyncRuns.UpToDateUnchanged | src/chain/sync.cpp:167-170 | an index at the node's tip is left as it is and the command returns |
| SyncRuns.JunkUntouched | src/cmd/balance.cpp:253-280 | a file, an unopenable directory or a database without metadata is refused without --force and left alone |
| SyncRuns.ForceForgets | src/cmd/balance.cpp:253-280 | a forced sync does what a fresh one does, whatever was there |
| BalanceDbs.BalanceDb.Apply | src/chain/balance_db.cpp:314-384 | the ledger spelled by the rows becomes the overlay function of the old one, for any order of the balance map; it throws exactly for a read-only database, a needed row that cannot be read, or a failed write, and then changes nothing |
| BalanceDbs.BalanceDb.Collect | src/chain/balance_db.cpp:317-363 | the event loops: caches and batch carry the overlay, and they throw exactly when a row that no cache answers for cannot be read |
| BalanceDbs.BalanceDb.Debit | src/chain/balance_db.cpp:335-352 | one spend: the block's own coins first, then the old snapshot, clamped debit, row deleted; or the read error |
| BalanceDbs.BalanceDb.Earn | src/chain/balance_db.cpp:354-362 | one credit: skipped if empty or zero, else 64-bit addition, coin cached and row written; or the read error |
| BalanceDbs.BalanceDb.Flush | src/chain/balance_db.cpp:365-374 | every touched balance is written, zero by deletion, whatever the iteration order |
| BalanceDbs.BalanceDb.ReadKey | src/chain/balance_db.cpp:123-132 | the value, its absence, or the read error |
| BalanceDbs.BalanceDb.Sats | src/chain/balance_db.cpp:247-258 | the stored balance, 0 if the row is missing or not 8 bytes, or the read error |
| BalanceDbs.BalanceDb.FindOutpoint | src/chain/balance_db.cpp:260-275 | the stored coin, nothing if the row is missing or malformed, or the read error |
| BalanceDbs.KeyOInverse | src/chain/balance_db.cpp:85-91 | outpoint keys and outpoints are in bijection |
| BalanceDbs.KeysApart | src/chain/balance_db.cpp:81-91 | coin rows, balance rows and metadata never share a key |
| BalanceDbs.DecodeEncodeOut | src/chain/balance_db.cpp:93-119 | coin rows survive encoding and decoding |
| BalanceDbs.DecodeOutIff | src/chain/balance_db.cpp:102-121 | a row decodes to a coin exactly when it is that coin's encoding, except that below 17 bytes a nine-byte length can make the 64-bit size test wrap |
| Formats.KeyLayout | src/chain/balance_db.cpp:81-91 | the keys byte by byte: A and the address, O, transaction id and output index, Mheight, Mtip |
| Formats.RowLayout | src/chain/balance_db.cpp:93-100 | coin rows: counted address, then amount; inflow rows: sum, transaction count, last time |
| BalanceDbs.FreshStore | src/chain/balance_db.cpp:227-245 | a newly created database spells the empty ledger |
| BalanceDbs.CoinOp | src/chain/balance_db.cpp:351-361 | writing or deleting one coin row changes that coin and nothing else the store says |
| BalanceDbs.RowOp | src/chain/balance_db.cpp:365-373 | writing or deleting one balance row changes that balance and nothing else |
| BalanceDbs.MetaOp | src/chain/balance_db.cpp:375-379 | height and tip written together become the metadata and change nothing else |
| Utxo.ApplyRefines | src/chain/balance_db.cpp:328-373 | against the transaction-by-transaction ledger the coins always agree; additions not wrapping, all balances agree exactly when every second debit of a stale spend is made good by a zero balance then or later in the block; they agree in any case when no spend is stale, in particular when no outpoint is spent twice |
| Utxo.BalanceAgreesIff | src/chain/balance_db.cpp:343-350 | per address: the stored balance is at most the ledger's, and equal exactly when the address is settled |
| Utxo.CachedBalance | src/chain/balance_db.cpp:320-357 | the same of the balance cache after every prefix of events |
| Utxo.OverlayRefines | src/chain/balance_db.cpp:320-363 | after every prefix of events the caches agree with the running ledger |
| Utxo.StepMoves | src/chain/balance_db.cpp:335-362 | what one spend or credit does to the coins and to every balance: debits stop at zero, credits wrap at 2^64, no one else moves |
| Utxo.TxCoins | src/chain/balance_db.cpp:335-362 | a transaction spends before it credits: which coins are there afterwards, exactly |
| Utxo.BlockByTx | src/chain/balance_db.cpp:334-363 | a block is its transactions one after the other |
| Utxo.DistinctAreFresh | src/chain/balance_db.hpp:31-36 | in a block that spends no outpoint twice no spend is stale |
| Utxo.DoubleSpends | src/chain/balance_db.cpp:343-350 | one coin spent twice in a block: harmless out of a balance of 1, one unit too little out of a balance of 2 |
| Utxo.ApplyKeepsNoZeroRow | src/chain/balance_db.cpp:365-373 | no block, valid or not, leaves a zero row |
| Audit.IndexAudit | src/chain/balance_db.cpp:314-384 | over runs that settle and whose additions do not wrap all balances are sums of unspent coins exactly when every credit was fresh, and no row is zero |
| Audit.RunAgreesIff | src/chain/balance_db.cpp:314-384 | the index is right after every block of a run exactly when every block settles |
| Audit.DuplicateCoinbaseBreaksSum | src/chain/balance_db.cpp:357-361 | two blocks with the same coinbase: no spends, no wrap, and the balance is twice the only unspent coin |
| Audit.StaleFreeIsSettled | src/chain/balance_db.cpp:343-350 | a run without stale spends settles |
| Audit.BalanceIsSum | src/chain/balance_db.cpp:349-357 | balance = unspent coins + coins overwritten unspent, after every prefix of events |
| Audit.SumInvariantIff | src/chain/balance_db.cpp:357-361 | nothing is lost for any address exactly when every credit was fresh |
| Audit.ClampNeverFires | src/chain/balance_db.cpp:349-350 | a coin in the ledger is always covered by its address's balance, so debits are exact |
| Audit.SupplyPreventsWrap | src/chain/balance_db.cpp:357-357 | fresh credits and a supply below 2^64 keep the 64-bit additions exact |
| Audit.DistinctCreditsAreFresh | src/chain/indexer.cpp:22-36 | if no outpoint is credited twice in the run every credit is fresh |
| Audit.DistinctRunIsStaleFree | src/chain/balance_db.hpp:31-36 | blocks that each spend no outpoint twice form a run without stale spends |
| IndexedChain.ChainBalances | src/chain/indexer.cpp:5-39 | indexing any chain with distinct transaction ids, no double spend inside a block and supply below 2^64: every stored balance is the sum of the address's stored unspent outputs, no row is zero |
| IndexedChain.DistinctIdsAreFresh | src/chain/indexer.cpp:11-36 | distinct transaction ids make every credit of the run fresh |
| Audit.RunRefines | src/chain/balance_db.cpp:314-384 | block after block with overlays gives what playing all events on one ledger gives |
| Audit.BalanceWithinCredits | src/chain/balance_db.cpp:349-357 | with no assumption at all, no balance exceeds what its address was ever credited |
| InflowDbs.InflowDb.Apply | src/chain/inflow_db.cpp:180-223 | every address's row moves by exactly its paying transactions in the block, metadata is set; it throws exactly for a read-only database, an unreadable row of a paid address, or a failed write, and then changes nothing |
| InflowDbs.InflowDb.Tally | src/chain/inflow_db.cpp:197-203 | the per-transaction map holds exactly the paid addresses, each with its sum modulo 2^64 |
| InflowDbs.InflowDb.Record | src/chain/inflow_db.cpp:204-212 | each paid row gains the sum, one transaction and the later time, in any iteration order; or the read error |
| InflowDbs.DecodeEncodeRow | src/chain/inflow_db.cpp:54-70 | rows survive encoding and decoding |
| InflowDbs.DecodeRowIff | src/chain/inflow_db.cpp:63-70 | exactly the 20-byte strings are rows, each of one value |
| InflowDbs.RowMeaning | src/chain/inflow_db.cpp:197-212 | over any run a row is (sum of credits, number of paying transactions, time of the latest paying block), modulo 2^64 |
| InflowDbs.BalanceWithinInflow | src/chain/balance_db.cpp:349-357 | both indexes started empty: no balance exceeds the address's inflow, even for invalid blocks |
| Indexer.EffectsFromBlock | src/chain/indexer.cpp:5-39 | the effects of a block, transaction by transaction |
| Indexer.EffectsIgnoreWitness | src/chain/indexer.cpp:11-36 | effects do not depend on witness data; every credit is filed under the hash of the transaction's witness-free serialization |
| Indexer.IdOfBytes | src/chain/transaction.cpp:228-231 | the id of a transaction received without witness data is the hash of the bytes received |
| Indexer.EffectsOfBytes | src/chain/indexer.cpp:5-12 | from raw block bytes: height as told, the hash of the first 80 bytes, time from bytes 68 to 71, one entry per transaction in order |
| Indexer.SpendsConcat | src/chain/indexer.cpp:13-20 | spends are taken input by input, in order, those of an all-zero transaction id skipped |
| Indexer.PaidIff | src/chain/indexer.cpp:22-34 | an output is credited to an address exactly when its value is positive and the address, character by character, is its script's |
| Indexer.SpendsExactly | src/chain/indexer.cpp:13-20 | the spends are exactly the prevouts with a non-zero transaction id |
| Indexer.CreditsExactly | src/chain/indexer.cpp:22-36 | the credits are exactly the outputs with positive value and an address, each at its own index and value |
| Indexer.CreditsDistinct | src/chain/indexer.cpp:22-36 | no transaction credits an outpoint twice |
| Indexer.CreditsCounted | src/chain/balance_db.cpp:354-356 | the guards of apply never drop an indexed credit, and addresses fit a row |
| Base58.MultiplyAdd | src/core/base58.cpp:45-52 | one outer iteration: the buffer goes from v to 256 v + byte (58 v + digit) and no carry is lost |
| Base58.EncodeBufferSuffices | src/core/base58.cpp:42-42 | 256^n fits in n*138/100+2 base-58 digits |
| Base58.DecodeBufferSuffices | src/core/base58.cpp:78-78 | 58^n fits in n*733/1000+2 bytes |
| Base58.Base58Encode | src/core/base58.cpp:36-66 | the in-place loop computes leading ones and the canonical numeral |
| Base58.Base58Decode | src/core/base58.cpp:72-103 | the in-place loop computes leading zeros and the number's bytes, or fails on the first foreign character |
| Base58.DecodeEncode | src/core/base58.cpp:36-103 | decoding inverts encoding on every byte string |
| Base58.EncodeDecode | src/core/base58.cpp:36-103 | encoding inverts decoding on every accepted text |
| Base58.AlphabetInverse | src/core/base58.cpp:12-32 | character table and digit values are inverse |
| Base58.AlphabetOrder | src/core/base58.cpp:10-32 | the digits 0 to 57 are the alphanumerics without 0, I, O and l in ASCII order |
| KnownAnswers.LeadingZeros | src/core/base58.cpp:36-66 | 00 00 28 7f b4 cd is 11233QC4: digit order, alphabet and leading zeros at a known text |
| Base58.CheckCanonical | src/core/base58.cpp:105-123 | a text check-decodes to a payload exactly when it is that payload's encoding |
| Base58.CheckEncodeBytes | src/core/base58.cpp:105-110 | the bytes behind a checksummed text are the payload and the first four bytes of its double hash |
| Bech32Checksum.Polymod | src/core/bech32.cpp:20-32 | the register loop is the fold of one checksum step |
| Bech32Checksum.StepLinear | src/core/bech32.cpp:23-29 | a step is linear over exclusive or |
| Bech32Checksum.StepInjective | src/core/bech32.cpp:23-29 | a step is injective in its 30-bit state |
| Bech32Checksum.ChecksumUnique | src/core/bech32.cpp:107-120 | exactly one group of six symbols completes any prefix to any constant, the one encode appends |
| Bech32Checksum.BurstChanges | src/core/bech32.cpp:20-32 | changing up to six consecutive symbols changes the register |
| Bech32.Bech32Encode | src/core/bech32.cpp:91-125 | the encoder with its four errors |
| Bech32.Bech32Decode | src/core/bech32.cpp:127-181 | the decoder with all its rejections |
| KnownAnswers.EmptyData | src/core/bech32.cpp:9-45 | the code is the one of BIP-173 and BIP-350: prefix a without data is a12uel5l and, modified, a1lqfn3a |
| KnownAnswers.CharsetTable | src/core/bech32.cpp:9-9 | the 32 symbols in the order of BIP-173 |
| Bech32.EncodeOkIff | src/core/bech32.cpp:91-106 | what encode accepts, in numbers: 1 to 83 printable characters without capitals, symbols below 32, 90 characters in all |
| Bech32.AcceptedIff | src/core/bech32.cpp:127-181 | a text decodes to prefix, values and variant exactly when it does not mix cases and its lower-case form is their encoding |
| Bech32.CharsetInverse | src/core/bech32.cpp:77-87 | charset and reverse lookup are inverse |
| Bech32.DecodeEncode | src/core/bech32.cpp:91-181 | what encode accepts decodes to exactly its prefix, values and variant |
| Bech32.EncodeDecode | src/core/bech32.cpp:91-181 | an accepted text re-encodes to its lower-case form |
| Bech32.BurstDetected | src/core/bech32.cpp:171-178 | a changed run of up to six data symbols is rejected or flips the variant |
| BitGroups.ConvertBits | src/core/bech32.cpp:47-75 | the shift register computes the regrouped digits or the documented failure |
| BitGroups.PaddedIsPacked | src/core/bech32.cpp:67-70 | padded conversion yields the value followed by fewer zero bits than a group |
| BitGroups.StrictIsPacked | src/core/bech32.cpp:71-73 | strict conversion accepts exactly whole bytes followed by too few zero bits for another group |
| BitGroups.RoundTrip | src/core/bech32.cpp:47-75 | padded narrowing and strict widening are inverse partial functions, in both directions |
| Segwit.Canonical | src/core/bech32.cpp:183-234 | a lower-case text decodes to an address exactly when it is that address's encoding |
| Segwit.AcceptedIff | src/core/bech32.cpp:205-234 | in either case: a text decodes to an address exactly when it does not mix cases and its lower-case form is the address's encoding |
| Segwit.EncodeOkIff | src/core/bech32.cpp:183-203 | what encode accepts: versions 0 to 16, programs of 2 to 40 bytes (20 or 32 for version 0), a prefix and total length Bech32 allows |
| Segwit.EncodedParts | src/core/bech32.cpp:183-203 | the string starts with the version symbol and has the old checksum exactly for version 0 |
| KnownAnswers.ShortProgram | src/core/bech32.cpp:183-203 | the BIP-350 address of version 16 and program 75 1e: regrouping, symbols and every generator of the checksum at a known text |
| Segwit.EncodeDecode | src/core/bech32.cpp:205-234 | every accepted text re-encodes to its lower-case form |
| Segwit.BurstRejected | src/core/bech32.cpp:223-232 | changing up to six consecutive symbols after the version symbol of an accepted address makes decoding fail |
| Privkey.Mul10Add | src/core/privkey.cpp:31-39 | true exactly when 10 acc + digit < 2^256, stored modulo 2^256 |
| Privkey.DivideByTen | src/core/privkey.cpp:189-198 | quotient in place, remainder out, and whether anything is left |
| Privkey.EncodeSecretDec | src/core/privkey.cpp:175-203 | the repeated division spells the canonical decimal numeral and terminates |
| Privkey.DecodeSecretDec | src/core/privkey.cpp:205-222 | the accumulated value, or the error for a non-digit, an overflow or an invalid scalar |
| Privkey.DecodeEncodeDec | src/core/privkey.cpp:175-222 | decimal decoding inverts encoding on every valid secret |
| Privkey.EncodeDecodeDec | src/core/privkey.cpp:175-222 | encoding an accepted text gives it without leading zeros |
| Privkey.HexRoundTrip | src/core/hex.cpp:24-53 | hex decoding inverts encoding |
| Privkey.HexMeans | src/core/hex.cpp:39-53 | a text decodes to exactly the bytes its digit pairs spell |
| Privkey.HexTable | src/core/hex.cpp:8-33 | the sixteen digits, read in either case and written in lower case |
| Privkey.HexRespelled | src/core/hex.cpp:24-53 | what decodes is written back digit by digit in lower case |
| Privkey.WifCanonical | src/core/privkey.cpp:43-133 | a text decodes to a valid key exactly when it is that key's WIF |
| Privkey.WifBytes | src/core/privkey.cpp:112-121 | the bytes of a WIF: 80 or ef by network, the secret, 01 if compressed, four bytes of their hash |
| Privkey.SixtyFourIsTooLong | src/core/privkey.cpp:57-63 | no 64-character text is WIF-shaped |
| Privkey.ParseEncodedHex | src/core/privkey.cpp:224-249 | the hex of a valid secret parses back to it |
| Privkey.ParseEncodedWif | src/core/privkey.cpp:224-228 | the WIF of a valid key parses to that key, network and compression flag included |
| Privkey.ParsesIff | src/core/privkey.cpp:224-249 | bare text parses to a key exactly when it is the valid key's WIF, or has no WIF shape and is the secret in 64 hex digits or else in decimal, the key then being main-network and compressed |
| Privkey.TwoFiftyEight | src/core/privkey.cpp:175-222 | the secret 00..0102 is 258, written and read: byte and digit order |
| Script.AddressNeverThrows | src/chain/script.cpp:31-74 | address_from_script never throws |
| Script.WitnessRoundTrip | src/chain/script.cpp:46-59 | every P2WPKH, P2WSH and P2TR script comes back from its address |
| Script.HashRoundTrip | src/chain/script.cpp:36-44 | a P2PKH or P2SH script comes back exactly when segwit decoding rejects its address |
| Script.AddressOfScript | src/chain/script.cpp:140-202 | the address of an address's script is the address, a segwit one in lower case |
| Script.HashAddresses | src/chain/script.cpp:36-44 | the bytes 76 a9 14 .. 88 ac stand for version byte 00 and the hash, a9 14 .. 87 for 05 and the hash |
| Script.WitnessAddresses | src/chain/script.cpp:46-59 | 00 14 .., 00 20 .. and 51 20 .. are the witness programs of versions 0, 0 and 1 under prefix bc |
| Script.KeyAddresses | src/chain/script.cpp:61-74 | bare public keys have the address of their hash160; a script has no address exactly when it has none of the seven forms |
| Script.DustTable | src/chain/script.cpp:204-223 | the dust limits 540, 294, 330 and 546 by script form |
| TxCodec.Sink.PushCompact | src/chain/compactsize.cpp:13-32 | appends the shortest form |
| TxCodec.ReadCompactSize | src/chain/compactsize.cpp:34-80 | the count and the new offset, or the error for a short or non-minimal form |
| Wire.CompactInverts | src/chain/compactsize.cpp:13-80 | every 64-bit count is read back, whatever follows |
| Wire.CompactCanonical | src/chain/compactsize.cpp:34-80 | only the shortest form is accepted |
| Formats.CompactForms | src/chain/compactsize.cpp:13-32 | the four forms at their bounds, lowest byte first |
| Formats.LittleEndian | src/chain/compactsize.cpp:13-32 | byte i of a little-endian number is its i-th base-256 digit |
| Wire.ManyInverts | src/chain/transaction.cpp:152-176 | a list of items that are each read back is read back |
| Wire.ManyCanonical | src/chain/transaction.cpp:152-176 | a list of canonically read items is canonical |
| TxCodec.ParseInputs | src/chain/transaction.cpp:149-161 | the counted input loop, with its count bound |
| TxCodec.ParseOutputs | src/chain/transaction.cpp:163-173 | the counted output loop |
| TxCodec.ParseWitness | src/chain/transaction.cpp:175-188 | one counted stack per input, filled in place |
| TxCodec.ParseMarker | src/chain/transaction.cpp:136-147 | a zero marker needs an odd flag; anything else starts the inputs |
| TxCodec.ParseTxAt | src/chain/transaction.cpp:128-195 | the parsed transaction and the bytes consumed, or the error |
| TxCodec.ParseTx | src/chain/transaction.cpp:197-204 | whole-buffer parsing |
| TxCodec.PushVinVout | src/chain/transaction.cpp:103-118 | appends both counted lists |
| TxCodec.SerializeTx | src/chain/transaction.cpp:206-226 | the serialization, with or without witness data |
| TxCodec.SerializeBlockHeader | src/chain/transaction.cpp:238-248 | the 80 header bytes |
| TxCodec.ParseBlockBytes | src/chain/transaction.cpp:255-289 | the parsed block, or which of the two errors |
| Transaction.RoundTripIff | src/chain/transaction.cpp:128-226 | a transaction followed by any bytes is read back, and no more consumed, exactly when it has inputs or the witness flag, and no witness data without the flag |
| Transaction.TxReads | src/chain/transaction.cpp:128-226 | the same as a reader and writer law, for use in lists |
| Transaction.ParseCanonical | src/chain/transaction.cpp:128-226 | writing back what was read gives the input with its flag byte set to 1 |
| Transaction.WholeCanonical | src/chain/transaction.cpp:197-226 | so an accepted buffer is reproduced, and its normal form parses the same |
| Transaction.AnyOddFlag | src/chain/transaction.cpp:137-147 | changing an odd flag byte for another odd byte changes nothing the parser returns |
| Transaction.ReproducedIff | src/chain/transaction.cpp:197-226 | an accepted buffer is its transaction's serialization exactly when it has no flag byte or a 1 there |
| Transaction.ReadIsParseable | src/chain/transaction.cpp:128-195 | the parser only returns transactions it would read back |
| Transaction.PrefixFree | src/chain/transaction.cpp:128-204 | an accepted buffer with bytes added or cut off is rejected: no transaction is a proper prefix of another |
| Transaction.EvenFlagRejected | src/chain/transaction.cpp:137-147 | a zero marker before an even flag byte is an invalid transaction |
| Formats.TxLayout | src/chain/transaction.cpp:103-118 | the fields of a one-input one-output transaction in order, without witness data |
| Formats.WitnessLayout | src/chain/transaction.cpp:206-226 | the same with marker, flag and witness stack |
| Formats.ListOrder | src/chain/transaction.cpp:103-118 | lists are written item after item |
| Blocks.BlockInverts | src/chain/transaction.cpp:238-289 | parse_block inverts header, count and transactions exactly when each transaction is one a parser can return |
| Blocks.BlockCanonical | src/chain/transaction.cpp:255-289 | an accepted block is respelled in the same size with the same header, and parses the same |
| Blocks.BlockRespelled | src/chain/transaction.cpp:255-289 | writing an accepted block back gives its bytes with each segwit flag byte set to 1, hence the same bytes exactly when all were 1 |
| Blocks.HeaderCanonical | src/chain/transaction.cpp:238-276 | the header bytes, and so the block hash, survive parsing |
| Blocks.HeaderFields | src/chain/transaction.cpp:238-248 | where each header field lies in the 80 bytes |
| Formats.BlockPrefixFree | src/chain/transaction.cpp:255-289 | an accepted block followed by anything is an invalid block |
| Formats.Refusals | src/chain/transaction.cpp:128-289 | the errors for buffers too short, counts beyond the bytes left and long forms of small counts |
| SignSteps.FillDummy | src/chain/sign.cpp:79-97 | every input overwritten in place with the dummy of its style |
| SignSteps.TxVsize | src/chain/sign.cpp:162-171 | three times the stripped size plus the full size, in quarter units rounded up |
| SignSteps.EstimateSweepVsize | src/chain/sign.cpp:173-182 | the size of the dummy-signed skeleton |
| Sign.EstimateInNumbers | src/chain/sign.cpp:162-182 | the estimate in closed form, from the number of inputs and the sizes of key and script |
| Sign.VsizeIsWeight | src/chain/sign.cpp:162-171 | virtual size is the weight over four, rounded up |
| SignSteps.SighashLegacy | src/chain/sign.cpp:192-219 | the hash of the transaction with only the script code in its inputs, then the hash type |
| Commitments.LegacyDigestFields | src/chain/sign.cpp:192-219 | input i's P2PKH digest hashes the transaction with every script empty but input i's, which is the spent script, then 01 00 00 00 |
| SignSteps.SighashBip143 | src/chain/sign.cpp:221-258 | the BIP-143 digest |
| Commitments.Bip143DigestFields | src/chain/sign.cpp:221-258 | input i's P2WPKH digest, field by field: input i's own outpoint, amount and sequence, its key hash in the script code, the three list hashes, 01 00 00 00 |
| SignSteps.SighashTaproot | src/chain/sign.cpp:260-302 | the BIP-341 key-path digest |
| Commitments.TaprootDigestFields | src/chain/sign.cpp:260-302 | input i's taproot message, field by field, with its index and the five list hashes |
| Commitments.PrevoutBytes | src/chain/sign.cpp:228-234 | the hashed lists hold outpoint and sequence of each input at its place |
| Commitments.AmountBytes | src/chain/sign.cpp:260-288 | the hashed amounts hold each spent amount at its place |
| SignSteps.SignSweep | src/chain/sign.cpp:304-336 | the loop that signs on the half-filled transaction gives what signing every input on the untouched skeleton gives, first failure included |
| Sign.SweepSpends | src/chain/sign.cpp:57-77 | a returned sweep has version 2, the given lock time, one output, and spends exactly the given outpoints in order with sequence fffffffd |
| Sign.SweepBears | src/chain/sign.cpp:304-336 | the signature data of each input byte for byte: what the signing call returned on the finished transaction's digest, the hash type byte and the key |
| Sign.DigestIgnoresSignatures | src/chain/sign.cpp:192-302 | no digest depends on signature data |
| Sign.SweepCommitsToFinal | src/chain/sign.cpp:304-336 | in the returned transaction every signature is the signature of the digest recomputed on it, and the outline is the skeleton's |
| Sign.SweepTxIff | src/chain/sign.cpp:304-336 | signing succeeds exactly when every script yields a script code (P2WPKH) and every signing call on a digest succeeds |
| Sign.EstimateDominates | src/chain/sign.cpp:162-182 | the real size never exceeds the estimate and equals it for taproot |
| Sign.VsizeMonotone | src/chain/sign.cpp:162-171 | longer signature data never makes a transaction smaller; amount and lock time do not matter |
| Commitments.LegacyCommits | src/chain/sign.cpp:197-218 | equal legacy preimages are exactly those of the same version, inputs, sequences, outputs, lock time and covered code |
| Commitments.Bip143Commits | src/chain/sign.cpp:244-257 | equal BIP-143 preimages agree on every covered field |
| Commitments.TaprootCommits | src/chain/sign.cpp:289-301 | equal taproot messages agree on every covered field, spent amounts and scripts included |
| Sweep.MatureIff | src/cmd/sweep.cpp:347-355 | coinbase outputs are mature from their hundredth confirmation, except where 32-bit age wraps |
| Sweep.MatureConcat | src/cmd/sweep.cpp:491-508 | mature outputs are taken in scan order, none skipped or repeated |
| Sweep.SelectUtxos | src/cmd/sweep.cpp:491-508 | the mature outputs and their sum, or the first error |
| Sweep.SelectedIff | src/cmd/sweep.cpp:491-508 | selection succeeds exactly when every output pays the script and the mature sum is below 2^64 |
| Sweep.PricedIff | src/cmd/sweep.cpp:521-535 | in exact arithmetic, the fee checks pass exactly when the size is allowed and the total covers fee and dust |
| Sweep.SweepOne | src/cmd/sweep.cpp:474-543 | selection, rate, fee checks and signing in order, with each error |
| Sweep.SweepErrors | src/cmd/sweep.cpp:509-536 | which error a sweep that signs nothing gives, in the order of the checks |
| Sweep.SweepConserves | src/cmd/sweep.cpp:491-541 | the inputs are exactly the mature outputs' outpoints; sats + fee = their sum, sats is at least dust, the fee pays the rate for at least the real size, and the one output carries sats to the destination |
| Sweep.SweepSucceedsIff | src/cmd/sweep.cpp:491-543 | a sweep succeeds exactly when all outputs pay the script, the mature ones cover fee and dust, the script yields a script code (P2WPKH) and every signing call on a digest succeeds |

## Left out

- Sockets, JSON-RPC, HTTP and the peer-to-peer handshake, command-line parsing, output formatting, JSON, regex and configuration: plumbing around the modelled logic.
- Hash compression functions and libsecp256k1: parameters of fixed output size; nothing is claimed about collisions or forgery.
- LevelDB internals and the file system: a map with an atomic batch. `destroy_index` is one step, so a crash in its middle is not modelled, nor are failures to open or create the database or to read its metadata rows. During one `apply` a row is either readable throughout or not at all.
- Utxo.ApplyRefines: when a 64-bit addition wraps, only the sufficient condition (no stale spend) is stated; the exact one then depends on the amounts.
- Condition variables: a waiting thread may be scheduled at any time, which covers notification, time-out and spurious wake-up; termination assumes that each thread keeps being scheduled.
- An RPC call throws the text "interrupted" only once the stop flag is set, as src/net/jsonrpc.cpp:75-80 does; the model takes this as the one condition on outside calls (`Pipeline.Allowed`).
- Reading the stop flag is one atomic step with the queue section around it.
- The fetch thread's two RPC calls per height are one outside call, as are parsing and the hash comparison in the parse thread; blocks travel as their heights, the chain being fixed.
- Links between consecutive blocks: the program does not check them, so the chain the node serves is fixed by assumption in the sync results (the pipeline results need no chain).
- `size_t` is unbounded: lengths and counts are below 2^64 by assumption where they are written out, address strings below 2^64 - 100 bytes (`BalanceDbs.Fits`).
- The parsers fill resized vectors; the model appends to sequences, and witness stacks are filled in by position. Aliasing between vectors is not modelled.
- A transaction has fewer than 2^32 outputs in the indexer, whose loop counter is 32 bits wide.
- The inflow command's own copy of `do_sync` differs from the balance command's only in names and messages.
- Conversion of decimal amounts to satoshi in RPC replies: floating point.
