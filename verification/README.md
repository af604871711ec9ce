# Verified models of the Sovereign L1 core

Sovereign L1 is a chain with a token bridge to BSC, price-driven vesting milestones, a liveness window
for validators, and off-chain services around it: relayers, an ingestion service, two APIs, an oracle.
This project models the small algorithms and state machines inside that system and proves what they
guarantee. `dafny verify dfyconfig.toml` checks everything.

The style is the same throughout. What a component does is a function on values. The component's own code
(loops, in-place updates, early returns, rollback) is a method or a class whose contract equates it
with that function. The guarantees are lemmas about the function, over all inputs or all runs.

| Files | Component |
|---|---|
| `BinaryRing`, `BinaryField` | polynomials over GF(2) modulo a polynomial of any degree, and when they form a field |
| `Gf256`, `Gf256Tables`, `Lagrange`, `ReconstructSecret` | Shamir reconstruction over GF(2^8) in the threshold signer |
| `Bech32`, `Bech32Code`, `Gf1024`, `Bech32Distance`, `ConvertBits` | Bech32 and Bech32m checksums (BIP 173, BIP 350): the code they are, the errors it detects, and bit regrouping |
| `BridgeTypes`, `BridgeNonces`, `Bridge`, `BridgeProperties`, `BridgeOutcomes`, `BridgeGenesis` | the bridge keeper: nonce bitmap, quorum, mint and burn ledger, what is accepted and with which error the rest is refused, genesis |
| `Milestone`, `MilestoneIndexes`, `MilestoneWalk`, `MilestoneRuns`, `MilestonePayouts`, `MilestoneLimits`, `MilestoneKeeper` | the milestone keeper: life cycle, indexes, budget, skip of stale feeds, payouts, and the exact conditions of its promises |
| `Certification` | the sliding liveness window, jailing, degraded mode |
| `Cursor`, `Paging` | keyset paging with opaque cursors |
| `Outbox` | the event outbox with its concurrent backfill worker |
| `Watchers` | the two relayer watchers over one shared database |
| `RateLimiter`, `Median` | token bucket; median of oracle prices |
| `Prelude`, `Bitwise`, `Order` | options, bitwise operators on naturals, sorted enumeration |

## Where the code falls short of a promise

Some promises hold only under a condition. Each is proved as an equivalence with that condition; where
it helps, a run that breaks the promise stands beside it.

- The milestone indexes stay exact over every run if and only if no feed ID in use, followed by a colon,
  begins another one; `CreateMilestone` does not test this (`MilestoneLimits.IndexesStayExactIff`).
  Feed IDs without a colon always pass (`MilestoneIndexes.ColonFreeApart`).
- Skipping blocked feeds is invisible if and only if everything waiting for a skipped feed is already
  marked stale-blocked (`MilestoneRuns.SkipIsExact`); after a creation that means that the new
  milestone's feed is not both blocked and stale (`MilestoneLimits.CreationShowsIff`).
- The stored liveness count equals the window sum if and only if the validator was active whenever one
  of its signed blocks left the window (`CertificationProperties.WindowExactIff`). The repository's
  `README.md` (line 225) asks validators to sign half of the last 10,000 blocks; a validator that joins is
  jailed in its first block if and only if the height is 100 or more
  (`CertificationProperties.NewcomerJailedIff`).
- The signature count is right for every selection, order and repetition of given signatures if and only
  if none of them verifies for two relayer addresses (`BridgeProperties.CountExactIff`); one sent n times
  counts for n such addresses (`BridgeProperties.RepetitionCounts`).
- Exporting and importing the bridge keeps the processed nonces if and only if there are none
  (`BridgeGenesis.ImportExport`).
- Every flagged event row has had its own event published, over every run, if and only if the chain never
  delivers two events of one height and index that are published as different messages
  (`Outbox.FlaggedWereSentIff`).
- Paging terminates if and only if no page ends at a row with an empty ID (`Paging.PagingVisitsAll`).
- The confirmation test demands the full depth if and only if block number plus depth stays below 2^64
  (`RelayerRuns.TestIsDepthIffNoWrap`).
- Both watchers write one nonce table; a lock update keeps track of every burn if and only if no
  announced lock has the nonce of an unpublished burn (`RelayerRuns.UpdateTracksIff`,
  `RelayerRuns.SharedNonceLosesBurn`).
- A majority of prices decides the median if and only if the middle prices can be added in 64 bits
  (`Median.RobustIffMiddleFits`).
- Inserting a zero symbol goes undetected exactly in Bech32 strings that end in `p`; never in Bech32m
  (`Bech32.InsertionDetected`).

## Model

| member | source | states |
|---|---|---|
| Gf256.MulAddRight | relayer/signer_horcrux.go:30-57 | the product modulo 0x11d distributes over exclusive or |
| Gf256.MulCommutes | relayer/signer_horcrux.go:30-57 | the product is commutative |
| Gf256.MulAssociates | relayer/signer_horcrux.go:30-57 | the product is associative |
| Gf256Powers.OrderOfX | relayer/signer_horcrux.go:36-46 | the generator of the table loop has order exactly 255 |
| Gf256Powers.EveryByteIsAPower | relayer/signer_horcrux.go:36-46 | the loop reaches every non-zero byte, so the logarithm table is total |
| Gf256Powers.NoZeroDivisors | relayer/signer_horcrux.go:52-57 | a product is zero only if a factor is: with the ring laws, a field |
| Gf256Tables.Tables.FillPowers | relayer/signer_horcrux.go:36-46 | after the first loop, exponent and logarithm tables are inverse to each other over all 255 powers |
| Gf256Tables.Tables.ExtendPowers | relayer/signer_horcrux.go:47-49 | after the second loop every one of the 512 exponents is right |
| Gf256Tables.Tables.constructor | relayer/signer_horcrux.go:31-50 | initialisation yields exact tables, with a logarithm for every non-zero byte |
| Gf256Tables.Tables.TableMul | relayer/signer_horcrux.go:52-57 | table lookup never leaves the table and equals the polynomial product |
| Gf256Tables.Tables.TableDiv | relayer/signer_horcrux.go:59-71 | division inverts multiplication; it panics exactly for a non-zero dividend over zero |
| Lagrange.DivisionIdentity | relayer/signer_horcrux.go:73-106 | the remainder theorem: p(x) is p(a) plus (x - a) times a polynomial of one degree less |
| Lagrange.InterpolateOne | relayer/signer_horcrux.go:89-101 | the interpolation weights at zero add up to one |
| Lagrange.InterpolatePolynomial | relayer/signer_horcrux.go:73-106 | interpolating any polynomial through at least as many points as it has coefficients gives its constant term |
| Reconstruction.ComputeCoefficient | relayer/signer_horcrux.go:91-100 | the inner loop computes the Lagrange weight whatever order the map is iterated in |
| Reconstruction.ReconstructByte | relayer/signer_horcrux.go:89-102 | one secret byte is the interpolation of that column, and the index panic occurs exactly for a share that is too short |
| Reconstruction.ReconstructSecret | relayer/signer_horcrux.go:74-106 | fewer than two shares are refused; otherwise every byte is the interpolation of its column, for every iteration order and whichever share is met first |
| Reconstruction.SecretIsConstantTerms | relayer/signer_horcrux.go:73-106 | shares lying on polynomials of degree below their number reconstruct exactly the constant terms |
| Reconstruction.OneWrongByte | relayer/signer_horcrux.go:89-102 | one wrong byte in one share changes the secret byte unless another share has index zero, and only then |
| Bech32.ComputePolymod | scratch/calc_bech32m.py:5-13 | the double loop computes the residue in shift-register form |
| Bech32.PolymodLinear | scratch/calc_bech32m.py:5-13 | the residue is linear over exclusive or, in state and symbols |
| Bech32.ErrorSurvives | scratch/calc_bech32m.py:5-13 | a non-zero state never becomes zero while zeros are shifted in, for any length |
| Bech32.SingleErrorDetected | scratch/calc_bech32m.py:5-13 | lists differing in exactly one symbol have different residues, at any position and length |
| Bech32.BurstDetected | scratch/calc_bech32m.py:5-13 | lists differing only inside a stretch of at most six symbols have different residues, at any position and length |
| Bech32Code.GeneratorRows | scratch/calc_bech32m.py:5-13 | the five constants are the multiples by 1, x, x^2, x^3 and x^4, over GF(32) modulo x^5 + x^3 + 1, of the tail of the generator polynomial 1, 29, 22, 20, 21, 29, 18 of BIP 173 |
| Bech32Code.MultiplesVanish | scratch/calc_bech32m.py:5-13 | every multiple of the generator polynomial has residue zero from the empty state |
| Bech32Code.PolymodIsRemainder | scratch/calc_bech32m.py:5-13 | from the empty state the residue of any list is its remainder modulo the generator polynomial, and no other six symbols |
| Bech32Code.PolymodScales | scratch/calc_bech32m.py:5-13 | scaling state and symbols by a symbol scales the residue |
| Bech32Distance.LightCodewordIsZero | scratch/calc_bech32m.py:5-13 | no list of up to 1023 symbols with residue zero has one, two or three symbols other than zero: the generator polynomial has three consecutive powers of an element of order 1023 of GF(1024) as roots |
| Bech32Distance.ThreeErrorsDetected | scratch/calc_bech32m.py:5-13 | from any state, different lists of up to 1023 symbols that differ in at most three positions, however far apart, have different residues |
| Bech32Distance.ValidStringsAreFarApart | scratch/calc_bech32m.py:15-22 | two different valid strings with the same prefix, length and variant differ in at least four symbols |
| Bech32.ComputeChecksum | scratch/calc_bech32m.py:18-22 | the code built from expansion, residue and six shifts returns the created checksum |
| Bech32.ChecksumIsTheOnlyOne | scratch/calc_bech32m.py:15-22 | for every prefix, data and variant, six symbols are valid if and only if they are the created checksum |
| Bech32Code.ExpansionMeaning | scratch/calc_bech32m.py:15-16 | the expanded prefix holds the upper parts of the characters, a zero and their lower five bits, which together are the character codes |
| Bech32Code.ValidIsRemainder | scratch/calc_bech32m.py:15-22 | a string is valid if and only if the expanded string after a leading 1 has the constant of its variant (1, or 0x2bc830a3) as remainder modulo the generator polynomial |
| Bech32.InsertionDetected | scratch/calc_bech32m.py:18-22 | inserting q before the last symbol of a valid string is undetected exactly for Bech32 strings ending in p (the defect Bech32m repairs) |
| ConvertBits.Convert | scratch/calc_bech32m.py:24-43 | the bit-buffer loop, with its truncated accumulator, regroups the bit stream: padding adds fewer than one symbol of zeros; the strict form strips such zeros and fails exactly when that is impossible or a value is out of range |
| ConvertBits.DecodeEncoded | scratch/calc_bech32m.py:24-43 | regrouping with padding and back without is the identity, for all widths with the first at least the second (8 and 5 among them) |
| ConvertBits.EncodeDecoded | scratch/calc_bech32m.py:24-43 | whatever the strict direction accepts is reproduced by the padding direction |
| BridgeTypes.PreimageInjective | chain/x/bridge/types.go:153-170 | different receiver, amount or nonce never hash the same bytes, for fields below 4 GiB |
| BridgeTypes.PreimageLayout | chain/x/bridge/types.go:153-170 | the hashed bytes are the domain text, then receiver, amount and nonce in this order, each after its length as four bytes |
| BridgeNonces.BytesRoundTrip | chain/x/bridge/keeper.go:126-139 | the big-endian byte form of a number reads back as that number |
| BridgeNonces.ProcessedIsTested | chain/x/bridge/keeper.go:126-154 | the masked test of a word decides membership of the nonce's number in the set the bitmap stands for |
| BridgeNonces.SetAddsExactlyOne | chain/x/bridge/keeper.go:156-181 | setting a nonce adds exactly its number, for nonces of any length, and changes nothing outside the nonce prefix |
| BridgeNonces.SetKeepsBitmapSound | chain/x/bridge/keeper.go:319-337 | no stored word is ever empty or zero |
| BridgeProperties.CountSound | chain/x/bridge/keeper.go:192-215 | only relayers with a verifying signature in the message are counted, at most one per signature |
| BridgeProperties.CountExact | chain/x/bridge/keeper.go:192-215 | if no signature verifies for two addresses, exactly the addresses that signed are counted |
| BridgeProperties.CountIgnoresOrder | chain/x/bridge/keeper.go:192-215 | order and repetition of signatures then make no difference |
| BridgeProperties.CountExactIff | chain/x/bridge/keeper.go:192-215 | the count is the set of signers for every selection, order and repetition of given signatures if and only if none verifies for two addresses |
| BridgeProperties.RepetitionCounts | chain/x/bridge/keeper.go:192-215 | one signature sent n times counts for n addresses, up to the number it verifies for |
| BridgeOutcomes.RecoveryByteIgnored | chain/x/bridge/keeper.go:197-203 | a 65-byte signature counts exactly as its first 64 bytes do |
| BridgeOutcomes.QuorumIsCounted | chain/x/bridge/keeper.go:192-219 | when no signature verifies for two registered addresses, the count reaches the quorum if and only if at least that many registered addresses have a verifying signature in the message |
| BridgeProperties.GetRelayersMeaning | chain/x/bridge/keeper.go:74-86 | the prefix scan lists exactly the registered relayers |
| BridgeProperties.RelayerSetChanges | chain/x/governance-ext/keeper.go:245-258 | a relayer proposal changes the registration of exactly one address |
| BridgeProperties.DeliverEffect | chain/x/bridge/keeper.go:184-299 | everything one transaction does to counter, supply of every denomination, cap and nonce set; a failed one does nothing |
| BridgeProperties.AcceptedMovesBalances | chain/x/bridge/keeper.go:184-299 | an accepted message moves exactly its amounts for the named account and leaves the module's own balance as it was |
| BridgeProperties.AcceptedDepositHasQuorum | chain/x/bridge/keeper.go:184-219 | an accepted deposit has an unprocessed nonce and at least a quorum of registered relayers, each with a verifying signature |
| BridgeOutcomes.DepositOutcome | chain/x/bridge/keeper.go:184-263 | a deposit is accepted if and only if it is well formed, its nonce number is new, a quorum of registered addresses signed it, counter plus amount stays within a numeric cap and the bank pays; otherwise the first of these tests that fails gives the error |
| BridgeOutcomes.WithdrawalOutcome | chain/x/bridge/keeper.go:266-299 | a withdrawal is accepted if and only if it is well formed, enough of the bridged coin circulates, the sender holds the coins and the bank steps succeed; otherwise the first test that fails gives the error |
| BridgeOutcomes.ListedAmountsMove | chain/x/bridge/keeper.go:221-263 | an accepted message moves each supply by the amount it lists for that denomination, nothing if it lists none, and the counter by what it lists of the bridged coin |
| BridgeOutcomes.NoParamsNoDeposit | chain/x/bridge/keeper.go:37-53 | before parameters are stored no deposit of the bridged coin is accepted |
| BridgeProperties.RunConserves | chain/x/bridge/keeper.go:184-317 | over every run the counter is its initial value plus accepted deposits minus withdrawals, tracks the supply of the bridged coin, and stays between zero and the cap |
| BridgeProperties.EachNonceMintsOnce | chain/x/bridge/keeper.go:184-254 | over every run each nonce number mints at most once, and the bitmap records exactly those |
| BridgeGenesis.GenesisMeaning | chain/x/bridge/module.go:86-114 | genesis succeeds exactly for a quorum of at least 2, finality depths with 0 < standard <= large, a positive numeric cap, a lock box address and a numeric counter, and installs parameters, counter and relayers with no nonce processed |
| BridgeGenesis.RunFromGenesis | chain/x/bridge/types.go:42-65 | on every run from a valid genesis the counter respects the cap and every accepted deposit is signed by two or more different registered addresses |
| BridgeGenesis.ImportExport | chain/x/bridge/module.go:86-123 | importing an export restores parameters, counter and relayers; processed nonces survive if and only if there were none |
| BridgeKeeper.Keeper.CountSignatures | chain/x/bridge/keeper.go:192-215 | the nested loops with their skip and break compute the counted set |
| BridgeKeeper.Keeper.HandleBridgeIn | chain/x/bridge/keeper.go:184-263 | the stepwise handler, which writes nonce and counter before its last fallible calls, reaches the specified state and error |
| BridgeKeeper.Keeper.HandleBridgeOut | chain/x/bridge/keeper.go:266-299 | the same for withdrawals |
| BridgeKeeper.Keeper.DeliverTx | chain/x/bridge/keeper.go:184-299 | validation, handler and rollback together are one atomic transaction |
| MilestoneIndexes.FeedIdsExact | chain/x/milestone/keeper.go:109-121 | the prefix scan of a feed finds exactly its live milestones, each once |
| MilestoneIndexes.SetMilestoneKeepsIndexes | chain/x/milestone/keeper.go:123-143 | writing a milestone keeps both indexes equal to the live milestones and the feeds that have one |
| MilestoneIndexes.IndexesDetermined | chain/x/milestone/keeper.go:97-143 | the milestones determine both indexes |
| MilestoneIndexes.KeysCollideIff | chain/x/milestone/keeper.go:97-121 | milestones of two different feeds can share an index key if and only if one feed and a colon begin the other and a colon |
| MilestoneIndexes.ColonFreeApart | chain/x/milestone/keeper.go:97-113 | feed IDs without a colon never collide |
| MilestoneIndexes.SharedKeyBreaksIndex | chain/x/milestone/keeper.go:123-143 | for any two such feeds, finishing the milestone of the shorter one drops the index entry of a live one of the longer |
| MilestoneLimits.IndexesStayExactIff | chain/x/milestone/keeper.go:97-143 | over every run that creates milestones on a given set of feeds the indexes stay exact if and only if no feed of the set and a colon begin another |
| MilestoneWalk.WalkIdsEffect | chain/x/milestone/keeper.go:222-280 | walking one feed moves each milestone it reaches by one life-cycle step and counts them; it reaches all, or exactly as many as the budget leaves |
| MilestoneWalk.WalkEffect | chain/x/milestone/keeper.go:198-291 | a block moves live milestones whose feed is not skipped by one step of their own feed each, all of them or exactly as many as the budget allows, and changes no other record; with enough budget each active feed's flag becomes its staleness |
| MilestoneRuns.LifeCycleStep | chain/x/milestone/keeper.go:238-279 | finished milestones stay put; achieving needs a fresh price at or above target; a pending milestone is blocked exactly by a stale feed and a blocked one pends again exactly at a fresh price below target; the countdown moves exactly for a pending milestone with a fresh price below target, and falls by one unless it is the lowest 64-bit number, where it wraps around |
| MilestoneRuns.PayoutIsTransfer | chain/x/milestone/keeper.go:330-334 | the escrow balance after a payout is that of the bank transfer it makes, also when the pool is the escrow account itself |
| MilestoneRuns.SkipIsExact | chain/x/milestone/keeper.go:207-213 | within the budget, a block with the skip equals one without if and only if everything waiting for a skipped feed is marked stale-blocked |
| MilestoneLimits.CreationShowsIff | chain/x/milestone/msg_server.go:92-107 | after a creation the next block is the same with and without the skip if and only if the new milestone's feed is not both blocked and stale |
| MilestoneLimits.SkipShows | chain/x/milestone/keeper.go:207-213 | from the empty state: creation, stale block, creation on that feed and stale block end differently with and without the skip |
| MilestoneRuns.SkipInvisibleOverRuns | chain/x/milestone/keeper.go:198-291 | over every run within the budget that creates nothing on a blocked feed or on one that does not fit the others, the skip changes no milestone, index, flag or payout |
| MilestoneRuns.RunKeeps | chain/x/milestone/keeper.go:123-356 | over every run on feeds none of which begins another: indexes stay exact, achieved and expired are final, each milestone is paid at most once and only if achieved, and escrow outflow is the sum of successful payouts to other accounts |
| MilestonePayouts.RunKeepsLog | chain/x/milestone/keeper.go:293-356 | over every run each milestone achieved in it has an attempt, and an attempt is paid if and only if the pool decodes to another account, there is a bank, the payout is from 1 to 2^63 - 1, the bank does not refuse and the escrow balance at that time suffices |
| MilestoneRuns.ExpiresOnTime | chain/x/milestone/keeper.go:198-291 | with the skip and without: under fresh prices below target a pending milestone expires in exactly the last block of its countdown |
| MilestoneRuns.ExpiresAfterBlocked | chain/x/milestone/keeper.go:198-291 | from a stale-blocked start the first fresh price below target makes the milestone pending, and then its full countdown runs |
| MilestoneRuns.LivesByOwnFeed | chain/x/milestone/keeper.go:198-291 | over any blocks within the budget every milestone becomes what its own feed alone makes of it, whatever the others do; with the skip, if everything on blocked feeds is marked so at the start |
| MilestoneRuns.GenesisInvariant | chain/x/milestone/module.go:93-113 | importing unique IDs with feeds none of which begins another starts with exact indexes |
| MilestoneRuns.ImportExport | chain/x/milestone/module.go:93-127 | importing an export restores the milestones and rebuilds both indexes; only the blocked flags start empty |
| MilestoneRuns.ApplyKeeps | chain/x/governance-ext/keeper.go:223-233 | creation, block, target-price proposal and funding each keep indexes and payout log exact and move escrow only by funding and payouts |
| MilestoneKeeper.Keeper.SetMilestone | chain/x/milestone/keeper.go:123-143 | the branching updates of both indexes reach the specified state |
| MilestoneKeeper.Keeper.TriggerVestingPayout | chain/x/milestone/keeper.go:293-356 | each failure of a payout is logged and moves nothing; a success moves the amount |
| MilestoneKeeper.Keeper.ProcessMilestone | chain/x/milestone/keeper.go:236-279 | the branches on state, staleness and price perform one life-cycle step |
| MilestoneKeeper.Keeper.ProcessFeed | chain/x/milestone/keeper.go:215-280 | the inner loop stops at the budget and counts what it processed |
| MilestoneKeeper.Keeper.ProcessFeeds | chain/x/milestone/keeper.go:202-290 | the outer loop with budget test, skip and flag update |
| MilestoneKeeper.Keeper.EndBlocker | chain/x/milestone/keeper.go:198-291 | the whole block, discarded if a payout panics |
| MilestoneKeeper.Keeper.CreateMilestone | chain/x/milestone/msg_server.go:76-120 | only an authorised, valid and new milestone is written, as pending |
| MilestonePayouts.CreateOutcome | chain/x/milestone/msg_server.go:76-120 | a creation is accepted exactly for an authorised creator, valid fields and a new ID; it then adds one pending milestone, and otherwise changes nothing |
| MilestonePayouts.TargetOutcome | chain/x/governance-ext/keeper.go:223-233 | a target-price proposal changes that one price, or nothing for an unknown ID |
| CertificationProperties.CountIsRetained | chain/x/certification/keeper.go:282-302 | after every run the true bits of a validator are its signed blocks that have not slid out, and the stored count is their number |
| CertificationProperties.WindowExactIff | chain/x/certification/keeper.go:282-302 | the count never undercounts the last 10,000 blocks, and equals their sum if and only if the validator was active whenever a signed block left the window |
| CertificationProperties.GaplessIsExact | chain/x/certification/keeper.go:282-302 | without a gap in its activity the count is the window sum |
| CertificationProperties.RecountIsWindow | chain/x/certification/keeper.go:364-402 | the recount of the invariant finds the window sum |
| CertificationProperties.ThresholdBounds | chain/x/certification/keeper.go:204-218 | the threshold never exceeds the height, grows with it, and is lower in degraded mode |
| CertificationProperties.ThresholdIsShare | chain/x/certification/keeper.go:204-218 | the threshold is zero below height 100, then 50% (34% in degraded mode) of the height rounded down, and 5000 (3400) from height 10,000 on |
| CertificationProperties.JailedExactly | chain/x/certification/keeper.go:304-311 | a validator is jailed for liveness exactly when its updated count is below the threshold, whatever the others do |
| CertificationProperties.GaplessJailedExactly | chain/x/certification/keeper.go:204-311 | over whole runs, a gapless validator is jailed exactly when it signed fewer of the last 10,000 blocks than the threshold |
| CertificationProperties.NewcomerJailedIff | chain/x/certification/keeper.go:204-311 | a validator is jailed for liveness in its first active block, whatever it signs, if and only if the height is 100 or more |
| CertificationProperties.AttestationJailedExactly | chain/x/certification/keeper.go:313-318 | a validator is jailed for its attestation exactly when it is not attested, whatever the others do |
| CertificationProperties.AttestationOverRuns | chain/x/certification/keeper.go:304-318 | after every run the next block jails exactly the validators not attested at genesis |
| CertificationProperties.DegradedExactly | chain/x/certification/keeper.go:221-240 | degraded mode is on exactly when the last blocks, as many as the limit (at least one), were all rejected |
| CertificationKeeper.Keeper.EndBlocker | chain/x/certification/keeper.go:221-331 | mode update and validator loop reach the specified state and jail calls |
| CertificationKeeper.Keeper.UpdateValidator | chain/x/certification/keeper.go:282-302 | setting the new bit, clearing the old one and storing the count |
| CertificationKeeper.Keeper.WindowBreached | chain/x/certification/keeper.go:364-402 | the invariant reports a breach exactly when some count differs from its recount |
| Cursor.Base64RoundTrip | backend/module/api/main.go:958-966 | decoding an encoding returns every byte string |
| Cursor.EncodingIsBase64 | backend/module/api/main.go:958-961 | the encoding is base64 of RFC 4648, section 4: the bit stream of the bytes in six-bit values, each written as its letter, with = signs up to a multiple of four |
| Cursor.SymbolValueIff | backend/module/api/main.go:963-972 | the decoder accepts exactly the 64 letters, each with its value |
| Cursor.LineEndsAreIgnored | backend/module/api/main.go:963-972 | line ends anywhere in a text do not change what it decodes to |
| Cursor.FormatRoundTrip | backend/module/api/main.go:958-984 | a number is written as a minus sign if negative and decimal digits, and reads back as itself if it fits 64 bits and as an error otherwise |
| Cursor.ParsedIsNumber | backend/module/api/main.go:974-984 | only a sign or none, followed by digits, is read as a height |
| Cursor.CursorRoundTrip | backend/module/api/main.go:958-984 | a cursor decodes to the height and ID it was made of, whatever bytes, commas included, the ID contains |
| Paging.List | backend/module/api/main.go:745-821 | the handler with its limit rules, extra row and truncation returns the specified page or refuses the cursor |
| Paging.PageFollows | backend/module/api/main.go:823-895 | the page after a cursor is exactly the next stretch of rows in descending order, and has_more is set exactly if rows remain |
| Paging.PageHoldsRequested | backend/module/api/main.go:745-821 | with enough rows left a page holds the requested number, 10 if none is given and 100 at most; otherwise it holds all that are left; it announces more exactly when some remain |
| Paging.EmptyIdRestarts | backend/module/api/main.go:763-772 | a cursor with an empty ID yields the first page again |
| Paging.PagingVisitsAll | backend/module/api/main.go:745-821 | following cursors visits every row once, in order, and stops, if no page ends at an empty ID; otherwise it never stops |
| Paging.NonEmptyIdsAreGood | backend/module/api/main.go:745-821 | non-empty IDs suffice for that, for every limit |
| Outbox.RunKeeps | backend/module/ingestion/main.go:252-330 | under every interleaving and failure, each flagged row's key was published, rows and messages are never lost, flags never reset, and a pass has published a prefix of its batch in order |
| Outbox.FlaggedWereSentIff | backend/module/ingestion/main.go:298-330 | over every run each flagged row's own event was published if and only if events saved under one height and index are always published as the same message |
| Outbox.OvertakenEventIsLost | backend/module/ingestion/main.go:298-330 | otherwise: an event whose publication failed, overtaken by another of its key, ends flagged and is never sent |
| Outbox.CompatibleMeaning | backend/module/ingestion/main.go:332-357 | two events of one height and index are published as the same message if and only if they are equal or both above 750 KiB |
| Outbox.FlaggedInFull | backend/module/ingestion/main.go:298-357 | then over every run the event of each flagged row is in the log in full if it encodes to at most 750 KiB, and as a pointer to its row otherwise |
| Outbox.FitsFromStart | backend/module/ingestion/main.go:332-357 | over every run no event above 750 KiB is sent whole, and every message, so every pointer, is about a stored row |
| Outbox.FailedStepWritesNothing | backend/module/ingestion/main.go:252-330 | a failed statement or publication changes neither table nor log |
| Outbox.IngestAlone | backend/module/ingestion/main.go:298-330 | without failures a new event is stored, published once and flagged |
| Outbox.BatchIsLowest | backend/module/ingestion/main.go:261-278 | a batch is the unpublished rows with the lowest height and index, at most 100, in order |
| Outbox.CompletePassShrinks | backend/module/ingestion/main.go:284-295 | a pass that ends with every update successful leaves at least 100 fewer of the rows it started from unpublished, or none, whatever ran in between |
| Outbox.FlagSomeEffect | backend/module/ingestion/main.go:284-288 | updates touch only flags, and flag exactly the rows whose own update succeeded |
| Outbox.PassAlone | backend/module/ingestion/main.go:252-295 | the step-by-step machine, run without interference, publishes and flags row by row |
| Outbox.QuietRunClears | backend/module/ingestion/main.go:252-295 | n uninterrupted passes of the step machine, without failures or new rows, clear up to 100 n rows, exactly |
| Outbox.Service.SaveAndPublishEvent | backend/module/ingestion/main.go:298-330 | the procedure is the run of its three steps, and fails only if saving fails |
| Outbox.Service.BackfillTick | backend/module/ingestion/main.go:261-295 | one tick publishes the batch up to the first failure and flags what its updates reached |
| RelayerState.SweepSends | relayer/bsc_watcher.go:49-73 | an update announces exactly the confirmed locks before the first failure, and without one keeps exactly the unconfirmed |
| RelayerState.SweepMarks | relayer/bsc_watcher.go:56-69 | exactly the nonces of the announced locks become confirmed |
| RelayerState.SendBurnsEffect | relayer/cosmos_watcher.go:72-85 | the retry loop publishes and marks exactly the burns before the first failure |
| RelayerRuns.LocksConserved | relayer/bsc_watcher.go:39-74 | over every run each ingested lock, with multiplicity, is pending or announced; exactly one of the two, once, if no update stops early |
| RelayerRuns.FailedUpdateRepeats | relayer/bsc_watcher.go:56-72 | a failed update keeps every lock pending, so those it announced will be announced again |
| RelayerRuns.TestIsDepthIffNoWrap | relayer/bsc_watcher.go:51-56 | the test demands 50 blocks for amounts from the threshold on and 15 below it, if and only if the number of the last of these blocks is below 2^64; a lock that has them always passes it |
| RelayerRuns.NeverAnnouncedEarly | relayer/bsc_watcher.go:39-74 | over every run no lock is announced before 50 blocks for amounts from the threshold on, or 15 below it, wrapping block numbers excepted |
| RelayerRuns.NoDeepLockLeft | relayer/bsc_watcher.go:44-74 | an update without a failed publication leaves no lock pending that has its 50 or 15 blocks |
| RelayerRuns.UpdateRemembersBlock | relayer/bsc_watcher.go:45-46 | every update, failed or not, remembers its block number and touches no burn |
| RelayerRuns.IngestBurnEffect | relayer/cosmos_watcher.go:31-63 | a known burn changes nothing; any other is recorded with its height, and is then pending exactly if its publication failed |
| RelayerRuns.ProcessBurnsEffect | relayer/cosmos_watcher.go:66-86 | an error-free call leaves no burn pending; a failed one has published and marked a prefix of its order |
| RelayerRuns.BurnsSettle | relayer/cosmos_watcher.go:31-86 | while only this watcher writes states of burn nonces, over every run each accepted burn stays recorded and is pending or published |
| RelayerRuns.UpdateTracksIff | relayer/bsc_watcher.go:56-69 | with the shared nonce table, a lock update keeps track of every burn if and only if no announced lock has the nonce of an unpublished burn |
| RelayerRuns.SharedNonceLosesBurn | relayer/db.go:345-357 | otherwise the burn is neither published nor returned for retrying |
| Watchers.RelayerDB.GetPendingBurns | relayer/db.go:345-357 | the burns in state observed, each once, in any order of the map |
| Watchers.BSCWatcher.IngestLockEvent | relayer/bsc_watcher.go:38-41 | a lock is appended to the pending ones and nothing else changes |
| Watchers.BSCWatcher.UpdateBlockNumber | relayer/bsc_watcher.go:44-74 | the loop with its early return reaches the specified state and reports failure exactly then |
| Watchers.CosmosWatcher.IngestBurnEvent | relayer/cosmos_watcher.go:31-63 | saving, publishing and marking one burn, or skipping a known one |
| Watchers.CosmosWatcher.ProcessPendingBurns | relayer/cosmos_watcher.go:66-86 | the retry loop over some order of the pending burns |
| TokenBuckets.WindowBound | explorer-api/main.go:4362-4381 | however calls are spread, a window of length d allows at most maxTokens + refillRate * d of them |
| TokenBuckets.SpacedNeverRefused | explorer-api/main.go:4362-4381 | calls spaced by at least one token's refill are never refused if and only if the bucket holds at least one token |
| TokenBuckets.NewBucketSpacedNeverRefused | explorer-api/main.go:4352-4381 | the same for a new bucket, whose first call may come at once |
| TokenBuckets.RefusedCallCostsNothing | explorer-api/main.go:4362-4381 | a refused call changes neither the answer to any later call nor the bucket after it |
| TokenBuckets.RefusedCallsLeaveNoTrace | explorer-api/main.go:4362-4381 | over any run of calls: without the refused ones all others would have been allowed, and every later call would be answered as it is |
| TokenBuckets.AddressesAreIsolated | explorer-api/main.go:4396-4414 | what an address is allowed depends on its own calls alone |
| TokenBuckets.AddressBound | explorer-api/main.go:4396-4414 | among any traffic, of the limiter's answers in any window of d seconds at most 10 + 10 d allow a given address |
| TokenBuckets.FirstBurst | explorer-api/main.go:4396-4414 | of the calls an address makes at the moment it is first seen exactly the first ten are allowed |
| TokenBuckets.PatientAddressNeverRefused | explorer-api/main.go:4396-4414 | among any traffic an address that waits a tenth of a second between its calls is never refused |
| RateLimiter.TokenBucket.Allow | explorer-api/main.go:4362-4381 | refill, cap and take in place |
| RateLimiter.IPRateLimiter.Allow | explorer-api/main.go:4396-4414 | only the caller's bucket changes, and it is created full at the first call |
| Median.FetchPrice | oracle/fetcher.go:34-70 | the price is the median of what arrived before the timeout, and an error for fewer than two prices |
| Median.ReceivedIsPrefix | oracle/fetcher.go:46-57 | the prices received are those before the first timeout |
| Median.ArrivalOrderIrrelevant | oracle/fetcher.go:46-69 | the order of arrival does not matter |
| Median.MedianByRank | oracle/fetcher.go:63-69 | the result by counting alone: the price of middle rank, or half the 64-bit sum of the two prices of middle rank |
| Median.MajorityDecides | oracle/fetcher.go:63-69 | if more than half of the prices lie between two bounds and the middle sum does not overflow, so does the result |
| Median.RobustIffMiddleFits | oracle/fetcher.go:63-69 | a majority always decides the result if and only if the middle sum does not overflow |

## Left out

- Reconstruction.ReconstructSecret: the panic on a share that is too short is modelled as an outcome, not as a crash of the process.
- BridgeOutcomes.DepositOutcome: for messages in which no signature verifies for two registered addresses; what is counted otherwise is BridgeProperties.CountExactIff.
- BridgeProperties.RunConserves: the panic of math.Int beyond 256 bits is not modelled; parameters are fixed during a run, as only genesis sets them.
- BridgeKeeper.Keeper.HandleBridgeIn: the branch without a bank keeper, used in tests only, is not modelled; the bank's unforeseen failures are inputs.
- BridgeTypes.PreimageInjective: hashing and signature verification are uninterpreted functions, and the text form of coins is taken as given.
- BridgeGenesis.GenesisMeaning: relayers of a genesis file are assumed to have distinct addresses; with a repeated address the later entry replaces the earlier. A genesis file that is not valid JSON panics and is not modelled.
- MilestoneKeeper.Keeper.ProcessFeeds: the store iterator is a walk over a snapshot of the active feeds; a state string other than the four is not modelled.
- MilestoneKeeper.Keeper.TriggerVestingPayout: only the escrow account's balance in the payout coin is kept; the pool accounts' balances are not.
- MilestoneRuns.RunKeeps: feeds are assumed not to begin one another, without which the indexes break as shown; an ID written again keeps its feed, as every write of the program does.
- MilestoneLimits.IndexesStayExactIff: for a deployment in which some account may create milestones, with a budget of at least one.
- BridgeProperties.RelayerSetChanges: of a governance proposal only the change itself is modelled; a proposal the constitution contract refuses is no step.
- CertificationProperties.CountIsRetained: starts from a genesis without stored bits; missed extensions, slashing and changes of parameters are not modelled.
- Paging.List: the database is a set of keys with an order, IDs compare byte by byte (not by a collation), and other columns, scanning errors and concurrent writes are not modelled.
- Cursor.Base64RoundTrip: decoding follows the standard alphabet with padding and ignores line breaks; partially decoded prefixes on error are not modelled.
- Outbox.RunKeeps: one ingest loop and one worker; a failed statement or publication has no effect (an acknowledgement lost after acceptance is not modelled), rows that fail to scan and JSON encoding errors are not modelled.
- RelayerRuns.BurnsSettle: each call of a watcher is one step; only the in-memory database is modelled, not its SQL variant, which keeps the first record of a burn.
- RelayerState.SweepSends: the polling loop that finds blocks and events is not part of this model.
- RateLimiter.TokenBucket.Allow: float64 rounding is not modelled (tokens and times are reals); the mutexes are, as each call is one step, and a new bucket is created at the time of its first call.
- Median.FetchPrice: querying sources, and how many never answer, is the given sequence of select outcomes; the library sort is a function returning the ascending permutation.
- Bech32Distance.ThreeErrorsDetected: BIP 173 also promises detection of exactly four scattered errors in up to 90 characters; that rests on an exhaustive search over the positions, not on the algebra proved here, and is not covered. Errors in the human-readable part count as changes of expanded symbols.
- ConvertBits.Convert: widths are at least one; zero widths do not occur in the program.
- The genesis script, the explorer's indexer and its lossy cursors, the signature aggregator and submitter, the reward split, the chain oracle, settlement and validator modules, the contracts and the front ends.
- Events, logging, telemetry, JSON and protobuf encodings.
