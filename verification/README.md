# A verified model of the Gamebank node's core

This project models the parts of the Gamebank node that keep state or do real arithmetic, and proves what they
promise for all inputs and all runs. `dafny verify dfyconfig.toml` checks it.

| component | files |
|---|---|
| witness scheduler | `VirtualClock`, `WitnessSelection`, `WitnessSchedule`, `VersionTally`, `Shuffle`, `WitnessScheduler`, `WitnessRounds`, `WitnessRuns` |
| 128-bit integers and fixed point | `Words`, `Uint128`, `Decimal`, `Uint128Text`, `Real128` |
| rewards | `Reward` |
| block synchronisation | `BlockIds`, `Synopsis`, `SyncState`, `SyncRuns`, `SyncEffects`, `SyncNode` |
| message cache and framing | `MessageCache`, `Framing` |
| persistent account history | `HistoryTables`, `VolatileIndex`, `HistoryMachine`, `AccountHistory`, `HistoryRuns`, `HistoryLimits`, `HistoryContents`, `HistoryQueries`, `HistoryReplay` |
| key index | `AccountByKey` |
| schema closure | `Schema` |
| shared | `Collections`, `Ordering` |

Code that updates objects in place is modelled by classes (`U128`, `Real`, `Scheduler`, `Node`, `Cache`, `Connection`,
`Plugin`, `KeyIndex`) whose methods are proved against functions or relations on values; the theorems over runs are
lemmas about those.

## What the proofs found

Places where the code does less than one would expect. Each has a member that states exactly when.

* A scheduling round fails exactly when fewer witnesses hold a signing key than the round expects
  (`Scheduler.Round`, libraries/chain/witness_schedule.cpp:191-193).
* An active sync request is orphaned, on record with no peer to answer it, if and only if a peer it was sent to answered
  that it lacks the block, or was deleted from the terminating list; from then on no iteration of the fetch loop ever
  requests the block again, from any peer (`OrphanedIfAbandoned`, `NeverFetchedAgain`, libraries/net/node.cpp:1499-1504
  and 2882-2896).
* The synopsis loop never ends when its 32-bit arithmetic wraps: the last block number is 2^32 - 1, or it is 2^32 - 2
  and the loop starts at block 0. Otherwise it ends, and its index assertion fails exactly when the delegate's part
  starts beyond the list; on a list that goes past block number 2^32 - 1 it never fails, but at most one block is sampled,
  and not the last one (`WrappingNeverEnds`, `Create`, libraries/net/node.cpp:2407-2458).
* A failing index assertion leaves the peer connected but unasked after an inventory, and ends the connection after a
  block, although the block was requested (`AskedFor`, `AskedAfterBlock`, libraries/net/node.cpp:2756-2772 and 3668-3698).
* A cached message expires after its duration if and only if the 32-bit block clock can still exceed the block it expires
  at; received in the last blocks before the clock wraps around, it is never dropped (`FoundExactlyWhileFresh`,
  `FoundForEver`, libraries/net/node.cpp:185-191).
* A real128 survives printing and parsing exactly when its integer part is below 2^64 (`Real128.PrintParse`).
  More than eighteen fraction digits overflow the signed accumulator; the parse outcome says so.
* The key index does not see every change of keys: neither handler knows `create_claimed_account` or what a hardfork
  does to authorities. An account that is listed exactly stays so under an event if and only if the event does not change
  its keys through such an operation (`ExactUnlessMissed`, libraries/chain/gamebank_evaluator.cpp:1841-1876 and
  libraries/chain/database.cpp:4608-4625). What is missing once, for these accounts and for those of genesis, stays
  missing through updates while the account keeps the key (`MissingAfter`, `StaysMissing`).
* On a store that holds no block number yet, every irreversibility notice fails, nothing is imported and closing writes
  nothing, so that opening the store again starts over: the number that opening puts into the batch never reaches the store
  (`FreshNeverImports`, `FreshStoreStaysFresh`). Only a reindex or an import ends this.
* The block number in the store lags. Over a run from a store just opened, closing stores the number of the last notice
  acted on if and only if the operations imported since the opening are not a multiple of the write limit, or that number
  was in the batch already and the notice filled the limit (`CloseStoresLast`); after one operation and its notice it
  depends on the write limit (`CloseDependsOnLimit`).
* A notice compares with that stored number, so what is imported can depend on the write limit, when operations of a block
  arrive after its own notice (`LogDependsOnLimit`). A run imports what it would without the comparison if and only if no
  notice finds an operation due and skips it (`FollowsUnlessSkipped`). If operations are applied strictly after the last
  block acted on and no notice inside an undone session imports anything, then nothing is ever skipped and every write
  limit gives the same log at every moment, with sessions started, squashed, committed and undone at will
  (`SafeRunsAgree`).
* Irreversibility notices are given while the head block is applied, so undoing that block restores the pending
  operations it imported, and a second notice imports them again (`ImportTwice`, libraries/chain/database.cpp:3839-3844).
  Importing is exactly-once over a run if and only if no notice inside an undone session found an operation due with an
  earlier number in the store (`RunIsExact`).
* Asking for an account's history with a limit returns up to one operation more than the limit, and the entry to start
  from is cut to 32 bits (`FindForAccount`, account_history_rocksdb_plugin.cpp:830-887).

## Conventions

The vote change follows `adjust_witness_vote` in libraries/chain/database.cpp:1442-1462, which divides by the votes plus
one where the comment in witness_objects.hpp:115 divides by the votes. Account names and hashes are numbers with the
order that the indices use; the empty name is 0. Clocks, price feeds, the chain delegate and other code outside a
component are parameters. Arithmetic is unbounded except where the width matters, and there it is written out. Ordered
indices are iterated through `Ordering.InOrder`, which allows any order among equal keys. A round that throws is undone
by the database session around the block, so `Scheduler.Round` leaves the object unchanged when it fails. The 256-bit
integers of the reward code do not overflow for its operands and are exact. Conversions between uint128 and bigint go
through decimal text; `FromBigintIsByText` shows that this is truncation to 128 bits, which is how `Real.Multiply` and
`Real.Divide` use it.

## Model

| member | source | states |
|---|---|---|
| `VirtualClock.RoundKeepsInv` | libraries/chain/witness_schedule.cpp:143-189 | a round, also one that overflows midway and resets, leaves every witness scheduled at or after the virtual time, which moves forward unless it is reset to 0 |
| `VirtualClock.RoundReschedules` | libraries/chain/witness_schedule.cpp:143-189 | the clock goes to the time of the last witness processed, and each one processed is rescheduled by one lap at its own speed, to within one unit; if one of them does not finish before the end of time, the clock restarts at zero with a lap ahead of everyone; all others keep their time |
| `VirtualClock.RunKeepsInv` | libraries/chain/witness_schedule.cpp:10-28 | the same bound in every state of every run of rounds, vote changes and new witnesses |
| `VirtualClock.ClockNeverGoesBack` | libraries/chain/witness_schedule.cpp:185-189 | between resets the clock never decreases, over any run |
| `VirtualClock.RoundReducesLead` | libraries/chain/witness_schedule.cpp:143-184 | a round that processes someone but not w strictly reduces the total lead of the others over w's time, which is unchanged |
| `VirtualClock.NewcomersWait` | libraries/chain/witness_schedule.cpp:170-177 | a witness at the end of time, where newcomers start, is not processed by a round that neither processes w nor resets |
| `VirtualClock.NoStarvation` | libraries/chain/witness_schedule.cpp:143-184 | a run with more rounds than that total lead, none resetting, with witnesses joining in between, processes w |
| `VirtualClock.FullLapSharesArePositive` | libraries/protocol/include/gamebank/protocol/config.hpp:240 | with the chain's lap length every lap share of a 64-bit vote is positive |
| `WitnessSelection.SelectVoted` | libraries/chain/witness_schedule.cpp:90-104 | the voted group is keyed and leaves a keyed witness out only when full of witnesses ranking at or above it; exactly its members are tagged |
| `WitnessSelection.SelectMiners` | libraries/chain/witness_schedule.cpp:108-138 | the miners are the keyed, not yet voted ones among the first waiting witnesses, taken until enough are found; exactly those looked at leave the queue |
| `WitnessSelection.SelectTimeshare` | libraries/chain/witness_schedule.cpp:142-164 | a prefix of the schedule order is processed, just long enough to fill the round; the chosen are its keyed witnesses not already taken |
| `WitnessSelection.AdvanceProcessed` | libraries/chain/witness_schedule.cpp:168-184 | the loop stops with a reset exactly if some processed witness's new time exceeds 128 bits; otherwise all are rescheduled |
| `WitnessSelection.WrapDetectsOverflow` | libraries/chain/witness_schedule.cpp:172-177 | the comparison after the wrapping addition detects exactly the overflows |
| `WitnessSelection.RestartedClock` | libraries/chain/witness_schedule.cpp:10-28 | restarting every lap from 0 gives the clock that a round has to leave when one of its times overflows |
| `WitnessSelection.Advance` | libraries/chain/witness_schedule.cpp:143-189 | the new times and clock are those of one round of the value-level clock; those processed start a new lap at the new virtual time with position 0, all others keep position, last update and time, and a reset puts everyone at position 0 and update 0; nothing but clock fields changes |
| `WitnessSchedule.SelectActive` | libraries/chain/witness_schedule.cpp:90-164 | the active list is duplicate-free, keyed and of length min(size, number of keyed witnesses); each witness carries the tag of its group or the one it had, and exactly those looked at leave the mining queue |
| `WitnessSchedule.SumOfWeightsSplits` | libraries/chain/witness_schedule.cpp:281-284 | a group of one tag adds its size times the tag's weight to the sum of weights |
| `WitnessScheduler.FactorIsSum` | libraries/chain/witness_schedule.cpp:281-284 | the pay normalization factor is the sum of the weights of the members' tags |
| `VersionTally.Count` | libraries/chain/witness_schedule.cpp:199-215 | one counter per distinct value, equal to its number of occurrences |
| `VersionTally.MajorityVersion` | libraries/chain/witness_schedule.cpp:217-232 | the greatest running version that at least the required number run or exceed, the old one if there is none |
| `VersionTally.WinningProposal` | libraries/chain/witness_schedule.cpp:234-254 | the least proposal with the required votes, or none if there is none |
| `VersionTally.AtMostOneWinner` | libraries/chain/witness_schedule.cpp:236-254 | when more than half of the votes are required, two winners are the same proposal |
| `WitnessScheduler.DecideHardfork` | libraries/chain/witness_schedule.cpp:234-263 | the next hardfork is the least winning proposal with its time; with no winner it reverts to the current version and the time stays |
| `Shuffle.ShuffledPermutes` | libraries/chain/witness_schedule.cpp:286-302 | the shuffle is a permutation that never disturbs slots already passed |
| `Shuffle.ShuffledExchanges` | libraries/chain/witness_schedule.cpp:286-302 | shuffling exchanges each slot in turn with the one the generator selects: itself plus the generated number modulo the slots left |
| `Shuffle.MixHasStages` | libraries/chain/witness_schedule.cpp:291-295 | the generator, bit by bit: three rounds that change a bit exactly if the bit 12 above, 25 below and 27 above it is set, between the two multiplications modulo 2^64 |
| `Shuffle.StagesAreUnique` | libraries/chain/witness_schedule.cpp:291-295 | these rounds determine the generated number |
| `Shuffle.ShuffleInPlace` | libraries/chain/witness_schedule.cpp:286-302 | the first slots become the shuffled list, the rest are untouched |
| `Shuffle.Median` | libraries/chain/witness_schedule.cpp:41-67 | an element with at most half of the values below it and more than half not above it |
| `WitnessScheduler.Medians` | libraries/chain/witness_schedule.cpp:30-75 | each of the four properties gets its median |
| `WitnessScheduler.Scheduler.Publish` | libraries/chain/witness_schedule.cpp:268-302 | the names are written, the rest cleared, and the first slots shuffled |
| `WitnessScheduler.Scheduler.Round` | libraries/chain/witness_schedule.cpp:84-310 | fails, changing nothing, exactly if too few witnesses are keyed; otherwise selection, clock, versions, hardfork, factor, schedule and medians are as specified, and the state stays valid |
| `WitnessScheduler.RoundKeepsValid` | libraries/chain/witness_schedule.cpp:84-310 | every outcome allowed for a round keeps names, clock bound and queue count valid |
| `WitnessScheduler.Scheduler.AdjustVote` | libraries/chain/include/gamebank/chain/witness_objects.hpp:106-131 | fails, changing nothing, exactly if the votes would exceed the vesting shares; otherwise the witness has the new votes and is settled as by `Revote`, and the state stays valid |
| `WitnessScheduler.RevoteKeepsValid` | libraries/chain/include/gamebank/chain/witness_objects.hpp:117-131 | a vote change keeps the clock bound, also when the time wraps |
| `WitnessScheduler.RevotedSettles` | libraries/chain/include/gamebank/chain/witness_objects.hpp:106-127 | whatever wraps: the new votes, the last update now, the position advanced by the old votes for the time passed modulo 2^128, the time at which the rest of the lap is finished at the new speed or the end of time, and no other field changes |
| `WitnessScheduler.RevoteSettles` | libraries/chain/include/gamebank/chain/witness_objects.hpp:117-131 | a vote change settles that one witness; all other witnesses and the rest of the schedule are as before |
| `WitnessRounds.RoundChooses` | libraries/chain/witness_schedule.cpp:90-164 | no keyed witness is left out of the voted group unless it is full of witnesses with more votes, or as many and a smaller name; the miners are the keyed ones of the oldest proofs of work; the others are the next in virtual time |
| `WitnessRounds.RoundTallies` | libraries/chain/witness_schedule.cpp:199-263 | counted over the witnesses scheduled before: the majority version is the newest that enough of them run or exceed, the next hardfork the first proposal that enough of them vote for, and without one the current values stay |
| `WitnessRounds.RoundAgrees` | libraries/chain/witness_schedule.cpp:30-75 | creation fee and block size are each asked for by a witness now scheduled, with at most half of them asking for less and more than half for at most that |
| `WitnessRounds.RoundAgreesOnRates` | libraries/chain/witness_schedule.cpp:30-75 | the same for the interest rate and the subsidy limit |
| `WitnessRounds.RoundPays` | libraries/chain/witness_schedule.cpp:281-284 | the pay factor is the sizes of the three groups of the round, each times its weight |
| `WitnessScheduler.RevotedFinishesLap` | libraries/chain/include/gamebank/chain/witness_objects.hpp:106-127 | before the end of the lap nothing wraps: the position advances by the old votes for the time passed, and the rest of the lap is finished at the new speed, to within one unit, or at the end of time |
| `WitnessRuns.RoundPublishes` | libraries/chain/witness_schedule.cpp:266-302 | after a round the first slots hold a permutation of the active names, none twice, as many as min(size, keyed witnesses), and the rest are empty |
| `WitnessRuns.NextKeepsValid` | libraries/chain/witness_schedule.cpp:84-310 | rounds, votes, new witnesses, edits and proofs of work keep the state valid |
| `WitnessRuns.WorkKeepsValid` | libraries/chain/include/gamebank/chain/witness_objects.hpp:80-86 | counting a new proof of work keeps the queue count exact |
| `WitnessRuns.RunStaysValid` | libraries/chain/witness_schedule.cpp:84-310 | every state of every run is valid |
| `WitnessRuns.RunIsClockRun` | libraries/chain/witness_schedule.cpp:143-189 | the clock of any scheduler run is a run of the value-level clock |
| `WitnessRuns.VirtualTimeNeverGoesBack` | libraries/chain/witness_schedule.cpp:185-189 | over any scheduler run the virtual time decreases only by a reset |
| `WitnessRuns.EveryWitnessIsProcessed` | libraries/chain/witness_schedule.cpp:143-184 | while votes do not change and rounds leave a timeshare slot and do not reset, every witness is processed within a number of rounds fixed at the start, whatever key edits, proofs of work and new witnesses come in between |
| `Uint128.U128.Add` | libraries/fc/include/fc/uint128.hpp:58 | addition modulo 2^128 |
| `Uint128.U128.Negated` | libraries/fc/include/fc/uint128.hpp:44 | two's complement negation |
| `Uint128.U128.Subtract` | libraries/fc/include/fc/uint128.hpp:59 | subtraction modulo 2^128 |
| `Uint128.U128.ShiftLeft` | libraries/fc/src/uint128.cpp:154-185 | multiplication by 2^n modulo 2^128, 0 from 128 on |
| `Uint128.U128.ShiftRight` | libraries/fc/src/uint128.cpp:187-218 | division by 2^n, 0 from 128 on |
| `Uint128.U128.Multiply` | libraries/fc/src/uint128.cpp:257-295 | the product modulo 2^128, also when multiplying by itself |
| `Uint128.FullProduct` | libraries/fc/src/uint128.cpp:297-349 | high and low result together are exactly the product |
| `Uint128.SumPartials` | libraries/fc/src/uint128.cpp:331-343 | the four words are the sum of the four partial products |
| `Uint128.NoCarryLost` | libraries/fc/src/uint128.cpp:338-343 | the carries are accounted for, and the top word does not overflow when the total is a 256-bit number |
| `Uint128.Divide` | libraries/fc/src/uint128.cpp:14-45 | quotient and remainder for every nonzero divisor, whatever objects alias; a zero divisor changes nothing |
| `Uint128.Modulo` | libraries/fc/src/uint128.cpp:250-255 | the remainder replaces the numerator it was computed from |
| `Uint128.Normalise` | libraries/fc/src/uint128.cpp:27-30 | the first loop ends with divisor and bit scaled by the same power of two and the numerator below twice the divisor |
| `Uint128.ReducingStep` | libraries/fc/src/uint128.cpp:32-40 | one subtract-and-shift step keeps answer times divisor plus rest equal to the numerator |
| `Decimal.TextDenotes` | libraries/fc/src/uint128.cpp:131-151 | the decimal text consists of digits, has no leading zero and denotes the number |
| `Uint128Text.Print` | libraries/fc/src/uint128.cpp:131-151 | prints the decimal text, never exhausting the buffer |
| `Uint128Text.Parse` | libraries/fc/src/uint128.cpp:47-117 | the value of sign, radix prefix and longest digit run, modulo 2^128 |
| `Uint128Text.ParseText` | libraries/fc/src/uint128.cpp:47-117 | decimal text of any number parses to the number modulo 2^128, never as octal |
| `Uint128Text.HexPrefix` | libraries/fc/src/uint128.cpp:66-76 | digits after 0x are read as hexadecimal, modulo 2^128 |
| `Uint128Text.OctalPrefix` | libraries/fc/src/uint128.cpp:66-76 | digits after a leading 0 are read as octal, modulo 2^128 |
| `Uint128Text.MinusNegates` | libraries/fc/src/uint128.cpp:60-63 | a minus sign gives the two's complement |
| `Decimal.LetterDigits` | libraries/fc/src/uint128.cpp:82-104 | letters of either case are the digits from ten on, if below the radix |
| `Uint128Text.PrintParse` | libraries/fc/src/uint128.cpp:131-151 | parsing what was printed gives the number back |
| `Real128.FromBigintIsByText` | libraries/fc/src/uint128.cpp:126-129 | converting through decimal text is truncation to 128 bits |
| `Real128.Real.Multiply` | libraries/fc/src/real128.cpp:42-50 | the exact product divided by the precision, truncated to 128 bits |
| `Real128.Real.Divide` | libraries/fc/src/real128.cpp:29-40 | the scaled quotient, or failure for a zero divisor |
| `Real128.Real.Print` | libraries/fc/src/real128.cpp:100-112 | integer part, point, and eighteen fraction digits without trailing zeros |
| `Real128.GuardDigit` | libraries/fc/src/real128.cpp:105-106 | adding the precision and dropping the first digit pads the fraction to eighteen digits |
| `Real128.TrimZerosDenotes` | libraries/fc/src/real128.cpp:108-109 | dropping trailing zeros scales the denoted number by the power of ten dropped |
| `Real128.FractionIsExact` | libraries/fc/src/real128.cpp:85-96 | the fixed-point division of at most eighteen digits is exact |
| `Real128.Parse` | libraries/fc/src/real128.cpp:53-99 | the value of integer digits and fraction digits, with the outcomes for text that is not a number and for overflow |
| `Real128.PrintParse` | libraries/fc/src/real128.cpp:53-112 | the round trip succeeds if and only if the integer part is below 2^64 |
| `Reward.FindMsbIsMsb` | libraries/chain/util/reward.cpp:7-15 | the index of the most significant bit across both words |
| `Reward.ApproxSqrtError` | libraries/chain/util/reward.cpp:17-36 | the root fits in 64 bits, is at least the floor of the true root, and 8 r^2 <= 9 x |
| `Reward.ApproxSqrtMonotone` | libraries/chain/util/reward.cpp:17-36 | non-decreasing, also across exponent boundaries |
| `Reward.QuadraticCurve` | libraries/chain/util/reward.cpp:75-80 | r^2 + 2rs modulo 2^128, whatever wraps in between |
| `Reward.QuadraticCurveExact` | libraries/chain/util/reward.cpp:75-80 | exactly r^2 + 2rs whenever that fits |
| `Reward.CurveIsRight` | libraries/chain/util/reward.cpp:69-96 | the value of each of the four curves: r^2 + 2rs modulo 2^128; the low word of r scaled by 2^64 and divided by r + 2s, failing exactly where that wraps to zero; r; a square root with both error bounds |
| `Reward.RewardIsShare` | libraries/chain/util/reward.cpp:38-67 | the payout without a feed is the fund's share of the weighted curve value, with both roundings exact; the assertions fail exactly if there are no reward shares or no claims, the curation divisor wraps to zero, or the share exceeds a signed 64-bit number |
| `Reward.FeedOnlyLowers` | libraries/chain/util/reward.cpp:57-64 | against the same context without a feed: a feed changes no failure, makes dust 0, cuts any other payout to the cap read as unsigned, and leaves it otherwise |
| `Reward.AfterFeed` | libraries/chain/util/reward.cpp:57-64 | dust becomes 0, the result is within the cap and never above the payout, and less only at the cap; without a feed nothing changes |
| `Reward.PayoutWithinShare` | libraries/chain/util/reward.cpp:38-67 | a payout is at most the fund's share of the curve value |
| `Reward.PayoutIsTight` | libraries/chain/util/reward.cpp:45-55 | without a price feed the payout is the share of the fund that the value of the curve, as specified for each curve, gives, up to the two roundings, bounded from both sides |
| `Reward.PayoutsConserved` | libraries/chain/util/reward.cpp:38-67 | payouts of comments whose curve values sum to at most the total sum to at most the fund |
| `BlockIds.IsSequential` | libraries/net/node.cpp:2500-2529 | the check accepts exactly the runs of consecutive block numbers, in 32-bit arithmetic |
| `BlockIds.MergedIsConsecutive` | libraries/net/node.cpp:2607-2690 | flushing, fork-switch truncation and appending keep the list consecutive |
| `BlockIds.MergedContinues` | libraries/net/node.cpp:2647-2690 | a response continues the list from the last block both have, or replaces it if they share none |
| `BlockIds.MergedIsMerge` | libraries/net/node.cpp:2607-2690 | all cases of a response: an empty one changes nothing; into an empty list it goes without the known blocks at its front, or whole if another peer offers its first block next; otherwise it continues or replaces the list |
| `BlockIds.MergeIntoList` | libraries/net/node.cpp:2647-2690 | what is kept and what is appended make up the specified list, and the first block appended never repeats the last kept, so the assertion there never fails |
| `BlockIds.FlushKnown` | libraries/net/node.cpp:2628-2645 | drops exactly the known blocks at the front |
| `BlockIds.BackToPrefix` | libraries/net/node.cpp:2660-2666 | the longest prefix that ends with the block, empty if the block does not occur |
| `Synopsis.Create` | libraries/net/node.cpp:2407-2458 | unless the delegate starts beyond the list, which is exactly when the index assertion fails, the samples are at increasing places, end with the last block and take logarithmically many steps; a list past block number 2^32 - 1 is sampled only where the loop starts, and the loop ends |
| `Synopsis.SampleIncreases` | libraries/net/node.cpp:2444-2454 | sampled block numbers are strictly increasing |
| `Synopsis.WrappingNeverEnds` | libraries/net/node.cpp:2444-2454 | where the arithmetic wraps, guard and index check hold at every step for ever |
| `SyncState.MoveKeepsInv` | libraries/net/node.cpp:4843-4877 | moving a connection between lists keeps the sync invariant and leaves it in at most one list |
| `SyncState.CloseKeepsInv` | libraries/net/node.cpp:3018-3107 | a closed connection gives back exactly its own requests, which can be fetched again; the invariant and all other requests are kept |
| `SyncState.BlockKeepsInv` | libraries/net/node.cpp:3620-3700 | a sync block moves from requested to received; an unrequested one only ends the connection; the invariant is kept in every branch |
| `SyncState.MissingKeepsInv` | libraries/net/node.cpp:2882-2896 | a report of a missing block keeps the invariant |
| `SyncEffects.MoveMeans` | libraries/net/node.cpp:4843-4877 | a moved peer is in that list and in no other, and nothing else changes |
| `SyncEffects.ConnectMeans` | libraries/net/node.cpp:4785-4790 | a new peer is handshaking and idle, and all others are untouched |
| `SyncEffects.GoneMeans` | libraries/net/node.cpp:3018-3107 | a peer that goes is in no list; its requests are given back if it was closed and stay if it was deleted |
| `SyncEffects.RestartMeans` | libraries/net/node.cpp:4040-4050 | restarting clears the peer's list and counts, needs its blocks again, lifts the inhibition, and asks or ends the connection |
| `SyncEffects.BlockMeans` | libraries/net/node.cpp:3620-3700 | field by field: which item or request is ticked off, what arrives first in line, when more ids are asked for and when the connection ends |
| `SyncEffects.MissingMeans` | libraries/net/node.cpp:2866-2899 | field by field: a regular item is ticked off; a requested block is no longer requested of the peer but stays on record, and the peer is inhibited or disconnected |
| `SyncEffects.PlanMeans` | libraries/net/node.cpp:1056-1090 | a plan asks only peers that are active, needed, idle and not inhibited, for different blocks of their lists that are neither here nor on their way, and leaves one out only if a share is full |
| `SyncEffects.FetchMeans` | libraries/net/node.cpp:1092-1108 | each peer gains exactly the requests planned for it |
| `SyncEffects.BacklogTakesFirst` | libraries/net/node.cpp:3330-3421 | a round takes up the first block, latest arrivals first, that some active peer's list starts with: it goes off the front of every such list and of no other, it is in processing for exactly these peers if handed over and for no active peer if recently accepted |
| `SyncEffects.InventoryMeans` | libraries/net/node.cpp:2490-2778 | when a response is ignored, when it ends the connection, and what it leaves in ids, unfetched count, open request and need for sync, which is cleared exactly if the peer has nothing more |
| `SyncRuns.FetchKeepsInv` | libraries/net/node.cpp:1047-1108 | new requests are disjoint from each other, from old requests and from received blocks, and within the limit |
| `SyncRuns.InventoryKeepsInv` | libraries/net/node.cpp:2490-2778 | an inventory message keeps the invariant in every branch |
| `SyncRuns.BacklogConserves` | libraries/net/node.cpp:3342-3421 | one backlog round loses no block; a block handed over was next for an active peer and not recently accepted |
| `SyncRuns.DrainConserves` | libraries/net/node.cpp:3342-3433 | over any number of rounds received blocks are what is held plus what was handed over, each once |
| `SyncRuns.NextKeepsInv` | libraries/net/node.cpp:1013-1108 | every step keeps: request sets pairwise disjoint, among the active requests, not yet received and within the limit; received lists duplicate-free; id lists consecutive; lists disjoint |
| `SyncRuns.ReachableInv` | libraries/net/node.cpp:1013-1108 | the same in every reachable state |
| `SyncRuns.AbandonOrphans` | libraries/net/node.cpp:2882-2896 | after a missing report or a deletion the block is an active request of nobody |
| `SyncRuns.OthersStayHeld` | libraries/net/node.cpp:1499-1504 | no other step parts an active request from the peer it was sent to |
| `SyncRuns.OrphanedIfAbandoned` | libraries/net/node.cpp:1499-1504 | in every run from the start a request is orphaned if and only if it was abandoned by a missing report or a deletion |
| `SyncRuns.NeverFetchedAgain` | libraries/net/node.cpp:1072-1086 | such a block is never requested again in any continuation |
| `SyncNode.Pick` | libraries/net/node.cpp:1072-1086 | picks distinct blocks neither received, requested nor planned, at most max(1, limit), and stops short only when none is left |
| `SyncNode.PlanRequests` | libraries/net/node.cpp:1056-1090 | the plan serves willing idle peers only, disjointly, and leaves nothing fetchable unless a share is full |
| `SyncNode.Node.FetchSyncItems` | libraries/net/node.cpp:1047-1098 | requests exactly the plan, nothing while suspended |
| `SyncNode.Node.Send` | libraries/net/node.cpp:1092-1095 | sending peer by peer requests the whole plan |
| `SyncNode.Node.OnConnect` | libraries/net/node.cpp:4785-4790 | a new connection starts handshaking with nothing requested |
| `SyncNode.Node.OnBlock` | libraries/net/node.cpp:3620-3700 | the step for a block message, regular items, more ids and disconnection included, also where asking for ids fails its assertion |
| `SyncNode.Node.OnItemNotAvailable` | libraries/net/node.cpp:2866-2899 | the step for a missing item, regular or sync |
| `SyncNode.Node.OnTerminated` | libraries/net/node.cpp:1499-1504 | the step for a connection deleted from the terminating list |
| `SyncNode.Node.AskForIds` | libraries/net/node.cpp:2460-2488 | the synopsis is recorded as asked, or the connection ends on too old a fork, or a failed assertion leaves the peer unasked; the invariant is kept |
| `SyncNode.Node.OnConnectionClosed` | libraries/net/node.cpp:3018-3107 | the step for a closed connection |
| `SyncNode.Node.StartSynchronizing` | libraries/net/node.cpp:4040-4050 | the peer's list is cleared, fetching re-enabled and ids asked for, with each outcome of asking |
| `SyncNode.Node.MoveTo` | libraries/net/node.cpp:4843-4877 | the step between connection lists |
| `SyncNode.Node.OnInventory` | libraries/net/node.cpp:2490-2778 | ignores unsolicited responses, disconnects on invalid or implausible ones, recognises being up to date, merges otherwise and asks for more ids when few are known or none is left; a failed assertion then leaves the peer connected and unasked |
| `SyncNode.Node.CheckResponse` | libraries/net/node.cpp:2500-2571 | accepts exactly the responses that are empty or consecutive and start where the synopsis allows |
| `SyncNode.Node.AdvanceBacklog` | libraries/net/node.cpp:3342-3421 | the first received block that is next for a peer is popped from every such peer and handed over, or only popped if recently accepted |
| `SyncNode.Node.ProcessBacklog` | libraries/net/node.cpp:3300-3439 | runs rounds until one hands nothing over or the handling limit is reached, and then suspends fetching exactly if enough blocks are held |
| `MessageCache.FoundExactlyWhileFresh` | libraries/net/node.cpp:185-213 | a message cached at clock c is found unchanged exactly while the clock is at most c + duration, and later only a later caching, provided the 32-bit clock does not wrap around within the duration |
| `MessageCache.FoundForEver` | libraries/net/node.cpp:185-213 | otherwise the message is found for ever |
| `MessageCache.ExpiresWhenOld` | libraries/net/node.cpp:185-191 | the wrapped comparison drops a message exactly when it is older than the duration, or never |
| `MessageCache.RecachingChangesNothing` | libraries/net/node.cpp:193-204 | caching under a present hash changes no answer, now or after any continuation |
| `MessageCache.AcceptStep` | libraries/net/node.cpp:185-191 | erasing the entries below clock - duration removes exactly those the wrapped comparison calls expired |
| `MessageCache.Cache.BlockAccepted` | libraries/net/node.cpp:185-191 | the cache keeps answering as the full log |
| `MessageCache.Cache.CacheMessage` | libraries/net/node.cpp:193-204 | the same after caching |
| `MessageCache.Cache.GetMessage` | libraries/net/node.cpp:206-213 | the answer of the full log |
| `MessageCache.Cache.GetPropagationData` | libraries/net/node.cpp:215-225 | data of some cached message with the contents, none for the zero hash or if there is none |
| `Framing.BytesRoundTrip` | libraries/net/include/graphene/net/message.hpp:40-44 | header fields survive the encoding, least significant byte first |
| `Framing.RemainingFits` | libraries/net/message_oriented_connection.cpp:165-173 | the reader's wrapping size arithmetic agrees with the sender's padding, sizes below 8 included |
| `Framing.FrameMeans` | libraries/net/message_oriented_connection.cpp:229-276 | a frame is the fewest whole blocks that hold size, type and data in this order, filled with zeros |
| `Framing.ReadWhatWasSent` | libraries/net/message_oriented_connection.cpp:141-173 | reading delivers exactly the messages up to the first that is oversized or fails; with none, all of them, counting every byte |
| `Framing.Connection.SendMessage` | libraries/net/message_oriented_connection.cpp:229-276 | writes the padded frame and counts it |
| `Framing.Connection.ReadLoop` | libraries/net/message_oriented_connection.cpp:141-208 | delivers and counts what the reference reading of the stream does, and ends for the same reason, a failing delegate included |
| `Framing.Transmit` | libraries/net/message_oriented_connection.cpp:141-276 | all messages arrive with equal byte counters if and only if none is oversized or fails in the delegate; otherwise everything before the first such message was delivered |
| `HistoryTables.HistoryLists` | libraries/plugins/account_history_rocksdb/account_history_rocksdb_plugin.cpp:1079-1123 | an account's history lists exactly the operations that impact it, in increasing order |
| `HistoryTables.NoteKeepsRecords` | libraries/plugins/account_history_rocksdb/account_history_rocksdb_plugin.cpp:1079-1123 | one more record extends exactly one account's entries, 0 to newest |
| `HistoryTables.IdealMeans` | libraries/plugins/account_history_rocksdb/account_history_rocksdb_plugin.cpp:489-531 | dense ids in log order with block, time and body of the operation and two counters cut to 16 bits; one block key per operation and no other, naming its block, its id and in the top bit whether it is virtual; and entries that are exactly the histories |
| `HistoryTables.KeysDiffer` | libraries/plugins/account_history_rocksdb/account_history_rocksdb_plugin.cpp:514-521 | two operations never share a block key, and an operation has only one |
| `HistoryTables.IdealDates` | libraries/plugins/account_history_rocksdb/account_history_rocksdb_plugin.cpp:1107-1122 | there are as many accounts as have information, and each records the time of its first operation |
| `HistoryQueries.FindByBlock` | libraries/plugins/account_history_rocksdb/account_history_rocksdb_plugin.cpp:906-924 | finds exactly the operations of the block, each once and as stored, others before virtual ones, each in log order |
| `HistoryQueries.FindForAccount` | libraries/plugins/account_history_rocksdb/account_history_rocksdb_plugin.cpp:830-887 | finds the account's operations from the entry asked for, cut to 32 bits, or the newest, downwards: the first and up to limit more |
| `AccountHistory.Plugin.GetInfo` | libraries/plugins/account_history_rocksdb/account_history_rocksdb_plugin.cpp:310-330 | always the store overlaid with the pending batch |
| `AccountHistory.Plugin.PutInfoCached` | libraries/plugins/account_history_rocksdb/account_history_rocksdb_plugin.cpp:332-339 | the cache keeps agreeing with the overlay |
| `AccountHistory.Plugin.BuildRecord` | libraries/plugins/account_history_rocksdb/account_history_rocksdb_plugin.cpp:1079-1123 | the overlay gains the record that immediate writing would |
| `AccountHistory.Plugin.ImportOperation` | libraries/plugins/account_history_rocksdb/account_history_rocksdb_plugin.cpp:489-531 | the overlay stays what writing the log one by one gives, flushed or not |
| `AccountHistory.Plugin.Flush` | libraries/plugins/account_history_rocksdb/account_history_rocksdb_plugin.cpp:566-612 | the batch reaches the store, the overlay is unchanged, and the stored last irreversible block becomes the batch's |
| `AccountHistory.Plugin.FlushStorage` | libraries/plugins/account_history_rocksdb/account_history_rocksdb_plugin.cpp:614-629 | the tables and sequence numbers in the store are those of the log; the block number is stored only with collected operations |
| `HistoryMachine.CountedWrites` | libraries/plugins/account_history_rocksdb/account_history_rocksdb_plugin.cpp:524-528 | importing operations writes the batch, block number included, exactly if they fill the write limit, and leaves the remainder collected |
| `AccountHistory.OpenedView` | libraries/plugins/account_history_rocksdb/account_history_rocksdb_plugin.cpp:405-421 | opening a store without a block number leaves 0 in the overlay, not in the store |
| `AccountHistory.Plugin.Record` | libraries/plugins/account_history_rocksdb/account_history_rocksdb_plugin.cpp:992-996 | the block number of a notice reaches the overlay only |
| `HistoryRuns.NextKeepsExact` | libraries/plugins/account_history_rocksdb/account_history_rocksdb_plugin.cpp:1341-1406 | applied operations, notices and sessions keep every operation pending or imported once, and the log in block order; only an undo can break it |
| `AccountHistory.Plugin.OnIrreversible` | libraries/plugins/account_history_rocksdb/account_history_rocksdb_plugin.cpp:1381-1406 | fails, changing nothing, exactly if the store holds no block number; otherwise imports exactly the due operations in index order and removes them, if the notice is later than the stored number |
| `VolatileIndex.Due` | libraries/plugins/account_history_rocksdb/account_history_rocksdb_plugin.cpp:1387-1398 | the pending operations up to the block, in index order |
| `VolatileIndex.DueIsUnique` | libraries/plugins/account_history_rocksdb/account_history_rocksdb_plugin.cpp:1387-1398 | which operations are due, and their order, is determined by the index |
| `VolatileIndex.ImportKeepsOnce` | libraries/plugins/account_history_rocksdb/account_history_rocksdb_plugin.cpp:1392-1403 | importing and removing keeps every operation pending or imported, never both or twice |
| `VolatileIndex.ImportKeepsOrder` | libraries/plugins/account_history_rocksdb/account_history_rocksdb_plugin.cpp:1392-1403 | the log stays in block order, also when operations of the block just reported follow |
| `VolatileIndex.UndoIsSafe` | libraries/plugins/account_history_rocksdb/account_history_rocksdb_plugin.cpp:1381-1406 | after an undo once-only holds if and only if nothing was imported since |
| `HistoryRuns.SafeUndoKeepsExact` | libraries/plugins/account_history_rocksdb/account_history_rocksdb_plugin.cpp:1381-1406 | undoing a session in which nothing was imported keeps state and open sessions exact, however sessions nest |
| `HistoryRuns.UndoSafeIfQuiet` | libraries/plugins/account_history_rocksdb/account_history_rocksdb_plugin.cpp:1381-1406 | an undo is safe if and only if no notice since its session was started found an operation due with an earlier number in the store |
| `HistoryRuns.RunIsExact` | libraries/plugins/account_history_rocksdb/account_history_rocksdb_plugin.cpp:1320-1406 | over any run of operations, notices and started, squashed, committed and undone sessions each operation is pending or imported, exactly once, in block order, if and only if every undo is safe |
| `HistoryRuns.RunTablesMean` | libraries/plugins/account_history_rocksdb/account_history_rocksdb_plugin.cpp:489-531 | the tables of such a run have dense ids and exact account histories |
| `HistoryContents.RunHoldsApplied` | libraries/plugins/account_history_rocksdb/account_history_rocksdb_plugin.cpp:1320-1406 | over such a run every operation applied and not undone is on hand as it was applied, in exactly one way: pending under its id, or imported once |
| `HistoryContents.RunImportsInOrder` | libraries/plugins/account_history_rocksdb/account_history_rocksdb_plugin.cpp:1387-1405 | over such a run what was imported is in the order of blocks and, within a block, of application, and before all that is pending |
| `HistoryRuns.FreshNeverImports` | libraries/plugins/account_history_rocksdb/account_history_rocksdb_plugin.cpp:980-990 | from a store without a block number no run imports anything and closing writes nothing |
| `HistoryLimits.FollowsUnlessSkipped` | libraries/plugins/account_history_rocksdb/account_history_rocksdb_plugin.cpp:1385 | a run imports what it would without the comparison, at every moment, if and only if no notice skips an operation that is due |
| `HistoryLimits.WriteLimitsAgree` | libraries/plugins/account_history_rocksdb/account_history_rocksdb_plugin.cpp:527-528 | two write limits import the same at every moment if neither run skips anything |
| `HistoryLimits.NextKeepsAhead` | libraries/plugins/account_history_rocksdb/account_history_rocksdb_plugin.cpp:1381-1406 | while operations come strictly after the last block acted on and undos are safe, both block numbers stay at or before it, what is pending stays after it, and no event skips anything |
| `HistoryLimits.LaterRunsSkipNothing` | libraries/plugins/account_history_rocksdb/account_history_rocksdb_plugin.cpp:1385 | if that holds of the run without the comparison, no run with any write limit skips anything, sessions included, and both have the same history |
| `HistoryLimits.EveryLimitAgrees` | libraries/plugins/account_history_rocksdb/account_history_rocksdb_plugin.cpp:527-528 | then all write limits have the same log at every moment |
| `HistoryLimits.SafeRunsAgree` | libraries/plugins/account_history_rocksdb/account_history_rocksdb_plugin.cpp:527-528 | a run of the plugin with such operations, in which no notice inside an undone session imported anything, skips nothing, and a run with any other write limit has the same log at every moment |
| `HistoryLimits.CollectedIsRemainder` | libraries/plugins/account_history_rocksdb/account_history_rocksdb_plugin.cpp:524-528 | over any run from a store just opened, the operations waiting in the batch are the remainder of all imported by the write limit |
| `HistoryLimits.CloseStoresLast` | libraries/plugins/account_history_rocksdb/account_history_rocksdb_plugin.cpp:614-621 | over such a run closing stores the number of the last notice acted on if and only if that remainder is not zero, or the batch already held the number and the notice filled the limit |
| `HistoryReplay.Replay` | libraries/plugins/account_history_rocksdb/account_history_rocksdb_plugin.cpp:304-351 | opening, running and closing the plugin leaves the tables of the machine's log and the block number the machine stores |
| `HistoryReplay.ReplayAndFind` | libraries/plugins/account_history_rocksdb/account_history_rocksdb_plugin.cpp:906-924 | after opening, running and closing, the operations found for a block are those of the log |
| `HistoryReplay.ReplayAndFindFor` | libraries/plugins/account_history_rocksdb/account_history_rocksdb_plugin.cpp:830-887 | the same for the latest operations of an account |
| `HistoryReplay.FreshStoreStaysFresh` | libraries/plugins/account_history_rocksdb/account_history_rocksdb_plugin.cpp:405-421 | opening a fresh store, running and closing leaves it fresh |
| `HistoryReplay.CloseDependsOnLimit` | libraries/plugins/account_history_rocksdb/account_history_rocksdb_plugin.cpp:614-621 | one operation and its notice leave the old block number stored with write limit 1 and the new one with limit 2 |
| `HistoryReplay.LogDependsOnLimit` | libraries/plugins/account_history_rocksdb/account_history_rocksdb_plugin.cpp:1385-1405 | three operations of a block, each followed by its notice: limit 1 imports two, limit 100 all three |
| `HistoryReplay.ImportTwice` | libraries/plugins/account_history_rocksdb/account_history_rocksdb_plugin.cpp:1381-1406 | a notice inside an undone session and the same notice again put the operation into the log twice |
| `AccountByKey.UpdatedRows` | libraries/plugins/account_by_key/account_by_key_plugin.cpp:161-209 | after an update exactly the keys cached without a row are missing and exactly the stale rows neither held nor cached remain; other accounts keep theirs |
| `AccountByKey.MissingAfter` | libraries/plugins/account_by_key/account_by_key_plugin.cpp:101-138 | what an operation leaves missing for its account, whatever was missing before: an update what is still held, a claimed creation everything, any other nothing |
| `AccountByKey.ExactUnlessMissed` | libraries/plugins/account_by_key/account_by_key_plugin.cpp:44-138 | an account listed exactly, now and in every open session, stays so under a successful, failed or undone operation if and only if its keys are not changed by an operation without handlers |
| `AccountByKey.RunStaysExact` | libraries/plugins/account_by_key/account_by_key_plugin.cpp:44-209 | over any run every account listed exactly at the start, or not existing yet, stays so up to such a change, whatever stale keys are cached and whatever happens to other accounts |
| `AccountByKey.StaysMissing` | libraries/plugins/account_by_key/account_by_key_plugin.cpp:44-209 | a key without a row stays without one while the account keeps it through updates alone |
| `AccountByKey.KeyIndex.CacheAuths` | libraries/plugins/account_by_key/account_by_key_plugin.cpp:151-159 | caches all keys of the three authorities |
| `AccountByKey.KeyIndex.PreApply` | libraries/plugins/account_by_key/account_by_key_plugin.cpp:33-77 | the cache after the handler before an operation |
| `AccountByKey.KeyIndex.PostApply` | libraries/plugins/account_by_key/account_by_key_plugin.cpp:90-144 | the rows after the handler after an operation |
| `AccountByKey.KeyIndex.UpdateKeyLookup` | libraries/plugins/account_by_key/account_by_key_plugin.cpp:161-209 | keys gained get rows, cached keys lost lose theirs, all other rows stay, the cache is emptied |
| `AccountByKey.KeyIndex.Apply` | libraries/plugins/account_by_key/account_by_key_plugin.cpp:211-219 | one operation, failed or applied, is one event of a run |
| `Schema.AddDependentSchemas` | libraries/schema/schema.cpp:18-44 | ends on every finite graph, and returns the reachable schemas, each once, in first-discovery order |
| `Schema.DiscoveryIsUnique` | libraries/schema/schema.cpp:27-41 | that order is determined by the graph and the input |
| `Schema.Idempotent` | libraries/schema/schema.cpp:18-44 | running it on its own result changes nothing |

## Left out

- Synopsis.Create: asks for fewer than 2^32 ids, the range of the 32-bit count, and where the loop never ends `WrappingNeverEnds` takes its place.
- Framing.Connection.SendMessage: byte counters are unbounded, and the size field equals the number of data bytes, as the message constructor makes it.
- SyncNode.Node.OnBlock: what happens to a regular item after it is ticked off, delegate results and other steps that change neither a peer's id list nor its sync requests are the arbitrary step `Touch`.
- SyncNode.Node.OnInventory: the plausibility check against the clock, what the delegate has and what becomes of the request for more ids are parameters.
- WitnessScheduler.Scheduler.AdjustVote: asks that the new votes are not negative, which the vote bookkeeping that calls it ensures.
- AccountHistory.Plugin.OnPostApply: does not model the options that filter operations and accounts.
- AccountHistory.Plugin.BuildRecord: does not model pruning, which is switched off, nor the wrap-around of 32-bit entry numbers.
- HistoryTables.IdealMeans: holds for up to 2^63 operations, the range of the 64-bit operation id below its flag bit.
- Sockets, fibers, timers, encryption, logging and the peer database: handlers are atomic steps.
- Reindexing, bulk import and crash recovery of the history store, and the enumeration of virtual operations over a range of blocks.
- HistoryQueries.FindForAccount: reads a store without pruned entries, since pruning is switched off.
- AccountByKey.RunStaysExact: says nothing of the accounts of genesis, whose keys have no rows at the start; `MissingAfter` does.
- The bit count of uint128, bigint arithmetic itself, boost's division behind `/=`, and the non-assigning `|` of uint128.hpp, which returns its right operand and has no caller in the modelled code.
- The block number of the next shuffle, which nothing reads, and the members of a witness that scheduling does not use.
- Lua contracts, chain operations, the wallet, the API plugins and the follow and reputation rules.
