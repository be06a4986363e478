# Verification of the mining pool core

This project models the parts of the pool that decide money, blocks and protocol safety, and proves what they
promise. Each module follows one component:

- `ByteStrings`: byte strings, fixed-width integers, hexadecimal text, word swapping.
- `Hash256`: comparison of hashes and the truncated division behind every difficulty.
- `Script`, `Coinbase`: pushes, CompactSize integers, the coinbase transaction and the splice of the extranonce, each
  with a reader that inverts it.
- `Rebalance`: the fixed-point sharing out of the block reward.
- `Merkle`: row-by-row reduction, an independent tree, and the branch fold.
- `Share`: network state, jobs, the decision on a submitted share and the cap on job difficulties.
- `Pool`: the job manager and the stratum connections as objects, each method proved against a function on values.
- `Sessions`: one connection over every sequential run. `Publication`: one updater and any number of clients,
  interleaved at every lock boundary. `Announcements`: any number of threads inside `sendJob` of one connection.
- `Miner`: the text of `mining.notify` and `mining.submit` and a miner that works from it alone.
- `Framing`, `MessageBus`, `P2P`: cutting a byte stream into frames for any stable rule, and the two protocols on it.
- `Queue`: the semaphore queue, for one thread and for any number of producers and consumers.
- `Subscriptions`: a bus client and its relay over a connection that drops and reconnects, and the relay's broadcast.

SHA-256d and the mining hash are arbitrary functions to 32 bytes, `double` is `real` with an infinity and a NaN for
division by zero, the host is little-endian, clock readings are inputs, and JSON text is an opaque byte string.

The results that span components:

- A share that solves a block is never refused as "low diff", and the cap on job difficulties is exactly what that
  needs (`Share.CapIsExact`, `Sessions.BlocksAreAccepted`), in every interleaving too (`Publication.BlocksAreAccepted`).
- Whenever no update is in progress every job of every client is for the current block and its coinbase carries the
  current height (`Publication.IdleMeansCurrent`).
- The miner and the server hash the same coinbase and header (`Miner.MinerAndServerAgree`).
- What a receiver delivers is the only reading of its byte stream as frames (`Framing.OnlyParse`), from which both
  protocols deliver exactly what was sent.

Behaviour of the code that the proofs make explicit:

- `rebalance` does not end on some inputs: 33, 33, 33 for a reward of 100 stays at 99. It ends exactly if one of its
  passes rounds nothing (`Rebalance.EndsExactly`), which for rewards of some size shows within three passes.
- `rebalance` can return with every output at zero although there are shares and a reward: two outputs of 100000000
  shares and a reward of 1. `Rebalance.EndsAtZeroExactly` says when.
- A push of the single byte 0 arrives as the empty string (`Script.PushRoundTripExactly`).
- The bus stream parser lets payloads of 32765 to 32768 bytes through, which `doDecode` then refuses
  (`MessageBus.OversizedIsLost`).
- During an update that changes the block, a client that asks between the new information and the new coinbase gets a
  job that pairs them (`Publication.MidUpdateMismatch`), and only then (`Publication.AskedJobMatchesExactly`); it is
  replaced before the update ends.
- `sendJob` holds no lock while it compares, sends and notes a difficulty and sends the job. Two calls at once can
  announce a job under the wrong difficulty and can leave the connection believing another difficulty than the miner
  has; `Announcements.TwoCallsExactly` says in which orders.
- A call to `setSubscriptions`, `subscribe` or `unsubscribe` that overlaps a reconnect can be overtaken by the greeting,
  and the relay then keeps the old list. `Subscriptions.OneGreetingOneCall` says in which orders,
  `Subscriptions.AgreementExactly` when the two sides agree over every run.

## Model

| member | source | states |
|---|---|---|
| `ByteStrings.FromLEOfLE` | lib/util/ByteString.h:52-81 | reading an appended little-endian integer of any width gives it back |
| `ByteStrings.LEOfFromLE` | lib/util/ByteString.h:52-81 | appending the integer read gives back the bytes, so the encoding is one to one |
| `ByteStrings.FromBEIsReversedLE` | lib/util/ByteString.h:83-86 | a big-endian parse is a little-endian parse of the reversed bytes |
| `ByteStrings.Reverse` | lib/util/ByteString.cpp:49-57 | the loop yields every byte at its mirrored position |
| `ByteStrings.Swap32In256` | lib/mining/swap32.h:29-33 | every word of the hash is turned round in place, nothing else moves |
| `ByteStrings.SwapWord` | lib/mining/swap32.h:17-20 | one word is turned round in place, the rest of the array is unchanged |
| `ByteStrings.Swapped32Twice` | lib/mining/swap32.h:29-33 | swapping twice is the identity |
| `ByteStrings.Swapped32Concat` | lib/mining/swap32.h:29-33 | swapping works word by word across a concatenation |
| `ByteStrings.AsHex` | lib/util/ConstByteStringRef.cpp:5-20 | prints two digits a byte, lower case only, and parsing the text gives the bytes back |
| `ByteStrings.ParseHex` | lib/util/ByteString.cpp:59-72 | the buffer filled by the loop is the pairwise reading of the text, an odd first digit alone |
| `ByteStrings.UnHexOfHex` | lib/util/ByteString.cpp:59-72 | parsing inverts printing for all byte strings |
| `ByteStrings.FoldedReadsAlike` | lib/util/ByteString.cpp:5-22 | upper case reads like lower case, what is no digit like zero, and an odd text as if a zero stood before it |
| `Hash256.MemcmpIsBigEndianOrder` | lib/mining/Hash.cpp:29-45 | the sign of `memcmp` is the order of the big-endian integers, zero exactly on equal bytes |
| `Hash256.AtMostIsNumeric` | lib/mining/Hash.cpp:69 | `<=` on hashes is `<=` on their big-endian integers |
| `Hash256.FindFirstNonZeroByte` | lib/mining/Hash256.cpp:4-11 | the index is the length of the run of zeros, cut off at 28 |
| `Hash256.Divide` | lib/mining/Hash256.cpp:13-33 | the two loops and the final product compute the quotient of the truncated operands, infinities and NaN included |
| `Hash256.TruncationError` | lib/mining/Hash256.cpp:17-32 | truncation never raises a value, loses less than one part in 2^24, nothing where 28 zero bytes lead, and is zero only for zero |
| `Hash256.TruncatedIsMonotone` | lib/mining/Hash256.cpp:13-33 | truncation keeps the order of hashes |
| `Hash256.QuotientAntitone` | lib/mining/Hash256.cpp:13-33 | dividing by a larger hash never gives a larger result, zero divisors included |
| `Hash256.QuotientError` | lib/mining/Hash256.cpp:13-33 | the quotient is within a factor 1 + 2^-24 of the true ratio on both sides |
| `Hash256.QuotientExact` | lib/mining/Hash256.cpp:13-33 | with 28 leading zero bytes on both operands the quotient is exact |
| `Hash256.Diff1Value` | lib/mining/Hash256.cpp:35-49 | the difficulty-one target is the number 0xfffff followed by 27 zero bytes |
| `Hash256.Diff1IsPositive` | lib/mining/Hash256.cpp:35-49 | the difficulty-one target survives truncation, so no difficulty is zero or NaN through it |
| `Script.FromUInt` | lib/mining/txscript/PushData.cpp:5-19 | the do-while loop writes the little-endian bytes with a zero added where a sign bit would stand |
| `Script.ScriptNumberReads` | lib/mining/txscript/PushData.cpp:5-19 | a script interpreter reads the number back, and the encoding is minimal for every positive number |
| `Script.MinimalNumberIsUnique` | lib/mining/txscript/PushData.cpp:5-19 | any minimal script number of a positive value is the one written |
| `Script.PushDataRaw` | lib/mining/txscript/PushData.cpp:33-86 | the branches write the opcode, length and data of the push |
| `Script.PushReadsBack` | lib/mining/txscript/PushData.cpp:33-86 | a script reader gets the data pushed and the script behind it, for all data |
| `Script.PushRoundTripExactly` | lib/mining/txscript/PushData.cpp:33-86 | the data survives exactly if it is not the single byte 0 and is shorter than 2^32 bytes |
| `Script.PushIsShortestExactly` | lib/mining/txscript/PushData.cpp:33-86 | no script that pushes the same data is shorter, exactly if the data is not the single byte 0x81, which `OP_1NEGATE` pushes |
| `Script.PushedNumberReads` | lib/mining/txscript/PushData.cpp:21-27 | a pushed number is read back as a minimal script number |
| `Script.EncodeVarInt` | lib/mining/VarInt.cpp:3-27 | the branches write the marker and the low bytes of the integer |
| `Script.VarIntReadsBack` | lib/mining/VarInt.cpp:3-27 | a CompactSize reader that refuses long forms reads every uint64 back |
| `Script.VarIntIsCanonical` | lib/mining/VarInt.cpp:3-27 | that reader accepts nothing but what `encode` writes |
| `Script.VarDataReadsBack` | lib/mining/VarData.h:23-31 | counted data is read back with what follows it |
| `Coinbase.RedeemScriptLayout` | lib/mining/CoinbaseOutput.cpp:10-25 | the opcodes and the push of each kind of output, as a script reader finds them |
| `Coinbase.AppendPush` | lib/mining/txscript/Script.h:21-26 | appending data to a script appends its push |
| `Coinbase.OutputBytes` | lib/mining/AbstractCoinbaseOutput.cpp:6-14 | an output is its coins and its counted script |
| `Coinbase.AppendOutputs` | lib/mining/CoinbaseTransaction.cpp:53-54 | the loop appends every output in order |
| `Coinbase.MakeCoinbaseRedeemScript` | lib/mining/CoinbaseTransaction.cpp:61-74 | four pushes in order, and offsets that enclose the eight nonce bytes |
| `Coinbase.BuildTransaction` | lib/mining/CoinbaseTransaction.cpp:26-59 | the transaction assembled from prefix, script and suffix with both offsets moved behind the script length |
| `Coinbase.ExtranonceSplice` | lib/mining/CoinbaseTransaction.cpp:11-74 | part 1, two nonces and part 2 are the transaction built with these nonces; the offsets enclose exactly the nonces |
| `Coinbase.TransactionReadsBack` | lib/mining/CoinbaseTransaction.cpp:26-59 | a transaction reader inverts the serialisation, for every transaction |
| `Coinbase.CoinbaseReadsBack` | lib/mining/CoinbaseTransaction.cpp:26-59 | the built coinbase reads as version 1, one null input with the script, every output's coins and script, locktime 0 |
| `Coinbase.PushAllReadsBack` | lib/mining/txscript/Script.h:21-26 | any script of pushes reads back item by item |
| `Coinbase.InputScriptReadsBack` | lib/mining/CoinbaseTransaction.cpp:61-74 | the script reads as four pushes, height and time as minimal script numbers of their values, as the specification section of BIP 34 asks for the height |
| `Coinbase.HeightReadsBack` | lib/mining/CoinbaseTransaction.cpp:26-74 | a reader of the whole transaction finds the height it was built for |
| `Rebalance.TotalShares` | lib/mining/CoinbaseOutputs.cpp:20-21 | the first loop adds the coins up modulo 2^64 |
| `Rebalance.ScaleInPlace` | lib/mining/CoinbaseOutputs.cpp:35-36 | the second loop overwrites every output with its scaled value and returns their sum modulo 2^64 |
| `Rebalance.RebalanceOnce` | lib/mining/CoinbaseOutputs.cpp:8-44 | one activation with uint64 wrap-around: its early returns, its pass and whether it retries |
| `Rebalance.RebalanceOutputs` | lib/mining/CoinbaseOutputs.cpp:8-44 | the tail recursion in place, cut off at a depth, for every input, wrap-around included |
| `Rebalance.FactorIsExact` | lib/mining/CoinbaseOutputs.cpp:32 | the factor is the one meant if and only if the scaled reward fits in 64 bits |
| `Rebalance.NoProductWraps` | lib/mining/CoinbaseOutputs.cpp:32-36 | each product is at most the scaled reward and is divided exactly as written |
| `Rebalance.PassBounds` | lib/mining/CoinbaseOutputs.cpp:32-36 | the new sum is at most the reward and above the reward less one an output less a millionth of the old sum |
| `Rebalance.PassKeepsOrder` | lib/mining/CoinbaseOutputs.cpp:35-36 | a pass keeps the order of outputs and leaves empty ones empty |
| `Rebalance.ActivateExactly` | lib/mining/CoinbaseOutputs.cpp:23-43 | the wrapping activation agrees with unbounded arithmetic wherever reward and shares fit |
| `Rebalance.LatePass` | lib/mining/CoinbaseOutputs.cpp:35-42 | once within the reward no output shrinks, and a pass that changes anything strictly narrows the gap |
| `Rebalance.ReturnsBalanced` | lib/mining/CoinbaseOutputs.cpp:8-44 | whenever `rebalance` returns, for every input and wrap-around included, the sum it adds up is the reward or zero, and another call changes nothing |
| `Rebalance.ReturnsExactly` | lib/mining/CoinbaseOutputs.cpp:20-43 | an activation ends the recursion if and only if there are no shares, they are balanced, or neither the factor nor any output is rounded |
| `Rebalance.PassesReachResult` | lib/mining/CoinbaseOutputs.cpp:38-43 | what the recursion returns within n activations is what n passes lead to, for every input |
| `Rebalance.EndsExactly` | lib/mining/CoinbaseOutputs.cpp:38-43 | the recursion ends within n activations if and only if one of its first n passes rounds nothing |
| `Rebalance.EndsWithinReward` | lib/mining/CoinbaseOutputs.cpp:38-43 | for every reward it ends if and only if a pass rounds nothing among as many as the reward has satoshis, and two |
| `Rebalance.EndsWithinThree` | lib/mining/CoinbaseOutputs.cpp:32-43 | for a reward of three million satoshis an output or more it ends if and only if it ends within three activations |
| `Rebalance.EndsAtZeroExactly` | lib/mining/CoinbaseOutputs.cpp:35-43 | shares of a reward end with every output at zero if and only if the first factor scales each below one satoshi |
| `Rebalance.TinyRewardIsLost` | lib/mining/CoinbaseOutputs.cpp:35-43 | two outputs of a hundred million shares and a reward of one satoshi end at zero |
| `Rebalance.SharesOutExactly` | lib/mining/CoinbaseOutputs.cpp:8-44 | such a reward is shared out in full if and only if there are shares, not all scaled to zero, and one of the first three passes rounds nothing |
| `Rebalance.RunIsRecursion` | lib/mining/CoinbaseOutputs.cpp:38-43 | a settled run is what the recursion returns, and after a stalled one it never returns |
| `Rebalance.Dichotomy` | lib/mining/CoinbaseOutputs.cpp:8-44 | a run settles with the sum at the reward or at zero, or stalls strictly between them on coins that a pass reproduces |
| `Rebalance.KeepsZero` | lib/mining/CoinbaseOutputs.cpp:35-42 | an output without coins has none when `rebalance` returns, for every input |
| `Rebalance.StallsExactly` | lib/mining/CoinbaseOutputs.cpp:32-42 | a pass changes nothing exactly if the excess of the factor adds no whole satoshi to any output |
| `Rebalance.SmallGapNeverCloses` | lib/mining/CoinbaseOutputs.cpp:32-42 | a gap below a millionth of the sum is never closed: the recursion does not end |
| `Rebalance.ThreeEqualSharesStall` | lib/mining/CoinbaseOutputs.cpp:32-42 | the concrete input 33, 33, 33 for 100 does not end |
| `Merkle.FromRawTxIdBlob` | lib/mining/MerkleRoot.cpp:7-47 | an exception exactly on a partial hash, otherwise the reduction of the ids in the blob |
| `Merkle.RowAbove` | lib/mining/MerkleRoot.cpp:22-43 | the loop builds the row above, an odd last id hashed against itself |
| `Merkle.FromTxIds` | lib/mining/MerkleRoot.cpp:49-57 | the result is the root of the tree over the ids |
| `Merkle.ReducedIsRoot` | lib/mining/MerkleRoot.cpp:7-47 | reducing rows ends and gives the root of the independently defined tree |
| `Merkle.BranchGivesRoot` | lib/mining/MerkleBranch.cpp:17-30 | folding the first leaf along its sibling path gives the root of the whole list |
| `Merkle.PathIgnoresLeaf` | lib/mining/MerkleBranch.cpp:17-30 | the sibling path does not depend on the leaf |
| `Share.Header` | lib/mining/BlockHeader.cpp:6-15 | 80 bytes, and what each field of the structure holds, the difficulty bits turned round |
| `Share.CheckSolution` | lib/stratum/StratumJob.cpp:83-124 | with v the number the rebuilt header hashes to, least significant byte first: the block goes out exactly if v is at most the network target; a success means 16 * diff * v is at most the difficulty-one target, "low diff" that it is more, each up to the error of the division; v = 0 succeeds |
| `Share.ShareCoinbaseIsBuilt` | lib/stratum/StratumJob.cpp:87-92 | filling the extranonces into a coinbase generated with zeros gives the coinbase built with them, height included |
| `Share.MiningDiffIsPositive` | lib/stratum/NetworkState.cpp:27 | the network difficulty is positive or infinite for every target |
| `Share.CappedDiffIsWithinCap` | lib/stratum/JobManager.cpp:26-29 | the difficulty of a new job never exceeds the cap, stays positive, and is untouched below the cap |
| `Share.BlockIsNeverLowDiff` | lib/stratum/StratumJob.cpp:101-116 | a hash at or below the target meets every difficulty within the cap |
| `Share.CapIsExact` | lib/stratum/JobManager.cpp:28-29 | a difficulty is within the cap if and only if no block can be refused at it |
| `Pool.JobManager.CreateJob` | lib/stratum/JobManager.cpp:16-32 | the difficulty asked for, else the client's, else the default, or a quarter of the cap above the cap; the next id; a creation time not before the mining start time; the manager's information and coinbase |
| `Pool.JobManager.RebalanceCoins` | lib/stratum/JobManager.cpp:61 | the outputs hold the coins that the recursion returns and keep their destinations |
| `Pool.JobManager.GenerateCoinbaseTransaction` | lib/stratum/JobManager.cpp:88-105 | the commitment takes or gets the first place, every other destination stays, the coins are rebalanced with nothing for the commitment, and the coinbase is built from them and the current information |
| `Pool.JobManager.Install` | lib/stratum/JobManager.cpp:34-70 | new information, the new commitment in first place, every other destination as it was, the old coins rebalanced, and a coinbase of all these; when rebalancing does not return, the information is in place and the coinbase is still the old one |
| `Pool.SecondRebalanceChangesNothing` | lib/stratum/JobManager.cpp:58-63 | after a rebalancing that returned, the second one of an update returns too and changes no amount |
| `Pool.VardiffMeetsTarget` | lib/stratum/StratumClientConnection.cpp:164-197 | at the difficulty chosen a miner of the measured speed finds six shares a minute, within a tenth if unchanged, fewer only at the floor |
| `Pool.NewJobDiff` | lib/stratum/StratumClientConnection.cpp:98-197 | the difficulty of a new job, up to the cap: six shares a minute at the measured speed after ten seconds with a share; a tenth, but no less than the floor, without any; otherwise the connection's, or the default if it has none |
| `Pool.EasesOff` | lib/stratum/StratumClientConnection.cpp:172-179 | while no share comes in, n new jobs bring the difficulty down by 10^n, but not below the floor |
| `Pool.StratumClientConnection.CalcNewDiff` | lib/stratum/StratumClientConnection.cpp:164-197 | the branches on elapsed time, accepted shares, floor and band, and the restart of the measurement |
| `Pool.StratumClientConnection.GetJob` | lib/stratum/StratumClientConnection.cpp:98-111 | the active job unless there is none or one is forced, else a new job at the end of the list |
| `Pool.StratumClientConnection.UpdateDiff` | lib/stratum/StratumClientConnection.cpp:86-91 | the difficulty is sent and remembered |
| `Pool.StratumClientConnection.SendJob` | lib/stratum/StratumClientConnection.cpp:75-84 | the difficulty goes out before the job whenever it differs from the last one sent |
| `Pool.StratumClientConnection.ClearJobs` | lib/stratum/StratumClientConnection.cpp:113-121 | the list and the active job are dropped, nothing else |
| `Pool.StratumClientConnection.GetActiveJob` | lib/stratum/StratumClientConnection.cpp:123-140 | the shortcut and the search loop compute the lookup |
| `Pool.StratumClientConnection.ProcessSubmit` | lib/stratum/calls/MiningSubmit.cpp:23-44 | an unknown job is answered as such; otherwise the block goes out exactly if the header's number is at most the target, a success credits the job's difficulty and a refusal nothing, each with the bound on that number |
| `Pool.ServeClient` | lib/stratum/JobManager.cpp:81-84 | one client's jobs are cleared if forced, then it is sent a job |
| `Pool.SendNewJobsToClients` | lib/stratum/JobManager.cpp:75-86 | the loop serves every client in turn, the counter carried from one to the next |
| `Pool.EachClientIsServed` | lib/stratum/JobManager.cpp:75-86 | after a forced update each client holds one job only, from the manager's information, numbered by place and sent last; otherwise an active job is kept |
| `Pool.UpdateWork` | lib/stratum/JobManager.cpp:34-86 | run alone, an update installs the information, keeps every payee, builds the coinbase and serves every client, forced exactly if height or previous block changed |
| `Sessions.RunKeeps` | lib/stratum/StratumClientConnection.cpp:75-121 | over every run every job's difficulty is positive and within its cap, each notify follows its own difficulty, and the active job is the last one |
| `Sessions.SharesAreCredited` | lib/stratum/calls/MiningSubmit.cpp:33-43 | `acceptedShares` is the sum of the difficulties of the accepted submissions |
| `Sessions.BlocksAreAccepted` | lib/stratum/StratumJob.cpp:101-116 | after every run, a submission that sends a block to the network is answered with success and credited |
| `Sessions.FirstWithIdIsHeld` | lib/stratum/StratumClientConnection.cpp:133-139 | the search finds a held job of that id, or there is none |
| `Sessions.SolvedShareIsRight` | lib/stratum/StratumJob.cpp:101-116 | a client whose jobs are within their caps is answered with success whenever its submission sends out a block |
| `Announcements.AloneIsSent` | lib/stratum/StratumClientConnection.cpp:75-91 | the steps of one thread in a row are `sendJob` as one step |
| `Announcements.EveryRunAnnounces` | lib/stratum/StratumClientConnection.cpp:75-91 | in every interleaving of any number of threads every job sent is positive and within its cap, and its difficulty was sent before it at some time |
| `Announcements.AnnouncementExactly` | lib/stratum/StratumClientConnection.cpp:75-84 | in every interleaving of any number of threads, a job is announced rightly if and only if the last difficulty sent since its call compared is its own, or none was sent and the connection was in step then |
| `Announcements.InStepExactly` | lib/stratum/StratumClientConnection.cpp:86-91 | in every interleaving, after the last sending the connection is in step if and only if the last thread to note since then notes the difficulty sent, or none does and it was in place already |
| `Announcements.SerialRunsMatch` | lib/stratum/StratumClientConnection.cpp:75-84 | if no two threads are inside `sendJob` at once, every job is sent while its difficulty is the last one sent |
| `Announcements.TwoCallsExactly` | lib/stratum/StratumClientConnection.cpp:75-91 | for two calls interleaved in any way: an announcement is wrong if and only if the difficulties differ and the other sends between this one's difficulty and job; out of step afterwards if and only if they differ, both send, and the last to send is not the last to note |
| `Announcements.OutOfStepIsReachable` | lib/stratum/StratumClientConnection.cpp:75-91 | a run from a fresh connection with fetched jobs that ends out of step |
| `Announcements.AloneAnnouncesExactly` | lib/stratum/StratumClientConnection.cpp:79-83 | out of step, a later call alone is right if and only if its difficulty is not the one in place |
| `Publication.RunKeeps` | lib/stratum/JobManager.cpp:34-86 | the phase-dependent invariant holds after every interleaving of the updater and the clients |
| `Publication.IdleMeansCurrent` | lib/stratum/JobManager.cpp:34-86 | with no update in progress every held job is for the current block, and its coinbase was generated for it and carries its height |
| `Publication.MismatchedExactly` | lib/stratum/JobManager.cpp:34-70 | in every interleaving, information and coinbase in place are for the same block if and only if no update that changes the block is between its two halves |
| `Publication.AskedJobMatchesExactly` | lib/stratum/JobManager.cpp:24-44 | a job that a client's thread creates is mismatched if and only if it is created there |
| `Publication.ServedJobMatches` | lib/stratum/JobManager.cpp:75-86 | a job that the updater creates is never mismatched |
| `Publication.MidUpdateMismatch` | lib/stratum/JobManager.cpp:38-44 | a run in which a client obtains a job whose coinbase carries the old height |
| `Publication.BlocksAreAccepted` | lib/stratum/StratumJob.cpp:101-116 | after every interleaving, no client's share that sends out a block is refused |
| `Publication.RunKeepsIds` | lib/stratum/JobManager.cpp:24-31 | while the counter has not wrapped, ids increase within each list and are unique across clients |
| `Publication.LookupIsExact` | lib/stratum/StratumClientConnection.cpp:123-140 | the lookup returns a job if and only if the client holds it under that id, and no other client holds that id |
| `Publication.DroppedIdStaysDropped` | lib/stratum/StratumClientConnection.cpp:113-140 | an id once issued and not held is never found again in any continuation |
| `Miner.Int2Hex` | lib/stratum/StratumJob.cpp:16-25 | four bytes printed in the asked order |
| `Miner.AsHexArray` | lib/mining/MerkleBranch.cpp:5-15 | every node printed in order |
| `Miner.ToJson` | lib/stratum/StratumJob.cpp:50-81 | the nine fields, the previous block hash swapped in a copy; id, time, version and bits parse back to the job's, and the last field is the force flag |
| `Miner.PrintedIntParses` | lib/stratum/StratumJob.cpp:16-25 | every uint32 printed in either order parses back |
| `Miner.SubmissionSurvives` | lib/stratum/calls/MiningSubmit.cpp:14-21 | the parsed submission is job id, time, nonce and both extranonces as the miner meant them |
| `Miner.SameCoinbase` | lib/stratum/StratumJob.cpp:87-92 | the coinbase the miner puts together is the one the server rebuilds |
| `Miner.SameRoot` | lib/mining/MerkleBranch.cpp:17-30 | folding the printed branch gives the server's root |
| `Miner.SameHeader` | lib/mining/BlockHeader.cpp:6-15 | the miner's word-swapped header is the server's |
| `Miner.MinerAndServerAgree` | lib/stratum/StratumJob.cpp:66-97 | a miner working from the notification alone hashes the coinbase and header that `checkSolution` rebuilds from its submission |
| `Miner.MinerAtJobTime` | lib/stratum/StratumJob.cpp:70-80 | a miner that also takes the time from the notification hashes the server's header at the job's creation time |
| `Miner.RefusedFormExactly` | lib/stratum/calls/MiningSubmit.cpp:14-21 | parsing throws if and only if one of the four numbers has more than four bytes; missing ones are zero |
| `Framing.DrainThenMore` | lib/socket/Socket.cpp:161-173 | draining and then receiving more is draining everything, also over a failure |
| `Framing.ChunkingDoesNotMatter` | lib/socket/Socket.cpp:161-173 | frames, residue and failure are those of one-shot parsing for every split into packets |
| `Framing.DrainKeepsBytes` | lib/socket/Socket.cpp:161-173 | frames handed on and bytes left over are the bytes received, in order, and each frame is whole |
| `Framing.OnlyParse` | lib/socket/Socket.cpp:161-173 | a receiver ends with some frames and residue if and only if the stream is these whole frames and a residue the rule waits on |
| `Framing.OnlyFailure` | lib/socket/Socket.cpp:161-173 | it fails after some frames if and only if these are whole and the rule refuses what follows |
| `MessageBus.BusCutIsStable` | lib/messagebus/MessageStreamParser.cpp:5-21 | the bus rule takes whole frames, looks at nothing behind them and never changes its mind |
| `MessageBus.StreamParser.ProcessPacket` | lib/socket/Socket.cpp:161-173 | the loop delivers and keeps what parsing the old state and the packet gives |
| `MessageBus.AppendCounted` | lib/util/ByteString.h:35-47 | a 32-bit length and the bytes are appended |
| `MessageBus.EncodeMessage` | lib/messagebus/AbstractMessage.cpp:70-81 | the encoding is the counted payload of three counted strings |
| `MessageBus.ByteStringReader.Advance` | lib/util/ByteStringReader.cpp:12-18 | moves exactly when enough bytes are left |
| `MessageBus.ByteStringReader.ReadText` | lib/util/ByteStringReader.cpp:20-30 | reads a counted string and leaves what follows |
| `MessageBus.DecodeMessage` | lib/messagebus/AbstractMessage.cpp:44-68 | every exception of the decoder, and otherwise the three strings |
| `MessageBus.DecodeExactly` | lib/messagebus/AbstractMessage.cpp:44-81 | decoding yields a message if and only if the bytes are its encoding and at most 32768 long |
| `MessageBus.EncodingIsFrame` | lib/messagebus/MessageStreamParser.cpp:5-21 | an encoding is one frame up to 32768 bytes of payload and an exception above |
| `MessageBus.MessagesArrive` | lib/messagebus/AbstractMessage.cpp:44-81 | for every chunking, a receiver has decoded exactly some messages if and only if the stream is their encodings and no payload is above 32764 bytes |
| `MessageBus.OversizedIsLost` | lib/messagebus/MessageStreamParser.cpp:14-15 | one payload above 32764 bytes is handed on undecodable or ends the stream there, by its size |
| `P2P.P2PCutIsStable` | lib/bitcoinp2p/P2PSocket.cpp:55-95 | the header, size and checksum rule is stable for any magic and checksum function |
| `P2P.P2PSocket.OnReceive` | lib/bitcoinp2p/P2PSocket.cpp:49-96 | the loop with its clear, returns and exceptions is the parse of old state and packet, and the messages processed are those of the frames |
| `P2P.P2PSocket.Send` | lib/bitcoinp2p/P2PSocket.cpp:27-46 | filling the zeroed header field by field gives the packet |
| `P2P.PacketIsFrame` | lib/bitcoinp2p/P2PSocket.cpp:27-96 | a packet below 32 MiB is one frame with the payload and the command up to its first NUL, a larger one is refused |
| `P2P.ArrivesExactly` | lib/bitcoinp2p/P2PSocket.cpp:27-96 | a message arrives as sent if and only if its command holds no NUL and its payload is below 32 MiB |
| `P2P.ResentFrame` | lib/bitcoinp2p/P2PSocket.cpp:27-96 | sending on what an accepted frame held gives the same bytes if and only if its command was padded with zeros |
| `P2P.MessagesArrive` | lib/bitcoinp2p/P2PSocket.cpp:27-96 | for every chunking, exactly some packets are received and a residue kept if and only if the stream is these packets and the residue is unfinished; what is processed is what was sent if and only if no command holds a NUL |
| `P2P.RefusedPacketEnds` | lib/bitcoinp2p/P2PSocket.cpp:60-77 | a refused packet ends the connection after exactly the packets before it |
| `Queue.Queue.Enqueue` | lib/util/Queue.h:30-36 | the message goes to the end and the semaphore up by one |
| `Queue.Queue.WaitForMessage` | lib/util/Queue.h:53-67 | the shift loop takes the first message out and keeps the others in order |
| `Queue.Queue.HasMessage` | lib/util/Queue.h:38-51 | between calls, asking the semaphore tells whether the vector holds a message |
| `Queue.StepKeeps` | lib/util/Queue.h:30-67 | every step of every thread keeps length = semaphore + consumers past the wait + producer before the post, the order, and one lock holder |
| `Queue.EveryRunIsFifo` | lib/util/Queue.h:30-67 | in every interleaving `_queue[0]` is in range and what went in is what came out followed by the contents |
| `Queue.NoLostWakeup` | lib/util/Queue.h:30-67 | if no thread can move, all are outside or in `sem_wait`, and if one waits every message was taken |
| `Subscriptions.MessageBusClient.SetSubscriptions` | lib/messagebus/MessageBusClient.cpp:18-27 | the list is the one asked for afterwards, and is sent exactly if it differs |
| `Subscriptions.MessageBusClient.SubscribeTo` | lib/messagebus/MessageBusClient.cpp:29-41 | the old list is a prefix of the new one, the class is listed, and the list is sent exactly if it was not |
| `Subscriptions.SubscribeExtends` | lib/messagebus/MessageBusClient.cpp:33-39 | every other class keeps its place and number, and a class is never listed twice through `subscribe` |
| `Subscriptions.MessageBusClient.UnsubscribeFrom` | lib/messagebus/MessageBusClient.cpp:43-56 | the first occurrence is erased and the list sent exactly if it was listed |
| `Subscriptions.MessageBusClient.OnReconnect` | lib/messagebus/MessageBusClient.cpp:88-92 | the unchanged list is sent |
| `Subscriptions.WithoutRemovesOne` | lib/messagebus/MessageBusClient.cpp:47-53 | erasing takes one occurrence away and nothing else; the class stays exactly if it was listed twice |
| `Subscriptions.AgreementExactly` | lib/messagebus/MessageBusClient.cpp:18-56 | over every run of calls, drops and reconnects, a greeted and idle client agrees with the last list in flight, or the relay's, if and only if a call has written since the last greeting or the list is the one that greeting read |
| `Subscriptions.OneGreetingOneCall` | lib/messagebus/MessageBusClient.cpp:18-56 | a list-changing call and a reconnect in any order, for all lists: disagreement if and only if `subscribe` or `unsubscribe` edits and sends between reading and sending of the greeting, or `setSubscriptions` sends before the greeting is sent and assigns after it is read |
| `Subscriptions.NextChangeRepairs` | lib/messagebus/MessageBusClient.cpp:18-56 | from any greeted state the next list-changing call restores agreement, which then holds whenever no call is in progress while the connection stands |
| `Subscriptions.SeparateRunsAgree` | lib/socket/ReconnectingClient.cpp:30-53 | if no call overlaps a reconnect, the two lists are equal whenever the client is greeted and idle and the channel is empty |
| `Subscriptions.GreetingOvertakes` | lib/messagebus/MessageBusClient.cpp:18-56 | runs of both kinds of call that end with the relay on the old list |
| `Subscriptions.RepairedExactly` | lib/messagebus/MessageBusClient.cpp:18-56 | a greeted client in disagreement agrees at an idle moment, while the connection stands, if and only if a call since then has changed its list |
| `Subscriptions.BusConnection.IsSubscribedTo` | mbus-relayd/BusConnection.cpp:77-88 | the search loop decides membership |
| `Subscriptions.BusConnection.QueueMessageIfSubscribed` | mbus-relayd/BusConnection.cpp:25-29 | the message is queued exactly for a listed class |
| `Subscriptions.MessageBusServer.BroadcastToClients` | mbus-relayd/MessageBusServer.cpp:17-27 | every connection whose list has the class gets the message at the end of its queue, every other queue and all lists stay |
| `Subscriptions.MessageBusServer.CountedBroadcast` | mbus-relayd/MessageBusServer.cpp:17-27 | as many queues grow as the count made before the broadcast says |
| `Subscriptions.MessageBusServer.CalculateEffectiveBroadcastClients` | mbus-relayd/MessageBusServer.cpp:29-42 | the loop counts the connections whose list has the class |
| `Subscriptions.MessageBusServer.OnReceive` | mbus-relayd/BusConnection.cpp:31-75 | a subscription message replaces its sender's list only, other meta messages are dropped, all else is broadcast |

## Left out

- Sockets, DNS, listeners, thread start and cancellation: foreign calls. What is kept of them is that bytes arrive, a connection drops or a lock is held.
- JSON parsing and dumping, HTTP and the node's RPC interface: they rest on a library that is not part of this model.
- SHA-256d, Allium and plugin loading: arbitrary functions with 32-byte results; nothing is said about collisions.
- Floating-point rounding: difficulties are reals; the division in `calcNewDiff` comes after its time check, because its value is not used before.
- Lifetime of objects across threads, such as the job that `job()` returns by reference while another thread may clear it, and torn reads of a vector that another thread edits.
- Command line, logging, `SystemRandom`, the crawler, `BlockTemplatePoller` and `ConnectionManager`: small state or plumbing.
- `Hash160` comparisons: no property here uses them.
- The construction of the witness commitment: a commitment is given bytes.
- Two threads updating work at once: `Publication` has one updater.
- Rebalance.EndsExactly: when the recursion ends is stated where the reward times 10^6 and the sum of the shares fit in 64 bits; for inputs that wrap, `RebalanceOutputs`, `ReturnsBalanced` and `KeepsZero` still hold.
- Rebalance.RebalanceOutputs: a depth stands for the recursion that the code does not bound; a call that returns at no depth never returns.
- Pool.JobManager.RebalanceCoins: keeps outputs as values and rebalances a copy of their coins in place; the sharing of output objects is not modelled.
- Pool.UpdateWork: needs existing generation information and a non-empty output list, which the code dereferences without a check; ids wrap at 2^32 as in the code.
- Publication.IdleMeansCurrent: the outputs an update uses are inputs of its step; a rebalancing that hangs leaves the update in progress for ever.
- Merkle.FromRawTxIdBlob: excludes the empty blob, on which the code calls itself with an empty blob for ever; the count of ids is not cut to 31 bits.
- MessageBus.StreamParser.ProcessPacket: an exception of the handler of a delivered frame, which ends the connection too, is not modelled.
- P2P.P2PSocket.Send: a command of 12 or more bytes overruns its field in the code, whose behaviour the language then leaves undefined, and is excluded; the size field wraps at 2^32.
- P2P.P2PSocket.OnReceive: a command field without NUL is read up to the end of the field, where the code reads on into the next field; the handling of a processed message is not modelled.
- `Socket::send` and its retry after a partial write: a packet handed to the socket is taken as sent in whole.
- Subscriptions.AgreementExactly: a list is assumed to fit into one bus frame; the limit itself is `MessageBus.OversizedIsLost`.
- `asHexPretty` with a prefix, a postfix or groups: only the plain form is used by the protocols.
