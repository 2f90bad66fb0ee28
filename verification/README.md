# Tonk, verified

Tonk is a reliable-UDP engine. This project models its deterministic cores in Dafny and proves what
they are for:

- **The Siamese erasure code.** The encoder keeps running sums over a sliding window and emits linear
  combinations of packets; the decoder builds a matrix row by row, eliminates in place, resumes after
  a failed attempt, and back-substitutes to exactly the packets that were lost. Acknowledgements flow
  back and let both sides forget.
- **What the code can recover.** Over the bytes, any k parity and Cauchy packets with different rows recover any k
  losses they cover; rows are taken in turn, so packets that follow one another never repeat a row; the
  coefficients of a sum row are spelled out from operation codes, column values and draws.
- **Two parties.** One encoder and one decoder joined by a network that loses, repeats and reorders.
  Every event keeps one invariant: the encoder has given up only what the decoder has, the decoder only
  what it has received, and every recovered packet is the one that was sent. When the decoder disables
  itself, and when it goes by metadata too old to trust, is stated exactly. If recovery packets arrive in the order
  in which they were emitted, any of them lost, it never does either, whatever happens to all other messages.
- **LightHashMap** and the connection maps on top: downward probing with deletion by shifting refines a
  finite map for every hash function.
- **PacketAllocator** and its bit sets: live regions never overlap, and every mark and count is exact.
- **StrikeRegister**, truncated counters and remote timestamps.
- **SessionIncoming** on top of that session: ordered reliable messages are handled in order, each once,
  whichever way they arrive, and what is acknowledged is exactly what has been handled. Every compressed block
  is handed over after exactly the history bytes sent before it.
- **WindowedMinMax**: the running extremum of the retransmission timer.

Results about the code hold over every field of characteristic two (`Fields.IsField`);
`Bytes.BytesAreAField` shows that the bytes of the program, GF(2^8) modulo 0x14D, are one, `GfTables` that
its tables hold that arithmetic, and `ByteSessions` runs a session over them, down to the bytes on the wire. The opcodes of rows and the draws of the random generator
are arbitrary functions. Columns and packet numbers wrap around at 2^22; the model keeps the true
number beside them, and code decides on the wrapped numbers only.

## Modules

| files | what they hold |
|---|---|
| `Numbers`, `Options` | remainders, finite sets, missing results |
| `Fields`, `Gf256`, `Bytes`, `GfTables` | field laws; the byte arithmetic of gf256 as a witness; its tables |
| `LinearAlgebra`, `Factorization`, `RecoveryMatrix`, `BackSubstitution` | in-place LU elimination with index pivoting, resuming, and the two passes over the packets |
| `Columns`, `Recovery`, `Coefficients`, `LaneSums`, `Emissions`, `Encoder` | modular columns, the coefficients of a recovery packet and what they are, the running sums, the rows in turn, the encoder |
| `Cauchy` | parity and Cauchy rows as a code: as many as there are losses always suffice |
| `Rows`, `Elimination`, `Decoding` | matrix rows, elimination of received data, one attempt to decode |
| `BitSets`, `Missing`, `DecoderWindow`, `RecoveryList`, `Removal`, `Decoder` | the decoder's window and its bit index, the list of recovery packets, what may leave the window, the checked region, decoding |
| `DecoderSums`, `SumsBeside` | the decoder's running sums, and how they follow the decoder |
| `Serializers`, `Acknowledgements`, `Session`, `ByteSession` | wire formats, NACK lists, the two-party protocol |
| `InOrder`, `InOrderSession` | runs in which recovery packets arrive in the order in which they were emitted |
| `LightHashMap`, `ConnectionMaps`, `PacketAllocator`, `StrikeRegister`, `Counters`, `WindowedMinMax` | the containers and counters |
| `Frames`, `Delivery`, `DeliveryMeaning`, `Incoming` | message frames, what they call for, and delivery over a session |

## Where the code differs from what it says

- The order test of an incoming recovery packet (SiameseDecoder.cpp:278) subtracts columns without
  reducing modulo the period. `Sessions.OrderTest` says exactly when it is right, `Sessions.OrderTestFails`
  is a packet it gets wrong, and `Sessions.FrozenAfterWrap` what follows for a run: after the columns have wrapped
  around, the latest column and the last metadata stay as they were until a packet comes round to that column.
- RemoveElements falls back to that last metadata when it has no recovery packet (SiameseDecoder.cpp:1800-1816).
  `Removals.FallbackIff` says from the columns when it then disables the decoder, when it keeps every missing
  element, and when it removes one; `Removals.FallbackByAge` says the same by true numbers, and
  `Removals.StaleMetadata` is metadata from before a wrap-around that disables the decoder half a period later
  and removes missing elements nearly a period later. So two-party window safety does depend on the order test.
  What it takes is in `Sessions.Session.Recover`: while the last metadata is at most half a period behind the
  window, and in every run of fewer than 2^21 packets, no missing element is removed and `decoder.stale`, which marks
  that elements left by metadata older than that, does not change. `Recover` asks nothing of its caller.
- "This should never happen" in EliminateOriginalData (SiameseDecoder.cpp:922-931) can: two sum rows that arrive in the
  wrong order disable the decoder for good (SiameseDecoder.cpp:764-769), although the packets determine what is
  missing. `Removals.SwappedRows` and `Decoders.SwappedOutcome` are the input; `Removals.FollowIff` is the exact
  condition, and `Decoders.Decoder.SolveRegion`, `Decoders.Decoder.Decode` and `Sessions.Session.Recover` say that the decoder
  disables itself exactly then, or when RemoveElements finds that something needed is gone.
- Two "should never happen" exits of RemoveElements (SiameseDecoder.cpp:1855-1861, 1911-1917) disable the decoder while
  AddRecovery returns success. `Decoders.Decoder.AddRecovery` says exactly when, and `Decoders.Decoder.TakenAndDisabled` is a
  state and a packet.
- When RemoveElements disables the decoder is said in `Removals.PlanIff` and `Removals.FallbackIff` by columns and counts
  alone. "Should never happen" is right for rows that arrive in the order in which they were emitted
  (`InOrderSessions.DeliverInOrder`), with two exceptions. A single packet that is sent again although the decoder has it
  makes the decoder forget the running sum, while the encoder goes on with it: `InOrderRuns.SingleRowDisables` is a
  run without any loss that ends with the decoder disabled. And a sum over a full window of 16000 packets may be
  followed by another that ends with it and starts later.
- A sum row whose first packet is just the one past the window is ignored (SiameseDecoder.cpp:378-398): the window
  is asked for its start before it grows. So when everything before it has been received and all the packets it
  covers are lost, the row is thrown away (`Decoders.Decoder.FreshSumIsIgnored`).
- A parity row is due when the last one seems to end at or before the first unacknowledged packet
  (SiameseEncoder.cpp:1356-1360). Once it is more than half a period old its end seems to lie ahead, and Cauchy rows are
  sent although no parity packet covers the window (`Encoders.Encoder.ParityIsForgotten`).
- Decode walks on through the list after a failed attempt (SiameseDecoder.cpp:673-726), but every further attempt is at
  the same checked region, which the walk does not change, so only the first region that may be enough is ever tried.
  `Decoders.Decoder.Decode` says so, and `Decoding.ThirdRowHelps` are three packets that determine two lost ones when the
  first two do not.
- The comment on OnAcknowledgementData (SiameseEncoder.h:295) says that invalid data leaves the state
  unchanged; the code sets the next expected column first (SiameseEncoder.cpp:551-561). The model follows the code.
- The comment on the metadata footer says 2 to 6 bytes; the fields add up to 8 (SiameseSerializers.h:729-733).
- RemoveAndUnassignId pushes an identifier before it looks it up. Its contract says exactly which
  calls keep the identifiers a partition, and `ConnectionMaps.UnheldRelease` is a call that does not.
- The cast in StrikeRegister::Accept (StrikeRegister.cpp:102) is exact up to the distance that
  `StrikeRegisters.CastIsExact` gives. Accept says for every number whether the window comes to cover it, and
  `StrikeRegisters.FirstMisfit` is the first number that it does not.
- In AddSingleRecovery the call of RemoveElements (SiameseDecoder.cpp:533) is never reached, because a packet
  that moves the next expected element has just reset the checked region (`Decoders.Decoder.AcceptPacket`).

## Model

| member | source | states |
|---|---|---|
| `Bytes.BytesAreAField` | gf256.cpp:354-453 | bytes with carry-less multiplication modulo 0x14D, exclusive or and inversion satisfy every law the codec relies on; the tables that compute them are `GfTables` |
| `Gf256.MulAssociates` | gf256.cpp:354-440 | multiplication of polynomials modulo the generator is associative |
| `Gf256.InvInverts` | gf256.cpp:449-453 | every non-zero element times its inverse is one |
| `GfTables.OrderOfX` | gf256.cpp:385-397 | no power of x below the 255th is one, so the logarithms of 255 elements are distinct |
| `GfTables.EveryByteIsPower` | gf256.cpp:385-397 | every non-zero byte is a power of x, so it has a logarithm |
| `GfTables.DoubledIsX` | gf256.cpp:389-391 | shifting and conditionally adding the generator is multiplication by x |
| `GfTables.LogsAdd` | gf256.cpp:433-440 | adding logarithms multiplies, and adding 255 minus a logarithm divides |
| `GfTables.ExpLogInit` | gf256.cpp:379-403 | the exponential table holds the powers of x up to 510, and every non-zero byte is the power of its logarithm |
| `GfTables.MulDivInit` | gf256.cpp:410-442 | the two tables hold the product and the quotient in the field, for every pair of bytes |
| `GfTables.InvSqrInit` | gf256.cpp:449-464 | the inverse and square tables hold the inverses and squares of the field |
| `LinearAlgebra.EliminateKeepsRow` | SiameseDecoder.h:504-541 | eliminating a row keeps it equal to the original row minus the stored multiples of the pivot rows, with the multiplier stored in place |
| `LinearAlgebra.ReducedWiden` | SiameseDecoder.cpp:2508-2518 | a row reduced up to its column count stays reduced when zero columns are added |
| `Factorization.EliminateOne` | SiameseDecoder.cpp:2478-2520 | one row operation extends the in-place factorization by one row and keeps all others |
| `Factorization.SwapPivots` | SiameseDecoder.cpp:2478-2504 | exchanging two pivot indexes below the current pivot keeps the factorization |
| `Factorization.StartResume` | SiameseDecoder.cpp:2385-2421 | adding rows and columns to a failed attempt leaves a partial factorization that can be resumed |
| `Factorization.ResumeOne` | SiameseDecoder.cpp:2385-2421 | one resumed row operation brings one new row one pivot further |
| `Factorization.FinishResume` | SiameseDecoder.cpp:2385-2421 | after resuming every old pivot on every new row the invariant of a fresh elimination holds again |
| `Factorization.StuckIsSingular` | SiameseDecoder.cpp:2467-2531 | when no pivot is left, the original columns are dependent |
| `Factorization.SolvedIsRegular` | SiameseDecoder.cpp:2423-2531 | a complete factorization has independent columns |
| `RecoveryMatrices.RecoveryMatrix.EliminateRow` | SiameseDecoder.h:524-541 | the new row is the eliminated row, though the operation is clipped at a column count |
| `RecoveryMatrices.RecoveryMatrix.GaussianElimination` | SiameseDecoder.cpp:2423-2465 | succeeds exactly when the original columns are independent; on failure the state can be resumed |
| `RecoveryMatrices.RecoveryMatrix.PivotedGaussianElimination` | SiameseDecoder.cpp:2467-2531 | the same from any column on, rows permuted through the pivot list only |
| `RecoveryMatrices.RecoveryMatrix.ResumeGE` | SiameseDecoder.cpp:2385-2421 | applies all earlier pivots to the new rows |
| `RecoveryMatrices.RecoveryMatrix.GenerateMatrix` | SiameseDecoder.cpp:2157-2202 | a larger matrix over the same rows continues the factorization of the smaller one |
| `RecoveryMatrices.RecoveryMatrix.Resize` | SiameseCommon.cpp:51-117 | growing the storage keeps every entry in use |
| `RecoveryMatrices.GrownZeroPast` | SiameseDecoder.cpp:2157-2421 | entries at or past a row's column count stay zero when the matrix grows |
| `BackSubstitutions.MultiplyLowerTriangle` | SiameseDecoder.cpp:1065-1104 | every pivot row's packet becomes the upper-triangular combination of the lost packets |
| `BackSubstitutions.HoldsStep` | SiameseDecoder.cpp:1077-1104 | one multiply-add of the lower triangle keeps what the buffers stand for, at every byte position, with zero padding |
| `BackSubstitutions.BackSubstitution` | SiameseDecoder.cpp:1106-1213 | returns exactly the lost packets |
| `BackSubstitutions.RevealInTwoParts` | SiameseDecoder.cpp:1130-1168 | revealing the first bytes, reading the length and revealing the rest gives exactly the packet |
| `Columns.SubtractWrapped` | SiameseCommon.h:105-115 | wrapped differences are the true ones within half a period, and the sign test is exact there |
| `Columns.AddWrapped` | SiameseCommon.h:117-127 | adding to a column is adding to the true number |
| `Coefficients.SumCoefficient` | SiameseDecoder.cpp:2249-2340 | the coefficient of a sum row, from the six bits of the lane's operation code, the column value and its square, the row value, and whether the element is drawn an odd number of times |
| `Coefficients.HitsIsParity` | SiameseEncoder.cpp:1118-1144 | draws of the same element cancel in pairs: what counts is whether their number is odd |
| `Coefficients.BitsAddUp` | SiameseCommon.h:162-173 | the six bits add up to the operation code |
| `Coefficients.PairsPerElement` | SiameseEncoder.cpp:1118 | one pair for every 16 packets, rounded up |
| `Coefficients.ColumnValuesDiffer` | SiameseCommon.h:89-93 | columns closer than 253 have different values |
| `Coefficients.RowValuesDiffer` | SiameseCommon.h:95-99 | rows closer than 255 have different values |
| `Cauchy.CoefficientInverts` | SiameseCommon.h:207-218 | the element of a row and a column times the sum of their two points is one |
| `Cauchy.CoefficientsDiffer` | SiameseCommon.h:207-218 | the elements of a row are different in different columns |
| `Cauchy.CauchyRows` | SiameseCommon.h:176-192 | n rows of a Cauchy matrix determine n unknowns, by clearing one denominator after the other |
| `Cauchy.ParityAndCauchyRows` | SiameseCommon.h:176-192 | so do a row of ones and n - 1 rows of the Cauchy matrix |
| `Cauchy.ShortRowsSuffice` | SiameseCommon.h:176-192 | any k parity and Cauchy packets with different rows determine any k lost packets that all of them cover |
| `ByteSessions.ByteElement` | SiameseCommon.h:212-218 | over the bytes: the element times the exclusive or of row + 64 and column is one |
| `ByteSessions.ByteElementsDiffer` | SiameseCommon.h:212-218 | over the bytes: the elements of a row are different |
| `ByteSessions.AnyShortRowsSuffice` | SiameseCommon.h:176-192 | over the bytes: any k parity and Cauchy packets with different rows determine any k losses they cover |
| `ByteSessions.TwoLostTwoReceived` | SiameseEncoder.cpp:1334-1441 | the first two packets are recovered from the parity packet and the first Cauchy packet |
| `Recovery.AssembledIsCombination` | SiameseEncoder.cpp:1046-1144 | dense sums, light draws and the row multiple add up to the sum of coefficient times data |
| `Recovery.TermSplits` | SiameseDecoder.cpp:2249-2340 | the coefficient of a column splits into plain and multiplied, dense and light parts |
| `LaneSums.LaneSumStep` | SiameseEncoder.cpp:359-418 | accumulating the next packet of a lane extends the lane's weighted sum |
| `LaneSums.LaneSumTotal` | SiameseEncoder.cpp:359-418 | a sum rolled to the end of the window is the weighted sum over the whole range |
| `Encoders.Encoder.Add` | SiameseEncoder.cpp:85-161 | appends the packet, or refuses when the window is full |
| `Encoders.Encoder.StartNewWindow` | SiameseEncoder.cpp:163-181 | a new window starts so that elements and columns share lanes |
| `Encoders.Encoder.RemoveBefore` | SiameseEncoder.cpp:183-216 | the first unacknowledged packet becomes the later of itself and the acknowledged one |
| `Encoders.Encoder.ResetSums` | SiameseEncoder.cpp:218-237 | the sums start over from an element |
| `Encoders.Encoder.RemoveElements` | SiameseEncoder.cpp:239-357 | packets leave the window while the sums keep standing for them |
| `Encoders.Encoder.GetSum` | SiameseEncoder.cpp:359-418 | the returned buffer is the lane's weighted sum up to the end |
| `Encoders.Encoder.AddDenseColumns` | SiameseEncoder.cpp:1046-1098 | the two workspaces hold the dense part of the row |
| `Encoders.Encoder.AddLightColumns` | SiameseEncoder.cpp:1100-1144 | the two workspaces hold dense and light part |
| `Encoders.Encoder.Encode` | SiameseEncoder.cpp:1146-1254 | in every reachable state the payload is the combination its metadata describes, and its row is the next in turn; the light part starts at the first unacknowledged packet; a sum goes on while more than 32 packets are unacknowledged and it covers more than 64 and fewer than 16000, one starts when more than 64 are unacknowledged, and otherwise a single, parity or Cauchy packet is sent; every packet emitted is in the log |
| `Encoders.Encoder.EncodeMany` | SiameseEncoder.cpp:1170-1254 | for which counts a sum goes on, starts or gives way to a parity or Cauchy row, and that each packet is the combination it says |
| `Encoders.Encoder.GenerateSinglePacket` | SiameseEncoder.cpp:1296-1332 | one unacknowledged packet is sent as it is |
| `Encoders.Encoder.GenerateCauchyPacket` | SiameseEncoder.cpp:1334-1441 | a parity row when one is due, else the next Cauchy row, over exactly the unacknowledged packets |
| `Encoders.Encoder.AdvanceRow` | SiameseEncoder.cpp:1210-1213 | every sum row takes the next row modulo 255 |
| `Encoders.Encoder.ChooseRow` | SiameseEncoder.cpp:1355-1397 | a parity row exactly when the columns say that one is due, which then covers everything sent; else the next of the Cauchy rows 1 to 192 |
| `Encoders.Encoder.ParityIsDueIff` | SiameseEncoder.cpp:1355-1360 | within half a period, a parity row is due exactly when no parity packet covers the first unacknowledged packet |
| `Encoders.Encoder.ParityIsForgotten` | SiameseEncoder.cpp:1355-1360 | after half a period none is due although none covers it |
| `Emissions.SumRowsDiffer` | SiameseEncoder.cpp:1210-1213 | over any run: any 255 sum rows in succession have different rows and different row values |
| `Emissions.CauchyRowsDiffer` | SiameseEncoder.cpp:1392-1397 | over any run: any 192 Cauchy rows in succession have different rows, none of them that of a parity packet |
| `Emissions.ParityRowsAreApart` | SiameseEncoder.cpp:1355-1364 | over any run: no packet is in two parity packets that follow within half a period |
| `Emissions.LogGrows` | SiameseEncoder.cpp:1170-1254 | every packet emitted follows all those over several packets before it: it ends and starts its light part no earlier, and its sum is theirs or starts at or past their light part |
| `Rows.GenerateRow` | SiameseDecoder.cpp:2203-2340 | the matrix row is exactly the coefficients the encoder used, the early zero fill included |
| `Rows.GenerateCauchyRow` | SiameseDecoder.cpp:2208-2246 | parity and Cauchy rows, zero past the end of the packet |
| `Rows.GenerateDenseRow` | SiameseDecoder.cpp:2249-2300 | the dense coefficients of a sum row |
| `Elimination.EliminateOriginalData` | SiameseDecoder.cpp:812-1063 | subtracts exactly the combination of what has been received |
| `Elimination.EliminationLeavesLost` | SiameseDecoder.cpp:812-1063 | what is left is the combination of the lost packets alone |
| `Elimination.LostSumIsDot` | SiameseDecoder.cpp:812-1063 | that combination is the product of the matrix row with the lost packets |
| `Decoding.DecodeCheckedRegion` | SiameseDecoder.cpp:729-810 | succeeds exactly when the recovery packets determine the lost ones (their coefficient columns are independent), and then returns exactly the lost packets, from as many rows as losses that determine them by themselves; otherwise the matrix can go on with a larger region |
| `Factorization.PivotsAreRegular` | SiameseDecoder.cpp:2423-2465 | the rows marked as used determine the unknowns by themselves |
| `Decoding.SquareUsesAll` | SiameseDecoder.cpp:826-830 | with no more packets than losses every row is used, so the sums of all of them are followed |
| `Decoding.UsedCount` | SiameseDecoder.cpp:812-830 | as many rows are used as there are lost packets |
| `Decoding.OneRowDetermines` | SiameseDecoder.cpp:2203-2340 | one row determines one lost packet exactly when its coefficient there is not zero |
| `Decoding.RepeatedRow` | SiameseDecoder.cpp:673-726 | a packet that is there twice never determines two lost ones |
| `Decoding.ThirdRowHelps` | SiameseDecoder.cpp:673-726 | three packets that determine two lost ones although the first two do not |
| `BitSets.RangePopcount` | PacketAllocator.h:243-282 | counts the members of a range |
| `BitSets.FindFirstClear` | PacketAllocator.h:285-309 | the first clear bit at or after a start, or the size |
| `BitSets.FindFirstSet` | PacketAllocator.h:319-346 | at or past the end exactly when the range is clear, else the first set bit |
| `BitSets.SetRange` | PacketAllocator.h:354-391 | sets the bits of the range and no other |
| `BitSets.ClearRange` | PacketAllocator.h:399-436 | clears the bits of the range and no other |
| `Missing.MissingCount` | SiameseDecoder.cpp:1279-1323 | counting received elements counts missing ones |
| `DecoderWindows.DecoderWindow.RangeLostPackets` | SiameseDecoder.cpp:1279-1323 | the number of missing elements of a range, from word counts and partial words |
| `DecoderWindows.DecoderWindow.FindNextLostElement` | SiameseDecoder.cpp:1325-1370 | the next missing element, or the end of the window |
| `DecoderWindows.DecoderWindow.FindNextGotElement` | SiameseDecoder.cpp:1372-1417 | the next received element, or the end of the window |
| `DecoderWindows.DecoderWindow.IterateNextExpectedElement` | SiameseDecoder.cpp:1419-1434 | the next expected element is the least missing one again |
| `DecoderWindows.DecoderWindow.GrowWindow` | SiameseDecoder.cpp:1436-1465 | the window reaches further, the new elements are missing |
| `DecoderWindows.DecoderWindow.Store` | SiameseDecoder.cpp:1260-1277 | bits, counts and buffers change together |
| `DecoderWindows.DecoderWindow.DropSubwindows` | SiameseDecoder.cpp:1979-2027 | whole subwindows leave the front, everything else keeps its place |
| `DecoderWindows.DecoderWindow.GotIsContents` | SiameseDecoder.h:261-285 | a bit is set exactly when the buffer is not empty |
| `RecoveryLists.FindPlace` | SiameseDecoder.cpp:2567-2600 | the scan from the tail finds the one place that keeps the list sorted by end, and by later start among equal ends |
| `RecoveryLists.TrimOk` | SiameseDecoder.cpp:2637-2666 | after deleting, every packet left reaches past the next expected element |
| `RecoveryLists.ShiftOk` | SiameseDecoder.cpp:2668-2678 | lowering all counters with the window keeps the list in order |
| `RecoveryLists.RegionKept` | SiameseDecoder.cpp:1515-1530 | packets received outside the region and elements added behind it leave the cached counts exact |
| `RecoveryLists.RegionCoversNext` | SiameseDecoder.cpp:1515-1530 | a region covers the next expected element, so a packet that moves it on resets the region |
| `RecoveryLists.RegionShift` | SiameseDecoder.cpp:2550-2561 | a region shifts with the window, its counts stay exact |
| `RecoveryLists.RegionStep` | SiameseDecoder.cpp:590-614 | counting only the new part gives the losses of the larger region |
| `Removals.FollowIff` | SiameseDecoder.cpp:892-936 | the sums of the used rows can be followed exactly when each sum row goes on with the one before it, with no smaller count, or starts in the window |
| `Removals.SumOfLastUsed` | SiameseDecoder.cpp:892-936 | the sum that a row finds running is that of the last used sum row before it, or the one that was running at first |
| `Removals.KeptNeeds` | SiameseDecoder.cpp:1824-1885 | the scan of the list finds the least element that a light part or any sum but the first needs, and fails exactly when such a start has left the window |
| `Removals.KeptInColumns` | SiameseDecoder.cpp:1824-1885 | the scan by columns and counts alone: it fails exactly when a sum row after the first differs from it and starts outside the window |
| `Removals.PlanIff` | SiameseDecoder.cpp:1778-1933 | with recovery packets, by columns and counts alone: disables exactly when the next expected element is at 128 or past it and a sum that differs from the first starts outside the window, or all that is needed is at 128 or past it and the first sum neither starts where the running one starts, covering no less, nor in the window; otherwise removes all but less than a subwindow of what nothing needs |
| `Removals.SumLeftIff` | SiameseDecoder.cpp:1905-1940 | the sum that runs afterwards: none if the list has none, else the first of the list, of which the part that ran before is kept |
| `Removals.SameSumNeverDisables` | SiameseDecoder.cpp:1905-1940 | rows of the running sum never disable the decoder, wherever the window has moved |
| `Removals.LongSumGoesOn` | SiameseDecoder.cpp:1905-1940 | a running sum whose start has left the window goes on with the next removal; with another start, or a smaller count, the decoder is disabled |
| `Removals.ListNeverOverruns` | SiameseDecoder.cpp:1824-1885 | while there are recovery packets no missing element is removed |
| `Removals.FallbackIff` | SiameseDecoder.cpp:1796-1822 | without recovery packets, over the wrapped columns and the next expected element: when the decoder disables itself, when it removes only received elements and how many, when it removes a missing one, and which sum runs then |
| `Removals.FallbackByAge` | SiameseDecoder.cpp:1800-1811 | the same by the age of the metadata: up to half a period old disables, older is taken for metadata from the future |
| `Removals.SwappedRows` | SiameseDecoder.cpp:922-931 | two sum rows in the wrong order: the second is admitted and its sum cannot be followed; in the right order both can |
| `Removals.StaleMetadata` | SiameseDecoder.cpp:1800-1816 | metadata from before a wrap-around disables the decoder, and later makes it remove missing elements |
| `Decoders.Decoder.AddOriginal` | SiameseDecoder.cpp:1467-1536 | duplicate exactly when received before, otherwise stored; exactly the recovery packets that end before the next expected one are deleted, and the region starts over exactly when the packet falls in it |
| `Decoders.Decoder.AcceptPacket` | SiameseDecoder.cpp:1502-1530 | storing a missing packet keeps every invariant; the region starts over exactly when the packet falls in it, so always when the next expected element moves |
| `Decoders.Decoder.Insert` | SiameseDecoder.cpp:2567-2635 | inserts at its place; the region survives exactly an insertion at the end of a list that is not empty |
| `Decoders.Decoder.FirstKeptInList` | SiameseDecoder.cpp:1824-1885 | the loop computes that scan; no packet of the list needs an earlier element, and the first kept one is at or before the latest start of a light part |
| `Decoders.Decoder.RemoveElements` | SiameseDecoder.cpp:1778-2033 | in every state: stays, removes exactly the planned subwindows, is disabled, or overruns, exactly as `Plan` says; unless it overruns only received packets leave and the region survives |
| `Decoders.Decoder.AddRecovery` | SiameseDecoder.cpp:257-451 | a packet is ignored, only tells what may leave, fills its one hole or joins the list at its place, exactly as `ArrivalOf` says; refused exactly when disabled before or when the length of a packet over one missing column is wrong; disabled afterwards exactly then or when the removal that it triggers finds something needed gone; list, last metadata, running sum and window start are those the removal leaves; nothing received is lost |
| `Decoders.Decoder.TakesIff` | SiameseDecoder.cpp:286-398 | by true numbers: taken in exactly when it reaches past the next expected packet, its light part is in the window, and it is a parity or Cauchy packet or its sum starts at a packet of the window or where the running one starts |
| `Decoders.Decoder.TellsIff` | SiameseDecoder.cpp:343-371 | which packets only tell what may leave |
| `Decoders.Decoder.ArrivalIff` | SiameseDecoder.cpp:286-450 | what the arrival of a packet is and which removal follows |
| `Decoders.Decoder.FreshSumIsIgnored` | SiameseDecoder.cpp:378-398 | a sum row that follows on what has been received, with all its packets lost, is ignored |
| `Decoders.Decoder.TakenAndDisabled` | SiameseDecoder.cpp:446-450 | a packet that joins the list, with success, and whose removal disables the decoder |
| `Decoders.Decoder.AddSingleRecovery` | SiameseDecoder.cpp:453-539 | a packet over one column is that column's packet and is reported; fails exactly when the column is missing and the length does not fit |
| `Decoders.Decoder.Get` | SiameseDecoder.cpp:71-123 | the packet at a column, or none when it has left the window, is past its end or is missing |
| `Decoders.Decoder.HoldsNumber` | SiameseDecoder.cpp:80-97 | within half a period the column finds exactly the packet with that number |
| `Decoders.Decoder.NextIsFirst` | SiameseDecoder.cpp:1419-1434 | the next expected packet is the first one missing of all that were sent |
| `Decoders.Decoder.IsReadyToDecode` | SiameseDecoder.h:565-571 | ready exactly when something waits to be reported or the check stops at a region that is enough |
| `Decoders.Decoder.CheckRecoveryPossible` | SiameseDecoder.cpp:541-628 | goes on from the region it left off at, unless that is enough, to the first one with as many packets as losses or to the end of the list; possible exactly when it is enough, not failed and misses at most 255 |
| `Decoders.FirstEnoughIsTried` | SiameseDecoder.cpp:541-628 | once the first k rows, for any k, are no fewer than the packets missing from their range, the next attempt tries the first such rows |
| `Decoders.OneLossIsTried` | SiameseDecoder.cpp:541-628 | one missing packet and one row over it: the next attempt tries that row and fails only if the coefficient there is zero |
| `Decoders.Decoder.Extended` | SiameseDecoder.cpp:590-621 | one more packet: exact counts, and a system that continues the one before |
| `Decoders.Decoder.RegionIsSystem` | SiameseDecoder.cpp:2059-2155 | in every reachable state the region is a linear system for exactly the packets it misses |
| `Decoders.Decoder.FollowSums` | SiameseDecoder.cpp:892-936 | the loop follows the sums of the used rows exactly when they can be followed |
| `Decoders.Decoder.SolveRegion` | SiameseDecoder.cpp:729-810 | needs more exactly when the packets of the region do not determine the missing ones, and then only the failure mark changes; else disabled exactly when a sum of a used row cannot be followed or something needed is gone; else the missing packets appear as sent and the next expected one is past the region |
| `Decoders.SwappedOutcome` | SiameseDecoder.cpp:764-769 | a region whose one row determines the one missing packet, solved with one running sum and disabling the decoder with another |
| `Decoders.SolvedRemoves` | SiameseDecoder.cpp:1225-1233 | what an attempt that succeeds removes, by the columns and counts of the rows that are left |
| `Decoders.Decoder.RecentIsSafe` | SiameseDecoder.cpp:1796-1816 | with metadata at most half a period behind the window no attempt removes a missing element |
| `Decoders.Decoder.Decode` | SiameseDecoder.cpp:630-727 | reports exactly what is waiting, or tries the first region that is enough, and tries none only when there is none up to the end of the list or it misses more than 255; the outcome of that attempt says exactly when it succeeds, needs more, disables the decoder or overruns, and what list, next expected packet and running sum are left; every packet reported is one that was sent; a failed region is not tried again before another packet arrives |
| `DecoderSums.StepStands` | SiameseDecoder.cpp:1687-1735 | adding the next element of a lane, missing or not, extends the weighted sum of the received packets |
| `DecoderSums.PlugStands` | SiameseDecoder.cpp:1559-1590 | adding a recovered packet makes a sum that had passed it the sum with that packet |
| `DecoderSums.StartedStands` | SiameseDecoder.cpp:1629-1665 | a sum that goes on stays what it is; one without data or with another start starts over |
| `DecoderSums.ShiftedStands` | SiameseDecoder.cpp:1944-1957 | the window moves on behind a sum that has been rolled up, and the sum still stands for the packets that left |
| `DecoderSums.RunningSums.AddOriginal` | SiameseDecoder.cpp:1467-1536 | a packet that arrives is not one that a sum has passed, so every sum stands |
| `DecoderSums.RunningSums.Recover` | SiameseDecoder.cpp:1186-1195 | a recovered packet leaves a hole that waits to be plugged |
| `DecoderSums.RunningSums.PlugSumHoles` | SiameseDecoder.cpp:1538-1601 | after plugging, every sum is the weighted sum of all received packets that it covers; no hole is plugged twice or missed |
| `DecoderSums.RunningSums.ResetSums` | SiameseDecoder.cpp:1603-1627 | the sums start over at an element of the window |
| `DecoderSums.RunningSums.StartSums` | SiameseDecoder.cpp:1629-1681 | running sums go on, with the holes plugged, and sums that were not kept up start over |
| `DecoderSums.RunningSums.GetSum` | SiameseDecoder.cpp:1683-1739 | the buffer is the weighted sum of the received packets of the lane up to the end, including those that have left the window |
| `DecoderSums.RunningSums.Prepare` | SiameseDecoder.cpp:892-940 | follows the sum of a row exactly when it goes on with the running one or starts in the window |
| `DecoderSums.RunningSums.EliminateUsed` | SiameseDecoder.cpp:812-1063 | works exactly when the sums of the used rows can be followed, and leaves of each sum row what `EliminateOriginalData` leaves, from the window and the running sums alone |
| `DecoderSums.RunningSums.Roll` | SiameseDecoder.cpp:1899-1973 | works exactly when no sum is to be kept, or the one to keep goes on with the running one, no longer than it, or starts in the window; then stands for the packets that leave |
| `SumsBeside.RegionIsReady` | SiameseDecoder.cpp:812-940 | in every reachable state of the decoder the rows of the checked region are such that the running sums can be used |
| `SumsBeside.SolveBeside` | SiameseDecoder.cpp:755-810 | the running sums fail exactly when the decoder does, leave the same buffers, and stand for all packets once the lost ones are recovered |
| `SumsBeside.RemoveBeside` | SiameseDecoder.cpp:1899-1973 | whenever the decoder removes elements by its list, the running sums follow the same sum and keep standing |
| `Serializers.PacketNumRoundTrip` | SiameseSerializers.h:330-377 | parsing a packet number returns it and its length, whatever follows |
| `Serializers.FooterPacketNumRoundTrip` | SiameseSerializers.h:383-430 | the same from the end of a buffer |
| `Serializers.CountRoundTrip` | SiameseSerializers.h:462-503 | counts, from the front |
| `Serializers.FooterCountRoundTrip` | SiameseSerializers.h:510-553 | counts, from the end |
| `Serializers.LengthRoundTrip` | SiameseSerializers.h:566-640 | lengths, from the front |
| `Serializers.InitializedIsFramed` | SiameseCommon.cpp:123-144 | every original packet says its own length however it is padded, so back-substitution can cut it out |
| `Serializers.PacketDataRoundTrip` | SiameseDecoder.cpp:98-121 | what was put behind its length comes out again |
| `Serializers.MetadataRoundTrip` | SiameseSerializers.h:736-805 | parsing from the end of payload and footer returns the metadata and splits off the footer exactly |
| `Serializers.RecoveryIsEmitted` | SiameseEncoder.cpp:1235-1240 | the metadata of every encoded packet can be serialized |
| `Serializers.RangeRoundTrip` | SiameseSerializers.h:861-994 | a loss range of 1 to 7 bytes says its own length and is read back |
| `Serializers.WireExamples` | SiameseSerializers.h:330-805 | the bytes of some packet numbers, counts, lengths and metadata |
| `Acknowledgements.GenerateAcknowledgement` | SiameseDecoder.cpp:125-255 | nothing exactly when disabled or empty; else fits the limit, lists the missing elements from the front, all of them when another range would still have fit |
| `Acknowledgements.LossIterator.OnAcknowledgementData` | SiameseEncoder.cpp:514-582 | invalid, stale and duplicate each exactly under its condition, accepted otherwise; only an accepted one moves the window, and the iterator starts over |
| `Acknowledgements.LossIterator.DecodeNextRange` | SiameseEncoder.cpp:725-755 | moves to the next listed range |
| `Acknowledgements.LossIterator.GetNextLossColumn` | SiameseEncoder.cpp:757-777 | returns the listed columns one by one |
| `Acknowledgements.LossIterator.RestartLossIterator` | SiameseEncoder.cpp:779-788 | starts over |
| `Acknowledgements.ListedIsElements` | SiameseEncoder.cpp:725-777 | reading back a list of runs gives their columns |
| `Acknowledgements.AcknowledgementRoundTrip` | SiameseDecoder.cpp:149-255 | the encoder iterates over a prefix of the missing columns and at most the one just past the window, over all of them when space did not run out |
| `Sessions.OrderTest` | SiameseDecoder.cpp:277-282 | the order test is right exactly for late packets and within one period |
| `Sessions.OrderTestFails` | SiameseDecoder.cpp:277-282 | a new packet after the wrap-around that is taken for an old one |
| `Sessions.OrderByColumns` | SiameseDecoder.cpp:277-282 | the order test over the columns it sees: out of order exactly when the end is below the latest column or half a period past it |
| `Sessions.OrderAfterWrap` | SiameseDecoder.cpp:277-282 | a packet whose first column has wrapped around is taken for an old one exactly until its end comes round to the latest column |
| `Sessions.FrozenAfterWrap` | SiameseDecoder.cpp:277-282 | over any run of such packets the latest column and the last metadata stay |
| `Sessions.FrozenThenStale` | SiameseDecoder.cpp:1800-1816 | a whole period of packets leaves the metadata that `StaleMetadata` is about |
| `Sessions.Session.Send` | SiameseEncoder.cpp:85-161 | sending keeps the two-party invariant |
| `Sessions.Session.Emit` | SiameseEncoder.cpp:1146-1254 | an emitted packet starts its light part at the first unacknowledged packet, and is safe from then on |
| `Sessions.Session.DeliverAck` | SiameseEncoder.cpp:814-833 | an acknowledgement, however late or repeated, makes the encoder forget only what the decoder has; stale exactly when older than the last one, duplicate exactly when held already, and accepted ones release exactly what they announce |
| `Sessions.Session.DeliverOriginal` | SiameseDecoder.cpp:1467-1536 | an original packet, in any order and any number of times, keeps the invariant and is stored exactly when it was missing |
| `Sessions.Session.DeliverRecovery` | SiameseDecoder.cpp:257-451 | so does a recovery packet; by true numbers, which packets become rows of the list or fill their one hole; what it makes the decoder receive is reported, and it disables the decoder exactly when `AddRecovery` says |
| `Sessions.Session.Ready` | SiameseDecoder.h:565-571 | ready exactly when something waits or the region that the check comes to is enough |
| `Sessions.Session.Recover` | SiameseDecoder.cpp:630-727 | in every reachable state: tries the first region that is enough, and succeeds, needs more, disables or overruns exactly as the outcome of the attempt says; every packet recovered is as it was sent and the invariant is kept; never overruns while the metadata is recent, nor in a run of fewer than 2^21 packets |
| `Sessions.Session.Acknowledge` | SiameseDecoder.cpp:125-255 | an acknowledgement announces the next expected packet; a disabled decoder gives none |
| `Sessions.Session.NothingIsLost` | SiameseDecoder.cpp:1741-1777 | first unacknowledged <= next expected, and what left either window was received as sent; unless the decoder has gone by stale metadata, its window starts at or before the first unacknowledged packet |
| `Sessions.Session.ShortRunsAreUnconditional` | SiameseCommon.h:101-121 | in runs of fewer than 2^21 packets every message may be delivered at any time |
| `InOrderRuns.ListNeverDisables` | SiameseDecoder.cpp:1824-1933 | a list in which every sum goes on with one before it or starts past its light part never disables the decoder |
| `InOrderRuns.LastNeverDisables` | SiameseDecoder.cpp:1796-1822 | nor does metadata whose sum is running or in the window |
| `InOrderRuns.ListStaysAligned` | SiameseDecoder.cpp:1899-1973 | after a removal everything that a row or the last metadata needs is still there |
| `InOrderRuns.ArrivalIsAligned` | SiameseDecoder.cpp:257-451 | a packet that follows all that the decoder holds does not disable it and leaves that so |
| `InOrderRuns.OutcomeIsAligned` | SiameseDecoder.cpp:729-810 | neither does any attempt to decode: the sums of the rows it uses can always be followed |
| `InOrderRuns.SingleRowDisables` | SiameseDecoder.cpp:343-371 | what is not covered: a packet sent again that the decoder has makes it forget a sum that the encoder goes on with |
| `InOrderSessions.DeliverInOrder` | SiameseDecoder.cpp:257-451 | over any run: recovery packets delivered in the order of emission, any of them lost, never disable the decoder, provided that a packet sent again is one it lacks and no sum covers a full window; before columns wrap around that is all |
| `InOrderSessions.OriginalAtAnyTime` | SiameseDecoder.cpp:1467-1536 | original packets in any order keep that so |
| `InOrderSessions.RecoverAtAnyTime` | SiameseDecoder.cpp:630-727 | so do attempts to recover: they succeed or need more, and never disable the decoder or give up a missing packet |
| `ByteSessions.StartSession` | SiameseDecoder.cpp:56-69 | a session over bytes starts in the invariant |
| `ByteSessions.SendData` | SiameseCommon.cpp:123-144 | any data behind its length can be sent |
| `ByteSessions.EmitBytes` | SiameseEncoder.cpp:1235-1254 | a recovery packet leaves as payload and footer |
| `ByteSessions.WireRoundTrip` | SiameseDecoder.cpp:263-273 | the bytes of every emitted packet are read back as that packet |
| `ByteSessions.NeverCorrupt` | SiameseDecoder.cpp:470-480 | the length check of a packet over one column never fails on what was emitted |
| `ByteSessions.DeliverBytes` | SiameseDecoder.cpp:257-451 | the bytes of a recovery packet keep the two-party invariant; refused exactly when they cannot be read or the decoder was disabled; disabled afterwards exactly then or when the removal that the packet triggers finds something needed gone |
| `LightHashMaps.HomeIsShift` | TonkineseMaps.h:274-285 | the home of a key is the high bits of the hash product |
| `LightHashMaps.NotFound` | TonkineseMaps.h:346-390 | a probe that meets an empty slot proves the key absent |
| `LightHashMaps.Moved` | TonkineseMaps.h:164-197 | moving an entry whose way passes the hole keeps every other entry reachable |
| `LightHashMaps.HoleIsHarmless` | TonkineseMaps.h:164-197 | once no entry below needs the hole, every key is reachable again |
| `LightHashMaps.Crossing` | TonkineseMaps.h:189-191 | the three-way comparison of the shift loop says whether an entry's way passes the hole |
| `LightHashMaps.LightHashMap.FindIndex` | TonkineseMaps.h:346-390 | finds the slot of a key exactly when the key is in the map |
| `LightHashMaps.LightHashMap.InsertNoGrow` | TonkineseMaps.h:392-457 | inserts unless the key is there or the table is at its threshold |
| `LightHashMaps.LightHashMap.Insert` | TonkineseMaps.h:135-154 | inserts unless the key is there, growing the table when needed |
| `LightHashMaps.LightHashMap.Rehash` | TonkineseMaps.h:304-344 | another table size, the same map |
| `LightHashMaps.LightHashMap.MoveInto` | TonkineseMaps.h:459-496 | an entry moved into a table with room is reachable |
| `LightHashMaps.LightHashMap.EraseIndex` | TonkineseMaps.h:155-197 | removes exactly that key |
| `ConnectionMaps.ConnectionMap.Insert` | TonkineseMaps.h:515-519 | true exactly when the key is new |
| `ConnectionMaps.ConnectionMap.Remove` | TonkineseMaps.h:524-535 | removes the key only if this connection holds it |
| `ConnectionMaps.ConnectionMap.Find` | TonkineseMaps.h:539-546 | the connection of a key |
| `ConnectionMaps.ConnectionIdMap.InsertAndAssignId` | TonkineseMaps.cpp:51-85 | an identifier no live connection has, one byte long while there are such; the search ends whenever the map is not full |
| `ConnectionMaps.ConnectionIdMap.RemoveAndUnassignId` | TonkineseMaps.cpp:87-106 | stack and live identifiers stay a partition exactly when the identifier was held, is long, or the stack is full |
| `ConnectionMaps.UnheldRelease` | TonkineseMaps.cpp:96-104 | releasing an identifier that nobody holds lists it twice |
| `ConnectionMaps.SomeIdIsFree` | TonkineseMaps.cpp:68-81 | with all short identifiers taken and room left, a longer one is free |
| `PacketAllocators.FindHole` | PacketAllocator.cpp:295-317 | the first hole that is large enough at or after the resume offset, if there is one |
| `PacketAllocators.Allocator.Allocate` | PacketAllocator.cpp:268-368 | a new region that no live one overlaps, in a preferred window if the scan finds a hole in any of them, else at the front of a new window, or of its own if it is large; all others stay as they are |
| `PacketAllocators.Allocator.MoveLastFewWindowsToFull` | PacketAllocator.cpp:370-394 | the lists stay a partition of the windows with right indexes |
| `PacketAllocators.Allocator.AllocateFromNewWindow` | PacketAllocator.cpp:396-433 | a region at the front of a new window |
| `PacketAllocators.Allocator.Reallocate` | PacketAllocator.cpp:435-487 | keeps a region that is large enough, moves it otherwise, frees it for zero bytes |
| `PacketAllocators.Allocator.Shrink` | PacketAllocator.cpp:489-552 | gives back the units past the new size |
| `PacketAllocators.Allocator.Free` | PacketAllocator.cpp:554-640 | frees exactly that region; swap-remove and promotion keep the lists right |
| `PacketAllocators.Allocator.LiveRegionsAreDisjoint` | PacketAllocator.cpp:156-266 | two live regions that share a unit are the same, and their units are marked |
| `StrikeRegisters.StrikeRegister.IsDuplicate` | StrikeRegister.cpp:62-80 | true exactly for numbers before the window and numbers accepted |
| `StrikeRegisters.StrikeRegister.Accept` | StrikeRegister.cpp:82-142 | for every number: remembers it, the base never goes back, and the window covers it and stays exact exactly when it fits |
| `StrikeRegisters.StrikeRegister.Slide` | StrikeRegister.cpp:112-136 | the words left behind become the words entered, and no number in the window changes |
| `StrikeRegisters.CastIsExact` | StrikeRegister.cpp:101-102 | the cast to 32 bits is exact exactly below its range |
| `StrikeRegisters.FirstMisfit` | StrikeRegister.cpp:101-109 | the first number ahead of a new window that does not fit: its word count is cast to zero |
| `Counters.ExpandRecovers` | Counter.h:236-293 | biased expansion recovers exactly the counters from recent - (M + bias) up to recent + (M - bias) |
| `Counters.ExpandIsUnbiased` | Counter.h:297-316 | unbiased expansion recovers exactly the counters within half a period |
| `Counters.CounterExpandRecovers` | Counter.h:390-409 | the same for fields of 1 to 7 bytes |
| `Counters.TimestampTransfer` | TimeSync.h:327-372 | a time sent and read back is never above the true time and at most the error bound below it |
| `WindowedExtremum.WindowedMinMax.Update` | SiameseTools.h:184-236 | the best sample is within the window, nothing received since it is as good, and no kept sample within the window is better; the best one stays unless the new one is as good, or it is too old or zero |
| `WindowedExtremum.WindowedMinMax.GetBest` | SiameseTools.h:174-177 | the best sample is one that was received |
| `WindowedExtremum.Replaced` | SiameseTools.h:197-236 | every replacement keeps the three samples ordered by value and age |
| `Frames.ParseEncoded` | TonkineseIncoming.cpp:268-289 | frames read back from their encoding |
| `Frames.EncodeParsed` | TonkineseIncoming.cpp:268-289 | what has been read, written back, is the buffer |
| `Frames.FrameOnWire` | TonkineseIncoming.cpp:268-289 | the bytes of a frame |
| `Delivery.FastIsReplay` | TonkineseIncoming.cpp:265-414 | processing on arrival makes the same calls with the same bytes as replaying the stored reliable part |
| `Delivery.LayoutMatters` | TonkineseIncoming.cpp:387-396 | an unreliable frame after a reliable one would break that |
| `Delivery.LastAckAck` | TonkineseIncoming.cpp:387-393 | the acknowledged acknowledgement that is remembered is the last one, three bytes with the least significant first |
| `DeliveryMeaning.ReplayedMeans` | TonkineseIncoming.cpp:624-733 | of the calls alone, for all frames: the messages that are neither compressed nor unordered are delivered in order with their bodies, the non-empty blocks are handed over in order, and the bytes inserted before each block are exactly the frames of the history before it |
| `DeliveryMeaning.HistoryStep` | TonkineseIncoming.cpp:715-727 | a frame belongs to the history exactly when a message that opens it came before, and no compressed block since |
| `DeliveryMeaning.HistoryFirst` | TonkineseIncoming.cpp:715-721 | a message before a block: deliver, insert, decompress |
| `Incoming.SessionIncoming.ReadDatagram` | TonkineseIncoming.cpp:265-414 | the frame loop does what the frames call for and finds their reliable part; fails exactly when the payload is malformed, an acknowledged acknowledgement has the wrong length or a handler refuses a frame |
| `Incoming.SessionIncoming.ReplayPacket` | TonkineseIncoming.cpp:624-685 | the replay loop does what the frames call for |
| `Incoming.SessionIncoming.HandleReliableMessage` | TonkineseIncoming.cpp:707-733 | makes the calls that a frame is there for and hands over the bytes of the waiting frames before a compressed block; what that comes to is `DeliveryMeaning.ReplayedMeans` |
| `Incoming.OrderedLogMeans` | TonkineseIncoming.cpp:602-733 | over all packets handled: the messages in order, and before every block all the history bytes of all packets before it |
| `Incoming.SessionIncoming.ResumeProcessing` | TonkineseIncoming.cpp:602-689 | handles packets in order until the decoder lacks the next one; fails exactly when the decoder is disabled |
| `Incoming.SessionIncoming.NextIsHeld` | TonkineseIncoming.cpp:607-616 | in step, the decoder returns the next packet exactly when it is not the next one it expects: nothing unhandled has left its window |
| `Incoming.SessionIncoming.AttemptDecode` | TonkineseIncoming.cpp:536-600 | the loop ends, whatever the decoder recovers is handled in order and once, and the decoder then lacks the next packet, unless it has gone by stale metadata |
| `Incoming.SessionIncoming.DecoderAddOriginal` | TonkineseIncoming.cpp:735-768 | a packet handled on arrival is counted once, a duplicate not at all; fails exactly when the decoder is disabled or overruns |
| `Incoming.SessionIncoming.OnRecovery` | TonkineseIncoming.cpp:520-534 | the same for the bytes of a recovery packet, which may hold a missing packet itself; when it is handled the decoder is disabled exactly if the packet makes it give up something it needs |
| `Incoming.SessionIncoming.ProcessDatagram` | TonkineseIncoming.cpp:239-466 | after any datagram the handled messages are exactly those of the packets before the next expected one, in order, each once, and the decoder of the session lacks that one; refused exactly when malformed, refused by a handler or without a number; fails exactly when the decoder is disabled or overruns, never the latter in a run of fewer than 2^21 packets |
| `Incoming.SessionIncoming.PeerSends` | SiameseEncoder.cpp:85-161 | packets sent by the other end keep that invariant |
| `Incoming.SessionIncoming.PeerEmits` | SiameseEncoder.cpp:1146-1254 | so do its recovery packets |
| `Incoming.SessionIncoming.PeerHears` | SiameseEncoder.cpp:814-833 | so do acknowledgements that reach it |
| `Incoming.SessionIncoming.PostAcknowledgements` | TonkineseIncoming.cpp:921-966 | what is acknowledged is exactly what has been handled, unless the other end is known to have heard it |

## Left out

- Elimination.EliminateOriginalData: recomputes the sums from the packets, also from those that have left the window. The `Decoder` class keeps these for it; `RunningSums` does without them, and `SumsBeside` shows that its results are the same in an attempt to decode and in a removal that goes by the list. The two are not one class.
- DecoderSums.RunningSums.Roll: asks that a sum that is not kept up any more is not to be kept again after its start has left the window, where the code would go on with old data; a packet that joins the list is asked for that by AddRecovery (SiameseDecoder.cpp:378-398), the last metadata of an empty list is not.
- The check of PlugSumHoles that a recovered packet is there (SiameseDecoder.cpp:1566-1570) never fails and is left out.
- Decoders.Decoder.Decode: says when it overruns but nothing about the state after that, where the code goes on with counters that have wrapped around below zero.
- Decoders.Decoder.RemoveElements: the same.
- Sessions.Session.Recover: the same.
- Incoming.SessionIncoming.ProcessDatagram: says nothing of the datagrams after the one in which the decoder went by stale metadata, which may have taken packets out of its window before they were handled.
- Matrix columns are listed afresh for each attempt instead of resuming at PreviousNextCheckStart; rows, counts and the factorization are resumed as in the code.
- Linked lists, pointers and buffers are sequences and identifiers; aliasing of packet memory, alignment and SIMD are not modelled.
- Out-of-memory paths, debug canaries and PKTALLOC_SHRINK are left out; EmergencyDisabled is a state in which every call is refused.
- The 4-bit tables and SIMD kernels of gf256 (gf256.cpp:466-630) are left out; whole buffers are multiplied byte by byte.
- PacketAllocators.Allocator.Reallocate: the copying of data is not modelled.
- Retransmission, round-trip estimates (SiameseEncoder.cpp:584-723, 877-1044), bandwidth control, the clock synchronization filter and compression are left out; Decompress and InsertUncompressed are logged calls.
- Unordered messages (onSiameseSolved among them) are not claimed to be delivered once: a packet that has left the window looks unseen (SiameseDecoder.cpp:80-87).
- Datagram processing starts after decryption and the nonce check, with the expanded sequence number; datagrams that only carry recovery data go to OnRecovery directly.
- Counters.ExpandRecovers: counters are unbounded; wrap-around at 2^64 is not modelled.
- WindowedExtremum.WindowedMinMax.Update: a best sample of zero is replaced by the next one, as the code takes it for none.
- ConnectionAddrMap and P2PConnectionKeyMap wrap the same map and would only add easy members.
- Sockets, timers, firewall, NAT, logging and the SDK are I/O plumbing.
- The probability that sum rows determine what is lost depends on the operation codes and draws, which are arbitrary here.
- InOrderSessions.DeliverInOrder: leaves out packets that reach the decoder after the columns have wrapped around and are taken for old ones, which `Sessions.FrozenThenStale` shows to be harmful.
