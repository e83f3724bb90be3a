# Fixed-point and core-peripheral functions of the CMSIS headers

A Dafny model of the functions that have bodies in the CMSIS headers of the SDK: the fixed-point
reciprocal, the PID controllers, the Park and Clarke transforms, the circular buffers, the table
interpolators and the packed-SIMD emulation of `arm_math.h`; the data-cache maintenance of
`core_cm7.h`; and the interrupt-priority registers of `core_cm0.h` and `core_cm4.h`.

C integers are mathematical integers. Every conversion the C text makes is written out (`I8`, `I16`,
`I32`, `I64`, `U16`, `U32` in module `CInt`), a right shift of a signed value is floor division, and
`&`, `|`, `^` and `<<` on words are defined bit by bit, with the masks of the source. That an
operation loses no bit is then something proved, not assumed.

Code that loops or updates state in the source is a method or a class here (`__CLZ`, `__SSAT`, the two
reciprocals, the PID instances, the circular buffers, the priority registers, the cache sweeps); each
method is proved equal to a specification function, and the laws are lemmas about that function.

| module | what it models |
|---|---|
| `Arith`, `CInt` | integer facts; conversions, shifts and bitwise operators |
| `Saturation`, `PackedSimd` | clips, saturation by doubling, lane-wise instructions |
| `Reciprocal` | leading zeros, normalisation, two Newton steps in Q31 and Q15 |
| `RecipNegative` | what the Q15 reciprocal makes of negative inputs |
| `PidLaw`, `PidQ31`, `PidQ15` | the positional law, and the wrapping and saturating controllers |
| `Transforms` | Park, Clarke and their inverses |
| `CircularBuffer` | block writes and reads against the sample history |
| `LinearInterp`, `BilinearInterp` | interpolation in Q7, Q15 and Q31 tables |
| `CacheGeometry`, `DataCache`, `CacheCoherence`, `CacheRuns` | set/way words, the sweeps, coherence, whole runs |
| `NvicPacked`, `NvicGrouping` | packed priority words; priority grouping |

## Where the code and its documentation part

The model follows the code. Each of these is a lemma, with the exact condition where there is one:

- The Q31 reciprocal of a negative input is the largest mantissa, whatever the input
  (`Recip31AccurateExactlyWhenPositive`). The Q15 steps wrap instead: no negative input is accurate with
  every accurate table (`Recip15AccurateExactlyWhenPositive`), and only in four of the 64 table segments
  is any accurate with some (`NegativeServedExactlyWhen`).
- The Q31 PID output is documented as saturated but wraps; when the two agree is exact for a step and for
  a whole run (`StepSaturatesExactlyWhen`, `RunSaturatesExactlyWhen`). The advised input scaling does not
  help (`OutputSumWrapsCounterexample`).
- Park and its inverse are documented as free of overflow but one product wraps
  (`ParkSaturatesExactlyWhen`, `InvParkSaturatesExactlyWhen`), and so does Clarke's second product beyond
  0x6ED9EBA1 (`ClarkeSaturatesExactlyWhen`).
- A negative input to the Q15 and Q31 linear interpolation is read as beyond the end, not below the
  start; which tables return the documented first entry all the same is exact
  (`Q15NegativeInputsExactlyWhen`, `Q31NegativeInputsExactlyWhen`).
- Q31 linear interpolation can fall, by two units (`Q31FallsExactlyWhen`); only neighbours at least
  2^21 - 5 apart rule that out (`Q31MonotoneExactlyWhenGap`).
- Q31 bilinear interpolation can wrap on a table with an entry less than 13 units above the bottom of the
  range (`BilinearQ31AccurateExactlyWhen`).
- The circular updates announce negative increments but never add the length back
  (`StaysInBufferExactlyWhen`).
- The bilinear boundary test compares the column with the number of rows and the row with the number of
  columns: it admits all interior points of the table only when the two differ by at most one
  (`InteriorAcceptedExactlyWhen`), and stops all points beyond it only on a square table
  (`BeyondRejectedExactlyWhen`). With more columns than rows it also admits reads outside the array
  (`AcceptedReadableExactlyWhen`).
- The clips to Q15 from 64 bits and to Q7 from 32 bits are clamps only outside a gap
  (`ClipQ63ToQ15IsClampExactlyWhen`, `ClipQ31ToQ7IsClampExactlyWhen`).
- `__QASX` and `__QSAX` borrow from the high lane when the low one is negative
  (`QAsxIsLaneWiseExactlyWhen`, `QSaxIsLaneWiseExactlyWhen`).
- The 16-bit write offset serves circular buffers up to 65536 samples and no longer
  (`OffsetWidthExactlyWhen`).

## Model

| member | source | states |
|---|---|---|
| Saturation.ClipQ63ToQ31IsClamp | driver/CMSIS/Include/arm_math.h:459-464 | the clip is the clamp to 32 bits, for every 64-bit value |
| Saturation.ClipQ63ToQ15IsClampExactlyWhen | driver/CMSIS/Include/arm_math.h:469-474 | it is the clamp of the value scaled by 2^-15 exactly outside [2^30, 2^31) and [-2^31, -2^30), where it is one turn of 16 bits off |
| Saturation.ClipQ31ToQ15IsClamp | driver/CMSIS/Include/arm_math.h:489-494 | the clip is the clamp to 16 bits, for every 32-bit value |
| Saturation.ClipQ31ToQ7IsClampExactlyWhen | driver/CMSIS/Include/arm_math.h:479-484 | it is the clamp to 8 bits exactly inside Q7, outside 24 bits, or when the low byte happens to be the limit; inside 24 bits it is the signed low byte |
| Saturation.Mult32x64IsHighProduct | driver/CMSIS/Include/arm_math.h:500-506 | the two half products give the full 96-bit product shifted by 32, and none leaves 64 bits |
| Saturation.Ssat | driver/CMSIS/Include/arm_math.h:645-679 | for every width from 1 to 31: what fits is returned unchanged, what is above or below becomes the largest or smallest that fits |
| Saturation.QAddSubAreClamped | driver/CMSIS/Include/arm_math.h:945-960 | saturating addition and subtraction are the clamped exact ones |
| PackedSimd.QAdd8 | driver/CMSIS/Include/arm_math.h:693-715 | each signed byte lane is the sum of the lanes limited to -0x80..0x7F |
| PackedSimd.QSub8 | driver/CMSIS/Include/arm_math.h:720-741 | each signed byte lane is the difference of the lanes limited to -0x80..0x7F |
| PackedSimd.QAdd16 | driver/CMSIS/Include/arm_math.h:750-768 | each signed halfword lane is the sum limited to -0x8000..0x7FFF |
| PackedSimd.QSub16 | driver/CMSIS/Include/arm_math.h:796-813 | each signed halfword lane is the difference limited to -0x8000..0x7FFF |
| PackedSimd.BytesDetermineWord | driver/CMSIS/Include/arm_math.h:709-713 | a word is its four byte lanes, so the lane contracts fix the whole result |
| PackedSimd.HalvesDetermineWord | driver/CMSIS/Include/arm_math.h:764-766 | a word is its two halfword lanes |
| PackedSimd.BytesOfJoin | driver/CMSIS/Include/arm_math.h:709-713 | the mask-and-or join puts each byte in its own lane |
| PackedSimd.SHAdd16IsHalfSumExactlyWhen | driver/CMSIS/Include/arm_math.h:773-791 | each lane is the floored half sum, less one exactly when both lanes are odd |
| PackedSimd.SHSub16IsHalfDifferenceExactlyWhen | driver/CMSIS/Include/arm_math.h:818-835 | each lane is the floored half difference, plus one exactly for even minus odd |
| PackedSimd.QAsxIsLaneWiseExactlyWhen | driver/CMSIS/Include/arm_math.h:840-853 | the low lane is the clamped difference; the high lane is the clamped sum exactly when the low one is not negative, and one less otherwise |
| PackedSimd.QSaxIsLaneWiseExactlyWhen | driver/CMSIS/Include/arm_math.h:881-894 | the same for the other exchange |
| Reciprocal.Clz | driver/CMSIS/Include/arm_math.h:519-533 | the loop counts 32 less the bit length, for every non-zero word |
| Reciprocal.RecipQ31 | driver/CMSIS/Include/arm_math.h:541-587 | the method computes the normalised two-step reciprocal with every conversion in place |
| Reciprocal.NewtonIdentity31 | driver/CMSIS/Include/arm_math.h:571-579 | the deficit of a step is exactly the squared deficit over 2^61 plus what the two shifts drop |
| Reciprocal.NewtonStepBounds31 | driver/CMSIS/Include/arm_math.h:571-579 | for any normalised positive n and any non-negative value the product stays below 2^61, and the new deficit is bounded by the square of the old one |
| Reciprocal.NewtonStepIsExact31 | driver/CMSIS/Include/arm_math.h:574-578 | no conversion in a step changes a value and the clip never fires |
| Reciprocal.Recip31NeverOverflows | driver/CMSIS/Include/arm_math.h:541-587 | every positive input, any table without negative entries: exact steps, product below 2^61 |
| Reciprocal.Recip31AccurateExactlyWhenPositive | driver/CMSIS/Include/arm_math.h:541-587 | with entries good to 1 in 64: shift less one normalises, and 0 < 2^61 - n*dst < 2^37 + 2^33 exactly for positive inputs; negative inputs give the largest mantissa |
| Reciprocal.NewtonStepIsCapped31 | driver/CMSIS/Include/arm_math.h:574-578 | either sign: a step is the exact one cut off at the largest mantissa |
| Reciprocal.Recip31Is | driver/CMSIS/Include/arm_math.h:541-587 | either sign, any table without negative entries: the shift normalises, and the result is two such steps from the entry the top bits select |
| Reciprocal.AccurateTable31Exists | driver/CMSIS/Include/arm_math.h:563-568 | the table hypothesis is satisfied by midpoint reciprocals |
| Reciprocal.RecipQ15 | driver/CMSIS/Include/arm_math.h:592-637 | the method computes the Q15 reciprocal with every conversion in place |
| Reciprocal.NewtonStepIsExact15 | driver/CMSIS/Include/arm_math.h:625-628 | the unclipped Q15 narrowings lose no bit for any positive input and non-negative value |
| Reciprocal.Recip15Accurate | driver/CMSIS/Include/arm_math.h:592-637 | every positive input: no bit lost, product below 2^29, and under the table hypothesis a deficit below 2^16 + 2^7 |
| Reciprocal.Recip15Shift | driver/CMSIS/Include/arm_math.h:600-609 | either sign: the returned shift less one normalises the input |
| Reciprocal.AccurateTable15Exists | driver/CMSIS/Include/arm_math.h:614-619 | the Q15 table hypothesis is satisfied |
| RecipNegative.NewtonStepWrapsOnce15 | driver/CMSIS/Include/arm_math.h:622-629 | any normalised input, any 16-bit value: the mixed signed and unsigned conversions of a step are one reduction of the exact step |
| RecipNegative.Recip15WrapsOncePerStep | driver/CMSIS/Include/arm_math.h:592-637 | either sign, any table: the result is two such steps from the entry the top bits select |
| RecipNegative.Recip15AccurateExactlyWhenPositive | driver/CMSIS/Include/arm_math.h:592-637 | the deficit bound holds for every accurate table without negative entries exactly for positive inputs |
| RecipNegative.Recip15NegativeInaccurate | driver/CMSIS/Include/arm_math.h:592-637 | with any one accurate table a negative input misses the bound, outside four segments |
| RecipNegative.NegativeServedExactlyWhen | driver/CMSIS/Include/arm_math.h:592-637 | some accurate table serves some negative input of a segment exactly in those four |
| PidLaw.SumTracksLaw | driver/CMSIS/Include/arm_math.h:5033-5036 | truncated increments of the derived gains telescope to the positional law, below it by less than one unit per step |
| PidQ31.Instance.Process | driver/CMSIS/Include/arm_math.h:5123-5153 | one call is one step of the wrapping controller and changes only the state |
| PidQ31.Instance.ProcessAll | driver/CMSIS/Include/arm_math.h:5123-5153 | feeding a block call by call is the run the laws are about, output by output |
| PidQ31.StepWrapsOnce | driver/CMSIS/Include/arm_math.h:5131-5143 | the 64-bit wraps before the shift are invisible: a step adds the exact increment and wraps once |
| PidQ31.RunIsWrappedOutput | driver/CMSIS/Include/arm_math.h:5123-5153 | any run, gains, inputs, initial state: the output is the unbounded output reduced once to 32 bits, equal to it exactly when it fits |
| PidQ31.WholeRunLaw | driver/CMSIS/Include/arm_math.h:5123-5153 | the unbounded output tracks the positional law within one unit per step, the output exactly when that fits, and always when the law stays clear of the limits |
| PidQ31.InputScalingExactlyWhen | driver/CMSIS/Include/arm_math.h:5115-5120 | the accumulator and its narrowing never wrap, for all gains, exactly for inputs up to 715827882 |
| PidQ31.StepSaturatesExactlyWhen | driver/CMSIS/Include/arm_math.h:5115-5143 | a step gives the documented saturated result exactly when its sum is in range or one full turn beyond a limit |
| PidQ31.RunSaturatesExactlyWhen | driver/CMSIS/Include/arm_math.h:5115-5143 | a run agrees with the documented saturating one at every sample exactly when every sum of that one is such a value |
| PidQ31.OutputSumWrapsCounterexample | driver/CMSIS/Include/arm_math.h:5115-5143 | scaled inputs, five steps, and the output has wrapped negative |
| PidQ15.ScalarInstance.Process | driver/CMSIS/Include/arm_math.h:5192-5213 | the scalar build is one saturated increment; no intermediate loses a bit |
| PidQ15.SimdInstance.Process | driver/CMSIS/Include/arm_math.h:5178-5213 | the packed build is the same step with one more when gain and input are negative |
| PidQ15.SmuadOfSignExtended | driver/CMSIS/Include/arm_math.h:1030-1037 | sign-extended operands: the product, plus one exactly when both are negative |
| PidQ15.SmuadIsSum | driver/CMSIS/Include/arm_math.h:1030-1037 | any operands: the sum of both lane products, wrapping only for four lanes of -2^15 |
| PidQ15.SmlaldIsSum | driver/CMSIS/Include/arm_math.h:1004-1012 | the packed multiply-accumulate adds the two lane products |
| PidQ15.RunIsClampedShift | driver/CMSIS/Include/arm_math.h:5171-5214 | a whole run with all its saturations is clamp(y0 + S, L, H), with S, L, H fixed by gains and inputs |
| PidQ15.RunsContract | driver/CMSIS/Include/arm_math.h:5171-5214 | two runs on the same inputs keep their order and never move apart, from any time to any later one |
| PidQ15.WholeRunLaw | driver/CMSIS/Include/arm_math.h:5171-5214 | the increments track the positional law; the output follows exactly when the sum lies in the window, so whenever nothing saturated |
| PidQ15.PackedFollowsScalar | driver/CMSIS/Include/arm_math.h:5178-5204 | over any run the packed output is above the scalar one by at most the number of steps with negative gain and input, never below |
| PidQ15.OneStepDiffersExactlyWhen | driver/CMSIS/Include/arm_math.h:5178-5204 | one step: the outputs differ, by one, exactly when the extra unit carries and the sum is not at a limit |
| Transforms.ParkSaturatesExactlyWhen | driver/CMSIS/Include/arm_math.h:5545-5574 | each component is the saturated combination of truncated products exactly when its wrapping product does not occur (or occurs in both) |
| Transforms.InvParkSaturatesExactlyWhen | driver/CMSIS/Include/arm_math.h:5665-5695 | the same for the inverse |
| Transforms.ParkIs | driver/CMSIS/Include/arm_math.h:5545-5695 | both transforms in closed form for all inputs |
| Transforms.ParkExact | driver/CMSIS/Include/arm_math.h:5545-5574 | inside the circle (Cauchy-Schwarz) nothing saturates |
| Transforms.ParkRoundTrip | driver/CMSIS/Include/arm_math.h:5545-5695 | inside the circle neither transform saturates, and the components return scaled by (c^2+s^2)/2^62 within four and five units |
| Transforms.ParkRoundTripFitsExactlyWhen | driver/CMSIS/Include/arm_math.h:5545-5695 | a bound on the length of the vector keeps both passes from saturating, for all vectors and angles, exactly up to 2^31 - 3 |
| Transforms.ParkRoundTripSaturates | driver/CMSIS/Include/arm_math.h:5545-5695 | a vector of length 2^31 - 2 for which the second pass saturates |
| Transforms.ClarkeSaturatesExactlyWhen | driver/CMSIS/Include/arm_math.h:5320-5339 | beta is the saturated sum exactly for the second input within 0x6ED9EBA1; beyond it one product is 2^32 off, which leaves the wrong sign |
| Transforms.InvClarkeIs | driver/CMSIS/Include/arm_math.h:5424-5444 | for all inputs: alpha, and the saturated difference of the two truncated products |
| Transforms.ClarkeRoundTripExactlyWhen | driver/CMSIS/Include/arm_math.h:5320-5444 | when the exact beta fits: the first phase returns exactly, the second within [-3, +1], exactly for those inputs |
| CircularBuffer.Write | driver/CMSIS/Include/arm_math.h:6249-6286 | the loop writes the strided samples one by one, increments of either sign, with 32-bit updates, and narrows the offset to 16 bits |
| CircularBuffer.SamplesAt | driver/CMSIS/Include/arm_math.h:6262-6274 | sample k is read k strides into the source |
| CircularBuffer.WrittenLast | driver/CMSIS/Include/arm_math.h:6249-6286 | increments of either sign: each cell holds the last sample written at its offset, or its old content |
| CircularBuffer.Read | driver/CMSIS/Include/arm_math.h:6294-6344 | the loop delivers the samples at successive offsets, increments of either sign, to the wrapping destination |
| CircularBuffer.ReadOutAt | driver/CMSIS/Include/arm_math.h:6317-6339 | increments of either sign: sample k is read at the k-th offset |
| CircularBuffer.DstIsStraight | driver/CMSIS/Include/arm_math.h:6322-6328 | any stride: the destination offset of sample k is k strides on, until it lands on the end |
| CircularBuffer.DstRestarts | driver/CMSIS/Include/arm_math.h:6322-6328 | there it starts again from the base |
| CircularBuffer.DstIsModular | driver/CMSIS/Include/arm_math.h:6322-6328 | with a stride that divides the length that is the offset modulo the length |
| CircularBuffer.AdvanceIsModular | driver/CMSIS/Include/arm_math.h:6277-6279 | n conditional updates are (offset + n*inc) mod L |
| CircularBuffer.StaysInBufferExactlyWhen | driver/CMSIS/Include/arm_math.h:6276-6279 | the offsets of n updates stay in the buffer exactly when the increment is not negative or the updates end before the bottom |
| CircularBuffer.StepsVisit | driver/CMSIS/Include/arm_math.h:6276-6279 | an increment from 0 to L meets what Write and Read demand of their caller, for any number of samples |
| CircularBuffer.HistoryWindow | driver/CMSIS/Include/arm_math.h:6249-6286 | any increment: the cell k steps behind the offset holds the sample written k steps ago, until the increment comes round |
| CircularBuffer.FreshExactlyWhen | driver/CMSIS/Include/arm_math.h:6276-6279 | the increment comes round exactly after L / gcd(L, increment) writes |
| CircularBuffer.HistoryOverPeriod | driver/CMSIS/Include/arm_math.h:6249-6286 | so the history window of any increment is that long |
| CircularBuffer.HistoryDeterminesBuffer | driver/CMSIS/Include/arm_math.h:6249-6286 | increment 1: every cell holds the latest sample that fell on it, or its old content |
| CircularBuffer.BlocksAreOneHistory | driver/CMSIS/Include/arm_math.h:6249-6286 | a run of blocks is one write of their concatenation |
| CircularBuffer.OffsetWidthExactlyWhen | driver/CMSIS/Include/arm_math.h:6252-6285 | that holds for every run exactly for lengths up to 65536, of all 32-bit lengths |
| CircularBuffer.ReadReturnsHistory | driver/CMSIS/Include/arm_math.h:6294-6344 | a read from any delay in the window returns exactly that slice of history |
| CircularBuffer.ReadOverPeriod | driver/CMSIS/Include/arm_math.h:6294-6344 | the same for every delay up to L / gcd(L, increment) |
| CircularBuffer.DestinationIsCircular | driver/CMSIS/Include/arm_math.h:6322-6328 | the wrapping destination is itself written as a circular buffer |
| CircularBuffer.ReadAfterWrites | driver/CMSIS/Include/arm_math.h:6249-6344 | writes then a read with destination stride 1: the content of each destination cell in closed form |
| CircularBuffer.DeliveredLast | driver/CMSIS/Include/arm_math.h:6322-6328 | any destination stride: each cell holds the last sample delivered to it, or its old content |
| CircularBuffer.ReadAfterBlocks | driver/CMSIS/Include/arm_math.h:6249-6344 | any run of block writes, then a read from any delay in the window to any destination stride: each cell holds the last sample of that slice of the concatenated history delivered to it |
| LinearInterp.Q15IsInterpolated | driver/CMSIS/Include/arm_math.h:5884-5928 | no conversion loses a bit, for any table and input |
| LinearInterp.Q15Value | driver/CMSIS/Include/arm_math.h:5884-5928 | every table, in any order, and every input: the last entry from the last node on, before it the truncated weighted mean |
| LinearInterp.Q15Monotone | driver/CMSIS/Include/arm_math.h:5884-5928 | non-decreasing table: non-decreasing over segments, boundaries and the clamped end, for all inputs in the unsigned order of the index (the usual one for x >= 0) |
| LinearInterp.Q15Enclosed | driver/CMSIS/Include/arm_math.h:5906-5925 | the value is the floor of the exact mean less y0/2^20, within [min-1, max] of the neighbours |
| LinearInterp.Q15NegativeInputExactlyWhen | driver/CMSIS/Include/arm_math.h:5896-5905 | a negative input is read as segment 4096 + x/2^20; tables up to 2049 entries keep the documented value exactly when first and last entry agree |
| LinearInterp.Q15NegativeInputsExactlyWhen | driver/CMSIS/Include/arm_math.h:5896-5925 | every documented table size: all negative inputs return the first entry exactly when the last equals it and, beyond 2049 entries, it is not positive and entries 2048 on repeat it (zero also as one) |
| LinearInterp.Q7IsInterpolated | driver/CMSIS/Include/arm_math.h:5944-5990 | the same formula in 32 bits, and the first entry below zero |
| LinearInterp.Q7Value | driver/CMSIS/Include/arm_math.h:5944-5990 | the same in Q7, with the first entry below zero |
| LinearInterp.Q7Monotone | driver/CMSIS/Include/arm_math.h:5944-5990 | non-decreasing for x >= 0 |
| LinearInterp.Q7MonotoneOverAllInputsExactlyWhen | driver/CMSIS/Include/arm_math.h:5957-5990 | over all inputs, negative included, exactly when the first entry is not positive or is the only one |
| LinearInterp.InterpolatedEnclosed | driver/CMSIS/Include/arm_math.h:5980-5986 | every interpolated value lies in [min-1, max] of its neighbours |
| LinearInterp.Q31Accurate | driver/CMSIS/Include/arm_math.h:5844-5862 | neither the sum nor the doubling overflows, and the result is within (-5, +1] of the exact interpolation |
| LinearInterp.Q31Value | driver/CMSIS/Include/arm_math.h:5822-5867 | every table, in any order, and every input: the last entry from the last node on, before it twice the sum of the two truncated halves |
| LinearInterp.Q31FallsExactlyWhen | driver/CMSIS/Include/arm_math.h:5832-5862 | non-decreasing table, over all segments: a later input has a smaller value, by exactly two, exactly when both sums lie in one unit and only the later dropped fractions carry; never onto a node or at the clamped end |
| LinearInterp.Q31MonotoneExactlyWhenGap | driver/CMSIS/Include/arm_math.h:5832-5862 | a lower bound on the gaps between neighbours guarantees monotonicity for every table exactly from 2^21 - 5 on |
| LinearInterp.Q31NotMonotoneCounterexample | driver/CMSIS/Include/arm_math.h:5844-5862 | a table with gap 2^21 - 6 on which the output falls from one input to the next |
| LinearInterp.Q31NegativeInputExactlyWhen | driver/CMSIS/Include/arm_math.h:5832-5862 | the value of a negative input for any table size; up to 2049 entries it is the last one, and the documented one exactly when the two agree |
| LinearInterp.Q31NegativeInputsExactlyWhen | driver/CMSIS/Include/arm_math.h:5832-5862 | every documented table size: all negative inputs return the first entry exactly when the last equals it and, beyond 2049 entries, it is a non-positive multiple of 2^21 that entries 2048 on repeat to within one (zero: two) |
| BilinearInterp.WeightsSum | driver/CMSIS/Include/arm_math.h:7324-7345 | the four weights are non-negative and sum to the square of the fraction range |
| BilinearInterp.Blend15Accurate | driver/CMSIS/Include/arm_math.h:7324-7349 | Q15 cell: floor of the untruncated sum over 2^40 or one less, within [min-1, max] of the neighbours |
| BilinearInterp.Blend15Is | driver/CMSIS/Include/arm_math.h:7324-7349 | Q15 cell exactly: four first shifts, one final one, no other loss |
| BilinearInterp.ReadsAreDocumented | driver/CMSIS/Include/arm_math.h:7312-7328 | at every point of the table whose reads are in memory, the four reads weighted are the documented sum, also on the last column |
| BilinearInterp.BilinearQ15Accurate | driver/CMSIS/Include/arm_math.h:7281-7351 | whole table: the documented sum within one at the points of the table the boundary test admits; zero beyond a square table |
| BilinearInterp.BlendedElements | driver/CMSIS/Include/arm_math.h:7205-7427 | any table: at each point whose column index is below numRows and row index below numCols, which four elements of the array are blended with which fractions |
| BilinearInterp.ZeroElsewhere | driver/CMSIS/Include/arm_math.h:7205-7427 | at every other point the result is zero |
| BilinearInterp.BilinearQ15IsDocumented | driver/CMSIS/Include/arm_math.h:7281-7351 | sizes up to 2048: zero at every point with a column outside 0..numRows-1 or a row outside 0..numCols-1, the documented sum within one at every other point of the table |
| BilinearInterp.Blend7Exact | driver/CMSIS/Include/arm_math.h:7405-7425 | Q7 cell: exactly the floor of the untruncated sum, within [min-1, max] |
| BilinearInterp.Blend7Is | driver/CMSIS/Include/arm_math.h:7405-7425 | the same with every weight written out |
| BilinearInterp.BilinearQ7Accurate | driver/CMSIS/Include/arm_math.h:7361-7427 | whole table: the same with the documented sum rounded down |
| BilinearInterp.BilinearQ7IsDocumented | driver/CMSIS/Include/arm_math.h:7361-7427 | the same in Q7, the documented sum rounded down |
| BilinearInterp.Blend31Is | driver/CMSIS/Include/arm_math.h:7247-7264 | Q31 cell exactly, for all neighbours: four twice-truncated terms, scaled by four and reduced once to 32 bits |
| BilinearInterp.Blend31Narrows | driver/CMSIS/Include/arm_math.h:7247-7264 | the Q31 result is four times the accumulator exactly when that is at least -2^29 |
| BilinearInterp.Blend31Accurate | driver/CMSIS/Include/arm_math.h:7247-7264 | neighbours 13 units above the bottom: no overflow, less than 22 units below the untruncated sum |
| BilinearInterp.BilinearQ31Accurate | driver/CMSIS/Include/arm_math.h:7205-7266 | whole table 13 units above the bottom: less than 22 units below the documented sum at the points of the table the boundary test admits; zero beyond a square table |
| BilinearInterp.BilinearQ31IsDocumented | driver/CMSIS/Include/arm_math.h:7205-7266 | the same in Q31, with entries 13 units above the bottom and a loss below 22 units |
| BilinearInterp.BilinearQ31AccurateExactlyWhen | driver/CMSIS/Include/arm_math.h:7205-7266 | a lower bound on the entries guarantees that accuracy, for all tables and such points, exactly from 13 units above the bottom on |
| BilinearInterp.Blend31WrapsCounterexample | driver/CMSIS/Include/arm_math.h:7247-7264 | a flat cell 12 units above the bottom yields almost the largest value |
| BilinearInterp.InteriorAcceptedExactlyWhen | driver/CMSIS/Include/arm_math.h:7296-7328 | every interior point of the documented table is admitted and reads in memory exactly when rows and columns differ by at most one (or there is no such point) |
| BilinearInterp.InteriorIsDocumented15 | driver/CMSIS/Include/arm_math.h:7281-7351 | on such a table, at every interior point: the documented sum rounded down or one less |
| BilinearInterp.InteriorIsDocumented7 | driver/CMSIS/Include/arm_math.h:7361-7427 | the same in Q7, the documented sum rounded down |
| BilinearInterp.InteriorIsDocumented31 | driver/CMSIS/Include/arm_math.h:7205-7266 | the same in Q31, with entries 13 units above the bottom and a loss below 22 units |
| BilinearInterp.BeyondRejectedExactlyWhen | driver/CMSIS/Include/arm_math.h:7306-7310 | every point whose integer part is off the table is rejected exactly when it is square; points off it by a fraction are never all rejected |
| BilinearInterp.AcceptedReadableExactlyWhen | driver/CMSIS/Include/arm_math.h:7296-7328 | the points the test admits, but for its own last row and column, read inside the array exactly when there are no more columns than rows |
| CacheGeometry.GeometryFields | driver/CMSIS/Include/core_cm7.h:1874-1876 | the macros extract their bit fields of CCSIDR |
| CacheGeometry.WordIsFields | driver/CMSIS/Include/core_cm7.h:2013-2021 | a word is the way and the set, each shifted to its own bit without loss |
| CacheGeometry.WordsDecodeExactlyWhen | driver/CMSIS/Include/core_cm7.h:2009-2023 | every word decodes, as the architecture lays it out, to the set and way it was made from, for all of them exactly when the fields fit |
| DataCache.Scb.WayLoop | driver/CMSIS/Include/core_cm7.h:2018-2022 | the inner loop terminates and writes one word per way, last to first |
| DataCache.Scb.SweepLoop | driver/CMSIS/Include/core_cm7.h:2017-2023 | the nested loops terminate and write exactly the sweep, with its effect on the core |
| DataCache.Scb.EnableDCache | driver/CMSIS/Include/core_cm7.h:1933-1961 | sweep, then the enable bit |
| DataCache.Scb.DisableDCache | driver/CMSIS/Include/core_cm7.h:1968-1996 | the enable bit cleared, then the sweep |
| DataCache.Scb.InvalidateDCache | driver/CMSIS/Include/core_cm7.h:2003-2028 | the invalidate sweep |
| DataCache.Scb.CleanDCache | driver/CMSIS/Include/core_cm7.h:2035-2060 | the clean sweep |
| DataCache.Scb.CleanInvalidateDCache | driver/CMSIS/Include/core_cm7.h:2067-2092 | the clean-and-invalidate sweep |
| CacheCoherence.SweepEnumerates | driver/CMSIS/Include/core_cm7.h:2009-2023 | (sets+1)*(ways+1) pairwise distinct words, aimed at exactly the locations of the cache |
| CacheCoherence.CleanSweepPreservesMemory | driver/CMSIS/Include/core_cm7.h:2035-2092 | nothing dirty (or valid) remains and memory is the coherent view from before |
| CacheCoherence.InvalidateSweepDropsLines | driver/CMSIS/Include/core_cm7.h:2003-2028 | no valid line remains; memory and configuration are untouched |
| CacheCoherence.InvalidatePreservesViewExactlyWhen | driver/CMSIS/Include/core_cm7.h:2003-2028 | an invalidate loses nothing exactly when no line held anything memory did not |
| CacheRuns.CallWrites | driver/CMSIS/Include/core_cm7.h:1933-2092 | every register write of each of the five calls, in order: its own kind of maintenance for every set and way, the enable bit cleared before or set after |
| CacheRuns.CleanCallCleans | driver/CMSIS/Include/core_cm7.h:2035-2060 | nothing is dirty afterwards, memory is the coherent view from before, and nothing but dirty bits and memory changes |
| CacheRuns.CleanInvalidateCallEmpties | driver/CMSIS/Include/core_cm7.h:2067-2092 | nothing is valid either |
| CacheRuns.InvalidateCallEmpties | driver/CMSIS/Include/core_cm7.h:2003-2028 | nothing is valid; memory and configuration as before |
| CacheRuns.EnableStartsEmpty | driver/CMSIS/Include/core_cm7.h:1933-1961 | every line is invalid when the enable bit is written, last; no other bit changes; memory is what is seen |
| CacheRuns.DisablePreservesMemory | driver/CMSIS/Include/core_cm7.h:1968-1996 | ends disabled and empty with memory equal to the coherent view |
| CacheRuns.CallRefines | driver/CMSIS/Include/core_cm7.h:1933-2092 | under its usage rule each call leaves what the processor sees unchanged |
| CacheRuns.RunRefinesFlatMemory | driver/CMSIS/Include/core_cm7.h:1933-2092 | over any run of loads, stores and calls that keeps the usage rules, from power-up garbage too, the processor sees a flat memory |
| NvicPacked.FieldOf | driver/CMSIS/Include/core_cm0.h:531-535 | which word and bit position the macros give each interrupt |
| NvicPacked.GetAfterSet | driver/CMSIS/Include/core_cm0.h:614-618 | setting a field of a word changes that byte and no other |
| NvicPacked.SetTouchesOneField | driver/CMSIS/Include/core_cm0.h:611-619 | a call replaces its interrupt's byte and no other interrupt's, in the same word or another |
| NvicPacked.StoredIs | driver/CMSIS/Include/core_cm0.h:615 | the stored byte: the implemented bits left-aligned, zeros below |
| NvicPacked.StoredReadsBack | driver/CMSIS/Include/core_cm0.h:615-637 | a priority reads back modulo 2^bits |
| NvicPacked.RunRefinesMap | driver/CMSIS/Include/core_cm0.h:611-640 | over any run of calls each interrupt reads the last priority set for it modulo 2^bits, or its initial one |
| NvicPacked.Nvic.SetPriority | driver/CMSIS/Include/core_cm0.h:611-619 | the registers after the read-modify-write |
| NvicPacked.Nvic.GetPriority | driver/CMSIS/Include/core_cm0.h:633-640 | the priority field of the interrupt |
| NvicGrouping.FieldWidths | driver/CMSIS/Include/core_cm4.h:1625-1626 | the two field widths sum to the implemented bits |
| NvicGrouping.EncodeIsFields | driver/CMSIS/Include/core_cm4.h:1619-1632 | the encoding is the two reduced fields side by side, below 2^bits |
| NvicGrouping.DecodeIsFields | driver/CMSIS/Include/core_cm4.h:1647-1658 | decoding any priority takes its two fields, whatever lies above them |
| NvicGrouping.DecodeEncode | driver/CMSIS/Include/core_cm4.h:1619-1658 | decoding returns both inputs reduced to their fields |
| NvicGrouping.EncodeDecode | driver/CMSIS/Include/core_cm4.h:1619-1658 | encoding a decoded priority returns it modulo 2^bits, itself when it is below |
| NvicGrouping.EncodeIsLexicographic | driver/CMSIS/Include/core_cm4.h:1619-1658 | encoded order is the lexicographic order of (preemption, subpriority) |
| NvicGrouping.ThroughTheRegister | driver/CMSIS/Include/core_cm4.h:1577-1658 | encode, store, read and decode under one grouping keeps both fields |
| NvicGrouping.HardwareSplit | driver/CMSIS/Include/core_cm4.h:1577-1632 | under the architecture's own split of the stored byte, the part above bit PRIGROUP is the preemption field and the part below the subpriority, each left-aligned |
| NvicGrouping.RegroupedFields | driver/CMSIS/Include/core_cm4.h:1462-1473 | the key and the group are replaced and every other bit kept |
| NvicGrouping.Scb.SetPriorityGrouping | driver/CMSIS/Include/core_cm4.h:1462-1473 | the register afterwards, reading back as the group modulo 8 |
| NvicGrouping.Scb.GetPriorityGrouping | driver/CMSIS/Include/core_cm4.h:1482-1485 | the group field of the register |
| NvicGrouping.Scb.SetPriority | driver/CMSIS/Include/core_cm4.h:1577-1583 | one byte replaced, all others kept |
| NvicGrouping.Scb.GetPriority | driver/CMSIS/Include/core_cm4.h:1597-1604 | the stored byte shifted down |

## Left out

- RecipNegative.NegativeServedExactlyWhen: within the four segments, which entries serve which negative inputs is not characterised.
- Reciprocal.Clz: the zero input, on which the loop does not end, is excluded; so are the inputs 0 and the most negative value of the reciprocals, whose normalising shift the C text leaves undefined.
- The reciprocal tables themselves: they are defined outside these headers, so an entry's accuracy is a hypothesis, shown satisfiable.
- Ssat: a width of 32 bits, where the doubling overflows, and a width of 0 are excluded.
- The remaining packed emulations (`__SHASX`, `__SHSAX`, `__SMUSD`, `__SMUADX`, `__SMLAD` and the like): one-line products and half sums of the same lanes.
- Initialisation and reset of the PID instances: they have no body here; the gains are taken as given, and the laws assume the documented relations between them exactly.
- PidQ15.PackedFollowsScalar: bounds the drift between the builds but does not characterise it over a run.
- Transforms.ParkRoundTrip: stated for vectors of length at most 2^31 - 3, the longest for which nothing saturates (ParkRoundTripFitsExactlyWhen).
- Transforms.ClarkeRoundTripExactlyWhen: inputs whose exact beta does not fit in 32 bits saturate as documented and do not round-trip; no bound is given for them.
- CircularBuffer.Write: offsets outside the buffer, updates beyond 32 bits and source strides that leave the source are excluded, as the C text gives them no meaning; the history laws are about increments from 0 to L.
- CircularBuffer.ReadAfterWrites: destination stride 1; ReadAfterBlocks covers the others. Pointers are positions in one sequence or array, and the two buffers do not alias.
- BilinearInterp.BilinearQ15Accurate: points at which the code reads outside the array are excluded: on the table that is its last row and the lower end of its last column, and off it whatever the boundary test wrongly admits.
- LinearInterp.Q15IsInterpolated: the table length is the length of the sequence, so a count that disagrees with the table is not modelled. The test for a negative index is omitted, as the index is never negative.
- LinearInterp.Q31NegativeInputsExactlyWhen: tables of up to 4096 entries, the largest size the documentation supports.
- The data cache has one value per line and no other bus master; the processor makes no access in the middle of a sweep, and barriers are not modelled. A sweep word aimed outside the cache is not given the architecture's unpredictable behaviour.
- NvicPacked.Nvic.SetPriority: core interrupts below -8, which have no priority field, are excluded, as the index macro does.
- Instruction cache, SysTick, reset, enable and pending registers: single register writes.
- Floating-point variants, functions declared without a body, inline assembly and compiler intrinsics.
