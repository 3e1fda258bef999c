# Verified models: GNSS receive path, curve flattening and lane routing

This project models, in Dafny, the algorithmic cores of the repository and proves what they
are for. Doubles are exact reals, counters are unbounded integers, and every place where the
code depends on a machine width (32-bit accumulators, 24-bit registers, `size_t` in `rdp`) has
it written out.

**Curve flattening** (`RealArith`, `Euclid`, `BezierAlgebra`, `Flattening`, `ArcLength`, `LineSimplification`,
`GoldenSection`). `CubicBezier::approximate_linear` cuts a cubic into pieces, replaces each by
two quadratics and each quadratic by chords. The proof follows the error budget of the code: on
half a piece the curve differs from its quadratic by (D/8)u²(u−1), at most |D|/54, and the
quadratic from a chord over a step g by at most |c|g²/4; with the two step sizes each is at most
eps/2. It holds in every dimension; `sqrt` and `cbrt` are parameters that are assumed exact.

**RTCM 3 receive path** (`Bits`, `BitCodec`, `Crc24qTable`, `Gf2`, `Crc24q`, `Framing`,
`Optional`, `MsmBits`, `Msm`, `SignalSlots`, `Rtcm3Obs`). The byte-fed framing machine (RTCM 10403.2,
section 4), the table-driven CRC of section A.4.3.3 of RTCA DO-229C as polynomial division
over GF(2), and the multi-signal messages from their bits to the records of an epoch.

**Time** (`Calendar`, `GpsTime`). Calendar, leap seconds, GPS weeks, and the roll-over
adjustment of message times.

**Linear algebra** (`RealSum`, `Matrix`, `NullVectors`, `LuFactors`, `LuDecomposition`,
`LinearSolve`, `LeastSquares`). The in-place LU decomposition with scaled partial pivoting on
column-major arrays, up to least squares.

**Smoothing** (`HatchFilter`). The carrier smoothing of pseudoranges.

**Lane routing** (`RouteSearch`, `SearchRuns`, `Routing`). The Dijkstra search as mathematics, all its
runs, and the mutable edge set with its two indexes.

Code that updates objects or arrays is a class or a method over an array, proved against
functions of its inputs or old state; the laws are lemmas about those functions.

## Where the code and its documentation differ

- `shortest_path` (`RoutingGraph.cpp:100`) inserts a predecessor only once. Its labels are the
  least weights, but the list it returns leads through the first predecessor found and can be
  longer: `RouteSearch.DetourReturned` gives a graph. `SearchRuns.ShortestIffFirstIsBest` says
  exactly for which graphs every list that any run can return is shortest, and
  `SearchRuns.ShortestIffNearestIsBest` puts it more simply for positive weights. With an
  overwriting insert every list would be shortest (`RouteSearch.LatestShortest`).
- For an unreachable target that is in the graph, `shortest_path` returns the list holding only
  the start, not an empty list.
- `gpst2utc` and `utc2gpst` are inverse except inside an inserted leap second
  (`GpsTime.GpstRoundTripIff`).
- `rdp` on a single point leaves `out` as it was; a call with its start past its end wraps in
  `size_t` (`LineSimplification.Simplified` keeps these cases).
- A range field of 0 in a multi-signal message is treated like the invalid range 255, because
  `rtcm3.c` tests `r[j] != 0.0` (`Rtcm3Obs.RoughRange`, `Rtcm3Obs.StoredAtRank`).
- `lossoflock` keeps lock times in an unsigned char, while kinds 6 and 7 send 10 bits: a fall
  from 300 to 100 goes unnoticed (`Rtcm3Obs.MissedLoss`). `Rtcm3Obs.LossOfLockExact` says when
  the indicator is right.
- `csmooth` does not notice a slip flagged on a record whose code or carrier is zero, and then
  smooths across it (`HatchFilter.MissedSlip`). `HatchFilter.FilterExact` says when the filter
  counts and bounds the values since the last flagged slip.
- A multi-signal message from an unexpected station is refused only after its time has been
  taken over.

## Model

| member | source | states |
|---|---|---|
| Flattening.ApproximateLinear | libOpenDRIVEOri/include/CubicBezier.hpp:182-228 | for every eps > 0 the values rise strictly from 0 to 1, every chord between neighbours stays within eps of the cubic, the ends and middles of all pieces are among the values, and there are no others than each half piece cut in even steps: the multiples of its step below 1 |
| Flattening.EveryParameter | libOpenDRIVEOri/include/CubicBezier.hpp:182-228 | every point of the cubic, for every t in [0, 1], is within eps of the chord of the two neighbouring values |
| Flattening.FirstChord | libOpenDRIVEOri/include/CubicBezier.hpp:206-220 | with the two step sizes, a chord inside the first half of a piece is within eps of the curve |
| Flattening.SecondChord | libOpenDRIVEOri/include/CubicBezier.hpp:209-223 | the same inside the second half |
| Flattening.SubcurveIsCurve | libOpenDRIVEOri/include/CubicBezier.hpp:156-179 | the sub-curve at u is the curve at t0 + u (t1 - t0) |
| Flattening.SubcurveLeadVector | libOpenDRIVEOri/include/CubicBezier.hpp:156-179 | the cubic coefficient of a sub-curve is the curve's times (t1 - t0) cubed |
| Flattening.CoefficientsRoundTrip | libOpenDRIVEOri/include/CubicBezier.hpp:26-70 | get_control_points and get_coefficients undo each other |
| Flattening.CoefficientsEvaluate | libOpenDRIVEOri/include/CubicBezier.hpp:50-70 | the coefficients are those of the curve as a polynomial in t |
| Flattening.GradIsDerivative | libOpenDRIVEOri/include/CubicBezier.hpp:143-153 | get_grad is the derivative: over a step h the curve moves by h times the gradient, up to h² times a second-order term |
| BezierAlgebra.FirstHalfChord | libOpenDRIVEOri/include/CubicBezier.hpp:206-215 | on a first half, curve minus chord is -u(1-u)g² times the second difference of the quadratic plus a chord error of t²(t-1)/8 times the leading coefficient |
| BezierAlgebra.BumpBound | libOpenDRIVEOri/include/CubicBezier.hpp:186 | the cubic-to-quadratic error factor lies between -1/54 and 0: the constant 1.0/54.0 |
| Flattening.SegStepFits | libOpenDRIVEOri/include/CubicBezier.hpp:186-190 | step³ times the norm of the leading coefficient is exactly 27 eps; without a leading coefficient there is one piece |
| Flattening.QuadStepFits | libOpenDRIVEOri/include/Utils.hpp:235-241 | the step is in (0, 1] and step² times the norm of the second difference is at most 4 eps |
| Flattening.QuadStepExact | libOpenDRIVEOri/include/Utils.hpp:240 | it is exactly 4 eps if the norm is above 4 eps, and otherwise the step is 1: no step is shorter than needed |
| Flattening.ApproximateLinearQuadBezier | libOpenDRIVEOri/include/Utils.hpp:234-249 | the values rise from 0 to 1 with no gap above the step, and are exactly the multiples of the step below 1, and 1 |
| ArcLength.BuildTable | libOpenDRIVEOri/include/CubicBezier.hpp:80-98 | each entry is a flattening value with the length of the polyline up to it, of several with the same length the last; lengths and values rise strictly, no length is lost |
| ArcLength.GetT | libOpenDRIVEOri/include/CubicBezier.hpp:110-135 | out-of-range lengths are refused, lengths up to the tolerance beyond the end are clamped, others are interpolated between neighbouring entries |
| ArcLength.AtEntry | libOpenDRIVEOri/include/CubicBezier.hpp:118-134 | at a tabulated length the tabulated parameter comes back |
| ArcLength.ParameterProportional | libOpenDRIVEOri/include/CubicBezier.hpp:127-134 | between neighbouring entries the parameter is proportional to the arc length: (t - t_lower)(s_upper - s_lower) = (s - s_lower)(t_upper - t_lower) |
| ArcLength.ParameterRises | libOpenDRIVEOri/include/CubicBezier.hpp:118-134 | get_t rises strictly with the arc length |
| ArcLength.ParameterOnto | libOpenDRIVEOri/include/CubicBezier.hpp:118-134 | every parameter from the first to the last tabulated one is taken |
| LineSimplification.Rdp | libOpenDRIVEOri/include/Utils.hpp:151-231 | which points the recursion leaves in `out`, with the early return, the wrap of size_t and out-of-range reads |
| LineSimplification.RdpResult | libOpenDRIVEOri/include/Utils.hpp:151-231 | the output takes grid points in order including both ends, each dropped grid point is within epsilon of the line of its two kept neighbours, only the ends stay if and only if all grid points are within epsilon of their line, and every other point kept is the farthest, beyond epsilon, from the line of two points kept around it |
| LineSimplification.WithinLine | libOpenDRIVEOri/include/Utils.hpp:168-206 | a distance of at most epsilon means a point of the line, or the point where both ends coincide, is that near |
| LineSimplification.DistanceLeast | libOpenDRIVEOri/include/Utils.hpp:164-206 | no point of the line through the ends is nearer to the point than the distance computed |
| LineSimplification.DistanceExact | libOpenDRIVEOri/include/Utils.hpp:164-206 | the distance is at most epsilon if and only if some point of the line is within epsilon |
| LineSimplification.KeptNeeded | libOpenDRIVEOri/include/Utils.hpp:208-225 | every inner point kept was split at: it is the farthest, beyond epsilon, from the line of two points kept on either side |
| LineSimplification.KeptEndsOnly | libOpenDRIVEOri/include/Utils.hpp:215-231 | only the ends stay exactly when all grid points are within epsilon of their line, and otherwise the farthest grid point stays |
| LineSimplification.RdpAgain | libOpenDRIVEOri/include/Utils.hpp:151-231 | running it with step 1 on its own output returns that output |
| LineSimplification.FarthestIsPeak | libOpenDRIVEOri/include/Utils.hpp:164-213 | the scan finds the first grid point at the greatest distance |
| GoldenSection.GoldenSectionSearch | libOpenDRIVEOri/include/Utils.hpp:105-148 | for every strictly unimodal f the result is within tol/2 of the minimiser |
| GoldenSection.NarrowsAll | libOpenDRIVEOri/include/Utils.hpp:122-142 | the part kept still has the minimiser |
| GoldenSection.KeepLeft | libOpenDRIVEOri/include/Utils.hpp:124-132 | the reused probe is again at the golden section of the shorter interval |
| GoldenSection.KeepRight | libOpenDRIVEOri/include/Utils.hpp:133-141 | the same when the right part is kept |
| BitCodec.Getbitu | common/gnss_third_party/rtkcmn.c:802-809 | the unsigned value of the field, for lengths up to 32; beyond, modulo 2^32 |
| BitCodec.WholeBytes | common/gnss_third_party/rtkcmn.c:802-809 | a field of whole bytes is the number they spell, most significant byte first |
| BitCodec.Getbits | common/gnss_third_party/rtkcmn.c:810-817 | the two's-complement value of the field |
| BitCodec.Setbitu | common/gnss_third_party/rtkcmn.c:825-838 | the field holds the low bits of the data, every other bit of the buffer is unchanged, and lengths outside 1 to 32 change nothing |
| BitCodec.Setbits | common/gnss_third_party/rtkcmn.c:839-846 | the field reads back as the sign of the data over its low bits |
| BitCodec.ClippedExact | common/gnss_third_party/rtkcmn.c:839-846 | setbits keeps a value if and only if it is in the signed range of the field |
| BitCodec.Getbits2Value | common/gnss_third_party/rcvraw.c:86-97 | a field split in two is the two's-complement value of the concatenation |
| BitCodec.Getbits3Value | common/gnss_third_party/rcvraw.c:98-112 | the same for a field split in three |
| BitCodec.MergeTwoSValue | common/gnss_third_party/rcvraw.c:116-118 | merging a signed high part with a low part gives the value of the concatenation |
| BitCodec.Getbits38Value | common/gnss_third_party/rtcm3.c:449-451 | the 38-bit two's-complement value |
| Crc24qTable.TableCorrect | common/gnss_third_party/rtkcmn.c:348-385 | each of the 256 entries is eight division steps of its index |
| Crc24q.Crc24q | common/gnss_third_party/rtkcmn.c:879-889 | the table-driven loop computes the register of polynomial division for every length |
| Crc24q.ParityIsRemainder | common/gnss_third_party/rtkcmn.c:879-889 | the checksum is the one remainder of the message times x^24 by 0x1864CFB |
| Crc24q.ParityLinear | common/gnss_third_party/rtkcmn.c:879-889 | the checksum is linear under XOR of equally long messages |
| Crc24q.ParityOkMultiple | common/gnss_third_party/rtcm.c:376-381 | a frame passes the parity test if and only if it is a multiple of the generator |
| Crc24q.BurstDetected | common/gnss_third_party/rtcm.c:376-381 | two equally long byte strings that pass and differ only within 24 bits are equal |
| Framing.Rtcm.Input | common/gnss_third_party/rtcm.c:349-385 | one byte takes the collected bytes to their next state and hands over exactly the payload of a completed, correct frame |
| Framing.LengthBytes | common/gnss_third_party/rtcm.c:366-369 | the length field is the low two bits of the second byte and the third byte |
| Framing.StreamRoundTrip | common/gnss_third_party/rtcm.c:349-385 | a stream of frames with filler free of 0xD3 between them delivers exactly their payloads, in order, and ends idle |
| Framing.DeliveredAreFrames | common/gnss_third_party/rtcm.c:349-385 | on any bytes at all, every message delivered is the payload of a frame in the input, the frames in order and apart |
| Framing.RunReachable | common/gnss_third_party/rtcm.c:349-385 | in every state reached the collected bytes begin with the preamble and are fewer than the frame they announce |
| Framing.ReturnsToIdle | common/gnss_third_party/rtcm.c:349-385 | an unfinished frame returns to idle before 1029 bytes are collected |
| Framing.BurstDropped | common/gnss_third_party/rtcm.c:376-381 | a frame whose payload or parity is hit by a burst of at most 24 bits is dropped |
| Framing.GenRtcm3 | common/gnss_third_party/rtcm.c:456-498 | refuses too long bodies, and otherwise makes a frame of the zero-padded body that the receiver accepts |
| MsmBits.ReadColumn | common/gnss_third_party/rtcm3.c:2324-2363 | a column loop reads n values whose bits are those of the buffer, each in the range of its field |
| MsmBits.ReadTable | common/gnss_third_party/rtcm3.c:2324-2363 | columns in order, consuming n times their total width |
| MsmBits.ReadMask | common/gnss_third_party/rtcm3.c:2232-2245 | the increasing list of the set positions, counted from 1 |
| MsmBits.TableInjective | common/gnss_third_party/rtcm3.c:2324-2363 | no two tables of field values share their bits |
| Msm.SizesExact | common/gnss_third_party/rtcm3.c:2311-2315 | the sizes in the length checks, 18/48, 36/63, 18/65 and 36/80 bits, are what the columns of the four kinds take |
| Msm.InvalidMarkers | common/gnss_third_party/rtcm3.c:2341-2352 | each invalid marker is the least value of its signed field |
| Msm.ReadHead | common/gnss_third_party/rtcm3.c:2185-2249 | a header is read if and only if the message has 169 bits, and it is the one the buffer carries |
| Msm.HeadPositions | common/gnss_third_party/rtcm3.c:2191-2231 | in a header that a buffer carries each field is the number at its literal bit position and width: type 24/12, station 36/12, GLONASS day 48/3 and time 51/27 or time 48/30, sync 78/1, iod 79/3, 82/7, 89/2, 91/2, 93/1, 94/3 |
| Msm.MaskPositions | common/gnss_third_party/rtcm3.c:2232-2245 | satellite i is listed if and only if bit 96 + i is set, signal i if and only if bit 160 + i is, both in rising order |
| Msm.CellPositions | common/gnss_third_party/rtcm3.c:2265-2271 | cell k of the mask is bit 193 + k |
| Msm.CellCountIs | common/gnss_third_party/rtcm3.c:2265-2271 | the number of cells returned is the number of set bits of the cell mask |
| Msm.SatPositions | common/gnss_third_party/rtcm3.c:2324-2338 | the raw range, extended information, fraction and rate of satellite i are at their literal offsets and widths behind the cell mask |
| Msm.CellPositionsNormal | common/gnss_third_party/rtcm3.c:2339-2363 | in kinds 4 and 5 the raw pseudorange, phase, lock time, half cycle, strength and rate of cell j are at their literal offsets and widths |
| Msm.CellPositionsHigh | common/gnss_third_party/rtcm3.c:2505-2529 | the same in kinds 6 and 7 |
| Msm.UnitsExact | common/gnss_third_party/rtcm3.c:2341-2352 | fine pseudoranges are in 2^-24 and phases in 2^-29 light milliseconds, in the high-resolution kinds 2^-29 and 2^-31 |
| Msm.ReadCells | common/gnss_third_party/rtcm3.c:2255-2271 | refused above 64 cells or past the message, otherwise the mask bits and the number of them that are set |
| Msm.ReadBody | common/gnss_third_party/rtcm3.c:2311-2364 | refused exactly when the check on the length fails, otherwise all satellite and cell fields of the buffer |
| Msm.Encode | common/gnss_third_party/rtkcmn.c:825-846 | the setbitu and setbits encoder of the same layout makes the buffer carry the message, and keeps the first 24 bits |
| Msm.CarriesUnique | common/gnss_third_party/rtcm3.c:2185-2364 | a buffer carries at most one message of a kind: decoding inverts encoding |
| SignalSlots.SigIndex | common/gnss_third_party/rtcm3.c:2002-2044 | each signal's slot: its frequency's if it is unknown or primary, otherwise the next extension slot or none |
| SignalSlots.SlotsDistinct | common/gnss_third_party/rtcm3.c:2002-2044 | no two known signals share a slot, and every slot is below NFREQ+NEXOBS |
| SignalSlots.PrimarySlot | common/gnss_third_party/rtcm3.c:2019-2029 | a known signal has its frequency's slot if and only if it is the earliest of greatest positive priority |
| SignalSlots.DroppedWhenFull | common/gnss_third_party/rtcm3.c:2030-2043 | a known signal goes without a slot only if earlier signals hold every extension slot |
| SignalSlots.PrimaryExists | common/gnss_third_party/rtcm3.c:2019-2029 | a frequency with a signal of positive priority has a primary signal |
| Rtcm3Obs.Rtcm3.ObsIndex | common/gnss_third_party/rtcm3.c:213-235 | the record of the satellite, a new blank one at the end, or none when MAXOBS others are there |
| Rtcm3Obs.Rtcm3.EpochRecord | common/gnss_third_party/rtcm3.c:2139-2144 | records are dropped first if an epoch is complete or record 0 is more than 1e-9 s away; all records stay within 1e-9 s of record 0 |
| Rtcm3Obs.Rtcm3.TestStaid | common/gnss_third_party/rtcm3.c:237-259 | which station is accepted, and what is remembered then and otherwise |
| Rtcm3Obs.Rtcm3.SaveMsmObs | common/gnss_third_party/rtcm3.c:2131-2182 | every satellite of the message is stored, nothing else changes, satellites stay distinct, one epoch, at most MAXOBS; the cell counter ends at ncell |
| Rtcm3Obs.StoreCells | common/gnss_third_party/rtcm3.c:2148-2181 | each set cell with a slot gets the data at its rank among the set bits, and 8 bits of its lock time are kept; all other slots and lock times stay |
| Rtcm3Obs.StoredAtRank | common/gnss_third_party/rtcm3.c:2148-2181 | after a message, the record of a satellite holds for each cell what the raw fields at the cell's rank say: the pseudorange is stored exactly when the range is neither 0 nor 255 and the fine field is not its marker; phase and Doppler times the wave length are the range and the negative rate; and so on for strength, slip and lock time |
| Rtcm3Obs.LookedUp | common/gnss_third_party/rtcm3.c:2131-2163 | satellite number, code and wave length of a cell: with GLONASS channel information up to 13, wave length times the channel's frequency on L1 or L2 is the speed of light |
| Rtcm3Obs.NewRecord | common/gnss_third_party/rtcm3.c:225-232 | a new record's entries, and the lock times of a new satellite, start as zeros |
| Rtcm3Obs.RoughRange | common/gnss_third_party/rtcm3.c:2324-2337 | the rough range is 0 exactly for the fields 0 and 255, and otherwise range plus fraction |
| Rtcm3Obs.LossOfLockExact | common/gnss_third_party/rtcm3.c:202-207 | with 8 bits of the lock time kept, the indicator is right if and only if the new lock time is not from the part kept up to below the old one, or both that part and the new time are 0; it never shows a slip that is none |
| Rtcm3Obs.ShortLockExact | common/gnss_third_party/rtcm3.c:202-207 | lock times below 256, as in kinds 4 and 5, are never affected |
| Rtcm3Obs.MissedLoss | common/gnss_third_party/rtcm3.c:202-207 | a fall from 300 to 100 is missed |
| Rtcm3Obs.HeadTimeTracked | common/gnss_third_party/rtcm3.c:2201-2217 | the time a message sets is the true one if the time before was less than half a week away, also for BeiDou's shifted week |
| Rtcm3Obs.HeadDayTracked | common/gnss_third_party/rtcm3.c:2201-2207 | the same for GLONASS and half a day |
| Rtcm3Obs.FirstHeadTracked | common/gnss_third_party/rtcm3.c:147-150 | the first message, when there is no time yet, is resolved by the reference time |
| Rtcm3Obs.FirstHeadDay | common/gnss_third_party/rtcm3.c:174-176 | the same for GLONASS and half a day |
| Rtcm3Obs.Rtcm3.DecodeMsmHead | common/gnss_third_party/rtcm3.c:2185-2286 | accepted if and only if the header and its cell mask fit and the station is expected; the time and the remembered station follow the header in any case |
| Rtcm3Obs.Rtcm3.DecodeMsm | common/gnss_third_party/rtcm3.c:2299-2629 | accepted if and only if the buffer carries a message within its length from an expected station; then exactly that message is stored and the epoch flag set |
| Rtcm3Obs.DecodesEncoded | common/gnss_third_party/rtcm3.c:2299-2629 | an encoded message is accepted and decodes to itself |
| Calendar.Time2Epoch | common/gnss_third_party/rtkcmn.c:1560-1584 | for every time from 1970 on a proper date whose time it is, before 2100 also under the guard |
| Calendar.DateRoundTrip | common/gnss_third_party/rtkcmn.c:1536-1584 | epoch2time then time2epoch returns every valid date from 1970 to 2099 |
| Calendar.EpochStart | common/gnss_third_party/rtkcmn.c:1536-1553 | 1 January 1970 is time 0, and so is every year outside 1970 to 2099 and every month outside 1 to 12 |
| Calendar.DatesDistinct | common/gnss_third_party/rtkcmn.c:1536-1553 | no two dates have the same time |
| Calendar.DateOrder | common/gnss_third_party/rtkcmn.c:1536-1553 | date order is time order |
| Calendar.BeforeStep | common/gnss_third_party/rtkcmn.c:1561-1565 | the table of month lengths agrees with the table of month starts through the 1461-day cycle |
| Calendar.TimeAddValue | common/gnss_third_party/rtkcmn.c:1687-1703 | timeadd moves the time by the seconds given and normalises it, and timediff takes it back |
| GpsTime.Gpst2Utc | common/gnss_third_party/rtkcmn.c:1790-1801 | the loop applies the first row that its shifted time has reached |
| GpsTime.Utc2Gpst | common/gnss_third_party/rtkcmn.c:1808-1817 | the loop applies the first row that the time has reached |
| GpsTime.OffsetInForce | common/gnss_third_party/rtkcmn.c:1790-1817 | while a row is in force utc2gpst subtracts its offset and gpst2utc adds it; before the oldest row neither moves the time |
| GpsTime.UtcRoundTrip | common/gnss_third_party/rtkcmn.c:1790-1817 | gpst2utc(utc2gpst(t)) = t for all t, for any table whose offsets fall |
| GpsTime.GpstRoundTripIff | common/gnss_third_party/rtkcmn.c:1790-1817 | utc2gpst(gpst2utc(g)) = g if and only if g is outside every inserted second |
| GpsTime.GpstInsideLeap | common/gnss_third_party/rtkcmn.c:1790-1817 | inside an inserted second the result is ahead by the change of the offset |
| GpsTime.SourceTable | common/gnss_third_party/rtkcmn.c:176-196 | the source's table meets the conditions of the round trips |
| GpsTime.SourceLeapSecond | common/gnss_third_party/rtkcmn.c:176-196 | GPST 1483228817 is inside the newest leap second of that table and comes back a second later |
| GpsTime.WeekRoundTrip | common/gnss_third_party/rtkcmn.c:1591-1616 | gpst2time and time2gpst are mutually inverse from the GPS epoch on |
| GpsTime.Gpst2TimeValue | common/gnss_third_party/rtkcmn.c:1591-1599 | gpst2time adds weeks and seconds to the GPS epoch, the fraction keeping the sign of the seconds |
| GpsTime.Gpst2TimeDropped | common/gnss_third_party/rtkcmn.c:1591-1599 | seconds beyond 1e9 either way are dropped |
| GpsTime.Time2GpstValue | common/gnss_third_party/rtkcmn.c:1607-1616 | at any time week and time of week add up to the time since the GPS epoch, the time of week having the sign of the whole seconds and less than a week |
| GpsTime.WeekTracked | common/gnss_third_party/rtcm3.c:143-158 | a true time less than half a week away is recovered from its time of week |
| GpsTime.WeekNearest | common/gnss_third_party/rtcm3.c:143-158 | whatever the true time, the time chosen is the nearest with that time of week, and of two equally near the one in the same week |
| GpsTime.RunTracked | common/gnss_third_party/rtcm3.c:143-158 | over any run of such messages the time is the true time, across any number of roll-overs |
| GpsTime.FirstTracked | common/gnss_third_party/rtcm3.c:147-150 | the first message is resolved against the reference time |
| GpsTime.FirstRunTracked | common/gnss_third_party/rtcm3.c:143-158 | a run of messages that starts without a time tracks the true time from the reference time on |
| GpsTime.DayTracked | common/gnss_third_party/rtcm3.c:169-188 | the same for the GLONASS time of day, through UTC and the leap seconds |
| GpsTime.DayNearest | common/gnss_third_party/rtcm3.c:169-188 | whatever the true time, the time chosen is the nearest with that time of day, and of two equally near the one on the same day |
| GpsTime.FirstDay | common/gnss_third_party/rtcm3.c:174-176 | the first GLONASS message, when there is no time yet, is resolved by the reference time |
| GpsTime.DayRunTracked | common/gnss_third_party/rtcm3.c:169-188 | over any run of such messages the time stands for the true GLONASS time, across days and leap seconds |
| GpsTime.FirstDayRun | common/gnss_third_party/rtcm3.c:169-188 | a run of GLONASS messages that starts without a time tracks the true time from the reference time on |
| LuDecomposition.Ludcmp | common/gnss_third_party/rtkcmn.c:1183-1246 | 0 with unit-lower times upper factors equal to the permuted matrix and the sign of the permutation, every pivot being the largest of its column relative to the largest entry of its row in the given matrix, of several the last; -1 if and only if the matrix is singular |
| LuDecomposition.RowScales | common/gnss_third_party/rtkcmn.c:1188-1201 | each scale times the largest entry of its row is 1, or a row is zero |
| LuDecomposition.RowMaxIs | common/gnss_third_party/rtkcmn.c:1188-1194 | the largest entry bounds all entries of the row and is one of them |
| LinearSolve.Lubksb | common/gnss_third_party/rtkcmn.c:1247-1272 | the right-hand side is replaced by the solution, nothing else in the array changes |
| LinearSolve.Matinv | common/gnss_third_party/rtkcmn.c:1273-1295 | the array becomes the two-sided inverse; -1 exactly when singular, and then the array is unchanged |
| LeastSquares.Matmul | common/gnss_third_party/rtkcmn.c:1144-1181 | C = alpha A B + beta C for the four ways of transposing, entry by entry |
| LeastSquares.Solve | common/gnss_third_party/rtkcmn.c:1297-1308 | X is the solution with the matrix or its transpose; -1 exactly when singular |
| LeastSquares.Lsq | common/gnss_third_party/rtkcmn.c:1323-1339 | x is the one minimiser of the squared residual and Q the inverse of the normal matrix; -1 exactly when the columns of the design are dependent |
| LeastSquares.NormalMinimises | common/gnss_third_party/rtkcmn.c:1323-1339 | a solution of the normal equations is the only minimiser |
| HatchFilter.Csmooth | common/gnss_third_party/rtkcmn.c:4405-4441 | only pseudoranges change, each to the value of its own channel's filter, which Emitted gives in closed form |
| HatchFilter.Emitted | common/gnss_third_party/rtkcmn.c:4418-4438 | what is left in a record: its code if satellite or receiver is out of range or code or carrier is missing; 0 while fewer than ns values follow the last noticed slip; and then the carrier plus the weighted sum of those raw values, the k-th newest with weight 1/ns (1 - 1/ns)^k, the oldest with (1 - 1/ns)^(n-1) |
| HatchFilter.FilterWeighs | common/gnss_third_party/rtkcmn.c:4425-4432 | in every state the filter counts the raw values since the last noticed slip and is that weighted sum |
| HatchFilter.FilterExact | common/gnss_third_party/rtkcmn.c:4418-4438 | n counts the values since the last flagged slip if and only if no slip is missed, and then the smoothed code minus scaled carrier is between the least and greatest of them |
| HatchFilter.CountExact | common/gnss_third_party/rtkcmn.c:4418-4438 | the values since the last noticed slip are those since the last flagged one if and only if no unused record after a used one flags a slip with none noticed since |
| HatchFilter.FilterBounded | common/gnss_third_party/rtkcmn.c:4418-4438 | in any case, the bound holds for the values since the last slip flagged on a used record, which n counts |
| HatchFilter.SmoothedValue | common/gnss_third_party/rtkcmn.c:4431-4436 | if no slip is missed, a nonzero value is emitted only after ns records without a flagged slip, and within their raw values |
| HatchFilter.MissedSlip | common/gnss_third_party/rtkcmn.c:4418-4423 | codes 100, none, 100 with carriers 1, 501, 501 and a slip on the second record: 350 is emitted, outside the one raw value since the slip |
| HatchFilter.ChannelsIndependent | common/gnss_third_party/rtkcmn.c:4414-4438 | channels do not affect each other |
| Routing.RoutingGraph.AddEdge | libOpenDRIVEOri/src/RoutingGraph.cpp:18-23 | the edge is added and both indexes list exactly the stored edges |
| Routing.SuccessorEnds | libOpenDRIVEOri/src/RoutingGraph.cpp:18-23 | the edges determine the index of successors |
| Routing.RoutingGraph.GetLaneSuccessors | libOpenDRIVEOri/src/RoutingGraph.cpp:25-30 | one entry for each edge out of the lane |
| Routing.RoutingGraph.GetLanePredecessors | libOpenDRIVEOri/src/RoutingGraph.cpp:32-37 | one entry for each edge into the lane |
| Routing.RoutingGraph.ShortestPath | libOpenDRIVEOri/src/RoutingGraph.cpp:40-109 | popped labels never decrease and are the least walk weights; the list is empty, the start alone, or one that a run returns: a path of nearest predecessors without repeated lanes; overwritten predecessors would spell a shortest path |
| RouteSearch.PopExact | libOpenDRIVEOri/src/RoutingGraph.cpp:71-87 | the label of the lane popped is its least walk weight, and after an infinite label nothing open is reachable |
| RouteSearch.RelaxKeeps | libOpenDRIVEOri/src/RoutingGraph.cpp:93-103 | looking at a successor, whose label is always defined, keeps the invariant of the search and the labels of expanded lanes |
| RouteSearch.FoundEnds | libOpenDRIVEOri/src/RoutingGraph.cpp:71-108 | for different lanes the list ends in the target if and only if it is reachable, and is a walk of stored edges |
| RouteSearch.FollowsDistinct | libOpenDRIVEOri/src/RoutingGraph.cpp:79-83 | predecessors lead strictly back in the order of expansion, so the loop ends and no lane repeats |
| RouteSearch.LatestShortest | libOpenDRIVEOri/src/RoutingGraph.cpp:96-102 | with line 100 overwriting, every chain of predecessors is a shortest path |
| RouteSearch.FoundShortest | libOpenDRIVEOri/src/RoutingGraph.cpp:96-102 | a list returned is a shortest path if and only if each of its hops accounts for the difference of the least weights |
| SearchRuns.ShortestIffFirstIsBest | libOpenDRIVEOri/src/RoutingGraph.cpp:71-108 | for non-negative weights: every list that some run returns is shortest, for every target, if and only if each lane that can be the first predecessor of another (no lane with an edge to it is nearer, and a least walk leads there past no other) is a best one |
| SearchRuns.ShortestIffNearestIsBest | libOpenDRIVEOri/src/RoutingGraph.cpp:71-108 | for positive weights the condition is that nearest predecessors are best ones |
| SearchRuns.ReturnedShortest | libOpenDRIVEOri/src/RoutingGraph.cpp:71-108 | under the condition, whatever the ties in the heap and the order of the hash sets |
| SearchRuns.ReturnedIsFound | libOpenDRIVEOri/src/RoutingGraph.cpp:71-108 | every list that some run returns is a path of nearest predecessors without repeated lanes |
| SearchRuns.FirstInSomeRun | libOpenDRIVEOri/src/RoutingGraph.cpp:71-108 | every lane that can be the first predecessor is the one in the list of some run |
| SearchRuns.RunKeeps | libOpenDRIVEOri/src/RoutingGraph.cpp:71-104 | in every state of every run the invariant of the search holds, and a predecessor is the first expanded of the lanes with an edge |
| RouteSearch.UniformIsBest | libOpenDRIVEOri/src/RoutingGraph.cpp:96-102 | nearest predecessors are best ones when the weight of an edge depends only on the lane it leads to |
| RouteSearch.DetourReturned | libOpenDRIVEOri/src/RoutingGraph.cpp:100 | on from-a 1, from-b 10, a-b 1 the list is from, b, which is not shortest |

## Left out

- Floating-point rounding throughout: reals are exact; 2^-24 and the other resolutions are taken as the powers of two their comments name.
- Square and cube roots, `log` and the golden ratio: parameters with their defining equations.
- 32-bit overflow of `86400 * 7 * week` from week 3551 on, and casts of `size_t` to `int` in `rdp` above 2^31.
- `CubicSpline`, `Arc`, `Spiral` and `ParamPoly3`.
- Routing.RoutingGraph.ShortestPath: weights are required to be non-negative, and sums never exceed `numeric_limits<double>::max()`; edge weights from `OpenDriveMap` are inputs.
- Routing.PopHeap: the heap of the standard library is modelled as removing some lane of least label; its array order is not.
- Sets and maps of the standard library are sets and maps; the order of iteration is left open.
- LineSimplification.Rdp: requires epsilon to be non-negative (below 0 the source recurses without end) and indices plus one step within `size_t`.
- GoldenSection.GoldenSectionSearch: the number of steps is a parameter that is required to be the least sufficient one, as the ceiling of the logarithm gives.
- HatchFilter.Csmooth: requires a window of at least 1; 0 divides by zero in the source.
- Rtcm3Obs.Rtcm3.DecodeMsm: satellite numbers, signal codes, priorities and wave lengths are functions given from outside, required only to be consistent; the trace and message texts are not modelled.
- Rtcm3Obs.StoreCell: the entries of a record are one list of structures, where the source has one array for each quantity; Doppler is not rounded to single precision.
- Msm.Encode: the source has no encoder for these messages; this one uses its setbitu and setbits on the decoders' layout.
- `decode_rtcm3`'s dispatch, messages 1001 to 1012, ephemeris and state-space-representation decoders, `adjcp`, station descriptions: long fixed tables of fields.
- Framing.Rtcm.Input: the call of `decode_rtcm3` is represented by the payload it would find; options and statistics are left out.
- Framing.GenRtcm3: the body written by `encode_rtcm3` is given in the buffer; `rtcm.c` has the function switched off by `#if 0`.
- `timeget`, the CPU clock and the reading of leap-second files: the reference time and the table are parameters.
- BeiDou and Galileo time (`bdt2time`, `gst2time`): the same formulas with other epochs.
- The LAPACK variants of the matrix functions, memory allocation and its failure.
- Trigonometric models, JNI, I/O and user interfaces.
