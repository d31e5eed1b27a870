# uwb-core in Dafny

A verification project beside uwb-core, the ultra-wideband ranging core. It models six parts
of the firmware and proves what they are for:

- **Double-sided two-way ranging** (`RngMath`, `TwrDs`, `TwrDsRuns`, `TwrDsAccuracy`,
  `TwrDsProgress`): the ring of ranging frames and its callbacks on two devices with their own
  clocks, and the arithmetic from timestamps to a time of flight. The channel loses frames and may
  have any number of them under way; devices time out and ask again whenever they are free. Main
  results: exactly when a completed exchange has its timestamps in the right cells, over every run;
  that this is so whenever requests wait until no frame is under way; that the computed time of
  flight is then within one tick of the true one whatever the reply delays; and that exchanges can
  complete, rightly and, after a restart, wrongly.
- **SoftFloat kernels** (`Bits`, `Float128`, `F128RoundToInt`, `Float32`, `F32RoundPack`,
  `F32Arith`, `F32Recip`, `F32RecipLast`, `F32DivRecip`, `FloatCompare`): rounding a 128-bit number to
  an integral value word by word, 32-bit multiplication and division rounded correctly in every mode
  with the right exceptions, in both forms of the division, and the comparisons.
- **JSON** (`CText`, `JsonEncode`, `JsonStream`, `JsonDecode`, `JsonReader`, `JsonRoundTrip`,
  `JsonLoose`, `JsonFaults`, `CcpJson`): when the encoder's commas are right, that the decoder ends on
  every text, that it undoes the encoder whatever the white space, what it refuses and with which
  code, and when a calibration packet's record survives.
- **Clock calibration packets** (`CcpRelay`, `CcpMaster`): which frames a node believes and
  repeats, what a receiver recovers behind any chain of relays, and the grid and the epoch of the
  master's transmissions.
- **PAN master** (`PanAllocator`, `PanLog`, `PanFile`): slots and addresses under leases over
  every run, compressing and sorting the node log, and the node file.
- **N-way ranging** (`Slots`, `Nrng`): rank by bit tricks, the reply schedule, and the mask and
  vector that a round returns.

`dafny verify dfyconfig.toml` checks everything. Code that updates state is a class or a method
with loops, proved against functions on values; the lemmas are about those functions. `Common`
holds the word sizes.

## What the proofs found

Where the code does not do what it is for, the condition under which it does is proved as an
if-and-only-if.

- A reply carries nothing that ties it to one request. An initiator that times out and asks again
  while the first reply is under way takes it for the second reply
  (`TwrDsProgress.RestartGetsTangled`). A completed exchange is right when every message answers its
  receiver's last transmission and nothing was accepted in between; it is right otherwise only where
  two events bear the same stamp (`TwrDsRuns.CompletedExchangeIff`).
- `f128M_roundToInt` clears the low words of its output before it has read the input, so with
  input and output in the same place small numbers can round wrongly
  (`F128RoundToInt.RoundToInt` states for which).
- The array loop of the JSON encoder does not clear the comma flag between elements
  (`JsonEncode.CommasIff`), and starting an array inside an array writes no comma; the two faults
  never make up for each other (`JsonStream.StreamCommasIff`).
- Reading a calibration record stores 64 bits into `uid`, which clears the low half of `ccp[0]`
  (`CcpJson.CcpRoundTripIff`); records with more than 97 digits do not fit the line buffer
  (`CcpJson.WriteRecord`).
- A relay whose 40-bit counter wraps before it sends declares a delay that is 2^40 ticks short
  (`CcpRelay.OneRelayRecoversIff`), and from the second relay on local epochs move back by the
  delays already declared (`CcpRelay.LaterRelayLocal`). With flight-time compensation the first relay
  already moves it, by one preamble (`CcpRelay.CompensatedRelayLocal`). A master with identifier 0 is
  believed at its first frame, since that is the identifier a node starts with
  (`CcpRelay.OneMasterBelieved`).
- The master announces its period, but its transmissions are further apart by the antenna delay
  rounded down to 512 ticks (`CcpMaster.SpacingIsAnnouncedIff`). It reads its period back from a
  40-bit field after each success, so a period of 2^24 or more, 0x1000000 for one, shrinks to its low
  24 bits; and where its 16-bit index wraps in a ring whose size does not divide 65536 it plans from
  the wrong frame (`CcpMaster.AlwaysStepsByPeriodIff` for two attempts, `CcpMaster.PlannedOnGridIff`
  for runs). Its epoch falls behind the frames it plans by that same delay with every start error
  (`CcpMaster.EpochIsStartIff`).
- Lease ends are compared as signed 32-bit milliseconds. A lease that is to last past an uptime of
  2^31 ms, or of any 2^32 ms more, counts as expired too early (`PanAllocator.LeaseHonouredIff`).
- The JSON decoder takes the end of the text for the end of the object: one without its closing
  brace, or with a comma at the end, is read with success (`JsonFaults.EndsEarly`). A `\u` escape cuts its string
  short (`JsonFaults.UnicodeCuts`), a string as long as its buffer is stored without its terminator
  (`JsonFaults.StringIsCut`), and an object with an empty array in it is refused
  (`JsonFaults.EmptyArray`).
- A role asked for has two bytes on the air, the table keeps one, and the slot search compares both.
  Two new devices that ask with role 0x100 both get slot 0 (`PanAllocator.WideRolesShareSlot`); an
  admission keeps slots apart if and only if the role is below 0x100 (`PanAllocator.AdmitKeepsIff`).
- The slot search looks at the role a device asks for while its table entry keeps the old one
  until a deferred save (`PanAllocator.RoleMustBeFixedIff`). That save writes a copy made earlier:
  it may set a role or a permanence that the entry no longer has (`PanAllocator.SaveKeepsIff`), and
  a request that finds the table full leaves a blank copy for entry 0
  (`PanAllocator.FullTableCollides`).
- Compressing the log keeps the first, not the last, of several records that are only in the
  oldest sector (`PanLog.CompressKeepsLookupIff`). Sorting replays the log into a table that still
  has its old entries, so a table with gaps ends up with a device in two of them
  (`PanLog.GapsDuplicate`).
- The node file saturates identifiers with the top bit set (`PanFile.LineRoundTripIff`).
- From the 257th round on an N-way initiator can take an answer of 256 rounds ago for a reply
  (`Nrng.Round`; not before, by `Nrng.Session`).

## Model

| member | source | states |
|---|---|---|
| `RngMath.WrappedInterval` | lib/rng_math/src/rng_math.c:77-80 | the low 32 bits of two counter readings give back the interval between them, across counter wraps, when it is below 2^32 ticks |
| `RngMath.CalcTofDsUnwraps` | lib/rng_math/src/rng_math.c:68-91 | on the wrapped stamps of intervals below 2^31 the result is the quotient of the unwrapped intervals |
| `RngMath.CalcTofDsExactIff` | lib/rng_math/src/rng_math.c:81-90 | for all stamps, the stored quotient equals the mathematical one if and only if the numerator fits a signed 64-bit integer |
| `RngMath.DsCancelsReplies` | lib/rng_math/src/rng_math.c:68-91 | for clock rates ka and kb the quotient is exactly 2 t ka kb / (ka + kb), independent of both reply delays |
| `RngMath.HarmonicBetween` | lib/rng_math/src/rng_math.c:68-91 | that value lies between t times the smaller and t times the larger rate |
| `RngMath.SymKeepsDelayError` | lib/rng_math/src/rng_math.c:116-131 | intervals of whole ticks: the symmetric formula returns t(ka+kb)/2 plus the error (ka-kb)(d1-d2)/4, rounded down |
| `RngMath.SymMeasured` | lib/rng_math/src/rng_math.c:116-131 | intervals each less than a tick off: the result is, modulo 2^32, less than two ticks below and less than one above that value |
| `RngMath.MeasuredWithinOneTick` | lib/rng_math/src/rng_math.c:68-91 | intervals that are each less than one tick off move the quotient by less than one tick |
| `RngMath.SsDrift` | lib/rng_math/src/rng_math.c:50-65 | single-sided: the estimate is off by half the reply delay times what the skew leaves of the difference of the clock rates, so exact if and only if the delay is zero or nothing is left |
| `TwrDs.AnnouncedIsActual` | lib/uwb_rng/src/uwb_rng.c:407-416 | the transmit stamp announced in a reply is the low half of the time the radio sends it |
| `TwrDs.ReplyGap` | lib/uwb_rng/src/uwb_rng.c:407-416 | between the end of a received frame and the start of the reply the radio is silent for the holdoff and the antenna delay, less at most 511 ticks of the grid, for each of the three frame lengths |
| `TwrDs.NextCellIff` | lib/uwb_rng/src/uwb_rng.c:844-861 | the speculative cell is the confirmed one for every 16-bit index if and only if the ring size divides 65536 |
| `TwrDs.AskEffect` | lib/uwb_rng/src/uwb_rng.c:450-550 | what a request sends, and that it leaves the current cell, the index and the stamps of the next cell alone |
| `TwrDs.LoadedFields` | lib/uwb_rng/src/uwb_rng.c:844-861 | a frame of each length fills the fields it has and no others |
| `TwrDs.RequestEffect` | lib/twr_ds/src/twr_ds.c:208-251 | what the responder holds and sends after a request, field by field |
| `TwrDs.T1Effect` | lib/twr_ds/src/twr_ds.c:252-311 | both cells of the initiator after T1 and the T2 frame it sends |
| `TwrDs.T2Effect` | lib/twr_ds/src/twr_ds.c:312-356 | both cells of the responder after T2 and the final frame it sends |
| `TwrDs.FinalEffect` | lib/twr_ds/src/twr_ds.c:357-366 | the final frame completes the exchange, stores its stamps and frees the instance |
| `TwrDs.IgnoredEffect` | lib/uwb_rng/src/uwb_rng.c:830-870 | a frame that meets no waiting instance, is for another device or has a bad stamp is not answered and completes nothing |
| `TwrDs.BaseEffect` | lib/uwb_rng/src/uwb_rng.c:813-870 | which frames the base layer passes on, what it stores, and when it ends the wait |
| `TwrDs.WrongLength` | lib/twr_ds/src/twr_ds.c:208-211 | a frame whose length does not go with its code is stored but not answered, and the instance waits on |
| `TwrDs.OtherModes` | lib/uwb_rng/src/uwb_rng.c:830-870 | frames of other ranging modes are stored and left to them, those of no ranging mode are not stored |
| `TwrDs.TxEndEffect` | lib/uwb_rng/src/uwb_rng.c:902-926 | the end of a transmission completes an exchange that waits for it, exactly in a waiting instance in a ranging mode |
| `TwrDs.RngInstance.Request` | lib/uwb_rng/src/uwb_rng.c:450-550 | the whole new state and the frame sent, also on a start error |
| `TwrDs.RngInstance.RxBase` | lib/uwb_rng/src/uwb_rng.c:813-870 | the whole new state of the base callback and whether the frame goes on to the ranging mode |
| `TwrDs.RngInstance.RxDs` | lib/twr_ds/src/twr_ds.c:194-372 | the whole double-sided callback, case by case |
| `TwrDs.RngInstance.Rx` | lib/uwb_rng/src/uwb_rng.c:813-870 | base and double-sided callback in sequence |
| `TwrDs.RngInstance.RxTimeout` | lib/uwb_rng/src/uwb_rng.c:729-751 | a timeout frees a waiting instance, is handled for ranging codes, and changes nothing else |
| `TwrDs.TofByCode` | lib/uwb_rng/src/uwb_rng.c:686-717 | single-sided codes give the estimate from the four stamps of one cell, codes of neither kind zero |
| `TwrDsRuns.StepKeepsInv` | lib/twr_ds/src/twr_ds.c:194-372 | every request, delivery, loss, timeout and restart, with any number of frames under way, keeps what is known of each frame on the air and of each device |
| `TwrDsRuns.CompletedExchangeIff` | lib/twr_ds/src/twr_ds.c:207-366 | after every run a device that completes has the eight stamps of its exchange in cells idx-1 and idx if each message answered its receiver's last transmission and nothing was accepted in between; if no other event of the receivers' past bears the same stamp, only then; and exactly if the receivers' stamps and cells matched when they were read |
| `TwrDsRuns.UntangledMatches` | lib/twr_ds/src/twr_ds.c:252-356 | an exchange whose messages found their receivers as those had left them has matching stamps and cells |
| `TwrDsRuns.MatchedIsUntangled` | lib/twr_ds/src/twr_ds.c:252-356 | and only such a one, unless another event of a receiver's past bears the same stamp |
| `TwrDsRuns.OrderlyExchange` | lib/twr_ds/src/twr_ds.c:207-366 | in every run in which devices only accept frames that answer what they did last, every completed exchange is in the right cells |
| `TwrDsRuns.CompletedExchange` | lib/twr_ds/src/twr_ds.c:207-366 | in every run whose requests wait until no frame is under way, whatever is lost and whoever times out: a completing device holds the exchange that just took place, and when the initiator completes both do |
| `TwrDsRuns.CompletedIsFree` | lib/twr_ds/src/twr_ds.c:357-366 | a device whose completion callbacks run is free after the step, with no transmission under way, and may ask anyone at once |
| `TwrDsRuns.CompletedCanAsk` | lib/twr_ds/src/twr_ds.c:357-366 | so it is at every completion of every run |
| `TwrDsRuns.CanGetFree` | lib/uwb_rng/src/uwb_rng.c:729-751 | no device is ever stuck: from every reachable state at most the end of its transmission and a timeout free it |
| `TwrDsAccuracy.TofWithinOneTick` | lib/uwb_rng/src/uwb_rng.c:686-717 | a ring that holds an exchange yields a time of flight within one tick of the true one |
| `TwrDsAccuracy.RangingIsAccurate` | lib/uwb_rng/src/uwb_rng.c:686-717 | end to end over every run: a completed, measurable exchange whose stamps and cells matched, as those of an untangled one do, yields the flight time to within one tick |
| `TwrDsAccuracy.CalmRangingIsAccurate` | lib/uwb_rng/src/uwb_rng.c:686-717 | if requests wait until no frame is under way, every completed, measurable exchange does, on both devices once the initiator completes |
| `TwrDsProgress.ExchangeCanComplete` | lib/twr_ds/src/twr_ds.c:207-366 | from every state in which both devices are free, with running clocks, either can range with the other: a run with one request in which the responder completes and then the initiator, after which both are free again |
| `TwrDsProgress.RestartGetsTangled` | lib/twr_ds/src/twr_ds.c:252-268 | from every idle state: an initiator that times out and asks again while the first reply is under way can end in an exchange that both devices complete and neither holds |
| `Float128.RoundedPatternDenotes` | lib/uwb_softfloat/src/f128M_roundToInt.c:145-213 | rounding the bit pattern as one number denotes the value rounded to integral |
| `F128RoundToInt.RoundInWord` | lib/uwb_softfloat/src/f128M_roundToInt.c:153-205 | the decision made in one word, with the sticky bits below, is the decision for the whole number, in every mode |
| `F128RoundToInt.RoundNear` | lib/uwb_softfloat/src/f128M_roundToInt.c:162-183 | nearest modes in the word of the cut, including ties and the cut at bit 31 |
| `F128RoundToInt.RoundWords` | lib/uwb_softfloat/src/f128M_roundToInt.c:145-213 | for every finite number with a fraction, all modes: the integral value the standard prescribes, and the inexact flag exactly when asked for and the value changed |
| `F128RoundToInt.SmallCorrectIff` | lib/uwb_softfloat/src/f128M_roundToInt.c:92-125 | magnitudes below one: what is stored is right if and only if the test of the low words read the input |
| `F128RoundToInt.RoundSmall` | lib/uwb_softfloat/src/f128M_roundToInt.c:92-125 | magnitudes below one, correct if and only if output and input are apart or the stated patterns are avoided |
| `F128RoundToInt.RoundToInt` | lib/uwb_softfloat/src/f128M_roundToInt.c:60-219 | the whole function for all patterns, modes and aliasing: correct if and only if not the aliasing hazard; NaNs and infinities |
| `F128RoundToInt.QuietKeeps` | lib/uwb_softfloat/src/f128M_roundToInt.c:129-137 | the NaN that comes back is quiet, with the sign and the fraction bits of the one given |
| `Float32.MagIncreases` | lib/uwb_softfloat/include/softfloat/internals.h:99-102 | the denoted magnitude grows strictly with the pattern, through subnormals, binades and infinity |
| `Float32.RoundsUnique` | lib/uwb_softfloat/src/s_roundPackToF32.c:42-112 | the standard's prescription determines one pattern and one set of flags |
| `Float32.CompareStanding` | lib/uwb_softfloat/src/f32_div.c:125-126 | a significand with a sticky bit compares with multiples of 64 exactly as the rational number it stands for |
| `F32RoundPack.NormalRounds` | lib/uwb_softfloat/src/s_roundPackToF32.c:91-108 | normal results: the selected neighbour, with the carry into the exponent |
| `F32RoundPack.SubnormalRounds` | lib/uwb_softfloat/src/s_roundPackToF32.c:68-79 | subnormal results and the underflow flag |
| `F32RoundPack.OverflowRounds` | lib/uwb_softfloat/src/s_roundPackToF32.c:80-86 | overflow to infinity or the largest finite number, by mode and sign |
| `F32RoundPack.RoundPack` | lib/uwb_softfloat/src/s_roundPackToF32.c:42-112 | for every significand that stands for n/d: pattern and flags are those of the exact magnitude, every mode |
| `F32Arith.ProductStands` | lib/uwb_softfloat/src/f32_mul.c:103-110 | the shifted and jammed product lies in [2^29, 2^31) and stands for the exact product, doubled or not |
| `F32Arith.MulFinite` | lib/uwb_softfloat/src/f32_mul.c:103-111 | finite nonzero operands: the exact product correctly rounded, with the right flags, every mode |
| `F32Arith.QuotientStands` | lib/uwb_softfloat/src/f32_div.c:125-126 | the quotient with its conditional sticky bit stands for the exact quotient |
| `F32Arith.DivFinite` | lib/uwb_softfloat/src/f32_div.c:115-126 | finite nonzero operands: the exact quotient correctly rounded, with the right flags, every mode |
| `F32Arith.Mul` | lib/uwb_softfloat/src/f32_mul.c:43-135 | all operands: which NaN comes back, infinities, zeros, and correct rounding otherwise |
| `F32Arith.Div` | lib/uwb_softfloat/src/f32_div.c:43-178 | all operands: which NaN comes back, invalid, division by zero, infinities, zeros, and correct rounding otherwise |
| `F32Arith.PropagatedIs` | lib/uwb_softfloat/src/s_propagateNaNF32UI.c:49-62 | a signaling operand, the first before the second, comes back with its quiet bit set and raises invalid; else the first NaN comes back unchanged |
| `F32Recip.GuessInPiece` | lib/uwb_softfloat/src/s_approxRecip_1Ks.c:41-48 | each line of the table, truncated, lies below the reciprocal over its whole piece, by less than one part in 2^10 |
| `F32Recip.NewtonSteps` | lib/uwb_softfloat/src/s_approxRecip32_1.c:58-62 | the Newton step and its square, with all three truncations, stay below the reciprocal, by two units and a little |
| `F32Recip.ApproxBounds` | lib/uwb_softfloat/src/s_approxRecip32_1.c:45-64 | for every divisor significand the approximation r of 2^63/b has 2^63 - 2b - 0x1020000 <= r b < 2^63 |
| `F32RecipLast.CloseUnlessTight` | lib/uwb_softfloat/src/s_approxRecip32_1.c:58-62 | for the last 33023 divisors: within 2^33, unless the first division cuts off nearly a whole unit |
| `F32RecipLast.TightIsRare` | lib/uwb_softfloat/src/s_approxRecip32_1.c:52-60 | over all first guesses, that happens for 25 divisors only |
| `F32RecipLast.LastAreClose` | lib/uwb_softfloat/src/s_approxRecip32_1.c:45-64 | and for none of them does the second division cut off as much: all are within 2^33 |
| `F32DivRecip.ApproxIsClose` | lib/uwb_softfloat/src/f32_div.c:135-136 | so the approximation is close enough for every dividend and divisor |
| `F32DivRecip.GuessBounds` | lib/uwb_softfloat/src/f32_div.c:128-138 | then the guess is above the exact quotient minus one and below it plus two |
| `F32DivRecip.Significand` | lib/uwb_softfloat/src/f32_div.c:128-151 | the corrected guess stands for the exact quotient and lies in [2^30, 2^31) |
| `F32DivRecip.DivFiniteByReciprocal` | lib/uwb_softfloat/src/f32_div.c:127-153 | the branch without fast division is correctly rounded with every close reciprocal, every mode |
| `F32DivRecip.DivFiniteApprox` | lib/uwb_softfloat/src/f32_div.c:127-153 | with the approximation that it calls: correctly rounded for all finite nonzero operands, every mode |
| `FloatCompare.Compare32` | lib/uwb_softfloat/src/f32_lt.c:54-62 | on numbers, less, less-or-equal and equal decide the order of the denoted values and raise nothing |
| `FloatCompare.Trichotomy32` | lib/uwb_softfloat/src/f32_le.c:54-62 | exactly one of less, equal, greater; less-or-equal is the union |
| `FloatCompare.Unordered32` | lib/uwb_softfloat/src/f32_eq.c:54-62 | a NaN on either side compares with nothing; less and less-or-equal always raise invalid, equality only for a signaling NaN |
| `FloatCompare.Lt128` | lib/uwb_softfloat/src/f128M_lt.c:60-87 | decides the order of the denoted extended reals; any NaN is false and invalid |
| `FloatCompare.Le128` | lib/uwb_softfloat/src/f128M_le.c:60-87 | the same for less-or-equal |
| `FloatCompare.Eq128` | lib/uwb_softfloat/src/f128M_eq.c:61-94 | equality of the denoted values, opposite zeros included; NaNs are unequal, invalid only if signalling |
| `FloatCompare.MagnitudeUnits` | lib/uwb_softfloat/src/f128M_lt.c:60-87 | the integers that order the 128-bit patterns are the denoted real magnitudes in units of 2^-16494 |
| `CText.ScanPrintedU64` | lib/json/src/json_decode.c:466-468 | `strtoull` with base 0 undoes `%llu`, also before other text |
| `CText.ScanPrintedI64` | lib/json/src/json_decode.c:453-455 | `strtoll` with base 0 undoes `%lld` |
| `CText.ScanForms` | lib/json/src/json_decode.c:453-468 | every form the scanners take with base 0: white space, sign, and a prefix that selects octal or hexadecimal; the number ends where its digits do |
| `CText.ScanLimits` | lib/json/src/json_decode.c:453-468 | for every text: what does not fit saturates, and a minus sign negates modulo 2^64 where the result is unsigned |
| `JsonEncode.CommasIff` | lib/json/src/json_encode.c:59-178 | a value tree is written with exactly one comma between siblings if and only if no array in it has two elements that expose a key |
| `JsonEncode.EncodedOnOneLine` | lib/json/src/json_encode.c:59-178 | whatever strings a tree holds, its text has no tab, line end, form feed or backspace |
| `JsonStream.Encoder.EncodeValue` | lib/json/src/json_encode.c:59-178 | text written and comma flag left, for every value |
| `JsonStream.RunDoc` | lib/json/src/json_encode.c:45-283 | every well-nested call sequence writes the text of its document from any state |
| `JsonStream.StreamCommasIff` | lib/json/src/json_encode.c:45-283 | for every document, streaming is right if and only if every value in it is written with the right commas and no array is started inside an array after its first element |
| `JsonDecode.StepProgress` | lib/json/src/json_decode.c:221-531 | every step that continues makes progress although some push a character back, so the decoder ends on every text |
| `JsonReader.Decoder.ReadArrayOf` | lib/json/src/json_decode.c:534-717 | the array reader with all its error codes |
| `JsonReader.Decoder.ReadObjectInto` | lib/json/src/json_decode.c:152-532 | the whole reader: return code and stores in order, for every template and text |
| `JsonRoundTrip.RoundTrip` | lib/json/src/json_decode.c:221-531 | decoding the encoder's text of any plain object with a template of distinct names returns 0 and stores exactly the entries' values, in order, after the defaults |
| `JsonRoundTrip.ValuesComeBack` | lib/json/src/json_decode.c:179-218 | with distinct keys in any order, every entry's target holds its value and every other target its default |
| `JsonLoose.LooseRead` | lib/json/src/json_decode.c:221-531 | with any white space around the object, keys, colons, values and array elements, and any text behind: returns 0, with every value stored in order, once for each character of white space that the reader meets while it still is at the value |
| `JsonLoose.LooseValues` | lib/json/src/json_decode.c:221-531 | so every target holds what it would hold after the encoder's own text |
| `JsonFaults.Refused` | lib/json/src/json_decode.c:221-531 | after any good entries, each of twelve faults ends the reading with its own code, the stores before it kept: no key, unknown key, key too long, array for another type, no array, string and token too long, number in quotes, string without, array too long, bad element, bad separator |
| `JsonFaults.BadTrail` | lib/json/src/json_decode.c:516-526 | something else than a comma or a brace after a value is refused, the value being stored |
| `JsonFaults.EmptyArray` | lib/json/src/json_decode.c:566-572 | an empty array is stored and then refused as bad trailing text, since its bracket is still unread |
| `JsonFaults.NoObject` | lib/json/src/json_decode.c:223-231 | something else than a brace at the beginning is refused |
| `JsonFaults.EndsEarly` | lib/json/src/json_decode.c:232-243 | a text that ends where a key may stand is success, without a closing brace and also after a comma |
| `JsonFaults.UnicodeCuts` | lib/json/src/json_decode.c:345-360 | the escape of a code point ends the string before it, and its last digit and what follows are read as part of the string |
| `JsonFaults.StringIsCut` | lib/json/src/json_decode.c:306-367 | up to `len` characters and then any number of escaped ones are read with success and stored cut to `len`, without a terminator from `len` on |
| `JsonFaults.SeekFinds` | lib/json/src/json_decode.c:386-421 | among neighbouring attributes of one name the first whose type suits the value gets it, or else the last |
| `JsonFaults.DefaultsHold` | lib/json/src/json_decode.c:179-218 | before anything is read every target with a default holds it, and no other is written |
| `CcpJson.WriteUint64` | lib/uwb_ccp/src/ccp_json.c:114-153 | the calls write the text of the record, a zero `uid` and a NaN `ppm` being left out |
| `CcpJson.WriteLine` | lib/uwb_ccp/src/ccp_json.c:55-69 | the buffer and the index after a line, also past the end of the buffer, where characters wrap around |
| `CcpJson.WriteRecord` | lib/uwb_ccp/src/ccp_json.c:114-153 | for every record: the buffer holds the terminated line if and only if the digits of the fields, eight more for each of `uid` and `ppm` that is written, are at most 97 |
| `CcpJson.TextLength` | lib/uwb_ccp/src/ccp_json.c:114-153 | the length of the text in terms of those digits |
| `CcpJson.ShortRecord` | lib/uwb_ccp/syscfg.yml:50-52 | records without `uid` or without `ppm` always fit |
| `CcpJson.LongRecord` | lib/uwb_ccp/syscfg.yml:50-52 | not all others do |
| `CcpJson.ReadUint64` | lib/uwb_ccp/src/ccp_json.c:222-283 | memory after the stores, in the order the text gives |
| `CcpJson.ArrayEffect` | lib/uwb_ccp/src/ccp_json.c:222-283 | an array of up to two numbers is stored from its first element on, with their count; nothing else changes |
| `CcpJson.SeqLowByte` | lib/uwb_ccp/src/ccp_json.c:222-283 | whatever number the text has for `seq`, the field takes its low byte and `uid` its high half |
| `CcpJson.CcpReadBack` | lib/uwb_ccp/src/ccp_json.c:222-283 | every field that comes back, and what the others become |
| `CcpJson.CcpRoundTripIff` | lib/uwb_ccp/src/ccp_json.c:238-243 | the record survives if and only if `ppm` is a number and `uid` is zero or the low half of `ccp[0]` is |
| `CcpRelay.Node.RxComplete` | lib/uwb_ccp/src/uwb_ccp.c:593-760 | the whole new state, the ring and the relayed frame |
| `CcpRelay.LinkIs` | lib/uwb_ccp/src/uwb_ccp.c:655-667 | what a node knows after any frames: the last frame's master and epoch, and how many frames in a row succeeded one another |
| `CcpRelay.BelievedIff` | lib/uwb_ccp/src/uwb_ccp.c:655-664 | after any frames a master is believed if and only if the last frame is of the same master as the one before and not stamped before its epoch |
| `CcpRelay.OneMasterBelieved` | lib/uwb_ccp/src/uwb_ccp.c:655-664 | hearing one master in order: from the second frame on and not before, but for a master with identifier 0, which is believed at once |
| `CcpRelay.StartsOver` | lib/uwb_ccp/src/uwb_ccp.c:655-660 | a frame of another master, or one stamped before the epoch, ends the belief |
| `CcpRelay.RisingStampsInOrder` | lib/uwb_ccp/src/uwb_ccp.c:655-667 | stamps that do not decrease are in order |
| `CcpRelay.RepeatsIff` | lib/uwb_ccp/src/uwb_ccp.c:706-732 | a relay repeats a frame if and only if it succeeds the one before it and has repetitions left; a slave repeats none |
| `CcpRelay.RelayKeeps` | lib/uwb_ccp/src/uwb_ccp.c:706-732 | the frame repeated keeps master, sequence number, maximum and preamble, has the relay's address, and its delay counts from the marker of a direct frame |
| `CcpRelay.RelaysStartApart` | lib/uwb_ccp/src/uwb_ccp.c:714-720 | relays that hear the same frame start at least a frame apart if their slots differ modulo 4, but for the grid |
| `CcpRelay.PathConserves` | lib/uwb_ccp/src/uwb_ccp.c:706-732 | along any chain and whatever the skews: stamp plus interval is conserved, and the repeat count is the number of hops and at most its maximum |
| `CcpRelay.RecoversIff` | lib/uwb_ccp/src/uwb_ccp.c:688-704 | any chain, any skews: the direct receiver's epoch is recovered if and only if the interval is a multiple of 2^32 and the declared delays sum to (0, 2^32]; then the period is too |
| `CcpRelay.DeclaredDelay` | lib/uwb_ccp/src/uwb_ccp.c:692-694 | the delay read off the interval is the sum of the hops |
| `CcpRelay.OneRelayRecoversIff` | lib/uwb_ccp/src/uwb_ccp.c:714-732 | one relay: recovered if and only if the counter does not wrap between reception and start |
| `CcpRelay.FirstRelayLocal` | lib/uwb_ccp/src/uwb_ccp.c:695-698 | behind one relay the local epoch is that of a direct receiver |
| `CcpRelay.LaterRelayLocal` | lib/uwb_ccp/src/uwb_ccp.c:695-728 | every further relay moves the local epoch back by the delays declared so far and the preamble time |
| `CcpRelay.CompensatedRelayLocal` | lib/uwb_ccp/src/uwb_ccp.c:680-732 | with flight-time compensation the local epoch of a direct receiver is that of the sender's clock, and behind one relay it is one preamble early |
| `CcpMaster.Master.Send` | lib/uwb_ccp/src/uwb_ccp.c:934-1004 | the frame planned and the whole new state, for success and start error |
| `CcpMaster.AttemptEffect` | lib/uwb_ccp/src/uwb_ccp.c:934-960 | the master's own fields and the next sequence number, which a start error uses up too |
| `CcpMaster.AlwaysStepsByPeriodIff` | lib/uwb_ccp/src/uwb_ccp.c:799 | two attempts plan times that differ by the period plus the antenna delay rounded down to 512, in every state with a given index, ring size and period and whatever the outcome, if and only if the index is not 0xffff or the ring size divides 65536, and the period is below 2^24 |
| `CcpMaster.AttemptStep` | lib/uwb_ccp/src/uwb_ccp.c:949-955 | with a regular index they differ by that spacing for the period the first attempt leaves: after a success its low 24 bits |
| `CcpMaster.PlannedInRun` | lib/uwb_ccp/src/uwb_ccp.c:943-978 | over every run, until the index wraps in a ring whose size does not divide 65536, the k-th planned time is the first plus the spacing of the period for each start error before the first success and that of its low 24 bits for each attempt from then on |
| `CcpMaster.PlannedOnGridIff` | lib/uwb_ccp/src/uwb_ccp.c:943-978 | so the first 65536 attempts are on the grid of the period if and only if it is below 2^24 or none succeeds |
| `CcpMaster.PlannedOnGrid` | lib/uwb_ccp/src/uwb_ccp.c:943-978 | below 2^24 attempts of any number are |
| `CcpMaster.EpochInRun` | lib/uwb_ccp/src/uwb_ccp.c:998-1004 | over every run: after start errors that follow a success the epoch is the last planned marker time less the time from start to marker, and less the antenna delay rounded down to 512 for every one of them |
| `CcpMaster.EpochIsStartIff` | lib/uwb_ccp/src/uwb_ccp.c:998-1004 | so it is the start of the frame last planned if and only if that was a success or the antenna delay is below 512 |
| `CcpMaster.SpacingIsAnnouncedIff` | lib/uwb_ccp/src/uwb_ccp.c:952-960 | the announced interval is the real spacing of two attempts if and only if the antenna delay is below 512 ticks and, after a start error, the period below 2^24 |
| `CcpMaster.SentCanBeRelayed` | lib/uwb_ccp/src/uwb_ccp.c:945-960 | what is sent can start a chain; it announces the low 24 bits of the period, and is on the grid if and only if the period is a multiple of 65536 |
| `PanAllocator.FirstFreeSlot` | lib/panmaster/src/panmaster.c:296-324 | the nested loops find the least slot nobody blocks |
| `PanAllocator.LeastFree` | lib/panmaster/src/panmaster.c:296-324 | not blocked, and every smaller slot is |
| `PanAllocator.SlotWithinRivals` | lib/panmaster/src/panmaster.c:296-324 | by pigeonhole the slot is at most the number of rivals, and never 0xffff in a smaller table |
| `PanAllocator.FirstFreeAddr` | lib/panmaster/src/panmaster.c:243-269 | the first candidate address that is nonzero and unused |
| `PanAllocator.FreeAddr` | lib/panmaster/src/panmaster.c:243-269 | a nonzero result is a candidate that nobody has; 0 means every candidate is taken or zero |
| `PanAllocator.AddressesRunOut` | lib/panmaster/src/panmaster.c:243-269 | no address is found only if as many addresses with the same low 12 bits are in use as the table has entries, up to fifteen |
| `PanAllocator.PanMaster.PanRequest` | lib/panmaster/src/panmaster.c:139-168 | table and save queue after a request, what is granted, and refusal when the queue is full |
| `PanAllocator.LeaseHonouredIff` | lib/panmaster/src/panmaster.c:284-293 | for all times: a lease that is not permanent is honoured from the request to its end if and only if the signed 32-bit millisecond counter does not wrap in between, or the end reads as none or is the last instant before a wrap; and it is over after its end |
| `PanAllocator.LeaseRuns` | lib/panmaster/src/panmaster.c:162 | a device that was served is live for as many seconds as it asked for and then no longer, for times below 2^31 ms |
| `PanAllocator.LeaseKeepsSlot` | lib/panmaster/src/panmaster.c:296-324 | so in every later table with its entry no other device of its role gets its slot during the lease, and afterwards the entry does not keep it |
| `PanAllocator.QueuedRole` | lib/panmaster/src/panmaster.c:355-390 | the record queued with a request: place, four bits of the role, permanence, for known and new devices |
| `PanAllocator.HasPlaceIff` | lib/panmaster/src/panmaster.c:347-362 | a request finds a place if and only if an entry is free or the device's own |
| `PanAllocator.PanMaster.Postprocess` | lib/panmaster/src/panmaster.c:170-195 | table and queue after the deferred saves |
| `PanAllocator.PostprocessEffect` | lib/panmaster/src/panmaster.c:170-195 | no place of the queue is taken afterwards, and every entry has the role and the permanence of the last queued record for it that differed from flash; nothing else has changed |
| `PanAllocator.StepKeeps` | lib/panmaster/src/panmaster.c:347-419 | every request, deletion and deferred save keeps slots and addresses apart, if a known device keeps its role, an unknown one has a role of one byte and the save is harmless |
| `PanAllocator.AdmitKeepsIff` | lib/panmaster/src/panmaster.c:392-419 | admitting an unknown device keeps slots apart in every table if and only if its role is below 0x100 |
| `PanAllocator.WideRolesShareSlot` | lib/panmaster/src/panmaster.c:392-419 | with any other role two new devices both get slot 0 |
| `PanAllocator.RunKeepsApart` | lib/panmaster/src/panmaster.c:347-419 | at every point of every run of such steps: live devices of one role with different addresses never share a slot, nonzero addresses stay distinct |
| `PanAllocator.SaveKeepsIff` | lib/panmaster/src/panmaster.c:600-611 | a deferred save keeps slots apart in every table if and only if it is harmless: the entry ends up without a claim to its slot, or had the same claim before |
| `PanAllocator.CarefulRunIsSteady` | lib/panmaster/src/panmaster.c:170-195 | every deferred save is harmless in runs where roles have four bits and do not change, unknown devices find a free entry, and deletions wait for the queue |
| `PanAllocator.PanMaster.DeleteAt` | lib/panmaster/src/panmaster.c:587-593 | the entry is cleared, with the role and the permanence of its record in flash |
| `PanAllocator.DeletedIsGone` | lib/panmaster/src/panmaster.c:571-593 | a deleted device is unknown, blocks no slot and leaves its entry to anyone; no other entry changes |
| `PanAllocator.FullTableCollides` | lib/panmaster/src/panmaster.c:355-362 | an unknown device that finds the table full leaves a blank record whose save resets the role of entry 0, which then shares a slot |
| `PanAllocator.RoleMustBeFixedIff` | lib/panmaster/src/panmaster.c:379-388 | until its record is saved, a renewal keeps slots apart in every table if and only if the role asked for is the one held |
| `PanAllocator.RenewAndSaveKeeps` | lib/panmaster/src/panmaster.c:371-390 | a change of role keeps slots apart if the record is saved before anything else happens |
| `PanLog.Fcb.Compress` | lib/panmaster/src/panmaster_fcb.c:153-222 | the sectors afterwards |
| `PanLog.OldestGo` | lib/panmaster/src/panmaster_fcb.c:153-222 | after n compressions the oldest n sectors are gone and the others have moved up, each unchanged |
| `PanLog.CompressKeepsDevices` | lib/panmaster/src/panmaster_fcb.c:167-217 | a device is in the log after if and only if it was before |
| `PanLog.CompressKeepsLookupIff` | lib/panmaster/src/panmaster_fcb.c:167-217 | lookup is unchanged if and only if the device has a record outside the oldest sector or its first record there is its last |
| `PanLog.SingleRecordKept` | lib/panmaster/src/panmaster_fcb.c:167-217 | in particular with a single record in the oldest sector |
| `PanLog.Fcb.Save` | lib/panmaster/src/panmaster_fcb.c:225-256 | the log after a save that had to compress any number of times, and giving up after ten |
| `PanLog.SaveKeepsDevices` | lib/panmaster/src/panmaster_fcb.c:225-247 | however often a save compresses, no device is lost and the new record is found |
| `PanLog.WriteSorted` | lib/panmaster/src/panmaster_fcb.c:297-318 | ascending addresses, indices from 0 without gaps, and exactly the live records, each once |
| `PanLog.LoadedIsLast` | lib/panmaster/src/panmaster_fcb.c:265-273 | what loading leaves at an index is the last record with it, or the blank one if there is none |
| `PanLog.LoadedBag` | lib/panmaster/src/panmaster_fcb.c:265-318 | so the live records in memory are the last ones of their indices with an address in use, each once |
| `PanLog.TableComesBack` | lib/panmaster/src/panmaster_fcb.c:108-123 | a table whose entries were saved and replayed into a blank one comes back |
| `PanLog.SortMaster` | lib/panmaster/src/panmaster.c:642-651 | log and live table after sorting: the last record of every index of the table, deletions left out, each once and in order of addresses, replayed into the table as it was |
| `PanLog.ReplaySorted` | lib/panmaster/src/panmaster_fcb.c:108-123 | replaying a sorted log restores exactly its records, in order, and touches no other entry |
| `PanLog.SortKeepsAddrsIff` | lib/panmaster/src/panmaster.c:642-651 | addresses stay distinct if and only if no entry past the sorted records has an address that is in the log |
| `PanLog.GapsDuplicate` | lib/panmaster/src/panmaster.c:642-651 | so, when the log has all addresses of the table, if and only if every entry past the number of records is out of use |
| `PanFile.LineRoundTripIff` | lib/panmaster/src/panmaster_file.c:31-116 | a record survives its line if and only if its 64-bit fields and build number are within the signed limits |
| `PanFile.LineFits` | lib/panmaster/src/panmaster_file.c:70-116 | such a line fits the row buffer |
| `PanFile.HexForms` | lib/panmaster/src/panmaster_file.c:31-68 | every form that the line parser's scanner takes: white space, sign, an optional 0x; what does not fit saturates |
| `PanFile.LongLineSplits` | lib/panmaster/src/panmaster_file.c:119-150 | a line longer than the row buffer is read in two, and the character between them is lost |
| `PanFile.NodeFile.SaveNode` | lib/panmaster/src/panmaster_file.c:239-270 | the file afterwards, and refusal of long lines |
| `PanFile.NodeFile.LoadNodes` | lib/panmaster/src/panmaster_file.c:153-188 | the records handed to the callback, for every content, NULs included, none of whose lines has more than the twelve tokens there is room for |
| `PanFile.FileRoundTrip` | lib/panmaster/src/panmaster_file.c:153-188 | loading a file of saved records calls back with exactly those records |
| `PanFile.SaveThenLoad` | lib/panmaster/src/panmaster_file.c:239-270 | the same through the operations, from an empty file |
| `Slots.NumberOfBits` | lib/uwb_rng/src/slots.c:42-50 | the loop computes the population count |
| `Slots.PopCountIsCount` | lib/uwb_rng/src/slots.c:42-50 | which is the number of set positions |
| `Slots.BitIndex` | lib/uwb_rng/src/slots.c:80-95 | the number of set bits below the given one |
| `Slots.RankIsCount` | lib/uwb_rng/src/slots.c:80-95 | the rank counts the set positions below |
| `Slots.RankBijection` | lib/uwb_rng/src/slots.c:80-95 | the rank is an increasing bijection from the set bits onto the numbers below the count |
| `Nrng.RepliesApart` | lib/twr_ss_nrng/src/twr_ss_nrng.c:280-284 | replies of distinct responders are at least one guard and one frame apart |
| `Nrng.RepliesInTime` | lib/twr_ss_nrng/src/twr_ss_nrng.c:280-284 | no reply starts before the holdoff is over, the first responder's starts right then, and every reply ends within the time that the initiator waits |
| `Nrng.CellAfterReplies` | lib/twr_ss_nrng/src/twr_ss_nrng.c:319-351 | after any replies a cell holds the last accepted reply of its rank |
| `Nrng.Initiator.GetRanges` | lib/nrng/src/nrng.c:192-219 | mask and vector, entry by entry, for every ring |
| `Nrng.RoundResult` | lib/twr_ss_nrng/src/twr_ss_nrng.c:326-351 | after any frames, stray sequence numbers included, a slot's cell is answered if and only if the slot replied in this round or the cell was stale, and holds the slot's last reply |
| `Nrng.Round` | lib/nrng/src/nrng.c:192-219 | a whole round: the mask is exactly the slots that replied or whose cells were stale, and entry j comes from the last reply of the j-th lowest |
| `Nrng.Session` | lib/nrng/src/nrng.c:192-219 | the first 256 rounds of a fresh initiator return exactly the slots that replied |

## Left out

- Character devices, sysfs, command line, CBOR export, radio and SPI drivers: only success or start error and the timestamps they return are modelled.
- Interrupt races on semaphores, timers and queues: every callback is one step.
- binary64 rounding: the final division of `calc_tof_ds` and the single-sided formula are over `real`.
- Wireless clock synchronisation and the carrier integrator in ranging frames: the build without it is modelled for ranging; for calibration packets the skew correction is an arbitrary function.
- The other ranging modes (single-sided, acknowledged, extended) and the older N-way modes.
- TwrDsRuns.CompletedExchangeIff: two devices only, no third sender; a collision is a loss, and a timeout may come at any moment, since receive windows are not modelled.
- TwrDs.Aligned: the ring lemmas and the runs take ring sizes of at least two that divide 65536; the callbacks themselves are proved for every size, and `TwrDs.NextCellIff` shows that other sizes lose the cell where the index wraps.
- TwrDsAccuracy.RangingIsAccurate: takes intervals of at least one tick and below 2^31 ticks, as the 32-bit differences do.
- JSON reals, `null`, enumerations, characters, nested objects in the decoder, arrays of strings and objects: the template type has none of them.
- JsonReader.Decoder.ReadObjectInto: stores made before an array reader's error are not among its writes, and writes past the value buffer through escapes cannot happen, as its buffer is unbounded.
- JsonRoundTrip.RoundTrip: without empty arrays, which the reader refuses (`JsonFaults.EmptyArray`).
- CcpJson.WriteLine: past the end of the buffer the source reads a byte behind it; whether that byte is 0 is a parameter.
- CcpJson.WriteRecord: the text goes to the line writer in one piece, where the source writes it piece by piece; only what is in the buffer when a record does not fit depends on that.
- CCP time of day (`os_epoch`), statistics, superframe callbacks and tolerated missed frames.
- CcpRelay.LaterRelayLocal: one common clock and no skew correction; with it the delays are scaled as well.
- PAN master: permanent slots set by command, `panmaster_add_node` and versions; whether a queued record differs from the one in flash is a parameter; flash errors.
- PanAllocator.RunKeepsApart: tables of at most 256 entries, as many as the 8-bit index of a record tells apart; the operations are modelled for any size.
- PanLog.SortMaster: tables of at most 256 entries; what sorting does to slots is not followed further than `PanLog.ReplaySorted`: slots that are not permanent stay with the index.
- PanLog.LoadTable: excludes the index equal to the table size, which the source accepts and writes past the table.
- PanFile.NodeFile.LoadNodes: files with a line of more than twelve tokens, which overflow the source's array, are excluded.
- PanFile: slots are not in the file; `panm_file_compress` is not modelled.
- Slots.BitIndex: mode `SLOT_POSITION` only; the other mode shifts by the word size for the top bit.
- Nrng: cell addressing only, since without it the source never sets the mask it later reads; timeouts between replies.
- F32Arith.Div: uses the fast-division branch; `F32DivRecip` covers the other.
- Tininess after rounding and round-to-odd: the library's defaults are modelled.
- 128-bit arithmetic other than rounding to integral and comparing.
