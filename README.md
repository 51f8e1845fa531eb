# libgpiojtag: the CSVF player, modelled in Dafny

libgpiojtag programs a JTAG chain through four pin callbacks: setTCK, setTMS,
setTDI and getTDO. Its `parse` function resets the TAP controller and then
plays a CSVF byte stream. Each record of the stream is an opcode byte followed
by its operands. XTDOMASK, XRUNTEST and XSDRSIZE load the player's registers.
XSIR and XSDR shift bits into the instruction or data register. XSDRTDO shifts
bits into the data register while reading TDO back, compares what it read
with an expected value under the mask, and retries up to 32 times.
XCOMPLETE ends the stream.

The model has these parts:

- **Pins** (`port.dfy`). A `Port` class records every callback as an `Event`
  in its `trace`. The device under test is a function from the pin history
  to the level on TDO.
- **Bytes** (`bytes.dfy`). `bitsToBytes`, 32-bit big-endian words, and
  packing of bits into bytes, least significant bit first.
- **Tap** (`tap.dfy`). The 16-state TAP controller of IEEE 1149.1, clause 6,
  and the states the fixed TMS patterns of `parse` reach.
- **Kernels** (`kernels.dfy`). `jClockFSM`, `jClocks`, `jShiftInOnly` and
  `jShiftInOut` as loops over a `Port`. Each is proved to append exactly the
  events of a specification function.
- **Compare** (`compare.dfy`). `tdoCompare` and `dumpSimple` over arrays.
- **Csvf** (`csvf.dfy`). What each record does, as functions of the stream,
  the registers and the pin history: `Step`, `Run` and `Play`.
- **Player** (`player.dfy`). `parse` itself, as a loop over the stream with
  the four `BUF_SIZE` buffers as arrays. `Player.Parse` is proved to end
  with exactly the outcome and the pin trace that `Play` gives.
- **TapTrace** (`tap_trace.dfy`). The TAP controller followed over a pin
  trace: the state each rising TCK edge is taken in. It shows that every
  shifting record takes its data edges in Shift-IR or Shift-DR, leaves
  through Exit1 and returns to Run-Test/Idle, and that `parse` always ends
  in Run-Test/Idle.
- **ShiftDefects** and **CsvfDefects** (`shift_defects.dfy`,
  `csvf_defects.dfy`). The code as written, where it differs from the
  corrected model, each with an input that shows the difference.

The opcode values and `BUF_SIZE` are defined in headers that are not part of
this model. They are parameters: an `Opcodes` table of seven distinct codes,
and a buffer size `cap`. Bytes are the integers 0 to 255. `xsdrSize` and
`xruntest` are kept below 2^32.

Where the code reads or writes memory it does not own, the model stops the
run with `Rejected` and a `Hazard` before any pin moves:

- a record that runs past the end of the stream;
- a shift of zero bits;
- an operand longer than a `BUF_SIZE` buffer, whether XTDOMASK copies it
  into `tdoMask`, XSIR into `tdiData`, or the XSDRTDO pair loop into
  `tdiData` and `tdoExpected`.

The model makes four more corrections:

- It starts with a zero-filled mask.
- An XSDRTDO fails only when its last compare failed.
- In `jShiftInOnly`, the last bit of an 8m+1-bit shift is driven from
  bit 8m of the input. The code drives it low.
- In `jShiftInOut`, the last sample of an 8m+1-bit shift is stored in bit 0
  of byte m, and the one sample of a 1-bit shift is stored in `outData[0]`.
  The code stores neither.

So `Player.Parse` differs from the code for shifts of 8m+1 bits, including a
1-bit `xsdrSize`. The Findings section lists the code as written beside each
of these corrections.

## Model

| member | source | states |
|---|---|---|
| Bytes.BitsToBytes | libgpiojtag.c:37 | ceil(x/8): eight times the result covers x, and one byte fewer would not |
| Bytes.BitsToBytesIsLeast | libgpiojtag.c:37 | the result is the least n with 8n >= x |
| Bytes.BitsToBytesBoundaries | libgpiojtag.c:37 | the values at 0, 1, 7, 8, 9, 63 and 64 bits are 0, 1, 1, 1, 2, 8 and 8 |
| Bytes.BigEndian32 | libgpiojtag.c:132-140 | four bytes read most significant first give a value below 2^32 |
| Bytes.Encode32Decodes | libgpiojtag.c:132-140 | decoding the big-endian bytes of a 32-bit value gives the value back |
| Bytes.DecodeEncodes32 | libgpiojtag.c:159-167 | re-encoding a decoded word gives the same four bytes |
| Bytes.PackBits | libgpiojtag.c:436-443 | samples packed least significant bit first fill exactly ceil(n/8) bytes |
| Bytes.PackBitsBit | libgpiojtag.c:439 | bit k%8 of packed byte k/8 is sample k, and the unused high bits of a short last byte are 0 |
| Bytes.PackThenShift | libgpiojtag.c:436-443 | shifting out packed samples gives back the samples |
| Bytes.ShiftThenPack | libgpiojtag.c:394-404 | packing the bits shifted out of whole bytes gives back the bytes |
| Bytes.MaskedEqual | libgpiojtag.c:253 | two bytes agree under a mask exactly when they agree on every bit the mask sets |
| Tap.FiveOnesReset | libgpiojtag.c:117 | five TMS-high edges reach Test-Logic-Reset from every state |
| Tap.ResetReachesIdle | libgpiojtag.c:117 | the pattern 0x1F over 6 edges reaches Run-Test/Idle from every state |
| Tap.EnterShiftIr | libgpiojtag.c:143 | 0x3 over 4 edges goes from Run-Test/Idle to Shift-IR |
| Tap.EnterShiftDr | libgpiojtag.c:181 | 0x1 over 3 edges goes from Run-Test/Idle to Shift-DR |
| Tap.Exit1ToIdle | libgpiojtag.c:153 | 0x1 over 2 edges goes from Exit1-DR or Exit1-IR to Run-Test/Idle |
| Tap.PauseExitToIdle | libgpiojtag.c:183 | 0x1A over 6 edges goes from Exit1-DR to Run-Test/Idle, passing through Shift-DR after 3 edges |
| Pins.Port.SetTck | libgpiojtag.h:38 | the call appends one TCK event at the given level and changes nothing else |
| Pins.Port.SetTms | libgpiojtag.h:39 | the call appends one TMS event at the given level |
| Pins.Port.SetTdi | libgpiojtag.h:40 | the call appends one TDI event at the given level |
| Pins.Port.GetTdo | libgpiojtag.h:41 | the level read is the device's answer to the history so far, and the read is recorded |
| Kernels.JClockFsm | libgpiojtag.c:474-483 | the method appends the TMS levels of the pattern, least significant bit first, each followed by a TCK pulse |
| Kernels.FsmEventsShape | libgpiojtag.c:478-482 | n levels give 3n events: event 3k sets TMS to bit k, then TCK rises and falls |
| Kernels.JClocks | libgpiojtag.c:485-493 | the method appends n TCK pulses |
| Kernels.ClockEventsShape | libgpiojtag.c:488-492 | n pulses are 2n events, all on TCK, alternately high and low |
| Kernels.InOnly | libgpiojtag.c:394-398 | one `inOnly()`: TDI set, then a TCK pulse |
| Kernels.InOnlyChunk | libgpiojtag.c:406-415 | one pass of the unrolled switch shifts bits 0 to count-1 of the byte |
| Kernels.InOnlyLeading | libgpiojtag.c:400-418 | the chunk loop shifts all bits but the last, in order, and leaves the byte and bit position of the last chunk |
| Kernels.JShiftInOnly | libgpiojtag.c:383-423 | the method appends the shift of the first numBits bits of inData: all bits but the last, TMS high, then the last bit |
| Kernels.InOnlyBodyShape | libgpiojtag.c:394-398 | k bits give 3k events: event 3k drives TDI to bit k, then a pulse; TMS is never touched |
| Kernels.InOnlyEventsShape | libgpiojtag.c:420-422 | a shift of n bits has n TDI-and-pulse groups, and exactly one TMS event, high, just before the last group |
| Kernels.InBitsAt | libgpiojtag.c:404 | the TDI level of pulse 8j+b is bit b of inData[j] |
| Kernels.InOut | libgpiojtag.c:436-443 | one `inOut()`: TDI set, TDO read after TDI and before the pulse, then the pulse |
| Kernels.InOutChunk | libgpiojtag.c:453-462 | one pass of the unrolled switch drives bits 0 to count-1 and packs the samples into the byte |
| Kernels.Store | libgpiojtag.c:465 | `*++outData = outByte` writes the next byte of outData and nothing else |
| Kernels.InOutPass | libgpiojtag.c:448-466 | one chunk extends the trace and the bytes stored so far by one byte of packed samples |
| Kernels.InOutLeading | libgpiojtag.c:445-466 | the chunk loop drives all bits but the last and stores the packed samples of whole chunks |
| Kernels.InOutFinal | libgpiojtag.c:468-471 | TMS high, the last bit, and the last byte stored with the last sample in its place |
| Kernels.JShiftInOut | libgpiojtag.c:425-472 | the method appends the sampled shift, outData holds exactly the ceil(n/8) bytes of packed samples, and the rest of outData is unchanged |
| Kernels.InOutSampleAt | libgpiojtag.c:437-438 | sample i is the device's answer after bit i is on TDI and before its pulse |
| Kernels.ShiftInOutAppends | libgpiojtag.c:425-472 | a sampled shift keeps the earlier trace; its TDI, TMS and TCK events are those of jShiftInOnly, and its TDO reads are the samples |
| ShiftDefects.AsWrittenLeadingBits | libgpiojtag.c:391 | `numBits--` on a 32-bit unsigned count |
| ShiftDefects.LeadingBitsAsIntended | libgpiojtag.c:391 | for every count of 1 or more, the chunk loop shifts one bit fewer than the count |
| ShiftDefects.LeadingBitsUnderflow | libgpiojtag.c:391 | a count of 0 wraps to 2^32-1 bits, which reads 2^29 bytes |
| ShiftDefects.FinalTdiAsIntended | libgpiojtag.c:420-422 | when numBits is 1 or numBits%8 is not 1, the final TDI is the last bit |
| ShiftDefects.FinalTdiLost | libgpiojtag.c:402-422 | when numBits is 8m+1 with m >= 1, the final TDI is always low |
| ShiftDefects.FinalTdiCounterexample | libgpiojtag.c:383-423 | nine bits of [0x00, 0x01]: bit 8 is set, but the code drives it low |
| ShiftDefects.InOnlyAsIntended | libgpiojtag.c:383-423 | outside numBits = 8m+1, the events as written are those of Kernels.JShiftInOnly |
| ShiftDefects.OutWritesAsIntended | libgpiojtag.c:445-471 | for n >= 2 and n%8 not 1, the stores as written leave exactly the packed samples in bytes 0 to ceil(n/8)-1 |
| ShiftDefects.OutWritesBeforeBuffer | libgpiojtag.c:445-471 | for n = 1, the only store goes to outData[-1], and outData[0] is never written |
| ShiftDefects.OutWritesDropLast | libgpiojtag.c:465-471 | for n = 8m+1, the last sample is stored nowhere, and byte m is never written |
| ShiftDefects.OutWritesCounterexample | libgpiojtag.c:425-472 | nine high samples: outData[1], which should hold the ninth, is never written |
| Compare.TdoCompare | libgpiojtag.c:249-262 | true exactly when some byte below numBytes differs under the mask; it stops at the first such byte, and every byte before it matches |
| Compare.MismatchIffBitDiffers | libgpiojtag.c:253 | a mismatch is exactly a bit that the mask sets and on which data and expected differ |
| Compare.ZeroMaskMatches | libgpiojtag.c:253 | under a mask of zeros nothing mismatches |
| Compare.ExpectedMatches | libgpiojtag.c:253 | reading back exactly the expected bytes never mismatches |
| Compare.MismatchPrefix | libgpiojtag.c:252-260 | only the first numBytes bytes of the three buffers matter |
| Compare.HexDigits | libgpiojtag.c:234 | every character of a dump is one of "0123456789ABCDEF" |
| Compare.HexSnoc | libgpiojtag.c:240-243 | each byte adds its high nibble, then its low nibble |
| Compare.UnhexHex | libgpiojtag.c:236-247 | parsing a dump back gives the bytes that were dumped |
| Compare.PutHex | libgpiojtag.c:239-243 | one pass writes the high-nibble digit, then the low-nibble digit, after the digits already written, and nothing else |
| Compare.DumpSimple | libgpiojtag.c:236-247 | the method writes the 2n hex characters of the n bytes, then a NUL, and nothing past them |
| Csvf.Status | libgpiojtag.h:27-34 | GJ_SUCCESS, GJ_MISMATCH and GJ_BADCMD are returned exactly for a completed stream, a failed compare and an unknown opcode |
| Csvf.MaskRecord | libgpiojtag.c:122-130 | XTDOMASK moves forward, keeps the mask a BUF_SIZE buffer and drives no pin |
| Csvf.MaskRecordLoads | libgpiojtag.c:122-130 | an XTDOMASK that fits and is present moves past its ceil(xsdrSize/8) operand bytes, makes them the head of the mask, and leaves the rest of the mask, the other registers and the pins unchanged |
| Csvf.RunTestRecord | libgpiojtag.c:132-140 | XRUNTEST moves forward and drives no pin |
| Csvf.SdrSizeRecord | libgpiojtag.c:159-167 | XSDRSIZE moves forward and drives no pin |
| Csvf.SirRecord | libgpiojtag.c:142-157 | XSIR keeps the registers; a refused record drives no pin |
| Csvf.SdrRecord | libgpiojtag.c:201-216 | XSDR keeps the registers; a refused record drives no pin |
| Csvf.TryOnce | libgpiojtag.c:181-187 | one XSDRTDO attempt reads back ceil(xsdrSize/8) bytes |
| Csvf.Retry | libgpiojtag.c:178-188 | the loop makes between 1 and 32 attempts, and it ends early only on a match |
| Csvf.Verdict | libgpiojtag.c:188-197 | the record fails exactly when the last compare mismatched, with the dumps of what was read, the mask and the expectation |
| Csvf.SdrTdoRecord | libgpiojtag.c:169-199 | XSDRTDO keeps the registers; it stops only on a refusal, which drives no pin, or on a failed compare |
| Csvf.SdrTdoShift | libgpiojtag.c:169-199 | past its checks, XSDRTDO moves forward by 2*ceil(xsdrSize/8) operand bytes or ends with a mismatch |
| Csvf.Step | libgpiojtag.c:118-222 | a record that moves on moves forward and keeps the registers valid |
| Csvf.Zeros | libgpiojtag.c:93 | the initial mask of the corrected player is BUF_SIZE zero bytes |
| Csvf.RetryWith | libgpiojtag.c:178-188 | the retry loop over any attempt function makes between 1 and 32 attempts, and fewer than 32 only after a match |
| Csvf.RetryWithFrom | libgpiojtag.c:178-188 | from any attempt on: the pins end where the last attempt left them, the bytes read and the verdict are the last attempt's, and every earlier attempt mismatched |
| Csvf.RetryStopsAtFirstMatch | libgpiojtag.c:178-188 | the loop stops at the first attempt that matches; every earlier one mismatched; a final mismatch needs 32 attempts |
| Csvf.RetryIsRetryWith | libgpiojtag.c:178-188 | Retry is that loop over the XSDRTDO attempt |
| Csvf.ZeroMaskFirstTry | libgpiojtag.c:178-188 | under a zero mask the first attempt matches and is the only one |
| Csvf.StepConsumes | libgpiojtag.c:117-224 | a record that moves on consumes its opcode and exactly its operand bytes: ceil(xsdrSize/8) for XTDOMASK and XSDR, 4 for XRUNTEST and XSDRSIZE, 1+ceil(n/8) for XSIR, 2*ceil(xsdrSize/8) for XSDRTDO; a record whose operands run past the end drives nothing |
| Csvf.WordRecords | libgpiojtag.c:132-167 | XRUNTEST and XSDRSIZE load their big-endian operand into the register and drive no pin |
| Csvf.EndRecords | libgpiojtag.c:118-221 | XCOMPLETE ends with GJ_SUCCESS and an unknown opcode with GJ_BADCMD; neither drives a pin |
| Csvf.StepRegisters | libgpiojtag.c:122-216 | only XTDOMASK changes the mask, and only it, XRUNTEST and XSDRSIZE change a register |
| Csvf.SdrTdoDispatch | libgpiojtag.c:169 | with distinct opcodes, the XSDRTDO opcode selects the XSDRTDO record |
| Csvf.OversizeRejected | libgpiojtag.c:122-177 | an XTDOMASK, XSIR or XSDRTDO operand longer than BUF_SIZE is refused before it stores a byte or drives a pin |
| Csvf.ZeroLengthRejected | libgpiojtag.c:142-216 | a shift of zero bits by XSIR, XSDR or XSDRTDO is refused before any pin moves |
| Csvf.TryOnceExtends | libgpiojtag.c:181-187 | an attempt only appends to the pins |
| Csvf.RetryExtends | libgpiojtag.c:178-188 | the retry loop only appends to the pins |
| Csvf.SdrTdoExtends | libgpiojtag.c:169-199 | an XSDRTDO record only appends to the pins |
| Csvf.StepExtends | libgpiojtag.c:119-221 | every record only appends to the pins |
| Csvf.RunExtends | libgpiojtag.c:119-224 | a run only appends to the pins |
| Csvf.PlayStartsWithReset | libgpiojtag.c:117 | the 0x1F/6 reset comes before every other pin that parse drives |
| Csvf.Interleave | libgpiojtag.c:172-175 | interleaving n TDI bytes with n expected bytes gives 2n operand bytes |
| Csvf.SplitInterleave | libgpiojtag.c:172-175 | splitting interleaved operands gives back the TDI and expected bytes |
| Csvf.InterleaveSplit | libgpiojtag.c:172-175 | interleaving the two halves gives back the operand bytes |
| Player.Copy | libgpiojtag.c:125-129 | the copy loop stores n stream bytes at the head of the buffer and leaves the rest unchanged |
| Player.LoadPairs | libgpiojtag.c:172-177 | the pair loop stores the even operand bytes in tdiData and the odd ones in tdoExpected |
| Player.ReadWord | libgpiojtag.c:133-139 | the shift-and-or sequence computes the big-endian value of four bytes |
| Player.MaskStep | libgpiojtag.c:122-130 | XTDOMASK does what Csvf.MaskRecord says, and tdoMask becomes its new mask |
| Player.WordStep | libgpiojtag.c:132-167 | reads the four-byte operand, or refuses a truncated one |
| Player.SirStep | libgpiojtag.c:142-157 | XSIR does what Csvf.SirRecord says: the same outcome, position and pins |
| Player.SdrStep | libgpiojtag.c:201-216 | XSDR does what Csvf.SdrRecord says |
| Player.ShiftOnly | libgpiojtag.c:151-156 | a shift without sampling, the exit to Run-Test/Idle and the idle clocks |
| Player.ShiftInOutOnce | libgpiojtag.c:181-187 | one attempt: Shift-DR entry, the sampled shift, the exit through Pause-DR and the idle clocks; tdoData holds what was read |
| Player.AttemptAgrees | libgpiojtag.c:181-188 | one pass of the do-while is Csvf.TryOnce |
| Player.RetryLoop | libgpiojtag.c:179-188 | the do-while leaves the pins, tdoData and the verdict that Csvf.Retry gives |
| Player.DumpMismatch | libgpiojtag.c:190-197 | the failure carries the hex dumps of tdoData, tdoMask and tdoExpected |
| Player.SdrTdoShiftIsVerdict | libgpiojtag.c:169-199 | an XSDRTDO past its checks is the verdict on its retry loop |
| Player.LoadAndRetry | libgpiojtag.c:170-188 | loading the pairs and retrying leaves the pins, tdoData and the verdict of Csvf.Retry |
| Player.SdrTdoShiftStep | libgpiojtag.c:169-199 | XSDRTDO past its checks does what Csvf.SdrTdoShift says |
| Player.SdrTdoStep | libgpiojtag.c:169-199 | XSDRTDO does what Csvf.SdrTdoRecord says |
| Player.Record | libgpiojtag.c:119-222 | the switch does what Csvf.Step says, and leaves the registers it gives |
| Player.Parse | libgpiojtag.c:83-228 | parse returns exactly the outcome, and drives exactly the pins, of Csvf.Play with a zero initial mask |
| CsvfDefects.VerdictsDiffer | libgpiojtag.c:178-190 | the test `i == 32` and the last compare disagree exactly when attempts 1 to 31 mismatch and attempt 32 matches |
| CsvfDefects.LateMatchReportedAsFailure | libgpiojtag.c:178-190 | a loop whose 32nd attempt matches ends without a mismatch, yet `i == 32` reports GJ_MISMATCH |
| CsvfDefects.SilentMismatches | libgpiojtag.c:181-188 | with TDO held low, 0xFF is never read back under a mask of 0xFF |
| CsvfDefects.SilentRetryFails | libgpiojtag.c:178-188 | then all 32 attempts fail |
| CsvfDefects.ZeroMaskProbe | libgpiojtag.c:93-199 | with a zero initial mask, the probe stream completes |
| CsvfDefects.StaleMaskProbe | libgpiojtag.c:93-199 | with 0xFF left in tdoMask, the same stream and device end in a TDO mismatch |
| CsvfDefects.AsWrittenCopy | libgpiojtag.c:123-129 | a copy loop as written stores operand byte k at index k for every k below its count, whatever the size of the buffer |
| CsvfDefects.MaskStoresPastBuffer | libgpiojtag.c:122-130 | XSDRSIZE 8*BUF_SIZE+1 makes XTDOMASK store at tdoMask[BUF_SIZE] |
| CsvfDefects.SirStoresPastBuffer | libgpiojtag.c:142-150 | an XSIR bit count of 8*BUF_SIZE+1 (a byte only when BUF_SIZE < 32) makes the copy store at tdiData[BUF_SIZE]; the model refuses the record |
| CsvfDefects.AsWrittenPairStores | libgpiojtag.c:170-177 | the pair loop as written stores the TDI byte of pair k at tdiData[k] and its expected byte at tdoExpected[k], for every k below its count |
| CsvfDefects.PairStoresPastBuffer | libgpiojtag.c:170-177 | XSDRSIZE 8*BUF_SIZE+1 makes the pair loop store at tdiData[BUF_SIZE] and tdoExpected[BUF_SIZE] |
| TapTrace.TrackFsm | libgpiojtag.c:474-483 | jClockFSM's events walk the controller along its TMS levels, one edge per level, and leave the last level on TMS |
| TapTrace.TrackClocks | libgpiojtag.c:485-493 | idle clocks take every edge in a state that TMS holds, and leave the controller there |
| TapTrace.TrackBody | libgpiojtag.c:383-423 | TDI bits clocked with TMS holding the state take every edge in that state |
| TapTrace.ShiftWalk | libgpiojtag.c:383-423 | a shift from Shift-IR or Shift-DR with TMS low takes all its edges there and its last edge into the matching Exit1 state |
| TapTrace.TrackDriven | libgpiojtag.c:425-472 | reading TDO moves nothing: the controller and its edges are those of the driven pins alone |
| TapTrace.SampledShiftWalk | libgpiojtag.c:425-472 | a sampled shift from Shift-DR takes each of its edges in Shift-DR and its last one into Exit1-DR |
| TapTrace.IdleStays | libgpiojtag.c:153-155 | the idle clocks keep the controller in Run-Test/Idle |
| TapTrace.ExitThenIdle | libgpiojtag.c:152-155 | from either Exit1 state the exit walk and the idle clocks end in Run-Test/Idle with TMS low |
| TapTrace.EnterDr | libgpiojtag.c:181 | from Run-Test/Idle the 0x1/3 walk reaches Shift-DR with TMS low |
| TapTrace.PauseThenIdle | libgpiojtag.c:183-186 | from Exit1-DR the 0x1A/6 walk and the idle clocks end in Run-Test/Idle with TMS low |
| TapTrace.SirRecordWalk | libgpiojtag.c:142-157 | an XSIR started in Run-Test/Idle reaches Shift-IR, takes all numBits data edges in Shift-IR, the last into Exit1-IR, and ends in Run-Test/Idle |
| TapTrace.SdrRecordWalk | libgpiojtag.c:201-216 | an XSDR started in Run-Test/Idle reaches Shift-DR, takes all xsdrSize data edges in Shift-DR, the last into Exit1-DR, and ends in Run-Test/Idle |
| TapTrace.TryOnceWalk | libgpiojtag.c:181-186 | an XSDRTDO attempt started in Run-Test/Idle reaches Shift-DR, takes all xsdrSize sampled edges in Shift-DR, the last into Exit1-DR, and ends in Run-Test/Idle |
| TapTrace.TryOnceEndsIdle | libgpiojtag.c:181-186 | an XSDRTDO attempt started in Run-Test/Idle ends there |
| TapTrace.SdrTdoRecordWalk | libgpiojtag.c:169-199 | every attempt of an XSDRTDO started in Run-Test/Idle starts there, and the record ends there |
| TapTrace.StepKeepsIdle | libgpiojtag.c:119-222 | every record started in Run-Test/Idle ends in Run-Test/Idle |
| TapTrace.RunKeepsIdle | libgpiojtag.c:118-224 | a run started in Run-Test/Idle ends in Run-Test/Idle, however it ends |
| TapTrace.PlayEndsIdle | libgpiojtag.c:83-228 | parse leaves the TAP in Run-Test/Idle, from any state and with any outcome |

## Left out

- Loading the SVF file and converting it to CSVF (`flLoadSvfAndConvertToCsvf`, `bufInitialise`, `bufDestroy`) is left out. That is a foreign library and file I/O. The model starts from the CSVF bytes, and GJ_FILE and GJ_ALLOC from those steps are not produced.
- `csvfDump` is left out. It is a debug-only printer that writes to stdout and exits.
- CHECK_STATUS and the liberror message text are left out. A failed compare carries the three hex dumps, and an unknown opcode carries the opcode, but the format strings are not modelled.
- The `malloc` of `tdiAll` is not checked in the code. The model allocates a fresh array, which cannot fail, so a null `tdiAll` is not modelled.
- The rpi driver (wiringPi pins, argument handling, exit codes) is left out. Pins are the recorded callbacks.
- Pin timing is left out. The callbacks are taken to act at once and in order.
- The opcode values and `BUF_SIZE` are parameters, because the headers that define them are not part of this model.
- Csvf.Step: a record whose operands run past the end of the stream is refused with `Rejected(Truncated)`, and so is a stream that ends without XCOMPLETE. The code reads on into whatever follows in its buffer. `Rejected` of any kind is reported as GJ_FILE.
- Csvf.SirRecord: the code enters Shift-IR before it reads the bit count, and XSDR enters Shift-DR before it copies its operand. The model checks the operands first. When it refuses a record, no pin moves. When it accepts a record, the pins are the same as the code's.
- Player.Parse: the kernels need `inData` and `outData` to be different arrays. parse always passes different buffers.
- The comment on the XSIR shift names Exit1-DR as the state it ends in. After Shift-IR, the shift's TMS-high edge leads to Exit1-IR. The model follows the state diagram, and Tap.Exit1ToIdle covers both Exit1 states.
- The exit pattern 0x1A/6 after an XSDRTDO shift passes through Shift-DR again (Tap.PauseExitToIdle). That edge clocks one more bit into the data register. The model records the edge but says nothing about its effect on the device.

## Findings

| source | as written | input that shows it | evidently intended | confidence | as-written member | corrected member |
|---|---|---|---|---|---|---|
| libgpiojtag.c:402-422 | when the chunk loop ends on a whole byte, the final bit uses the stale `inByte` and `mask == 0x100`, so TDI is driven low | numBits 9, inData [0x00, 0x01]: bit 8 is 1, but TDI goes low | the last TDI level is bit numBits-1 of inData | high, not executed | ShiftDefects.FinalTdiCounterexample | Kernels.JShiftInOnly |
| libgpiojtag.c:448-471 | for numBits 8m+1, the last sample is ORed above bit 7 and truncated, and byte m of outData is never written | nine high TDO samples: outData[1] should be 0x01 but is not written | the last sample lands in bit 0 of byte m | high, not executed | ShiftDefects.OutWritesCounterexample | Kernels.JShiftInOut |
| libgpiojtag.c:445-471 | for numBits 1, `outData--` then `*outData = outByte` stores before the buffer | numBits 1: the only store is to outData[-1] | the one sample is stored in outData[0] | high, not executed | ShiftDefects.OutWritesBeforeBuffer | Kernels.JShiftInOut |
| libgpiojtag.c:391 | `numBits--` on a 32-bit count of 0 wraps to 2^32-1 | an XSDR before any XSDRSIZE (xsdrSize 0), or an XSIR with bit count 0 | a shift of zero bits drives nothing | high, not executed | ShiftDefects.LeadingBitsUnderflow | Csvf.ZeroLengthRejected |
| libgpiojtag.c:188-190 | the failure test is `i == 32`, which also holds when the 32nd attempt matched | compares that fail on attempts 1 to 31 and pass on attempt 32 | fail only when the last compare failed | medium, not executed | CsvfDefects.LateMatchReportedAsFailure | Csvf.Verdict |
| libgpiojtag.c:93 | tdoMask is a stack buffer that nothing fills before the first XTDOMASK | XSDRSIZE 8, XSDRTDO (0x00, 0xFF), XCOMPLETE, TDO held low, 0xFF left in tdoMask | an XSDRTDO before any XTDOMASK compares under a known mask | medium, not executed | CsvfDefects.StaleMaskProbe | Player.Parse |
| libgpiojtag.c:122-130 | XTDOMASK copies ceil(xsdrSize/8) bytes into a BUF_SIZE buffer without checking the count | XSDRSIZE 8*BUF_SIZE+1, then XTDOMASK | an operand longer than the buffer is refused | high, not executed | CsvfDefects.MaskStoresPastBuffer | Csvf.OversizeRejected |
| libgpiojtag.c:170-177 | the XSDRTDO pair loop copies ceil(xsdrSize/8) pairs into the BUF_SIZE buffers tdiData and tdoExpected without checking the count | XSDRSIZE 8*BUF_SIZE+1, then XSDRTDO with its operands | an operand longer than the buffers is refused | high, not executed | CsvfDefects.PairStoresPastBuffer | Csvf.OversizeRejected |
| libgpiojtag.c:142-150 | XSIR copies ceil(numBits/8) bytes into the BUF_SIZE buffer tdiData without checking the count | BUF_SIZE below 32, then XSIR with bit count 8*BUF_SIZE+1 | an operand longer than the buffer is refused | low (only for a BUF_SIZE below 32), not executed | CsvfDefects.SirStoresPastBuffer | Csvf.OversizeRejected |
