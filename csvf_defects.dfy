/**
 * Behaviour of parse as written that the model in csvf.dfy corrects.
 *
 * - The XSDRTDO verdict tests the attempt count, not the last compare, so a
 *   match on the 32nd attempt is reported as a failure.
 * - tdoMask is a stack buffer that nothing fills before the first XTDOMASK,
 *   so an earlier XSDRTDO compares under whatever it held.
 * - XTDOMASK, XSIR and the XSDRTDO pair loop copy ceil(n/8) bytes into
 *   BUF_SIZE buffers without checking the count.
 */
module CsvfDefects {
  import opened Bytes
  import opened Pins
  import opened Kernels
  import opened Compare
  import opened Csvf

  // ---------------------------------------------------------------------------
  // The XSDRTDO verdict

  /** `if ( i == 32 )`: as written, the record fails whenever all 32 attempts were made. */
  function AsWrittenFails(r: Retried): bool
  {
    r.attempts == 32
  }

  /**
   * The test as written and the last compare disagree exactly when the
   * first 31 attempts mismatch and the 32nd matches.
   */
  lemma VerdictsDiffer(step: seq<Event> -> Attempt, t: seq<Event>)
    ensures var r := RetryWith(step, t, 0);
            AsWrittenFails(r) != r.mismatch
            <==> (forall k :: 0 <= k < 31 ==> step(AfterTries(step, t, k)).mismatch)
                 && !step(AfterTries(step, t, 31)).mismatch
  {
    RetryStopsAtFirstMatch(step, t);
  }

  /** Attempts 1 to 31 mismatch and attempt 32 matches, whatever the device. */
  function Flaky(u: seq<Event>): Attempt
  {
    Attempt(u + [Tck(true)], [], |u| < 31)
  }

  /** Each Flaky attempt adds one event. */
  lemma {:induction false} AfterFlaky(k: nat)
    ensures |AfterTries(Flaky, [], k)| == k
  {
    if k > 0 {
      AfterFlaky(k - 1);
    }
  }

  /** The 32nd attempt matches, and the code as written still reports GJ_MISMATCH. */
  lemma LateMatchReportedAsFailure()
    ensures var r := RetryWith(Flaky, [], 0);
            r.attempts == 32 && !r.mismatch && AsWrittenFails(r)
  {
    forall k | 0 <= k <= 31
      ensures Flaky(AfterTries(Flaky, [], k)).mismatch == (k < 31)
    {
      AfterFlaky(k);
    }
    RetryStopsAtFirstMatch(Flaky, []);
    VerdictsDiffer(Flaky, []);
  }

  // ---------------------------------------------------------------------------
  // The uninitialised mask

  /** XSDRSIZE 8, one XSDRTDO pair (TDI 0x00, expected 0xFF), XCOMPLETE. */
  function MaskProbe(ops: Opcodes): (code: seq<byte>)
    ensures |code| == 9
  {
    [ops.sdrSize, 0, 0, 0, 8, ops.sdrTdo, 0x00, 0xFF, ops.complete]
  }

  /** A device that never drives TDO high. */
  function Silent(history: seq<Event>): bool
  {
    false
  }

  /** Every sample read from a silent device is low. */
  lemma {:induction false} SilentInOut(t: seq<Event>, bits: seq<bool>)
    ensures forall i :: 0 <= i < |bits| ==> !InOutSamples(t, bits, Silent)[i]
  {
    if bits != [] {
      SilentInOut(t, bits[..|bits| - 1]);
    }
  }

  /** Low samples pack into a zero byte. */
  lemma {:induction false} PackByteLow(c: seq<bool>)
    requires forall i :: 0 <= i < |c| ==> !c[i]
    ensures PackByte(c) == 0
  {
    if c != [] {
      PackByteLow(c[1..]);
    }
  }

  /** Under a mask of 0xFF a silent device never reads back the expected 0xFF. */
  lemma SilentMismatches(u: seq<Event>)
    ensures TryOnce(u, [0x00], [0xFF], [0xFF], 8, 0, Silent).mismatch
  {
    var bits := InBits([0x00], 8);
    var t1 := u + TO_SHIFT_DR;
    var samples := ShiftInOutSamples(t1, bits, Silent);
    SilentInOut(t1, bits[..7]);
    assert forall i :: 0 <= i < 8 ==> !samples[i];
    var got := PackBits(samples);
    assert got[0] == PackByte(samples[0..8]);
    PackByteLow(samples[0..8]);
    assert DiffersAt(got, [0xFF], [0xFF], 0);
  }

  /** Every attempt of the probe's loop mismatches under 0xFF, so the last one does. */
  lemma {:induction false} SilentRetryFails(t: seq<Event>, done: nat)
    requires done < 32
    ensures Retry(t, [0x00], [0xFF], [0xFF], 8, 0, Silent, done).mismatch
    decreases 32 - done
  {
    SilentMismatches(t);
    if done + 1 < 32 {
      SilentRetryFails(TryOnce(t, [0x00], [0xFF], [0xFF], 8, 0, Silent).trace, done + 1);
    }
  }

  /** The probe's XSDRSIZE sets the shift length to 8 and drives nothing. */
  lemma ProbeSizes(ops: Opcodes, mask0: seq<byte>, t0: seq<Event>)
    requires Distinct(ops) && |mask0| == 1
    ensures Play(MaskProbe(ops), ops, 1, Silent, mask0, t0)
         == Run(MaskProbe(ops), ops, 1, Silent, 5, Regs(8, 0, mask0), t0 + RESET)
  {
    var code := MaskProbe(ops);
    DistinctOpcodes(ops);
    assert Operand(code, 0, 0, 4) == [0, 0, 0, 8];
    assert Step(code, ops, 1, Silent, 0, Regs(0, 0, mask0), t0 + RESET)
        == Next(5, Regs(8, 0, mask0), t0 + RESET);
  }

  /** The probe's one XSDRTDO pair: TDI 0x00, expected 0xFF. */
  lemma ProbePairs(ops: Opcodes)
    ensures Pairs(MaskProbe(ops), 5, 1) == [0x00, 0xFF]
  {
    var p := Pairs(MaskProbe(ops), 5, 1);
    assert p[0] == MaskProbe(ops)[6] == 0x00;
    assert p[1] == MaskProbe(ops)[7] == 0xFF;
  }

  /** The probe's XSDRTDO passes its checks and shifts its one operand pair. */
  lemma ProbeShifts(ops: Opcodes, mask0: seq<byte>, t: seq<Event>)
    requires Distinct(ops) && |mask0| == 1
    ensures Step(MaskProbe(ops), ops, 1, Silent, 5, Regs(8, 0, mask0), t)
         == SdrTdoShift([0x00, 0xFF], 5, 1, Regs(8, 0, mask0), Silent, t)
  {
    var code := MaskProbe(ops);
    var regs := Regs(8, 0, mask0);
    assert code[5] == ops.sdrTdo;
    SdrTdoDispatch(code, ops, 1, Silent, 5, regs, t);
    assert BitsToBytes(8) == 1;
    SdrTdoRecordShifts(code, 1, Silent, 5, regs, t, 1);
    ProbePairs(ops);
  }

  /** The XSDRTDO record of the probe: one attempt loop over the pair (0x00, 0xFF). */
  lemma ProbeCompares(ops: Opcodes, mask0: seq<byte>, t: seq<Event>)
    requires Distinct(ops) && |mask0| == 1
    ensures Step(MaskProbe(ops), ops, 1, Silent, 5, Regs(8, 0, mask0), t)
         == Verdict(Retry(t, [0x00], [0xFF], mask0, 8, 0, Silent, 0), 8, Regs(8, 0, mask0), 1, [0xFF])
  {
    ProbeShifts(ops, mask0, t);
    assert Evens([0x00, 0xFF], 1) == [0x00] && Odds([0x00, 0xFF], 1) == [0xFF];
  }

  /** With the zero mask the corrected model starts with, the probe completes. */
  lemma ZeroMaskProbe(ops: Opcodes, t0: seq<Event>)
    requires Distinct(ops)
    ensures Play(MaskProbe(ops), ops, 1, Silent, [0], t0).0 == Complete
  {
    var code := MaskProbe(ops);
    var t := t0 + RESET;
    var regs := Regs(8, 0, [0]);
    ProbeSizes(ops, [0], t0);
    ProbeCompares(ops, [0], t);
    ZeroMaskFirstTry(t, [0x00], [0xFF], [0], 8, 0, Silent);
    var r := Retry(t, [0x00], [0xFF], [0], 8, 0, Silent, 0);
    assert Step(code, ops, 1, Silent, 5, regs, t) == Next(8, regs, r.trace);
    assert Run(code, ops, 1, Silent, 8, regs, r.trace) == (Complete, r.trace);
  }

  /** With 0xFF left in the mask buffer, the same stream and device fail the compare. */
  lemma StaleMaskProbe(ops: Opcodes, t0: seq<Event>)
    requires Distinct(ops)
    ensures Play(MaskProbe(ops), ops, 1, Silent, [0xFF], t0).0.TdoMismatch?
  {
    var t := t0 + RESET;
    ProbeSizes(ops, [0xFF], t0);
    ProbeCompares(ops, [0xFF], t);
    SilentRetryFails(t, 0);
  }

  // ---------------------------------------------------------------------------
  // The unchecked XSDRSIZE

  /**
   * A `while ( numBytes )` copy loop as written, in XTDOMASK and XSIR: operand
   * byte k is stored at index k of the buffer, for every k the count gives.
   */
  function AsWrittenCopy(operand: seq<byte>): (r: map<nat, byte>)
    ensures forall k: nat :: k in r <==> k < |operand|
    ensures forall k: nat :: k in r ==> r[k] == operand[k]
  {
    map k | 0 <= k < |operand| :: operand[k]
  }

  /**
   * XSDRSIZE 8 * BUF_SIZE + 1, a 32-bit value for any buffer below 512 MiB,
   * makes XTDOMASK store at tdoMask[BUF_SIZE], one past the buffer.
   */
  lemma MaskStoresPastBuffer(cap: nat, operand: seq<byte>)
    requires |operand| == BitsToBytes(8 * cap + 1)
    ensures cap in AsWrittenCopy(operand)
  {
    BitsToBytesChunk(cap, 1);
  }

  /**
   * An XSIR bit count of 8 * BUF_SIZE + 1, a byte value when BUF_SIZE is
   * below 32, makes the copy store at tdiData[BUF_SIZE], one past the
   * buffer; the model refuses that record before it drives a pin.
   */
  lemma SirStoresPastBuffer(code: seq<byte>, cap: nat, pos: nat, regs: Regs, t: seq<Event>)
    requires pos + 2 <= |code| && RegsOk(regs, cap) && code[pos + 1] == 8 * cap + 1
    requires pos + 2 + BitsToBytes(code[pos + 1]) <= |code|
    ensures cap < 32
    ensures cap in AsWrittenCopy(Operand(code, pos, 1, BitsToBytes(code[pos + 1])))
    ensures SirRecord(code, cap, pos, regs, t) == Stop(Rejected(Oversize), t)
  {
    BitsToBytesChunk(cap, 1);
  }

  /**
   * XSDRTDO's pair loop as written: the TDI byte of pair k is stored at
   * tdiData[k] and its expected byte at tdoExpected[k], for every k the
   * count gives.
   */
  function AsWrittenPairStores(pairs: seq<byte>, n: nat): (r: (map<nat, byte>, map<nat, byte>))
    requires |pairs| == 2 * n
    ensures forall k: nat :: (k in r.0 <==> k < n) && (k in r.1 <==> k < n)
    ensures forall k: nat :: k < n ==> r.0[k] == pairs[2 * k] && r.1[k] == pairs[2 * k + 1]
  {
    (map k | 0 <= k < n :: pairs[2 * k], map k | 0 <= k < n :: pairs[2 * k + 1])
  }

  /**
   * XSDRSIZE 8 * BUF_SIZE + 1 makes XSDRTDO's pair loop store at
   * tdiData[BUF_SIZE] and tdoExpected[BUF_SIZE], one past both buffers.
   */
  lemma PairStoresPastBuffer(cap: nat, pairs: seq<byte>)
    requires |pairs| == 2 * BitsToBytes(8 * cap + 1)
    ensures var r := AsWrittenPairStores(pairs, BitsToBytes(8 * cap + 1));
            cap in r.0 && cap in r.1
  {
    BitsToBytesChunk(cap, 1);
  }
}
