/**
 * What `parse` does with a CSVF byte stream, as a function of the stream,
 * the pin history before the call and the device on TDO.
 *
 * parse resets the TAP, then decodes one record at a time: an opcode byte
 * and its operands. The registers it carries from record to record are the
 * XSDRSIZE bit count, the XRUNTEST idle-clock count and the TDO mask. Each
 * record either moves on (Next) or ends the run (Stop). The player in
 * player.dfy is proved to produce exactly the Outcome and pin trace of Play.
 *
 * Where libgpiojtag.c reads or writes memory it does not own, the model
 * stops with Rejected instead (see Hazard). It starts with a zero mask, and
 * an XSDRTDO fails only when its last compare failed; csvf_defects.dfy holds
 * the behaviour as written.
 */
module Csvf {
  import opened Bytes
  import opened Pins
  import opened Tap
  import opened Kernels
  import opened Compare

  /**
   * The opcode byte of each record kind. Their values come from a header
   * that is not part of this model, so they are a parameter.
   */
  datatype Opcodes = Opcodes(complete: byte, tdoMask: byte, runTest: byte, sir: byte,
                             sdrSize: byte, sdrTdo: byte, sdr: byte)

  /** Seven different codes, as the cases of a C switch and its loop test must be. */
  predicate Distinct(ops: Opcodes)
  {
    var cs := [ops.complete, ops.tdoMask, ops.runTest, ops.sir, ops.sdrSize, ops.sdrTdo, ops.sdr];
    forall i, j :: 0 <= i < j < |cs| ==> cs[i] != cs[j]
  }

  /** The pairs of Distinct, one by one. */
  lemma DistinctOpcodes(ops: Opcodes)
    requires Distinct(ops)
    ensures ops.complete != ops.tdoMask && ops.complete != ops.runTest && ops.complete != ops.sir
    ensures ops.complete != ops.sdrSize && ops.complete != ops.sdrTdo && ops.complete != ops.sdr
    ensures ops.tdoMask != ops.runTest && ops.tdoMask != ops.sir && ops.tdoMask != ops.sdrSize
    ensures ops.tdoMask != ops.sdrTdo && ops.tdoMask != ops.sdr
    ensures ops.runTest != ops.sir && ops.runTest != ops.sdrSize && ops.runTest != ops.sdrTdo && ops.runTest != ops.sdr
    ensures ops.sir != ops.sdrSize && ops.sir != ops.sdrTdo && ops.sir != ops.sdr
    ensures ops.sdrSize != ops.sdrTdo && ops.sdrSize != ops.sdr && ops.sdrTdo != ops.sdr
  {
    var cs := [ops.complete, ops.tdoMask, ops.runTest, ops.sir, ops.sdrSize, ops.sdrTdo, ops.sdr];
    assert cs[0] == ops.complete && cs[1] == ops.tdoMask && cs[2] == ops.runTest && cs[3] == ops.sir;
    assert cs[4] == ops.sdrSize && cs[5] == ops.sdrTdo && cs[6] == ops.sdr;
  }

  /** The return codes of parse. */
  datatype ParserStatus = GJ_SUCCESS | GJ_USAGE | GJ_MISMATCH | GJ_BADCMD | GJ_ALLOC | GJ_FILE

  /** The operand faults the model refuses to execute. */
  datatype Hazard =
    | Truncated   // the record runs past the end of the stream
    | ZeroLength  // a shift of zero bits: `numBits--` would wrap
    | Oversize    // more operand bytes than a BUF_SIZE buffer holds

  /** How a run ends. A mismatch carries the three dumps of the error message. */
  datatype Outcome =
    | Complete
    | BadCommand(op: byte)
    | TdoMismatch(got: seq<char>, mask: seq<char>, expected: seq<char>)
    | Rejected(hazard: Hazard)

  /** The status parse returns; a rejected stream is reported as a file fault. */
  function Status(o: Outcome): (r: ParserStatus)
    ensures r == GJ_SUCCESS <==> o.Complete?
    ensures r == GJ_MISMATCH <==> o.TdoMismatch?
    ensures r == GJ_BADCMD <==> o.BadCommand?
  {
    match o
    case Complete => GJ_SUCCESS
    case BadCommand(_) => GJ_BADCMD
    case TdoMismatch(_, _, _) => GJ_MISMATCH
    case Rejected(_) => GJ_FILE
  }

  /** The interpreter state carried between records. */
  datatype Regs = Regs(xsdrSize: nat, xruntest: nat, mask: seq<byte>)

  /** The registers a cap-byte buffer can hold, with both counts 32-bit values. */
  predicate RegsOk(regs: Regs, cap: nat)
  {
    regs.xsdrSize < WORD && regs.xruntest < WORD && |regs.mask| == cap
  }

  /** What one record does. */
  datatype Effect =
    | Next(pos: nat, regs: Regs, trace: seq<Event>)
    | Stop(outcome: Outcome, trace: seq<Event>)

  // The fixed TMS walks of parse.
  const RESET: seq<Event> := FsmEvents(TmsBits(0x1F, 6))
  const TO_SHIFT_IR: seq<Event> := FsmEvents(TmsBits(0x3, 4))
  const TO_SHIFT_DR: seq<Event> := FsmEvents(TmsBits(0x1, 3))
  const EXIT_TO_IDLE: seq<Event> := FsmEvents(TmsBits(0x1, 2))
  const PAUSE_TO_IDLE: seq<Event> := FsmEvents(TmsBits(0x1A, 6))

  /** `if ( xruntest ) jClocks(xruntest, cb)` */
  function Idle(xruntest: nat): seq<Event>
  {
    if xruntest != 0 then ClockEvents(xruntest) else []
  }

  // ---------------------------------------------------------------------------
  // Records

  /**
   * The n bytes of the record at pos that follow its opcode and `skip`
   * header bytes: where each record reads its operand.
   */
  function Operand(code: seq<byte>, pos: nat, skip: nat, n: nat): (r: seq<byte>)
    requires pos + 1 + skip + n <= |code|
    ensures |r| == n
  {
    code[pos + 1 + skip..pos + 1 + skip + n]
  }

  /** XTDOMASK: the next ceil(xsdrSize/8) bytes become the head of the mask. */
  function MaskRecord(code: seq<byte>, cap: nat, pos: nat, regs: Regs, t: seq<Event>): (r: Effect)
    requires pos < |code| && RegsOk(regs, cap)
    ensures r.Next? ==> pos < r.pos <= |code| && RegsOk(r.regs, cap) && r.trace == t
    ensures r.Stop? ==> r.trace == t && r.outcome.Rejected?
  {
    var n := BitsToBytes(regs.xsdrSize);
    if n > cap then Stop(Rejected(Oversize), t)
    else if pos + 1 + n > |code| then Stop(Rejected(Truncated), t)
    else Next(pos + 1 + n, regs.(mask := Operand(code, pos, 0, n) + regs.mask[n..]), t)
  }

  /**
   * An XTDOMASK whose operand fits the buffer and is present loads it into
   * the head of the mask and leaves the rest of the mask, the other
   * registers and the pins as they were.
   */
  lemma MaskRecordLoads(code: seq<byte>, cap: nat, pos: nat, regs: Regs, t: seq<Event>)
    requires pos < |code| && RegsOk(regs, cap)
    requires BitsToBytes(regs.xsdrSize) <= cap && pos + 1 + BitsToBytes(regs.xsdrSize) <= |code|
    ensures var n := BitsToBytes(regs.xsdrSize);
            var r := MaskRecord(code, cap, pos, regs, t);
            r.Next? && r.pos == pos + 1 + n && r.trace == t
            && r.regs.mask[..n] == code[pos + 1..pos + 1 + n] && r.regs.mask[n..] == regs.mask[n..]
            && r.regs.xsdrSize == regs.xsdrSize && r.regs.xruntest == regs.xruntest
  {
    var n := BitsToBytes(regs.xsdrSize);
    var head := Operand(code, pos, 0, n);
    assert (head + regs.mask[n..])[..n] == head && (head + regs.mask[n..])[n..] == regs.mask[n..];
  }

  /** XRUNTEST: the next four bytes, big-endian, become the idle-clock count. */
  function RunTestRecord(code: seq<byte>, cap: nat, pos: nat, regs: Regs, t: seq<Event>): (r: Effect)
    requires pos < |code| && RegsOk(regs, cap)
    ensures r.Next? ==> pos < r.pos <= |code| && RegsOk(r.regs, cap) && r.trace == t
    ensures r.Stop? ==> r.trace == t && r.outcome.Rejected?
  {
    if pos + 5 > |code| then Stop(Rejected(Truncated), t)
    else Next(pos + 5, regs.(xruntest := BigEndian32(Operand(code, pos, 0, 4))), t)
  }

  /** XSDRSIZE: the next four bytes, big-endian, become the DR shift length. */
  function SdrSizeRecord(code: seq<byte>, cap: nat, pos: nat, regs: Regs, t: seq<Event>): (r: Effect)
    requires pos < |code| && RegsOk(regs, cap)
    ensures r.Next? ==> pos < r.pos <= |code| && RegsOk(r.regs, cap) && r.trace == t
    ensures r.Stop? ==> r.trace == t && r.outcome.Rejected?
  {
    if pos + 5 > |code| then Stop(Rejected(Truncated), t)
    else Next(pos + 5, regs.(xsdrSize := BigEndian32(Operand(code, pos, 0, 4))), t)
  }

  /** XSIR: a one-byte bit count, then that many bits of TDI, shifted into the instruction register. */
  function SirRecord(code: seq<byte>, cap: nat, pos: nat, regs: Regs, t: seq<Event>): (r: Effect)
    requires pos < |code| && RegsOk(regs, cap)
    ensures r.Next? ==> pos < r.pos <= |code| && r.regs == regs
    ensures r.Stop? ==> r.trace == t && r.outcome.Rejected?
  {
    if pos + 2 > |code| then Stop(Rejected(Truncated), t)
    else
      var numBits := code[pos + 1];
      var n := BitsToBytes(numBits);
      if numBits == 0 then Stop(Rejected(ZeroLength), t)
      else if n > cap then Stop(Rejected(Oversize), t)
      else if pos + 2 + n > |code| then Stop(Rejected(Truncated), t)
      else
        var bits := InBits(Operand(code, pos, 1, n), numBits);
        Next(pos + 2 + n, regs, t + TO_SHIFT_IR + InOnlyEvents(bits) + EXIT_TO_IDLE + Idle(regs.xruntest))
  }

  /** XSDR: ceil(xsdrSize/8) bytes of TDI shifted into the data register, TDO ignored. */
  function SdrRecord(code: seq<byte>, cap: nat, pos: nat, regs: Regs, t: seq<Event>): (r: Effect)
    requires pos < |code| && RegsOk(regs, cap)
    ensures r.Next? ==> pos < r.pos <= |code| && r.regs == regs
    ensures r.Stop? ==> r.trace == t && r.outcome.Rejected?
  {
    var n := BitsToBytes(regs.xsdrSize);
    if regs.xsdrSize == 0 then Stop(Rejected(ZeroLength), t)
    else if pos + 1 + n > |code| then Stop(Rejected(Truncated), t)
    else
      var bits := InBits(Operand(code, pos, 0, n), regs.xsdrSize);
      Next(pos + 1 + n, regs, t + TO_SHIFT_DR + InOnlyEvents(bits) + EXIT_TO_IDLE + Idle(regs.xruntest))
  }

  /** Bytes 0, 2, 4, ... of interleaved (TDI, expected) pairs. */
  function Evens(s: seq<byte>, n: nat): (r: seq<byte>)
    requires |s| == 2 * n
    ensures |r| == n
  {
    seq(n, i requires 0 <= i < n => s[2 * i])
  }

  /** Bytes 1, 3, 5, ... of interleaved (TDI, expected) pairs. */
  function Odds(s: seq<byte>, n: nat): (r: seq<byte>)
    requires |s| == 2 * n
    ensures |r| == n
  {
    seq(n, i requires 0 <= i < n => s[2 * i + 1])
  }

  /** One XSDRTDO attempt: its trace, the bytes read back and whether they mismatch. */
  datatype Attempt = Attempt(trace: seq<Event>, got: seq<byte>, mismatch: bool)

  /**
   * Enter Shift-DR, shift `size` bits of tdi while sampling TDO, leave through
   * Pause-DR to Run-Test/Idle, idle, then compare what was read under the mask.
   */
  function TryOnce(t: seq<Event>, tdi: seq<byte>, expected: seq<byte>, mask: seq<byte>, size: nat,
                   xruntest: nat, device: seq<Event> -> bool): (r: Attempt)
    requires size >= 1 && BitsToBytes(size) <= |tdi| && BitsToBytes(size) <= |expected| && BitsToBytes(size) <= |mask|
    ensures |r.got| == BitsToBytes(size)
  {
    var t1 := t + TO_SHIFT_DR;
    var bits := InBits(tdi, size);
    var got := PackBits(ShiftInOutSamples(t1, bits, device));
    Attempt(ShiftInOutTrace(t1, bits, device) + PAUSE_TO_IDLE + Idle(xruntest), got,
            Mismatch(got, mask, expected, BitsToBytes(size)))
  }

  /** The XSDRTDO retry loop once `done` attempts have failed: what it ends with. */
  datatype Retried = Retried(trace: seq<Event>, got: seq<byte>, attempts: nat, mismatch: bool)

  /** Attempts until one matches or 32 have been made; the verdict is the last compare. */
  function Retry(t: seq<Event>, tdi: seq<byte>, expected: seq<byte>, mask: seq<byte>, size: nat,
                 xruntest: nat, device: seq<Event> -> bool, done: nat): (r: Retried)
    requires size >= 1 && BitsToBytes(size) <= |tdi| && BitsToBytes(size) <= |expected| && BitsToBytes(size) <= |mask|
    requires done < 32
    ensures |r.got| == BitsToBytes(size)
    ensures done < r.attempts <= 32 && (r.attempts < 32 ==> !r.mismatch)
    decreases 32 - done
  {
    var a := TryOnce(t, tdi, expected, mask, size, xruntest, device);
    if a.mismatch && done + 1 < 32 then Retry(a.trace, tdi, expected, mask, size, xruntest, device, done + 1)
    else Retried(a.trace, a.got, done + 1, a.mismatch)
  }

  /**
   * XSDRTDO: ceil(xsdrSize/8) (TDI, expected) byte pairs, then the retry
   * loop; a final mismatch ends the run with the three hex dumps.
   */
  function SdrTdoRecord(code: seq<byte>, cap: nat, device: seq<Event> -> bool, pos: nat, regs: Regs,
                        t: seq<Event>): (r: Effect)
    requires pos < |code| && RegsOk(regs, cap)
    ensures r.Next? ==> pos < r.pos <= |code| && r.regs == regs
    ensures r.Stop? ==> r.outcome.Rejected? || r.outcome.TdoMismatch?
    ensures r.Stop? && r.outcome.Rejected? ==> r.trace == t
  {
    var size := regs.xsdrSize;
    var n := BitsToBytes(size);
    if size == 0 then Stop(Rejected(ZeroLength), t)
    else if n > cap then Stop(Rejected(Oversize), t)
    else if pos + 1 + 2 * n > |code| then Stop(Rejected(Truncated), t)
    else SdrTdoShift(Pairs(code, pos, n), pos, n, regs, device, t)
  }

  /** The n (TDI, expected) byte pairs that follow the XSDRTDO opcode at pos. */
  function Pairs(code: seq<byte>, pos: nat, n: nat): (r: seq<byte>)
    requires pos + 1 + 2 * n <= |code|
    ensures |r| == 2 * n
  {
    code[pos + 1..pos + 1 + 2 * n]
  }

  /**
   * An XSDRTDO record past its checks: split its n operand pairs, retry, and
   * stop with the three dumps if the last compare failed, or go on at next.
   */
  function SdrTdoShift(operands: seq<byte>, pos: nat, n: nat, regs: Regs, device: seq<Event> -> bool,
                       t: seq<Event>): (r: Effect)
    requires regs.xsdrSize >= 1 && n == BitsToBytes(regs.xsdrSize) && n <= |regs.mask| && |operands| == 2 * n
    ensures r.Next? ==> r.pos == pos + 1 + 2 * n && r.regs == regs
    ensures r.Stop? ==> r.outcome.TdoMismatch?
  {
    Verdict(Retry(t, Evens(operands, n), Odds(operands, n), regs.mask, regs.xsdrSize, regs.xruntest, device, 0),
            pos + 1 + 2 * n, regs, n, Odds(operands, n))
  }

  /**
   * How an XSDRTDO record ends once its retry loop has ended with r: a final
   * mismatch stops the run with the dumps of what was read, the mask and the
   * expectation; otherwise the run goes on at next.
   */
  function Verdict(r: Retried, next: nat, regs: Regs, n: nat, expected: seq<byte>): (e: Effect)
    requires n <= |regs.mask|
    ensures e.trace == r.trace
    ensures e.Stop? <==> r.mismatch
    ensures e.Stop? ==> e.outcome == TdoMismatch(Hex(r.got), Hex(regs.mask[..n]), Hex(expected))
    ensures e.Next? ==> e.pos == next && e.regs == regs
  {
    if r.mismatch then Stop(TdoMismatch(Hex(r.got), Hex(regs.mask[..n]), Hex(expected)), r.trace)
    else Next(next, regs, r.trace)
  }

  /** Decode and execute the record at pos. */
  function Step(code: seq<byte>, ops: Opcodes, cap: nat, device: seq<Event> -> bool, pos: nat, regs: Regs,
                t: seq<Event>): (r: Effect)
    requires pos < |code| && RegsOk(regs, cap)
    ensures r.Next? ==> pos < r.pos <= |code| && RegsOk(r.regs, cap)
  {
    var op := code[pos];
    if op == ops.complete then Stop(Complete, t)
    else if op == ops.tdoMask then MaskRecord(code, cap, pos, regs, t)
    else if op == ops.runTest then RunTestRecord(code, cap, pos, regs, t)
    else if op == ops.sir then SirRecord(code, cap, pos, regs, t)
    else if op == ops.sdrSize then SdrSizeRecord(code, cap, pos, regs, t)
    else if op == ops.sdrTdo then SdrTdoRecord(code, cap, device, pos, regs, t)
    else if op == ops.sdr then SdrRecord(code, cap, pos, regs, t)
    else Stop(BadCommand(op), t)
  }

  /** Records from pos until one stops the run; running off the end is a truncated stream. */
  function Run(code: seq<byte>, ops: Opcodes, cap: nat, device: seq<Event> -> bool, pos: nat, regs: Regs,
               t: seq<Event>): (Outcome, seq<Event>)
    requires pos <= |code| && RegsOk(regs, cap)
    decreases |code| - pos
  {
    if pos == |code| then (Rejected(Truncated), t)
    else match Step(code, ops, cap, device, pos, regs, t)
      case Stop(o, t') => (o, t')
      case Next(pos', regs', t') => Run(code, ops, cap, device, pos', regs', t')
  }

  /** parse: reset the TAP, then run the stream from its first byte with the given initial mask. */
  function Play(code: seq<byte>, ops: Opcodes, cap: nat, device: seq<Event> -> bool, mask0: seq<byte>,
                t0: seq<Event>): (Outcome, seq<Event>)
    requires |mask0| == cap
  {
    Run(code, ops, cap, device, 0, Regs(0, 0, mask0), t0 + RESET)
  }

  /** cap zero bytes: the mask before any XTDOMASK. */
  function Zeros(cap: nat): (r: seq<byte>)
    ensures |r| == cap && forall i :: 0 <= i < cap ==> r[i] == 0
  {
    seq(cap, _ => 0)
  }

  // ---------------------------------------------------------------------------
  // What each record reads and drives

  /** XSIR with its operands present: 1 + ceil(numBits/8) operand bytes, one IR shift of those bits. */
  lemma SirRecordShifts(code: seq<byte>, cap: nat, pos: nat, regs: Regs, t: seq<Event>)
    requires pos + 2 <= |code| && RegsOk(regs, cap)
    requires code[pos + 1] >= 1 && BitsToBytes(code[pos + 1]) <= cap
    requires pos + 2 + BitsToBytes(code[pos + 1]) <= |code|
    ensures var numBits := code[pos + 1];
            var n := BitsToBytes(numBits);
            var bits := InBits(Operand(code, pos, 1, n), numBits);
            SirRecord(code, cap, pos, regs, t)
            == Next(pos + 2 + n, regs, t + TO_SHIFT_IR + InOnlyEvents(bits) + EXIT_TO_IDLE + Idle(regs.xruntest))
  {
  }

  /** XSDR with its operands present: ceil(xsdrSize/8) operand bytes, one DR shift of those bits. */
  lemma SdrRecordShifts(code: seq<byte>, cap: nat, pos: nat, regs: Regs, t: seq<Event>)
    requires pos < |code| && RegsOk(regs, cap) && regs.xsdrSize >= 1
    requires pos + 1 + BitsToBytes(regs.xsdrSize) <= |code|
    ensures var n := BitsToBytes(regs.xsdrSize);
            var bits := InBits(Operand(code, pos, 0, n), regs.xsdrSize);
            SdrRecord(code, cap, pos, regs, t)
            == Next(pos + 1 + n, regs, t + TO_SHIFT_DR + InOnlyEvents(bits) + EXIT_TO_IDLE + Idle(regs.xruntest))
  {
  }

  /** XSDRTDO with its size, buffer and operand checks passed: a shift of its operand pairs. */
  lemma SdrTdoRecordShifts(code: seq<byte>, cap: nat, device: seq<Event> -> bool, pos: nat, regs: Regs,
                           t: seq<Event>, n: nat)
    requires pos < |code| && RegsOk(regs, cap) && regs.xsdrSize >= 1 && n == BitsToBytes(regs.xsdrSize)
    requires n <= cap && pos + 1 + 2 * n <= |code|
    ensures SdrTdoRecord(code, cap, device, pos, regs, t)
         == SdrTdoShift(Pairs(code, pos, n), pos, n, regs, device, t)
  {
  }

  // ---------------------------------------------------------------------------
  // The XSDRTDO retry loop, attempt by attempt

  /** The same loop over any attempt function `step`, which maps the pins before an attempt to its outcome. */
  function RetryWith(step: seq<Event> -> Attempt, t: seq<Event>, done: nat): (r: Retried)
    requires done < 32
    ensures done < r.attempts <= 32 && (r.attempts < 32 ==> !r.mismatch)
    decreases 32 - done
  {
    var a := step(t);
    if a.mismatch && done + 1 < 32 then RetryWith(step, a.trace, done + 1)
    else Retried(a.trace, a.got, done + 1, a.mismatch)
  }

  /** The pins after k attempts, each one starting where the one before ended. */
  function AfterTries(step: seq<Event> -> Attempt, t: seq<Event>, k: nat): seq<Event>
  {
    if k == 0 then t else step(AfterTries(step, t, k - 1)).trace
  }

  /** One more attempt takes the pins from where k attempts left them to where k + 1 leave them. */
  lemma AfterOneMore(step: seq<Event> -> Attempt, t: seq<Event>, k: nat)
    ensures AfterTries(step, t, k + 1) == step(AfterTries(step, t, k)).trace
  {
  }

  /** RetryWith from attempt `done` on, described attempt by attempt. */
  lemma {:induction false} RetryWithFrom(step: seq<Event> -> Attempt, t: seq<Event>, done: nat)
    requires done < 32
    ensures var r := RetryWith(step, AfterTries(step, t, done), done);
            r.trace == AfterTries(step, t, r.attempts)
            && r.got == step(AfterTries(step, t, r.attempts - 1)).got
            && r.mismatch == step(AfterTries(step, t, r.attempts - 1)).mismatch
            && forall k :: done <= k < r.attempts - 1 ==> step(AfterTries(step, t, k)).mismatch
    decreases 32 - done
  {
    var a := step(AfterTries(step, t, done));
    AfterOneMore(step, t, done);
    if a.mismatch && done + 1 < 32 {
      RetryWithFrom(step, t, done + 1);
    }
  }

  /** The attempt function of one XSDRTDO record. */
  function TryStep(tdi: seq<byte>, expected: seq<byte>, mask: seq<byte>, size: nat, xruntest: nat,
                   device: seq<Event> -> bool): (step: seq<Event> -> Attempt)
    requires size >= 1 && BitsToBytes(size) <= |tdi| && BitsToBytes(size) <= |expected| && BitsToBytes(size) <= |mask|
  {
    u => TryOnce(u, tdi, expected, mask, size, xruntest, device)
  }

  /** Retry is the loop over TryOnce. */
  lemma {:induction false} RetryIsRetryWith(t: seq<Event>, tdi: seq<byte>, expected: seq<byte>, mask: seq<byte>,
                                            size: nat, xruntest: nat, device: seq<Event> -> bool, done: nat)
    requires size >= 1 && BitsToBytes(size) <= |tdi| && BitsToBytes(size) <= |expected| && BitsToBytes(size) <= |mask|
    requires done < 32
    ensures Retry(t, tdi, expected, mask, size, xruntest, device, done)
         == RetryWith(TryStep(tdi, expected, mask, size, xruntest, device), t, done)
    decreases 32 - done
  {
    var a := TryOnce(t, tdi, expected, mask, size, xruntest, device);
    if a.mismatch && done + 1 < 32 {
      RetryIsRetryWith(a.trace, tdi, expected, mask, size, xruntest, device, done + 1);
    }
  }

  /**
   * The retry loop makes 1 to 32 attempts and stops at the first one whose
   * compare matches; every earlier attempt mismatched. The pins and the bytes
   * read back are those of the last attempt, and so is the verdict: a final
   * mismatch needs all 32 attempts to have mismatched.
   */
  lemma RetryStopsAtFirstMatch(step: seq<Event> -> Attempt, t: seq<Event>)
    ensures var r := RetryWith(step, t, 0);
            1 <= r.attempts <= 32
            && r.trace == AfterTries(step, t, r.attempts)
            && r.got == step(AfterTries(step, t, r.attempts - 1)).got
            && r.mismatch == step(AfterTries(step, t, r.attempts - 1)).mismatch
            && (forall k :: 0 <= k < r.attempts - 1 ==> step(AfterTries(step, t, k)).mismatch)
            && (r.mismatch ==> r.attempts == 32)
  {
    RetryWithFrom(step, t, 0);
  }

  /** With a mask of zeros nothing is compared: the first attempt matches and is the only one. */
  lemma ZeroMaskFirstTry(t: seq<Event>, tdi: seq<byte>, expected: seq<byte>, mask: seq<byte>, size: nat,
                         xruntest: nat, device: seq<Event> -> bool)
    requires size >= 1 && BitsToBytes(size) <= |tdi| && BitsToBytes(size) <= |expected| && BitsToBytes(size) <= |mask|
    requires forall i :: 0 <= i < BitsToBytes(size) ==> mask[i] == 0
    ensures var r := Retry(t, tdi, expected, mask, size, xruntest, device, 0);
            r.attempts == 1 && !r.mismatch
            && r.trace == TryOnce(t, tdi, expected, mask, size, xruntest, device).trace
  {
    var a := TryOnce(t, tdi, expected, mask, size, xruntest, device);
    ZeroMaskMatches(a.got, mask, expected, BitsToBytes(size));
  }

  // ---------------------------------------------------------------------------
  // Decoding: what each record consumes, sets and drives

  /**
   * The number of operand bytes after the opcode at pos, by the formats of
   * the record kinds (0 for XCOMPLETE and for an unknown opcode).
   */
  function OperandLength(code: seq<byte>, ops: Opcodes, pos: nat, regs: Regs): nat
    requires pos < |code|
  {
    var op := code[pos];
    if op == ops.complete then 0
    else if op == ops.tdoMask then BitsToBytes(regs.xsdrSize)
    else if op == ops.runTest then 4
    else if op == ops.sir then (if pos + 1 < |code| then 1 + BitsToBytes(code[pos + 1]) else 1)
    else if op == ops.sdrSize then 4
    else if op == ops.sdrTdo then 2 * BitsToBytes(regs.xsdrSize)
    else if op == ops.sdr then BitsToBytes(regs.xsdrSize)
    else 0
  }

  /**
   * A record that goes on consumes its opcode and exactly its operand bytes;
   * one whose operands run past the end of the stream is refused before it
   * drives any pin, and a truncated record is one that does run past the end.
   */
  lemma StepConsumes(code: seq<byte>, ops: Opcodes, cap: nat, device: seq<Event> -> bool, pos: nat, regs: Regs,
                     t: seq<Event>)
    requires pos < |code| && RegsOk(regs, cap)
    ensures var e := Step(code, ops, cap, device, pos, regs, t);
            e.Next? ==> e.pos == pos + 1 + OperandLength(code, ops, pos, regs)
    ensures var e := Step(code, ops, cap, device, pos, regs, t);
            e.Stop? && e.outcome == Rejected(Truncated) ==> pos + 1 + OperandLength(code, ops, pos, regs) > |code|
    ensures var e := Step(code, ops, cap, device, pos, regs, t);
            pos + 1 + OperandLength(code, ops, pos, regs) > |code| ==> e.Stop? && e.outcome.Rejected? && e.trace == t
  {
    var op := code[pos];
    var e := Step(code, ops, cap, device, pos, regs, t);
    if op == ops.complete {
    } else if op == ops.tdoMask {
      assert e == MaskRecord(code, cap, pos, regs, t);
    } else if op == ops.runTest {
      assert e == RunTestRecord(code, cap, pos, regs, t);
    } else if op == ops.sir {
      assert e == SirRecord(code, cap, pos, regs, t);
    } else if op == ops.sdrSize {
      assert e == SdrSizeRecord(code, cap, pos, regs, t);
    } else if op == ops.sdrTdo {
      assert e == SdrTdoRecord(code, cap, device, pos, regs, t);
    } else if op == ops.sdr {
      assert e == SdrRecord(code, cap, pos, regs, t);
    }
  }

  /**
   * XRUNTEST and XSDRSIZE: the four operand bytes hold the big-endian value
   * that lands in the register, and no pin moves.
   */
  lemma WordRecords(code: seq<byte>, ops: Opcodes, cap: nat, device: seq<Event> -> bool, pos: nat, regs: Regs,
                    t: seq<Event>, v: nat)
    requires Distinct(ops) && RegsOk(regs, cap) && pos + 5 <= |code| && v < WORD
    requires code[pos] == ops.runTest || code[pos] == ops.sdrSize
    requires Operand(code, pos, 0, 4) == Encode32(v)
    ensures Step(code, ops, cap, device, pos, regs, t)
         == Next(pos + 5, if code[pos] == ops.runTest then regs.(xruntest := v) else regs.(xsdrSize := v), t)
  {
    DistinctOpcodes(ops);
    Encode32Decodes(v);
  }

  /**
   * XCOMPLETE ends the run with GJ_SUCCESS, an unknown opcode with GJ_BADCMD;
   * neither drives a pin.
   */
  lemma EndRecords(code: seq<byte>, ops: Opcodes, cap: nat, device: seq<Event> -> bool, pos: nat, regs: Regs,
                   t: seq<Event>)
    requires pos < |code| && RegsOk(regs, cap)
    ensures code[pos] == ops.complete ==>
              Run(code, ops, cap, device, pos, regs, t) == (Complete, t)
              && Status(Run(code, ops, cap, device, pos, regs, t).0) == GJ_SUCCESS
    ensures var op := code[pos];
            op != ops.complete && op != ops.tdoMask && op != ops.runTest && op != ops.sir
            && op != ops.sdrSize && op != ops.sdrTdo && op != ops.sdr ==>
              Run(code, ops, cap, device, pos, regs, t) == (BadCommand(op), t)
              && Status(Run(code, ops, cap, device, pos, regs, t).0) == GJ_BADCMD
  {
  }

  /** Only XTDOMASK changes the mask, and only it, XRUNTEST and XSDRSIZE change a register. */
  lemma StepRegisters(code: seq<byte>, ops: Opcodes, cap: nat, device: seq<Event> -> bool, pos: nat, regs: Regs,
                      t: seq<Event>)
    requires pos < |code| && RegsOk(regs, cap)
    ensures var e := Step(code, ops, cap, device, pos, regs, t);
            e.Next? && code[pos] != ops.tdoMask ==> e.regs.mask == regs.mask
    ensures var e := Step(code, ops, cap, device, pos, regs, t);
            e.Next? && code[pos] != ops.tdoMask && code[pos] != ops.runTest && code[pos] != ops.sdrSize
            ==> e.regs == regs
  {
  }

  /** With distinct opcodes, an XSDRTDO opcode selects the XSDRTDO record. */
  lemma SdrTdoDispatch(code: seq<byte>, ops: Opcodes, cap: nat, device: seq<Event> -> bool, pos: nat, regs: Regs,
                       t: seq<Event>)
    requires Distinct(ops) && pos < |code| && RegsOk(regs, cap) && code[pos] == ops.sdrTdo
    ensures Step(code, ops, cap, device, pos, regs, t) == SdrTdoRecord(code, cap, device, pos, regs, t)
  {
    DistinctOpcodes(ops);
  }

  /**
   * An XTDOMASK or XSDRTDO whose operand is longer than a BUF_SIZE buffer is
   * refused: no store, no pin event.
   */
  lemma OversizeRejected(code: seq<byte>, ops: Opcodes, cap: nat, device: seq<Event> -> bool, pos: nat, regs: Regs,
                         t: seq<Event>)
    requires Distinct(ops) && pos < |code| && RegsOk(regs, cap)
    requires ((code[pos] == ops.tdoMask || code[pos] == ops.sdrTdo) && BitsToBytes(regs.xsdrSize) > cap)
             || (code[pos] == ops.sir && pos + 1 < |code| && code[pos + 1] != 0 && BitsToBytes(code[pos + 1]) > cap)
    ensures Step(code, ops, cap, device, pos, regs, t) == Stop(Rejected(Oversize), t)
  {
    DistinctOpcodes(ops);
    if code[pos] == ops.sdrTdo {
      assert Step(code, ops, cap, device, pos, regs, t) == SdrTdoRecord(code, cap, device, pos, regs, t);
    } else if code[pos] == ops.sir {
      assert Step(code, ops, cap, device, pos, regs, t) == SirRecord(code, cap, pos, regs, t);
    }
  }

  /** A shift of zero bits, by XSIR or by XSDR or XSDRTDO, is refused with no pin event. */
  lemma ZeroLengthRejected(code: seq<byte>, ops: Opcodes, cap: nat, device: seq<Event> -> bool, pos: nat, regs: Regs,
                           t: seq<Event>)
    requires Distinct(ops) && pos < |code| && RegsOk(regs, cap)
    requires (code[pos] == ops.sir && pos + 1 < |code| && code[pos + 1] == 0)
             || ((code[pos] == ops.sdr || code[pos] == ops.sdrTdo) && regs.xsdrSize == 0)
    ensures Step(code, ops, cap, device, pos, regs, t) == Stop(Rejected(ZeroLength), t)
  {
    DistinctOpcodes(ops);
    if code[pos] == ops.sdrTdo {
      assert Step(code, ops, cap, device, pos, regs, t) == SdrTdoRecord(code, cap, device, pos, regs, t);
    }
  }

  /** One attempt only appends to the pins. */
  lemma TryOnceExtends(t: seq<Event>, tdi: seq<byte>, expected: seq<byte>, mask: seq<byte>, size: nat,
                       xruntest: nat, device: seq<Event> -> bool)
    requires size >= 1 && BitsToBytes(size) <= |tdi| && BitsToBytes(size) <= |expected| && BitsToBytes(size) <= |mask|
    ensures t <= TryOnce(t, tdi, expected, mask, size, xruntest, device).trace
  {
    var t1 := t + TO_SHIFT_DR;
    var bits := InBits(tdi, size);
    ShiftInOutAppends(t1, bits, device);
    var u := ShiftInOutTrace(t1, bits, device);
    assert u[..|t|] == t1[..|t|];
  }

  /** The whole retry loop only appends to the pins. */
  lemma {:induction false} RetryExtends(t: seq<Event>, tdi: seq<byte>, expected: seq<byte>, mask: seq<byte>,
                                        size: nat, xruntest: nat, device: seq<Event> -> bool, done: nat)
    requires size >= 1 && BitsToBytes(size) <= |tdi| && BitsToBytes(size) <= |expected| && BitsToBytes(size) <= |mask|
    requires done < 32
    ensures t <= Retry(t, tdi, expected, mask, size, xruntest, device, done).trace
    decreases 32 - done
  {
    var a := TryOnce(t, tdi, expected, mask, size, xruntest, device);
    TryOnceExtends(t, tdi, expected, mask, size, xruntest, device);
    if a.mismatch && done + 1 < 32 {
      RetryExtends(a.trace, tdi, expected, mask, size, xruntest, device, done + 1);
    }
  }

  /** An XSDRTDO record only appends to the pins. */
  lemma SdrTdoExtends(code: seq<byte>, cap: nat, device: seq<Event> -> bool, pos: nat, regs: Regs, t: seq<Event>)
    requires pos < |code| && RegsOk(regs, cap)
    ensures t <= SdrTdoRecord(code, cap, device, pos, regs, t).trace
  {
    var n := BitsToBytes(regs.xsdrSize);
    if regs.xsdrSize != 0 && n <= cap && pos + 1 + 2 * n <= |code| {
      var operands := Pairs(code, pos, n);
      RetryExtends(t, Evens(operands, n), Odds(operands, n), regs.mask, regs.xsdrSize, regs.xruntest, device, 0);
    }
  }

  /** Every record only appends to the pins: what was driven before stays as it was. */
  lemma StepExtends(code: seq<byte>, ops: Opcodes, cap: nat, device: seq<Event> -> bool, pos: nat, regs: Regs,
                    t: seq<Event>)
    requires pos < |code| && RegsOk(regs, cap)
    ensures t <= Step(code, ops, cap, device, pos, regs, t).trace
  {
    var op := code[pos];
    if op == ops.complete || op == ops.tdoMask || op == ops.runTest {
    } else if op == ops.sir {
      assert Step(code, ops, cap, device, pos, regs, t) == SirRecord(code, cap, pos, regs, t);
    } else if op == ops.sdrSize {
    } else if op == ops.sdrTdo {
      SdrTdoExtends(code, cap, device, pos, regs, t);
    } else if op == ops.sdr {
      assert Step(code, ops, cap, device, pos, regs, t) == SdrRecord(code, cap, pos, regs, t);
    }
  }

  /** A run only appends to the pins. */
  lemma {:induction false} RunExtends(code: seq<byte>, ops: Opcodes, cap: nat, device: seq<Event> -> bool, pos: nat,
                                      regs: Regs, t: seq<Event>)
    requires pos <= |code| && RegsOk(regs, cap)
    ensures t <= Run(code, ops, cap, device, pos, regs, t).1
    decreases |code| - pos
  {
    if pos < |code| {
      var e := Step(code, ops, cap, device, pos, regs, t);
      StepExtends(code, ops, cap, device, pos, regs, t);
      if e.Next? {
        RunExtends(code, ops, cap, device, e.pos, e.regs, e.trace);
      }
    }
  }

  /** The six-clock reset comes before every other pin parse drives. */
  lemma PlayStartsWithReset(code: seq<byte>, ops: Opcodes, cap: nat, device: seq<Event> -> bool, mask0: seq<byte>,
                            t0: seq<Event>)
    requires |mask0| == cap
    ensures t0 + RESET <= Play(code, ops, cap, device, mask0, t0).1
  {
    RunExtends(code, ops, cap, device, 0, Regs(0, 0, mask0), t0 + RESET);
  }

  /** Pairs TDI byte i with expected byte i, the layout of XSDRTDO operands. */
  function Interleave(tdi: seq<byte>, expected: seq<byte>): (r: seq<byte>)
    requires |tdi| == |expected|
    ensures |r| == 2 * |tdi|
  {
    seq(2 * |tdi|, i requires 0 <= i < 2 * |tdi| => if i % 2 == 0 then tdi[i / 2] else expected[i / 2])
  }

  /** Splitting interleaved operands gives back the TDI and expected bytes. */
  lemma SplitInterleave(tdi: seq<byte>, expected: seq<byte>)
    requires |tdi| == |expected|
    ensures Evens(Interleave(tdi, expected), |tdi|) == tdi
    ensures Odds(Interleave(tdi, expected), |tdi|) == expected
  {
  }

  /** Interleaving the two halves gives back the operand bytes. */
  lemma InterleaveSplit(s: seq<byte>, n: nat)
    requires |s| == 2 * n
    ensures Interleave(Evens(s, n), Odds(s, n)) == s
  {
    var r := Interleave(Evens(s, n), Odds(s, n));
    forall i | 0 <= i < 2 * n
      ensures r[i] == s[i]
    {
      if i % 2 == 0 {
        assert 2 * (i / 2) == i;
      } else {
        assert 2 * (i / 2) + 1 == i;
      }
    }
  }
}
