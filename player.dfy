/**
 * parse, the CSVF player, as an imperative method over the Port.
 *
 * The four BUF_SIZE byte buffers of parse (tdoMask, tdiData, tdoData,
 * tdoExpected) and the three message buffers are local arrays; XSDR shifts
 * from a freshly allocated buffer, like the malloc'd tdiAll. Each record has
 * its own method, proved to do what the record's function in Csvf says, and
 * Parse is proved to end with exactly the outcome and pin trace of Play.
 */
module Player {
  import opened Bytes
  import opened Pins
  import opened Kernels
  import opened Compare
  import opened Csvf

  /** A record method did what the Effect e says: stopped with its outcome, or moved on to its position. */
  predicate Performs(e: Effect, stop: bool, outcome: Outcome, next: nat, trace: seq<Event>)
  {
    e.trace == trace && (if e.Stop? then stop && outcome == e.outcome else !stop && next == e.pos)
  }

  // ---------------------------------------------------------------------------
  // Operand loads

  /** `while ( numBytes ) { *p++ = *ptr++; numBytes--; }` into the head of buf. */
  method Copy(code: seq<byte>, from: nat, n: nat, buf: array<byte>)
    requires from + n <= |code| && n <= buf.Length
    modifies buf
    ensures buf[..] == code[from..from + n] + old(buf[..])[n..]
  {
    var i := 0;
    while i < n
      invariant i <= n
      invariant forall k :: 0 <= k < i ==> buf[k] == code[from + k]
      invariant forall k :: i <= k < buf.Length ==> buf[k] == old(buf[k])
    {
      buf[i] := code[from + i];
      i := i + 1;
    }
    assert buf[..] == code[from..from + n] + old(buf[..])[n..];
  }

  /** The XSDRTDO operand loop: n (TDI, expected) pairs split into two buffers. */
  method LoadPairs(code: seq<byte>, from: nat, n: nat, tdi: array<byte>, expected: array<byte>)
    requires from + 2 * n <= |code| && n <= tdi.Length && n <= expected.Length && tdi != expected
    modifies tdi, expected
    ensures tdi[..n] == Evens(code[from..from + 2 * n], n) && expected[..n] == Odds(code[from..from + 2 * n], n)
  {
    var i := 0;
    while i < n
      invariant i <= n
      invariant forall k :: 0 <= k < i ==> tdi[k] == code[from + 2 * k] && expected[k] == code[from + 2 * k + 1]
    {
      tdi[i] := code[from + 2 * i];
      expected[i] := code[from + 2 * i + 1];
      i := i + 1;
    }
  }

  /** Four bytes, most significant first, shifted in as `x <<= 8; x |= *ptr++` does. */
  method ReadWord(code: seq<byte>, from: nat) returns (v: nat)
    requires from + 4 <= |code|
    ensures v == BigEndian32(code[from..from + 4]) && v < WORD
  {
    v := code[from];
    v := v * 256 + code[from + 1];
    v := v * 256 + code[from + 2];
    v := v * 256 + code[from + 3];
  }

  // ---------------------------------------------------------------------------
  // Records

  /** XTDOMASK into tdoMask. */
  method MaskStep(code: seq<byte>, cap: nat, pos: nat, ghost regs: Regs, xsdrSize: nat, tdoMask: array<byte>,
                  ghost t: seq<Event>)
    returns (stop: bool, outcome: Outcome, next: nat)
    requires pos < |code| && RegsOk(regs, cap) && regs.xsdrSize == xsdrSize
    requires tdoMask.Length == cap && tdoMask[..] == regs.mask
    modifies tdoMask
    ensures Performs(MaskRecord(code, cap, pos, regs, t), stop, outcome, next, t)
    ensures !stop ==> MaskRecord(code, cap, pos, regs, t).regs == regs.(mask := tdoMask[..])
    ensures stop ==> tdoMask[..] == regs.mask
  {
    var n := BitsToBytes(xsdrSize);
    if n > cap {
      return true, Rejected(Oversize), 0;
    }
    if pos + 1 + n > |code| {
      return true, Rejected(Truncated), 0;
    }
    Copy(code, pos + 1, n, tdoMask);
    assert code[pos + 1..pos + 1 + n] == Operand(code, pos, 0, n);
    return false, Complete, pos + 1 + n;
  }

  /** XRUNTEST and XSDRSIZE: the four-byte operand. */
  method WordStep(code: seq<byte>, pos: nat) returns (stop: bool, outcome: Outcome, next: nat, v: nat)
    requires pos < |code|
    ensures stop <==> pos + 5 > |code|
    ensures stop ==> outcome == Rejected(Truncated)
    ensures !stop ==> next == pos + 5 && v == BigEndian32(Operand(code, pos, 0, 4))
  {
    if pos + 5 > |code| {
      return true, Rejected(Truncated), 0, 0;
    }
    v := ReadWord(code, pos + 1);
    assert code[pos + 1..pos + 1 + 4] == Operand(code, pos, 0, 4);
    return false, Complete, pos + 5, v;
  }

  /** The tail of XSIR and XSDR: shift, return to Run-Test/Idle, idle. */
  method ShiftOnly(port: Port, numBits: nat, buf: array<byte>, xruntest: nat)
    requires numBits >= 1 && BitsToBytes(numBits) <= buf.Length
    modifies port
    ensures port.trace == old(port.trace) + InOnlyEvents(InBits(buf[..], numBits)) + EXIT_TO_IDLE + Idle(xruntest)
  {
    JShiftInOnly(port, numBits, buf);
    ghost var t1 := port.trace;
    JClockFsm(port, 0x1, 2);
    ghost var t2 := port.trace;
    assert t2 == t1 + EXIT_TO_IDLE;
    if xruntest != 0 {
      JClocks(port, xruntest);
    } else {
      assert t2 + [] == t2;
    }
  }

  /** XSIR: shift into the instruction register from tdiData. */
  method SirStep(port: Port, code: seq<byte>, cap: nat, pos: nat, ghost regs: Regs, xruntest: nat,
                 tdiData: array<byte>)
    returns (stop: bool, outcome: Outcome, next: nat)
    requires pos < |code| && RegsOk(regs, cap) && regs.xruntest == xruntest && tdiData.Length == cap
    modifies port, tdiData
    ensures Performs(SirRecord(code, cap, pos, regs, old(port.trace)), stop, outcome, next, port.trace)
  {
    if pos + 2 > |code| {
      return true, Rejected(Truncated), 0;
    }
    var numBits := code[pos + 1];
    var n := BitsToBytes(numBits);
    if numBits == 0 {
      return true, Rejected(ZeroLength), 0;
    }
    if n > cap {
      return true, Rejected(Oversize), 0;
    }
    if pos + 2 + n > |code| {
      return true, Rejected(Truncated), 0;
    }
    ghost var t := port.trace;
    SirRecordShifts(code, cap, pos, regs, t);
    ghost var operand := Operand(code, pos, 1, n);
    ghost var bits := InBits(operand, numBits);
    ghost var e := SirRecord(code, cap, pos, regs, t);
    assert e == Next(pos + 2 + n, regs, t + TO_SHIFT_IR + InOnlyEvents(bits) + EXIT_TO_IDLE + Idle(xruntest));
    JClockFsm(port, 0x3, 4);
    ghost var t1 := port.trace;
    assert t1 == t + TO_SHIFT_IR;
    Copy(code, pos + 2, n, tdiData);
    assert tdiData[..n] == operand;
    InBitsPrefix(tdiData[..], operand, numBits);
    ShiftOnly(port, numBits, tdiData, xruntest);
    assert port.trace == t1 + InOnlyEvents(bits) + EXIT_TO_IDLE + Idle(xruntest);
    return false, Complete, pos + 2 + n;
  }

  /** XSDR: shift into the data register from a fresh buffer. */
  method SdrStep(port: Port, code: seq<byte>, cap: nat, pos: nat, ghost regs: Regs, xsdrSize: nat, xruntest: nat)
    returns (stop: bool, outcome: Outcome, next: nat)
    requires pos < |code| && RegsOk(regs, cap) && regs.xsdrSize == xsdrSize && regs.xruntest == xruntest
    modifies port
    ensures Performs(SdrRecord(code, cap, pos, regs, old(port.trace)), stop, outcome, next, port.trace)
  {
    var n := BitsToBytes(xsdrSize);
    if xsdrSize == 0 {
      return true, Rejected(ZeroLength), 0;
    }
    if pos + 1 + n > |code| {
      return true, Rejected(Truncated), 0;
    }
    ghost var t := port.trace;
    SdrRecordShifts(code, cap, pos, regs, t);
    ghost var operand := Operand(code, pos, 0, n);
    ghost var bits := InBits(operand, xsdrSize);
    ghost var e := SdrRecord(code, cap, pos, regs, t);
    assert e == Next(pos + 1 + n, regs, t + TO_SHIFT_DR + InOnlyEvents(bits) + EXIT_TO_IDLE + Idle(xruntest));
    JClockFsm(port, 0x1, 3);
    ghost var t1 := port.trace;
    assert t1 == t + TO_SHIFT_DR;
    var tdiAll := new byte[n];
    Copy(code, pos + 1, n, tdiAll);
    assert tdiAll[..] == operand;
    ShiftOnly(port, xsdrSize, tdiAll, xruntest);
    assert port.trace == t1 + InOnlyEvents(bits) + EXIT_TO_IDLE + Idle(xruntest);
    return false, Complete, pos + 1 + n;
  }

  /** One XSDRTDO attempt's shift, from Run-Test/Idle back to Run-Test/Idle. */
  method ShiftInOutOnce(port: Port, size: nat, tdiData: array<byte>, tdoData: array<byte>, xruntest: nat)
    requires size >= 1 && BitsToBytes(size) <= tdiData.Length && BitsToBytes(size) <= tdoData.Length
    requires tdiData != tdoData
    modifies port, tdoData
    ensures var t1 := old(port.trace) + TO_SHIFT_DR;
            var bits := InBits(tdiData[..], size);
            port.trace == ShiftInOutTrace(t1, bits, port.device) + PAUSE_TO_IDLE + Idle(xruntest)
            && tdoData[..BitsToBytes(size)] == PackBits(ShiftInOutSamples(t1, bits, port.device))
  {
    JClockFsm(port, 0x1, 3);
    JShiftInOut(port, size, tdiData, tdoData);
    JClockFsm(port, 0x1A, 6);
    if xruntest != 0 {
      JClocks(port, xruntest);
    }
  }

  /** What the arrays of one attempt hold agrees with TryOnce on the operands. */
  lemma AttemptAgrees(before: seq<Event>, after: seq<Event>, tdiBuf: seq<byte>, tdoBuf: seq<byte>,
                      maskBuf: seq<byte>, expBuf: seq<byte>, tdi: seq<byte>, expected: seq<byte>,
                      size: nat, xruntest: nat, device: seq<Event> -> bool, mismatch: bool)
    requires size >= 1 && |tdi| == BitsToBytes(size) && |expected| == BitsToBytes(size)
    requires var n := BitsToBytes(size);
             n <= |tdiBuf| && n <= |tdoBuf| && n <= |maskBuf| && n <= |expBuf|
             && tdiBuf[..n] == tdi && expBuf[..n] == expected
    requires var t1 := before + TO_SHIFT_DR;
             var bits := InBits(tdiBuf, size);
             after == ShiftInOutTrace(t1, bits, device) + PAUSE_TO_IDLE + Idle(xruntest)
             && tdoBuf[..BitsToBytes(size)] == PackBits(ShiftInOutSamples(t1, bits, device))
    requires mismatch == Compare.Mismatch(tdoBuf, maskBuf, expBuf, BitsToBytes(size))
    ensures var a := TryOnce(before, tdi, expected, maskBuf, size, xruntest, device);
            a.trace == after && a.got == tdoBuf[..BitsToBytes(size)] && a.mismatch == mismatch
  {
    var n := BitsToBytes(size);
    assert tdi[..n] == tdi && expected[..n] == expected;
    InBitsPrefix(tdiBuf, tdi, size);
    var a := TryOnce(before, tdi, expected, maskBuf, size, xruntest, device);
    assert a.got == tdoBuf[..n];
    MismatchPrefix(tdoBuf, maskBuf, expBuf, n, a.got, maskBuf, expected);
    assert a.got[..n] == a.got;
  }

  /**
   * The XSDRTDO retry loop, `do { ... i++; } while ( tdoCompare(...) && i < 32 )`,
   * with the verdict taken from the last compare.
   */
  method RetryLoop(port: Port, size: nat, xruntest: nat, tdoMask: array<byte>, tdiData: array<byte>,
                   tdoData: array<byte>, tdoExpected: array<byte>, ghost tdi: seq<byte>, ghost expected: seq<byte>)
    returns (attempts: nat, mismatch: bool)
    requires size >= 1 && |tdi| == BitsToBytes(size) && |expected| == BitsToBytes(size)
    requires var n := BitsToBytes(size);
             n <= tdoMask.Length && n <= tdiData.Length && n <= tdoData.Length && n <= tdoExpected.Length
             && tdiData[..n] == tdi && tdoExpected[..n] == expected
    requires tdoData != tdiData && tdoData != tdoMask && tdoData != tdoExpected
    modifies port, tdoData
    ensures var r := Retry(old(port.trace), tdi, expected, tdoMask[..], size, xruntest, port.device, 0);
            port.trace == r.trace && tdoData[..BitsToBytes(size)] == r.got
            && attempts == r.attempts && mismatch == r.mismatch
  {
    var n := BitsToBytes(size);
    ghost var t0, dev, mask := port.trace, port.device, tdoMask[..];
    var i := 0;
    while true
      invariant i < 32 && dev == port.device && tdoMask[..] == mask
      invariant tdiData[..n] == tdi && tdoExpected[..n] == expected
      invariant Retry(port.trace, tdi, expected, mask, size, xruntest, dev, i)
             == Retry(t0, tdi, expected, mask, size, xruntest, dev, 0)
      decreases 32 - i
    {
      ghost var before := port.trace;
      ShiftInOutOnce(port, size, tdiData, tdoData, xruntest);
      ghost var scanned;
      mismatch, scanned := TdoCompare(tdoData, tdoMask, tdoExpected, n);
      AttemptAgrees(before, port.trace, tdiData[..], tdoData[..], mask, tdoExpected[..], tdi, expected,
                    size, xruntest, dev, mismatch);
      i := i + 1;
      if !(mismatch && i < 32) {
        return i, mismatch;
      }
    }
  }

  /** The three dumps of the mismatch message: got, mask and expected. */
  method DumpMismatch(tdoData: array<byte>, tdoMask: array<byte>, tdoExpected: array<byte>, n: nat,
                      data: array<char>, mask: array<char>, expected: array<char>)
    returns (outcome: Outcome)
    requires n <= tdoData.Length && n <= tdoMask.Length && n <= tdoExpected.Length
    requires 2 * n + 1 <= data.Length && 2 * n + 1 <= mask.Length && 2 * n + 1 <= expected.Length
    requires data != mask && data != expected && mask != expected
    modifies data, mask, expected
    ensures outcome == TdoMismatch(Hex(tdoData[..n]), Hex(tdoMask[..n]), Hex(tdoExpected[..n]))
  {
    DumpSimple(tdoData, n, data);
    DumpSimple(tdoMask, n, mask);
    DumpSimple(tdoExpected, n, expected);
    assert data[..2 * n] == data[..2 * n + 1][..2 * n];
    assert mask[..2 * n] == mask[..2 * n + 1][..2 * n];
    assert expected[..2 * n] == expected[..2 * n + 1][..2 * n];
    return TdoMismatch(data[..2 * n], mask[..2 * n], expected[..2 * n]);
  }

  lemma SdrTdoShiftIsVerdict(operands: seq<byte>, pos: nat, n: nat, regs: Regs, device: seq<Event> -> bool,
                             t: seq<Event>)
    requires regs.xsdrSize >= 1 && n == BitsToBytes(regs.xsdrSize) && n <= |regs.mask| && |operands| == 2 * n
    ensures var r := Retry(t, Evens(operands, n), Odds(operands, n), regs.mask, regs.xsdrSize, regs.xruntest, device, 0);
            SdrTdoShift(operands, pos, n, regs, device, t) == Verdict(r, pos + 1 + 2 * n, regs, n, Odds(operands, n))
  {
  }

  /** The pairs of an XSDRTDO record loaded and retried: the buffers and pins end as Retry says. */
  method LoadAndRetry(port: Port, code: seq<byte>, pos: nat, n: nat, ghost operands: seq<byte>, xsdrSize: nat,
                      xruntest: nat, tdoMask: array<byte>, tdiData: array<byte>, tdoData: array<byte>,
                      tdoExpected: array<byte>)
    returns (mismatch: bool)
    requires xsdrSize >= 1 && n == BitsToBytes(xsdrSize) && pos + 1 + 2 * n <= |code|
    requires operands == Pairs(code, pos, n)
    requires n <= tdoMask.Length && n <= tdiData.Length && n <= tdoData.Length && n <= tdoExpected.Length
    requires tdoMask != tdiData && tdoMask != tdoData && tdoMask != tdoExpected
    requires tdiData != tdoData && tdiData != tdoExpected && tdoData != tdoExpected
    modifies port, tdiData, tdoData, tdoExpected
    ensures var r := Retry(old(port.trace), Evens(operands, n), Odds(operands, n), tdoMask[..], xsdrSize, xruntest,
                           port.device, 0);
            port.trace == r.trace && mismatch == r.mismatch && tdoData[..n] == r.got
            && tdoExpected[..n] == Odds(operands, n)
  {
    LoadPairs(code, pos + 1, n, tdiData, tdoExpected);
    var attempts;
    attempts, mismatch := RetryLoop(port, xsdrSize, xruntest, tdoMask, tdiData, tdoData, tdoExpected,
                                    Evens(operands, n), Odds(operands, n));
  }

  /** XSDRTDO past its checks: load the pairs, retry, and on a final mismatch dump the three buffers. */
  method SdrTdoShiftStep(port: Port, code: seq<byte>, pos: nat, n: nat, ghost operands: seq<byte>, ghost regs: Regs,
                         xsdrSize: nat, xruntest: nat, tdoMask: array<byte>, tdiData: array<byte>,
                         tdoData: array<byte>, tdoExpected: array<byte>, data: array<char>, mask: array<char>,
                         expected: array<char>)
    returns (stop: bool, outcome: Outcome, next: nat)
    requires regs.xsdrSize == xsdrSize && regs.xruntest == xruntest && xsdrSize >= 1
    requires n == BitsToBytes(xsdrSize) && pos + 1 + 2 * n <= |code| && operands == Pairs(code, pos, n)
    requires tdoMask[..] == regs.mask && n <= tdoMask.Length
    requires n <= tdiData.Length && n <= tdoData.Length && n <= tdoExpected.Length
    requires 2 * n + 1 <= data.Length && 2 * n + 1 <= mask.Length && 2 * n + 1 <= expected.Length
    requires tdoMask != tdiData && tdoMask != tdoData && tdoMask != tdoExpected
    requires tdiData != tdoData && tdiData != tdoExpected && tdoData != tdoExpected
    requires data != mask && data != expected && mask != expected
    modifies port, tdiData, tdoData, tdoExpected, data, mask, expected
    ensures Performs(SdrTdoShift(operands, pos, n, regs, port.device, old(port.trace)),
                     stop, outcome, next, port.trace)
  {
    SdrTdoShiftIsVerdict(operands, pos, n, regs, port.device, port.trace);
    var mismatch := LoadAndRetry(port, code, pos, n, operands, xsdrSize, xruntest, tdoMask, tdiData, tdoData,
                                 tdoExpected);
    if mismatch {
      outcome := DumpMismatch(tdoData, tdoMask, tdoExpected, n, data, mask, expected);
      return true, outcome, 0;
    }
    return false, Complete, pos + 1 + 2 * n;
  }

  /** XSDRTDO: the size, buffer and operand checks, then the shift. */
  method SdrTdoStep(port: Port, code: seq<byte>, cap: nat, pos: nat, ghost regs: Regs, xsdrSize: nat,
                    xruntest: nat, tdoMask: array<byte>, tdiData: array<byte>, tdoData: array<byte>,
                    tdoExpected: array<byte>, data: array<char>, mask: array<char>, expected: array<char>)
    returns (stop: bool, outcome: Outcome, next: nat)
    requires pos < |code| && RegsOk(regs, cap) && regs.xsdrSize == xsdrSize && regs.xruntest == xruntest
    requires tdoMask.Length == cap && tdoMask[..] == regs.mask
    requires tdiData.Length == cap && tdoData.Length == cap && tdoExpected.Length == cap
    requires data.Length == 2 * cap + 1 && mask.Length == 2 * cap + 1 && expected.Length == 2 * cap + 1
    requires tdoMask != tdiData && tdoMask != tdoData && tdoMask != tdoExpected
    requires tdiData != tdoData && tdiData != tdoExpected && tdoData != tdoExpected
    requires data != mask && data != expected && mask != expected
    modifies port, tdiData, tdoData, tdoExpected, data, mask, expected
    ensures Performs(SdrTdoRecord(code, cap, port.device, pos, regs, old(port.trace)), stop, outcome, next, port.trace)
  {
    var n := BitsToBytes(xsdrSize);
    if xsdrSize == 0 {
      return true, Rejected(ZeroLength), 0;
    }
    if n > cap {
      return true, Rejected(Oversize), 0;
    }
    if pos + 1 + 2 * n > |code| {
      return true, Rejected(Truncated), 0;
    }
    SdrTdoRecordShifts(code, cap, port.device, pos, regs, port.trace, n);
    stop, outcome, next := SdrTdoShiftStep(port, code, pos, n, Pairs(code, pos, n), regs, xsdrSize,
                                           xruntest, tdoMask, tdiData, tdoData, tdoExpected, data, mask, expected);
  }

  // ---------------------------------------------------------------------------
  // parse

  /** One record of the stream takes the run from pos to where its Effect says. */
  lemma RunUnfolds(code: seq<byte>, ops: Opcodes, cap: nat, device: seq<Event> -> bool, pos: nat, regs: Regs,
                   t: seq<Event>)
    requires pos < |code| && RegsOk(regs, cap)
    ensures var e := Step(code, ops, cap, device, pos, regs, t);
            Run(code, ops, cap, device, pos, regs, t)
            == if e.Stop? then (e.outcome, e.trace) else Run(code, ops, cap, device, e.pos, e.regs, e.trace)
  {
  }

  /** The switch of parse: the record at pos, dispatched on its opcode. */
  method Record(port: Port, code: seq<byte>, ops: Opcodes, cap: nat, pos: nat, xsdrSize: nat, xruntest: nat,
                tdoMask: array<byte>, tdiData: array<byte>, tdoData: array<byte>, tdoExpected: array<byte>,
                data: array<char>, mask: array<char>, expected: array<char>)
    returns (stop: bool, outcome: Outcome, next: nat, xsdrSize': nat, xruntest': nat)
    requires pos < |code| && RegsOk(Regs(xsdrSize, xruntest, tdoMask[..]), cap)
    requires tdoMask.Length == cap && tdiData.Length == cap && tdoData.Length == cap && tdoExpected.Length == cap
    requires data.Length == 2 * cap + 1 && mask.Length == 2 * cap + 1 && expected.Length == 2 * cap + 1
    requires tdoMask != tdiData && tdoMask != tdoData && tdoMask != tdoExpected
    requires tdiData != tdoData && tdiData != tdoExpected && tdoData != tdoExpected
    requires data != mask && data != expected && mask != expected
    modifies port, tdoMask, tdiData, tdoData, tdoExpected, data, mask, expected
    ensures var e := Step(code, ops, cap, port.device, pos, Regs(xsdrSize, xruntest, old(tdoMask[..])), old(port.trace));
            Performs(e, stop, outcome, next, port.trace) && (!stop ==> e.regs == Regs(xsdrSize', xruntest', tdoMask[..]))
  {
    ghost var regs, t := Regs(xsdrSize, xruntest, tdoMask[..]), port.trace;
    xsdrSize', xruntest' := xsdrSize, xruntest;
    var op := code[pos];
    if op == ops.complete {
      return true, Complete, 0, xsdrSize', xruntest';
    } else if op == ops.tdoMask {
      stop, outcome, next := MaskStep(code, cap, pos, regs, xsdrSize, tdoMask, t);
    } else if op == ops.runTest {
      var v;
      stop, outcome, next, v := WordStep(code, pos);
      if !stop {
        xruntest' := v;
      }
    } else if op == ops.sir {
      stop, outcome, next := SirStep(port, code, cap, pos, regs, xruntest, tdiData);
    } else if op == ops.sdrSize {
      var v;
      stop, outcome, next, v := WordStep(code, pos);
      if !stop {
        xsdrSize' := v;
      }
    } else if op == ops.sdrTdo {
      stop, outcome, next := SdrTdoStep(port, code, cap, pos, regs, xsdrSize, xruntest, tdoMask, tdiData,
                                        tdoData, tdoExpected, data, mask, expected);
    } else if op == ops.sdr {
      stop, outcome, next := SdrStep(port, code, cap, pos, regs, xsdrSize, xruntest);
    } else {
      return true, BadCommand(op), 0, xsdrSize', xruntest';
    }
  }

  /**
   * parse, from the reset to the end of the stream. The returned outcome and
   * the pins driven are those of Play with a zero-filled initial mask.
   */
  method Parse(code: seq<byte>, ops: Opcodes, cap: nat, port: Port) returns (outcome: Outcome)
    modifies port
    ensures (outcome, port.trace) == Play(code, ops, cap, port.device, Zeros(cap), old(port.trace))
  {
    var xsdrSize, xruntest := 0, 0;
    var tdoMask := new byte[cap](_ => 0);
    var tdiData := new byte[cap];
    var tdoData := new byte[cap];
    var tdoExpected := new byte[cap];
    var data := new char[2 * cap + 1];
    var mask := new char[2 * cap + 1];
    var expected := new char[2 * cap + 1];
    ghost var dev := port.device;
    ghost var final := Play(code, ops, cap, dev, Zeros(cap), port.trace);
    assert tdoMask[..] == Zeros(cap);
    JClockFsm(port, 0x1F, 6);
    var ptr := 0;
    while true
      invariant ptr <= |code| && dev == port.device
      invariant RegsOk(Regs(xsdrSize, xruntest, tdoMask[..]), cap)
      invariant Run(code, ops, cap, dev, ptr, Regs(xsdrSize, xruntest, tdoMask[..]), port.trace) == final
      decreases |code| - ptr
    {
      if ptr == |code| {
        return Rejected(Truncated);
      }
      RunUnfolds(code, ops, cap, dev, ptr, Regs(xsdrSize, xruntest, tdoMask[..]), port.trace);
      var stop, next;
      stop, outcome, next, xsdrSize, xruntest := Record(port, code, ops, cap, ptr, xsdrSize, xruntest, tdoMask,
                                                        tdiData, tdoData, tdoExpected, data, mask, expected);
      if stop {
        return outcome;
      }
      ptr := next;
    }
  }
}
