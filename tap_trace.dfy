// The TAP controller as the pin events drive it.
//
// The controller of the device on the other end of the cable samples TMS at
// each rising edge of TCK and moves one step through its sixteen states
// (see Tap.Next); TDI, TDO and falling edges do not move it. Following a
// trace of pin events from some controller state therefore tells which TAP
// state every clock edge of a record was taken in. The lemmas below use this
// to show that each shifting record enters the right shift state, takes every
// one of its data edges there, leaves through Exit1 on its last bit and
// returns to Run-Test/Idle, and that parse leaves the TAP in Run-Test/Idle
// whatever state it found it in.

module TapTrace {
  import opened Bytes
  import opened Pins
  import opened Tap
  import opened Kernels
  import opened Csvf

  /** The controller as the pins leave it: its state, and the TMS level its next rising edge samples. */
  datatype Ctl = Ctl(state: TapState, tms: bool)

  /** One pin event: TMS sets the level, a rising TCK edge steps the state, anything else changes nothing. */
  function Apply(c: Ctl, e: Event): Ctl
  {
    match e
    case Tms(l) => c.(tms := l)
    case Tck(l) => if l then c.(state := Tap.Next(c.state, c.tms)) else c
    case Tdi(_) => c
    case Tdo(_) => c
  }

  /** The controller after every event of es, in order. */
  function Track(c: Ctl, es: seq<Event>): Ctl
  {
    if es == [] then c else Apply(Track(c, es[..|es| - 1]), es[|es| - 1])
  }

  /** The state each rising TCK edge of es is taken in, in order. */
  function Edges(c: Ctl, es: seq<Event>): seq<TapState>
  {
    if es == [] then []
    else
      var before := es[..|es| - 1];
      Edges(c, before) + (if es[|es| - 1] == Tck(true) then [Track(c, before).state] else [])
  }

  /** n edges, all taken in state s. */
  function Held(s: TapState, n: nat): (r: seq<TapState>)
    ensures |r| == n && forall i :: 0 <= i < n ==> r[i] == s
  {
    seq(n, _ => s)
  }

  // ---------------------------------------------------------------------------
  // Following a trace piece by piece

  /** Following a + b is following a, then b from where a left the controller; so are the edges. */
  lemma {:induction false} TrackConcat(c: Ctl, a: seq<Event>, b: seq<Event>)
    ensures Track(c, a + b) == Track(Track(c, a), b)
    ensures Edges(c, a + b) == Edges(c, a) + Edges(Track(c, a), b)
    decreases |b|
  {
    if b == [] {
      assert a + b == a;
    } else {
      var b' := b[..|b| - 1];
      var e := b[|b| - 1];
      assert (a + b)[..|a + b| - 1] == a + b' && (a + b)[|a + b| - 1] == e;
      TrackConcat(c, a, b');
    }
  }

  /** The three events of a single step, followed directly. */
  lemma TrackThree(c: Ctl, x: Event, y: Event, z: Event)
    ensures Track(c, [x, y, z]) == Apply(Apply(Apply(c, x), y), z)
    ensures Edges(c, [x, y, z])
         == (if x == Tck(true) then [c.state] else [])
            + (if y == Tck(true) then [Apply(c, x).state] else [])
            + (if z == Tck(true) then [Apply(Apply(c, x), y).state] else [])
  {
    var one, two, three := [x], [x, y], [x, y, z];
    assert three[..2] == two && two[..1] == one && one[..0] == [];
    assert Track(c, one) == Apply(c, x) && Edges(c, one) == (if x == Tck(true) then [c.state] else []);
    assert Track(c, two) == Apply(Track(c, one), y);
    assert Edges(c, two) == Edges(c, one) + (if y == Tck(true) then [Track(c, one).state] else []);
    assert Track(c, three) == Apply(Track(c, two), z);
    assert Edges(c, three) == Edges(c, two) + (if z == Tck(true) then [Track(c, two).state] else []);
  }

  /** One level of jClockFSM: TMS set, then one edge taken where the controller was. */
  lemma TrackTmsStep(c: Ctl, x: bool)
    ensures Track(c, [Tms(x), Tck(true), Tck(false)]) == Ctl(Tap.Next(c.state, x), x)
    ensures |Edges(c, [Tms(x), Tck(true), Tck(false)])| == 1
  {
    TrackThree(c, Tms(x), Tck(true), Tck(false));
  }

  /**
   * jClockFSM's events walk the controller along its TMS levels, one edge
   * per level; the last level is left on TMS.
   */
  lemma {:induction false} TrackFsm(c: Ctl, tms: seq<bool>)
    ensures Track(c, FsmEvents(tms)).state == Walk(c.state, tms)
    ensures tms != [] ==> Track(c, FsmEvents(tms)).tms == tms[|tms| - 1]
    ensures |Edges(c, FsmEvents(tms))| == |tms|
    decreases |tms|
  {
    if tms != [] {
      var init := tms[..|tms| - 1];
      var x := tms[|tms| - 1];
      var three := [Tms(x), Tck(true), Tck(false)];
      TrackFsm(c, init);
      assert FsmEvents(tms) == FsmEvents(init) + three;
      TrackConcat(c, FsmEvents(init), three);
      TrackTmsStep(Track(c, FsmEvents(init)), x);
      assert tms == init + [x];
      WalkSplit(c.state, init, [x]);
    }
  }

  /** One more edge in a state that TMS holds. */
  lemma HeldSnoc(s: TapState, n: nat)
    ensures Held(s, n) + [s] == Held(s, n + 1)
  {
  }

  /** One TDI bit clocked where TMS holds the controller: one edge there, and nothing moves. */
  lemma TrackTdiStep(c: Ctl, x: bool)
    requires Tap.Next(c.state, c.tms) == c.state
    ensures Track(c, [Tdi(x), Tck(true), Tck(false)]) == c
    ensures Edges(c, [Tdi(x), Tck(true), Tck(false)]) == [c.state]
  {
    TrackThree(c, Tdi(x), Tck(true), Tck(false));
  }

  /** Clocking bits on TDI leaves a controller that its TMS level holds in place where it is, one edge per bit. */
  lemma {:induction false} TrackBody(c: Ctl, bits: seq<bool>)
    requires Tap.Next(c.state, c.tms) == c.state
    ensures Track(c, InOnlyBody(bits)) == c
    ensures Edges(c, InOnlyBody(bits)) == Held(c.state, |bits|)
    decreases |bits|
  {
    if bits != [] {
      var init := bits[..|bits| - 1];
      var x := bits[|bits| - 1];
      var three := [Tdi(x), Tck(true), Tck(false)];
      TrackBody(c, init);
      assert InOnlyBody(bits) == InOnlyBody(init) + three;
      TrackConcat(c, InOnlyBody(init), three);
      TrackTdiStep(c, x);
      HeldSnoc(c.state, |init|);
    }
  }

  /** One idle clock where TMS holds the controller: one edge there, and nothing moves. */
  lemma TrackPulse(c: Ctl)
    requires Tap.Next(c.state, c.tms) == c.state
    ensures Track(c, [Tck(true), Tck(false)]) == c
    ensures Edges(c, [Tck(true), Tck(false)]) == [c.state]
  {
    assert [Tck(true), Tck(false)][..1] == [Tck(true)] && [Tck(true)][..0] == [];
  }

  /** Idle clocks leave the controller where its TMS level holds it, one edge per clock. */
  lemma {:induction false} TrackClocks(c: Ctl, n: nat)
    requires Tap.Next(c.state, c.tms) == c.state
    ensures Track(c, ClockEvents(n)) == c
    ensures Edges(c, ClockEvents(n)) == Held(c.state, n)
  {
    if n != 0 {
      TrackClocks(c, n - 1);
      assert ClockEvents(n) == ClockEvents(n - 1) + [Tck(true), Tck(false)];
      TrackConcat(c, ClockEvents(n - 1), [Tck(true), Tck(false)]);
      TrackPulse(c);
      HeldSnoc(c.state, n - 1);
    }
  }

  /** The last bit of a shift: TMS raised, the bit on TDI, one edge taken where the controller was. */
  lemma TrackLastBit(c: Ctl, x: bool)
    ensures Track(c, [Tms(true)] + [Tdi(x), Tck(true), Tck(false)]) == Ctl(Tap.Next(c.state, true), true)
    ensures Edges(c, [Tms(true)] + [Tdi(x), Tck(true), Tck(false)]) == [c.state]
  {
    var c' := c.(tms := true);
    TrackConcat(c, [Tms(true)], [Tdi(x), Tck(true), Tck(false)]);
    assert Track(c, [Tms(true)]) == c' && Edges(c, [Tms(true)]) == [] by {
      assert [Tms(true)][..0] == [];
    }
    TrackThree(c', Tdi(x), Tck(true), Tck(false));
  }

  /**
   * A shift without sampling, from a state that TMS low holds (Shift-IR or
   * Shift-DR) with TMS low: every one of its edges is taken in that state,
   * and the last one, with TMS now high, leaves it as TMS high does.
   */
  lemma ShiftWalk(c: Ctl, bits: seq<bool>)
    requires |bits| >= 1 && c.tms == false && Tap.Next(c.state, false) == c.state
    ensures Edges(c, InOnlyEvents(bits)) == Held(c.state, |bits|)
    ensures Track(c, InOnlyEvents(bits)) == Ctl(Tap.Next(c.state, true), true)
  {
    var init := bits[..|bits| - 1];
    var x := bits[|bits| - 1];
    var tail := [Tms(true)] + [Tdi(x), Tck(true), Tck(false)];
    TrackBody(c, init);
    assert InOnlyBody(bits[|bits| - 1..]) == [Tdi(x), Tck(true), Tck(false)] by {
      assert bits[|bits| - 1..] == [x] && [x][..0] == [];
    }
    assert InOnlyEvents(bits) == InOnlyBody(init) + tail;
    TrackConcat(c, InOnlyBody(init), tail);
    TrackLastBit(c, x);
    HeldSnoc(c.state, |init|);
  }

  /** Following only what the adapter drives gives the same controller and edges: TDO is an input. */
  lemma {:induction false} TrackDriven(c: Ctl, es: seq<Event>)
    ensures Track(c, Driven(es)) == Track(c, es)
    ensures Edges(c, Driven(es)) == Edges(c, es)
    decreases |es|
  {
    if es != [] {
      var e := es[0];
      var head := if e.Tdo? then [] else [e];
      assert es == [e] + es[1..];
      TrackConcat(c, [e], es[1..]);
      TrackConcat(c, head, Driven(es[1..]));
      assert [e][..0] == [];
      assert Track(c, head) == Track(c, [e]) && Edges(c, head) == Edges(c, [e]);
      TrackDriven(Track(c, [e]), es[1..]);
    }
  }

  /** A fixed TMS walk from state s, as parse writes them: where it ends and the TMS level it leaves. */
  lemma WalkFrom(c: Ctl, pattern: nat, count: nat)
    requires count >= 1
    ensures Track(c, FsmEvents(TmsBits(pattern, count)))
         == Ctl(Walk(c.state, TmsBits(pattern, count)), Bit(pattern, count - 1))
  {
    TrackFsm(c, TmsBits(pattern, count));
  }

  // ---------------------------------------------------------------------------
  // Records

  /** Idle clocks in Run-Test/Idle with TMS low stay there. */
  lemma IdleStays(x: nat)
    ensures Track(Ctl(RunTestIdle, false), Idle(x)) == Ctl(RunTestIdle, false)
  {
    if x != 0 {
      TrackClocks(Ctl(RunTestIdle, false), x);
    }
  }

  /** From Exit1-IR or Exit1-DR, the exit walk of XSIR and XSDR and the idle clocks end in Run-Test/Idle. */
  lemma ExitThenIdle(c: Ctl, x: nat)
    requires c.state == Exit1Ir || c.state == Exit1Dr
    ensures Track(c, EXIT_TO_IDLE + Idle(x)) == Ctl(RunTestIdle, false)
  {
    WalkFrom(c, 0x1, 2);
    Exit1ToIdle();
    TrackConcat(c, EXIT_TO_IDLE, Idle(x));
    IdleStays(x);
  }

  /** The walk of XSIR from Run-Test/Idle reaches Shift-IR with TMS low. */
  lemma EnterIr(c: Ctl, t: seq<Event>)
    requires Track(c, t).state == RunTestIdle
    ensures Track(c, t + TO_SHIFT_IR) == Ctl(ShiftIr, false)
  {
    TrackConcat(c, t, TO_SHIFT_IR);
    WalkFrom(Track(c, t), 0x3, 4);
    EnterShiftIr();
    assert !Bit(0x3, 3);
  }

  /**
   * The shift, exit walk and idle clocks of XSIR and XSDR, once the walk in
   * has left the controller in Shift-IR or Shift-DR with TMS low.
   */
  lemma ShiftExitIdle(c: Ctl, enter: seq<Event>, bits: seq<bool>, x: nat)
    requires |bits| >= 1 && (Track(c, enter) == Ctl(ShiftIr, false) || Track(c, enter) == Ctl(ShiftDr, false))
    ensures Edges(Track(c, enter), InOnlyEvents(bits)) == Held(Track(c, enter).state, |bits|)
    ensures Track(c, enter + InOnlyEvents(bits))
         == Ctl(if Track(c, enter).state == ShiftIr then Exit1Ir else Exit1Dr, true)
    ensures Track(c, enter + InOnlyEvents(bits) + EXIT_TO_IDLE + Idle(x)) == Ctl(RunTestIdle, false)
  {
    var shifted := enter + InOnlyEvents(bits);
    TrackConcat(c, enter, InOnlyEvents(bits));
    ShiftWalk(Track(c, enter), bits);
    assert shifted + EXIT_TO_IDLE + Idle(x) == shifted + (EXIT_TO_IDLE + Idle(x));
    TrackConcat(c, shifted, EXIT_TO_IDLE + Idle(x));
    ExitThenIdle(Track(c, shifted), x);
  }

  /**
   * An XSIR record that goes on, started with the TAP in Run-Test/Idle:
   * its TMS walk reaches Shift-IR with TMS low, each of its numBits data
   * edges is taken in Shift-IR, the last one moves to Exit1-IR, and the
   * record ends in Run-Test/Idle with TMS low.
   */
  lemma SirRecordWalk(code: seq<byte>, cap: nat, pos: nat, regs: Regs, t: seq<Event>, c: Ctl)
    requires pos < |code| && RegsOk(regs, cap) && Track(c, t).state == RunTestIdle
    ensures var r := SirRecord(code, cap, pos, regs, t);
            r.Next? ==>
              var numBits := code[pos + 1];
              var bits := InBits(Operand(code, pos, 1, BitsToBytes(numBits)), numBits);
              var enter := t + TO_SHIFT_IR;
              var shifted := enter + InOnlyEvents(bits);
              r.trace == shifted + EXIT_TO_IDLE + Idle(regs.xruntest)
              && Track(c, enter) == Ctl(ShiftIr, false)
              && Edges(Track(c, enter), InOnlyEvents(bits)) == Held(ShiftIr, numBits)
              && Track(c, shifted) == Ctl(Exit1Ir, true)
              && Track(c, r.trace) == Ctl(RunTestIdle, false)
  {
    var r := SirRecord(code, cap, pos, regs, t);
    if r.Next? {
      var numBits := code[pos + 1];
      var bits := InBits(Operand(code, pos, 1, BitsToBytes(numBits)), numBits);
      SirRecordShifts(code, cap, pos, regs, t);
      EnterIr(c, t);
      ShiftExitIdle(c, t + TO_SHIFT_IR, bits, regs.xruntest);
    }
  }

  /**
   * An XSDR record that goes on, started with the TAP in Run-Test/Idle:
   * it reaches Shift-DR with TMS low, takes each of its xsdrSize data edges
   * in Shift-DR, the last one to Exit1-DR, and ends in Run-Test/Idle.
   */
  lemma SdrRecordWalk(code: seq<byte>, cap: nat, pos: nat, regs: Regs, t: seq<Event>, c: Ctl)
    requires pos < |code| && RegsOk(regs, cap) && Track(c, t).state == RunTestIdle
    ensures var r := SdrRecord(code, cap, pos, regs, t);
            r.Next? ==>
              var bits := InBits(Operand(code, pos, 0, BitsToBytes(regs.xsdrSize)), regs.xsdrSize);
              var enter := t + TO_SHIFT_DR;
              var shifted := enter + InOnlyEvents(bits);
              r.trace == shifted + EXIT_TO_IDLE + Idle(regs.xruntest)
              && Track(c, enter) == Ctl(ShiftDr, false)
              && Edges(Track(c, enter), InOnlyEvents(bits)) == Held(ShiftDr, regs.xsdrSize)
              && Track(c, shifted) == Ctl(Exit1Dr, true)
              && Track(c, r.trace) == Ctl(RunTestIdle, false)
  {
    var r := SdrRecord(code, cap, pos, regs, t);
    if r.Next? {
      var bits := InBits(Operand(code, pos, 0, BitsToBytes(regs.xsdrSize)), regs.xsdrSize);
      SdrRecordShifts(code, cap, pos, regs, t);
      EnterDr(c, t);
      ShiftExitIdle(c, t + TO_SHIFT_DR, bits, regs.xruntest);
    }
  }

  /** The walk of XSDR and XSDRTDO from Run-Test/Idle reaches Shift-DR with TMS low. */
  lemma EnterDr(c: Ctl, t: seq<Event>)
    requires Track(c, t).state == RunTestIdle
    ensures Track(c, t + TO_SHIFT_DR) == Ctl(ShiftDr, false)
  {
    TrackConcat(c, t, TO_SHIFT_DR);
    WalkFrom(Track(c, t), 0x1, 3);
    EnterShiftDr();
  }

  /** From Exit1-DR, the Pause-DR walk of XSDRTDO and the idle clocks end in Run-Test/Idle with TMS low. */
  lemma PauseThenIdle(c: Ctl, x: nat)
    requires c.state == Exit1Dr
    ensures Track(c, PAUSE_TO_IDLE + Idle(x)) == Ctl(RunTestIdle, false)
  {
    WalkFrom(c, 0x1A, 6);
    PauseExitToIdle();
    assert !Bit(0x1A, 5);
    TrackConcat(c, PAUSE_TO_IDLE, Idle(x));
    IdleStays(x);
  }

  /**
   * A sampled shift from Shift-DR with TMS low takes each of its edges in
   * Shift-DR, the last one to Exit1-DR; the TDO samples move nothing.
   */
  lemma SampledShiftWalk(c: Ctl, enter: seq<Event>, bits: seq<bool>, device: seq<Event> -> bool)
    requires |bits| >= 1 && Track(c, enter) == Ctl(ShiftDr, false)
    ensures var shifted := ShiftInOutTrace(enter, bits, device);
            |enter| <= |shifted| && shifted[..|enter|] == enter
            && Edges(Track(c, enter), shifted[|enter|..]) == Held(ShiftDr, |bits|)
            && Track(c, shifted) == Ctl(Exit1Dr, true)
  {
    var shifted := ShiftInOutTrace(enter, bits, device);
    ShiftInOutAppends(enter, bits, device);
    var body := shifted[|enter|..];
    assert shifted == enter + body;
    TrackConcat(c, enter, body);
    TrackDriven(Track(c, enter), body);
    ShiftWalk(Track(c, enter), bits);
  }

  /**
   * One XSDRTDO attempt started in Run-Test/Idle: it reaches Shift-DR with
   * TMS low, takes each of its size sampled data edges in Shift-DR, the last
   * one to Exit1-DR, and its Pause-DR walk and idle clocks end in
   * Run-Test/Idle with TMS low.
   */
  lemma TryOnceWalk(t: seq<Event>, tdi: seq<byte>, expected: seq<byte>, mask: seq<byte>, size: nat,
                    xruntest: nat, device: seq<Event> -> bool, c: Ctl)
    requires size >= 1 && BitsToBytes(size) <= |tdi| && BitsToBytes(size) <= |expected| && BitsToBytes(size) <= |mask|
    requires Track(c, t).state == RunTestIdle
    ensures var enter := t + TO_SHIFT_DR;
            var shifted := ShiftInOutTrace(enter, InBits(tdi, size), device);
            |enter| <= |shifted| && shifted[..|enter|] == enter
            && TryOnce(t, tdi, expected, mask, size, xruntest, device).trace == shifted + PAUSE_TO_IDLE + Idle(xruntest)
            && Track(c, enter) == Ctl(ShiftDr, false)
            && Edges(Track(c, enter), shifted[|enter|..]) == Held(ShiftDr, size)
            && Track(c, shifted) == Ctl(Exit1Dr, true)
            && Track(c, TryOnce(t, tdi, expected, mask, size, xruntest, device).trace) == Ctl(RunTestIdle, false)
  {
    var enter := t + TO_SHIFT_DR;
    var shifted := ShiftInOutTrace(enter, InBits(tdi, size), device);
    var a := TryOnce(t, tdi, expected, mask, size, xruntest, device);
    EnterDr(c, t);
    SampledShiftWalk(c, enter, InBits(tdi, size), device);
    assert a.trace == shifted + (PAUSE_TO_IDLE + Idle(xruntest));
    TrackConcat(c, shifted, PAUSE_TO_IDLE + Idle(xruntest));
    PauseThenIdle(Track(c, shifted), xruntest);
  }

  /** One XSDRTDO attempt started in Run-Test/Idle ends there. */
  lemma TryOnceEndsIdle(t: seq<Event>, tdi: seq<byte>, expected: seq<byte>, mask: seq<byte>, size: nat,
                        xruntest: nat, device: seq<Event> -> bool, c: Ctl)
    requires size >= 1 && BitsToBytes(size) <= |tdi| && BitsToBytes(size) <= |expected| && BitsToBytes(size) <= |mask|
    requires Track(c, t).state == RunTestIdle
    ensures Track(c, TryOnce(t, tdi, expected, mask, size, xruntest, device).trace).state == RunTestIdle
  {
    TryOnceWalk(t, tdi, expected, mask, size, xruntest, device, c);
  }

  /** Attempts that each end in Run-Test/Idle when started there all start there. */
  lemma {:induction false} AttemptsStartIdle(step: seq<Event> -> Attempt, t: seq<Event>, c: Ctl, k: nat)
    requires Track(c, t).state == RunTestIdle
    requires forall u :: Track(c, u).state == RunTestIdle ==> Track(c, step(u).trace).state == RunTestIdle
    ensures Track(c, AfterTries(step, t, k)).state == RunTestIdle
  {
    if k != 0 {
      AttemptsStartIdle(step, t, c, k - 1);
    }
  }

  /**
   * An XSDRTDO record started in Run-Test/Idle: each of its attempts starts
   * in Run-Test/Idle (so each one shifts in Shift-DR, by TryOnceWalk), and
   * the record ends there, whether it goes on or stops on a mismatch.
   */
  lemma SdrTdoRecordWalk(code: seq<byte>, cap: nat, device: seq<Event> -> bool, pos: nat, regs: Regs,
                         t: seq<Event>, c: Ctl)
    requires pos < |code| && RegsOk(regs, cap) && Track(c, t).state == RunTestIdle
    ensures var n := BitsToBytes(regs.xsdrSize);
            regs.xsdrSize >= 1 && n <= cap && pos + 1 + 2 * n <= |code| ==>
              var operands := Pairs(code, pos, n);
              var step := TryStep(Evens(operands, n), Odds(operands, n), regs.mask, regs.xsdrSize, regs.xruntest, device);
              var r := Retry(t, Evens(operands, n), Odds(operands, n), regs.mask, regs.xsdrSize, regs.xruntest, device, 0);
              forall k :: 0 <= k < r.attempts ==> Track(c, AfterTries(step, t, k)).state == RunTestIdle
    ensures Track(c, SdrTdoRecord(code, cap, device, pos, regs, t).trace).state == RunTestIdle
  {
    var n := BitsToBytes(regs.xsdrSize);
    if regs.xsdrSize >= 1 && n <= cap && pos + 1 + 2 * n <= |code| {
      var operands := Pairs(code, pos, n);
      var tdi, expected := Evens(operands, n), Odds(operands, n);
      var step := TryStep(tdi, expected, regs.mask, regs.xsdrSize, regs.xruntest, device);
      var r := Retry(t, tdi, expected, regs.mask, regs.xsdrSize, regs.xruntest, device, 0);
      SdrTdoRecordShifts(code, cap, device, pos, regs, t, n);
      RetryIsRetryWith(t, tdi, expected, regs.mask, regs.xsdrSize, regs.xruntest, device, 0);
      RetryStopsAtFirstMatch(step, t);
      forall u | Track(c, u).state == RunTestIdle
        ensures Track(c, step(u).trace).state == RunTestIdle
      {
        TryOnceEndsIdle(u, tdi, expected, regs.mask, regs.xsdrSize, regs.xruntest, device, c);
      }
      forall k | 0 <= k < r.attempts
        ensures Track(c, AfterTries(step, t, k)).state == RunTestIdle
      {
        AttemptsStartIdle(step, t, c, k);
      }
      AttemptsStartIdle(step, t, c, r.attempts);
    }
  }

  /** Every record started in Run-Test/Idle leaves the TAP in Run-Test/Idle, whether it goes on or stops. */
  lemma StepKeepsIdle(code: seq<byte>, ops: Opcodes, cap: nat, device: seq<Event> -> bool, pos: nat, regs: Regs,
                      t: seq<Event>, c: Ctl)
    requires pos < |code| && RegsOk(regs, cap) && Track(c, t).state == RunTestIdle
    ensures Track(c, Step(code, ops, cap, device, pos, regs, t).trace).state == RunTestIdle
  {
    var op := code[pos];
    var e := Step(code, ops, cap, device, pos, regs, t);
    if op == ops.complete {
    } else if op == ops.tdoMask {
      assert e == MaskRecord(code, cap, pos, regs, t);
    } else if op == ops.runTest {
      assert e == RunTestRecord(code, cap, pos, regs, t);
    } else if op == ops.sir {
      assert e == SirRecord(code, cap, pos, regs, t);
      SirRecordWalk(code, cap, pos, regs, t, c);
    } else if op == ops.sdrSize {
      assert e == SdrSizeRecord(code, cap, pos, regs, t);
    } else if op == ops.sdrTdo {
      assert e == SdrTdoRecord(code, cap, device, pos, regs, t);
      SdrTdoRecordWalk(code, cap, device, pos, regs, t, c);
    } else if op == ops.sdr {
      assert e == SdrRecord(code, cap, pos, regs, t);
      SdrRecordWalk(code, cap, pos, regs, t, c);
    }
  }

  /** A run started in Run-Test/Idle ends in Run-Test/Idle, however it ends. */
  lemma {:induction false} RunKeepsIdle(code: seq<byte>, ops: Opcodes, cap: nat, device: seq<Event> -> bool, pos: nat,
                                        regs: Regs, t: seq<Event>, c: Ctl)
    requires pos <= |code| && RegsOk(regs, cap) && Track(c, t).state == RunTestIdle
    ensures Track(c, Run(code, ops, cap, device, pos, regs, t).1).state == RunTestIdle
    decreases |code| - pos
  {
    if pos < |code| {
      StepKeepsIdle(code, ops, cap, device, pos, regs, t, c);
      var e := Step(code, ops, cap, device, pos, regs, t);
      if e.Next? {
        RunKeepsIdle(code, ops, cap, device, e.pos, e.regs, e.trace, c);
      }
    }
  }

  /**
   * parse leaves the TAP in Run-Test/Idle whatever state the controller was
   * in before, and whether the stream completes, is refused or mismatches:
   * its reset walk gets there from any state and every record returns there.
   */
  lemma PlayEndsIdle(code: seq<byte>, ops: Opcodes, cap: nat, device: seq<Event> -> bool, mask0: seq<byte>,
                     t0: seq<Event>, c: Ctl)
    requires |mask0| == cap
    ensures Track(c, Play(code, ops, cap, device, mask0, t0).1).state == RunTestIdle
  {
    TrackConcat(c, t0, RESET);
    WalkFrom(Track(c, t0), 0x1F, 6);
    ResetReachesIdle(Track(c, t0).state);
    RunKeepsIdle(code, ops, cap, device, 0, Regs(0, 0, mask0), t0 + RESET, c);
  }
}
