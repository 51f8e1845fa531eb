/**
 * The TAP controller state diagram of IEEE Std 1149.1 (clause 6): sixteen
 * states, one transition per rising TCK edge, chosen by the level on TMS.
 *
 * libgpiojtag never tracks this state; it clocks fixed TMS patterns whose
 * destination is stated only in comments. The lemmas below check those
 * comments against the diagram.
 */
module Tap {
  import opened Bytes

  datatype TapState =
    | TestLogicReset | RunTestIdle
    | SelectDrScan | CaptureDr | ShiftDr | Exit1Dr | PauseDr | Exit2Dr | UpdateDr
    | SelectIrScan | CaptureIr | ShiftIr | Exit1Ir | PauseIr | Exit2Ir | UpdateIr

  /** The state entered on a rising TCK edge while TMS is at `tms`. */
  function Next(s: TapState, tms: bool): TapState
  {
    match s
    case TestLogicReset => if tms then TestLogicReset else RunTestIdle
    case RunTestIdle => if tms then SelectDrScan else RunTestIdle
    case SelectDrScan => if tms then SelectIrScan else CaptureDr
    case CaptureDr => if tms then Exit1Dr else ShiftDr
    case ShiftDr => if tms then Exit1Dr else ShiftDr
    case Exit1Dr => if tms then UpdateDr else PauseDr
    case PauseDr => if tms then Exit2Dr else PauseDr
    case Exit2Dr => if tms then UpdateDr else ShiftDr
    case UpdateDr => if tms then SelectDrScan else RunTestIdle
    case SelectIrScan => if tms then TestLogicReset else CaptureIr
    case CaptureIr => if tms then Exit1Ir else ShiftIr
    case ShiftIr => if tms then Exit1Ir else ShiftIr
    case Exit1Ir => if tms then UpdateIr else PauseIr
    case PauseIr => if tms then Exit2Ir else PauseIr
    case Exit2Ir => if tms then UpdateIr else ShiftIr
    case UpdateIr => if tms then SelectDrScan else RunTestIdle
  }

  /** The TMS levels of a jClockFSM call: the low `count` bits of `pattern`, least significant first. */
  function TmsBits(pattern: nat, count: nat): (r: seq<bool>)
    ensures |r| == count
  {
    seq(count, i requires 0 <= i < count => Bit(pattern, i))
  }

  /** The state reached from s after one rising edge per TMS level in `tms`. */
  function Walk(s: TapState, tms: seq<bool>): TapState
    decreases |tms|
  {
    if tms == [] then s else Walk(Next(s, tms[0]), tms[1..])
  }

  /** Walking a + b is walking a and then b. */
  lemma {:induction false} WalkSplit(s: TapState, a: seq<bool>, b: seq<bool>)
    ensures Walk(s, a + b) == Walk(Walk(s, a), b)
    decreases |a|
  {
    if a != [] {
      assert (a + b)[0] == a[0] && (a + b)[1..] == a[1..] + b;
      WalkSplit(Next(s, a[0]), a[1..], b);
    } else {
      assert a + b == b;
    }
  }

  /** TMS held high for five edges reaches Test-Logic-Reset from every state. */
  lemma FiveOnesReset(s: TapState)
    ensures Walk(s, [true, true, true, true, true]) == TestLogicReset
  {
    match s
    case TestLogicReset =>
    case RunTestIdle =>
    case SelectDrScan =>
    case CaptureDr =>
    case ShiftDr =>
    case Exit1Dr =>
    case PauseDr =>
    case Exit2Dr =>
    case UpdateDr =>
    case SelectIrScan =>
    case CaptureIr =>
    case ShiftIr =>
    case Exit1Ir =>
    case PauseIr =>
    case Exit2Ir =>
    case UpdateIr =>
  }

  /** The reset sequence 0x1F over 6 edges ends in Run-Test/Idle from every state. */
  lemma ResetReachesIdle(s: TapState)
    ensures Walk(s, TmsBits(0x1F, 6)) == RunTestIdle
  {
    assert Bit(0x1F, 0) && Bit(0x1F, 1) && Bit(0x1F, 2) && Bit(0x1F, 3) && Bit(0x1F, 4) && !Bit(0x1F, 5);
    assert TmsBits(0x1F, 6) == [true, true, true, true, true] + [false];
    FiveOnesReset(s);
    WalkSplit(s, [true, true, true, true, true], [false]);
  }

  /** 0x3 over 4 edges: Run-Test/Idle to Shift-IR. */
  lemma EnterShiftIr()
    ensures Walk(RunTestIdle, TmsBits(0x3, 4)) == ShiftIr
  {
    assert Bit(0x3, 0) && Bit(0x3, 1) && !Bit(0x3, 2) && !Bit(0x3, 3);
    assert TmsBits(0x3, 4) == [true, true, false, false];
  }

  /** 0x1 over 3 edges: Run-Test/Idle to Shift-DR. */
  lemma EnterShiftDr()
    ensures Walk(RunTestIdle, TmsBits(0x1, 3)) == ShiftDr
  {
    assert TmsBits(0x1, 3) == [true, false, false];
  }

  /** 0x1 over 2 edges: from either Exit1 state, through Update, to Run-Test/Idle. */
  lemma Exit1ToIdle()
    ensures Walk(Exit1Dr, TmsBits(0x1, 2)) == RunTestIdle
    ensures Walk(Exit1Ir, TmsBits(0x1, 2)) == RunTestIdle
  {
    assert TmsBits(0x1, 2) == [true, false];
  }

  /**
   * 0x1A over 6 edges: Exit1-DR, Pause-DR, Exit2-DR, Shift-DR, Exit1-DR,
   * Update-DR, Run-Test/Idle. The path re-enters Shift-DR for one edge.
   */
  lemma PauseExitToIdle()
    ensures Walk(Exit1Dr, TmsBits(0x1A, 6)) == RunTestIdle
    ensures Walk(Exit1Dr, TmsBits(0x1A, 6)[..3]) == ShiftDr
  {
    assert !Bit(0x1A, 0) && Bit(0x1A, 1) && !Bit(0x1A, 2) && Bit(0x1A, 3) && Bit(0x1A, 4) && !Bit(0x1A, 5);
    assert TmsBits(0x1A, 6) == [false, true, false, true, true, false];
  }
}
