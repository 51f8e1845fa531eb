/**
 * The bit-shift kernels of libgpiojtag: jClockFSM, jClocks, jShiftInOnly and
 * jShiftInOut. Each method drives a Port exactly as the C function drives
 * the callback vtable; its contract says which events it appends, by way of a
 * specification function below.
 *
 * The two shift kernels are given here with their final bit corrected (see
 * ShiftDefects.AsWrittenFinalTdi and ShiftDefects.AsWrittenOutWrites for the
 * behaviour as written).
 */
module Kernels {
  import opened Bytes
  import opened Pins
  import opened Tap

  /** One TCK pulse, high then low. */
  const PULSE: seq<Event> := [Tck(true), Tck(false)]

  // ---------------------------------------------------------------------------
  // jClockFSM and jClocks

  /** TMS set to each level in turn, each followed by a TCK pulse. */
  function FsmEvents(tms: seq<bool>): seq<Event>
  {
    if tms == [] then [] else FsmEvents(tms[..|tms| - 1]) + [Tms(tms[|tms| - 1])] + PULSE
  }

  /** n TCK pulses and nothing else. */
  function ClockEvents(n: nat): seq<Event>
  {
    if n == 0 then [] else ClockEvents(n - 1) + PULSE
  }

  /** Level k goes out on TMS as event 3k, then TCK rises and falls: 3 events per level. */
  lemma {:induction false} FsmEventsShape(tms: seq<bool>)
    ensures |FsmEvents(tms)| == 3 * |tms|
    ensures forall k :: 0 <= k < |tms| ==>
              FsmEvents(tms)[3 * k] == Tms(tms[k]) && FsmEvents(tms)[3 * k + 1] == Tck(true)
              && FsmEvents(tms)[3 * k + 2] == Tck(false)
  {
    if tms != [] {
      var front := tms[..|tms| - 1];
      FsmEventsShape(front);
      assert forall k :: 0 <= k < |front| ==> tms[k] == front[k];
    }
  }

  /** Pulse k is events 2k (TCK high) and 2k + 1 (TCK low); no other line moves. */
  lemma {:induction false} ClockEventsShape(n: nat)
    ensures |ClockEvents(n)| == 2 * n
    ensures forall i :: 0 <= i < 2 * n ==> ClockEvents(n)[i] == Tck(i % 2 == 0)
  {
    if n > 0 {
      ClockEventsShape(n - 1);
    }
  }

  /** jClockFSM: clock `bitPattern` LSB-first into TMS, `transitionCount` times. */
  method JClockFsm(port: Port, bitPattern: nat, transitionCount: nat)
    modifies port
    ensures port.trace == old(port.trace) + FsmEvents(TmsBits(bitPattern, transitionCount))
  {
    ghost var t := port.trace;
    var pattern := bitPattern;
    var count: nat := transitionCount;
    ghost var done := 0;
    while count > 0
      invariant done + count == transitionCount
      invariant forall k: nat :: Bit(pattern, k) == Bit(bitPattern, done + k)
      invariant port.trace == t + FsmEvents(TmsBits(bitPattern, done))
    {
      assert Bit(pattern, 0) == Bit(bitPattern, done);
      FsmEventsStep(t, bitPattern, done);
      port.SetTms(Bit(pattern, 0));
      port.SetTck(true);
      port.SetTck(false);
      ghost var before, done0 := pattern, done;
      pattern := pattern / 2;
      count := count - 1;
      done := done + 1;
      HalfShiftsBits(before, pattern, bitPattern, done0, done);
    }
  }

  /** One more TMS level and pulse extend the events of the first `done` levels. */
  lemma FsmEventsStep(t: seq<Event>, bitPattern: nat, done: nat)
    ensures t + FsmEvents(TmsBits(bitPattern, done)) + [Tms(Bit(bitPattern, done))] + [Tck(true)] + [Tck(false)]
         == t + FsmEvents(TmsBits(bitPattern, done + 1))
  {
    assert TmsBits(bitPattern, done + 1)[..done] == TmsBits(bitPattern, done);
  }

  /** `bitPattern >>= 1`: the bits of the remaining pattern move down by one. */
  lemma HalfShiftsBits(pattern: nat, half: nat, bitPattern: nat, done: nat, done': nat)
    requires half == pattern / 2 && done' == done + 1
    requires forall k: nat :: Bit(pattern, k) == Bit(bitPattern, done + k)
    ensures forall k: nat :: Bit(half, k) == Bit(bitPattern, done' + k)
  {
    forall k: nat
      ensures Bit(half, k) == Bit(bitPattern, done' + k)
    {
      assert Bit(pattern, k + 1) == Bit(half, k);
    }
  }

  /** jClocks: `numClocks` TCK pulses. */
  method JClocks(port: Port, numClocks: nat)
    modifies port
    ensures port.trace == old(port.trace) + ClockEvents(numClocks)
  {
    var n: nat := numClocks;
    while n > 0
      invariant n <= numClocks
      invariant port.trace == old(port.trace) + ClockEvents(numClocks - n)
    {
      port.SetTck(true);
      port.SetTck(false);
      n := n - 1;
    }
  }

  // ---------------------------------------------------------------------------
  // jShiftInOnly

  /** The `inOnly()` macro for each bit: TDI set, then a TCK pulse. */
  function InOnlyBody(bits: seq<bool>): seq<Event>
  {
    if bits == [] then [] else InOnlyBody(bits[..|bits| - 1]) + [Tdi(bits[|bits| - 1])] + PULSE
  }

  /** A whole shift without sampling: all bits but the last, TMS raised, then the last bit. */
  function InOnlyEvents(bits: seq<bool>): seq<Event>
    requires |bits| >= 1
  {
    InOnlyBody(bits[..|bits| - 1]) + [Tms(true)] + InOnlyBody(bits[|bits| - 1..])
  }

  /** Bit k goes out on TDI as event 3k, then TCK rises and falls; TMS is never touched. */
  lemma {:induction false} InOnlyBodyShape(bits: seq<bool>)
    ensures |InOnlyBody(bits)| == 3 * |bits|
    ensures forall k :: 0 <= k < |bits| ==>
              InOnlyBody(bits)[3 * k] == Tdi(bits[k]) && InOnlyBody(bits)[3 * k + 1] == Tck(true)
              && InOnlyBody(bits)[3 * k + 2] == Tck(false)
    ensures forall i :: 0 <= i < |InOnlyBody(bits)| ==> !InOnlyBody(bits)[i].Tms?
  {
    if bits != [] {
      var front := bits[..|bits| - 1];
      InOnlyBodyShape(front);
      assert forall k :: 0 <= k < |front| ==> bits[k] == front[k];
    }
  }

  /**
   * A shift of n >= 1 bits is n TDI-and-pulse groups with one TMS-high event,
   * the only TMS event, right before the group of the last bit.
   */
  lemma InOnlyEventsShape(bits: seq<bool>)
    requires |bits| >= 1
    ensures var e := InOnlyEvents(bits);
            var last := 3 * (|bits| - 1);
            |e| == 3 * |bits| + 1 && e[last] == Tms(true)
            && e[last + 1] == Tdi(bits[|bits| - 1]) && e[last + 2] == Tck(true) && e[last + 3] == Tck(false)
            && (forall k :: 0 <= k < |bits| - 1 ==>
                  e[3 * k] == Tdi(bits[k]) && e[3 * k + 1] == Tck(true) && e[3 * k + 2] == Tck(false))
            && (forall i :: 0 <= i < |e| && e[i].Tms? ==> i == last)
  {
    var front := bits[..|bits| - 1];
    InOnlyBodyShape(front);
    InOnlyBodyShape(bits[|bits| - 1..]);
    assert forall k :: 0 <= k < |front| ==> bits[k] == front[k];
  }

  /** The `inOnly()` macro: drive one bit on TDI and clock it in. */
  method InOnly(port: Port, level: bool)
    modifies port
    ensures port.trace == old(port.trace) + [Tdi(level)] + PULSE
  {
    port.SetTdi(level);
    port.SetTck(true);
    port.SetTck(false);
  }

  /** Bits 0 .. count-1 of one byte, in shift order. */
  function ByteBits(x: byte, count: nat): (r: seq<bool>)
    ensures |r| == count
  {
    seq(count, i requires 0 <= i < count => Bit(x, i))
  }

  /** Bit 8j + b of a run is bit b of byte j. */
  lemma InBitsAt(data: seq<byte>, n: nat, j: nat, b: nat)
    requires BitsToBytes(n) <= |data| && b < 8 && 8 * j + b < n
    ensures j < |data| && InBits(data, n)[8 * j + b] == Bit(data[j], b)
  {
    assert (8 * j + b) / 8 == j && (8 * j + b) % 8 == b;
  }

  /** A whole chunk of a run is the leading bits of one byte. */
  lemma InBitsChunk(data: seq<byte>, n: nat, j: nat, count: nat)
    requires BitsToBytes(n) <= |data| && count <= 8 && 8 * j + count <= n
    ensures j < |data| || count == 0
    ensures InBits(data, n)[8 * j .. 8 * j + count] == ByteBits(if count == 0 then 0 else data[j], count)
  {
    forall b | 0 <= b < count
      ensures InBits(data, n)[8 * j + b] == Bit(data[j], b)
    {
      InBitsAt(data, n, j, b);
    }
  }

  lemma {:induction false} InOnlyBodyConcat(a: seq<bool>, b: seq<bool>)
    ensures InOnlyBody(a + b) == InOnlyBody(a) + InOnlyBody(b)
    decreases |b|
  {
    if b == [] {
      assert a + b == a;
    } else {
      var b' := b[..|b| - 1];
      assert (a + b)[..|a + b| - 1] == a + b';
      InOnlyBodyConcat(a, b');
    }
  }

  /** Extending a shifted prefix of a run by one whole chunk, after any earlier events t. */
  lemma InOnlyChunkStep(t: seq<Event>, data: seq<byte>, n: nat, bits: seq<bool>, j: nat, count: nat, k: nat, k': nat)
    requires BitsToBytes(n) <= |data| && bits == InBits(data, n)
    requires 1 <= count <= 8 && k == 8 * j && k' == k + count <= n
    ensures j < |data|
    ensures t + InOnlyBody(bits[..k]) + InOnlyBody(ByteBits(data[j], count)) == t + InOnlyBody(bits[..k'])
  {
    var a, c := bits[..k], ByteBits(data[j], count);
    assert bits[..k'] == a + c by {
      InBitsChunk(data, n, j, count);
      assert bits[..k'] == bits[..k] + bits[k .. k'];
    }
    InOnlyBodyConcat(a, c);
  }

  /** Raising TMS and shifting the last bit completes a whole shift. */
  lemma InOnlyEventsLast(t: seq<Event>, bits: seq<bool>)
    requires |bits| >= 1
    ensures t + InOnlyBody(bits[..|bits| - 1]) + [Tms(true)] + [Tdi(bits[|bits| - 1])] + PULSE
         == t + InOnlyEvents(bits)
  {
    var last := bits[|bits| - 1];
    assert bits[|bits| - 1..] == [last];
    assert [last][..0] == [];
    assert InOnlyBody([last]) == [Tdi(last)] + PULSE;
  }

  /** One pass of the unrolled switch in jShiftInOnly: bits 0 .. count-1 of inByte. */
  method InOnlyChunk(port: Port, inByte: byte, count: nat)
    modifies port
    ensures port.trace == old(port.trace) + InOnlyBody(ByteBits(inByte, count))
  {
    var b := 0;
    while b < count
      invariant 0 <= b <= count
      invariant port.trace == old(port.trace) + InOnlyBody(ByteBits(inByte, b))
    {
      assert ByteBits(inByte, b + 1)[..b] == ByteBits(inByte, b);
      InOnly(port, Bit(inByte, b));
      b := b + 1;
    }
  }

  /**
   * The chunk loop of jShiftInOnly: all bits but the last, at most eight per
   * pass. On exit inByte is the last byte loaded and b the position of the C
   * mask (1 << b); both are still 0 and inData[0] when no chunk ran.
   */
  method InOnlyLeading(port: Port, numBits: nat, inData: array<byte>) returns (inByte: byte, b: nat, j: nat)
    requires numBits >= 1 && BitsToBytes(numBits) <= inData.Length
    modifies port
    ensures (j == 0 && b == 0 && numBits == 1) || (j > 0 && 1 <= b <= 8 && 8 * (j - 1) + b == numBits - 1)
    ensures j <= inData.Length && inByte == inData[if j == 0 then 0 else j - 1]
    ensures port.trace == old(port.trace) + InOnlyBody(InBits(inData[..], numBits)[..numBits - 1])
  {
    ghost var t, bits := port.trace, InBits(inData[..], numBits);
    var remaining: nat := numBits - 1;
    j, b := 0, 0;
    inByte := inData[0];
    ghost var k: nat := 0;  // bits shifted so far
    while remaining > 0
      invariant k + remaining == numBits - 1
      invariant remaining > 0 ==> k == 8 * j
      invariant (j == 0 && b == 0 && k == 0) || (j > 0 && 1 <= b <= 8 && k == 8 * (j - 1) + b)
      invariant j <= inData.Length && inByte == inData[if j == 0 then 0 else j - 1]
      invariant port.trace == t + InOnlyBody(bits[..k])
    {
      var count := if remaining <= 8 then remaining else 8;
      ghost var k0 := k;
      k := k + count;
      InOnlyChunkStep(t, inData[..], numBits, bits, j, count, k0, k);
      inByte := inData[j];
      InOnlyChunk(port, inByte, count);
      b := count;
      remaining := remaining - count;
      j := j + 1;
    }
    assert bits[..numBits - 1] == bits[..k];
  }

  /**
   * jShiftInOnly: shift the first numBits bits of inData into TDI, LSB first
   * within each byte, raising TMS before the last bit.
   */
  method JShiftInOnly(port: Port, numBits: nat, inData: array<byte>)
    requires numBits >= 1 && BitsToBytes(numBits) <= inData.Length
    modifies port
    ensures port.trace == old(port.trace) + InOnlyEvents(InBits(inData[..], numBits))
  {
    ghost var bits := InBits(inData[..], numBits);
    var inByte, b, j := InOnlyLeading(port, numBits, inData);
    var level, _, _ := LastBit(inData, numBits, inByte, b, j, bits);
    port.SetTms(true);
    InOnly(port, level);
    InOnlyEventsLast(old(port.trace), bits);
  }

  /**
   * Where the last bit of a shift lies once the chunk loop has run: byte j',
   * bit b'. As written, the code keeps the previous byte and mask here, so a
   * full last chunk leaves the mask at bit 8 (see AsWrittenFinalTdi); the
   * model moves on to the next byte.
   */
  method LastBit(inData: array<byte>, numBits: nat, inByte: byte, b: nat, j: nat, ghost bits: seq<bool>)
      returns (level: bool, b': nat, j': nat)
    requires numBits >= 1 && BitsToBytes(numBits) <= inData.Length && bits == InBits(inData[..], numBits)
    requires (j == 0 && b == 0 && numBits == 1) || (j > 0 && 1 <= b <= 8 && 8 * (j - 1) + b == numBits - 1)
    requires j <= inData.Length && inByte == inData[if j == 0 then 0 else j - 1]
    ensures 8 * j' + b' == numBits - 1 && b' < 8
    ensures if b == 8 then j' == j && b' == 0 else b' == b && (j' + 1 == j || j == j' == 0)
    ensures bits == bits[..numBits - 1] + [level]
  {
    j', b' := j, b;
    var x := inByte;
    if b == 8 {
      x := inData[j];
      b' := 0;
    } else if j > 0 {
      j' := j - 1;
    }
    level := Bit(x, b');
    assert bits == bits[..numBits - 1] + [level] by {
      InBitsAt(inData[..], numBits, j', b');
    }
  }

  // ---------------------------------------------------------------------------
  // jShiftInOut

  /**
   * The `inOut()` macro, after the events `before`: drive TDI, read TDO while
   * TCK is still low, then pulse TCK. The device sees the new TDI level.
   */
  function OutStep(before: seq<Event>, level: bool, device: seq<Event> -> bool): seq<Event>
  {
    [Tdi(level), Tdo(device(before + [Tdi(level)])), Tck(true), Tck(false)]
  }

  /** The whole trace after `inOut()` for each of `bits` in turn, starting from the trace t. */
  function InOutTrace(t: seq<Event>, bits: seq<bool>, device: seq<Event> -> bool): seq<Event>
  {
    if bits == [] then t
    else
      var u := InOutTrace(t, bits[..|bits| - 1], device);
      u + OutStep(u, bits[|bits| - 1], device)
  }

  /** The TDO levels those `inOut()` calls read: each after its own bit is on TDI. */
  function InOutSamples(t: seq<Event>, bits: seq<bool>, device: seq<Event> -> bool): (r: seq<bool>)
    ensures |r| == |bits|
  {
    if bits == [] then []
    else
      var init := bits[..|bits| - 1];
      InOutSamples(t, init, device) + [device(InOutTrace(t, init, device) + [Tdi(bits[|bits| - 1])])]
  }

  /** The trace after a whole sampled shift: all bits but the last, TMS raised, then the last bit. */
  function ShiftInOutTrace(t: seq<Event>, bits: seq<bool>, device: seq<Event> -> bool): seq<Event>
    requires |bits| >= 1
  {
    var u := InOutTrace(t, bits[..|bits| - 1], device) + [Tms(true)];
    u + OutStep(u, bits[|bits| - 1], device)
  }

  /** The TDO levels a whole sampled shift reads, in shift order. */
  function ShiftInOutSamples(t: seq<Event>, bits: seq<bool>, device: seq<Event> -> bool): (r: seq<bool>)
    requires |bits| >= 1
    ensures |r| == |bits|
  {
    var init := bits[..|bits| - 1];
    InOutSamples(t, init, device) + [device(InOutTrace(t, init, device) + [Tms(true), Tdi(bits[|bits| - 1])])]
  }

  /** The `inOut()` macro: drive one bit, sample TDO and clock. */
  method InOut(port: Port, level: bool) returns (sample: bool)
    modifies port
    ensures port.trace == old(port.trace) + OutStep(old(port.trace), level, port.device)
    ensures sample == port.device(old(port.trace) + [Tdi(level)])
  {
    port.SetTdi(level);
    sample := port.GetTdo();
    port.SetTck(true);
    port.SetTck(false);
  }

  /** One `inOut()` reads TDO exactly once, after setting TDI. */
  lemma OutStepSamples(before: seq<Event>, level: bool, device: seq<Event> -> bool)
    ensures Samples(OutStep(before, level, device)) == [device(before + [Tdi(level)])]
  {
    var v := device(before + [Tdi(level)]);
    assert OutStep(before, level, device) == [Tdi(level)] + [Tdo(v)] + [Tck(true)] + [Tck(false)];
    SamplesConcat([Tdi(level)], [Tdo(v)]);
    SamplesConcat([Tdi(level)] + [Tdo(v)], [Tck(true)]);
    SamplesConcat([Tdi(level)] + [Tdo(v)] + [Tck(true)], [Tck(false)]);
    SamplesOne(Tdi(level));
    SamplesOne(Tdo(v));
    SamplesOne(Tck(true));
    SamplesOne(Tck(false));
  }

  /** With its TDO read taken out, one `inOut()` is one `inOnly()`. */
  lemma OutStepDriven(before: seq<Event>, level: bool, device: seq<Event> -> bool)
    ensures Driven(OutStep(before, level, device)) == [Tdi(level)] + PULSE
  {
    var v := device(before + [Tdi(level)]);
    assert OutStep(before, level, device) == [Tdi(level)] + [Tdo(v)] + [Tck(true)] + [Tck(false)];
    DrivenConcat([Tdi(level)], [Tdo(v)]);
    DrivenConcat([Tdi(level)] + [Tdo(v)], [Tck(true)]);
    DrivenConcat([Tdi(level)] + [Tdo(v)] + [Tck(true)], [Tck(false)]);
    DrivenOne(Tdi(level));
    DrivenOne(Tdo(v));
    DrivenOne(Tck(true));
    DrivenOne(Tck(false));
  }

  lemma InOutSnoc(t: seq<Event>, bits: seq<bool>, x: bool, device: seq<Event> -> bool)
    ensures InOutTrace(t, bits + [x], device)
         == InOutTrace(t, bits, device) + OutStep(InOutTrace(t, bits, device), x, device)
    ensures InOutSamples(t, bits + [x], device)
         == InOutSamples(t, bits, device) + [device(InOutTrace(t, bits, device) + [Tdi(x)])]
  {
    assert (bits + [x])[..|bits|] == bits;
  }

  /**
   * A sampled run only appends to the trace; with its TDO reads taken out the
   * new events are those of an unsampled run, and the levels it read are
   * InOutSamples.
   */
  lemma {:induction false} InOutAppends(t: seq<Event>, bits: seq<bool>, device: seq<Event> -> bool)
    ensures |t| <= |InOutTrace(t, bits, device)| && InOutTrace(t, bits, device)[..|t|] == t
    ensures Driven(InOutTrace(t, bits, device)[|t|..]) == InOnlyBody(bits)
    ensures Samples(InOutTrace(t, bits, device)[|t|..]) == InOutSamples(t, bits, device)
    decreases |bits|
  {
    if bits == [] {
      assert t[|t|..] == [];
    } else {
      var init := bits[..|bits| - 1];
      var x := bits[|bits| - 1];
      var u := InOutTrace(t, init, device);
      var o := OutStep(u, x, device);
      InOutAppends(t, init, device);
      assert (u + o)[..|t|] == u[..|t|];
      assert (u + o)[|t|..] == u[|t|..] + o;
      DrivenConcat(u[|t|..], o);
      OutStepDriven(u, x, device);
      SamplesConcat(u[|t|..], o);
      OutStepSamples(u, x, device);
    }
  }

  /** Sampling a + b is sampling a and then, from the trace it leaves, sampling b. */
  lemma {:induction false} InOutConcat(t: seq<Event>, a: seq<bool>, b: seq<bool>, device: seq<Event> -> bool)
    ensures InOutTrace(t, a + b, device) == InOutTrace(InOutTrace(t, a, device), b, device)
    ensures InOutSamples(t, a + b, device)
         == InOutSamples(t, a, device) + InOutSamples(InOutTrace(t, a, device), b, device)
    decreases |b|
  {
    if b == [] {
      assert a + b == a;
    } else {
      var b' := b[..|b| - 1];
      var x := b[|b| - 1];
      var u := InOutTrace(t, a, device);
      assert a + b == (a + b') + [x] && b == b' + [x];
      InOutSnoc(t, a + b', x, device);
      InOutSnoc(u, b', x, device);
      InOutConcat(t, a, b', device);
    }
  }

  /** Sample i is what TDO showed once bit i was on TDI, after all earlier bits were clocked. */
  lemma {:induction false} InOutSampleAt(t: seq<Event>, bits: seq<bool>, i: nat, device: seq<Event> -> bool)
    requires i < |bits|
    ensures InOutSamples(t, bits, device)[i] == device(InOutTrace(t, bits[..i], device) + [Tdi(bits[i])])
    decreases |bits|
  {
    var init := bits[..|bits| - 1];
    if i < |bits| - 1 {
      InOutSampleAt(t, init, i, device);
      assert init[..i] == bits[..i];
    } else {
      assert init == bits[..i];
    }
  }

  /**
   * A whole sampled shift appends to the trace; with its TDO reads taken out
   * it drives the pins exactly as jShiftInOnly does, and the levels it reads
   * are ShiftInOutSamples.
   */
  lemma ShiftInOutAppends(t: seq<Event>, bits: seq<bool>, device: seq<Event> -> bool)
    requires |bits| >= 1
    ensures |t| <= |ShiftInOutTrace(t, bits, device)| && ShiftInOutTrace(t, bits, device)[..|t|] == t
    ensures Driven(ShiftInOutTrace(t, bits, device)[|t|..]) == InOnlyEvents(bits)
    ensures Samples(ShiftInOutTrace(t, bits, device)[|t|..]) == ShiftInOutSamples(t, bits, device)
  {
    var init := bits[..|bits| - 1];
    var x := bits[|bits| - 1];
    var u := InOutTrace(t, init, device);
    var w := u + [Tms(true)];
    var o := OutStep(w, x, device);
    InOutAppends(t, init, device);
    var mid := u[|t|..];
    AppendKeepsPrefix(t, u, [Tms(true)]);
    AppendKeepsPrefix(t, w, o);
    assert ShiftInOutTrace(t, bits, device) == w + o;
    LastStepDriven(mid, bits, w, device);
    LastStepSamples(mid, InOutSamples(t, init, device), u, x, device);
  }

  /** Appending to a trace that starts with t keeps t as its prefix. */
  lemma AppendKeepsPrefix(t: seq<Event>, u: seq<Event>, e: seq<Event>)
    requires |t| <= |u| && u[..|t|] == t
    ensures (u + e)[..|t|] == t && (u + e)[|t|..] == u[|t|..] + e
  {
    assert (u + e)[..|t|] == u[..|t|];
  }

  /** With TDO reads taken out, raising TMS and a sampled last bit drive what jShiftInOnly's final bit drives. */
  lemma LastStepDriven(mid: seq<Event>, bits: seq<bool>, w: seq<Event>, device: seq<Event> -> bool)
    requires |bits| >= 1 && Driven(mid) == InOnlyBody(bits[..|bits| - 1])
    ensures Driven(mid + [Tms(true)] + OutStep(w, bits[|bits| - 1], device)) == InOnlyEvents(bits)
  {
    var o := OutStep(w, bits[|bits| - 1], device);
    DrivenConcat(mid, [Tms(true)]);
    DrivenConcat(mid + [Tms(true)], o);
    DrivenOne(Tms(true));
    OutStepDriven(w, bits[|bits| - 1], device);
    InOnlyEventsLast([], bits);
    assert [] + InOnlyEvents(bits) == InOnlyEvents(bits);
  }

  /** Raising TMS reads nothing; the sampled last bit adds one sample. */
  lemma LastStepSamples(mid: seq<Event>, before: seq<bool>, u: seq<Event>, x: bool, device: seq<Event> -> bool)
    requires Samples(mid) == before
    ensures Samples(mid + [Tms(true)] + OutStep(u + [Tms(true)], x, device))
         == before + [device(u + [Tms(true), Tdi(x)])]
  {
    var w := u + [Tms(true)];
    SamplesConcat(mid, [Tms(true)]);
    SamplesConcat(mid + [Tms(true)], OutStep(w, x, device));
    SamplesOne(Tms(true));
    OutStepSamples(w, x, device);
    assert w + [Tdi(x)] == u + [Tms(true), Tdi(x)];
  }

  /**
   * One pass of the unrolled switch in jShiftInOut: bits 0 .. count-1 of
   * inByte, the samples collected LSB first into outByte as `outByte |= mask`
   * does (the bit is clear before it is set, so the OR is an addition).
   */
  method InOutChunk(port: Port, inByte: byte, count: nat) returns (outByte: byte)
    requires count <= 8
    modifies port
    ensures port.trace == InOutTrace(old(port.trace), ByteBits(inByte, count), port.device)
    ensures outByte == PackByte(InOutSamples(old(port.trace), ByteBits(inByte, count), port.device))
  {
    ghost var t, dev := port.trace, port.device;
    outByte := 0;
    var b := 0;
    while b < count
      invariant 0 <= b <= count
      invariant port.trace == InOutTrace(t, ByteBits(inByte, b), dev)
      invariant outByte == PackByte(InOutSamples(t, ByteBits(inByte, b), dev))
    {
      var sample := InOut(port, Bit(inByte, b));
      InOutChunkBit(t, inByte, b, dev, outByte);
      if sample {
        outByte := outByte + Pow2(b);
      }
      b := b + 1;
    }
  }

  /** One more bit of a chunk: one more step on the trace, one more sample at bit b of the byte. */
  lemma InOutChunkBit(t: seq<Event>, x: byte, b: nat, device: seq<Event> -> bool, outByte: byte)
    requires b < 8 && outByte == PackByte(InOutSamples(t, ByteBits(x, b), device))
    ensures InOutTrace(t, ByteBits(x, b + 1), device)
         == InOutTrace(t, ByteBits(x, b), device) + OutStep(InOutTrace(t, ByteBits(x, b), device), Bit(x, b), device)
    ensures var sample := device(InOutTrace(t, ByteBits(x, b), device) + [Tdi(Bit(x, b))]);
            outByte + (if sample then Pow2(b) else 0) < 256
            && PackByte(InOutSamples(t, ByteBits(x, b + 1), device)) == outByte + (if sample then Pow2(b) else 0)
  {
    var s := InOutSamples(t, ByteBits(x, b), device);
    var sample := device(InOutTrace(t, ByteBits(x, b), device) + [Tdi(Bit(x, b))]);
    assert ByteBits(x, b + 1) == ByteBits(x, b) + [Bit(x, b)];
    InOutSnoc(t, ByteBits(x, b), Bit(x, b), device);
    PackByteSnoc(s, sample);
    PackByteFits(s + [sample]);
  }

  /** Extending a sampled prefix of a run by one whole chunk (byte j of data, k = 8j bits before it). */
  lemma InOutChunkStep(t: seq<Event>, data: seq<byte>, n: nat, bits: seq<bool>, j: nat, x: byte,
                       k: nat, count: nat, k': nat, device: seq<Event> -> bool)
    requires BitsToBytes(n) <= |data| && bits == InBits(data, n)
    requires k == 8 * j && 1 <= count <= 8 && k' == k + count <= n
    requires j < |data| && x == data[j]
    ensures InOutTrace(t, bits[..k'], device)
         == InOutTrace(InOutTrace(t, bits[..k], device), ByteBits(x, count), device)
    ensures InOutSamples(t, bits[..k'], device)
         == InOutSamples(t, bits[..k], device)
            + InOutSamples(InOutTrace(t, bits[..k], device), ByteBits(x, count), device)
  {
    var a, c := bits[..k], ByteBits(x, count);
    assert bits[..k'] == a + c by {
      InBitsChunk(data, n, j, count);
      assert bits[..k'] == bits[..k] + bits[k .. k'];
    }
    InOutConcat(t, a, c, device);
  }

  /** `*++outData = outByte`: store one byte after the j bytes already written. */
  method Store(outData: array<byte>, j: nat, v: byte)
    requires j < outData.Length
    modifies outData
    ensures outData[..j + 1] == old(outData[..j]) + [v]
    ensures outData[j + 1..] == old(outData[j + 1..])
    ensures outData[j] == v
  {
    outData[j] := v;
  }

  /**
   * One pass of jShiftInOut's chunk loop: load byte j, shift `count` of its
   * bits with sampling, and store the samples as byte j of outData. The
   * ghost parameters say what the passes before did.
   */
  method InOutPass(port: Port, numBits: nat, inData: array<byte>, outData: array<byte>, j: nat, count: nat,
                   ghost t: seq<Event>, ghost dev: seq<Event> -> bool,
                   ghost bits: seq<bool>, ghost orig: seq<byte>, ghost k: nat, ghost k': nat)
      returns (inByte: byte, outByte: byte)
    requires BitsToBytes(numBits) <= inData.Length && BitsToBytes(numBits) <= outData.Length
    requires inData != outData && bits == InBits(inData[..], numBits)
    requires k == 8 * j && 1 <= count <= 8 && k' == k + count <= numBits
    requires dev == port.device && port.trace == InOutTrace(t, bits[..k], dev)
    requires j < outData.Length && |orig| == outData.Length
    requires outData[..j] == PackBits(InOutSamples(t, bits[..k], dev)) && outData[j..] == orig[j..]
    modifies port, outData
    ensures j < inData.Length && inByte == inData[j]
    ensures port.trace == InOutTrace(t, bits[..k'], dev)
    ensures outData[..j + 1] == PackBits(InOutSamples(t, bits[..k'], dev))
    ensures outData[j + 1..] == orig[j + 1..]
    ensures outByte == outData[j]
  {
    ghost var s := InOutSamples(t, bits[..k], dev);
    ghost var u := port.trace;
    inByte := inData[j];
    InOutChunkStep(t, inData[..], numBits, bits, j, inByte, k, count, k', dev);
    ghost var c := InOutSamples(u, ByteBits(inByte, count), dev);
    PackBitsAppendChunk(s, c, j);
    outByte := InOutChunk(port, inByte, count);
    assert outData[j + 1..] == orig[j + 1..];
    Store(outData, j, outByte);
  }

  /**
   * The chunk loop of jShiftInOut: all bits but the last, each chunk's samples
   * stored as one byte of outData. On exit outByte is the last byte stored.
   */
  method InOutLeading(port: Port, numBits: nat, inData: array<byte>, outData: array<byte>,
                      ghost t: seq<Event>, ghost dev: seq<Event> -> bool, ghost bits: seq<bool>, ghost orig: seq<byte>)
      returns (inByte: byte, outByte: byte, b: nat, j: nat)
    requires numBits >= 1 && BitsToBytes(numBits) <= inData.Length && BitsToBytes(numBits) <= outData.Length
    requires inData != outData && bits == InBits(inData[..], numBits) && orig == outData[..]
    requires port.trace == t && port.device == dev
    modifies port, outData
    ensures (j == 0 && b == 0 && numBits == 1) || (j > 0 && 1 <= b <= 8 && 8 * (j - 1) + b == numBits - 1)
    ensures j <= inData.Length && inByte == inData[if j == 0 then 0 else j - 1]
    ensures port.trace == InOutTrace(t, bits[..numBits - 1], dev)
    ensures j <= outData.Length && outData[j..] == orig[j..]
    ensures outData[..j] == PackBits(InOutSamples(t, bits[..numBits - 1], dev))
    ensures outByte == if j == 0 then 0 else outData[j - 1]
  {
    ghost var data := inData[..];
    var remaining: nat := numBits - 1;
    j, b := 0, 0;
    inByte, outByte := inData[0], 0;
    ghost var k: nat := 0;  // bits shifted so far
    while remaining > 0
      invariant k + remaining == numBits - 1
      invariant remaining > 0 ==> k == 8 * j
      invariant (j == 0 && b == 0 && k == 0) || (j > 0 && 1 <= b <= 8 && k == 8 * (j - 1) + b)
      invariant j <= inData.Length && inByte == inData[if j == 0 then 0 else j - 1]
      invariant inData[..] == data
      invariant j <= outData.Length && outData[j..] == orig[j..]
      invariant port.trace == InOutTrace(t, bits[..k], dev)
      invariant outData[..j] == PackBits(InOutSamples(t, bits[..k], dev))
      invariant outByte == if j == 0 then 0 else outData[j - 1]
    {
      var count := if remaining <= 8 then remaining else 8;
      ghost var k0 := k;
      k := k + count;
      inByte, outByte := InOutPass(port, numBits, inData, outData, j, count, t, dev, bits, orig, k0, k);
      b := count;
      remaining := remaining - count;
      j := j + 1;
    }
    assert bits[..numBits - 1] == bits[..k];
  }

  /**
   * The final bit of jShiftInOut: one more sample joins the last, partly
   * filled byte, whose earlier samples are in outByte.
   */
  lemma InOutFinalByte(s: seq<bool>, x: bool, q: nat, b: nat, outByte: byte)
    requires |s| == 8 * q + b && b < 8
    requires outByte == PackByte(s[8 * q..])
    ensures q < |PackBits(s + [x])| && q <= |PackBits(s)|
    ensures outByte + (if x then Pow2(b) else 0) < 256
    ensures PackBits(s + [x]) == PackBits(s)[..q] + [outByte + (if x then Pow2(b) else 0)]
  {
    var c := s[8 * q..];
    assert |c| == b && q == |s| / 8;
    PackBitsAppendBit(s, x);
    PackByteSnoc(c, x);
    PackByteFits(c + [x]);
  }

  /** A whole sampled shift is the run of all bits but the last, TMS raised, and the last bit. */
  lemma ShiftInOutSnoc(t: seq<Event>, init: seq<bool>, x: bool, device: seq<Event> -> bool)
    ensures ShiftInOutTrace(t, init + [x], device)
         == InOutTrace(t, init, device) + [Tms(true)] + OutStep(InOutTrace(t, init, device) + [Tms(true)], x, device)
    ensures ShiftInOutSamples(t, init + [x], device)
         == InOutSamples(t, init, device) + [device(InOutTrace(t, init, device) + [Tms(true)] + [Tdi(x)])]
  {
    assert (init + [x])[..|init|] == init;
    var u := InOutTrace(t, init, device);
    assert u + [Tms(true)] + [Tdi(x)] == u + [Tms(true), Tdi(x)];
  }

  /**
   * The step between the chunk loop and the final bit of jShiftInOut: find the
   * byte and bit position of the last bit and the partly filled output byte.
   * As written, a full last chunk leaves the mask at bit 8; the model moves on
   * to the next byte and starts a new output byte (see AsWrittenFinalTdi).
   */
  method InOutAlign(inData: array<byte>, numBits: nat, inByte: byte, outByte: byte, b: nat, j: nat,
                    ghost bits: seq<bool>, ghost s: seq<bool>)
      returns (level: bool, lastByte: byte, b': nat, j': nat)
    requires numBits >= 1 && BitsToBytes(numBits) <= inData.Length && bits == InBits(inData[..], numBits)
    requires |s| == numBits - 1 && j == |PackBits(s)|
    requires (j == 0 && b == 0 && numBits == 1) || (j > 0 && 1 <= b <= 8 && 8 * (j - 1) + b == numBits - 1)
    requires j <= inData.Length && inByte == inData[if j == 0 then 0 else j - 1]
    requires outByte == if j == 0 then 0 else PackBits(s)[j - 1]
    ensures 8 * j' + b' == numBits - 1 && b' < 8 && BitsToBytes(numBits) == j' + 1
    ensures j' == j || j' + 1 == j
    ensures bits == bits[..numBits - 1] + [level]
    ensures lastByte == PackByte(s[8 * j'..])
  {
    level, b', j' := LastBit(inData, numBits, inByte, b, j, bits);
    lastByte := if b == 8 then 0 else outByte;
    assert j' == |s| / 8 && b' == |s| % 8;
    PackBitsAppendBit(s, false);
  }

  /**
   * The final bit of jShiftInOut: raise TMS, shift the last bit with
   * sampling, add its sample to the partly filled output byte at bit b and
   * store that byte as byte j of outData.
   */
  method InOutFinal(port: Port, outData: array<byte>, level: bool, outByte: byte, b: nat, j: nat, stored: nat,
                    ghost t: seq<Event>, ghost dev: seq<Event> -> bool, ghost init: seq<bool>,
                    ghost s: seq<bool>, ghost orig: seq<byte>)
    requires dev == port.device && port.trace == InOutTrace(t, init, dev)
    requires s == InOutSamples(t, init, dev) && |s| == 8 * j + b && b < 8
    requires outByte == PackByte(s[8 * j..])
    requires j < outData.Length && |orig| == outData.Length && (stored == j || stored == j + 1)
    requires outData[..stored] == PackBits(s) && outData[stored..] == orig[stored..]
    modifies port, outData
    ensures port.trace == ShiftInOutTrace(t, init + [level], dev)
    ensures outData[..j + 1] == PackBits(ShiftInOutSamples(t, init + [level], dev))
    ensures outData[j + 1..] == orig[j + 1..]
  {
    ghost var u := port.trace + [Tms(true)];
    ghost var sample := dev(u + [Tdi(level)]);
    ghost var packed := PackBits(ShiftInOutSamples(t, init + [level], dev));
    ShiftInOutSnoc(t, init, level, dev);
    assert ShiftInOutSamples(t, init + [level], dev) == s + [sample];
    InOutFinalByte(s, sample, j, b, outByte);
    ghost var last := outByte + (if sample then Pow2(b) else 0);
    assert packed == PackBits(s)[..j] + [last];
    assert outData[..j] == PackBits(s)[..j];
    assert outData[j + 1..] == orig[j + 1..];
    port.SetTms(true);
    var sampled := InOut(port, level);
    assert sampled == sample;
    var r := outByte;
    if sampled {
      r := r + Pow2(b);
    }
    assert r == last;
    ghost var before := outData[..j];
    assert before == PackBits(s)[..j];
    Store(outData, j, r);
    assert outData[..j + 1] == before + [last];
  }

  /**
   * jShiftInOut: shift the first numBits bits of inData into TDI as
   * jShiftInOnly does, reading TDO before each rising edge, and store the
   * levels read, LSB first within each byte, in outData. The final bit is
   * modelled as corrected (see ShiftDefects.AsWrittenOutWrites for the code as written).
   */
  method JShiftInOut(port: Port, numBits: nat, inData: array<byte>, outData: array<byte>)
    requires numBits >= 1 && BitsToBytes(numBits) <= inData.Length && BitsToBytes(numBits) <= outData.Length
    requires inData != outData
    modifies port, outData
    ensures port.trace == ShiftInOutTrace(old(port.trace), InBits(inData[..], numBits), port.device)
    ensures outData[..BitsToBytes(numBits)]
         == PackBits(ShiftInOutSamples(old(port.trace), InBits(inData[..], numBits), port.device))
    ensures outData[BitsToBytes(numBits)..] == old(outData[BitsToBytes(numBits)..])
  {
    ghost var t, dev, bits, orig := port.trace, port.device, InBits(inData[..], numBits), outData[..];
    var inByte, outByte, b, j := InOutLeading(port, numBits, inData, outData, t, dev, bits, orig);
    ghost var init := bits[..numBits - 1];
    ghost var s := InOutSamples(t, init, dev);
    var level, lastByte, b', j' := InOutAlign(inData, numBits, inByte, outByte, b, j, bits, s);
    assert bits == init + [level] && j' + 1 == BitsToBytes(numBits);
    InOutFinal(port, outData, level, lastByte, b', j', j, t, dev, init, s, orig);
    assert inData[..] == old(inData[..]);
  }
}
