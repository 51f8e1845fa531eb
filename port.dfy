/**
 * The four pin callbacks of `struct ParserCallbacks` (setTCK, setTMS, setTDI,
 * getTDO), seen from the player's side.
 *
 * A Port records every call made through it, in order, as an Event. What the
 * device under test drives on TDO is not known to the player; it is modelled
 * as a function of the whole pin history so far, so a sample may depend on
 * everything that was clocked into the device before it.
 */
module Pins {

  /** One callback invocation and the level it set or read. */
  datatype Event =
    | Tck(level: bool)
    | Tms(level: bool)
    | Tdi(level: bool)
    | Tdo(level: bool)

  class Port {
    /** Every callback made so far, oldest first. */
    var trace: seq<Event>
    /** The level on TDO, given the pin history before the read. */
    const device: seq<Event> -> bool

    constructor (device: seq<Event> -> bool)
      ensures this.device == device && trace == []
    {
      this.device := device;
      trace := [];
    }

    /** setTCK */
    method SetTck(level: bool)
      modifies this
      ensures trace == old(trace) + [Tck(level)]
    {
      trace := trace + [Tck(level)];
    }

    /** setTMS */
    method SetTms(level: bool)
      modifies this
      ensures trace == old(trace) + [Tms(level)]
    {
      trace := trace + [Tms(level)];
    }

    /** setTDI */
    method SetTdi(level: bool)
      modifies this
      ensures trace == old(trace) + [Tdi(level)]
    {
      trace := trace + [Tdi(level)];
    }

    /** getTDO: the device decides the level from what it has seen. */
    method GetTdo() returns (level: bool)
      modifies this
      ensures level == device(old(trace))
      ensures trace == old(trace) + [Tdo(level)]
    {
      level := device(trace);
      trace := trace + [Tdo(level)];
    }
  }

  /** The TDO levels read in a run of events, in order. */
  function Samples(es: seq<Event>): (r: seq<bool>)
    ensures |r| <= |es|
  {
    if es == [] then [] else (if es[0].Tdo? then [es[0].level] else []) + Samples(es[1..])
  }

  lemma {:induction false} SamplesConcat(a: seq<Event>, b: seq<Event>)
    ensures Samples(a + b) == Samples(a) + Samples(b)
  {
    if a == [] {
      assert a + b == b;
    } else {
      assert (a + b)[0] == a[0] && (a + b)[1..] == a[1..] + b;
      SamplesConcat(a[1..], b);
    }
  }

  /** The same run with the TDO reads taken out: what the output lines saw. */
  function Driven(es: seq<Event>): (r: seq<Event>)
    ensures |r| <= |es|
  {
    if es == [] then [] else (if es[0].Tdo? then [] else [es[0]]) + Driven(es[1..])
  }

  lemma {:induction false} DrivenConcat(a: seq<Event>, b: seq<Event>)
    ensures Driven(a + b) == Driven(a) + Driven(b)
  {
    if a == [] {
      assert a + b == b;
    } else {
      assert (a + b)[0] == a[0] && (a + b)[1..] == a[1..] + b;
      DrivenConcat(a[1..], b);
    }
  }
  lemma SamplesOne(e: Event)
    ensures Samples([e]) == if e.Tdo? then [e.level] else []
  {
    assert [e][1..] == [];
  }

  lemma DrivenOne(e: Event)
    ensures Driven([e]) == if e.Tdo? then [] else [e]
  {
    assert [e][1..] == [];
  }

}
