/**
 * The Lamport clock every operation layer ticks, and the time-tracking object
 * that owns one.  Wall-clock timestamps and the event log file are not part
 * of this model.
 */
module Clocks {
  import opened Types

  /** An event seen by a Lamport clock: a local tick or a received timestamp. */
  datatype Event = Tick | Receive(received: int)

  /** The larger of two timestamps. */
  function Max(a: int, b: int): (m: int)
    ensures m >= a && m >= b
    ensures m == a || m == b
  {
    if a >= b then a else b
  }

  /** The clock value after one event. */
  function Step(clock: int, e: Event): (next: int)
    ensures next > clock
    ensures e.Receive? ==> next > e.received
  {
    match e
    case Tick => clock + 1
    case Receive(r) => Max(clock, r) + 1
  }

  /** The values a clock returns for the events `es`, one per event. */
  function Readings(clock: int, es: seq<Event>): (rs: seq<int>)
    ensures |rs| == |es|
    decreases |es|
  {
    if es == [] then [] else
      var next := Step(clock, es[0]);
      [next] + Readings(next, es[1..])
  }

  /** The clock value after all of `es`. */
  function After(clock: int, es: seq<Event>): int
    decreases |es|
  {
    if es == [] then clock else After(Step(clock, es[0]), es[1..])
  }

  /**
   * Every reading exceeds the starting value and every earlier reading, and
   * the final clock equals the last reading.
   */
  lemma {:induction false} ReadingsIncrease(clock: int, es: seq<Event>)
    ensures forall i :: 0 <= i < |es| ==> clock < Readings(clock, es)[i]
    ensures forall i, j :: 0 <= i < j < |es| ==> Readings(clock, es)[i] < Readings(clock, es)[j]
    ensures es != [] ==> After(clock, es) == Last(Readings(clock, es))
    ensures es == [] ==> After(clock, es) == clock
    decreases |es|
  {
    if es != [] {
      var next := Step(clock, es[0]);
      ReadingsIncrease(next, es[1..]);
      var rs := Readings(clock, es);
      assert rs == [next] + Readings(next, es[1..]);
      forall i, j | 0 <= i < j < |es|
        ensures rs[i] < rs[j]
      {
        assert rs[j] == Readings(next, es[1..])[j - 1];
        if i > 0 {
          assert rs[i] == Readings(next, es[1..])[i - 1];
        }
      }
    }
  }

  class LamportClock {
    var clock: int

    /** A new clock reads 0. */
    constructor ()
      ensures clock == 0
    {
      clock := 0;
    }

    /** `increment`: one local event; returns the new value. */
    method Increment() returns (t: int)
      modifies this
      ensures clock == Step(old(clock), Tick)
      ensures t == clock == old(clock) + 1
    {
      clock := clock + 1;
      return clock;
    }

    /** `receive_event`: merge a received timestamp; the result exceeds both. */
    method ReceiveEvent(received: int) returns (t: int)
      modifies this
      ensures clock == Step(old(clock), Receive(received))
      ensures t == clock && t > old(clock) && t > received
    {
      clock := Max(clock, received) + 1;
      return clock;
    }
  }

  class TimeTracking {
    const lamport: LamportClock

    /** A tracker with a fresh clock at 0 (the log file it truncates is not modelled). */
    constructor ()
      ensures fresh(lamport) && lamport.clock == 0
    {
      lamport := new LamportClock();
    }

    /** `get_lamport_times`: one tick of the owned clock. */
    method GetLamportTimes() returns (t: int)
      modifies lamport
      ensures lamport.clock == old(lamport.clock) + 1
      ensures t == lamport.clock
    {
      t := lamport.Increment();
    }
  }

  /** Two successive readings of the same tracker are strictly increasing. */
  method SuccessiveReadings(tracking: TimeTracking) returns (first: int, second: int)
    modifies tracking.lamport
    ensures old(tracking.lamport.clock) < first < second
  {
    first := tracking.GetLamportTimes();
    second := tracking.GetLamportTimes();
  }
}
