/**
 * The pulse-processing side of the decoder: the edge classifier that turns
 * timestamped signal levels into bits and minute boundaries, first as a
 * function of the decoder state, then as the class whose methods update
 * that state in place.
 */
module Receiver {
  import opened FrameLayout
  import opened Accumulator

  /** A LOW pulse shorter than this many milliseconds is a 0, otherwise a 1. */
  const SPLIT_MILLIS: bv32 := 170
  /** Falling edges further apart than this many milliseconds enclose the missing second 59. */
  const SYNC_MILLIS: bv32 := 1200

  /** Signal levels as the pin reads them. */
  const LOW: int := 0
  const HIGH: int := 1

  /** One sample of the pulse queue: level and `millis()` timestamp (a wrapping 32-bit counter). */
  datatype Pulse = Pulse(level: int, time: bv32)

  /** Decoder state: the accumulator and the recorded previous pulse. */
  datatype State = State(acc: Acc, previous: Pulse)

  /** A new decoder state together with the frames handed to the frame callback. */
  datatype Stepped = Stepped(state: State, emitted: seq<Frame>)

  /**
   * Milliseconds from `since` to `now` on the wrapping 32-bit clock: the
   * unsigned difference of the two timestamps.
   */
  function Elapsed(since: bv32, now: bv32): bv32
  {
    now - since
  }

  /** The timestamp `w` milliseconds after `t` on the wrapping 32-bit clock. */
  function Later(t: bv32, w: bv32): bv32
  {
    t + w
  }

  /** A timestamp taken `w` ms after `since` is `w` ms later, also across a wrap-around of the counter. */
  lemma ElapsedAfter(since: bv32, w: bv32)
    ensures Elapsed(since, Later(since, w)) == w
  {
    assert Later(since, w) == since + w;
    assert (since + w) - since == w;
  }

  /** The bit a rising edge `width` milliseconds after the last falling edge stands for. */
  function BitOfWidth(width: bv32): (b: bv32)
    ensures b <= 1
    ensures b == 0 <==> width < SPLIT_MILLIS
  {
    if width < SPLIT_MILLIS then 0 else 1
  }

  /**
   * One iteration of the draining loop of `processReceivedBits`.  A LOW
   * sample after a non-LOW recorded level is a falling edge: if it lies more
   * than 1200 ms after the recorded falling edge the frame is concluded and,
   * when accepted, handed to the callback; the sample becomes the recorded
   * pulse.  A non-LOW sample after a recorded level other than HIGH is a
   * rising edge: the time since the recorded falling edge decides the bit,
   * and only the recorded level changes.  Any other sample changes nothing.
   */
  function Step(s: State, x: Pulse): (r: Stepped)
    ensures x.level == LOW && s.previous.level == LOW ==> r == Stepped(s, [])
    ensures x.level != LOW && s.previous.level == HIGH ==> r == Stepped(s, [])
    ensures x.level == LOW && s.previous.level != LOW ==> r.state.previous == x
    ensures x.level == LOW && s.previous.level != LOW ==>
      r.state.acc == (if Elapsed(s.previous.time, x.time) > SYNC_MILLIS then Fresh(s.acc.parity) else s.acc)
    ensures x.level != LOW && s.previous.level != HIGH ==>
      r == Stepped(State(AppendBit(s.acc, BitOfWidth(Elapsed(s.previous.time, x.time))), Pulse(x.level, s.previous.time)), [])
    ensures r.emitted != [] <==>
      x.level == LOW && s.previous.level != LOW && Elapsed(s.previous.time, x.time) > SYNC_MILLIS && Conclude(s.acc).ok
    ensures r.emitted == [] || r.emitted == [s.acc.buffer]
  {
    if x.level == LOW then
      if s.previous.level != LOW then
        if Elapsed(s.previous.time, x.time) > SYNC_MILLIS then
          var c := Conclude(s.acc);
          Stepped(State(c.next, x), if c.ok then [c.frame] else [])
        else
          Stepped(State(s.acc, x), [])
      else
        Stepped(s, [])
    else if s.previous.level != HIGH then
      var bit := BitOfWidth(Elapsed(s.previous.time, x.time));
      Stepped(State(AppendBit(s.acc, bit), Pulse(x.level, s.previous.time)), [])
    else
      Stepped(s, [])
  }

  /** `processReceivedBits` over a whole queue: the steps in order, frames collected. */
  function Process(s: State, xs: seq<Pulse>): Stepped
  {
    if xs == [] then Stepped(s, [])
    else
      var r := Process(s, xs[..|xs| - 1]);
      var t := Step(r.state, xs[|xs| - 1]);
      Stepped(t.state, r.emitted + t.emitted)
  }

  /** Processing two queues one after the other is processing their concatenation. */
  lemma {:induction false} ProcessAppend(s: State, xs: seq<Pulse>, ys: seq<Pulse>)
    ensures var r := Process(s, xs);
      var t := Process(r.state, ys);
      Process(s, xs + ys) == Stepped(t.state, r.emitted + t.emitted)
    decreases |ys|
  {
    if ys == [] {
      assert xs + ys == xs;
    } else {
      var zs := ys[..|ys| - 1];
      var y := ys[|ys| - 1];
      assert (xs + ys)[..|xs + ys| - 1] == xs + zs;
      assert (xs + ys)[|xs + ys| - 1] == y;
      var r := Process(s, xs);
      var t := Process(r.state, zs);
      var u := Step(t.state, y);
      ProcessAppend(s, xs, zs);
      assert Process(s, xs + ys) == Stepped(u.state, (r.emitted + t.emitted) + u.emitted);
      assert Process(r.state, ys) == Stepped(u.state, t.emitted + u.emitted);
      assert (r.emitted + t.emitted) + u.emitted == r.emitted + (t.emitted + u.emitted);
    }
  }

  // ---------------------------------------------------------------------
  // Safety: only frames that pass the parity checks are ever emitted

  /** One step keeps the accumulator consistent, and what it emits passes the parity checks. */
  lemma StepConsistent(s: State, x: Pulse)
    requires Consistent(s.acc)
    ensures Consistent(Step(s, x).state.acc)
    ensures forall g | g in Step(s, x).emitted :: ParityOk(g)
  {
    if x.level == LOW && s.previous.level != LOW && Elapsed(s.previous.time, x.time) > SYNC_MILLIS {
      ConcludeConsistent(s.acc);
      if Conclude(s.acc).ok {
        AcceptedPassesParity(s.acc);
      }
    } else if x.level != LOW && s.previous.level != HIGH {
      AppendConsistent(s.acc, BitOfWidth(Elapsed(s.previous.time, x.time)));
    }
  }

  /**
   * Whatever the queue holds (noise, missing or extra pulses, clock
   * wrap-around), a decoder that starts consistent, e.g. freshly reset,
   * hands only frames that pass all three parity checks to the callback.
   */
  lemma {:induction false} ProcessEmitsOnlyParityOk(s: State, xs: seq<Pulse>)
    requires Consistent(s.acc)
    ensures Consistent(Process(s, xs).state.acc)
    ensures forall g | g in Process(s, xs).emitted :: ParityOk(g)
  {
    if xs != [] {
      var r := Process(s, xs[..|xs| - 1]);
      ProcessEmitsOnlyParityOk(s, xs[..|xs| - 1]);
      StepConsistent(r.state, xs[|xs| - 1]);
    }
  }

  // ---------------------------------------------------------------------
  // Liveness for a clean signal: one minute of correctly timed pulses

  /** Pulse width of second k: 100 ms for a 0, 200 ms for a 1. */
  function Width(f: Frame, k: nat): bv32
    requires k < 64
  {
    if Bit(f, k) then 200 else 100
  }

  /** The falling edge that starts second k of a minute whose marker edge is at t. */
  function SecondStart(t: bv32, k: nat): bv32
  {
    if k == 0 then t else Later(SecondStart(t, k - 1), 1000)
  }

  /**
   * The samples of seconds 0 .. n-1 after the minute marker at t: the end
   * of each second's LOW pulse, then the falling edge starting the next
   * second; second 58 has no successor inside the minute.
   */
  function Seconds(f: Frame, t: bv32, n: nat): seq<Pulse>
    requires n <= FRAME_BITS
  {
    if n == 0 then []
    else
      var k := n - 1;
      var rise := Pulse(HIGH, Later(SecondStart(t, k), Width(f, k)));
      Seconds(f, t, k) + (if n < FRAME_BITS then [rise, Pulse(LOW, SecondStart(t, n))] else [rise])
  }

  /** A whole minute: 59 seconds of pulses, then the next minute marker two seconds after second 58 began. */
  function MinuteOfPulses(f: Frame, t: bv32): seq<Pulse>
  {
    Seconds(f, t, FRAME_BITS) + [Pulse(LOW, Later(SecondStart(t, 58), 2000))]
  }

  /** Processing two samples is stepping through them in order. */
  lemma ProcessPair(s: State, x: Pulse, y: Pulse)
    ensures var r := Step(s, x);
      var t := Step(r.state, y);
      Process(s, [x, y]) == Stepped(t.state, r.emitted + t.emitted)
  {
    assert [x, y][..1] == [x];
    ProcessOne(s, x);
  }

  /** Processing one sample is one step. */
  lemma ProcessOne(s: State, x: Pulse)
    ensures Process(s, [x]) == Step(s, x)
  {
    assert [x][..0] == [];
  }

  /** A rising edge `w` ms after the recorded falling edge appends the bit `w` stands for. */
  lemma RisingEdgeStep(a: Acc, t0: bv32, w: bv32)
    ensures Step(State(a, Pulse(LOW, t0)), Pulse(HIGH, Later(t0, w)))
      == Stepped(State(AppendBit(a, BitOfWidth(w)), Pulse(HIGH, t0)), [])
  {
    ElapsedAfter(t0, w);
  }

  /** A falling edge at most 1200 ms after the recorded one starts a new second without concluding. */
  lemma FallingEdgeStep(a: Acc, t0: bv32, w: bv32)
    requires w <= SYNC_MILLIS
    ensures Step(State(a, Pulse(HIGH, t0)), Pulse(LOW, Later(t0, w))) == Stepped(State(a, Pulse(LOW, Later(t0, w))), [])
  {
    ElapsedAfter(t0, w);
  }

  /** A falling edge more than 1200 ms after the recorded one is a minute marker: it concludes. */
  lemma MarkerStep(a: Acc, t0: bv32, w: bv32)
    requires w > SYNC_MILLIS
    ensures Step(State(a, Pulse(HIGH, t0)), Pulse(LOW, Later(t0, w)))
      == Stepped(State(Fresh(a.parity), Pulse(LOW, Later(t0, w))), if Conclude(a).ok then [a.buffer] else [])
  {
    ElapsedAfter(t0, w);
  }

  /** A 100 ms pulse reads as 0 and a 200 ms pulse as 1. */
  lemma WidthBit(f: Frame, k: nat)
    requires k < 64
    ensures BitOfWidth(Width(f, k)) == SignalOf(f, k)
  {
  }

  /** The pulses of the first n < 59 seconds append their bits and emit nothing. */
  lemma {:induction false} SecondsFed(p: Parity, f: Frame, t: bv32, n: nat)
    requires n < FRAME_BITS
    ensures Process(State(Fresh(p), Pulse(LOW, t)), Seconds(f, t, n))
      == Stepped(State(Feed(Fresh(p), f, n), Pulse(LOW, SecondStart(t, n))), [])
  {
    if n > 0 {
      var k := n - 1;
      var s0 := State(Fresh(p), Pulse(LOW, t));
      var a := Feed(Fresh(p), f, k);
      var start := SecondStart(t, k);
      var rise := Pulse(HIGH, Later(start, Width(f, k)));
      var fall := Pulse(LOW, Later(start, 1000));
      var mid := State(a, Pulse(LOW, start));
      var b := AppendBit(a, SignalOf(f, k));
      assert SecondStart(t, n) == Later(start, 1000);
      assert Seconds(f, t, n) == Seconds(f, t, k) + [rise, fall];
      SecondsFed(p, f, t, k);
      assert Process(s0, Seconds(f, t, k)) == Stepped(mid, []);
      RisingEdgeStep(a, start, Width(f, k));
      WidthBit(f, k);
      assert Step(mid, rise) == Stepped(State(b, Pulse(HIGH, start)), []);
      FallingEdgeStep(b, start, 1000);
      assert Step(State(b, Pulse(HIGH, start)), fall) == Stepped(State(b, fall), []);
      ProcessPair(mid, rise, fall);
      assert Process(mid, [rise, fall]) == Stepped(State(b, fall), []);
      ProcessAppend(s0, Seconds(f, t, k), [rise, fall]);
      assert Process(s0, Seconds(f, t, n)) == Stepped(State(b, fall), []);
      assert Feed(Fresh(p), f, n) == b;
    }
  }

  /** The pulses of all 59 seconds append all 59 bits and end on the rising edge of second 58. */
  lemma SecondsAllFed(p: Parity, f: Frame, t: bv32)
    ensures Process(State(Fresh(p), Pulse(LOW, t)), Seconds(f, t, FRAME_BITS))
      == Stepped(State(Feed(Fresh(p), f, FRAME_BITS), Pulse(HIGH, SecondStart(t, 58))), [])
  {
    var s0 := State(Fresh(p), Pulse(LOW, t));
    var a := Feed(Fresh(p), f, 58);
    var start := SecondStart(t, 58);
    var rise := Pulse(HIGH, Later(start, Width(f, 58)));
    SecondsFed(p, f, t, 58);
    assert Seconds(f, t, FRAME_BITS) == Seconds(f, t, 58) + [rise];
    ProcessAppend(s0, Seconds(f, t, 58), [rise]);
    ProcessOne(State(a, Pulse(LOW, start)), rise);
    RisingEdgeStep(a, start, Width(f, 58));
    WidthBit(f, 58);
  }

  /**
   * After a whole minute the decoder has concluded the 59 transmitted bits
   * and is reset, with the closing marker recorded.
   */
  lemma MinuteProcessed(p: Parity, f: Frame, t: bv32)
    ensures var a := Feed(Fresh(p), f, FRAME_BITS);
      Process(State(Fresh(p), Pulse(LOW, t)), MinuteOfPulses(f, t))
        == Stepped(State(Fresh(a.parity), Pulse(LOW, Later(SecondStart(t, 58), 2000))),
                   if Conclude(a).ok then [a.buffer] else [])
  {
    var s0 := State(Fresh(p), Pulse(LOW, t));
    var b := Feed(Fresh(p), f, FRAME_BITS);
    var start := SecondStart(t, 58);
    var marker := Pulse(LOW, Later(start, 2000));
    SecondsAllFed(p, f, t);
    ProcessAppend(s0, Seconds(f, t, FRAME_BITS), [marker]);
    ProcessOne(State(b, Pulse(HIGH, start)), marker);
    MarkerStep(b, start, 2000);
    assert [] + (if Conclude(b).ok then [b.buffer] else []) == (if Conclude(b).ok then [b.buffer] else []);
  }

  /** One minute of correctly timed pulses yields a frame exactly when the transmitted frame passes the parity checks. */
  lemma MinuteAccepted(p: Parity, f: Frame, t: bv32)
    ensures Process(State(Fresh(p), Pulse(LOW, t)), MinuteOfPulses(f, t)).emitted != [] <==> ParityOk(f)
  {
    MinuteProcessed(p, f, t);
    ConcludeFed(p, f, FRAME_BITS);
  }

  /** The frame decoded from one minute of pulses holds exactly the transmitted bits 0-58. */
  lemma MinuteDecoded(p: Parity, f: Frame, t: bv32)
    ensures forall g | g in Process(State(Fresh(p), Pulse(LOW, t)), MinuteOfPulses(f, t)).emitted ::
      forall j: nat | j < 64 :: Bit(g, j) == (j < FRAME_BITS && Bit(f, j))
  {
    MinuteProcessed(p, f, t);
    ConcludedFrame(p, f, FRAME_BITS);
  }

  // ---------------------------------------------------------------------
  // Two decoders sharing the global flags

  /** The all-zero word has even parity over every window. */
  lemma {:induction false} ZeroWindowParity(lo: nat, hi: nat)
    requires lo <= hi <= 64
    ensures !WindowParity(0, lo, hi)
    decreases hi - lo
  {
    if lo < hi {
      ZeroWindowParity(lo, hi - 1);
      assert !Bit(0, hi - 1);
    }
  }

  /**
   * The parity flags are one object for the whole program, while every
   * receiver instance keeps its own buffer and position.  Decoder `a` has
   * just taken the 59 bits of a frame whose only one is P3, so its date
   * parity is wrong and on its own it rejects the frame.  A second decoder
   * at its bit 58 captures the shared running parity (which holds `a`'s
   * P3) as the date parity, and `a` then accepts the frame.
   */
  lemma SharedFlagsAcceptBadFrame()
    ensures var a := Acc(0 ^ Single(P3_BIT), FRAME_BITS, Parity(true, false, false, false));
      var b := AppendBit(Acc(0, P3_BIT, a.parity), 0);
      && Consistent(a) && !ParityOk(a.buffer) && !Conclude(a).ok
      && Conclude(Acc(a.buffer, a.position, b.parity)).ok
  {
    var g := 0 ^ Single(P3_BIT);
    forall j: nat | j < 64
      ensures Bit(g, j) == (j == P3_BIT)
    {
      BitOfFlip(0, P3_BIT, j);
    }
    ZeroWindowParity(MINUTE_OFFSET, P1_BIT);
    ZeroWindowParity(HOUR_OFFSET, P2_BIT);
    ZeroWindowParity(DAY_OFFSET, P3_BIT);
    ZeroWindowParity(DAY_OFFSET, FRAME_BITS);
    WindowParityAgree(0, g, MINUTE_OFFSET, P1_BIT);
    WindowParityAgree(0, g, HOUR_OFFSET, P2_BIT);
    WindowParityAgree(0, g, DAY_OFFSET, P3_BIT);
    WindowParityFlip(0, DAY_OFFSET, FRAME_BITS, P3_BIT);
  }

  // ---------------------------------------------------------------------
  // The decoder object

  /** The global parity bit-field shared by all decoder objects. */
  class ParityFlags {
    var parityFlag: bool
    var parityMin: bool
    var parityHour: bool
    var parityDate: bool

    /** Static storage starts zeroed. */
    constructor ()
      ensures Value() == Parity(false, false, false, false)
    {
      parityFlag, parityMin, parityHour, parityDate := false, false, false, false;
    }

    function Value(): Parity
      reads this
    {
      Parity(parityFlag, parityMin, parityHour, parityDate)
    }
  }

  /** `Dcf77Base`: bit buffer, bit position and recorded pulse, plus the shared parity flags. */
  class Dcf77Base {
    var rxBitBuffer: Frame
    var rxPosition: nat
    var previousPulse: Pulse
    const flags: ParityFlags

    /**
     * A decoder with an empty buffer at position 0; the previous-pulse
     * timestamp starts at 0 and its level is whatever `begin` read from the pin.
     */
    constructor (flags: ParityFlags, initialLevel: int)
      ensures this.flags == flags
      ensures Acc() == Fresh(flags.Value())
      ensures previousPulse == Pulse(initialLevel, 0)
    {
      this.flags := flags;
      rxBitBuffer := 0;
      rxPosition := 0;
      previousPulse := Pulse(initialLevel, 0);
    }

    function Acc(): Acc
      reads this, flags
    {
      Accumulator.Acc(rxBitBuffer, rxPosition, flags.Value())
    }

    function Snapshot(): State
      reads this, flags
    {
      State(Acc(), previousPulse)
    }

    /** `appendReceivedBit`, updating the buffer, the position and the shared flags in place. */
    method AppendReceivedBit(signalBit: bv32)
      modifies this, flags
      ensures Acc() == AppendBit(old(Acc()), signalBit)
      ensures previousPulse == old(previousPulse)
    {
      if rxPosition < 59 {
        rxBitBuffer := OrAt(rxBitBuffer, signalBit, rxPosition);
        if rxPosition == 21 || rxPosition == 29 || rxPosition == 36 {
          flags.parityFlag := false;
        }
        if rxPosition == 28 {
          flags.parityMin := flags.parityFlag;
        }
        if rxPosition == 35 {
          flags.parityHour := flags.parityFlag;
        }
        if rxPosition == 58 {
          flags.parityDate := flags.parityFlag;
        }
        if signalBit == 1 {
          flags.parityFlag := !flags.parityFlag;
        }
        rxPosition := rxPosition + 1;
      }
    }

    /** `concludeReceivedBits`: hands out the buffer with the verdict and resets; the flags are untouched. */
    method ConcludeReceivedBits() returns (ok: bool, frame: Frame)
      modifies this
      ensures Conclusion(ok, frame, Acc()) == Conclude(old(Acc()))
      ensures previousPulse == old(previousPulse)
    {
      ok := rxPosition == 59;
      frame := rxBitBuffer;
      rxPosition := 0;
      rxBitBuffer := 0;
      if ok {
        ok := flags.parityMin == Bit(frame, 28) && flags.parityHour == Bit(frame, 35)
          && flags.parityDate == Bit(frame, 58);
      }
    }

    /**
     * One pass of the draining loop of `processReceivedBits`: classifies
     * `pulse` against the recorded one; returns the frame handed to the
     * callback, if any.
     */
    method ProcessPulse(pulse: Pulse) returns (emitted: seq<Frame>)
      modifies this, flags
      ensures Stepped(Snapshot(), emitted) == Step(old(Snapshot()), pulse)
    {
      emitted := [];
      if pulse.level == LOW {
        if previousPulse.level != LOW {
          if Elapsed(previousPulse.time, pulse.time) > SYNC_MILLIS {
            var ok, frame := ConcludeReceivedBits();
            if ok {
              emitted := [frame];
            }
          }
          previousPulse := pulse;
        }
      } else {
        if previousPulse.level != HIGH {
          var difference := Elapsed(previousPulse.time, pulse.time);
          var bit: bv32 := if difference < SPLIT_MILLIS then 0 else 1;
          AppendReceivedBit(bit);
          previousPulse := previousPulse.(level := pulse.level);
        }
      }
    }

    /**
     * `processReceivedBits`: drains the queue `pulses` in order; the frames
     * handed to the callback are returned in the order they were accepted.
     */
    method ProcessReceivedBits(pulses: seq<Pulse>) returns (frames: seq<Frame>)
      modifies this, flags
      ensures Stepped(Snapshot(), frames) == Process(old(Snapshot()), pulses)
    {
      frames := [];
      var i := 0;
      while i < |pulses|
        invariant 0 <= i <= |pulses|
        invariant Stepped(Snapshot(), frames) == Process(old(Snapshot()), pulses[..i])
      {
        var emitted := ProcessPulse(pulses[i]);
        frames := frames + emitted;
        assert pulses[..i + 1][..i] == pulses[..i];
        i := i + 1;
      }
      assert pulses[..i] == pulses;
    }
  }
}
