/**
 * The frame accumulator of the decoder as a function of its state: the
 * 64-bit bit buffer, the current bit position and the four parity flags
 * (the running parity and the three captured window parities) that the
 * original keeps in a global bit-field.
 */
module Accumulator {
  import opened FrameLayout

  /** The global parity flags: running parity plus the parities captured at P1, P2 and P3. */
  datatype Parity = Parity(toggle: bool, minute: bool, hour: bool, date: bool)

  /** Accumulator state: bit buffer, next bit position, parity flags. */
  datatype Acc = Acc(buffer: Frame, position: nat, parity: Parity)

  /** The state a decoder starts a minute with: empty buffer, position 0, flags as they were. */
  function Fresh(p: Parity): Acc
  {
    Acc(0, 0, p)
  }

  /**
   * `appendReceivedBit`: below position 59 the bit is OR-ed into the buffer
   * at the current position; the running parity is cleared where the
   * minute, hour and date windows start (21, 29, 36); at a parity bit's
   * position (28, 35, 58) the running parity is captured before the bit
   * itself is counted; a bit equal to 1 toggles the running parity; the
   * position advances.  From position 59 on nothing changes.
   */
  function AppendBit(a: Acc, signalBit: bv32): (r: Acc)
    ensures a.position >= FRAME_BITS ==> r == a
    ensures a.position < FRAME_BITS ==> r.position == a.position + 1
  {
    if a.position < FRAME_BITS then
      Acc(OrAt(a.buffer, signalBit, a.position), a.position + 1, NextParity(a.parity, a.position, signalBit))
    else
      a
  }

  /** The buffer with `signalBit` OR-ed in at `position`. */
  function OrAt(buffer: Frame, signalBit: bv32, position: nat): Frame
    requires position < 64
  {
    buffer | ((signalBit as Frame) << (position as bv8))
  }

  /** The parity flags after the bit `signalBit` arrived at `position`. */
  function NextParity(q: Parity, position: nat, signalBit: bv32): Parity
  {
    var running := if position == MINUTE_OFFSET || position == HOUR_OFFSET || position == DAY_OFFSET
      then false else q.toggle;
    var minute := if position == P1_BIT then running else q.minute;
    var hour := if position == P2_BIT then running else q.hour;
    var date := if position == P3_BIT then running else q.date;
    var toggle := if signalBit == 1 then !running else running;
    Parity(toggle, minute, hour, date)
  }

  /** The outcome of `concludeReceivedBits`: verdict, the frame handed out, the reset state. */
  datatype Conclusion = Conclusion(ok: bool, frame: Frame, next: Acc)

  /**
   * `concludeReceivedBits`: the buffer is handed out and the buffer and
   * position are reset whatever the verdict; the parity flags are left as
   * they are.  The frame is accepted iff exactly 59 bits arrived and the
   * three captured parities equal the received parity bits P1, P2, P3.
   */
  function Conclude(a: Acc): (c: Conclusion)
    ensures c.frame == a.buffer
    ensures c.next == Fresh(a.parity)
    ensures c.ok <==> (a.position == FRAME_BITS
      && a.parity.minute == Bit(a.buffer, P1_BIT)
      && a.parity.hour == Bit(a.buffer, P2_BIT)
      && a.parity.date == Bit(a.buffer, P3_BIT))
  {
    var ok := a.position == 59;
    Conclusion(
      ok && a.parity.minute == Bit(a.buffer, 28) && a.parity.hour == Bit(a.buffer, 35)
        && a.parity.date == Bit(a.buffer, 58),
      a.buffer,
      Acc(0, 0, a.parity))
  }

  /** Below position 59, appending a 0/1 bit sets buffer bit `position` to it and keeps every other bit. */
  lemma AppendBitBuffer(a: Acc, signalBit: bv32, j: nat)
    requires a.position < FRAME_BITS && signalBit <= 1 && j < 64
    ensures Bit(AppendBit(a, signalBit).buffer, j) == (Bit(a.buffer, j) || (j == a.position && signalBit == 1))
  {
    BitOfOrAt(a.buffer, signalBit, a.position, j);
  }

  lemma BitOfOrAt(buffer: Frame, signalBit: bv32, position: nat, j: nat)
    requires position < 64 && signalBit <= 1 && j < 64
    ensures Bit(OrAt(buffer, signalBit, position), j) == (Bit(buffer, j) || (j == position && signalBit == 1))
  {
    OrShifted(buffer, signalBit, position as bv8, j as bv8);
    PositionsDistinct(position, j);
  }

  lemma OrShifted(w: Frame, b: bv32, s: bv8, c: bv8)
    requires b <= 1 && s < 64 && c < 64
    ensures ((w | ((b as Frame) << s)) >> c) & 1 == 1 <==> (((w >> c) & 1 == 1) || (b == 1 && s == c))
  {
  }

  // ---------------------------------------------------------------------
  // Feeding the bits of a frame

  /** The signal bit for bit i of f. */
  function SignalOf(f: Frame, i: nat): bv32
    requires i < 64
  {
    if Bit(f, i) then 1 else 0
  }

  /** The state after appending bits 0 .. k-1 of `f`, in order, to `a`. */
  function Feed(a: Acc, f: Frame, k: nat): Acc
    requires k <= 64
  {
    if k == 0 then a else AppendBit(Feed(a, f, k - 1), SignalOf(f, k - 1))
  }

  /** After k appends from position 0 the position is k, held at 59. */
  lemma {:induction false} FedPosition(p: Parity, f: Frame, k: nat)
    requires k <= 64
    ensures Feed(Fresh(p), f, k).position == if k < FRAME_BITS then k else FRAME_BITS
  {
    if k > 0 {
      FedPosition(p, f, k - 1);
    }
  }

  /** After k appends from an empty buffer, the buffer holds f's bits below min(k, 59) and nothing else. */
  lemma {:induction false} FedBuffer(p: Parity, f: Frame, k: nat)
    requires k <= 64
    ensures forall j: nat | j < 64 :: Bit(Feed(Fresh(p), f, k).buffer, j) == (j < k && j < FRAME_BITS && Bit(f, j))
  {
    if k == 0 {
      forall j: nat | j < 64
        ensures !Bit(0, j)
      {
        ZeroBit(j);
      }
    } else {
      FedBuffer(p, f, k - 1);
      FedPosition(p, f, k - 1);
      if k - 1 < FRAME_BITS {
        BufferStep(Feed(Fresh(p), f, k - 1), f, k - 1);
      }
    }
  }

  /** Appending bit s of f to a buffer holding f's bits below s gives the bits below s + 1. */
  lemma BufferStep(a: Acc, f: Frame, s: nat)
    requires s == a.position < FRAME_BITS
    requires forall j: nat | j < 64 :: Bit(a.buffer, j) == (j < s && Bit(f, j))
    ensures forall j: nat | j < 64 :: Bit(AppendBit(a, SignalOf(f, s)).buffer, j) == (j < s + 1 && Bit(f, j))
  {
    forall j: nat | j < 64
      ensures Bit(AppendBit(a, SignalOf(f, s)).buffer, j) == (j < s + 1 && Bit(f, j))
    {
      AppendBitBuffer(a, SignalOf(f, s), j);
    }
  }

  lemma ZeroBit(j: nat)
    requires j < 64
    ensures !Bit(0, j)
  {
  }

  /** Where the parity window that is open after k appends started. */
  function WindowStart(k: nat): nat
  {
    if k > DAY_OFFSET then DAY_OFFSET else if k > HOUR_OFFSET then HOUR_OFFSET else MINUTE_OFFSET
  }

  /**
   * The running parity after k <= 59 appends from position 0: inside a
   * window it is the parity of the window's bits seen so far; before bit 21
   * it still carries the initial flag.
   */
  function RunningParity(p: Parity, f: Frame, k: nat): bool
    requires k <= FRAME_BITS
  {
    if k <= MINUTE_OFFSET then p.toggle != WindowParity(f, 0, k) else WindowParity(f, WindowStart(k), k)
  }

  lemma {:induction false} FedToggle(p: Parity, f: Frame, k: nat)
    requires k <= FRAME_BITS
    ensures Feed(Fresh(p), f, k).parity.toggle == RunningParity(p, f, k)
  {
    if k > 0 {
      FedToggle(p, f, k - 1);
      FedPosition(p, f, k - 1);
      ToggleStep(p, f, k - 1, Feed(Fresh(p), f, k - 1).parity);
    }
  }

  /** One append advances the running parity as `RunningParity` says. */
  lemma ToggleStep(p: Parity, f: Frame, s: nat, q: Parity)
    requires s < FRAME_BITS && q.toggle == RunningParity(p, f, s)
    ensures NextParity(q, s, SignalOf(f, s)).toggle == RunningParity(p, f, s + 1)
  {
    if s == MINUTE_OFFSET || s == HOUR_OFFSET || s == DAY_OFFSET {
      assert WindowParity(f, s, s) == false;
    }
  }

  /** Once position 28 has been passed, the captured minute parity is that of bits 21-27. */
  lemma {:induction false} FedMinute(p: Parity, f: Frame, k: nat)
    requires k <= FRAME_BITS
    ensures Feed(Fresh(p), f, k).parity.minute == if k > P1_BIT then WindowParity(f, MINUTE_OFFSET, P1_BIT) else p.minute
  {
    if k > 0 {
      FedMinute(p, f, k - 1);
      FedToggle(p, f, k - 1);
      FedPosition(p, f, k - 1);
    }
  }

  /** Once position 35 has been passed, the captured hour parity is that of bits 29-34. */
  lemma {:induction false} FedHour(p: Parity, f: Frame, k: nat)
    requires k <= FRAME_BITS
    ensures Feed(Fresh(p), f, k).parity.hour == if k > P2_BIT then WindowParity(f, HOUR_OFFSET, P2_BIT) else p.hour
  {
    if k > 0 {
      FedHour(p, f, k - 1);
      FedToggle(p, f, k - 1);
      FedPosition(p, f, k - 1);
    }
  }

  /** Once position 58 has been passed, the captured date parity is that of bits 36-57. */
  lemma {:induction false} FedDate(p: Parity, f: Frame, k: nat)
    requires k <= FRAME_BITS
    ensures Feed(Fresh(p), f, k).parity.date == if k > P3_BIT then WindowParity(f, DAY_OFFSET, P3_BIT) else p.date
  {
    if k > 0 {
      FedDate(p, f, k - 1);
      FedToggle(p, f, k - 1);
      FedPosition(p, f, k - 1);
    }
  }

  /**
   * Fifty-nine bits appended from position 0 are accepted by the conclusion
   * iff the frame passes the three parity checks, and further bits are
   * ignored; fewer bits are always rejected.
   */
  lemma ConcludeFed(p: Parity, f: Frame, k: nat)
    requires k <= 64
    ensures Conclude(Feed(Fresh(p), f, k)).ok <==> k >= FRAME_BITS && ParityOk(f)
  {
    var a := Feed(Fresh(p), f, k);
    FedPosition(p, f, k);
    if k >= FRAME_BITS {
      FedBuffer(p, f, k);
      FedMinute(p, f, FRAME_BITS);
      FedHour(p, f, FRAME_BITS);
      FedDate(p, f, FRAME_BITS);
      FedBeyond(p, f, k);
    }
  }

  /** Appends beyond the 59th leave the state as it was after the 59th. */
  lemma {:induction false} FedBeyond(p: Parity, f: Frame, k: nat)
    requires FRAME_BITS <= k <= 64
    ensures Feed(Fresh(p), f, k) == Feed(Fresh(p), f, FRAME_BITS)
  {
    if k > FRAME_BITS {
      FedBeyond(p, f, k - 1);
      FedPosition(p, f, k - 1);
    }
  }

  /** The frame the conclusion hands out carries the fed bits below 59 and nothing else. */
  lemma ConcludedFrame(p: Parity, f: Frame, k: nat)
    requires k <= 64
    ensures forall j: nat | j < 64 ::
      Bit(Conclude(Feed(Fresh(p), f, k)).frame, j) == (j < k && j < FRAME_BITS && Bit(f, j))
  {
    FedBuffer(p, f, k);
  }

  /**
   * A correct frame with any single data bit of a parity window flipped in
   * transmission is rejected after its 59 bits.
   */
  lemma FlippedBitRejected(p: Parity, f: Frame, i: nat)
    requires ParityOk(f) && InParityWindow(i)
    ensures !Conclude(Feed(Fresh(p), f ^ Single(i), FRAME_BITS)).ok
  {
    FlippedDataBitFailsParity(f, i);
    ConcludeFed(p, f ^ Single(i), FRAME_BITS);
  }

  // ---------------------------------------------------------------------
  // An invariant of every state the decoder reaches

  /**
   * The state is one the accumulator can reach from a reset: no bit at or
   * above the position is set, and every flag that is defined at this
   * position holds the parity of the buffer bits it covers.
   */
  predicate Consistent(a: Acc)
  {
    && a.position <= FRAME_BITS
    && (forall j: nat | a.position <= j < 64 :: !Bit(a.buffer, j))
    && (a.position > MINUTE_OFFSET ==> a.parity.toggle == WindowParity(a.buffer, WindowStart(a.position), a.position))
    && (a.position > P1_BIT ==> a.parity.minute == WindowParity(a.buffer, MINUTE_OFFSET, P1_BIT))
    && (a.position > P2_BIT ==> a.parity.hour == WindowParity(a.buffer, HOUR_OFFSET, P2_BIT))
    && (a.position > P3_BIT ==> a.parity.date == WindowParity(a.buffer, DAY_OFFSET, P3_BIT))
  }

  /** A reset accumulator is consistent whatever its flags. */
  lemma FreshConsistent(p: Parity)
    ensures Consistent(Fresh(p))
  {
    forall j: nat | j < 64
      ensures !Bit(0, j)
    {
      ZeroBit(j);
    }
  }

  /** Appending a 0/1 bit keeps the accumulator consistent. */
  lemma AppendConsistent(a: Acc, signalBit: bv32)
    requires Consistent(a) && signalBit <= 1
    ensures Consistent(AppendBit(a, signalBit))
  {
    if a.position < FRAME_BITS {
      var r := AppendBit(a, signalBit);
      forall j: nat | j < 64
        ensures Bit(r.buffer, j) == (Bit(a.buffer, j) || (j == a.position && signalBit == 1))
      {
        AppendBitBuffer(a, signalBit, j);
      }
      AppendedWindows(a, r, signalBit);
    }
  }

  /** Bits below `s` are as they were, bit `s` is the appended bit: the buffer relation of one append. */
  predicate OneMoreBit(a: Acc, r: Acc, signalBit: bv32)
  {
    && a.position < FRAME_BITS && r.position == a.position + 1
    && forall j: nat | j < 64 :: Bit(r.buffer, j) == (Bit(a.buffer, j) || (j == a.position && signalBit == 1))
  }

  /** The parity facts of `Consistent` carry over to the buffer with one more bit. */
  lemma AppendedWindows(a: Acc, r: Acc, signalBit: bv32)
    requires Consistent(a) && signalBit <= 1 && a.position < FRAME_BITS
    requires r == AppendBit(a, signalBit)
    requires forall j: nat | j < 64 :: Bit(r.buffer, j) == (Bit(a.buffer, j) || (j == a.position && signalBit == 1))
    ensures Consistent(r)
  {
    assert OneMoreBit(a, r, signalBit);
    AppendedClear(a, r, signalBit);
    AppendedToggle(a, r, signalBit);
    AppendedMinute(a, r, signalBit);
    AppendedHour(a, r, signalBit);
    AppendedDate(a, r, signalBit);
  }

  lemma AppendedClear(a: Acc, r: Acc, signalBit: bv32)
    requires Consistent(a) && OneMoreBit(a, r, signalBit)
    ensures forall j: nat | r.position <= j < 64 :: !Bit(r.buffer, j)
  {
  }

  lemma AppendedMinute(a: Acc, r: Acc, signalBit: bv32)
    requires Consistent(a) && OneMoreBit(a, r, signalBit)
    requires r.parity == NextParity(a.parity, a.position, signalBit)
    ensures r.position > P1_BIT ==> r.parity.minute == WindowParity(r.buffer, MINUTE_OFFSET, P1_BIT)
  {
    if a.position >= P1_BIT {
      AppendedCapture(a, r, signalBit, MINUTE_OFFSET, P1_BIT);
    }
  }

  lemma AppendedHour(a: Acc, r: Acc, signalBit: bv32)
    requires Consistent(a) && OneMoreBit(a, r, signalBit)
    requires r.parity == NextParity(a.parity, a.position, signalBit)
    ensures r.position > P2_BIT ==> r.parity.hour == WindowParity(r.buffer, HOUR_OFFSET, P2_BIT)
  {
    if a.position >= P2_BIT {
      AppendedCapture(a, r, signalBit, HOUR_OFFSET, P2_BIT);
    }
  }

  lemma AppendedDate(a: Acc, r: Acc, signalBit: bv32)
    requires Consistent(a) && OneMoreBit(a, r, signalBit)
    requires r.parity == NextParity(a.parity, a.position, signalBit)
    ensures r.position > P3_BIT ==> r.parity.date == WindowParity(r.buffer, DAY_OFFSET, P3_BIT)
  {
    if a.position >= P3_BIT {
      AppendedCapture(a, r, signalBit, DAY_OFFSET, P3_BIT);
    }
  }

  lemma AppendedToggle(a: Acc, r: Acc, signalBit: bv32)
    requires Consistent(a) && signalBit <= 1 && OneMoreBit(a, r, signalBit)
    requires r.parity == NextParity(a.parity, a.position, signalBit)
    ensures r.position > MINUTE_OFFSET ==> r.parity.toggle == WindowParity(r.buffer, WindowStart(r.position), r.position)
  {
    var s := a.position;
    if s > MINUTE_OFFSET {
      WindowParityAgree(r.buffer, a.buffer, WindowStart(s), s);
    }
    if s == MINUTE_OFFSET || s == HOUR_OFFSET || s == DAY_OFFSET {
      assert WindowParity(r.buffer, s, s) == false;
    }
  }

  /** A captured window parity stays right: the window's bits are all below the position. */
  lemma AppendedCapture(a: Acc, r: Acc, signalBit: bv32, lo: nat, hi: nat)
    requires OneMoreBit(a, r, signalBit)
    requires lo <= hi <= a.position
    ensures WindowParity(r.buffer, lo, hi) == WindowParity(a.buffer, lo, hi)
  {
    WindowParityAgree(r.buffer, a.buffer, lo, hi);
  }

  /** A reset keeps consistency. */
  lemma ConcludeConsistent(a: Acc)
    ensures Consistent(Conclude(a).next)
  {
    FreshConsistent(a.parity);
  }

  /**
   * What a consistent accumulator accepts is a genuine frame: it passes
   * the three parity checks and has no bit set at position 59 or above.
   */
  lemma AcceptedPassesParity(a: Acc)
    requires Consistent(a) && Conclude(a).ok
    ensures ParityOk(Conclude(a).frame)
    ensures forall j: nat | FRAME_BITS <= j < 64 :: !Bit(Conclude(a).frame, j)
  {
  }
}
