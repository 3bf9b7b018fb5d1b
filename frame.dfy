/**
 * The DCF77 minute frame as the decoder stores it: a 64-bit word whose bit i
 * is the bit received in second i of the minute (bit 0 first, the least
 * significant bit), with the field offsets of the `DCF77bits` layout.  The
 * platform bit-field packing of the original is replaced by explicit
 * shift/mask accessors at those offsets.
 */
module FrameLayout {

  /** A received frame or the accumulation buffer (`uint64_t`). */
  type Frame = bv64

  /** Number of bits in a complete minute frame (second 59 carries no pulse). */
  const FRAME_BITS: nat := 59

  // Layout of a frame, bit = second of the minute: 0 minute marker M,
  // 1-14 civil warning bits, 15 call bit R, 16 summer-time announcement A1,
  // 17 Z1 (CEST), 18 Z2 (CET), 19 leap-second announcement A2, 20 start bit S,
  // 21-27 minute, 28 P1, 29-34 hour, 35 P2, 36-41 day, 42-44 weekday,
  // 45-49 month, 50-57 year, 58 P3.
  const Z1_BIT: nat := 17
  const MINUTE_OFFSET: nat := 21   // first bit of the minute field and of the P1 window
  const P1_BIT: nat := 28          // parity over the minute field
  const HOUR_OFFSET: nat := 29     // first bit of the hour field and of the P2 window
  const P2_BIT: nat := 35          // parity over the hour field
  const DAY_OFFSET: nat := 36      // first bit of the date and of the P3 window
  const P3_BIT: nat := 58          // parity over day, weekday, month and year

  /** The word with exactly the three parity bits P1, P2 and P3 set. */
  const PARITY_MASK: Frame := 0x0400_0008_1000_0000

  /** Bit i of a word. */
  function Bit(f: Frame, i: nat): bool
    requires i < 64
  {
    (f >> (i as bv8)) & 1 == 1
  }

  /** The word with only bit i set. */
  function Single(i: nat): Frame
    requires i < 64
  {
    (1 as Frame) << (i as bv8)
  }

  // The numeric fields of the `DCF77bits` layout, each read as an unsigned number.
  function Minute(f: Frame): bv8 { ((f >> 21) & 0x7F) as bv8 }
  function Hour(f: Frame): bv8 { ((f >> 29) & 0x3F) as bv8 }
  function Day(f: Frame): bv8 { ((f >> 36) & 0x3F) as bv8 }
  function Weekday(f: Frame): bv8 { ((f >> 42) & 0x07) as bv8 }
  function Month(f: Frame): bv8 { ((f >> 45) & 0x1F) as bv8 }
  function Year(f: Frame): bv8 { ((f >> 50) & 0xFF) as bv8 }

  // ---------------------------------------------------------------------
  // Single-bit facts.  Each one is a statement about 64-bit words that the
  // solver settles by bit-blasting; the bridge from a `nat` position to the
  // 8-bit shift amount goes through `PositionRoundTrip`.

  lemma PositionRoundTrip(i: nat)
    requires i < 64
    ensures (i as bv8) as int == i
  {
  }

  lemma PositionsDistinct(i: nat, j: nat)
    requires i < 64 && j < 64
    ensures (i as bv8 == j as bv8) == (i == j)
  {
    PositionRoundTrip(i);
    PositionRoundTrip(j);
  }

  lemma FlipShifted(f: Frame, a: bv8, b: bv8)
    requires a < 64 && b < 64
    ensures ((f ^ ((1 as Frame) << a)) >> b) & 1 == 1 <==> (((f >> b) & 1 == 1) != (a == b))
  {
  }

  /** Exclusive or with `Single(i)` flips bit i and no other. */
  lemma BitOfFlip(f: Frame, i: nat, j: nat)
    requires i < 64 && j < 64
    ensures Bit(f ^ Single(i), j) == (Bit(f, j) != (i == j))
  {
    FlipShifted(f, i as bv8, j as bv8);
    PositionsDistinct(i, j);
  }

  lemma OrOutsideMask(w: Frame, m: Frame, c: bv8)
    requires c < 64 && (m >> c) & 1 == 0
    ensures ((w | m) >> c) & 1 == (w >> c) & 1
  {
  }

  lemma MaskBits(c: bv8)
    requires c < 64
    ensures (PARITY_MASK >> c) & 1 == 1 <==> c == 28 || c == 35 || c == 58
  {
  }

  /** OR-ing in a word confined to the parity bits leaves every other bit alone. */
  lemma BitOutsideParity(w: Frame, p: Frame, i: nat)
    requires p & PARITY_MASK == p
    requires i < 64 && i != P1_BIT && i != P2_BIT && i != P3_BIT
    ensures Bit(w | p, i) == Bit(w, i)
  {
    PositionRoundTrip(i);
    MaskBits(i as bv8);
    MaskedOutside(p, i as bv8);
    OrOutsideMask(w, p, i as bv8);
  }

  lemma MaskedOutside(p: Frame, c: bv8)
    requires p & PARITY_MASK == p && c < 64 && (PARITY_MASK >> c) & 1 == 0
    ensures (p >> c) & 1 == 0
  {
  }

  // ---------------------------------------------------------------------
  // Parity windows

  /** Exclusive or of bits lo .. hi-1 of `f`: the even-parity bit of that window. */
  function WindowParity(f: Frame, lo: nat, hi: nat): bool
    requires lo <= hi <= 64
    decreases hi - lo
  {
    if lo == hi then false else WindowParity(f, lo, hi - 1) != Bit(f, hi - 1)
  }

  /**
   * The three DCF77 parity checks: P1 covers the minute bits 21-27, P2 the
   * hour bits 29-34, P3 the date bits 36-57; each parity bit makes the count
   * of ones in its window, itself included, even.
   */
  predicate ParityOk(f: Frame)
  {
    && Bit(f, P1_BIT) == WindowParity(f, MINUTE_OFFSET, P1_BIT)
    && Bit(f, P2_BIT) == WindowParity(f, HOUR_OFFSET, P2_BIT)
    && Bit(f, P3_BIT) == WindowParity(f, DAY_OFFSET, P3_BIT)
  }

  /** Bit positions covered by one of the three parity windows (parity bits excluded). */
  predicate InParityWindow(i: nat)
  {
    (MINUTE_OFFSET <= i < P1_BIT) || (HOUR_OFFSET <= i < P2_BIT) || (DAY_OFFSET <= i < P3_BIT)
  }

  /** Two words that agree on a window have the same parity over it. */
  lemma {:induction false} WindowParityAgree(f: Frame, g: Frame, lo: nat, hi: nat)
    requires lo <= hi <= 64
    requires forall i: nat | lo <= i < hi :: Bit(f, i) == Bit(g, i)
    ensures WindowParity(f, lo, hi) == WindowParity(g, lo, hi)
    decreases hi - lo
  {
    if lo < hi {
      WindowParityAgree(f, g, lo, hi - 1);
    }
  }

  /** Two words that agree on bits 21..58 pass or fail the parity checks together. */
  lemma ParityOkAgree(f: Frame, g: Frame)
    requires forall i: nat | MINUTE_OFFSET <= i < FRAME_BITS :: Bit(f, i) == Bit(g, i)
    ensures ParityOk(f) == ParityOk(g)
  {
    WindowParityAgree(f, g, MINUTE_OFFSET, P1_BIT);
    WindowParityAgree(f, g, HOUR_OFFSET, P2_BIT);
    WindowParityAgree(f, g, DAY_OFFSET, P3_BIT);
  }

  /** Flipping one bit inside a window inverts that window's parity. */
  lemma {:induction false} WindowParityFlip(f: Frame, lo: nat, hi: nat, i: nat)
    requires lo <= i < hi <= 64
    ensures WindowParity(f ^ Single(i), lo, hi) == !WindowParity(f, lo, hi)
    decreases hi - lo
  {
    var g := f ^ Single(i);
    if i < hi - 1 {
      WindowParityFlip(f, lo, hi - 1, i);
      BitOfFlip(f, i, hi - 1);
    } else {
      forall j: nat | lo <= j < i
        ensures Bit(f, j) == Bit(g, j)
      {
        BitOfFlip(f, i, j);
      }
      WindowParityAgree(f, g, lo, i);
      BitOfFlip(f, i, i);
    }
  }

  /**
   * A frame whose three parity checks pass fails them once any single data
   * bit of a parity window is flipped and its parity bit is left alone.
   */
  lemma FlippedDataBitFailsParity(f: Frame, i: nat)
    requires ParityOk(f) && InParityWindow(i)
    ensures !ParityOk(f ^ Single(i))
  {
    if i < P1_BIT {
      WindowParityFlip(f, MINUTE_OFFSET, P1_BIT, i);
      BitOfFlip(f, i, P1_BIT);
    } else if i < P2_BIT {
      WindowParityFlip(f, HOUR_OFFSET, P2_BIT, i);
      BitOfFlip(f, i, P2_BIT);
    } else {
      WindowParityFlip(f, DAY_OFFSET, P3_BIT, i);
      BitOfFlip(f, i, P3_BIT);
    }
  }

  // ---------------------------------------------------------------------
  // Packed BCD

  /** The decimal number a packed-BCD byte spells: tens nibble, units nibble. */
  function Decimal(x: bv8): int
  {
    10 * ((x >> 4) as int) + ((x & 15) as int)
  }

  /** Packed-BCD to binary as the decoder computes it: x - (x / 16) * 6. */
  function BcdToBinary(x: bv8): (r: int)
    ensures r == Decimal(x)
    ensures 0 <= r <= x as int
  {
    (x - (x / 16) * 6) as int
  }

  /** Binary to packed BCD, for numbers of at most two decimal digits. */
  function BinaryToBcd(v: bv8): (x: bv8)
    requires v < 100
    ensures x & 15 <= 9 && x >> 4 <= 9
    ensures x <= v + v / 10 * 6
  {
    16 * (v / 10) + v % 10
  }

  /** Decoding undoes encoding for every two-digit number. */
  lemma BcdRoundTrip(v: bv8)
    requires v < 100
    ensures BcdToBinary(BinaryToBcd(v)) == v as int
  {
  }

  // ---------------------------------------------------------------------
  // Frame to broken-down time

  /** The `tm`-style broken-down time the decoder fills in. */
  datatype Tm = Tm(
    sec: int, min: int, hour: int, mday: int, mon: int,
    year: int, wday: int, yday: int, isdst: int)

  /**
   * `dcf77frame2time`: every numeric field is read as packed BCD; the month
   * becomes 0-based, the year counts from 1900 assuming the 21st century,
   * the DCF77 weekday (1 = Monday .. 7 = Sunday) becomes 0 = Sunday, the
   * second is 0 (the frame marks second 0), the day of the year is unknown
   * (-1), and the daylight flag is the CEST bit Z1.
   */
  function Frame2Time(f: Frame): (t: Tm)
    ensures t.sec == 0 && t.yday == -1
    ensures t.isdst == (if Bit(f, Z1_BIT) then 1 else 0)
    ensures t.min == Decimal(Minute(f)) && t.hour == Decimal(Hour(f)) && t.mday == Decimal(Day(f))
    ensures t.mon == Decimal(Month(f)) - 1
    ensures t.year == 100 + Decimal(Year(f))
    ensures var w := Weekday(f);
      0 <= t.wday < 7 && (w <= 6 ==> t.wday == w as int) && (w == 7 ==> t.wday == 0)
  {
    Tm(
      sec := 0,
      min := BcdToBinary(Minute(f)),
      hour := BcdToBinary(Hour(f)),
      mday := BcdToBinary(Day(f)),
      mon := BcdToBinary(Month(f)) - 1,
      year := 100 + BcdToBinary(Year(f)),
      wday := BcdToBinary(Weekday(f)) % 7,
      yday := -1,
      isdst := if Bit(f, Z1_BIT) then 1 else 0)
  }

  // ---------------------------------------------------------------------
  // The transmitter's side: a civil minute packed into a frame

  /** The time information one DCF77 minute announces. */
  datatype Broadcast = Broadcast(
    minute: bv8, hour: bv8, day: bv8, weekday: bv8, month: bv8, year: bv8, cest: bool)

  predicate WellFormed(b: Broadcast)
  {
    b.minute < 60 && b.hour < 24 && 1 <= b.day <= 31 && 1 <= b.weekday <= 7
    && 1 <= b.month <= 12 && b.year < 100
  }

  /**
   * The data bits of a frame with the given zone and already BCD-coded
   * fields: Z1 or Z2, the start bit S and each field at its offset.
   */
  function Pack(cest: bool, minute: bv8, hour: bv8, day: bv8, weekday: bv8, month: bv8, year: bv8): Frame
    requires minute < 128 && hour < 64 && day < 64 && weekday < 8 && month < 32
  {
    (if cest then 1 << 17 else 1 << 18)
    | (1 << 20)
    | ((minute as Frame) << 21)
    | ((hour as Frame) << 29)
    | ((day as Frame) << 36)
    | ((weekday as Frame) << 42)
    | ((month as Frame) << 45)
    | ((year as Frame) << 50)
  }

  /** The data bits of a broadcast: zone bits, start bit and the BCD fields. */
  function DataBits(b: Broadcast): Frame
    requires WellFormed(b)
  {
    Pack(b.cest, BinaryToBcd(b.minute), BinaryToBcd(b.hour), BinaryToBcd(b.day),
      b.weekday, BinaryToBcd(b.month), BinaryToBcd(b.year))
  }

  /** The word holding parity bits P1, P2 and P3 set to `p1`, `p2` and `p3`. */
  function ParityWord(p1: bool, p2: bool, p3: bool): (p: Frame)
    ensures p & PARITY_MASK == p
    ensures Bit(p, P1_BIT) == p1 && Bit(p, P2_BIT) == p2 && Bit(p, P3_BIT) == p3
  {
    (if p1 then 0x1000_0000 else 0) | (if p2 then 0x8_0000_0000 else 0)
    | (if p3 then 0x0400_0000_0000_0000 else 0)
  }

  /** The three parity bits a transmitter adds to the data bits `data`. */
  function ParityBits(data: Frame): (p: Frame)
    ensures p & PARITY_MASK == p
    ensures Bit(p, P1_BIT) == WindowParity(data, MINUTE_OFFSET, P1_BIT)
    ensures Bit(p, P2_BIT) == WindowParity(data, HOUR_OFFSET, P2_BIT)
    ensures Bit(p, P3_BIT) == WindowParity(data, DAY_OFFSET, P3_BIT)
  {
    ParityWord(
      WindowParity(data, MINUTE_OFFSET, P1_BIT),
      WindowParity(data, HOUR_OFFSET, P2_BIT),
      WindowParity(data, DAY_OFFSET, P3_BIT))
  }

  /** The complete 59-bit frame a transmitter sends for `b`, parity bits included. */
  function Encode(b: Broadcast): Frame
    requires WellFormed(b)
  {
    DataBits(b) | ParityBits(DataBits(b))
  }

  /** Packed data bits leave the parity bits and everything above bit 58 clear. */
  lemma PackLayout(cest: bool, minute: bv8, hour: bv8, day: bv8, weekday: bv8, month: bv8, year: bv8)
    requires minute < 128 && hour < 64 && day < 64 && weekday < 8 && month < 32
    ensures var data := Pack(cest, minute, hour, day, weekday, month, year);
      data & PARITY_MASK == 0 && data >> 59 == 0
  {
  }

  /** Packed data bits carry each field at its offset. */
  lemma PackFields(cest: bool, minute: bv8, hour: bv8, day: bv8, weekday: bv8, month: bv8, year: bv8)
    requires minute < 128 && hour < 64 && day < 64 && weekday < 8 && month < 32
    ensures var d := Pack(cest, minute, hour, day, weekday, month, year);
      && Minute(d) == minute
      && Hour(d) == hour
      && Day(d) == day
      && Weekday(d) == weekday
      && Month(d) == month
      && Year(d) == year
      && Bit(d, Z1_BIT) == cest
  {
  }

  /** Completing data with its parity bits makes every check pass. */
  lemma WithParityOk(data: Frame)
    requires data & PARITY_MASK == 0
    ensures ParityOk(data | ParityBits(data))
  {
    OutsideParityUnchanged(data, ParityBits(data));
    ParityBitsPlaced(data);
    CompletedByParity(data, data | ParityBits(data));
  }

  lemma ParityBitsPlaced(data: Frame)
    requires data & PARITY_MASK == 0
    ensures Bit(data | ParityBits(data), P1_BIT) == WindowParity(data, MINUTE_OFFSET, P1_BIT)
    ensures Bit(data | ParityBits(data), P2_BIT) == WindowParity(data, HOUR_OFFSET, P2_BIT)
    ensures Bit(data | ParityBits(data), P3_BIT) == WindowParity(data, DAY_OFFSET, P3_BIT)
  {
    ParityBitsOnTop(data, ParityBits(data));
  }

  /** The parity bits add nothing above bit 58. */
  lemma ParityBitsFit(data: Frame)
    ensures (data | ParityBits(data)) >> 59 == data >> 59
  {
  }

  /**
   * A word that matches `data` outside the parity positions and carries the
   * parities of `data` in them passes all three checks.
   */
  lemma CompletedByParity(data: Frame, f: Frame)
    requires forall i: nat | i < 64 && i != P1_BIT && i != P2_BIT && i != P3_BIT :: Bit(f, i) == Bit(data, i)
    requires Bit(f, P1_BIT) == WindowParity(data, MINUTE_OFFSET, P1_BIT)
    requires Bit(f, P2_BIT) == WindowParity(data, HOUR_OFFSET, P2_BIT)
    requires Bit(f, P3_BIT) == WindowParity(data, DAY_OFFSET, P3_BIT)
    ensures ParityOk(f)
  {
    CompletedWindow(data, f, MINUTE_OFFSET, P1_BIT);
    CompletedWindow(data, f, HOUR_OFFSET, P2_BIT);
    CompletedWindow(data, f, DAY_OFFSET, P3_BIT);
  }

  lemma OutsideParityUnchanged(data: Frame, p: Frame)
    requires p & PARITY_MASK == p
    ensures forall i: nat | i < 64 && i != P1_BIT && i != P2_BIT && i != P3_BIT :: Bit(data | p, i) == Bit(data, i)
  {
    forall i: nat | i < 64 && i != P1_BIT && i != P2_BIT && i != P3_BIT
      ensures Bit(data | p, i) == Bit(data, i)
    {
      BitOutsideParity(data, p, i);
    }
  }

  /** A window's parity bit is right in `f` when f matches `data` on the window and carries its parity. */
  lemma CompletedWindow(data: Frame, f: Frame, lo: nat, hi: nat)
    requires lo <= hi < 64
    requires forall i: nat | lo <= i < hi :: Bit(f, i) == Bit(data, i)
    requires Bit(f, hi) == WindowParity(data, lo, hi)
    ensures Bit(f, hi) == WindowParity(f, lo, hi)
  {
    WindowParityAgree(f, data, lo, hi);
  }

  /** With the parity positions clear in `data`, OR-ing `p` in sets them to p's bits. */
  lemma ParityBitsOnTop(data: Frame, p: Frame)
    requires data & PARITY_MASK == 0 && p & PARITY_MASK == p
    ensures Bit(data | p, P1_BIT) == Bit(p, P1_BIT)
    ensures Bit(data | p, P2_BIT) == Bit(p, P2_BIT)
    ensures Bit(data | p, P3_BIT) == Bit(p, P3_BIT)
    ensures (data | p) >> 59 == data >> 59
  {
  }

  /** The parity bits lie outside every numeric field and the zone bits. */
  lemma FieldsIgnoreParity(d: Frame, p: Frame)
    requires p & PARITY_MASK == p
    ensures var f := d | p;
      && Minute(f) == Minute(d)
      && Hour(f) == Hour(d)
      && Day(f) == Day(d)
      && Weekday(f) == Weekday(d)
      && Month(f) == Month(d)
      && Year(f) == Year(d)
      && Bit(f, Z1_BIT) == Bit(d, Z1_BIT)
  {
  }

  /** An encoded frame fits in 59 bits and passes all three parity checks. */
  lemma EncodeParityOk(b: Broadcast)
    requires WellFormed(b)
    ensures ParityOk(Encode(b))
    ensures Encode(b) >> 59 == 0
  {
    BcdFieldBounds(b);
    PackLayout(b.cest, BinaryToBcd(b.minute), BinaryToBcd(b.hour), BinaryToBcd(b.day),
      b.weekday, BinaryToBcd(b.month), BinaryToBcd(b.year));
    WithParityOk(DataBits(b));
    ParityBitsFit(DataBits(b));
  }

  lemma PackedFieldsWithParity(cest: bool, minute: bv8, hour: bv8, day: bv8, weekday: bv8, month: bv8, year: bv8, p: Frame)
    requires minute < 128 && hour < 64 && day < 64 && weekday < 8 && month < 32
    requires p & PARITY_MASK == p
    ensures var d := Pack(cest, minute, hour, day, weekday, month, year);
      var f := d | p;
      && Minute(f) == minute && Hour(f) == hour && Day(f) == day && Weekday(f) == weekday
      && Month(f) == month && Year(f) == year && Bit(f, Z1_BIT) == cest
  {
    var d := Pack(cest, minute, hour, day, weekday, month, year);
    PackFields(cest, minute, hour, day, weekday, month, year);
    FieldsIgnoreParity(d, p);
  }

  /** The BCD codes of a well-formed broadcast fit their fields. */
  lemma BcdFieldBounds(b: Broadcast)
    requires WellFormed(b)
    ensures BinaryToBcd(b.minute) < 128 && BinaryToBcd(b.hour) < 64 && BinaryToBcd(b.day) < 64
    ensures BinaryToBcd(b.month) < 32
  {
  }

  // The encoded frame carries each field of the broadcast at its offset,
  // one field per lemma.

  lemma EncodedMinute(b: Broadcast)
    requires WellFormed(b)
    ensures Minute(Encode(b)) == BinaryToBcd(b.minute)
  {
    BcdFieldBounds(b);
    PackedFieldsWithParity(b.cest, BinaryToBcd(b.minute), BinaryToBcd(b.hour), BinaryToBcd(b.day),
      b.weekday, BinaryToBcd(b.month), BinaryToBcd(b.year), ParityBits(DataBits(b)));
  }

  lemma EncodedHour(b: Broadcast)
    requires WellFormed(b)
    ensures Hour(Encode(b)) == BinaryToBcd(b.hour)
  {
    BcdFieldBounds(b);
    PackedFieldsWithParity(b.cest, BinaryToBcd(b.minute), BinaryToBcd(b.hour), BinaryToBcd(b.day),
      b.weekday, BinaryToBcd(b.month), BinaryToBcd(b.year), ParityBits(DataBits(b)));
  }

  lemma EncodedDay(b: Broadcast)
    requires WellFormed(b)
    ensures Day(Encode(b)) == BinaryToBcd(b.day)
  {
    BcdFieldBounds(b);
    PackedFieldsWithParity(b.cest, BinaryToBcd(b.minute), BinaryToBcd(b.hour), BinaryToBcd(b.day),
      b.weekday, BinaryToBcd(b.month), BinaryToBcd(b.year), ParityBits(DataBits(b)));
  }

  lemma EncodedWeekday(b: Broadcast)
    requires WellFormed(b)
    ensures Weekday(Encode(b)) == b.weekday
  {
    BcdFieldBounds(b);
    PackedFieldsWithParity(b.cest, BinaryToBcd(b.minute), BinaryToBcd(b.hour), BinaryToBcd(b.day),
      b.weekday, BinaryToBcd(b.month), BinaryToBcd(b.year), ParityBits(DataBits(b)));
  }

  lemma EncodedMonth(b: Broadcast)
    requires WellFormed(b)
    ensures Month(Encode(b)) == BinaryToBcd(b.month)
  {
    BcdFieldBounds(b);
    PackedFieldsWithParity(b.cest, BinaryToBcd(b.minute), BinaryToBcd(b.hour), BinaryToBcd(b.day),
      b.weekday, BinaryToBcd(b.month), BinaryToBcd(b.year), ParityBits(DataBits(b)));
  }

  lemma EncodedYear(b: Broadcast)
    requires WellFormed(b)
    ensures Year(Encode(b)) == BinaryToBcd(b.year)
  {
    BcdFieldBounds(b);
    PackedFieldsWithParity(b.cest, BinaryToBcd(b.minute), BinaryToBcd(b.hour), BinaryToBcd(b.day),
      b.weekday, BinaryToBcd(b.month), BinaryToBcd(b.year), ParityBits(DataBits(b)));
  }

  lemma EncodedZone(b: Broadcast)
    requires WellFormed(b)
    ensures Bit(Encode(b), Z1_BIT) == b.cest
  {
    BcdFieldBounds(b);
    PackedFieldsWithParity(b.cest, BinaryToBcd(b.minute), BinaryToBcd(b.hour), BinaryToBcd(b.day),
      b.weekday, BinaryToBcd(b.month), BinaryToBcd(b.year), ParityBits(DataBits(b)));
  }

  /**
   * Decoding the frame of a well-formed broadcast gives back its minute,
   * hour, day, 0-based month, 1900-based year, 0 = Sunday weekday and the
   * CEST flag.
   */
  lemma DecodeEncoded(b: Broadcast)
    requires WellFormed(b)
    ensures Frame2Time(Encode(b)) == Tm(
      sec := 0, min := b.minute as int, hour := b.hour as int, mday := b.day as int,
      mon := b.month as int - 1, year := 100 + b.year as int,
      wday := b.weekday as int % 7, yday := -1, isdst := if b.cest then 1 else 0)
  {
    EncodedMinute(b);
    EncodedHour(b);
    EncodedDay(b);
    EncodedWeekday(b);
    EncodedMonth(b);
    EncodedYear(b);
    EncodedZone(b);
    DecodeFields(Encode(b), b);
  }

  /** A frame whose fields hold the BCD codes of a broadcast decodes to that broadcast. */
  lemma DecodeFields(f: Frame, b: Broadcast)
    requires WellFormed(b)
    requires Minute(f) == BinaryToBcd(b.minute)
    requires Hour(f) == BinaryToBcd(b.hour)
    requires Day(f) == BinaryToBcd(b.day)
    requires Weekday(f) == b.weekday
    requires Month(f) == BinaryToBcd(b.month)
    requires Year(f) == BinaryToBcd(b.year)
    requires Bit(f, Z1_BIT) == b.cest
    ensures Frame2Time(f) == Tm(
      sec := 0, min := b.minute as int, hour := b.hour as int, mday := b.day as int,
      mon := b.month as int - 1, year := 100 + b.year as int,
      wday := b.weekday as int % 7, yday := -1, isdst := if b.cest then 1 else 0)
  {
    BcdRoundTrip(b.minute);
    BcdRoundTrip(b.hour);
    BcdRoundTrip(b.day);
    BcdRoundTrip(b.month);
    BcdRoundTrip(b.year);
  }
}
