/**
 * The pulse queue between the pin interrupt and the decoder: a fixed-size
 * ring buffer with a write index and a read index, first as written, then
 * corrected.  `size_t` is a 32-bit unsigned word here; its wrap-around is
 * written out with `Wrap`.
 */
module RingBuffer {

  /** 2^32: unsigned `size_t` arithmetic is modulo this. */
  const WORD: nat := 0x1_0000_0000

  /** The default queue length of the receiver template. */
  const DEFAULT_SIZE: nat := 6

  /** The value an unsigned subtraction leaves in a `size_t`. */
  function Wrap(x: int): (r: nat)
    ensures r < WORD
    ensures 0 <= x < WORD ==> r == x
    ensures x < 0 && 0 <= x + WORD ==> r == x + WORD
  {
    x % WORD
  }

  /** `indexDifference`: `(writeIndex - readIndex) % SIZE` on `size_t`. */
  function IndexDifference(writeIndex: nat, readIndex: nat, size: nat): (d: nat)
    requires 0 < size
    ensures d < size
  {
    Wrap(writeIndex - readIndex) % size
  }

  /** The number of entries between the two indices, counted around the ring. */
  function LiveCount(writeIndex: nat, readIndex: nat, size: nat): (n: nat)
    requires 0 < size
    requires writeIndex < size && readIndex < size
    ensures n < size
    ensures (readIndex + n) % size == writeIndex
  {
    if readIndex <= writeIndex then
      ModOfMultiplePlus(writeIndex, 0, writeIndex, size);
      writeIndex - readIndex
    else
      ModOfMultiplePlus(writeIndex + size, 1, writeIndex, size);
      writeIndex + size - readIndex
  }

  /** x lies k whole multiples of `size` above m, with m < size: so x % size == m. */
  lemma ModOfMultiplePlus(x: int, k: int, m: int, size: nat)
    requires 0 < size && 0 <= m < size
    requires x == k * size + m
    ensures x % size == m
  {
    var q := x / size;
    var r := x % size;
    assert x == q * size + r;
    var d := q - k;
    assert d * size == m - r;
    if d >= 1 {
      assert d * size == size + (d - 1) * size;
      NonNegativeProduct(d - 1, size);
    }
  }

  lemma NonNegativeProduct(a: int, b: int)
    requires 0 <= a && 0 <= b
    ensures 0 <= a * b
  {
  }

  /** When the queue length divides 2^32, the unsigned difference counts the entries exactly. */
  lemma IndexDifferenceExact(writeIndex: nat, readIndex: nat, size: nat)
    requires 0 < size < WORD && WORD % size == 0
    requires writeIndex < size && readIndex < size
    ensures IndexDifference(writeIndex, readIndex, size) == LiveCount(writeIndex, readIndex, size)
  {
    if writeIndex < readIndex {
      var q := WORD / size;
      assert WORD == q * size;
      WrappedDifference(writeIndex, readIndex, size, q);
      ModOfMultiplePlus(Wrap(writeIndex - readIndex), q - 1, writeIndex + size - readIndex, size);
    }
  }

  /** With 2^32 = q * size, a wrapped difference is q - 1 whole rings plus the live count. */
  lemma WrappedDifference(writeIndex: nat, readIndex: nat, size: nat, q: int)
    requires writeIndex < readIndex < size && WORD == q * size
    ensures Wrap(writeIndex - readIndex) == (q - 1) * size + (writeIndex + size - readIndex)
  {
  }

  /**
   * The count is right for every pair of indices exactly when the queue
   * length divides 2^32: with one entry short of a wrapped-around full ring
   * (write index 0, read index 1) it is right only then.
   */
  lemma IndexDifferenceExactIff(size: nat)
    requires 1 < size < WORD
    ensures IndexDifference(0, 1, size) == LiveCount(0, 1, size) <==> WORD % size == 0
  {
    var q := WORD / size;
    var c := WORD % size;
    assert WORD == q * size + c;
    if c == 0 {
      ModOfMultiplePlus(WORD - 1, q - 1, size - 1, size);
    } else {
      ModOfMultiplePlus(WORD - 1, q, c - 1, size);
    }
  }

  /** The default length 6 does not divide 2^32. */
  lemma DefaultSizeMiscounts()
    ensures WORD % DEFAULT_SIZE == 4
    ensures IndexDifference(0, 1, DEFAULT_SIZE) == 3 && LiveCount(0, 1, DEFAULT_SIZE) == 5
    ensures IndexDifference(0, 4, DEFAULT_SIZE) == 0 && LiveCount(0, 4, DEFAULT_SIZE) == 2
  {
    ModOfMultiplePlus(WORD, 715827882, 4, DEFAULT_SIZE);
    OneShortMiscount();
    StrandedMiscount();
  }

  /** Write index 0, read index 1, length 6: five entries are queued, the count says three. */
  lemma OneShortMiscount()
    ensures IndexDifference(0, 1, DEFAULT_SIZE) == 3
  {
    ModOfMultiplePlus(WORD - 1, 715827882, 3, DEFAULT_SIZE);
  }

  /** Write index 0, read index 4, length 6: two entries are queued, the count says none. */
  lemma StrandedMiscount()
    ensures IndexDifference(0, 4, DEFAULT_SIZE) == 0
  {
    ModOfMultiplePlus(WORD - 4, 715827882, 0, DEFAULT_SIZE);
  }

  /** `Fifo<T, SIZE>` as written. */
  class Fifo<T> {
    const size: nat
    const buffer: array<T>
    var writeIndex: nat
    var readIndex: nat

    ghost predicate Valid()
      reads this
    {
      && buffer.Length == size
      && 0 < size < WORD
      && writeIndex < size
      && readIndex < size
    }

    /** An empty queue; every slot holds `init`, the zero-initialised element of static storage. */
    constructor (size: nat, init: T)
      requires 0 < size < WORD
      ensures Valid()
      ensures this.size == size && fresh(buffer)
      ensures writeIndex == 0 && readIndex == 0
      ensures buffer[..] == seq(size, _ => init)
    {
      this.size := size;
      buffer := new T[size](_ => init);
      writeIndex := 0;
      readIndex := 0;
    }

    /** `push`: stores at the advanced write index unless the count says the ring is full. */
    method Push(value: T) returns (ok: bool)
      requires Valid()
      modifies this, buffer
      ensures Valid()
      ensures ok <==> IndexDifference(old(writeIndex), old(readIndex), size) < size - 1
      ensures ok ==> writeIndex == (old(writeIndex) + 1) % size
      ensures ok ==> buffer[..] == old(buffer[..])[writeIndex := value]
      ensures !ok ==> writeIndex == old(writeIndex) && buffer[..] == old(buffer[..])
      ensures readIndex == old(readIndex)
    {
      if IndexDifference(writeIndex, readIndex, size) < size - 1 {
        writeIndex := (writeIndex + 1) % size;
        buffer[writeIndex] := value;
        return true;
      }
      return false;
    }

    /**
     * `pop`: unless the count says the ring is empty, hands out the element
     * at the read index and then advances it; otherwise `value` comes back
     * untouched.
     */
    method Pop(value: T) returns (ok: bool, out: T)
      requires Valid()
      modifies this
      ensures Valid()
      ensures ok <==> IndexDifference(old(writeIndex), old(readIndex), size) > 0
      ensures ok ==> readIndex == (old(readIndex) + 1) % size && out == buffer[old(readIndex)]
      ensures !ok ==> readIndex == old(readIndex) && out == value
      ensures writeIndex == old(writeIndex)
    {
      ok := IndexDifference(writeIndex, readIndex, size) > 0;
      out := value;
      if ok {
        var i := readIndex;
        readIndex := (readIndex + 1) % size;
        out := buffer[i];
      }
    }
  }

  /**
   * With the default length, the first value popped after one push is the
   * slot 0 initialiser, not the pushed value: `push` writes one slot ahead
   * of the slot `pop` reads.
   */
  method FirstPopReadsUnwrittenSlot() returns (popped: int)
    ensures popped == 0
  {
    var q := new Fifo<int>(DEFAULT_SIZE, 0);
    var _ := q.Push(7);
    var ok;
    ok, popped := q.Pop(-1);
    assert ok;
  }

  /**
   * With the default length, four pushes and four pops leave the indices at
   * 4 and 4; two more pushes wrap the write index to 0; the two queued
   * values are then stranded, as `pop` sees an empty ring.
   */
  method StrandedEntries() returns (accepted: nat, ok: bool)
    ensures accepted == 6 && !ok
  {
    var q := new Fifo<int>(DEFAULT_SIZE, 0);
    var i := 0;
    accepted := 0;
    while i < 4
      invariant 0 <= i <= 4 && q.Valid() && q.size == DEFAULT_SIZE
      invariant q.writeIndex == i && q.readIndex == i && accepted == i
    {
      var pushed := q.Push(i);
      var _, _ := q.Pop(0);
      accepted := accepted + if pushed then 1 else 0;
      i := i + 1;
    }
    var a := q.Push(4);
    var b := q.Push(5);
    accepted := accepted + (if a then 1 else 0) + (if b then 1 else 0);
    assert q.writeIndex == 0 && q.readIndex == 4;
    StrandedMiscount();
    var last;
    ok, last := q.Pop(0);
  }

  /**
   * With the default length, five pushes fill the ring; after one pop and
   * one more push (write index wraps to 0, read index 1) the count reads 3
   * instead of 5, so another push is accepted, lands on the read index and
   * makes the five queued values look like an empty ring.
   */
  method OverflowLosesQueue() returns (accepted: nat, ok: bool)
    ensures accepted == 7 && !ok
  {
    var q := new Fifo<int>(DEFAULT_SIZE, 0);
    var i := 0;
    accepted := 0;
    while i < 5
      invariant 0 <= i <= 5 && q.Valid() && q.size == DEFAULT_SIZE
      invariant q.writeIndex == i && q.readIndex == 0 && accepted == i
    {
      var pushed := q.Push(i);
      accepted := accepted + if pushed then 1 else 0;
      i := i + 1;
    }
    var _, _ := q.Pop(0);
    var a := q.Push(5);
    assert q.writeIndex == 0 && q.readIndex == 1;
    OneShortMiscount();
    var b := q.Push(6);
    accepted := accepted + (if a then 1 else 0) + (if b then 1 else 0);
    var last;
    ok, last := q.Pop(0);
  }

  /**
   * The ring buffer corrected: the count is taken around the ring without
   * the unsigned wrap, and `pop` advances the read index before reading, so
   * it reads the slot `push` wrote.  `Contents` is the queue from oldest to
   * newest.
   */
  class CorrectedFifo<T> {
    const size: nat
    const buffer: array<T>
    var writeIndex: nat
    var readIndex: nat
    ghost var Contents: seq<T>

    ghost predicate Valid()
      reads this, buffer
    {
      && buffer.Length == size
      && 0 < size < WORD
      && writeIndex < size
      && readIndex < size
      && |Contents| == LiveCount(writeIndex, readIndex, size)
      && (forall i | 0 <= i < |Contents| :: Contents[i] == buffer[Slot(readIndex, i, size)])
    }

    constructor (size: nat, init: T)
      requires 0 < size < WORD
      ensures Valid() && fresh(buffer)
      ensures this.size == size && Contents == []
    {
      this.size := size;
      buffer := new T[size](_ => init);
      writeIndex := 0;
      readIndex := 0;
      Contents := [];
    }

    /** Appends `value` unless the ring already holds `size - 1` entries. */
    method Push(value: T) returns (ok: bool)
      requires Valid()
      modifies this, buffer
      ensures Valid()
      ensures ok <==> |old(Contents)| < size - 1
      ensures ok ==> Contents == old(Contents) + [value]
      ensures !ok ==> Contents == old(Contents)
    {
      if LiveCount(writeIndex, readIndex, size) < size - 1 {
        PushedCount(writeIndex, readIndex, size);
        writeIndex := (writeIndex + 1) % size;
        buffer[writeIndex] := value;
        Contents := Contents + [value];
        return true;
      }
      return false;
    }

    /** Removes and returns the oldest entry; an empty ring hands `value` back. */
    method Pop(value: T) returns (ok: bool, out: T)
      requires Valid()
      modifies this
      ensures Valid()
      ensures ok <==> |old(Contents)| > 0
      ensures ok ==> out == old(Contents)[0] && Contents == old(Contents)[1..]
      ensures !ok ==> out == value && Contents == old(Contents)
    {
      ok := LiveCount(writeIndex, readIndex, size) > 0;
      out := value;
      if ok {
        ghost var r := readIndex;
        PoppedCount(writeIndex, readIndex, size);
        ShiftedSlots(r, (r + 1) % size, size, |Contents| - 1);
        readIndex := (readIndex + 1) % size;
        out := buffer[readIndex];
        Contents := Contents[1..];
      }
    }
  }

  /** The array slot holding entry i of a queue whose read index is r: entries start one past r. */
  function Slot(r: nat, i: nat, size: nat): (s: nat)
    requires 0 < size
    ensures s < size
  {
    (r + 1 + i) % size
  }

  /** Reducing the first summand modulo `size` first does not change the slot. */
  lemma ModPlus(x: nat, y: nat, size: nat)
    requires 0 < size
    ensures (x % size + y) % size == (x + y) % size
  {
    var z := x % size + y;
    assert x == (x / size) * size + x % size;
    assert z == (z / size) * size + z % size;
    assert x + y == (x / size + z / size) * size + z % size;
    ModOfMultiplePlus(x + y, x / size + z / size, z % size, size);
  }

  /**
   * Advancing the write index of a ring with room adds one entry, in the
   * slot after the queued ones, which it does not overlap.
   */
  lemma PushedCount(writeIndex: nat, readIndex: nat, size: nat)
    requires 0 < size && writeIndex < size && readIndex < size
    requires LiveCount(writeIndex, readIndex, size) < size - 1
    ensures var n := LiveCount(writeIndex, readIndex, size);
      && (writeIndex + 1) % size == Slot(readIndex, n, size)
      && LiveCount((writeIndex + 1) % size, readIndex, size) == n + 1
      && forall i: nat | i < n :: Slot(readIndex, i, size) != Slot(readIndex, n, size)
  {
    var n := LiveCount(writeIndex, readIndex, size);
    ModPlus(readIndex + n, 1, size);
    LiveCountUnique((writeIndex + 1) % size, readIndex, n + 1, size);
    forall i: nat | i < n
      ensures Slot(readIndex, i, size) != Slot(readIndex, n, size)
    {
      ModDistinct(readIndex + 1 + i, readIndex + 1 + n, size);
    }
  }

  /** Advancing the read index of a non-empty ring by one removes one entry. */
  lemma PoppedCount(writeIndex: nat, readIndex: nat, size: nat)
    requires 0 < size && writeIndex < size && readIndex < size
    requires LiveCount(writeIndex, readIndex, size) > 0
    ensures LiveCount(writeIndex, (readIndex + 1) % size, size) == LiveCount(writeIndex, readIndex, size) - 1
  {
    var n := LiveCount(writeIndex, readIndex, size);
    ModPlus(readIndex + 1, n - 1, size);
    LiveCountUnique(writeIndex, (readIndex + 1) % size, n - 1, size);
  }

  /** Slot i after advancing the read index from r to `next` is slot i + 1 before. */
  lemma ShiftedSlots(r: nat, next: nat, size: nat, k: nat)
    requires 0 < size && next == (r + 1) % size
    ensures forall i: nat | i < k :: Slot(next, i, size) == Slot(r, i + 1, size)
  {
    forall i: nat | i < k
      ensures Slot(next, i, size) == Slot(r, i + 1, size)
    {
      ModPlus(r + 1, 1 + i, size);
    }
  }

  /** Two positions less than `size` apart occupy different slots. */
  lemma ModDistinct(a: nat, b: nat, size: nat)
    requires 0 < size && a < b < a + size
    ensures a % size != b % size
  {
    if a % size == b % size {
      var qa := a / size;
      var qb := b / size;
      assert a == qa * size + a % size;
      assert b == qb * size + b % size;
      ModOfMultiplePlus(b - a, qb - qa, 0, size);
    }
  }

  /** The live count is the only count below `size` that leads from the read index to the write index. */
  lemma LiveCountUnique(writeIndex: nat, readIndex: nat, n: nat, size: nat)
    requires 0 < size && writeIndex < size && readIndex < size && n < size
    requires (readIndex + n) % size == writeIndex
    ensures LiveCount(writeIndex, readIndex, size) == n
  {
    var m := LiveCount(writeIndex, readIndex, size);
    if m < n {
      ModDistinct(readIndex + m, readIndex + n, size);
    } else if n < m {
      ModDistinct(readIndex + n, readIndex + m, size);
    }
  }
}
