# DCF77 receiver core in Dafny

This project models the decoding core of the Dcf77Receiver Arduino library. The library receives the DCF77 long-wave time signal, which carries one bit per second of every minute, as a LOW pulse of 100 ms (0) or 200 ms (1). There is no pulse in second 59.

The model covers four pieces:

- **Frame layout and `dcf77frame2time`** (`frame.dfy`, module `FrameLayout`). The 64-bit frame word stores the bit of second i at bit i. The `DCF77bits` offsets include the minute, hour and date fields, the parity bits P1/P2/P3 and the CEST bit Z1. Explicit shift/mask accessors replace the bit-field overlay. The module also holds the three DCF77 even-parity checks and packed-BCD decoding. A transmitter-side encoder serves as an independent reference: decoding an encoded minute gives back its fields, and the encoded frame passes the parity checks.
- **Frame accumulator** (`accumulator.dfy`, module `Accumulator`). `appendReceivedBit` and `concludeReceivedBits` are pure functions here, over the buffer, the bit position and the global `flags` parity bit-field. The lemmas show three things:
  - feeding 59 bits from a reset gives exactly those bits;
  - the frame is accepted exactly when it passes the three parity checks, whatever the flags held before;
  - an invariant holds for any bit stream, and under it every accepted frame passes the checks.
- **Edge classifier** (`receiver.dfy`, module `Receiver`). `processReceivedBits` is modelled twice:
  - as a step function over (accumulator, recorded pulse);
  - as the class `Dcf77Base`, whose fields `rxBitBuffer`, `rxPosition` and `previousPulse` are updated in place, together with a shared `ParityFlags` object that stands for the global `flags`. Each method is proved against the step function.

  Two properties are proved. Safety: for any sequence of samples, including noise, glitches and clock wrap-around, only frames that pass the parity checks reach the callback, as long as one decoder owns the global `flags`. With two receiver instances sharing them, a frame with a wrong parity can be accepted (`SharedFlagsAcceptBadFrame`). Liveness: a minute of correctly timed pulses yields its frame exactly when the frame's parity is right, and the decoder is then left ready for the next minute.
- **Pulse queue** (`fifo.dfy`, module `RingBuffer`). `Fifo<T, SIZE>` appears as written: a class over an array, with `writeIndex`, `readIndex` and a 32-bit `size_t` wrap. Next to it are concrete runs that exhibit its two defects, and `CorrectedFifo`. The corrected queue is proved to behave as a FIFO queue of its ghost `Contents`.

In the model, the pulse queue drained by the decoder is an input sequence of `(level, timestamp)` samples, and the frame callback `onDcf77FrameReceived` is an output sequence of frames. Timestamps are `bv32`, so `millis()` wrap-around and the unsigned differences of the source are exact.

## Model

| member | source | states |
|---|---|---|
| FrameLayout.Frame2Time | src/internal/Dcf77base.cpp:86-97 | minute, hour and day are the packed-BCD values of their fields; month is one less, year is 100 more; weekday 0-6 is kept and 7 (Sunday) becomes 0; second is 0, day of year -1, and the daylight flag is bit Z1 |
| FrameLayout.BcdToBinary | src/internal/Dcf77base.cpp:89 | `x - (x / 16) * 6` is 10 * tens nibble + units nibble for every byte, and never exceeds x |
| FrameLayout.BcdRoundTrip | src/internal/Dcf77base.cpp:89-95 | the BCD decoding inverts BCD encoding for every number 0-99 |
| FrameLayout.ParityOkAgree | src/internal/Dcf77base.cpp:107-111 | the parity verdict depends only on bits 21-58 |
| FrameLayout.WindowParityFlip | src/internal/Dcf77base.cpp:139-141 | flipping one bit inside a window inverts the XOR over that window |
| FrameLayout.FlippedDataBitFailsParity | src/internal/Dcf77base.cpp:107-111 | a frame that passes the three checks fails them once any single data bit of a parity window is flipped |
| FrameLayout.EncodeParityOk | src/internal/Dcf77base.cpp:48-65 | the frame a transmitter sends for any valid minute fits in 59 bits and passes all three parity checks |
| FrameLayout.DecodeEncoded | src/internal/Dcf77base.cpp:86-97 | `dcf77frame2time` of the transmitted frame of any valid minute yields that minute's fields (round trip through the layout) |
| Accumulator.AppendBit | src/internal/Dcf77base.cpp:116-145 | at position 59 or beyond nothing changes (buffer, position, flags); below 59 the position advances by exactly one |
| Accumulator.AppendBitBuffer | src/internal/Dcf77base.cpp:118 | below position 59, the appended bit is ORed into bit `position` and every other buffer bit is unchanged |
| Accumulator.Conclude | src/internal/Dcf77base.cpp:99-114 | the pre-reset buffer is handed out; buffer and position become 0 and the flags are kept, whatever the verdict; the verdict is true iff the position was exactly 59 and the minute/hour/date flags equal bits 28, 35 and 58 |
| Accumulator.FedPosition | src/internal/Dcf77base.cpp:117-143 | after k appends from a reset the position is min(k, 59) |
| Accumulator.FedBuffer | src/internal/Dcf77base.cpp:118 | after k appends of the bits of f from a reset, buffer bit j is bit j of f for j < min(k, 59), and 0 otherwise |
| Accumulator.FedToggle | src/internal/Dcf77base.cpp:121-141 | the running parity flag is the XOR of the bits received since the current window (21, 29 or 36) started |
| Accumulator.FedMinute | src/internal/Dcf77base.cpp:126-128 | once bit 28 has arrived, the minute flag is the XOR of bits 21-27 (the parity bit itself excluded) |
| Accumulator.FedHour | src/internal/Dcf77base.cpp:130-132 | once bit 35 has arrived, the hour flag is the XOR of bits 29-34 |
| Accumulator.FedDate | src/internal/Dcf77base.cpp:134-136 | once bit 58 has arrived, the date flag is the XOR of bits 36-57 |
| Accumulator.ConcludeFed | src/internal/Dcf77base.cpp:99-114 | after k bits of f fed from a reset with any flags, conclusion succeeds iff k >= 59 and f passes the three parity checks |
| Accumulator.ConcludedFrame | src/internal/Dcf77base.cpp:101 | the concluded frame holds exactly the fed bits below 59 |
| Accumulator.FlippedBitRejected | src/internal/Dcf77base.cpp:107-111 | 59 bits of a valid frame with one window data bit flipped are rejected |
| Accumulator.FreshConsistent | src/internal/Dcf77base.cpp:104-105 | a reset accumulator satisfies the accumulator invariant |
| Accumulator.AppendConsistent | src/internal/Dcf77base.cpp:116-145 | appending a 0 or 1 preserves the invariant: no bits at or above the position, and flags equal to the XOR of their windows |
| Accumulator.ConcludeConsistent | src/internal/Dcf77base.cpp:103-105 | concluding re-establishes the invariant |
| Accumulator.AcceptedPassesParity | src/internal/Dcf77base.cpp:107-113 | under the invariant, an accepted frame passes the three parity checks and has no bit set at 59 or above |
| Receiver.BitOfWidth | src/internal/Dcf77base.cpp:165 | a rising edge yields 0 iff it comes less than 170 ms after the falling edge, else 1 |
| Receiver.ElapsedAfter | src/internal/Dcf77base.cpp:164 | the unsigned 32-bit difference of a timestamp taken w ms later is w, also across wrap-around |
| Receiver.Step | src/internal/Dcf77base.cpp:150-169 | a sample repeating the recorded level changes nothing; a falling edge records the sample and, more than 1200 ms after the recorded one, resets the accumulator with the flags kept, else leaves it; a rising edge appends the width's bit and updates only the recorded level; a frame is emitted iff a falling edge lies more than 1200 ms after the recorded one and conclusion succeeds, and the frame is then the pre-reset buffer |
| Receiver.ProcessAppend | src/internal/Dcf77base.cpp:149-170 | draining two queues one after the other is draining their concatenation |
| Receiver.StepConsistent | src/internal/Dcf77base.cpp:147-171 | one sample preserves the accumulator invariant, and any frame it emits passes the parity checks |
| Receiver.ProcessEmitsOnlyParityOk | src/internal/Dcf77base.cpp:147-171 | for every sample sequence from a consistent state, every frame handed to the callback passes the three parity checks |
| Receiver.SharedFlagsAcceptBadFrame | src/internal/Dcf77base.cpp:67-72 | with the one global `flags` shared by two decoders, a decoder holding 59 bits with a wrong date parity rejects them alone, but accepts them after the other decoder captures the date parity at its bit 58 |
| Receiver.RisingEdgeStep | src/internal/Dcf77base.cpp:162-167 | a rising edge w ms after the recorded falling edge appends the bit of w and records only the new level |
| Receiver.FallingEdgeStep | src/internal/Dcf77base.cpp:151-159 | a falling edge at most 1200 ms after the recorded one is recorded and concludes nothing |
| Receiver.MarkerStep | src/internal/Dcf77base.cpp:153-159 | a falling edge more than 1200 ms after the recorded one concludes, emits the buffer iff accepted, and is recorded |
| Receiver.SecondsFed | src/internal/Dcf77base.cpp:147-171 | the pulses of the first n < 59 seconds after a minute marker append bits 0..n-1 of the frame and emit nothing |
| Receiver.MinuteProcessed | src/internal/Dcf77base.cpp:147-171 | a full minute of pulses ends with the 59 bits concluded, the decoder reset and the closing marker recorded |
| Receiver.MinuteAccepted | src/internal/Dcf77base.cpp:153-157 | a full minute of correctly timed pulses emits a frame iff the transmitted frame passes the parity checks |
| Receiver.MinuteDecoded | src/internal/Dcf77base.cpp:99-101 | the frame emitted for a minute holds exactly the transmitted bits 0-58 |
| Receiver.ParityFlags.constructor | src/internal/Dcf77base.cpp:67-72 | the global flags start zeroed |
| Receiver.Dcf77Base.constructor | src/internal/Dcf77base.h:41-44 | empty buffer, position 0, recorded timestamp 0, recorded level as read at start-up |
| Receiver.Dcf77Base.AppendReceivedBit | src/internal/Dcf77base.cpp:116-145 | the in-place update of buffer, position and shared flags equals `AppendBit`; the recorded pulse is untouched |
| Receiver.Dcf77Base.ConcludeReceivedBits | src/internal/Dcf77base.cpp:99-114 | verdict, frame and new buffer/position equal `Conclude`; the shared flags are not modified |
| Receiver.Dcf77Base.ProcessPulse | src/internal/Dcf77base.cpp:150-169 | one pass of the draining loop changes the object and emits exactly as `Step` |
| Receiver.Dcf77Base.ProcessReceivedBits | src/internal/Dcf77base.cpp:147-171 | draining the whole queue leaves the object in the state, and returns the frames in callback order, given by `Process` |
| RingBuffer.Wrap | src/internal/Dcf77Fifo.h:41 | an unsigned `size_t` difference is the mathematical difference, plus 2^32 when negative |
| RingBuffer.IndexDifference | src/internal/Dcf77Fifo.h:40-42 | the computed count is below SIZE |
| RingBuffer.IndexDifferenceExact | src/internal/Dcf77Fifo.h:40-42 | when SIZE divides 2^32, the computed count equals the number of live entries for all indices |
| RingBuffer.IndexDifferenceExactIff | src/internal/Dcf77Fifo.h:40-42 | with write index 0 and read index 1, the count is right iff SIZE divides 2^32 |
| RingBuffer.DefaultSizeMiscounts | src/Dcf77Receiver.h:102 | for the default SIZE 6: 2^32 mod 6 = 4; indices (0, 1) count 3 instead of 5, and (0, 4) count 0 instead of 2 |
| RingBuffer.Fifo.constructor | src/internal/Dcf77Fifo.h:36-38 | both indices 0, every slot holding the given initial element (for the receiver's pulse queue, the default pulse: time 0, level 1) |
| RingBuffer.Fifo.Push | src/internal/Dcf77Fifo.h:54-61 | accepted iff the computed count < SIZE-1; then the write index advances by one mod SIZE and the value lands at the new write index; otherwise array and indices are unchanged; the read index is never touched |
| RingBuffer.Fifo.Pop | src/internal/Dcf77Fifo.h:70-78 | succeeds iff the computed count > 0; then it returns the slot at the old read index and advances that index by one mod SIZE; otherwise the out-value, array and indices are unchanged; the write index and array are never touched |
| RingBuffer.FirstPopReadsUnwrittenSlot | src/internal/Dcf77Fifo.h:54-78 | after one push of 7 into a fresh queue, pop succeeds but yields the never-written slot 0 |
| RingBuffer.StrandedEntries | src/internal/Dcf77Fifo.h:40-78 | with SIZE 6, after 4 push/pop pairs and 2 more pushes, all accepted, pop reports an empty queue |
| RingBuffer.OverflowLosesQueue | src/internal/Dcf77Fifo.h:40-61 | with SIZE 6, 5 pushes, a pop and 2 pushes are all accepted, overrunning the queue, and pop then reports it empty |
| RingBuffer.CorrectedFifo.Push | src/internal/Dcf77Fifo.h:54-61 | accepted iff fewer than SIZE-1 entries are queued; the value is then appended at the end of the queue; otherwise nothing changes |
| RingBuffer.CorrectedFifo.Pop | src/internal/Dcf77Fifo.h:70-78 | succeeds iff the queue is non-empty; it then returns the oldest entry and removes it; otherwise the out-value comes back unchanged |

## Left out

- Receiver.ProcessEmitsOnlyParityOk: the invariant assumes that one decoder owns the global `flags`. The library makes one receiver instance per pin, and they all update the same `flags`; interleaved decoders can break the parity guarantee, as `SharedFlagsAcceptBadFrame` shows.
- `Dcf77Base::onPinInterrupt` and `Dcf77Base::begin` (`digitalRead`, `millis`, `pinMode`, `attachInterrupt`) are hardware I/O. The samples are the input sequence, and the level `begin` reads is a constructor parameter.
- The receiver templates in `src/Dcf77Receiver.h` and `src/DCF77RX.h` are left out: the singleton, the interrupt forwarding, and the `noInterrupts()`/`interrupts()` bracket around `pop`. Every queue operation is atomic here. Their doc-comments about returning "free places/elements" describe behaviour the code does not have.
- `src/internal/Dcf77tm.h` and `src/internal/Dcf77tm.cpp` (text rendering, epoch conversion) are not part of this model.
- The declarations in `src/internal/Dcf77base.h` differ from `Dcf77base.cpp` in names and members. The model follows the .cpp and takes only the field types and initial values from the header.
- Virtual dispatch of `pushPulse`, `popPulse` and `onDcf77FrameReceived` is not modelled: the queue is a sequence parameter and the callback is the returned frame sequence.
- The platform bit-field packing of `DCF77bits` and `flags` is replaced by explicit shifts at the listed offsets, least significant bit first. The one-bit `flags` fields are booleans.
- Receiver.Dcf77Base.ProcessReceivedBits: the queue is a fixed sequence, so pulses pushed by the interrupt while the loop runs are not modelled. The loop ends when the sequence is exhausted, which is where `popPulse` reports empty.
- Receiver.Dcf77Base.ProcessPulse: the loop body of `processReceivedBits` is a separate method. This changes nothing observable.
- RingBuffer.Fifo: `size_t` is 32 bits wide. On 16-bit targets 2^16 mod 6 is also 4, so the same miscount arises there.
- RingBuffer.Fifo: the decoder model does not read its pulses through the queue, so the queue defects do not propagate into the decoder lemmas.
- Receiver.MinuteAccepted: the liveness lemmas assume exactly 100 ms and 200 ms pulses and exactly one second between falling edges. They do not cover timing jitter.

## Findings

| source | as written | input that shows it | evidently intended | confidence | as-written member | corrected member |
|---|---|---|---|---|---|---|
| src/internal/Dcf77Fifo.h:40-42 | the count is `(writeIndex - readIndex) % SIZE` on unsigned `size_t`, and 2^32 is not a multiple of the default SIZE 6 | SIZE 6: 4 × (push, pop), then 2 pushes. Write index 0, read index 4, count 0, so the 2 queued pulses are stranded until the write index passes them | count the live entries around the ring, `(writeIndex + SIZE - readIndex) % SIZE` | high, not executed | RingBuffer.StrandedEntries | RingBuffer.CorrectedFifo.Pop |
| src/internal/Dcf77Fifo.h:55 | `push` trusts the same miscount to detect a full ring | SIZE 6: 5 pushes, 1 pop, 2 pushes. At write index 0, read index 1 the count says 3 instead of 5, the extra push is accepted and the 5 queued pulses look like an empty queue | refuse the push when SIZE-1 entries are live | high, not executed | RingBuffer.OverflowLosesQueue | RingBuffer.CorrectedFifo.Push |
| src/internal/Dcf77Fifo.h:73-75 | `pop` reads the slot at the read index, then advances; `push` advances first, then writes | fresh queue, push 7, pop: pop succeeds and yields the initial contents of slot 0. In the receiver that is a default pulse (time 0, level 1), not the first sample | `pop` advances the read index and then reads, returning values in the order pushed | high, not executed | RingBuffer.FirstPopReadsUnwrittenSlot | RingBuffer.CorrectedFifo.Pop |
