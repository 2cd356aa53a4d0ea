# Robot controller byte logic, modelled in Dafny

The firmware of a remote-driven robot (the CG2271 project) is mostly register-level
code for UART, timers, PWM and GPIO. Three self-contained pieces of byte and
integer logic sit inside it, and this project models and proves properties of each:

- **Circular byte queue** (`cirq.dfy`, module `CircularQueue`). This is the
  fixed-capacity FIFO `Q_t` with `Head`, `Tail`, `Size` and a 50-slot `Data` array.
  - `Q_enqueue` rejects a byte when the queue is full.
  - `Q_dequeue` returns the sentinel `0` when the queue is empty, and re-zeroes every slot it vacates.
  - The UART receive handler layers a drop-oldest policy on top of the queue.
  - The transmit path enqueues a zero-terminated string byte by byte under the reject-newest policy. It stops at the first zero byte, so binary data is cut off there.
  - The model is a class over an `array<byte>`, with a ghost sequence of contents. Its invariant relates the ring window to that sequence.
- **Packet assembler** (`serialize.dfy`, module `Serialization`).
  - `assemble` keeps function-static state between calls:
    - a cursor `counter`;
    - `leftoverFlag`, `bytesLeftover` and `leftoverBuffer`, which hold surplus bytes that start the next packet.
  - It rebuilds fixed-size packets from byte chunks of any length.
  - `deserialize` copies a completed packet out, and `serialize` copies a packet onto the wire.
  - The model is a class holding those statics, with one loop method per phase of `assemble`. It is proved to follow a pure specification, `Feed`.
  - `FeedAll` is the whole-stream consequence of `Feed`: no byte is lost, duplicated or reordered, every packet has `PACKET_SIZE` bytes, and a stream of `k` packets' worth of bytes is framed exactly.
- **Joystick arithmetic** (`utils.dfy`, module `Utils`). These are `normalise`, `constrain` and `map`. `map` uses C's truncating division, which is modelled by `TruncDiv`.

`bytes.dfy` defines the shared `byte` type (0 to 255).

`PACKET_SIZE` is a positive parameter of the assembler (`Assembler.packetSize`). The
source defines it twice, as 3 in `src/packet/packet.h:6` and as 24 in
`include/serialize/serialize.h:6`. `serialize.c` is built against the first.

## Model

| member | source | states |
|---|---|---|
| CircularQueue.Queue.Init | src/cirq/cirq.c:3-9 | `Q_init`: every slot is 0, `Head == Tail == Size == 0`, contents empty, and the queue invariant holds |
| CircularQueue.Queue.constructor | include/cirq/cirq.h:7-14 | a `Q_t` with 50 slots, initialised by `Q_init` |
| CircularQueue.Queue.IsEmpty | src/cirq/cirq.c:11 | `Q_isEmpty` holds exactly when the contents are empty; it reads and changes nothing else |
| CircularQueue.Queue.IsFull | src/cirq/cirq.c:13 | `Q_isFull` holds exactly when the queue holds `Q_SIZE` bytes |
| CircularQueue.Queue.Enqueue | src/cirq/cirq.c:15-24 | full queue: returns 0 and `Data`, `Head`, `Tail`, `Size`, contents are unchanged; otherwise writes `d` at the old `Tail`, `Tail` becomes `(Tail + 1) % Q_SIZE`, `Size` grows by one, returns 1, contents become `old + [d]`; the invariant is preserved |
| CircularQueue.Queue.Dequeue | src/cirq/cirq.c:25-35 | empty queue: returns 0 and nothing changes; otherwise returns `Data[Head]`, which is the oldest byte, zeroes that slot, `Head` becomes `(Head + 1) % Q_SIZE`, `Size` drops by one, contents become `old[1..]`; the invariant, including "every slot outside the window is 0", is preserved |
| CircularQueue.Queue.ReceiveDropOldest | src/main.c:134-139 | the drop-oldest receive path keeps `Size == Q_SIZE` on a full queue with contents `old[1..] + [d]`, and otherwise appends `d` |
| CircularQueue.Drain | src/main.c:125-128 | dequeuing until empty yields the contents, oldest first, and leaves the queue empty |
| CircularQueue.StringLength | src/main.c:205 | the loop `while (*pdata)` reads the bytes before the first zero: none of them is zero, and the next byte, if any, is |
| CircularQueue.TransmitString | src/main.c:205-210 | enqueuing a string into a fresh queue, stopping at its first zero byte, keeps exactly the first `Q_SIZE` bytes before that zero, in order |
| CircularQueue.FillDropOldest | src/main.c:133-140 | feeding a byte string through the drop-oldest path keeps exactly its last `Q_SIZE` bytes, in order |
| Serialization.Feed | src/serialize/serialize.c:10-65 | one call: completes a packet exactly when waiting plus new bytes reach `PACKET_SIZE`, at most one packet, of `PACKET_SIZE` bytes, and packet followed by what waits next is the waiting bytes followed by the input |
| Serialization.FeedAll | src/serialize/serialize.c:10-65 | over a sequence of calls every packet has `PACKET_SIZE` bytes and the packets followed by the waiting bytes are exactly the concatenated input |
| Serialization.StepKeepsStream | src/serialize/serialize.c:40-64 | one call keeps packets uniform and the byte stream intact |
| Serialization.PendingBound | src/serialize/serialize.c:22-53 | after admissible calls at most one packet's worth of bytes waits |
| Serialization.AdmissiblePrefix | src/serialize/serialize.c:40-50 | a prefix of calls that each keep within `leftoverBuffer` also does |
| Serialization.SmallChunksAdmissible | src/serialize/serialize.c:40-50 | chunks of at most `PACKET_SIZE` bytes each, byte-at-a-time reception included, never overrun `leftoverBuffer` |
| Serialization.FlattenSlice | src/serialize/serialize.c:60-64 | the `i`-th packet of a uniform sequence is the `i`-th packet-sized slice of their concatenation |
| Serialization.PacketAtProduct | src/serialize/serialize.c:60-64 | that slice starts at byte `i * PACKET_SIZE` |
| Serialization.EmptyCall | src/serialize/serialize.c:22-37 | a call with no input completes the waiting packet when a whole one waits, and otherwise changes nothing |
| Serialization.DrainedStream | src/serialize/serialize.c:10-65 | `k` packets' worth of bytes in admissible chunks, then an empty call, gives `k` packets with nothing waiting |
| Serialization.FramingExact | src/serialize/serialize.c:10-65 | the same stream gives exactly `k` packets, the `i`-th being bytes `i * PACKET_SIZE` to `(i + 1) * PACKET_SIZE` |
| Serialization.ChunkedRoundTrip | src/serialize/serialize.c:60-62 | one packet's worth of bytes from the initial state, in any chunking, comes out as that one packet with nothing waiting |
| Serialization.FeedSplit | src/serialize/serialize.c:40-58 | the first `PACKET_SIZE - counter` input bytes complete the packet and the rest start the next one; without completion all input is appended |
| Serialization.Assembler.constructor | src/serialize/serialize.c:8-17 | the zero-initialised statics: nothing waiting |
| Serialization.Assembler.Assemble | src/serialize/serialize.c:10-65 | follows `Feed` on the bytes waiting before the call: returns `PACKET_COMPLETE` exactly on completion with the packet in `_privateBuffer`, else `PACKET_INCOMPLETE`; the waiting bytes afterwards are `Feed`'s; `counter` resets to 0 on completion, and `counter + bytesLeftover` grows by `len` minus `PACKET_SIZE` if the call completed; `0 <= counter < PACKET_SIZE`, `!leftoverFlag ==> bytesLeftover == 0` and `leftoverFlag ==> counter == 0` are preserved |
| Serialization.Assembler.DrainLeftover | src/serialize/serialize.c:22-37 | a flagged leftover is copied in order to the packet at the cursor, then `bytesLeftover` is 0 and the flag is clear; without the flag nothing changes |
| Serialization.Assembler.StashSurplus | src/serialize/serialize.c:40-53 | when `counter + len >= PACKET_SIZE`: exactly `PACKET_SIZE - counter` bytes are for the packet, the rest are appended in order after the `bytesLeftover` entries and the flag is set; otherwise all `len` bytes are for the packet and the leftover state is untouched |
| Serialization.Assembler.CopyInput | src/serialize/serialize.c:56-58 | the first `avail` input bytes are appended in order at the cursor, which advances by `avail` |
| Serialization.Assembler.Deserialize | src/serialize/serialize.c:67-75 | returns `PACKET_OK` and copies the `PACKET_SIZE` assembled bytes to `output` exactly on completion; otherwise returns `PACKET_INCOMPLETE` with `output` untouched |
| Serialization.Serialize | src/serialize/serialize.c:77-80 | copies `size` bytes unchanged, leaves the rest of the buffer alone, returns `size` |
| Serialization.FeedAllStep | src/serialize/serialize.c:10-65 | each call of an admissible sequence meets the assembler's precondition and extends the run by one `Feed` step |
| Serialization.DeframeStream | src/serialize/serialize.c:67-75 | one assembler fed a sequence of chunks through `deserialize` hands out exactly `FeedAll`'s packets, in order |
| Serialization.AdmissibleEmptyCall | src/serialize/serialize.c:22-53 | after admissible calls a call with no input stays within `leftoverBuffer` |
| Serialization.DeframeExact | src/serialize/serialize.c:67-75 | one assembler fed `k` packets' worth of bytes through `deserialize`, then one empty call, hands out exactly `k` packets, the `i`-th being bytes `i * PACKET_SIZE` to `(i + 1) * PACKET_SIZE` of the stream |
| Serialization.TransferPacket | src/serialize/serialize.c:60-80 | a packet serialized and fed in one call to a fresh assembler comes back as `PACKET_OK` with the same bytes |
| Utils.Normalise | src/utils/utils.c:10-12 | the joystick centre 128 maps to 0, values below it to negatives, and a byte to `[-128, 128)` |
| Utils.NormalisePreservesDistance | src/utils/utils.c:10-12 | normalising is a shift: differences are unchanged |
| Utils.Constrain | src/utils/utils.c:14-22 | `low` below `low`, `high` above `high` (when `val >= low`), `val` in between, and within `[low, high]` when `low <= high` |
| Utils.ConstrainIsClamp | src/utils/utils.c:14-22 | for `low <= high`, equals `max(low, min(val, high))` |
| Utils.ConstrainIdempotent | src/utils/utils.c:14-22 | constraining twice is constraining once |
| Utils.ConstrainMonotone | src/utils/utils.c:14-22 | constraining preserves order |
| Utils.TruncDiv | src/utils/utils.c:25 | C's `/` on `int`: the remainder is smaller than the divisor in magnitude and has the numerator's sign |
| Utils.TruncDivNonNegative | src/utils/utils.c:25 | on a non-negative numerator and positive divisor C's `/` is Euclidean division |
| Utils.TruncDivNegative | src/utils/utils.c:25 | on a negative numerator and positive divisor C's `/` equals Euclidean division when it is exact, and is one more (rounded up, not down) otherwise |
| Utils.TruncDivExact | src/utils/utils.c:25 | an exact multiple divides exactly |
| Utils.Map | src/utils/utils.c:24-26 | `map(in_min, …) == out_min` |
| Utils.MapEndpoints | src/utils/utils.c:24-26 | with `in_max != in_min`, `map` sends `in_min` to `out_min` and `in_max` to `out_max` |
| Utils.MapMonotone | src/utils/utils.c:24-26 | on `[in_min, in_max]` with `in_min < in_max` and `out_min <= out_max`, `map` is monotone |
| Utils.MapInRange | src/utils/utils.c:24-26 | on the same domain the result lies in `[out_min, out_max]` |

## Left out

- Hardware I/O in `src/main.c` is not modelled: UART clock, pin and baud setup, NVIC calls, the status-register checks that select the TX/RX paths, LED dispatch and the `__disable_irq` section around `transmit_data`. Only the queue-level receive pattern, the transmit enqueue loop and the transmit dequeue path (`Drain`, src/main.c:125-128, repeated until the queue is empty) are kept. Interrupt concurrency between the handler and the main loop is not modelled.
- The motor, lights, music, LED and blinky modules are register writes and RTOS threads. `parsePacket` and `moveRobot` have no body in the source, so they are not part of this model.
- `delay` in `src/utils/utils.c` is a busy-wait loop and is not modelled.
- Serialization.Assembler.Assemble: requires that the bytes waiting plus the input do not exceed two packets. This rules out the source's overrun of `leftoverBuffer`, which happens when the surplus is larger than `PACKET_SIZE - bytesLeftover`. Out-of-range writes are undefined behaviour in C.
- Within that precondition the `bytesLeftover > PACKET_SIZE` branch of the leftover drain cannot be reached. It is kept as code but has no observable effect. No lemma shows that one chunk of more than two packets fails the precondition.
- Serialization.Assembler.Assemble: `len` is the length of a sequence, so a negative `len` cannot be expressed.
- The `outputBuffer` parameter of `assemble` is always `_privateBuffer` (its only caller is `deserialize`), so it is modelled as a field.
- Serialization.Serialize: the copy is of bytes already in a sequence. The `void *` reinterpretation of a `packet_t` struct as bytes is not modelled.
- The assembler returns at most one packet per call, as the source does. A stream that ends with a whole packet waiting in `leftoverBuffer` therefore needs one more call; `FramingExact` and `DrainedStream` state their result after a final empty call.
- Utils.Normalise: uses unbounded integers, so 32-bit `int` overflow is not modelled. The bound on the result is stated for byte inputs.
- Utils.Map: requires `in_max != in_min`. With equal bounds C's `map` divides by zero, which is undefined behaviour, so that case has no defined result to model.
- Utils.Map: uses unbounded integers. The product `(x - in_min) * (out_max - out_min)` can overflow a 32-bit `int` in C, and this overflow is not modelled. For joystick ranges it stays far below that limit.
