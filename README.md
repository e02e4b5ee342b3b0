# circular_buffer in Dafny

A model of the `circular_buffer` crate. The crate has one type, `CircularBuffer<T>`: a
fixed-capacity FIFO ring buffer. It stores its elements in a boxed slice of `Option<T>`
slots. `start` is the next slot to read, `end` is the next slot to write, and `size` is
the capacity. The buffer keeps no count and no "full" flag. When the two cursors are
equal, it tells full from empty by checking whether the slot at `start` is occupied.

The model has two files:

- `ring_buffer.dfy`, module `RingBuffer`:
  - `Option`, `Error` (`EmptyBuffer`, `FullBuffer`) and `Result`.
  - The representation invariant `Rep`. It relates the slots and both cursors to the
    abstract queue, oldest element first.
  - The lemmas that each operation preserves `Rep`.
  - The class `CircularBuffer` holds the slots as a constant `array<Option<T>>`, the
    constant capacity `size`, and the cursor fields `start` and `end`. It also has a ghost queue, `Contents`. Its methods `Write`,
    `Read`, `Clear` and `Overwrite` update the array and the cursors in place, as the
    crate does. Each method states the new slots, the new cursors and the new
    `Contents`.
- `buffer_properties.dfy`, module `BufferProperties`: callers that use only the class
  contracts. They cover the documented capacity-1 examples, an overwrite scenario, FIFO
  order, the capacity bound, clearing, and a replay of any interleaving of writes and
  reads.

What `Rep` states: the element at queue position `k` sits `k` slots after `start`
(wrapping around). Every other slot is `None`. `end` is `|queue|` slots after `start`.
From this the model proves two things:

- If the buffer is not full, the occupied slots are exactly the circular range from
  `start` up to `end`.
- If it is full, the cursors are equal and every slot is occupied.

So the occupancy-only tests at `src/lib.rs:77` and `src/lib.rs:92` decide fullness and
emptiness exactly.

## Model

| member | source | states |
|---|---|---|
| `RingBuffer.OccupiedSlots` | src/lib.rs:11-20 | under the invariant, when the buffer is not full a slot is occupied iff it lies in the circular range [start, end); when it is full the cursors coincide and every slot is occupied |
| `RingBuffer.FullTest` | src/lib.rs:77 | the guard "cursors equal and slot `start` occupied" holds exactly when the queue holds `size` elements |
| `RingBuffer.EmptyTest` | src/lib.rs:92 | the guard "slot `start` is `None`" holds exactly when the queue is empty |
| `RingBuffer.NewRep` | src/lib.rs:43-51 | `size` vacant slots with both cursors at 0 represent the empty queue |
| `RingBuffer.EmptyRep` | src/lib.rs:109-114 | an empty queue forces equal cursors and all slots vacant |
| `RingBuffer.WriteStep` | src/lib.rs:80-81 | storing at `end` and advancing `end` by one (wrapping) turns a non-full queue `q` into `q + [x]` and keeps the invariant |
| `RingBuffer.ReadStep` | src/lib.rs:95-96 | on a non-empty queue the slot at `start` holds the head; vacating it and advancing `start` leaves the tail and keeps the invariant |
| `RingBuffer.OverwriteStep` | src/lib.rs:121-124 | on a full queue `end == start`; storing at `end` and moving both cursors on by one gives `q[1..] + [x]`, still full |
| `RingBuffer.CircularBuffer.constructor` | src/lib.rs:43-51 | a fresh array of `capacity` `None` slots, `size == capacity`, `start == end == 0`, empty contents |
| `RingBuffer.CircularBuffer.IsFull` | src/lib.rs:77 | the full test of `write`/`overwrite` is true iff the buffer holds `size` elements |
| `RingBuffer.CircularBuffer.IsEmpty` | src/lib.rs:92 | the empty test of `read` is true iff the buffer holds nothing |
| `RingBuffer.CircularBuffer.Write` | src/lib.rs:76-84 | fails with `FullBuffer` iff full, and then nothing changes; otherwise `Ok(())`, slot `end` becomes `Some(element)`, `end` advances mod `size`, `start` is unchanged, contents gain `element` at the back |
| `RingBuffer.CircularBuffer.Read` | src/lib.rs:91-104 | fails with `EmptyBuffer` iff empty, and then nothing changes; otherwise returns the oldest element, slot `start` becomes `None`, `start` advances mod `size`, contents lose their head; the vacant-slot fallback (lines 98-101) is proved unreachable |
| `RingBuffer.CircularBuffer.Clear` | src/lib.rs:109-114 | the read loop terminates and leaves the buffer empty, every slot `None`, `end` where it was and `start` moved up to it; on an already-empty buffer nothing changes |
| `RingBuffer.CircularBuffer.Overwrite` | src/lib.rs:120-128 | on a full buffer: stores at `end`, moves `start` on by one mod `size`, sets `end := start`, contents become `old[1..] + [element]`; otherwise exactly the effect of a successful `Write`, whose ignored result is `Ok(())` |
| `BufferProperties.CapacityOneScenario` | src/lib.rs:64-75 | capacity 1: `write(5)` is `Ok`, `write(6)` is `Err(FullBuffer)`, `read()` is `Ok(5)`, then `Err(EmptyBuffer)` |
| `BufferProperties.OverwriteScenario` | src/lib.rs:116-128 | capacity 3 after writing 1, 2, 3: `write(4)` is `Err(FullBuffer)`; after `overwrite(4)` the reads give 2, 3, 4, then `Err(EmptyBuffer)` |
| `BufferProperties.ClearScenario` | src/lib.rs:106-114 | a fresh buffer reads `Err(EmptyBuffer)`; after any overwrites, `clear` and then `clear` again both leave the next read `Err(EmptyBuffer)` |
| `BufferProperties.FifoOrder` | src/lib.rs:76-104 | up to `capacity` writes all return `Ok(())`; the reads then return them in write order; the next read is `Err(EmptyBuffer)` |
| `BufferProperties.CapacityBound` | src/lib.rs:76-84 | `capacity` writes into an empty buffer all succeed; the next write is `Err(FullBuffer)` |
| `BufferProperties.Replay` | src/lib.rs:76-104 | for any interleaving of writes and reads followed by a drain, the values read are exactly the accepted writes, each once, in write order; at most `capacity` elements are ever outstanding |

## Left out

- Capacity 0: `new(0)` is modelled, and `Valid()` admits the resulting empty buffer. In
  the crate, every later `write`, `read`, `clear` or `overwrite` on it panics. The panic
  comes from indexing `data[0]` at `src/lib.rs:77`/`92`, or from `% 0`. So these methods
  require `0 < size` instead of modelling the panic. A zero-capacity buffer might be
  expected to fail every write and read with an error; the code panics instead, and the
  model follows the code.
- Integer width: `usize` is modelled as an unbounded `nat`. No wrap-around can happen,
  because a cursor is always below `size` before `+ 1`.
- Allocation: `Vec::with_capacity`, `resize_with` and `into_boxed_slice` are modelled as
  one fresh array filled with `None`.
- Ownership and drop: a read or evicted slot becomes `None`, and an evicted value is not
  returned. Moving and dropping of values is not modelled.
- `RingBuffer.CircularBuffer.Read`: the arithmetic of the fallback branch at
  `src/lib.rs:98-101` (`start += 1` without a modulo) is not modelled. The model proves
  that branch can never run: the guard at line 92 has already seen the slot occupied.
- The doc examples are modelled by the intent of their text, not literally. Line 41 is
  missing `let`, and line 68 compares `5` with a `Result`.
- Concurrency: the crate has none, and the model has none.
