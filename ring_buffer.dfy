/** A fixed-capacity FIFO ring buffer over a slice of optional slots.

    The buffer keeps no element counter and no "full" flag: when the read
    cursor `start` and the write cursor `end` coincide, the buffer is full
    exactly when the slot at `start` is occupied. The representation invariant
    `Rep` below is what makes that occupancy-only test correct.
 */
module RingBuffer {

  datatype Option<T> = None | Some(value: T)

  /** The two error kinds a caller can observe. */
  datatype Error = EmptyBuffer | FullBuffer

  datatype Result<T> = Ok(value: T) | Err(error: Error)

  // ---------------------------------------------------------------------------
  // Cursor arithmetic
  // ---------------------------------------------------------------------------

  /** `i` reduced into `[0, n)`, for `i < 2 * n`. */
  function Wrap(i: nat, n: nat): (r: nat)
    requires 0 < n && i < 2 * n
    ensures r < n
  {
    if i < n then i else i - n
  }

  /** The position, in FIFO order, of slot `i` when reading starts at
      slot `s`: the number of steps from `s` forward to `i`. */
  function Dist(s: nat, i: nat, n: nat): (r: nat)
    requires s < n && i < n
    ensures r < n
  {
    if s <= i then i - s else i + n - s
  }

  /** Advancing a cursor with `% n` is the same as one wrapping step. */
  lemma AdvanceWraps(x: nat, n: nat)
    requires x < n
    ensures (x + 1) % n == Wrap(x + 1, n)
  {
  }

  /** What slot `k` positions after the read cursor must hold for queue `q`. */
  function At<T>(q: seq<T>, k: nat): Option<T>
  {
    if k < |q| then Some(q[k]) else None
  }

  /** "Slot `i` lies in the circular range from `s` up to but not including `e`." */
  predicate InCircularRange(i: nat, s: nat, e: nat)
  {
    if s <= e then s <= i < e else s <= i || i < e
  }

  // ---------------------------------------------------------------------------
  // Representation invariant
  // ---------------------------------------------------------------------------

  /** The slots `data` with read cursor `start` and write cursor `end` hold
      the queue `q` (oldest first): the element at queue position `k` sits
      `k` slots after `start`, every other slot is empty, and `end` is the
      slot `|q|` steps after `start`. */
  ghost predicate Rep<T>(data: seq<Option<T>>, start: nat, end: nat, q: seq<T>)
  {
    var n := |data|;
    0 < n && start < n && end < n && |q| <= n &&
    end == Wrap(start + |q|, n) &&
    forall i :: 0 <= i < n ==> data[i] == At(q, Dist(start, i, n))
  }

  /** The invariant by slot ranges: when the buffer is not full
      the occupied slots are exactly the circular range [start, end); when it
      is full the cursors coincide and every slot is occupied. */
  lemma OccupiedSlots<T>(data: seq<Option<T>>, start: nat, end: nat, q: seq<T>, i: nat)
    requires Rep(data, start, end, q) && i < |data|
    ensures |q| == |data| ==> start == end && data[i].Some?
    ensures |q| < |data| ==> (data[i].Some? <==> InCircularRange(i, start, end))
  {
  }

  /** The full test of `write` and `overwrite` is exact under the invariant:
      coincident cursors with an occupied slot at `start` mean `|q| == size`. */
  lemma FullTest<T>(data: seq<Option<T>>, start: nat, end: nat, q: seq<T>)
    requires Rep(data, start, end, q)
    ensures (start == end && data[start].Some?) <==> |q| == |data|
  {
  }

  /** The empty test of `read` is exact under the invariant: the slot at
      `start` is vacant iff the queue is empty. */
  lemma EmptyTest<T>(data: seq<Option<T>>, start: nat, end: nat, q: seq<T>)
    requires Rep(data, start, end, q)
    ensures data[start].None? <==> q == []
  {
  }

  /** Freshly allocated slots, all vacant, with both cursors at 0, hold the
      empty queue. */
  lemma NewRep<T>(data: seq<Option<T>>)
    requires 0 < |data|
    requires forall i :: 0 <= i < |data| ==> data[i] == None
    ensures Rep(data, 0, 0, [])
  {
  }

  /** An empty queue leaves the cursors coincident and every slot vacant. */
  lemma EmptyRep<T>(data: seq<Option<T>>, start: nat, end: nat)
    requires Rep(data, start, end, [])
    ensures start == end
    ensures forall i :: 0 <= i < |data| ==> data[i] == None
  {
  }

  /** Storing `x` at `end` and advancing `end` appends `x` to a non-full queue. */
  lemma WriteStep<T>(data: seq<Option<T>>, start: nat, end: nat, q: seq<T>, x: T)
    requires Rep(data, start, end, q) && |q| < |data|
    ensures Rep(data[end := Some(x)], start, Wrap(end + 1, |data|), q + [x])
  {
  }

  /** Taking the slot at `start` and advancing `start` removes the head of a
      non-empty queue; the slot held that head. */
  lemma ReadStep<T>(data: seq<Option<T>>, start: nat, end: nat, q: seq<T>)
    requires Rep(data, start, end, q) && q != []
    ensures data[start] == Some(q[0])
    ensures Rep(data[start := None], Wrap(start + 1, |data|), end, q[1..])
  {
  }

  /** On a full queue, storing `x` at `end` (which is `start`) and moving both
      cursors one slot on drops the oldest element and appends `x`. */
  lemma OverwriteStep<T>(data: seq<Option<T>>, start: nat, end: nat, q: seq<T>, x: T)
    requires Rep(data, start, end, q) && |q| == |data|
    ensures start == end
    ensures Rep(data[end := Some(x)], Wrap(start + 1, |data|), Wrap(start + 1, |data|), q[1..] + [x])
  {
  }

  // ---------------------------------------------------------------------------
  // The buffer
  // ---------------------------------------------------------------------------

  class CircularBuffer<T> {
    /** The slots; the slice itself is never replaced. */
    const data: array<Option<T>>
    /** The capacity, fixed at construction. */
    const size: nat
    /** The next slot to read. */
    var start: nat
    /** The next slot to write. */
    var end: nat

    /** The elements held, oldest first. */
    ghost var Contents: seq<T>

    ghost predicate Valid()
      reads this, data
    {
      size == data.Length &&
      if size == 0 then start == 0 && end == 0 && Contents == []
      else Rep(data[..], start, end, Contents)
    }

    /** A buffer of `capacity` vacant slots with both cursors at 0. */
    constructor (capacity: nat)
      ensures Valid() && fresh(data)
      ensures size == capacity && start == 0 && end == 0 && Contents == []
      ensures forall i :: 0 <= i < capacity ==> data[i] == None
    {
      data := new Option<T>[capacity](_ => None);
      size := capacity;
      start := 0;
      end := 0;
      Contents := [];
      new;
      if capacity > 0 {
        NewRep(data[..]);
      }
    }

    /** The guard of `write` and `overwrite`: coincident cursors and an
        occupied slot at `start`. */
    function IsFull(): (r: bool)
      reads this, data
      requires Valid() && 0 < size
      ensures r <==> |Contents| == size
    {
      FullTest(data[..], start, end, Contents);
      start == end && data[start].Some?
    }

    /** The guard of `read`: a vacant slot at `start`. */
    function IsEmpty(): (r: bool)
      reads this, data
      requires Valid() && 0 < size
      ensures r <==> Contents == []
    {
      EmptyTest(data[..], start, end, Contents);
      data[start].None?
    }

    /** Appends `element`, or fails with `FullBuffer` and changes nothing. */
    method Write(element: T) returns (r: Result<()>)
      requires Valid() && 0 < size
      modifies this, data
      ensures Valid()
      ensures r.Err? <==> old(|Contents|) == size
      ensures r.Err? ==>
        (r == Err(FullBuffer) && Contents == old(Contents)
         && start == old(start) && end == old(end) && data[..] == old(data[..]))
      ensures r.Ok? ==>
        (r == Ok(()) && Contents == old(Contents) + [element]
         && start == old(start) && end == (old(end) + 1) % size
         && data[..] == old(data[..])[old(end) := Some(element)])
    {
      if IsFull() {
        r := Err(FullBuffer);
      } else {
        WriteStep(data[..], start, end, Contents, element);
        AdvanceWraps(end, size);
        data[end] := Some(element);
        end := (end + 1) % size;
        Contents := Contents + [element];
        r := Ok(());
      }
    }

    /** Removes and returns the oldest element, vacating its slot, or fails
        with `EmptyBuffer` and changes nothing. */
    method Read() returns (r: Result<T>)
      requires Valid() && 0 < size
      modifies this, data
      ensures Valid()
      ensures r.Err? <==> old(Contents) == []
      ensures r.Err? ==>
        (r == Err(EmptyBuffer) && Contents == old(Contents)
         && start == old(start) && end == old(end) && data[..] == old(data[..]))
      ensures r.Ok? ==>
        (r == Ok(old(Contents)[0]) && Contents == old(Contents)[1..]
         && start == (old(start) + 1) % size && end == old(end)
         && data[..] == old(data[..])[old(start) := None])
    {
      if IsEmpty() {
        r := Err(EmptyBuffer);
      } else {
        ReadStep(data[..], start, end, Contents);
        AdvanceWraps(start, size);
        // `take`: move the slot's value out and leave the slot vacant
        var taken := data[start];
        data[start] := None;
        // the source's fallback for a vacant slot cannot be reached: the
        // guard above saw this slot occupied, so `taken` is never None
        match taken
        case Some(readValue) =>
          start := (start + 1) % size;
          Contents := Contents[1..];
          r := Ok(readValue);
      }
    }

    /** Reads until the buffer reports empty, discarding what is read. */
    method Clear()
      requires Valid() && 0 < size
      modifies this, data
      ensures Valid()
      ensures Contents == [] && start == end && end == old(end)
      ensures forall i :: 0 <= i < size ==> data[i] == None
      ensures old(Contents) == [] ==>
        (start == old(start) && end == old(end) && data[..] == old(data[..]))
    {
      while true
        invariant Valid() && end == old(end)
        invariant old(Contents) == [] ==>
          (Contents == [] && start == old(start) && end == old(end) && data[..] == old(data[..]))
        decreases |Contents|
      {
        var r := Read();
        if r.Err? {
          break;
        }
      }
      EmptyRep(data[..], start, end);
    }

    /** Writes `element` even when the buffer is full, evicting the oldest
        element; on a non-full buffer it is `Write`. */
    method Overwrite(element: T)
      requires Valid() && 0 < size
      modifies this, data
      ensures Valid()
      ensures old(|Contents|) == size ==>
        (Contents == old(Contents)[1..] + [element]
         && start == (old(start) + 1) % size && end == start
         && data[..] == old(data[..])[old(end) := Some(element)])
      ensures old(|Contents|) < size ==>
        (Contents == old(Contents) + [element]
         && start == old(start) && end == (old(end) + 1) % size
         && data[..] == old(data[..])[old(end) := Some(element)])
    {
      if IsFull() {
        OverwriteStep(data[..], start, end, Contents, element);
        AdvanceWraps(start, size);
        data[end] := Some(element);
        start := (start + 1) % size;
        end := start;
        Contents := Contents[1..] + [element];
      } else {
        var ignored := Write(element);
        // the result is dropped; the full test above guarantees it is Ok
        assert ignored == Ok(());
      }
    }
  }
}
