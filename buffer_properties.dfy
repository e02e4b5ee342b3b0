/** What a caller of `CircularBuffer` can conclude from its contracts alone:
    the capacity-1 and capacity-3 scenarios, FIFO order, the capacity
    bound, and the round trip of an interleaved run of writes and reads. */
module BufferProperties {
  import opened RingBuffer

  /** Capacity 1: the second write is refused, the read yields the first
      element, and a further read finds the buffer empty. */
  method CapacityOneScenario() returns (w1: Result<()>, w2: Result<()>, r1: Result<int>, r2: Result<int>)
    ensures w1 == Ok(()) && w2 == Err(FullBuffer)
    ensures r1 == Ok(5) && r2 == Err(EmptyBuffer)
  {
    var b := new CircularBuffer<int>(1);
    w1 := b.Write(5);
    w2 := b.Write(6);
    r1 := b.Read();
    r2 := b.Read();
  }

  /** Capacity 3: once full, `write` is refused but `overwrite` evicts the
      oldest element; the reads then yield the three newest in order. */
  method OverwriteScenario() returns (refused: Result<()>, results: seq<Result<int>>)
    ensures refused == Err(FullBuffer)
    ensures results == [Ok(2), Ok(3), Ok(4), Err(EmptyBuffer)]
  {
    var b := new CircularBuffer<int>(3);
    var w := b.Write(1);
    w := b.Write(2);
    w := b.Write(3);
    refused := b.Write(4);
    b.Overwrite(4);
    var r1 := b.Read();
    var r2 := b.Read();
    var r3 := b.Read();
    var r4 := b.Read();
    results := [r1, r2, r3, r4];
  }

  /** A fresh buffer reads as empty, and clearing twice leaves it as empty
      as clearing once. */
  method ClearScenario<T>(capacity: nat, ws: seq<T>) returns (initial: Result<T>, afterClear: Result<T>, afterSecondClear: Result<T>)
    requires 0 < capacity
    ensures initial == Err(EmptyBuffer)
    ensures afterClear == Err(EmptyBuffer) && afterSecondClear == Err(EmptyBuffer)
  {
    var b := new CircularBuffer<T>(capacity);
    initial := b.Read();
    var i := 0;
    while i < |ws|
      invariant 0 <= i <= |ws|
      invariant b.Valid() && b.size == capacity && fresh(b.data)
    {
      b.Overwrite(ws[i]);
      i := i + 1;
    }
    b.Clear();
    afterClear := b.Read();
    b.Clear();
    afterSecondClear := b.Read();
  }

  /** Up to `capacity` writes all succeed, and reading them back yields them
      in the order written, after which the buffer is empty. */
  method FifoOrder<T>(capacity: nat, ws: seq<T>) returns (writes: seq<Result<()>>, results: seq<Result<T>>, after: Result<T>)
    requires 0 < capacity && |ws| <= capacity
    ensures |writes| == |ws| && forall i :: 0 <= i < |ws| ==> writes[i] == Ok(())
    ensures |results| == |ws| && forall i :: 0 <= i < |ws| ==> results[i] == Ok(ws[i])
    ensures after == Err(EmptyBuffer)
  {
    var b := new CircularBuffer<T>(capacity);
    writes := [];
    while |writes| < |ws|
      invariant |writes| <= |ws|
      invariant b.Valid() && b.size == capacity && fresh(b.data)
      invariant b.Contents == ws[..|writes|]
      invariant forall i :: 0 <= i < |writes| ==> writes[i] == Ok(())
    {
      var w := b.Write(ws[|writes|]);
      assert ws[..|writes| + 1] == ws[..|writes|] + [ws[|writes|]];
      writes := writes + [w];
    }
    results := [];
    while |results| < |ws|
      invariant |results| <= |ws|
      invariant b.Valid() && b.size == capacity && fresh(b.data)
      invariant b.Contents == ws[|results|..]
      invariant forall i :: 0 <= i < |results| ==> results[i] == Ok(ws[i])
    {
      var r := b.Read();
      results := results + [r];
    }
    after := b.Read();
  }

  /** A buffer of capacity `|ws|` accepts all of `ws` and then refuses the
      next write with `FullBuffer`. */
  method CapacityBound<T>(ws: seq<T>, extra: T) returns (writes: seq<Result<()>>, overflow: Result<()>)
    requires 0 < |ws|
    ensures |writes| == |ws| && forall i :: 0 <= i < |ws| ==> writes[i] == Ok(())
    ensures overflow == Err(FullBuffer)
  {
    var b := new CircularBuffer<T>(|ws|);
    writes := [];
    while |writes| < |ws|
      invariant |writes| <= |ws|
      invariant b.Valid() && b.size == |ws| && fresh(b.data)
      invariant |b.Contents| == |writes|
      invariant forall i :: 0 <= i < |writes| ==> writes[i] == Ok(())
    {
      var w := b.Write(ws[|writes|]);
      writes := writes + [w];
    }
    overflow := b.Write(extra);
  }

  /** One caller action: write an element, or read one. */
  datatype Op<T> = Put(x: T) | Take

  /** Runs `ops` against a fresh buffer, then drains it. `accepted` lists the
      elements whose write succeeded, `delivered` the values of the reads
      that succeeded, and `rest` what the final drain read. Every accepted
      element is read exactly once, in write order; no read sees anything
      else; and no more than `capacity` elements are ever outstanding. */
  method Replay<T>(capacity: nat, ops: seq<Op<T>>) returns (accepted: seq<T>, delivered: seq<T>, rest: seq<T>)
    requires 0 < capacity
    ensures delivered + rest == accepted
    ensures |accepted| - |delivered| <= capacity
  {
    var b := new CircularBuffer<T>(capacity);
    accepted, delivered := [], [];
    var i := 0;
    while i < |ops|
      invariant 0 <= i <= |ops|
      invariant b.Valid() && b.size == capacity && fresh(b.data)
      invariant |delivered| <= |accepted|
      invariant delivered + b.Contents == accepted
    {
      match ops[i] {
        case Put(x) =>
          var w := b.Write(x);
          if w.Ok? {
            accepted := accepted + [x];
          }
        case Take =>
          var r := b.Read();
          if r.Ok? {
            delivered := delivered + [r.value];
          }
      }
      i := i + 1;
    }
    rest := [];
    while true
      invariant b.Valid() && b.size == capacity && fresh(b.data)
      invariant delivered + rest + b.Contents == accepted
      decreases |b.Contents|
    {
      var r := b.Read();
      if r.Err? {
        break;
      }
      rest := rest + [r.value];
    }
  }
}
