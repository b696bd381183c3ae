/** The channel transforms: the plane swap, the clip and the scale of one
    channel, each in the variants of the library. Every one of them first
    rejects a channel index the frames do not have, then reads the frames
    behind the header, transforms them, and writes them behind the header
    already in the output file. */
module Channels {
  import opened Common
  import opened Layout
  import opened Kernels
  import opened Sequences
  import opened Streams
  import opened Buffers
  import opened InPlace
  import opened Streaming

  /** `clip_channel` and `clip_channel_small`, which are the same code: frame
      by frame, every byte of plane `c` above `hi` becomes `hi`, otherwise
      every byte below `lo` becomes `lo`. */
  method ClipChannel(r: Reader, w: Writer, c: Byte, lo: Byte, hi: Byte, n: nat, g: Geometry)
      returns (outcome: Outcome)
    requires r.pos == HeaderSize <= |r.data|
    requires w.Valid()
    modifies r, w
    ensures c >= g.channels ==> outcome == InvalidParameter && w.contents == old(w.contents) && r.pos == old(r.pos)
    ensures c < g.channels ==>
              var p := r.data[HeaderSize..];
              var m := FramesAvailable(|p|, g.FrameSize(), n);
              Streamed(old(w.contents), MapPayload(p, g, m, MapPlane(c, Clamp(lo, hi))), m == n, w.limit, w.contents, outcome)
  {
    if c >= g.channels {
      return InvalidParameter;
    }
    var fs, ps := g.FrameSize(), g.PlaneSize();
    ghost var p, before, k := r.data[HeaderSize..], w.contents, MapPlane(c, Clamp(lo, hi));
    PlaneInside(c, g);
    var buf := new Byte[fs];
    var frame: nat := 0;
    while frame < n
      invariant Progress(r.data, r.pos, w.contents, before, g, MapPlane(c, Clamp(lo, hi)), n, frame)
      invariant w.Valid() && buf.Length == fs
    {
      var status := ClipFrame(r, w, buf, c, lo, hi, n, g, frame, before);
      if status != Done {
        return status;
      }
      frame := frame + 1;
    }
    AllFramesWritten(p, g, k, n, before, w.limit);
    return Done;
  }

  /** One frame of `clip_channel`: read, transformed in place and written. */
  method ClipFrame(r: Reader, w: Writer, buf: array<Byte>, c: Byte, lo: Byte, hi: Byte, n: nat,
                   g: Geometry, i: nat, ghost before: seq<Byte>)
      returns (outcome: Outcome)
    requires Progress(r.data, r.pos, w.contents, before, g, MapPlane(c, Clamp(lo, hi)), n, i) && i < n
    requires w.Valid() && buf.Length == g.FrameSize()
    modifies r, w, buf
    ensures w.Valid()
    ensures Stepped(r.data, r.pos, w.contents, before, g, MapPlane(c, Clamp(lo, hi)), n, i, w.limit, outcome)
  {
    var fs, ps := g.FrameSize(), g.PlaneSize();
    PlaneInside(c, g);
    var whole := ReadNextFrame(r, buf, fs, n, i);
    if !whole {
      MissingStep(r.data, old(r.pos), r.pos, w.contents, before, g, MapPlane(c, Clamp(lo, hi)), n, i, w.limit);
      return IoFailure;
    }
    ClampPixels(buf, Mul(c, ps), ps, lo, hi);
    outcome := WriteNextFrame(w, buf, r.data, r.pos, g, MapPlane(c, Clamp(lo, hi)), n, i, before);
  }

  /** `clip_channel_fast`: frame by frame, every byte of plane `c` replaced
      through a 256-entry table that lasts the whole transform; an entry is
      computed when its byte first appears, testing `< lo` before `> hi`. */
  method ClipChannelFast(r: Reader, w: Writer, c: Byte, lo: Byte, hi: Byte, n: nat, g: Geometry)
      returns (outcome: Outcome)
    requires r.pos == HeaderSize <= |r.data|
    requires w.Valid()
    modifies r, w
    ensures c >= g.channels ==> outcome == InvalidParameter && w.contents == old(w.contents) && r.pos == old(r.pos)
    ensures !(c >= g.channels) ==>
              var p := r.data[HeaderSize..];
              var m := FramesAvailable(|p|, g.FrameSize(), n);
              Streamed(old(w.contents), MapPayload(p, g, m, MapPlane(c, ClampLookup(lo, hi))), m == n, w.limit, w.contents, outcome)
  {
    if c >= g.channels {
      return InvalidParameter;
    }
    var fs, ps := g.FrameSize(), g.PlaneSize();
    ghost var p, before, k := r.data[HeaderSize..], w.contents, MapPlane(c, ClampLookup(lo, hi));
    PlaneInside(c, g);
    var table := new LookupTable(ClampLookup(lo, hi));
    var buf := new Byte[fs];
    var frame: nat := 0;
    while frame < n
      invariant Progress(r.data, r.pos, w.contents, before, g, MapPlane(c, ClampLookup(lo, hi)), n, frame)
      invariant w.Valid() && buf.Length == fs
      invariant table.Valid() && table.op == ClampLookup(lo, hi)
      invariant fresh(table.entry) && fresh(table.ready)
    {
      var status := ClipFrameFast(r, w, buf, table, c, lo, hi, n, g, frame, before);
      if status != Done {
        return status;
      }
      frame := frame + 1;
    }
    AllFramesWritten(p, g, k, n, before, w.limit);
    return Done;
  }

  /** One frame of `clip_channel_fast`: read, transformed in place and written. */
  method ClipFrameFast(r: Reader, w: Writer, buf: array<Byte>, table: LookupTable, c: Byte, lo: Byte,
                   hi: Byte, n: nat, g: Geometry, i: nat, ghost before: seq<Byte>)
      returns (outcome: Outcome)
    requires Progress(r.data, r.pos, w.contents, before, g, MapPlane(c, ClampLookup(lo, hi)), n, i) && i < n
    requires w.Valid() && buf.Length == g.FrameSize()
    requires table.Valid() && table.op == ClampLookup(lo, hi) && buf != table.entry
    modifies r, w, buf, table.entry, table.ready
    ensures w.Valid()
    ensures table.Valid()
    ensures Stepped(r.data, r.pos, w.contents, before, g, MapPlane(c, ClampLookup(lo, hi)), n, i, w.limit, outcome)
  {
    var fs, ps := g.FrameSize(), g.PlaneSize();
    PlaneInside(c, g);
    var whole := ReadNextFrame(r, buf, fs, n, i);
    if !whole {
      MissingStep(r.data, old(r.pos), r.pos, w.contents, before, g, MapPlane(c, ClampLookup(lo, hi)), n, i, w.limit);
      return IoFailure;
    }
    table.MapPixels(buf, Mul(c, ps), ps);
    outcome := WriteNextFrame(w, buf, r.data, r.pos, g, MapPlane(c, ClampLookup(lo, hi)), n, i, before);
  }

  /** `scale_channel`: frame by frame, every byte of plane `c` multiplied by
      `factor`, 255 above 255, 0 below 0, and truncated otherwise. */
  method ScaleChannel(r: Reader, w: Writer, c: Byte, factor: real, n: nat, g: Geometry)
      returns (outcome: Outcome)
    requires r.pos == HeaderSize <= |r.data|
    requires w.Valid()
    modifies r, w
    ensures c >= g.channels ==> outcome == InvalidParameter && w.contents == old(w.contents) && r.pos == old(r.pos)
    ensures !(c >= g.channels) ==>
              var p := r.data[HeaderSize..];
              var m := FramesAvailable(|p|, g.FrameSize(), n);
              Streamed(old(w.contents), MapPayload(p, g, m, MapPlane(c, Scale(factor))), m == n, w.limit, w.contents, outcome)
  {
    if c >= g.channels {
      return InvalidParameter;
    }
    var fs, ps := g.FrameSize(), g.PlaneSize();
    ghost var p, before, k := r.data[HeaderSize..], w.contents, MapPlane(c, Scale(factor));
    PlaneInside(c, g);
    var buf := new Byte[fs];
    var frame: nat := 0;
    while frame < n
      invariant Progress(r.data, r.pos, w.contents, before, g, MapPlane(c, Scale(factor)), n, frame)
      invariant w.Valid() && buf.Length == fs
    {
      var status := ScaleFrame(r, w, buf, c, factor, n, g, frame, before);
      if status != Done {
        return status;
      }
      frame := frame + 1;
    }
    AllFramesWritten(p, g, k, n, before, w.limit);
    return Done;
  }

  /** One frame of `scale_channel`: read, transformed in place and written. */
  method ScaleFrame(r: Reader, w: Writer, buf: array<Byte>, c: Byte, factor: real, n: nat, g: Geometry,
                   i: nat, ghost before: seq<Byte>)
      returns (outcome: Outcome)
    requires Progress(r.data, r.pos, w.contents, before, g, MapPlane(c, Scale(factor)), n, i) && i < n
    requires w.Valid() && buf.Length == g.FrameSize()
    modifies r, w, buf
    ensures w.Valid()
    ensures Stepped(r.data, r.pos, w.contents, before, g, MapPlane(c, Scale(factor)), n, i, w.limit, outcome)
  {
    var fs, ps := g.FrameSize(), g.PlaneSize();
    PlaneInside(c, g);
    var whole := ReadNextFrame(r, buf, fs, n, i);
    if !whole {
      MissingStep(r.data, old(r.pos), r.pos, w.contents, before, g, MapPlane(c, Scale(factor)), n, i, w.limit);
      return IoFailure;
    }
    ScalePixels(buf, Mul(c, ps), ps, factor);
    outcome := WriteNextFrame(w, buf, r.data, r.pos, g, MapPlane(c, Scale(factor)), n, i, before);
  }

  /** `scale_channel_fast`: frame by frame, every byte of plane `c` replaced
      through a 256-entry table that lasts the whole transform; an entry is
      the product clamped to [0, 255] and then truncated. */
  method ScaleChannelFast(r: Reader, w: Writer, c: Byte, factor: real, n: nat, g: Geometry)
      returns (outcome: Outcome)
    requires r.pos == HeaderSize <= |r.data|
    requires w.Valid()
    modifies r, w
    ensures c >= g.channels ==> outcome == InvalidParameter && w.contents == old(w.contents) && r.pos == old(r.pos)
    ensures !(c >= g.channels) ==>
              var p := r.data[HeaderSize..];
              var m := FramesAvailable(|p|, g.FrameSize(), n);
              Streamed(old(w.contents), MapPayload(p, g, m, MapPlane(c, ScaleLookup(factor))), m == n, w.limit, w.contents, outcome)
  {
    if c >= g.channels {
      return InvalidParameter;
    }
    var fs, ps := g.FrameSize(), g.PlaneSize();
    ghost var p, before, k := r.data[HeaderSize..], w.contents, MapPlane(c, ScaleLookup(factor));
    PlaneInside(c, g);
    var table := new LookupTable(ScaleLookup(factor));
    var buf := new Byte[fs];
    var frame: nat := 0;
    while frame < n
      invariant Progress(r.data, r.pos, w.contents, before, g, MapPlane(c, ScaleLookup(factor)), n, frame)
      invariant w.Valid() && buf.Length == fs
      invariant table.Valid() && table.op == ScaleLookup(factor)
      invariant fresh(table.entry) && fresh(table.ready)
    {
      var status := ScaleFrameFast(r, w, buf, table, c, factor, n, g, frame, before);
      if status != Done {
        return status;
      }
      frame := frame + 1;
    }
    AllFramesWritten(p, g, k, n, before, w.limit);
    return Done;
  }

  /** One frame of `scale_channel_fast`: read, transformed in place and written. */
  method ScaleFrameFast(r: Reader, w: Writer, buf: array<Byte>, table: LookupTable, c: Byte, factor: real,
                   n: nat, g: Geometry, i: nat, ghost before: seq<Byte>)
      returns (outcome: Outcome)
    requires Progress(r.data, r.pos, w.contents, before, g, MapPlane(c, ScaleLookup(factor)), n, i) && i < n
    requires w.Valid() && buf.Length == g.FrameSize()
    requires table.Valid() && table.op == ScaleLookup(factor) && buf != table.entry
    modifies r, w, buf, table.entry, table.ready
    ensures w.Valid()
    ensures table.Valid()
    ensures Stepped(r.data, r.pos, w.contents, before, g, MapPlane(c, ScaleLookup(factor)), n, i, w.limit, outcome)
  {
    var fs, ps := g.FrameSize(), g.PlaneSize();
    PlaneInside(c, g);
    var whole := ReadNextFrame(r, buf, fs, n, i);
    if !whole {
      MissingStep(r.data, old(r.pos), r.pos, w.contents, before, g, MapPlane(c, ScaleLookup(factor)), n, i, w.limit);
      return IoFailure;
    }
    table.MapPixels(buf, Mul(c, ps), ps);
    outcome := WriteNextFrame(w, buf, r.data, r.pos, g, MapPlane(c, ScaleLookup(factor)), n, i, before);
  }

  /** `scale_channel_small`: frame by frame, plane `c` copied into a
      plane-sized buffer, scaled there as `scale_channel` does, and copied
      back. */
  method ScaleChannelSmall(r: Reader, w: Writer, c: Byte, factor: real, n: nat, g: Geometry)
      returns (outcome: Outcome)
    requires r.pos == HeaderSize <= |r.data|
    requires w.Valid()
    modifies r, w
    ensures c >= g.channels ==> outcome == InvalidParameter && w.contents == old(w.contents) && r.pos == old(r.pos)
    ensures !(c >= g.channels) ==>
              var p := r.data[HeaderSize..];
              var m := FramesAvailable(|p|, g.FrameSize(), n);
              Streamed(old(w.contents), MapPayload(p, g, m, MapPlane(c, Scale(factor))), m == n, w.limit, w.contents, outcome)
  {
    if c >= g.channels {
      return InvalidParameter;
    }
    var fs, ps := g.FrameSize(), g.PlaneSize();
    ghost var p, before, k := r.data[HeaderSize..], w.contents, MapPlane(c, Scale(factor));
    PlaneInside(c, g);
    var plane := new Byte[ps];
    var buf := new Byte[fs];
    var frame: nat := 0;
    while frame < n
      invariant Progress(r.data, r.pos, w.contents, before, g, MapPlane(c, Scale(factor)), n, frame)
      invariant w.Valid() && buf.Length == fs
      invariant plane.Length == ps && fresh(plane)
    {
      var status := ScaleFrameSmall(r, w, buf, plane, c, factor, n, g, frame, before);
      if status != Done {
        return status;
      }
      frame := frame + 1;
    }
    AllFramesWritten(p, g, k, n, before, w.limit);
    return Done;
  }

  /** One frame of `scale_channel_small`: read, transformed in place and written. */
  method ScaleFrameSmall(r: Reader, w: Writer, buf: array<Byte>, plane: array<Byte>, c: Byte, factor: real,
                   n: nat, g: Geometry, i: nat, ghost before: seq<Byte>)
      returns (outcome: Outcome)
    requires Progress(r.data, r.pos, w.contents, before, g, MapPlane(c, Scale(factor)), n, i) && i < n
    requires w.Valid() && buf.Length == g.FrameSize()
    requires plane.Length == g.PlaneSize() && plane != buf
    modifies r, w, buf, plane
    ensures w.Valid()
    ensures Stepped(r.data, r.pos, w.contents, before, g, MapPlane(c, Scale(factor)), n, i, w.limit, outcome)
  {
    var fs, ps := g.FrameSize(), g.PlaneSize();
    PlaneInside(c, g);
    var whole := ReadNextFrame(r, buf, fs, n, i);
    if !whole {
      MissingStep(r.data, old(r.pos), r.pos, w.contents, before, g, MapPlane(c, Scale(factor)), n, i, w.limit);
      return IoFailure;
    }
    ScaleViaCopy(buf, plane, Mul(c, ps), factor);
    outcome := WriteNextFrame(w, buf, r.data, r.pos, g, MapPlane(c, Scale(factor)), n, i, before);
  }

  /** `swap_channel_small`: frame by frame, planes `ch1` and `ch2` exchanged
      byte by byte through a temporary byte. */
  method SwapChannelSmall(r: Reader, w: Writer, ch1: Byte, ch2: Byte, n: nat, g: Geometry)
      returns (outcome: Outcome)
    requires r.pos == HeaderSize <= |r.data|
    requires w.Valid()
    modifies r, w
    ensures ch1 >= g.channels || ch2 >= g.channels ==> outcome == InvalidParameter && w.contents == old(w.contents) && r.pos == old(r.pos)
    ensures !(ch1 >= g.channels || ch2 >= g.channels) ==>
              var p := r.data[HeaderSize..];
              var m := FramesAvailable(|p|, g.FrameSize(), n);
              Streamed(old(w.contents), MapPayload(p, g, m, SwapPlanes(ch1, ch2)), m == n, w.limit, w.contents, outcome)
  {
    if ch1 >= g.channels || ch2 >= g.channels {
      return InvalidParameter;
    }
    var fs, ps := g.FrameSize(), g.PlaneSize();
    ghost var p, before, k := r.data[HeaderSize..], w.contents, SwapPlanes(ch1, ch2);
    var buf := new Byte[fs];
    var frame: nat := 0;
    while frame < n
      invariant Progress(r.data, r.pos, w.contents, before, g, SwapPlanes(ch1, ch2), n, frame)
      invariant w.Valid() && buf.Length == fs
    {
      var status := SwapFrameSmall(r, w, buf, ch1, ch2, n, g, frame, before);
      if status != Done {
        return status;
      }
      frame := frame + 1;
    }
    AllFramesWritten(p, g, k, n, before, w.limit);
    return Done;
  }

  /** One frame of `swap_channel_small`: read, transformed in place and written. */
  method SwapFrameSmall(r: Reader, w: Writer, buf: array<Byte>, ch1: Byte, ch2: Byte, n: nat, g: Geometry,
                   i: nat, ghost before: seq<Byte>)
      returns (outcome: Outcome)
    requires Progress(r.data, r.pos, w.contents, before, g, SwapPlanes(ch1, ch2), n, i) && i < n
    requires w.Valid() && buf.Length == g.FrameSize()
    modifies r, w, buf
    ensures w.Valid()
    ensures Stepped(r.data, r.pos, w.contents, before, g, SwapPlanes(ch1, ch2), n, i, w.limit, outcome)
  {
    var fs, ps := g.FrameSize(), g.PlaneSize();
    var whole := ReadNextFrame(r, buf, fs, n, i);
    if !whole {
      MissingStep(r.data, old(r.pos), r.pos, w.contents, before, g, SwapPlanes(ch1, ch2), n, i, w.limit);
      return IoFailure;
    }
    SwapPlanesIsSwapAt(ch1, ch2, g, buf[..]);
    SwapPixels(buf, Mul(ch1, ps), Mul(ch2, ps), ps);
    outcome := WriteNextFrame(w, buf, r.data, r.pos, g, SwapPlanes(ch1, ch2), n, i, before);
  }

  /** `swap_channel_fast`: the whole payload read in one go, planes `ch1`
      and `ch2` of every frame exchanged with `memcpy` through a plane-sized
      buffer, and everything written in one go. A short read writes nothing. */
  method SwapChannelFast(r: Reader, w: Writer, ch1: Byte, ch2: Byte, n: nat, g: Geometry)
      returns (outcome: Outcome)
    requires r.pos == HeaderSize <= |r.data|
    requires w.Valid()
    modifies r, w
    ensures ch1 >= g.channels || ch2 >= g.channels ==>
              outcome == InvalidParameter && w.contents == old(w.contents) && r.pos == old(r.pos)
    ensures ch1 < g.channels && ch2 < g.channels ==>
              var p := r.data[HeaderSize..];
              var whole := Mul(n, g.FrameSize()) <= |p|;
              Streamed(old(w.contents), if whole then MapPayload(p, g, n, SwapPlanes(ch1, ch2)) else [],
                       whole, w.limit, w.contents, outcome)
  {
    if ch1 >= g.channels || ch2 >= g.channels {
      return InvalidParameter;
    }
    var fs, ps := g.FrameSize(), g.PlaneSize();
    var total := Mul(n, fs);
    ghost var p, before, k := r.data[HeaderSize..], w.contents, SwapPlanes(ch1, ch2);
    var buf := new Byte[total];
    var temp := new Byte[ps];
    var count := r.ReadFrames(buf, fs, n, 0, n);
    if count != total {
      OneGoShortRead(r.data, g, k, n, 0, before, w.limit);
      outcome := IoFailure;
    } else {
      SwapEachViaTemp(buf, temp, g, ch1, ch2, n, p, 0);
      var wrote := w.Write(buf[..total]);
      OneGoWritten(r.data, g, k, n, 0, before, w.limit, buf[..total], w.contents, wrote);
      outcome := if wrote != total then IoFailure else Done;
    }
  }

  /** A transform that reads all `n` frames in one go and meets a short
      read writes nothing and fails. */
  lemma OneGoShortRead(data: seq<Byte>, g: Geometry, k: Kernel, n: nat, done: nat, before: seq<Byte>, limit: nat)
    requires Fits(k, g) && HeaderSize <= |data| && done == 0 && |before| <= limit
    requires FramesAvailable(|data| - HeaderSize, g.FrameSize(), n) < done + n
    ensures var p := data[HeaderSize..];
            var whole := Mul(n, g.FrameSize()) <= |p|;
            Streamed(before, if whole then MapPayload(p, g, n, k) else [], whole, limit, before, IoFailure)
  {
    var p := data[HeaderSize..];
    if Mul(n, g.FrameSize()) <= |p| {
      FramesAvailableAtLeast(|p|, g.FrameSize(), n, n);
    }
    assert before + [] == before;
  }

  /** A transform that read all `n` frames in one go, transformed them into
      `B` and wrote `wrote` bytes of it: the file holds what fit, and the
      transform ends normally exactly when all of `B` was written. */
  lemma OneGoWritten(data: seq<Byte>, g: Geometry, k: Kernel, n: nat, done: nat, before: seq<Byte>, limit: nat,
                     B: seq<Byte>, after: seq<Byte>, wrote: nat)
    requires Fits(k, g) && HeaderSize <= |data| && done == 0
    requires Mul(done + n, g.FrameSize()) <= |data| - HeaderSize
    requires MapPayload(data[HeaderSize..], g, done + n, k) == MapPayload(data[HeaderSize..], g, done, k) + B
    requires after == Take(before + B, limit)
    requires wrote == if |before| + |B| <= limit then |B| else limit - |before|
    ensures var p := data[HeaderSize..];
            var whole := Mul(n, g.FrameSize()) <= |p|;
            && (wrote == |B| ==> Streamed(before, if whole then MapPayload(p, g, n, k) else [], whole, limit, after, Done))
            && (wrote != |B| ==> Streamed(before, if whole then MapPayload(p, g, n, k) else [], whole, limit, after, IoFailure))
  {
    var p := data[HeaderSize..];
    MapPayloadLength(p, g, 0, k);
    assert MapPayload(p, g, n, k) == B;
    if wrote != |B| {
      ShortWrite(before, B, B, true, limit);
    }
  }

  /** The frame loop of `swap_channel_fast`: planes `ch1` and `ch2` of each
      of the first `count` frames the buffer holds exchanged through the
      plane-sized `temp`. */
  method SwapEachViaTemp(buf: array<Byte>, temp: array<Byte>, g: Geometry, ch1: Byte, ch2: Byte, count: nat,
                         ghost p: seq<Byte>, ghost done: nat)
    requires ch1 < g.channels && ch2 < g.channels && temp.Length == g.PlaneSize() && temp != buf
    requires Mul(done + count, g.FrameSize()) <= |p| && Mul(count, g.FrameSize()) <= buf.Length
    requires Mul(done, g.FrameSize()) + Mul(count, g.FrameSize()) == Mul(done + count, g.FrameSize())
    requires buf[..Mul(count, g.FrameSize())] == p[Mul(done, g.FrameSize())..Mul(done + count, g.FrameSize())]
    modifies buf, temp
    ensures MapPayload(p, g, done + count, SwapPlanes(ch1, ch2))
            == MapPayload(p, g, done, SwapPlanes(ch1, ch2)) + buf[..Mul(count, g.FrameSize())]
  {
    var fs, ps := g.FrameSize(), g.PlaneSize();
    ghost var k, F := SwapPlanes(ch1, ch2), Frames(p, fs, done + count)[done..];
    BatchStart(buf[..], p, g, k, done, count);
    var frame: nat := 0;
    while frame < count
      invariant frame <= count
      invariant Frames(buf[..], fs, count) == MappedUpTo(F, g, k, frame)
    {
      ghost var s, G := buf[..], MappedUpTo(F, g, k, frame);
      var i, j := Mul(frame, fs) + Mul(ch1, ps), Mul(frame, fs) + Mul(ch2, ps);
      PlaneBlocks(buf.Length, g, count, frame, ch1, ch2, i, j);
      SwapViaTemp(buf, temp, i, j, ps);
      FramesSwapPlanes(s, buf[..], g, count, frame, ch1, ch2, G, i, j);
      MappedUpToNext(F, g, k, frame, G);
      frame := frame + 1;
    }
    BatchDone(buf[..], p, g, k, done, count);
  }

  /** How many frames `swap_channel` writes when the payload holds `len`
      bytes and the header announces `n` frames of `fs` bytes: all of them
      when none is missing, and otherwise the frames of the batches read
      whole, since the batch that comes up short is never written. */
  function WholeBatches(len: nat, fs: nat, n: nat): (r: nat)
    ensures var m := FramesAvailable(len, fs, n);
            && r <= m && Mul(r, fs) <= len
            && (m == n ==> r == n)
            && (m < n ==> r % BatchSize == 0 && m < r + BatchSize)
  {
    var m := FramesAvailable(len, fs, n);
    var r := if m == n then n else m - m % BatchSize;
    MulMono(r, m, fs);
    r
  }

  /** What `swap_channel` writes when the payload is `p`: the transform of
      the frames of the batches it reads whole, never more than the frames
      the payload holds. */
  function BatchedOutput(p: seq<Byte>, g: Geometry, n: nat, k: Kernel): (r: seq<Byte>)
    requires Fits(k, g)
    ensures r <= MapPayload(p, g, FramesAvailable(|p|, g.FrameSize(), n), k)
  {
    var m := FramesAvailable(|p|, g.FrameSize(), n);
    MapPayloadPrefix(p, g, WholeBatches(|p|, g.FrameSize(), n), m, k);
    MapPayload(p, g, WholeBatches(|p|, g.FrameSize(), n), k)
  }

  /** Every multiple of the batch size up to the number of whole frames is
      covered by the whole batches: `WholeBatches` is the largest such
      multiple. */
  lemma WholeBatchesLargest(len: nat, fs: nat, n: nat, q: nat)
    requires Mul(q, BatchSize) <= FramesAvailable(len, fs, n)
    ensures Mul(q, BatchSize) <= WholeBatches(len, fs, n)
  {
    var m := FramesAvailable(len, fs, n);
    if m < n {
      DivModSplit(m, BatchSize);
      MulMono(q, m / BatchSize, BatchSize);
    }
  }

  /** A payload that runs out inside the batch starting at frame
      `Mul(q, BatchSize)` is written up to that frame. */
  lemma WholeBatchesOfShortBatch(len: nat, fs: nat, n: nat, q: nat)
    requires var m := FramesAvailable(len, fs, n);
             Mul(q, BatchSize) <= m < Mul(q, BatchSize) + BatchSize && m < n
    ensures WholeBatches(len, fs, n) == Mul(q, BatchSize)
  {
    var m := FramesAvailable(len, fs, n);
    DivModUnique(m, BatchSize, q, m - Mul(q, BatchSize));
  }

  /** A short read of the batch starting at frame `done`, after every batch
      before it was transformed and written whole. */
  lemma BatchMissing(p: seq<Byte>, g: Geometry, k: Kernel, n: nat, done: nat, b: nat, batches: nat,
                     before: seq<Byte>, limit: nat)
    requires Fits(k, g) && done + b <= n && Mul(done, g.FrameSize()) <= |p|
    requires done == Mul(batches, BatchSize) && (done + b < n ==> b == BatchSize) && b <= BatchSize
    requires done <= FramesAvailable(|p|, g.FrameSize(), n) < done + b
    requires |before| + |MapPayload(p, g, done, k)| <= limit
    ensures Streamed(before, BatchedOutput(p, g, n, k), FramesAvailable(|p|, g.FrameSize(), n) == n,
                     limit, before + MapPayload(p, g, done, k), IoFailure)
  {
    WholeBatchesOfShortBatch(|p|, g.FrameSize(), n, batches);
    ShortRead(before, MapPayload(p, g, done, k), limit);
  }

  /** Every batch read and written whole ends `swap_channel` normally. */
  lemma AllBatchesWritten(p: seq<Byte>, g: Geometry, k: Kernel, n: nat, before: seq<Byte>, limit: nat)
    requires Fits(k, g) && Mul(n, g.FrameSize()) <= |p|
    requires |before| + |MapPayload(p, g, n, k)| <= limit
    ensures Streamed(before, BatchedOutput(p, g, n, k), FramesAvailable(|p|, g.FrameSize(), n) == n,
                     limit, before + MapPayload(p, g, n, k), Done)
  {
    FramesAvailableUnique(|p|, g.FrameSize(), n, n);
    Finished(before, MapPayload(p, g, n, k), limit);
  }

  /** After batch `batches` of `swap_channel`, frames `done` to
      `done + b - 1`, went through the kernel into `B` and `fwrite` wrote
      `wrote` bytes of it behind `cur`: the file holds the batch behind the
      frames before it when all of it was written, and otherwise the
      transform has ended as `Streamed` says, with the frames of the batches
      it read whole. */
  lemma BatchWritten(p: seq<Byte>, g: Geometry, k: Kernel, n: nat, done: nat, b: nat, batches: nat,
                     before: seq<Byte>, cur: seq<Byte>, limit: nat, B: seq<Byte>, after: seq<Byte>, wrote: nat)
    requires Fits(k, g) && done + b <= n && Mul(done, g.FrameSize()) <= |p| && Mul(done + b, g.FrameSize()) <= |p|
    requires done == Mul(batches, BatchSize) && (done + b < n ==> b == BatchSize)
    requires MapPayload(p, g, done + b, k) == MapPayload(p, g, done, k) + B
    requires cur == before + MapPayload(p, g, done, k) && |cur| <= limit
    requires after == Take(cur + B, limit)
    requires wrote == if |cur| + |B| <= limit then |B| else limit - |cur|
    ensures wrote == |B| ==> after == before + MapPayload(p, g, done + b, k)
    ensures wrote != |B| ==>
              var m := FramesAvailable(|p|, g.FrameSize(), n);
              Streamed(before, BatchedOutput(p, g, n, k), m == n, limit, after, IoFailure)
  {
    var fs := g.FrameSize();
    var sent := MapPayload(p, g, done + b, k);
    assert cur + B == before + sent;
    if wrote != |B| {
      var m := FramesAvailable(|p|, fs, n);
      FramesAvailableAtLeast(|p|, fs, n, done + b);
      if done + b < n {
        MulSucc(batches, BatchSize);
        WholeBatchesLargest(|p|, fs, n, batches + 1);
      }
      MapPayloadPrefix(p, g, done + b, WholeBatches(|p|, fs, n), k);
      ShortWrite(before, sent, BatchedOutput(p, g, n, k), m == n, limit);
    }
  }

  /** `swap_channel`: batch after batch of up to 1024 frames, each batch
      read in one go, planes `ch1` and `ch2` of each of its frames exchanged
      byte by byte, and the batch written in one go. */
  method SwapChannel(r: Reader, w: Writer, ch1: Byte, ch2: Byte, n: nat, g: Geometry)
      returns (outcome: Outcome)
    requires r.pos == HeaderSize <= |r.data|
    requires w.Valid()
    modifies r, w
    ensures ch1 >= g.channels || ch2 >= g.channels ==>
              outcome == InvalidParameter && w.contents == old(w.contents) && r.pos == old(r.pos)
    ensures ch1 < g.channels && ch2 < g.channels ==>
              var p := r.data[HeaderSize..];
              var m := FramesAvailable(|p|, g.FrameSize(), n);
              Streamed(old(w.contents), BatchedOutput(p, g, n, SwapPlanes(ch1, ch2)),
                       m == n, w.limit, w.contents, outcome)
  {
    if ch1 >= g.channels || ch2 >= g.channels {
      return InvalidParameter;
    }
    var fs := g.FrameSize();
    var batch: nat := BatchSize;
    var total := Mul(batch, fs);
    ghost var p, before, k := r.data[HeaderSize..], w.contents, SwapPlanes(ch1, ch2);
    var buf := new Byte[total];
    var processed: nat := 0;
    ghost var batches: nat := 0;
    while processed < n
      invariant Progress(r.data, r.pos, w.contents, before, g, SwapPlanes(ch1, ch2), n, processed)
      invariant w.Valid()
      invariant batch <= BatchSize && total == Mul(batch, fs) && buf.Length == Mul(BatchSize, fs)
      invariant processed < n ==> batch == BatchSize && processed == Mul(batches, BatchSize)
      invariant fresh(buf)
    {
      if processed + batch > n {
        batch := n - processed;
        total := Mul(batch, fs);
      }
      var status := SwapBatch(r, w, buf, g, ch1, ch2, n, processed, batch, total, batches, before);
      if status != Done {
        return status;
      }
      MulSucc(batches, BatchSize);
      processed := processed + batch;
      batches := batches + 1;
    }
    AllBatchesWritten(p, g, k, n, before, w.limit);
    return Done;
  }

  /** One pass of the batch loop of `swap_channel`: frames `done` to
      `done + b - 1` read into `buf` in one go, planes `ch1` and `ch2` of
      each of them exchanged byte by byte, and the batch written in one go.
      Either the file holds the batch behind the frames before it, or the
      transform has ended as `swap_channel` does. */
  method SwapBatch(r: Reader, w: Writer, buf: array<Byte>, g: Geometry, ch1: Byte, ch2: Byte,
                   n: nat, done: nat, b: nat, total: nat, ghost batches: nat, ghost before: seq<Byte>)
      returns (outcome: Outcome)
    requires Progress(r.data, r.pos, w.contents, before, g, SwapPlanes(ch1, ch2), n, done)
    requires done + b <= n && done == Mul(batches, BatchSize) && b <= BatchSize && (done + b < n ==> b == BatchSize)
    requires total == Mul(b, g.FrameSize()) && buf.Length == Mul(BatchSize, g.FrameSize())
    requires w.Valid()
    modifies r, w, buf
    ensures w.Valid()
    ensures outcome == Done ==> Progress(r.data, r.pos, w.contents, before, g, SwapPlanes(ch1, ch2), n, done + b)
    ensures outcome != Done ==>
              var p := r.data[HeaderSize..];
              Streamed(before, BatchedOutput(p, g, n, SwapPlanes(ch1, ch2)),
                       FramesAvailable(|p|, g.FrameSize(), n) == n, w.limit, w.contents, outcome)
  {
    var fs := g.FrameSize();
    ghost var p, k := r.data[HeaderSize..], SwapPlanes(ch1, ch2);
    MulMono(b, BatchSize, fs);
    var count := r.ReadFrames(buf, fs, n, done, b);
    if count != total {
      BatchMissing(p, g, k, n, done, b, batches, before, w.limit);
      outcome := IoFailure;
    } else {
      SwapEachByPixel(buf, g, ch1, ch2, b, p, done);
      ghost var cur := w.contents;
      var wrote := w.Write(buf[..total]);
      BatchWritten(p, g, k, n, done, b, batches, before, cur, w.limit, buf[..total], w.contents, wrote);
      outcome := if wrote != total then IoFailure else Done;
    }
  }

  /** The frame loop of `swap_channel`: planes `ch1` and `ch2` of each of
      the first `count` frames the buffer holds exchanged byte by byte. */
  method SwapEachByPixel(buf: array<Byte>, g: Geometry, ch1: Byte, ch2: Byte, count: nat,
                         ghost p: seq<Byte>, ghost done: nat)
    requires ch1 < g.channels && ch2 < g.channels
    requires Mul(done + count, g.FrameSize()) <= |p| && Mul(count, g.FrameSize()) <= buf.Length
    requires Mul(done, g.FrameSize()) + Mul(count, g.FrameSize()) == Mul(done + count, g.FrameSize())
    requires buf[..Mul(count, g.FrameSize())] == p[Mul(done, g.FrameSize())..Mul(done + count, g.FrameSize())]
    modifies buf
    ensures MapPayload(p, g, done + count, SwapPlanes(ch1, ch2))
            == MapPayload(p, g, done, SwapPlanes(ch1, ch2)) + buf[..Mul(count, g.FrameSize())]
  {
    var fs, ps := g.FrameSize(), g.PlaneSize();
    ghost var k, F := SwapPlanes(ch1, ch2), Frames(p, fs, done + count)[done..];
    BatchStart(buf[..], p, g, k, done, count);
    var frame: nat := 0;
    while frame < count
      invariant frame <= count
      invariant Frames(buf[..], fs, count) == MappedUpTo(F, g, k, frame)
    {
      ghost var s, G := buf[..], MappedUpTo(F, g, k, frame);
      var i, j := Mul(frame, fs) + Mul(ch1, ps), Mul(frame, fs) + Mul(ch2, ps);
      PlaneBlocks(buf.Length, g, count, frame, ch1, ch2, i, j);
      SwapPixels(buf, i, j, ps);
      FramesSwapPlanes(s, buf[..], g, count, frame, ch1, ch2, G, i, j);
      MappedUpToNext(F, g, k, frame, G);
      frame := frame + 1;
    }
    BatchDone(buf[..], p, g, k, done, count);
  }
}
