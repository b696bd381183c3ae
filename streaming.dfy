/** What a transform leaves in the output file. Every transform writes
    behind what the file already holds (the header the driver copied), and
    stops at the first short read or short write; the bytes that reach the
    file are then a prefix of what it meant to write. */
module Streaming {
  import opened Common
  import opened Layout
  import opened Kernels
  import opened Sequences
  import opened Streams

  /** The output file after a transform that meant to write `out` behind
      `before`: the bytes up to the file's limit, a normal end exactly when
      it had every frame it needed (`complete`) and nothing was cut, and a
      fatal error otherwise (a parameter error is not among the endings). */
  ghost predicate Streamed(before: seq<Byte>, out: seq<Byte>, complete: bool, limit: nat,
                           after: seq<Byte>, outcome: Outcome)
  {
    && after == Take(before + out, limit)
    && outcome != InvalidParameter
    && (outcome == Done <==> complete && |before| + |out| <= limit)
  }

  /** A transform that wrote all of `out` and had every frame ends normally. */
  lemma Finished(before: seq<Byte>, out: seq<Byte>, limit: nat)
    requires |before| + |out| <= limit
    ensures Streamed(before, out, true, limit, before + out, Done)
  {
  }

  /** A short read after `out` was written whole, when frames were missing:
      the file holds exactly what the transform meant to write. */
  lemma ShortRead(before: seq<Byte>, out: seq<Byte>, limit: nat)
    requires |before| + |out| <= limit
    ensures Streamed(before, out, false, limit, before + out, IoFailure)
  {
  }

  /** A short write of the prefix `sent` of `out` leaves the bytes of `out`
      that fit under the limit, whatever the transform would have written
      after it. */
  lemma ShortWrite(before: seq<Byte>, sent: seq<Byte>, out: seq<Byte>, complete: bool, limit: nat)
    requires sent <= out && limit < |before| + |sent|
    ensures Streamed(before, out, complete, limit, Take(before + sent, limit), IoFailure)
  {
    assert before + sent <= before + out;
    TakeOfExtension(before + sent, before + out, limit);
  }

  /** `B` written behind the first `m` bytes of `out`, which it continues:
      the file holds one prefix of `out` more when `B` fit under the limit,
      and otherwise the transform has ended with what fit. */
  lemma PrefixWritten(before: seq<Byte>, out: seq<Byte>, m: nat, B: seq<Byte>, complete: bool,
                      cur: seq<Byte>, limit: nat, after: seq<Byte>, wrote: nat)
    requires m + |B| <= |out| && out[..m + |B|] == out[..m] + B
    requires cur == before + out[..m] && |cur| <= limit
    requires after == Take(cur + B, limit)
    requires wrote == if |cur| + |B| <= limit then |B| else limit - |cur|
    ensures wrote == |B| ==> after == before + out[..m + |B|]
    ensures wrote != |B| ==> Streamed(before, out, complete, limit, after, IoFailure)
  {
    assert cur + B == before + out[..m + |B|];
    if wrote != |B| {
      ShortWrite(before, out[..m + |B|], out, complete, limit);
    }
  }

  /** The state of a transform after the first `i` of `n` frames: the input
      is positioned behind frame `i`, and the output holds the transform of
      the frames before it behind what it held at the start. */
  ghost predicate Progress(data: seq<Byte>, pos: nat, contents: seq<Byte>, before: seq<Byte>,
                           g: Geometry, k: Kernel, n: nat, i: nat)
  {
    && Fits(k, g) && HeaderSize <= |data| && i <= n
    && Mul(i, g.FrameSize()) <= |data| - HeaderSize
    && pos == HeaderSize + Mul(i, g.FrameSize())
    && contents == before + MapPayload(data[HeaderSize..], g, i, k)
  }

  /** Where one step of a frame-by-frame transform leaves it: one frame
      further when the step ends normally, and otherwise at its end, as
      `Streamed` says. */
  ghost predicate Stepped(data: seq<Byte>, pos: nat, contents: seq<Byte>, before: seq<Byte>,
                          g: Geometry, k: Kernel, n: nat, i: nat, limit: nat, outcome: Outcome)
  {
    && Fits(k, g) && HeaderSize <= |data|
    && (outcome == Done ==> Progress(data, pos, contents, before, g, k, n, i + 1))
    && (outcome != Done ==>
          var m := FramesAvailable(|data| - HeaderSize, g.FrameSize(), n);
          Streamed(before, MapPayload(data[HeaderSize..], g, m, k), m == n, limit, contents, outcome))
  }

  /** After frame `i` of `n` went through the kernel and `fwrite`: the file
      holds one transformed frame more when it fit under the limit, and
      otherwise the transform has ended as `Streamed` says, with what it
      would have written for all the frames the payload holds. */
  lemma FrameWritten(p: seq<Byte>, g: Geometry, k: Kernel, n: nat, i: nat,
                     before: seq<Byte>, limit: nat, after: seq<Byte>)
    requires Fits(k, g) && i < n && Mul(i, g.FrameSize()) + g.FrameSize() <= |p|
    requires after == Take(before + MapPayload(p, g, i, k) + Apply(k, g, FrameAt(p, i, g.FrameSize())), limit)
    ensures Mul(i + 1, g.FrameSize()) == Mul(i, g.FrameSize()) + g.FrameSize() <= |p|
    ensures |MapPayload(p, g, i + 1, k)| == |MapPayload(p, g, i, k)| + OutGeometry(k, g).FrameSize()
    ensures |before| + |MapPayload(p, g, i + 1, k)| <= limit ==> after == before + MapPayload(p, g, i + 1, k)
    ensures limit < |before| + |MapPayload(p, g, i + 1, k)| ==>
              var m := FramesAvailable(|p|, g.FrameSize(), n);
              Streamed(before, MapPayload(p, g, m, k), m == n, limit, after, IoFailure)
  {
    var fs := g.FrameSize();
    MulSucc(i, fs);
    MapPayloadStep(p, g, i, k);
    var sent := MapPayload(p, g, i + 1, k);
    assert before + MapPayload(p, g, i, k) + Apply(k, g, FrameAt(p, i, fs)) == before + sent;
    if limit < |before| + |sent| {
      var m := FramesAvailable(|p|, fs, n);
      FramesAvailableAtLeast(|p|, fs, n, i + 1);
      MapPayloadPrefix(p, g, i + 1, m, k);
      ShortWrite(before, sent, MapPayload(p, g, m, k), m == n, limit);
    }
  }

  /** A transform that went through all `n` frames, each of them whole, and
      wrote them all ends normally. */
  lemma AllFramesWritten(p: seq<Byte>, g: Geometry, k: Kernel, n: nat, before: seq<Byte>, limit: nat)
    requires Fits(k, g) && Mul(n, g.FrameSize()) <= |p|
    requires |before| + |MapPayload(p, g, n, k)| <= limit
    ensures var m := FramesAvailable(|p|, g.FrameSize(), n);
            Streamed(before, MapPayload(p, g, m, k), m == n, limit, before + MapPayload(p, g, n, k), Done)
  {
    FramesAvailableUnique(|p|, g.FrameSize(), n, n);
  }

  /** A short read of frame `i`, after `i` frames were transformed and written
      whole. */
  lemma FrameMissing(p: seq<Byte>, g: Geometry, k: Kernel, n: nat, i: nat, before: seq<Byte>, limit: nat)
    requires Fits(k, g) && i < n && Mul(i, g.FrameSize()) <= |p|
    requires FramesAvailable(|p|, g.FrameSize(), n) == i
    requires |before| + |MapPayload(p, g, i, k)| <= limit
    ensures var m := FramesAvailable(|p|, g.FrameSize(), n);
            Streamed(before, MapPayload(p, g, m, k), m == n, limit, before + MapPayload(p, g, i, k), IoFailure)
  {
  }

  /** The `fread` of frame `i` of `n`, `fs` bytes, from its place behind the
      header into `buf`: a whole read leaves frame `i` of the payload in the
      buffer and the position behind it; a short read means the payload
      holds exactly `i` whole frames. */
  method ReadNextFrame(r: Reader, buf: array<Byte>, fs: nat, n: nat, i: nat) returns (whole: bool)
    requires HeaderSize <= |r.data| && i < n && Mul(i, fs) <= |r.data| - HeaderSize
    requires r.pos == HeaderSize + Mul(i, fs) && buf.Length == fs
    modifies r, buf
    ensures whole ==>
              && Mul(i + 1, fs) <= |r.data| - HeaderSize && r.pos == HeaderSize + Mul(i + 1, fs)
              && Mul(i, fs) + fs <= |r.data| - HeaderSize
              && buf[..] == FrameAt(r.data[HeaderSize..], i, fs)
    ensures !whole ==> FramesAvailable(|r.data| - HeaderSize, fs, n) == i
  {
    ghost var got, old_buf := Chunk(r.data, r.pos, fs), buf[..];
    var count := r.Read(buf, 0, fs);
    ReadFrame(r.data, fs, n, i, got);
    whole := count == fs;
    if whole {
      PatchWhole(old_buf, got);
      MulSucc(i, fs);
    }
  }

  /** A short read of frame `i` of `n` ends a step of the transform: the
      payload holds exactly `i` whole frames, all of them written, wherever
      the read left the position. */
  lemma MissingStep(data: seq<Byte>, pos: nat, pos': nat, contents: seq<Byte>, before: seq<Byte>,
                    g: Geometry, k: Kernel, n: nat, i: nat, limit: nat)
    requires Progress(data, pos, contents, before, g, k, n, i) && i < n && |contents| <= limit
    requires FramesAvailable(|data| - HeaderSize, g.FrameSize(), n) == i
    ensures Stepped(data, pos', contents, before, g, k, n, i, limit, IoFailure)
  {
    FrameMissing(data[HeaderSize..], g, k, n, i, before, limit);
  }

  /** The `fwrite` of frame `i` of `n` once the kernel has turned it into
      the bytes of `buf`, the input position `pos` behind that frame: the
      file holds one transformed frame more when all of them were written,
      and otherwise the transform has ended as `Streamed` says. */
  method WriteNextFrame(w: Writer, buf: array<Byte>, ghost data: seq<Byte>, ghost pos: nat, g: Geometry, k: Kernel,
                        n: nat, i: nat, ghost before: seq<Byte>)
      returns (outcome: Outcome)
    requires Fits(k, g) && HeaderSize <= |data| && i < n
    requires Mul(i, g.FrameSize()) + g.FrameSize() <= |data| - HeaderSize
    requires Mul(i + 1, g.FrameSize()) <= |data| - HeaderSize && pos == HeaderSize + Mul(i + 1, g.FrameSize())
    requires buf[..] == Apply(k, g, FrameAt(data[HeaderSize..], i, g.FrameSize()))
    requires w.Valid() && w.contents == before + MapPayload(data[HeaderSize..], g, i, k)
    modifies w
    ensures w.Valid()
    ensures Stepped(data, pos, w.contents, before, g, k, n, i, w.limit, outcome)
  {
    var wrote := w.Write(buf[..]);
    FrameWritten(data[HeaderSize..], g, k, n, i, before, w.limit, w.contents);
    outcome := if wrote != buf.Length then IoFailure else Done;
  }
}
