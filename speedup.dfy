/** `speed_up`: the fast forward that keeps one frame in `speedFactor`. It
    rewrites the header the driver copied with a new frame count, then reads
    every frame and writes those whose index is a multiple of the factor.
    The count it writes, `numFrames / speedFactor`, is rounded down while
    the frames kept number the quotient rounded up; `SpeedUpCorrected` is
    the transform with the count it should write. */
module FastForward {
  import opened Common
  import opened Layout
  import opened Sequences
  import opened Streams
  import opened Streaming

  /** The frames kept from the first `m` frames of the payload at factor
      `k`, back to back: frames 0, k, 2k, ... */
  function KeptFrames(p: seq<Byte>, fs: nat, m: nat, k: nat): (r: seq<Byte>)
    requires k > 0 && Mul(m, fs) <= |p|
    ensures |r| == Mul(KeptCount(m, k), fs)
  {
    var F := Frames(p, fs, m);
    DecimatedUniform(F, k, fs);
    FlattenLength(Decimated(F, k), fs);
    Flatten(Decimated(F, k))
  }

  /** Frame `j` of the fast-forwarded payload is input frame `j * k`. */
  lemma KeptFrame(p: seq<Byte>, fs: nat, m: nat, k: nat, j: nat)
    requires k > 0 && Mul(m, fs) <= |p| && j < KeptCount(m, k)
    ensures Mul(j, k) < m && Mul(Mul(j, k), fs) + fs <= |p|
    ensures Mul(j, fs) + fs <= |KeptFrames(p, fs, m, k)|
    ensures FrameAt(KeptFrames(p, fs, m, k), j, fs) == FrameAt(p, Mul(j, k), fs)
  {
    var F := Frames(p, fs, m);
    DecimatedUniform(F, k, fs);
    DecimatedFrame(F, k, j);
    FlattenAt(Decimated(F, k), fs, j);
  }

  /** One frame more: it is kept when its index is a multiple of `k`. */
  lemma KeptFramesStep(p: seq<Byte>, fs: nat, m: nat, k: nat)
    requires k > 0 && Mul(m, fs) + fs <= |p|
    ensures Mul(m + 1, fs) == Mul(m, fs) + fs
    ensures KeptFrames(p, fs, m + 1, k)
            == KeptFrames(p, fs, m, k) + (if m % k == 0 then FrameAt(p, m, fs) else [])
  {
    MulSucc(m, fs);
    var F := Frames(p, fs, m + 1);
    FramesPrefix(p, fs, m, m + 1);
    DecimatedStep(F, k, m);
    assert F[..m + 1] == F;
    var D := Decimated(F[..m], k);
    if m % k == 0 {
      FlattenSnoc(D, F[m]);
    } else {
      assert D + [] == D;
    }
  }

  /** The frames kept from fewer frames are a prefix of those kept from more. */
  lemma KeptFramesPrefix(p: seq<Byte>, fs: nat, i: nat, m: nat, k: nat)
    requires k > 0 && i <= m && Mul(m, fs) <= |p|
    ensures Mul(i, fs) <= |p|
    ensures KeptFrames(p, fs, i, k) <= KeptFrames(p, fs, m, k)
  {
    FramesPrefix(p, fs, i, m);
    var F := Frames(p, fs, m);
    DecimatedPrefix(F, k, i);
    FlattenPrefix(Decimated(F[..i], k), Decimated(F, k));
  }

  /** The header `speed_up` writes: the input's dimensions and the frame
      count divided by the factor, rounded down. `SpeedUpHeaderMiscounts`
      below shows that this count is wrong whenever the factor does not
      divide the frame count. */
  function SpeedUpHeader(n: nat, g: Geometry, k: nat): (h: Header)
    requires k > 0 && n <= Int64Max
    ensures h.Valid() && 0 <= h.numFrames <= n
    ensures Geometry(h.channels, h.height, h.width) == g
  {
    DivAtMost(n, k);
    Header(n / k, g.channels, g.height, g.width)
  }

  /** `speed_up`: a factor of 1 or less is rejected; otherwise the header is
      rewritten with the count `n / k` (its `fwrite` is not checked), and the
      frames at multiples of the factor are copied. After a normal end the
      header announces exactly the frames behind it only when the factor
      divides the frame count. */
  method SpeedUp(r: Reader, w: Writer, n: nat, g: Geometry, k: int) returns (outcome: Outcome)
    requires r.pos == HeaderSize <= |r.data|
    requires w.Valid() && |w.contents| == HeaderSize && n <= Int64Max
    modifies r, w
    ensures k <= 1 ==> outcome == InvalidParameter && w.contents == old(w.contents) && r.pos == old(r.pos)
    ensures k > 1 ==>
              var p := r.data[HeaderSize..];
              var m := FramesAvailable(|p|, g.FrameSize(), n);
              Streamed(EncodeHeader(SpeedUpHeader(n, g, k)), KeptFrames(p, g.FrameSize(), m, k), m == n,
                       w.limit, w.contents, outcome)
    ensures outcome == Done && g.FrameSize() > 0 ==> (Consistent(w.contents) <==> n % k == 0)
  {
    if k <= 1 {
      return InvalidParameter;
    }
    var header := EncodeHeader(SpeedUpHeader(n, g, k));
    var ignored := w.Rewrite(header);
    outcome := KeepFrames(r, w, n, g, k, header);
    if outcome == Done && g.FrameSize() > 0 {
      SpeedUpHeaderMiscounts(r.data[HeaderSize..], g, n, k);
    }
  }

  /** `speed_up` with the header count corrected to the number of frames it
      keeps (see `FastForwardHeader`): after a normal end the header
      announces exactly the frames behind it, whatever the factor. */
  method SpeedUpCorrected(r: Reader, w: Writer, n: nat, g: Geometry, k: int) returns (outcome: Outcome)
    requires r.pos == HeaderSize <= |r.data|
    requires w.Valid() && |w.contents| == HeaderSize && n <= Int64Max
    modifies r, w
    ensures k <= 1 ==> outcome == InvalidParameter && w.contents == old(w.contents) && r.pos == old(r.pos)
    ensures k > 1 ==>
              var p := r.data[HeaderSize..];
              var m := FramesAvailable(|p|, g.FrameSize(), n);
              Streamed(EncodeHeader(FastForwardHeader(n, g, k)), KeptFrames(p, g.FrameSize(), m, k), m == n,
                       w.limit, w.contents, outcome)
    ensures outcome == Done ==> Consistent(w.contents)
  {
    if k <= 1 {
      return InvalidParameter;
    }
    var header := EncodeHeader(FastForwardHeader(n, g, k));
    var ignored := w.Rewrite(header);
    outcome := KeepFrames(r, w, n, g, k, header);
    if outcome == Done {
      CorrectedHeaderConsistent(r.data[HeaderSize..], g, n, k);
    }
  }

  /** The frame loop of `speed_up`, behind the header already written:
      frame after frame is read, a short read ending the transform, and
      those at multiples of the factor are written, a short write ending it. */
  method KeepFrames(r: Reader, w: Writer, n: nat, g: Geometry, k: nat, ghost header: seq<Byte>)
      returns (outcome: Outcome)
    requires r.pos == HeaderSize <= |r.data| && k > 0
    requires w.Valid() && w.contents == header
    modifies r, w
    ensures w.Valid()
    ensures var p := r.data[HeaderSize..];
            var m := FramesAvailable(|p|, g.FrameSize(), n);
            Streamed(header, KeptFrames(p, g.FrameSize(), m, k), m == n, w.limit, w.contents, outcome)
    ensures outcome == Done ==>
              && Mul(n, g.FrameSize()) <= |r.data| - HeaderSize
              && w.contents == header + KeptFrames(r.data[HeaderSize..], g.FrameSize(), n, k)
  {
    var fs := g.FrameSize();
    ghost var p := r.data[HeaderSize..];
    var buf := new Byte[fs];
    var frame: nat := 0;
    while frame < n
      invariant frame <= n && Mul(frame, fs) <= |p| && buf.Length == fs
      invariant r.pos == HeaderSize + Mul(frame, fs)
      invariant w.Valid()
      invariant w.contents == header + KeptFrames(p, fs, frame, k)
    {
      var status := SpeedUpFrame(r, w, buf, fs, n, frame, k, p, header);
      if status != Done {
        return status;
      }
      frame := frame + 1;
    }
    FramesAvailableUnique(|p|, fs, n, n);
    Finished(header, KeptFrames(p, fs, n, k), w.limit);
    return Done;
  }

  /** One pass of the loop of `speed_up`: frame `i` read, and written when
      its index is a multiple of `k`. A normal return leaves one frame more
      read and the kept frames among them written; otherwise the transform
      has ended as `Streamed` says. */
  method SpeedUpFrame(r: Reader, w: Writer, buf: array<Byte>, fs: nat, n: nat, i: nat, k: nat,
                      ghost p: seq<Byte>, ghost before: seq<Byte>)
      returns (outcome: Outcome)
    requires HeaderSize <= |r.data| && p == r.data[HeaderSize..]
    requires k > 0 && i < n && Mul(i, fs) <= |p| && buf.Length == fs
    requires r.pos == HeaderSize + Mul(i, fs)
    requires w.Valid() && w.contents == before + KeptFrames(p, fs, i, k)
    modifies r, w, buf
    ensures w.Valid()
    ensures outcome == Done ==>
              && Mul(i + 1, fs) <= |p| && r.pos == HeaderSize + Mul(i + 1, fs)
              && w.contents == before + KeptFrames(p, fs, i + 1, k)
    ensures outcome != Done ==>
              var m := FramesAvailable(|p|, fs, n);
              Streamed(before, KeptFrames(p, fs, m, k), m == n, w.limit, w.contents, outcome)
  {
    ghost var got, old_buf := Chunk(r.data, r.pos, fs), buf[..];
    var count := r.Read(buf, 0, fs);
    ReadFrame(r.data, fs, n, i, got);
    if count != fs {
      ShortRead(before, KeptFrames(p, fs, i, k), w.limit);
      return IoFailure;
    }
    PatchWhole(old_buf, got);
    KeptFramesStep(p, fs, i, k);
    outcome := Done;
    if i % k == 0 {
      ghost var cur := w.contents;
      var wrote := w.Write(buf[..]);
      KeptWritten(p, fs, n, i, k, before, w.limit, cur, w.contents, wrote);
      if wrote != fs {
        outcome := IoFailure;
      }
    }
  }

  /** After kept frame `i` went to `fwrite`: the file holds one kept frame
      more when it fit, and otherwise the transform has ended as `Streamed`
      says. */
  lemma KeptWritten(p: seq<Byte>, fs: nat, n: nat, i: nat, k: nat, before: seq<Byte>, limit: nat,
                    cur: seq<Byte>, after: seq<Byte>, wrote: nat)
    requires k > 0 && i < n && Mul(i, fs) + fs <= |p| && i % k == 0
    requires cur == before + KeptFrames(p, fs, i, k) && |cur| <= limit
    requires after == Take(cur + FrameAt(p, i, fs), limit)
    requires wrote == if |cur| + fs <= limit then fs else limit - |cur|
    ensures Mul(i + 1, fs) <= |p|
    ensures wrote == fs ==> after == before + KeptFrames(p, fs, i + 1, k)
    ensures wrote != fs ==>
              var m := FramesAvailable(|p|, fs, n);
              Streamed(before, KeptFrames(p, fs, m, k), m == n, limit, after, IoFailure)
  {
    KeptFramesStep(p, fs, i, k);
    var sent := KeptFrames(p, fs, i + 1, k);
    assert cur + FrameAt(p, i, fs) == before + sent;
    if wrote != fs {
      var m := FramesAvailable(|p|, fs, n);
      FramesAvailableAtLeast(|p|, fs, n, i + 1);
      KeptFramesPrefix(p, fs, i + 1, m, k);
      ShortWrite(before, sent, KeptFrames(p, fs, m, k), m == n, limit);
    }
  }

  // ---------------------------------------------------------------------
  // The announced frame count

  /** The whole file `speed_up` leaves after a normal end announces the
      frames that follow it exactly when the factor divides the frame
      count: the header rounds `n / k` down, while frames 0, k, 2k, ...
      below `n` number `n / k` rounded up. */
  lemma SpeedUpHeaderMiscounts(p: seq<Byte>, g: Geometry, n: nat, k: nat)
    requires k > 1 && n <= Int64Max && Mul(n, g.FrameSize()) <= |p| && g.FrameSize() > 0
    ensures Consistent(EncodeHeader(SpeedUpHeader(n, g, k)) + KeptFrames(p, g.FrameSize(), n, k)) <==> n % k == 0
  {
    var h := SpeedUpHeader(n, g, k);
    var c, q := KeptCount(n, k), n / k;
    ConsistentIff(h, KeptFrames(p, g.FrameSize(), n, k));
    DecimatedCountMatchesHeader(n, k);
    MulCancel(c, q, g.FrameSize());
  }

  /** Five frames of one byte at factor 2: the header announces two frames
      and three follow. */
  lemma SpeedUpFiveByTwo(p: seq<Byte>)
    requires |p| == 5
    ensures var file := EncodeHeader(SpeedUpHeader(5, Geometry(1, 1, 1), 2)) + KeptFrames(p, 1, 5, 2);
            && DecodeHeader(file) == Some(Header(2, 1, 1, 1))
            && |file| == HeaderSize + 3
            && !Consistent(file)
  {
    var g := Geometry(1, 1, 1);
    DecimatedFiveByTwo();
    HeaderRoundTrip(SpeedUpHeader(5, g, 2), KeptFrames(p, 1, 5, 2));
    SpeedUpHeaderMiscounts(p, g, 5, 2);
  }

  /** The frame count the header should announce: `n / k` rounded up, the
      number of indices below `n` that are multiples of `k`. */
  function FastForwardCount(n: nat, k: nat): (c: nat)
    requires k > 0
    ensures c == KeptCount(n, k) && c <= n
  {
    KeptCountIsCeiling(n, k);
    (n + k - 1) / k
  }

  /** The header of the fast-forwarded video: the input's dimensions and
      the number of frames kept. */
  function FastForwardHeader(n: nat, g: Geometry, k: nat): (h: Header)
    requires k > 0 && n <= Int64Max
    ensures h.Valid() && h.numFrames == KeptCount(n, k)
    ensures Geometry(h.channels, h.height, h.width) == g
  {
    Header(FastForwardCount(n, k), g.channels, g.height, g.width)
  }

  /** With the count rounded up, the file announces exactly the frames that
      follow it, whatever the factor. */
  lemma CorrectedHeaderConsistent(p: seq<Byte>, g: Geometry, n: nat, k: nat)
    requires k > 0 && n <= Int64Max && Mul(n, g.FrameSize()) <= |p|
    ensures Consistent(EncodeHeader(FastForwardHeader(n, g, k)) + KeptFrames(p, g.FrameSize(), n, k))
  {
    ConsistentIff(FastForwardHeader(n, g, k), KeptFrames(p, g.FrameSize(), n, k));
  }
}
