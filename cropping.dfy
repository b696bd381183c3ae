/** `crop_aspect_ratio`: every frame cut to the largest centred window of a
    target aspect ratio `a:b` that keeps the frame's full height or its full
    width, under a header announcing the new dimensions. */
module Cropping {
  import opened Common
  import opened Layout
  import opened Kernels
  import opened Sequences
  import opened Streams
  import opened InPlace
  import opened Streaming

  /** `x / d` truncated, for an `x` of at most `bound` times `d`: at most
      `bound`, and the largest `q` with `q * d <= x`. */
  lemma CutSide(x: nat, d: nat, bound: nat)
    requires d > 0 && x <= Mul(bound, d)
    ensures x / d <= bound
    ensures Mul(x / d, d) <= x < Mul(x / d + 1, d)
  {
    DivModSplit(x, d);
    MulSucc(x / d, d);
    if x / d > bound {
      MulMono(bound + 1, x / d, d);
      MulSucc(bound, d);
    }
  }

  /** The height and width of the window for the ratio `a:b`. A frame wider
      than the ratio (`width / height > a / b`) keeps its height, and its
      width becomes the ratio's width for that height, truncated; any other
      frame keeps its width, and its height is cut the same way. */
  function TargetDimensions(width: Byte, height: Byte, a: nat, b: nat): (d: (Byte, Byte))
    requires a > 0 && b > 0
    ensures d.0 <= height && d.1 <= width
    ensures Mul(width, b) > Mul(height, a) ==>
              d.0 == height && Mul(d.1, b) <= Mul(height, a) < Mul(d.1 + 1, b)
    ensures Mul(width, b) <= Mul(height, a) ==>
              d.1 == width && Mul(d.0, a) <= Mul(width, b) < Mul(d.0 + 1, a)
  {
    if Mul(width, b) > Mul(height, a) then
      var x := Mul(height, a);
      CutSide(x, b, width);
      (height, x / b)
    else
      var x := Mul(width, b);
      CutSide(x, a, height);
      (x / a, width)
  }

  /** The rows above and the columns left of the window: half of what is
      cut, the odd byte, if any, going below or to the right. */
  function CropOffsets(width: Byte, height: Byte, th: Byte, tw: Byte): (o: (nat, nat))
    requires th <= height && tw <= width
    ensures o.0 + th <= height && o.1 + tw <= width
    ensures o.0 <= height - th - o.0 <= o.0 + 1
    ensures o.1 <= width - tw - o.1 <= o.1 + 1
  {
    ((height - th) / 2, (width - tw) / 2)
  }

  /** The crop window of frames of `g` for the ratio `a:b`. */
  function CropKernel(g: Geometry, a: nat, b: nat): (k: Kernel)
    requires a > 0 && b > 0
    ensures k.CropWindow? && Fits(k, g)
    ensures (k.th, k.tw) == TargetDimensions(g.width, g.height, a, b)
    ensures (k.top, k.left) == CropOffsets(g.width, g.height, k.th, k.tw)
  {
    var (th, tw) := TargetDimensions(g.width, g.height, a, b);
    var (top, left) := CropOffsets(g.width, g.height, th, tw);
    CropWindow(top, left, th, tw)
  }

  /** A frame that already has the ratio is kept whole. */
  lemma OwnRatioKeepsFrame(width: Byte, height: Byte, a: nat, b: nat)
    requires a > 0 && b > 0 && Mul(width, b) == Mul(height, a)
    ensures TargetDimensions(width, height, a, b) == (height, width)
    ensures CropOffsets(width, height, height, width) == (0, 0)
  {
    DivModUnique(Mul(height, a) + 0, a, height, 0);
  }

  /** A 16x9 frame cut to 4:3 keeps its 9 rows and the 12 columns from
      column 2 on. */
  lemma SixteenByNineToFourByThree()
    ensures TargetDimensions(16, 9, 4, 3) == (9, 12)
    ensures CropOffsets(16, 9, 9, 12) == (0, 2)
  {
    assert Mul(16, 3) == 48 && Mul(9, 4) == 36;
  }

  /** `crop_aspect_ratio`: a ratio whose sides are not both positive is
      rejected; otherwise the header is rewritten with the window's
      dimensions, and frame after frame is read, a short read ending the
      transform, cut to the window and written, a short write ending it. */
  method CropAspectRatio(r: Reader, w: Writer, n: nat, g: Geometry, a: int, b: int) returns (outcome: Outcome)
    requires r.pos == HeaderSize <= |r.data|
    requires w.Valid() && |w.contents| == HeaderSize && n <= Int64Max
    modifies r, w
    ensures a <= 0 || b <= 0 ==> outcome == InvalidParameter && w.contents == old(w.contents) && r.pos == old(r.pos)
    ensures a > 0 && b > 0 ==>
              var p := r.data[HeaderSize..];
              var k := CropKernel(g, a, b);
              var m := FramesAvailable(|p|, g.FrameSize(), n);
              Streamed(EncodeHeader(Header(n, g.channels, k.th, k.tw)), MapPayload(p, g, m, k), m == n,
                       w.limit, w.contents, outcome)
  {
    if a <= 0 || b <= 0 {
      return InvalidParameter;
    }
    var k := CropKernel(g, a, b);
    var fs := g.FrameSize();
    ghost var p := r.data[HeaderSize..];
    var original := new Byte[fs];
    var cropped := new Byte[Geometry(g.channels, k.th, k.tw).FrameSize()];
    var header := EncodeHeader(Header(n, g.channels, k.th, k.tw));
    var wroteHeader := w.Rewrite(header);
    if wroteHeader != |header| {
      return IoFailure;
    }
    var frame: nat := 0;
    while frame < n
      invariant frame <= n && Mul(frame, fs) <= |p|
      invariant r.pos == HeaderSize + Mul(frame, fs)
      invariant w.Valid()
      invariant w.contents == header + MapPayload(p, g, frame, k)
    {
      var status := CropFrameStep(r, w, original, cropped, g, n, frame, k, p, header);
      if status != Done {
        return status;
      }
      frame := frame + 1;
    }
    AllFramesWritten(p, g, k, n, header, w.limit);
    return Done;
  }

  /** One pass of the loop of `crop_aspect_ratio`: frame `i` read into
      `original`, cut into `cropped` and written. A normal return leaves one
      frame more read and cut frames written for all of them; otherwise the
      transform has ended as `Streamed` says. */
  method CropFrameStep(r: Reader, w: Writer, original: array<Byte>, cropped: array<Byte>, g: Geometry,
                       n: nat, i: nat, k: Kernel, ghost p: seq<Byte>, ghost before: seq<Byte>)
      returns (outcome: Outcome)
    requires HeaderSize <= |r.data| && p == r.data[HeaderSize..]
    requires k.CropWindow? && Fits(k, g)
    requires original.Length == g.FrameSize() && cropped.Length == OutGeometry(k, g).FrameSize()
    requires original != cropped
    requires i < n && Mul(i, g.FrameSize()) <= |p|
    requires r.pos == HeaderSize + Mul(i, g.FrameSize())
    requires w.Valid() && w.contents == before + MapPayload(p, g, i, k)
    modifies r, w, original, cropped
    ensures w.Valid()
    ensures outcome == Done ==>
              && Mul(i + 1, g.FrameSize()) <= |p| && r.pos == HeaderSize + Mul(i + 1, g.FrameSize())
              && w.contents == before + MapPayload(p, g, i + 1, k)
    ensures outcome != Done ==>
              var m := FramesAvailable(|p|, g.FrameSize(), n);
              Streamed(before, MapPayload(p, g, m, k), m == n, w.limit, w.contents, outcome)
  {
    var fs := g.FrameSize();
    ghost var got, old_buf := Chunk(r.data, r.pos, fs), original[..];
    var count := r.Read(original, 0, fs);
    ReadFrame(r.data, fs, n, i, got);
    if count != fs {
      FrameMissing(p, g, k, n, i, before, w.limit);
      return IoFailure;
    }
    PatchWhole(old_buf, got);
    CropInto(original, g, k.top, k.left, k.th, k.tw, cropped);
    assert cropped[..] == Apply(k, g, FrameAt(p, i, fs));
    var wrote := w.Write(cropped[..]);
    FrameWritten(p, g, k, n, i, before, w.limit, w.contents);
    if wrote != cropped.Length {
      return IoFailure;
    }
    return Done;
  }
}
