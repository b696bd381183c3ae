/** The routines the transforms run over a frame buffer in memory: the two
    ways of exchanging two planes, the direct clip and scale loops, the
    256-entry lookup tables, the scale through a plane-sized copy, and the
    crop loops that fill the cropped frame. */
module InPlace {
  import opened Common
  import opened Layout
  import opened Kernels
  import opened Streams

  /** The per-pixel exchange: the `len`-byte blocks at `i` and `j` of `a`
      are exchanged one byte at a time through a temporary byte. */
  method SwapPixels(a: array<Byte>, i: nat, j: nat, len: nat)
    requires i + len <= a.Length && j + len <= a.Length
    requires i == j || i + len <= j || j + len <= i
    modifies a
    ensures a[..] == SwapAt(old(a[..]), i, j, len)
  {
    ghost var s := a[..];
    SwapAtEmpty(s, i, j);
    var k := 0;
    while k < len
      invariant k <= len
      invariant a[..] == SwapAt(s, i, j, k)
    {
      SwapAtStep(s, i, j, k);
      assert a[i + k] == s[i + k] && a[j + k] == s[j + k];
      var temp := a[i + k];
      a[i + k] := a[j + k];
      a[j + k] := temp;
      k := k + 1;
    }
  }

  /** The exchange through a temporary plane: the block at `i` is copied
      aside, the block at `j` over it, and the copy over the block at `j`. */
  method SwapViaTemp(a: array<Byte>, temp: array<Byte>, i: nat, j: nat, len: nat)
    requires i + len <= a.Length && j + len <= a.Length
    requires i == j || i + len <= j || j + len <= i
    requires temp.Length == len && temp != a
    modifies a, temp
    ensures a[..] == SwapAt(old(a[..]), i, j, len)
  {
    ghost var s := a[..];
    Copy(a, i, temp, 0, len);
    PatchWhole(old(temp[..]), s[i..i + len]);
    Copy(a, j, a, i, len);
    Copy(temp, 0, a, j, len);
    assert temp[0..len] == temp[..];
    SwapAtIsPatches(s, i, j, len);
  }

  /** The direct clip of the block `[off, off + len)`: a byte above `hi`
      becomes `hi`, otherwise a byte below `lo` becomes `lo`. */
  method ClampPixels(a: array<Byte>, off: nat, len: nat, lo: Byte, hi: Byte)
    requires off + len <= a.Length
    modifies a
    ensures a[..] == MapAt(old(a[..]), off, len, Clamp(lo, hi))
  {
    ghost var s := a[..];
    MapAtEmpty(s, off, Clamp(lo, hi));
    var k := 0;
    while k < len
      invariant k <= len
      invariant a[..] == MapAt(s, off, k, Clamp(lo, hi))
    {
      MapAtStep(s, off, k, Clamp(lo, hi));
      assert a[off + k] == s[off + k];
      if a[off + k] > hi {
        a[off + k] := hi;
      } else if a[off + k] < lo {
        a[off + k] := lo;
      }
      k := k + 1;
    }
  }

  /** The direct scale of the block `[off, off + len)`: each byte times
      `factor`, 255 above 255, 0 below 0, and truncated otherwise (the three
      branches are those of `ScaleByte`). */
  method ScalePixels(a: array<Byte>, off: nat, len: nat, factor: real)
    requires off + len <= a.Length
    modifies a
    ensures a[..] == MapAt(old(a[..]), off, len, Scale(factor))
  {
    ghost var s := a[..];
    MapAtEmpty(s, off, Scale(factor));
    var k := 0;
    while k < len
      invariant k <= len
      invariant a[..] == MapAt(s, off, k, Scale(factor))
    {
      MapAtStep(s, off, k, Scale(factor));
      assert a[off + k] == s[off + k];
      a[off + k] := ScaleByte(a[off + k], factor);
      k := k + 1;
    }
  }

  /** The scale through a copy: the plane `[off, off + plane.Length)` is
      copied into `plane`, scaled there and copied back. */
  method ScaleViaCopy(frame: array<Byte>, plane: array<Byte>, off: nat, factor: real)
    requires plane != frame && off + plane.Length <= frame.Length
    modifies frame, plane
    ensures frame[..] == MapAt(old(frame[..]), off, plane.Length, Scale(factor))
  {
    ghost var s := frame[..];
    var len := plane.Length;
    Copy(frame, off, plane, 0, len);
    PatchWhole(old(plane[..]), s[off..off + len]);
    ScalePixels(plane, 0, len, factor);
    Copy(plane, 0, frame, off, len);
    assert plane[0..len] == plane[..];
    MapAtWindow(s, off, len, Scale(factor));
  }

  /** A 256-entry table of a per-byte operation, filled on first use:
      `entry[v]` holds the operation's result for the byte `v` once
      `ready[v]` is set, and the table lives as long as the transform, so
      entries found in one frame serve the later ones. */
  class LookupTable {
    const op: PixelOp
    const entry: array<Byte>
    const ready: array<bool>

    /** Every entry marked ready holds the operation's result for its index. */
    ghost predicate Valid()
      reads entry, ready
    {
      && entry.Length == 256 && ready.Length == 256
      && forall v | 0 <= v < 256 :: ready[v] ==> entry[v] == PixelFn(op, v)
    }

    /** An empty table: no entry is ready. */
    constructor (op: PixelOp)
      ensures this.op == op && Valid() && fresh(entry) && fresh(ready)
      ensures forall v | 0 <= v < 256 :: !ready[v]
    {
      this.op := op;
      entry := new Byte[256];
      ready := new bool[256](_ => false);
    }

    /** Every byte of the block `[off, off + len)` replaced through the
      table; the entry of a byte not seen before is computed and kept. */
    method MapPixels(a: array<Byte>, off: nat, len: nat)
      requires Valid() && off + len <= a.Length && a != entry
      modifies a, entry, ready
      ensures Valid()
      ensures a[..] == MapAt(old(a[..]), off, len, op)
      ensures forall v | 0 <= v < 256 :: ready[v] <==> old(ready[v]) || v in old(a[off..off + len])
    {
      ghost var s := a[..];
      MapAtEmpty(s, off, op);
      var k := 0;
      while k < len
        invariant k <= len && Valid()
        invariant a[..] == MapAt(s, off, k, op)
        invariant forall v | 0 <= v < 256 :: ready[v] <==> old(ready[v]) || v in s[off..off + k]
      {
        MapAtStep(s, off, k, op);
        assert s[off..off + k + 1] == s[off..off + k] + [s[off + k]];
        assert a[off + k] == s[off + k];
        var value := a[off + k];
        if !ready[value] {
          entry[value] := PixelFn(op, value);
          ready[value] := true;
        }
        a[off + k] := entry[value];
        k := k + 1;
      }
    }
  }

  /** Byte `x` of plane `ch` of the cropped frame, where the crop loops
      write it, and the input byte they copy there. */
  lemma CropCopy(f: seq<Byte>, g: Geometry, top: nat, left: nat, th: Byte, tw: Byte, ch: nat, row: nat, col: nat)
    requires |f| == g.FrameSize() && top + th <= g.height && left + tw <= g.width
    requires ch < g.channels && row < th && col < tw
    ensures var t := Mul(th, tw);
            Mul(ch, t) + PixelIndex(row, col, tw) < Mul(ch, t) + t <= Mul(g.channels, t)
    ensures Mul(ch, g.PlaneSize()) + PixelIndex(row + top, col + left, g.width) < |f|
    ensures CropFrame(f, g, top, left, th, tw)[Mul(ch, Mul(th, tw)) + PixelIndex(row, col, tw)]
            == f[Mul(ch, g.PlaneSize()) + PixelIndex(row + top, col + left, g.width)]
  {
    CropPixel(f, g, top, left, th, tw, ch, row, col);
    PlaneInside(ch, g);
    PlaneInside(ch, Geometry(g.channels, th, tw));
  }

  /** The crop loops of one plane: every row and every column of the crop
      window of plane `ch` is copied to the next byte of plane `ch` of `out`,
      after the planes before it were filled. */
  method CropPlaneInto(frame: array<Byte>, g: Geometry, top: nat, left: nat, th: Byte, tw: Byte, ch: nat, out: array<Byte>)
    requires frame.Length == g.FrameSize() && top + th <= g.height && left + tw <= g.width
    requires out.Length == Geometry(g.channels, th, tw).FrameSize() && out != frame && ch < g.channels
    requires Mul(ch, Mul(th, tw)) + Mul(th, tw) <= out.Length
    requires forall q | 0 <= q < Mul(ch, Mul(th, tw)) :: out[q] == CropFrame(frame[..], g, top, left, th, tw)[q]
    modifies out
    ensures forall q | 0 <= q < Mul(ch, Mul(th, tw)) + Mul(th, tw) :: out[q] == CropFrame(frame[..], g, top, left, th, tw)[q]
  {
    ghost var f := frame[..];
    ghost var c := CropFrame(f, g, top, left, th, tw);
    var t := Mul(th, tw);
    var inStart, outStart := Mul(ch, g.PlaneSize()), Mul(ch, t);
    var row := 0;
    while row < th
      invariant row <= th && Mul(row, tw) <= t
      invariant forall q | 0 <= q < outStart + Mul(row, tw) :: out[q] == c[q]
    {
      FrameInside(row, th, tw);
      var col := 0;
      while col < tw
        invariant col <= tw
        invariant forall q | 0 <= q < outStart + Mul(row, tw) + col :: out[q] == c[q]
      {
        CropCopy(f, g, top, left, th, tw, ch, row, col);
        out[outStart + Mul(row, tw) + col] := frame[inStart + Mul(row + top, g.width) + col + left];
        col := col + 1;
      }
      MulSucc(row, tw);
      row := row + 1;
    }
  }

  /** The crop loops: for every plane, every row and every column of the
      crop window, the input byte is copied to the next byte of `out`. */
  method CropInto(frame: array<Byte>, g: Geometry, top: nat, left: nat, th: Byte, tw: Byte, out: array<Byte>)
    requires frame.Length == g.FrameSize() && top + th <= g.height && left + tw <= g.width
    requires out.Length == Geometry(g.channels, th, tw).FrameSize() && out != frame
    modifies out
    ensures out[..] == CropFrame(frame[..], g, top, left, th, tw)
  {
    ghost var c := CropFrame(frame[..], g, top, left, th, tw);
    var ch := 0;
    while ch < g.channels
      invariant ch <= g.channels && Mul(ch, Mul(th, tw)) <= out.Length
      invariant forall q | 0 <= q < Mul(ch, Mul(th, tw)) :: out[q] == c[q]
    {
      FrameInside(ch, g.channels, Mul(th, tw));
      CropPlaneInto(frame, g, top, left, th, tw, ch, out);
      MulSucc(ch, Mul(th, tw));
      ch := ch + 1;
    }
    assert out[..] == c;
  }
}
