/** The per-frame transforms as pure functions on a frame's bytes: plane
    swap, per-byte clip and scale of one plane, and the centred crop. */
module Kernels {
  import opened Common
  import opened Layout

  // ---------------------------------------------------------------------
  // Per-byte operations

  /** The direct clip: a byte above `hi` becomes `hi`, otherwise a byte below
      `lo` becomes `lo`. */
  function ClampMaxFirst(v: Byte, lo: Byte, hi: Byte): (r: Byte)
    ensures lo <= hi ==> lo <= r <= hi
    ensures lo <= v <= hi ==> r == v
    ensures hi < lo ==> r == if hi < v then hi else lo
  {
    if v > hi then hi else if v < lo then lo else v
  }

  /** The clip of the lookup-table variant: it tests `< lo` before `> hi`. */
  function ClampMinFirst(v: Byte, lo: Byte, hi: Byte): (r: Byte)
    ensures lo <= hi ==> lo <= r <= hi
    ensures lo <= v <= hi ==> r == v
    ensures hi < lo ==> r == if v < lo then lo else hi
  {
    if v < lo then lo else if v > hi then hi else v
  }

  /** The direct scale: the product is compared with 255 and 0, and a product
      in range is truncated. */
  function ScaleByte(v: Byte, factor: real): (r: Byte)
    ensures 255.0 < v as real * factor ==> r == 255
    ensures v as real * factor < 0.0 ==> r == 0
    ensures 0.0 <= v as real * factor <= 255.0 ==>
              r as real <= v as real * factor < r as real + 1.0
  {
    var scaled := v as real * factor;
    if scaled > 255.0 then 255 else if scaled < 0.0 then 0 else FloorByte(scaled)
  }

  /** The truncation of a product in [0, 255] to a byte. */
  function FloorByte(x: real): (r: Byte)
    requires 0.0 <= x <= 255.0
    ensures r as real <= x < r as real + 1.0
  {
    x.Floor
  }

  /** The scale of the lookup-table variant: the product is first clamped to
      [0, 255] and then truncated. */
  function ScaleByteClampFirst(v: Byte, factor: real): (r: Byte)
  {
    var scaled := v as real * factor;
    var clamped := if scaled > 255.0 then 255.0 else if scaled < 0.0 then 0.0 else scaled;
    clamped.Floor
  }

  /** The four per-byte operations of the clip and scale transforms. */
  datatype PixelOp =
    | Clamp(lo: Byte, hi: Byte)
    | ClampLookup(lo: Byte, hi: Byte)
    | Scale(factor: real)
    | ScaleLookup(factor: real)

  function PixelFn(op: PixelOp, v: Byte): Byte
  {
    match op
    case Clamp(lo, hi) => ClampMaxFirst(v, lo, hi)
    case ClampLookup(lo, hi) => ClampMinFirst(v, lo, hi)
    case Scale(f) => ScaleByte(v, f)
    case ScaleLookup(f) => ScaleByteClampFirst(v, f)
  }

  /** Both clips agree whenever the bounds are ordered. */
  lemma ClampVariantsAgree(v: Byte, lo: Byte, hi: Byte)
    requires lo <= hi
    ensures ClampMinFirst(v, lo, hi) == ClampMaxFirst(v, lo, hi)
  {
  }

  /** With `lo > hi`, a byte strictly between them is sent to `lo` by the
      lookup-table clip and to `hi` by the direct clip. */
  lemma ClampVariantsDisagree(v: Byte, lo: Byte, hi: Byte)
    requires hi < v < lo
    ensures ClampMinFirst(v, lo, hi) == lo && ClampMaxFirst(v, lo, hi) == hi
  {
  }

  /** The two scales agree on every byte and every factor. */
  lemma ScaleVariantsAgree(v: Byte, factor: real)
    ensures ScaleByteClampFirst(v, factor) == ScaleByte(v, factor)
  {
  }

  /** The direct clip is idempotent exactly when the bounds are ordered. */
  lemma ClampIdempotentIff(lo: Byte, hi: Byte)
    ensures (forall v: Byte :: ClampMaxFirst(ClampMaxFirst(v, lo, hi), lo, hi) == ClampMaxFirst(v, lo, hi))
            <==> lo <= hi
  {
    if hi < lo {
      assert ClampMaxFirst(ClampMaxFirst(255, lo, hi), lo, hi) != ClampMaxFirst(255, lo, hi);
    }
  }

  // ---------------------------------------------------------------------
  // Operations on byte blocks

  /** Two blocks of `len` bytes at offsets `i` and `j` of a frame of `fs`
      bytes that lie inside it and are the same block or do not overlap. */
  predicate Blocks(fs: nat, i: nat, j: nat, len: nat)
  {
    i + len <= fs && j + len <= fs && (i == j || i + len <= j || j + len <= i)
  }

  /** `s` with the `len`-byte blocks at `i` and `j` exchanged; the blocks are
      the same block or do not overlap. */
  function SwapAt(s: seq<Byte>, i: nat, j: nat, len: nat): (r: seq<Byte>)
    requires i + len <= |s| && j + len <= |s|
    requires i == j || i + len <= j || j + len <= i
    ensures |r| == |s|
  {
    seq(|s|, k requires 0 <= k < |s| =>
      if i <= k < i + len then s[k - i + j]
      else if j <= k < j + len then s[k - j + i]
      else s[k])
  }

  /** After the exchange each block holds the other's bytes, and every byte
      outside both blocks is unchanged. */
  lemma SwapAtEffect(s: seq<Byte>, i: nat, j: nat, len: nat)
    requires i + len <= |s| && j + len <= |s|
    requires i == j || i + len <= j || j + len <= i
    ensures var r := SwapAt(s, i, j, len);
            && r[i..i + len] == s[j..j + len] && r[j..j + len] == s[i..i + len]
            && forall k :: 0 <= k < |s| && !(i <= k < i + len) && !(j <= k < j + len) ==> r[k] == s[k]
  {
    var r := SwapAt(s, i, j, len);
    var ri, rj, si, sj := r[i..i + len], r[j..j + len], s[i..i + len], s[j..j + len];
    forall x | 0 <= x < len ensures ri[x] == sj[x] && rj[x] == si[x] {
      assert ri[x] == r[i + x] && rj[x] == r[j + x];
    }
  }

  /** Exchanging empty blocks changes nothing. */
  lemma SwapAtEmpty(s: seq<Byte>, i: nat, j: nat)
    requires i <= |s| && j <= |s|
    ensures SwapAt(s, i, j, 0) == s
  {
  }

  /** Exchanging one byte more exchanges the next byte of each block. */
  lemma SwapAtStep(s: seq<Byte>, i: nat, j: nat, k: nat)
    requires i + k + 1 <= |s| && j + k + 1 <= |s|
    requires i == j || i + k + 1 <= j || j + k + 1 <= i
    ensures SwapAt(s, i, j, k + 1) == SwapAt(s, i, j, k)[i + k := s[j + k]][j + k := s[i + k]]
  {
  }

  /** The exchange done by copying one block aside, the other over it and the
      copy over the other. */
  lemma SwapAtIsPatches(s: seq<Byte>, i: nat, j: nat, len: nat)
    requires i + len <= |s| && j + len <= |s|
    requires i == j || i + len <= j || j + len <= i
    ensures SwapAt(s, i, j, len) == Patch(Patch(s, i, s[j..j + len]), j, s[i..i + len])
  {
    var r, t := SwapAt(s, i, j, len), Patch(Patch(s, i, s[j..j + len]), j, s[i..i + len]);
    forall k | 0 <= k < |s| ensures r[k] == t[k] {
      SwapAtIsPatchesAt(s, i, j, len, k);
    }
  }

  /** One byte of `SwapAtIsPatches`. */
  lemma SwapAtIsPatchesAt(s: seq<Byte>, i: nat, j: nat, len: nat, k: nat)
    requires i + len <= |s| && j + len <= |s| && k < |s|
    requires i == j || i + len <= j || j + len <= i
    ensures SwapAt(s, i, j, len)[k] == Patch(Patch(s, i, s[j..j + len]), j, s[i..i + len])[k]
  {
    var once := Patch(s, i, s[j..j + len]);
    PatchAt(once, j, s[i..i + len], k);
    if j <= k < j + len {
      assert s[i..i + len][k - j] == s[k - j + i];
    } else {
      PatchAt(s, i, s[j..j + len], k);
      if i <= k < i + len {
        assert s[j..j + len][k - i] == s[k - i + j];
      }
    }
  }

  /** After exchanging two blocks inside the window `[off, off + fs)` of
      `s`, the window holds its own bytes with the two blocks exchanged. */
  lemma SwapAtInWindow(s: seq<Byte>, off: nat, fs: nat, i: nat, j: nat, len: nat)
    requires off + fs <= |s| && i + len <= fs && j + len <= fs
    requires i == j || i + len <= j || j + len <= i
    ensures SwapAt(s, off + i, off + j, len)[off..off + fs] == SwapAt(s[off..off + fs], i, j, len)
  {
    var t, y := SwapAt(s, off + i, off + j, len), s[off..off + fs];
    var l, r := t[off..off + fs], SwapAt(y, i, j, len);
    forall x | 0 <= x < fs ensures l[x] == r[x] {
      assert l[x] == t[off + x];
      if i <= x < i + len {
        assert r[x] == y[x - i + j];
      } else if j <= x < j + len {
        assert r[x] == y[x - j + i];
      } else {
        assert r[x] == y[x];
      }
    }
  }

  /** A block disjoint from both exchanged blocks keeps its bytes. */
  lemma SwapAtOutside(s: seq<Byte>, i: nat, j: nat, len: nat, at: nat, m: nat)
    requires i + len <= |s| && j + len <= |s|
    requires i == j || i + len <= j || j + len <= i
    requires at + m <= |s|
    requires at + m <= i || i + len <= at
    requires at + m <= j || j + len <= at
    ensures SwapAt(s, i, j, len)[at..at + m] == s[at..at + m]
  {
    var r := SwapAt(s, i, j, len);
    var u, v := r[at..at + m], s[at..at + m];
    forall x | 0 <= x < m ensures u[x] == v[x] {
      assert r[at + x] == s[at + x];
    }
  }

  /** Exchanging the same two blocks twice restores the bytes. */
  lemma SwapAtTwice(s: seq<Byte>, i: nat, j: nat, len: nat)
    requires i + len <= |s| && j + len <= |s|
    requires i == j || i + len <= j || j + len <= i
    ensures SwapAt(SwapAt(s, i, j, len), i, j, len) == s
  {
    var t := SwapAt(SwapAt(s, i, j, len), i, j, len);
    forall k | 0 <= k < |s| ensures t[k] == s[k] {
      if i <= k < i + len {
        assert t[k] == t[i..i + len][k - i];
      } else if j <= k < j + len {
        assert t[k] == t[j..j + len][k - j];
      }
    }
  }

  /** Exchanging a block with itself changes nothing. */
  lemma SwapAtSelf(s: seq<Byte>, i: nat, len: nat)
    requires i + len <= |s|
    ensures SwapAt(s, i, i, len) == s
  {
    var t := SwapAt(s, i, i, len);
    forall k | 0 <= k < |s| ensures t[k] == s[k] {
      if i <= k < i + len {
        assert t[k] == t[i..i + len][k - i];
      }
    }
  }

  /** `s` with every byte of the block `[off, off + len)` passed through `op`. */
  function MapAt(s: seq<Byte>, off: nat, len: nat, op: PixelOp): (r: seq<Byte>)
    requires off + len <= |s|
    ensures |r| == |s|
  {
    seq(|s|, k requires 0 <= k < |s| =>
      if off <= k < off + len then PixelFn(op, s[k]) else s[k])
  }

  /** Mapping a block passes each of its bytes through `op` and keeps every
      byte outside it. */
  lemma MapAtEffect(s: seq<Byte>, off: nat, len: nat, op: PixelOp)
    requires off + len <= |s|
    ensures var r := MapAt(s, off, len, op);
            && r[..off] == s[..off] && r[off + len..] == s[off + len..]
            && forall k :: off <= k < off + len ==> r[k] == PixelFn(op, s[k])
  {
    var r := MapAt(s, off, len, op);
    assert r[..off] == s[..off];
    assert r[off + len..] == s[off + len..];
  }

  /** Mapping an empty block changes nothing. */
  lemma MapAtEmpty(s: seq<Byte>, off: nat, op: PixelOp)
    requires off <= |s|
    ensures MapAt(s, off, 0, op) == s
  {
  }

  /** Mapping one byte more maps the next byte. */
  lemma MapAtStep(s: seq<Byte>, off: nat, k: nat, op: PixelOp)
    requires off + k + 1 <= |s|
    ensures MapAt(s, off, k + 1, op) == MapAt(s, off, k, op)[off + k := PixelFn(op, s[off + k])]
  {
  }

  /** Mapping the block `[off, off + len)` is mapping a copy of it and
      copying the result back. */
  lemma MapAtWindow(s: seq<Byte>, off: nat, len: nat, op: PixelOp)
    requires off + len <= |s|
    ensures MapAt(s, off, len, op) == Patch(s, off, MapAt(s[off..off + len], 0, len, op))
  {
    var x := MapAt(s[off..off + len], 0, len, op);
    var r, t := MapAt(s, off, len, op), Patch(s, off, x);
    forall k | 0 <= k < |s| ensures r[k] == t[k] {
      PatchAt(s, off, x, k);
    }
  }

  /** Two per-byte operations that agree on every byte agree on every block. */
  lemma MapAtAgree(s: seq<Byte>, off: nat, len: nat, op1: PixelOp, op2: PixelOp)
    requires off + len <= |s|
    requires forall v: Byte :: PixelFn(op1, v) == PixelFn(op2, v)
    ensures MapAt(s, off, len, op1) == MapAt(s, off, len, op2)
  {
    var a, b := MapAt(s, off, len, op1), MapAt(s, off, len, op2);
    forall k | 0 <= k < |s| ensures a[k] == b[k] {
      if k < off {
        assert a[k] == a[..off][k] && b[k] == b[..off][k];
      } else if off + len <= k {
        assert a[k] == a[off + len..][k - off - len] && b[k] == b[off + len..][k - off - len];
      }
    }
  }

  /** Clipping an already clipped block again changes nothing when the bounds
      are ordered. */
  lemma MapAtClampTwice(s: seq<Byte>, off: nat, len: nat, lo: Byte, hi: Byte)
    requires off + len <= |s| && lo <= hi
    ensures MapAt(MapAt(s, off, len, Clamp(lo, hi)), off, len, Clamp(lo, hi)) == MapAt(s, off, len, Clamp(lo, hi))
  {
    var once := MapAt(s, off, len, Clamp(lo, hi));
    var twice := MapAt(once, off, len, Clamp(lo, hi));
    forall k | 0 <= k < |s| ensures twice[k] == once[k] {
      if k < off {
        assert twice[k] == twice[..off][k] && once[k] == once[..off][k];
      } else if off + len <= k {
        assert twice[k] == twice[off + len..][k - off - len] && once[k] == once[off + len..][k - off - len];
      }
    }
  }

  // ---------------------------------------------------------------------
  // The crop window

  /** The `tw` columns from `left` on of every row before `top + th` of a
      plane `w` bytes wide lie inside those rows. */
  lemma RowsInside(w: nat, top: nat, left: nat, th: nat, tw: nat)
    requires left + tw <= w
    ensures forall i: nat | i < top + th :: PixelIndex(i, left, w) + tw <= Mul(top + th, w)
  {
    forall i: nat | i < top + th ensures PixelIndex(i, left, w) + tw <= Mul(top + th, w) {
      FrameInside(i, top + th, w);
    }
  }

  /** Rows `top` to `top + th - 1` of a plane `w` bytes wide, each cut to
      the `tw` columns from `left` on. */
  function CropRows(plane: seq<Byte>, w: nat, top: nat, left: nat, th: nat, tw: nat): (R: seq<seq<Byte>>)
    requires left + tw <= w && Mul(top + th, w) <= |plane|
    ensures |R| == th && Uniform(R, tw)
  {
    RowsInside(w, top, left, th, tw);
    seq(th, r requires 0 <= r < th => plane[PixelIndex(top + r, left, w)..PixelIndex(top + r, left, w) + tw])
  }

  /** The crop window of one plane: the cut rows back to back. */
  function CropPlane(plane: seq<Byte>, w: nat, top: nat, left: nat, th: nat, tw: nat): (r: seq<Byte>)
    requires left + tw <= w && Mul(top + th, w) <= |plane|
    ensures |r| == Mul(th, tw)
  {
    FlattenLength(CropRows(plane, w, top, left, th, tw), tw);
    Flatten(CropRows(plane, w, top, left, th, tw))
  }

  /** Pixel (`row`, `col`) of the cropped plane is pixel (`row + top`,
      `col + left`) of the plane. */
  lemma CropPlanePixel(plane: seq<Byte>, w: nat, top: nat, left: nat, th: nat, tw: nat, row: nat, col: nat)
    requires left + tw <= w && Mul(top + th, w) <= |plane|
    requires row < th && col < tw
    ensures PixelIndex(row, col, tw) < Mul(th, tw)
    ensures PixelIndex(row + top, col + left, w) < |plane|
    ensures CropPlane(plane, w, top, left, th, tw)[PixelIndex(row, col, tw)]
            == plane[PixelIndex(row + top, col + left, w)]
  {
    var R := CropRows(plane, w, top, left, th, tw);
    FlattenAt(R, tw, row);
    PixelInside(row, col, th, tw);
    RowsInside(w, top, left, th, tw);
    assert Flatten(R)[PixelIndex(row, col, tw)] == FrameAt(Flatten(R), row, tw)[col];
  }

  /** The cropped planes of a frame, one per channel. */
  function CropPlanes(f: seq<Byte>, g: Geometry, top: nat, left: nat, th: nat, tw: nat): (P: seq<seq<Byte>>)
    requires |f| == g.FrameSize()
    requires top + th <= g.height && left + tw <= g.width
    ensures |P| == g.channels as int && Uniform(P, Mul(th, tw))
  {
    MulMono(top + th, g.height, g.width);
    seq(g.channels, ch requires 0 <= ch < g.channels => CropPlane(Plane(f, g, ch), g.width, top, left, th, tw))
  }

  /** The whole crop window of a frame: every plane cut to `th` rows of
      `tw` columns, plane after plane. */
  function CropFrame(f: seq<Byte>, g: Geometry, top: nat, left: nat, th: Byte, tw: Byte): (r: seq<Byte>)
    requires |f| == g.FrameSize()
    requires top + th <= g.height && left + tw <= g.width
    ensures |r| == Geometry(g.channels, th, tw).FrameSize()
  {
    FlattenLength(CropPlanes(f, g, top, left, th, tw), Mul(th, tw));
    Flatten(CropPlanes(f, g, top, left, th, tw))
  }

  /** Each plane of the cropped frame is the crop of the same plane of the input. */
  lemma CropFramePlane(f: seq<Byte>, g: Geometry, top: nat, left: nat, th: Byte, tw: Byte, ch: nat)
    requires |f| == g.FrameSize() && top + th <= g.height && left + tw <= g.width
    requires ch < g.channels
    ensures Mul(top + th, g.width) <= g.PlaneSize()
    ensures Plane(CropFrame(f, g, top, left, th, tw), Geometry(g.channels, th, tw), ch)
            == CropPlane(Plane(f, g, ch), g.width, top, left, th, tw)
  {
    MulMono(top + th, g.height, g.width);
    FlattenAt(CropPlanes(f, g, top, left, th, tw), Mul(th, tw), ch);
  }

  /** Pixel (`row`, `col`) of plane `ch` of the cropped frame is pixel
      (`row + top`, `col + left`) of plane `ch` of the input. */
  lemma CropPixel(f: seq<Byte>, g: Geometry, top: nat, left: nat, th: Byte, tw: Byte, ch: nat, row: nat, col: nat)
    requires |f| == g.FrameSize() && top + th <= g.height && left + tw <= g.width
    requires ch < g.channels && row < th && col < tw
    ensures PixelIndex(row, col, tw) < Mul(th, tw)
    ensures PixelIndex(row + top, col + left, g.width) < g.PlaneSize()
    ensures Plane(CropFrame(f, g, top, left, th, tw), Geometry(g.channels, th, tw), ch)[PixelIndex(row, col, tw)]
            == Plane(f, g, ch)[PixelIndex(row + top, col + left, g.width)]
  {
    CropFramePlane(f, g, top, left, th, tw, ch);
    CropPlanePixel(Plane(f, g, ch), g.width, top, left, th, tw, row, col);
  }

  // ---------------------------------------------------------------------
  // Kernels: one per-frame transform each

  datatype Kernel =
    | SwapPlanes(ch1: Byte, ch2: Byte)
    | MapPlane(ch: Byte, op: PixelOp)
    | CropWindow(top: nat, left: nat, th: Byte, tw: Byte)

  /** The kernel's channels exist in frames of `g`, and its crop window lies
      inside them. */
  predicate Fits(k: Kernel, g: Geometry)
  {
    match k
    case SwapPlanes(a, b) => a < g.channels && b < g.channels
    case MapPlane(c, _) => c < g.channels
    case CropWindow(top, left, th, tw) => top + th <= g.height && left + tw <= g.width
  }

  /** The dimensions of the frames the kernel produces. */
  function OutGeometry(k: Kernel, g: Geometry): Geometry
  {
    if k.CropWindow? then Geometry(g.channels, k.th, k.tw) else g
  }

  /** One frame transformed by the kernel. */
  function Apply(k: Kernel, g: Geometry, f: seq<Byte>): (r: seq<Byte>)
    requires Fits(k, g) && |f| == g.FrameSize()
    ensures |r| == OutGeometry(k, g).FrameSize()
  {
    var p := g.PlaneSize();
    match k
    case SwapPlanes(a, b) =>
      PlaneInside(a, g);
      PlaneInside(b, g);
      if a < b then FrameInside(a, b, p); SwapAt(f, Mul(a, p), Mul(b, p), p)
      else if b < a then FrameInside(b, a, p); SwapAt(f, Mul(a, p), Mul(b, p), p)
      else SwapAt(f, Mul(a, p), Mul(b, p), p)
    case MapPlane(c, op) =>
      PlaneInside(c, g);
      MapAt(f, Mul(c, p), p, op)
    case CropWindow(top, left, th, tw) =>
      CropFrame(f, g, top, left, th, tw)
  }

  /** Swapping two planes: in the result plane `a` holds the input's plane
      `b` and the other way round, and every other byte is unchanged. */
  lemma SwapPlanesEffect(a: Byte, b: Byte, g: Geometry, f: seq<Byte>)
    requires a < g.channels && b < g.channels && |f| == g.FrameSize()
    ensures Mul(a, g.PlaneSize()) + g.PlaneSize() <= |f| && Mul(b, g.PlaneSize()) + g.PlaneSize() <= |f|
    ensures var r, p := Apply(SwapPlanes(a, b), g, f), g.PlaneSize();
            && r[Mul(a, p)..Mul(a, p) + p] == f[Mul(b, p)..Mul(b, p) + p]
            && r[Mul(b, p)..Mul(b, p) + p] == f[Mul(a, p)..Mul(a, p) + p]
            && forall i :: 0 <= i < |f| && !(Mul(a, p) <= i < Mul(a, p) + p) && !(Mul(b, p) <= i < Mul(b, p) + p) ==> r[i] == f[i]
  {
    var p := g.PlaneSize();
    SwapPlanesIsSwapAt(a, b, g, f);
    SwapAtEffect(f, Mul(a, p), Mul(b, p), p);
  }

  /** Planes `a` and `b` as blocks of a frame: both lie inside it, and they
      are the same block or do not overlap. */
  lemma PlanesApart(a: Byte, b: Byte, g: Geometry)
    requires a < g.channels && b < g.channels
    ensures Blocks(g.FrameSize(), Mul(a, g.PlaneSize()), Mul(b, g.PlaneSize()), g.PlaneSize())
  {
    var p := g.PlaneSize();
    PlaneInside(a, g);
    PlaneInside(b, g);
    if a < b { FrameInside(a, b, p); } else if b < a { FrameInside(b, a, p); }
  }

  /** Swapping two planes exchanges the planes' blocks of the frame. */
  lemma SwapPlanesIsSwapAt(a: Byte, b: Byte, g: Geometry, f: seq<Byte>)
    requires a < g.channels && b < g.channels && |f| == g.FrameSize()
    ensures var p := g.PlaneSize();
            && Mul(a, p) + p <= |f| && Mul(b, p) + p <= |f|
            && (Mul(a, p) == Mul(b, p) || Mul(a, p) + p <= Mul(b, p) || Mul(b, p) + p <= Mul(a, p))
            && Apply(SwapPlanes(a, b), g, f) == SwapAt(f, Mul(a, p), Mul(b, p), p)
  {
    var p := g.PlaneSize();
    PlaneInside(a, g);
    PlaneInside(b, g);
    if a < b { FrameInside(a, b, p); } else if b < a { FrameInside(b, a, p); }
  }

  /** Swapping the same two planes twice restores the frame. */
  lemma SwapPlanesTwice(a: Byte, b: Byte, g: Geometry, f: seq<Byte>)
    requires a < g.channels && b < g.channels && |f| == g.FrameSize()
    ensures Apply(SwapPlanes(a, b), g, Apply(SwapPlanes(a, b), g, f)) == f
  {
    var p := g.PlaneSize();
    PlaneInside(a, g);
    PlaneInside(b, g);
    if a < b { FrameInside(a, b, p); } else if b < a { FrameInside(b, a, p); }
    SwapAtTwice(f, Mul(a, p), Mul(b, p), p);
  }

  /** Swapping a plane with itself leaves the frame as it is. */
  lemma SwapPlanesSelf(a: Byte, g: Geometry, f: seq<Byte>)
    requires a < g.channels && |f| == g.FrameSize()
    ensures Apply(SwapPlanes(a, a), g, f) == f
  {
    PlaneInside(a, g);
    SwapAtSelf(f, Mul(a, g.PlaneSize()), g.PlaneSize());
  }

  /** Clipping a plane twice is clipping it once, when `lo <= hi`. */
  lemma ClipPlaneTwice(c: Byte, lo: Byte, hi: Byte, g: Geometry, f: seq<Byte>)
    requires c < g.channels && |f| == g.FrameSize() && lo <= hi
    ensures var k := MapPlane(c, Clamp(lo, hi));
            Apply(k, g, Apply(k, g, f)) == Apply(k, g, f)
  {
    PlaneInside(c, g);
    MapAtClampTwice(f, Mul(c, g.PlaneSize()), g.PlaneSize(), lo, hi);
  }

  /** The lookup-table clip equals the direct clip on every frame when `lo <= hi`. */
  lemma ClipLookupAgrees(c: Byte, lo: Byte, hi: Byte, g: Geometry, f: seq<Byte>)
    requires c < g.channels && |f| == g.FrameSize() && lo <= hi
    ensures Apply(MapPlane(c, ClampLookup(lo, hi)), g, f) == Apply(MapPlane(c, Clamp(lo, hi)), g, f)
  {
    PlaneInside(c, g);
    forall v: Byte ensures PixelFn(ClampLookup(lo, hi), v) == PixelFn(Clamp(lo, hi), v) {
      ClampVariantsAgree(v, lo, hi);
    }
    MapAtAgree(f, Mul(c, g.PlaneSize()), g.PlaneSize(), ClampLookup(lo, hi), Clamp(lo, hi));
  }

  /** The lookup-table scale equals the direct scale on every frame. */
  lemma ScaleLookupAgrees(c: Byte, factor: real, g: Geometry, f: seq<Byte>)
    requires c < g.channels && |f| == g.FrameSize()
    ensures Apply(MapPlane(c, ScaleLookup(factor)), g, f) == Apply(MapPlane(c, Scale(factor)), g, f)
  {
    PlaneInside(c, g);
    forall v: Byte ensures PixelFn(ScaleLookup(factor), v) == PixelFn(Scale(factor), v) {
      ScaleVariantsAgree(v, factor);
    }
    MapAtAgree(f, Mul(c, g.PlaneSize()), g.PlaneSize(), ScaleLookup(factor), Scale(factor));
  }
}
