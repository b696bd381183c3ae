/** Frame buffers: a buffer in memory holding frames back to back from its
    start, and how the in-place steps of the transforms (a batch read, a
    plane swap inside one frame, the exchange of two frames) change the
    frames it holds. */
module Buffers {
  import opened Common
  import opened Layout
  import opened Kernels
  import opened Sequences

  /** A buffer whose first `b * fs` bytes are those of frames `done` to
      `done + b - 1` of the payload `p` holds frame `done + i` at place `i`. */
  lemma {:induction false} FrameOfRead(s: seq<Byte>, p: seq<Byte>, fs: nat, done: nat, b: nat, i: nat)
    requires Mul(done + b, fs) <= |p| && Mul(b, fs) <= |s| && i < b
    requires Mul(done, fs) + Mul(b, fs) == Mul(done + b, fs)
    requires s[..Mul(b, fs)] == p[Mul(done, fs)..Mul(done + b, fs)]
    ensures Mul(i, fs) + fs <= |s| && Mul(done + i, fs) + fs <= |p|
    ensures FrameAt(s, i, fs) == FrameAt(p, done + i, fs)
  {
    FrameInside(i, b, fs);
    FrameInside(done + i, done + b, fs);
    MulAdd(done, i, fs);
    SliceOfSlice(s, 0, Mul(b, fs), Mul(i, fs), Mul(i, fs) + fs);
    SliceOfSlice(p, Mul(done, fs), Mul(done + b, fs), Mul(i, fs), Mul(i, fs) + fs);
  }

  /** Frame `q` after exchanging two blocks inside frame `f`. */
  lemma {:induction false} SwapInFrameAt(s: seq<Byte>, fs: nat, n: nat, f: nat, i: nat, j: nat, len: nat, q: nat)
    requires Mul(n, fs) <= |s| && f < n && q < n && i + len <= fs && j + len <= fs
    requires i == j || i + len <= j || j + len <= i
    ensures Mul(f, fs) + fs <= |s| && Mul(q, fs) + fs <= |s|
    ensures FrameAt(SwapAt(s, Mul(f, fs) + i, Mul(f, fs) + j, len), q, fs)
            == if q == f then SwapAt(FrameAt(s, f, fs), i, j, len) else FrameAt(s, q, fs)
  {
    FrameInside(f, n, fs);
    FrameInside(q, n, fs);
    if q == f {
      SwapInOwnFrame(s, f, fs, i, j, len);
    } else {
      if q < f { FrameInside(q, f, fs); } else { FrameInside(f, q, fs); }
      SwapBesideFrame(s, Mul(f, fs) + i, Mul(f, fs) + j, len, q, fs);
    }
  }

  /** Frame `f` after exchanging two blocks inside it. */
  lemma SwapInOwnFrame(s: seq<Byte>, f: nat, fs: nat, i: nat, j: nat, len: nat)
    requires Mul(f, fs) + fs <= |s| && i + len <= fs && j + len <= fs
    requires i == j || i + len <= j || j + len <= i
    ensures FrameAt(SwapAt(s, Mul(f, fs) + i, Mul(f, fs) + j, len), f, fs) == SwapAt(FrameAt(s, f, fs), i, j, len)
  {
    FrameAtIsSlice(s, f, fs);
    FrameAtIsSlice(SwapAt(s, Mul(f, fs) + i, Mul(f, fs) + j, len), f, fs);
    SwapAtInWindow(s, Mul(f, fs), fs, i, j, len);
  }

  /** A frame that does not meet the exchanged blocks keeps its bytes. */
  lemma SwapBesideFrame(s: seq<Byte>, i: nat, j: nat, len: nat, q: nat, fs: nat)
    requires i + len <= |s| && j + len <= |s| && Mul(q, fs) + fs <= |s|
    requires i == j || i + len <= j || j + len <= i
    requires Mul(q, fs) + fs <= i || i + len <= Mul(q, fs)
    requires Mul(q, fs) + fs <= j || j + len <= Mul(q, fs)
    ensures FrameAt(SwapAt(s, i, j, len), q, fs) == FrameAt(s, q, fs)
  {
    var l, r := FrameAt(SwapAt(s, i, j, len), q, fs), FrameAt(s, q, fs);
    forall x | 0 <= x < fs ensures l[x] == r[x] {
    }
  }

  /** Frame `q` after exchanging frames `i < j`. */
  lemma {:induction false} SwapFramesAt(s: seq<Byte>, fs: nat, n: nat, i: nat, j: nat, q: nat)
    requires Mul(n, fs) <= |s| && i < j < n && q < n
    ensures Mul(i, fs) + fs <= Mul(j, fs) && Mul(j, fs) + fs <= |s| && Mul(q, fs) + fs <= |s|
    ensures FrameAt(SwapAt(s, Mul(i, fs), Mul(j, fs), fs), q, fs)
            == if q == i then FrameAt(s, j, fs) else if q == j then FrameAt(s, i, fs) else FrameAt(s, q, fs)
  {
    FrameInside(i, j, fs);
    FrameInside(j, n, fs);
    FrameInside(q, n, fs);
    if q == i || q == j {
      SwapAtEffect(s, Mul(i, fs), Mul(j, fs), fs);
    } else {
      SwapFramesOther(s, fs, n, i, j, q);
    }
  }

  /** A frame other than the two exchanged keeps its bytes. */
  lemma {:induction false} SwapFramesOther(s: seq<Byte>, fs: nat, n: nat, i: nat, j: nat, q: nat)
    requires Mul(n, fs) <= |s| && i < j < n && q < n && q != i && q != j
    ensures Mul(i, fs) + fs <= Mul(j, fs) && Mul(j, fs) + fs <= |s| && Mul(q, fs) + fs <= |s|
    ensures SwapAt(s, Mul(i, fs), Mul(j, fs), fs)[Mul(q, fs)..Mul(q, fs) + fs] == s[Mul(q, fs)..Mul(q, fs) + fs]
  {
    FrameInside(i, j, fs);
    FrameInside(j, n, fs);
    FrameInside(q, n, fs);
    if q < i { FrameInside(q, i, fs); } else { FrameInside(i, q, fs); }
    if q < j { FrameInside(q, j, fs); } else { FrameInside(j, q, fs); }
    SwapAtOutside(s, Mul(i, fs), Mul(j, fs), fs, Mul(q, fs), fs);
  }

  /** A buffer whose first `b * fs` bytes are those of frames `done` to
      `done + b - 1` of the payload `p` holds those frames. */
  lemma {:induction false} FramesRead(s: seq<Byte>, p: seq<Byte>, fs: nat, done: nat, b: nat)
    requires Mul(done + b, fs) <= |p| && Mul(b, fs) <= |s|
    requires Mul(done, fs) + Mul(b, fs) == Mul(done + b, fs)
    requires s[..Mul(b, fs)] == p[Mul(done, fs)..Mul(done + b, fs)]
    ensures Frames(s, fs, b) == Frames(p, fs, done + b)[done..]
  {
    var S, P := Frames(s, fs, b), Frames(p, fs, done + b)[done..];
    forall i | 0 <= i < b ensures S[i] == P[i] {
      FrameOfRead(s, p, fs, done, b, i);
    }
  }

  /** Exchanging two blocks inside frame `f` of the buffer exchanges them
      in that frame and leaves every other frame as it was. */
  lemma {:induction false} FramesSwapInFrame(s: seq<Byte>, t: seq<Byte>, fs: nat, n: nat, f: nat, i: nat, j: nat, len: nat)
    requires Mul(n, fs) <= |s| && f < n && Mul(f, fs) + fs <= |s|
    requires Blocks(fs, i, j, len)
    requires t == SwapAt(s, Mul(f, fs) + i, Mul(f, fs) + j, len)
    ensures Mul(n, fs) <= |t|
    ensures Frames(t, fs, n) == Frames(s, fs, n)[f := SwapAt(Frames(s, fs, n)[f], i, j, len)]
  {
    var S := Frames(s, fs, n);
    var T, G := Frames(t, fs, n), S[f := SwapAt(S[f], i, j, len)];
    forall q | 0 <= q < n ensures T[q] == G[q] {
      SwapInFrameAt(s, fs, n, f, i, j, len, q);
    }
  }

  /** Where the swap loops exchange planes `a` and `b` of frame `f` of a
      buffer of `len` bytes that holds `n` frames: at `i` and `j`. */
  lemma PlaneBlocks(len: nat, g: Geometry, n: nat, f: nat, a: Byte, b: Byte, i: nat, j: nat)
    requires Mul(n, g.FrameSize()) <= len && f < n && a < g.channels && b < g.channels
    requires i == Mul(f, g.FrameSize()) + Mul(a, g.PlaneSize()) && j == Mul(f, g.FrameSize()) + Mul(b, g.PlaneSize())
    ensures Blocks(len, i, j, g.PlaneSize())
  {
    FrameInside(f, n, g.FrameSize());
    PlanesApart(a, b, g);
  }

  /** Exchanging planes `a` and `b` inside frame `f` of a buffer that holds
      the frames `G`, at `i` and `j`, swaps them in that frame. */
  lemma {:induction false} FramesSwapPlanes(s: seq<Byte>, t: seq<Byte>, g: Geometry, n: nat, f: nat, a: Byte, b: Byte,
                                            G: seq<seq<Byte>>, i: nat, j: nat)
    requires Mul(n, g.FrameSize()) <= |s| && f < n && a < g.channels && b < g.channels
    requires Frames(s, g.FrameSize(), n) == G
    requires i == Mul(f, g.FrameSize()) + Mul(a, g.PlaneSize()) && j == Mul(f, g.FrameSize()) + Mul(b, g.PlaneSize())
    requires Blocks(|s|, i, j, g.PlaneSize())
    requires t == SwapAt(s, i, j, g.PlaneSize())
    ensures Mul(n, g.FrameSize()) <= |t| && |G| == n && |G[f]| == g.FrameSize()
    ensures Frames(t, g.FrameSize(), n) == G[f := Apply(SwapPlanes(a, b), g, G[f])]
  {
    var fs, ps := g.FrameSize(), g.PlaneSize();
    FrameInside(f, n, fs);
    PlanesApart(a, b, g);
    SwapPlanesIsSwapAt(a, b, g, G[f]);
    FramesSwapInFrame(s, t, fs, n, f, Mul(a, ps), Mul(b, ps), ps);
  }

  /** A buffer whose first `b` frames were read from frames `done` to
      `done + b - 1` of the payload `p` holds them, none of them yet
      transformed, when an in-place frame loop starts. */
  lemma {:induction false} BatchStart(s: seq<Byte>, p: seq<Byte>, g: Geometry, k: Kernel, done: nat, b: nat)
    requires Fits(k, g) && !k.CropWindow?
    requires Mul(done + b, g.FrameSize()) <= |p| && Mul(b, g.FrameSize()) <= |s|
    requires Mul(done, g.FrameSize()) + Mul(b, g.FrameSize()) == Mul(done + b, g.FrameSize())
    requires s[..Mul(b, g.FrameSize())] == p[Mul(done, g.FrameSize())..Mul(done + b, g.FrameSize())]
    ensures var F := Frames(p, g.FrameSize(), done + b)[done..];
            && |F| == b && Uniform(F, g.FrameSize())
            && Frames(s, g.FrameSize(), b) == MappedUpTo(F, g, k, 0)
  {
    var F := Frames(p, g.FrameSize(), done + b)[done..];
    FramesRead(s, p, g.FrameSize(), done, b);
    MappedUpToStart(F, g, k);
  }

  /** When the loop has gone through all `b` frames, the buffer starts with
      the transform of those frames of the payload, which follows the
      transform of the frames before them. */
  lemma {:induction false} BatchDone(t: seq<Byte>, p: seq<Byte>, g: Geometry, k: Kernel, done: nat, b: nat)
    requires Fits(k, g) && !k.CropWindow? && Mul(done + b, g.FrameSize()) <= |p| && Mul(b, g.FrameSize()) <= |t|
    requires var F := Frames(p, g.FrameSize(), done + b)[done..];
             && |F| == b && Uniform(F, g.FrameSize())
             && Frames(t, g.FrameSize(), b) == MappedUpTo(F, g, k, b)
    ensures MapPayload(p, g, done + b, k) == MapPayload(p, g, done, k) + t[..Mul(b, g.FrameSize())]
  {
    var fs := g.FrameSize();
    var F := Frames(p, fs, done + b)[done..];
    MappedUpToDone(F, g, k);
    FlattenFrames(t, fs, b);
    MapPayloadBatch(p, g, k, done, b);
  }
}
