/** Whole payloads (the bytes after the header) as sequences of frames:
    splitting a payload into frames and joining them back, every frame
    through a kernel, the frames in reverse order, and every `k`-th frame.
    These are the specifications the transforms are proved against. */
module Sequences {
  import opened Common
  import opened Layout
  import opened Kernels

  // ---------------------------------------------------------------------
  // Every frame through a kernel

  /** Every frame transformed by `k`. */
  function MapFrames(F: seq<seq<Byte>>, g: Geometry, k: Kernel): (r: seq<seq<Byte>>)
    requires Fits(k, g) && Uniform(F, g.FrameSize())
    ensures |r| == |F| && Uniform(r, OutGeometry(k, g).FrameSize())
  {
    seq(|F|, i requires 0 <= i < |F| => Apply(k, g, F[i]))
  }

  /** Transforming the frames of a concatenation transforms each part:
      processing in batches or frame by frame changes nothing. */
  lemma MapFramesAppend(F: seq<seq<Byte>>, G: seq<seq<Byte>>, g: Geometry, k: Kernel)
    requires Fits(k, g) && Uniform(F, g.FrameSize()) && Uniform(G, g.FrameSize())
    ensures Uniform(F + G, g.FrameSize())
    ensures MapFrames(F + G, g, k) == MapFrames(F, g, k) + MapFrames(G, g, k)
  {
    assert Uniform(F + G, g.FrameSize()) by {
      forall i | 0 <= i < |F + G| ensures |(F + G)[i]| == g.FrameSize() {
        if i >= |F| {
          assert (F + G)[i] == G[i - |F|];
        }
      }
    }
  }

  /** The bytes a streaming transform writes for the first `n` frames of a
      payload: each frame through the kernel, back to back. */
  function MapPayload(p: seq<Byte>, g: Geometry, n: nat, k: Kernel): (r: seq<Byte>)
    requires Fits(k, g) && Mul(n, g.FrameSize()) <= |p|
  {
    Flatten(MapFrames(Frames(p, g.FrameSize(), n), g, k))
  }

  /** One frame more appends that frame's transform. */
  lemma MapPayloadStep(p: seq<Byte>, g: Geometry, n: nat, k: Kernel)
    requires Fits(k, g) && Mul(n + 1, g.FrameSize()) <= |p|
    ensures Mul(n, g.FrameSize()) + g.FrameSize() <= |p|
    ensures MapPayload(p, g, n + 1, k) == MapPayload(p, g, n, k) + Apply(k, g, FrameAt(p, n, g.FrameSize()))
  {
    var fs := g.FrameSize();
    FrameInside(n, n + 1, fs);
    var F := Frames(p, fs, n + 1);
    FramesPrefix(p, fs, n, n + 1);
    assert F == Frames(p, fs, n) + [FrameAt(p, n, fs)];
    MapFramesAppend(Frames(p, fs, n), [FrameAt(p, n, fs)], g, k);
    FlattenSnoc(MapFrames(Frames(p, fs, n), g, k), Apply(k, g, FrameAt(p, n, fs)));
  }

  /** The transformed payload holds `n` output frames. */
  lemma MapPayloadLength(p: seq<Byte>, g: Geometry, n: nat, k: Kernel)
    requires Fits(k, g) && Mul(n, g.FrameSize()) <= |p|
    ensures |MapPayload(p, g, n, k)| == Mul(n, OutGeometry(k, g).FrameSize())
  {
    FlattenLength(MapFrames(Frames(p, g.FrameSize(), n), g, k), OutGeometry(k, g).FrameSize());
  }

  /** Transforming fewer frames writes a prefix of transforming more. */
  lemma MapPayloadPrefix(p: seq<Byte>, g: Geometry, m: nat, n: nat, k: Kernel)
    requires Fits(k, g) && m <= n && Mul(n, g.FrameSize()) <= |p|
    ensures Mul(m, g.FrameSize()) <= |p|
    ensures MapPayload(p, g, m, k) <= MapPayload(p, g, n, k)
  {
    var fs := g.FrameSize();
    FramesPrefix(p, fs, m, n);
    var F := Frames(p, fs, n);
    assert F == F[..m] + F[m..];
    MapFramesAppend(F[..m], F[m..], g, k);
    FlattenAppend(MapFrames(F[..m], g, k), MapFrames(F[m..], g, k));
  }

  /** Transforming batch after batch: the first `done + b` frames are the
      first `done` frames followed by the transforms of the `b` frames after them. */
  lemma MapPayloadBatch(p: seq<Byte>, g: Geometry, k: Kernel, done: nat, b: nat)
    requires Fits(k, g) && Mul(done + b, g.FrameSize()) <= |p|
    ensures Mul(done, g.FrameSize()) <= |p|
    ensures var F := Frames(p, g.FrameSize(), done + b);
            && Uniform(F[done..], g.FrameSize())
            && MapPayload(p, g, done + b, k) == MapPayload(p, g, done, k) + Flatten(MapFrames(F[done..], g, k))
  {
    var fs := g.FrameSize();
    FramesPrefix(p, fs, done, done + b);
    var F := Frames(p, fs, done + b);
    assert F == F[..done] + F[done..];
    MapFramesAppend(F[..done], F[done..], g, k);
    FlattenAppend(MapFrames(F[..done], g, k), MapFrames(F[done..], g, k));
  }

  // ---------------------------------------------------------------------
  // Frames transformed in place, one after the other

  /** The first `f` frames transformed, the others still as read: a buffer
      of frames after the kernel ran over `f` of them. */
  function MappedUpTo(F: seq<seq<Byte>>, g: Geometry, k: Kernel, f: nat): (r: seq<seq<Byte>>)
    requires Fits(k, g) && !k.CropWindow? && Uniform(F, g.FrameSize()) && f <= |F|
    ensures |r| == |F| && Uniform(r, g.FrameSize())
    ensures forall i | 0 <= i < |F| :: r[i] == if i < f then Apply(k, g, F[i]) else F[i]
  {
    seq(|F|, i requires 0 <= i < |F| => if i < f then Apply(k, g, F[i]) else F[i])
  }

  /** Before the first frame nothing is transformed. */
  lemma MappedUpToStart(F: seq<seq<Byte>>, g: Geometry, k: Kernel)
    requires Fits(k, g) && !k.CropWindow? && Uniform(F, g.FrameSize())
    ensures MappedUpTo(F, g, k, 0) == F
  {
  }

  /** Transforming frame `f` in place advances the buffer by one frame. */
  lemma MappedUpToStep(F: seq<seq<Byte>>, g: Geometry, k: Kernel, f: nat)
    requires Fits(k, g) && !k.CropWindow? && Uniform(F, g.FrameSize()) && f < |F|
    ensures MappedUpTo(F, g, k, f + 1) == MappedUpTo(F, g, k, f)[f := Apply(k, g, F[f])]
  {
  }

  /** The same, for a buffer that holds `G`, the frames transformed up to
      frame `f`: frame `f` is still untransformed there. */
  lemma MappedUpToNext(F: seq<seq<Byte>>, g: Geometry, k: Kernel, f: nat, G: seq<seq<Byte>>)
    requires Fits(k, g) && !k.CropWindow? && Uniform(F, g.FrameSize()) && f < |F|
    requires G == MappedUpTo(F, g, k, f)
    ensures G[f] == F[f]
    ensures MappedUpTo(F, g, k, f + 1) == G[f := Apply(k, g, G[f])]
  {
  }

  /** After the last frame the buffer holds every frame transformed. */
  lemma MappedUpToDone(F: seq<seq<Byte>>, g: Geometry, k: Kernel)
    requires Fits(k, g) && !k.CropWindow? && Uniform(F, g.FrameSize())
    ensures MappedUpTo(F, g, k, |F|) == MapFrames(F, g, k)
  {
  }

  /** Swapping two planes of every frame twice restores the frames. */
  lemma SwapFramesTwice(F: seq<seq<Byte>>, g: Geometry, a: Byte, b: Byte)
    requires a < g.channels && b < g.channels && Uniform(F, g.FrameSize())
    ensures MapFrames(MapFrames(F, g, SwapPlanes(a, b)), g, SwapPlanes(a, b)) == F
  {
    var twice := MapFrames(MapFrames(F, g, SwapPlanes(a, b)), g, SwapPlanes(a, b));
    forall i | 0 <= i < |F| ensures twice[i] == F[i] {
      SwapPlanesTwice(a, b, g, F[i]);
    }
  }

  /** Two kernels that agree on every frame agree on every sequence of frames. */
  lemma MapFramesAgree(F: seq<seq<Byte>>, g: Geometry, k1: Kernel, k2: Kernel)
    requires Fits(k1, g) && Fits(k2, g) && Uniform(F, g.FrameSize())
    requires forall i | 0 <= i < |F| :: Apply(k1, g, F[i]) == Apply(k2, g, F[i])
    ensures MapFrames(F, g, k1) == MapFrames(F, g, k2)
  {
  }

  /** The lookup-table clip equals the direct clip on every sequence of
      frames when `lo <= hi`. */
  lemma ClipLookupFramesAgree(F: seq<seq<Byte>>, g: Geometry, c: Byte, lo: Byte, hi: Byte)
    requires c < g.channels && Uniform(F, g.FrameSize()) && lo <= hi
    ensures MapFrames(F, g, MapPlane(c, ClampLookup(lo, hi))) == MapFrames(F, g, MapPlane(c, Clamp(lo, hi)))
  {
    forall i | 0 <= i < |F|
      ensures Apply(MapPlane(c, ClampLookup(lo, hi)), g, F[i]) == Apply(MapPlane(c, Clamp(lo, hi)), g, F[i])
    {
      ClipLookupAgrees(c, lo, hi, g, F[i]);
    }
    MapFramesAgree(F, g, MapPlane(c, ClampLookup(lo, hi)), MapPlane(c, Clamp(lo, hi)));
  }

  /** The lookup-table scale equals the direct scale on every sequence of frames. */
  lemma ScaleLookupFramesAgree(F: seq<seq<Byte>>, g: Geometry, c: Byte, factor: real)
    requires c < g.channels && Uniform(F, g.FrameSize())
    ensures MapFrames(F, g, MapPlane(c, ScaleLookup(factor))) == MapFrames(F, g, MapPlane(c, Scale(factor)))
  {
    forall i | 0 <= i < |F|
      ensures Apply(MapPlane(c, ScaleLookup(factor)), g, F[i]) == Apply(MapPlane(c, Scale(factor)), g, F[i])
    {
      ScaleLookupAgrees(c, factor, g, F[i]);
    }
    MapFramesAgree(F, g, MapPlane(c, ScaleLookup(factor)), MapPlane(c, Scale(factor)));
  }

  /** Clipping every frame twice is clipping it once, when `lo <= hi`. */
  lemma ClipFramesTwice(F: seq<seq<Byte>>, g: Geometry, c: Byte, lo: Byte, hi: Byte)
    requires c < g.channels && Uniform(F, g.FrameSize()) && lo <= hi
    ensures var k := MapPlane(c, Clamp(lo, hi));
            MapFrames(MapFrames(F, g, k), g, k) == MapFrames(F, g, k)
  {
    var k := MapPlane(c, Clamp(lo, hi));
    var once := MapFrames(F, g, k);
    var twice := MapFrames(once, g, k);
    forall i | 0 <= i < |F| ensures twice[i] == once[i] {
      ClipPlaneTwice(c, lo, hi, g, F[i]);
    }
  }

  // ---------------------------------------------------------------------
  // Frames in reverse order

  /** The frames, last first. */
  function Reversed(F: seq<seq<Byte>>): (r: seq<seq<Byte>>)
    ensures |r| == |F|
    ensures forall fs: nat | Uniform(F, fs) :: Uniform(r, fs)
  {
    seq(|F|, i requires 0 <= i < |F| => F[|F| - 1 - i])
  }

  /** Reversing twice gives back the frames. */
  lemma ReverseInvolution(F: seq<seq<Byte>>)
    ensures Reversed(Reversed(F)) == F
  {
    var rr := Reversed(Reversed(F));
    forall i | 0 <= i < |F| ensures rr[i] == F[i] {
      assert rr[i] == Reversed(F)[|F| - 1 - i];
    }
  }

  /** With an odd number of frames the middle frame stays where it is. */
  lemma ReversedMiddle(F: seq<seq<Byte>>)
    requires |F| % 2 == 1
    ensures Reversed(F)[|F| / 2] == F[|F| / 2]
  {
  }

  /** The first `i + 1` frames of the reversal are its first `i` frames
      followed by input frame `|F| - 1 - i`. */
  lemma ReversedPrefix(F: seq<seq<Byte>>, i: nat)
    requires i < |F|
    ensures Reversed(F)[..i + 1] == Reversed(F)[..i] + [F[|F| - 1 - i]]
  {
  }

  /** The first `i` and the last `i` frames exchanged pairwise, the frames
      between them as they were: the buffer of the in-place reversal after
      `i` exchanges. */
  function PartlyReversed(F: seq<seq<Byte>>, i: nat): (r: seq<seq<Byte>>)
    requires 2 * i <= |F|
    ensures |r| == |F|
    ensures forall fs: nat | Uniform(F, fs) :: Uniform(r, fs)
  {
    seq(|F|, j requires 0 <= j < |F| => if j < i || |F| - i <= j then F[|F| - 1 - j] else F[j])
  }

  /** Before any exchange nothing has moved. */
  lemma PartlyReversedStart(F: seq<seq<Byte>>)
    ensures PartlyReversed(F, 0) == F
  {
  }

  /** Exchange `i` swaps frames `i` and `|F| - 1 - i`. */
  lemma PartlyReversedStep(F: seq<seq<Byte>>, i: nat)
    requires 2 * (i + 1) <= |F|
    ensures var prev, j := PartlyReversed(F, i), |F| - 1 - i;
            PartlyReversed(F, i + 1) == prev[i := prev[j]][j := prev[i]]
  {
  }

  /** After `|F| / 2` exchanges the frames are reversed. */
  lemma PartlyReversedDone(F: seq<seq<Byte>>)
    ensures PartlyReversed(F, |F| / 2) == Reversed(F)
  {
  }

  /** The bytes every reversing transform writes when the payload holds the
      `n` frames, and nothing when it does not. */
  function ReverseOutput(p: seq<Byte>, fs: nat, n: nat): (r: seq<Byte>)
    ensures Mul(n, fs) <= |p| ==> |r| == Mul(n, fs)
    ensures Mul(n, fs) > |p| ==> r == []
  {
    if Mul(n, fs) <= |p| then
      var F := Frames(p, fs, n);
      FlattenLength(Reversed(F), fs);
      Flatten(Reversed(F))
    else []
  }

  /** Frame `k` of the reversal is input frame `n - 1 - k`. */
  lemma ReverseOutputFrame(p: seq<Byte>, fs: nat, n: nat, k: nat)
    requires Mul(n, fs) <= |p| && k < n
    ensures Mul(k, fs) + fs <= |ReverseOutput(p, fs, n)|
    ensures FrameAt(ReverseOutput(p, fs, n), k, fs) == FrameAt(p, n - 1 - k, fs)
  {
    var F := Frames(p, fs, n);
    var R := Reversed(F);
    assert R[k] == F[n - 1 - k];
    FlattenAt(R, fs, k);
  }

  // ---------------------------------------------------------------------
  // Every k-th frame

  /** The frames whose index is a multiple of `k`, in their order. */
  function Decimated(F: seq<seq<Byte>>, k: nat): (r: seq<seq<Byte>>)
    requires k > 0
    ensures |r| == KeptCount(|F|, k)
  {
    if |F| == 0 then []
    else
      var n := |F| - 1;
      Decimated(F[..n], k) + (if n % k == 0 then [F[n]] else [])
  }

  /** The kept frames have the size of the input frames. */
  lemma {:induction false} DecimatedUniform(F: seq<seq<Byte>>, k: nat, fs: nat)
    requires k > 0 && Uniform(F, fs)
    ensures Uniform(Decimated(F, k), fs)
  {
    if |F| > 0 {
      DecimatedUniform(F[..|F| - 1], k, fs);
    }
  }

  /** How many of the indices below `n` are multiples of `k`. */
  function KeptCount(n: nat, k: nat): (r: nat)
    requires k > 0
    ensures r <= n
  {
    if n == 0 then 0 else KeptCount(n - 1, k) + (if (n - 1) % k == 0 then 1 else 0)
  }

  /** One frame more keeps that frame when its index is a multiple of `k`. */
  lemma DecimatedStep(F: seq<seq<Byte>>, k: nat, i: nat)
    requires k > 0 && i < |F|
    ensures Decimated(F[..i + 1], k) == Decimated(F[..i], k) + (if i % k == 0 then [F[i]] else [])
  {
    assert F[..i + 1][..i] == F[..i];
  }

  /** One frame in `k` is kept, rounding up: the first is always kept. */
  lemma {:induction false} KeptCountIsCeiling(n: nat, k: nat)
    requires k > 0
    ensures KeptCount(n, k) == (n + k - 1) / k
  {
    if n == 0 {
      DivModUnique(k - 1, k, 0, k - 1);
    } else {
      KeptCountIsCeiling(n - 1, k);
      CeilingStep(n - 1, k);
    }
  }

  /** Rounding `(x + 1) / k` up grows by one exactly after a multiple of `k`. */
  lemma CeilingStep(x: nat, k: nat)
    requires k > 0
    ensures (x + k) / k == (x + k - 1) / k + (if x % k == 0 then 1 else 0)
  {
    var q, r := x / k, x % k;
    DivModSplit(x, k);
    if r == 0 {
      DivModUnique(x + k - 1, k, q, k - 1);
      DivModUnique(x + k, k, q + 1, 0);
    } else {
      DivModUnique(x + k - 1, k, q + 1, r - 1);
      DivModUnique(x + k, k, q + 1, r);
    }
  }

  /** The indices below `q * k` that are multiples of `k` number `q`. */
  lemma KeptCountOfMultiple(q: nat, k: nat)
    requires k > 0
    ensures KeptCount(Mul(q, k), k) == q
  {
    KeptCountIsCeiling(Mul(q, k), k);
    DivModUnique(Mul(q, k) + k - 1, k, q, k - 1);
  }

  /** Kept frame `j` is input frame `j * k`. */
  lemma {:induction false} DecimatedFrame(F: seq<seq<Byte>>, k: nat, j: nat)
    requires k > 0 && j < KeptCount(|F|, k)
    ensures Mul(j, k) < |F|
    ensures Decimated(F, k)[j] == F[Mul(j, k)]
  {
    var n := |F| - 1;
    var prev := F[..n];
    var D := Decimated(prev, k);
    assert Decimated(F, k) == D + (if n % k == 0 then [F[n]] else []);
    if j < KeptCount(n, k) {
      DecimatedFrame(prev, k, j);
      assert prev[Mul(j, k)] == F[Mul(j, k)];
    } else {
      assert n % k == 0 && j == |D|;
      DivModSplit(n, k);
      KeptCountOfMultiple(n / k, k);
    }
  }

  /** The header count `n / k` matches the kept frames exactly when `k`
      divides `n`. */
  lemma DecimatedCountMatchesHeader(n: nat, k: nat)
    requires k > 0
    ensures KeptCount(n, k) == n / k <==> n % k == 0
  {
    KeptCountIsCeiling(n, k);
    var q, r := n / k, n % k;
    DivModSplit(n, k);
    if r == 0 {
      DivModUnique(n + k - 1, k, q, k - 1);
    } else {
      MulSucc(q, k);
      DivModUnique(n + k - 1, k, q + 1, r - 1);
    }
  }

  /** Five frames at speed factor 2: three frames are kept, under a header
      that announces two. */
  lemma DecimatedFiveByTwo()
    ensures KeptCount(5, 2) == 3 && 5 / 2 == 2
  {
  }

  /** Joined frames of a prefix are a prefix of the joined frames. */
  lemma FlattenPrefix(F: seq<seq<Byte>>, G: seq<seq<Byte>>)
    requires F <= G
    ensures Flatten(F) <= Flatten(G)
  {
    assert G == F + G[|F|..];
    FlattenAppend(F, G[|F|..]);
  }

  /** The frames kept from a prefix are a prefix of the frames kept. */
  lemma {:induction false} DecimatedPrefix(F: seq<seq<Byte>>, k: nat, i: nat)
    requires k > 0 && i <= |F|
    ensures Decimated(F[..i], k) <= Decimated(F, k)
  {
    if i < |F| {
      var n := |F| - 1;
      assert F[..n][..i] == F[..i];
      DecimatedPrefix(F[..n], k, i);
    } else {
      assert F[..i] == F;
    }
  }
}
