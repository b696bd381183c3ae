/** The binary sequence format: an 11-byte packed header followed by
    back-to-back frames, each stored channel plane by channel plane and
    row-major within a plane. */
module Layout {
  import opened Common

  /** `sizeof(VideoMetadata)` under `#pragma pack(1)`: 8 + 1 + 1 + 1. */
  const HeaderSize: nat := 11

  /** The frames `swap_channel` reads, swaps and writes in one go, and the
      frames `reverse_fast` gathers before each write. */
  const BatchSize: nat := 1024

  const Int64Min: int := -0x8000_0000_0000_0000
  const Int64Max: int := 0x7FFF_FFFF_FFFF_FFFF
  const TwoTo64: nat := 0x1_0000_0000_0000_0000

  /** `VideoMetadata`: the frame count, then channels, height and width. */
  datatype Header = Header(numFrames: int, channels: Byte, height: Byte, width: Byte)
  {
    ghost predicate Valid() { Int64Min <= numFrames <= Int64Max }
  }

  function Pow256(k: nat): (r: nat)
    ensures r > 0
  {
    if k == 0 then 1 else 256 * Pow256(k - 1)
  }

  /** The `k` low-order bytes of `u`, least significant first. */
  function LittleEndian(u: nat, k: nat): (r: seq<Byte>)
    ensures |r| == k
  {
    if k == 0 then [] else [u % 256] + LittleEndian(u / 256, k - 1)
  }

  function FromLittleEndian(s: seq<Byte>): (u: nat)
    ensures u < Pow256(|s|)
  {
    if s == [] then 0 else s[0] + 256 * FromLittleEndian(s[1..])
  }

  lemma {:induction false} LittleEndianRoundTrip(u: nat, k: nat)
    requires u < Pow256(k)
    ensures FromLittleEndian(LittleEndian(u, k)) == u
  {
    if k > 0 {
      var s := LittleEndian(u, k);
      assert s[1..] == LittleEndian(u / 256, k - 1);
      LittleEndianRoundTrip(u / 256, k - 1);
    }
  }

  /** An `int64_t` as it lies in memory on a little-endian machine. */
  function EncodeInt64(x: int): (r: seq<Byte>)
    requires Int64Min <= x <= Int64Max
    ensures |r| == 8
  {
    LittleEndian(if x < 0 then x + TwoTo64 else x, 8)
  }

  function DecodeInt64(s: seq<Byte>): (x: int)
    requires |s| == 8
    ensures Int64Min <= x <= Int64Max
  {
    var u := FromLittleEndian(s);
    assert Pow256(8) == TwoTo64;
    if u > Int64Max then u - TwoTo64 else u
  }

  lemma Int64RoundTrip(x: int)
    requires Int64Min <= x <= Int64Max
    ensures DecodeInt64(EncodeInt64(x)) == x
  {
    assert Pow256(8) == TwoTo64;
    LittleEndianRoundTrip(if x < 0 then x + TwoTo64 else x, 8);
  }

  /** The packed header's bytes. */
  function EncodeHeader(h: Header): (r: seq<Byte>)
    requires h.Valid()
    ensures |r| == HeaderSize
  {
    EncodeInt64(h.numFrames) + [h.channels, h.height, h.width]
  }

  /** Reading a header: fewer than 11 bytes is an incomplete read. */
  function DecodeHeader(s: seq<Byte>): (r: Option<Header>)
    ensures r.Some? <==> |s| >= HeaderSize
    ensures r.Some? ==> r.value.Valid()
  {
    if |s| < HeaderSize then None
    else Some(Header(DecodeInt64(s[..8]), s[8], s[9], s[10]))
  }

  /** The header codec adds no padding and loses no field. */
  lemma HeaderRoundTrip(h: Header, rest: seq<Byte>)
    requires h.Valid()
    ensures DecodeHeader(EncodeHeader(h) + rest) == Some(h)
  {
    var s := EncodeHeader(h) + rest;
    assert s[..8] == EncodeInt64(h.numFrames);
    Int64RoundTrip(h.numFrames);
  }

  /** A sequence file whose header announces exactly the whole frames that
      follow it. */
  predicate Consistent(file: seq<Byte>)
  {
    match DecodeHeader(file)
    case None => false
    case Some(h) =>
      h.numFrames >= 0 && |file| - HeaderSize == Mul(h.numFrames, Geometry(h.channels, h.height, h.width).FrameSize())
  }

  /** A header followed by `rest` is consistent exactly when `rest` is as
      long as the frames the header announces. */
  lemma ConsistentIff(h: Header, rest: seq<Byte>)
    requires h.Valid() && h.numFrames >= 0
    ensures Consistent(EncodeHeader(h) + rest)
            <==> |rest| == Mul(h.numFrames, Geometry(h.channels, h.height, h.width).FrameSize())
  {
    HeaderRoundTrip(h, rest);
  }

  /** A quotient is at most the number divided. */
  lemma DivAtMost(n: nat, k: nat)
    requires k > 0
    ensures n / k <= n
  {
    DivModSplit(n, k);
    MulMono(1, k, n / k);
  }

  // ---------------------------------------------------------------------
  // Products

  /** `a * b` for sizes and offsets. Every product of the model is written
      through this function, and the facts about offsets the proofs need are
      the lemmas below, called where they are used. */
  function Mul(a: nat, b: nat): nat
  {
    a * b
  }

  lemma MulSucc(k: nat, fs: nat)
    ensures Mul(k + 1, fs) == Mul(k, fs) + fs
  {
  }

  lemma MulAdd(a: nat, b: nat, c: nat)
    ensures Mul(a + b, c) == Mul(a, c) + Mul(b, c)
  {
  }

  lemma MulMono(a: nat, b: nat, c: nat)
    requires a <= b
    ensures Mul(a, c) <= Mul(b, c)
  {
    MulAdd(a, b - a, c);
  }

  /** `q * k + r` with `r < k` determines `q` and `r`. */
  lemma MulRemUnique(q: nat, r: nat, d: nat, e: nat, k: nat)
    requires r < k && e < k && Mul(q, k) + r == Mul(d, k) + e
    ensures q == d && r == e
  {
    if q != 0 && d != 0 {
      MulRemUnique(q - 1, r, d - 1, e, k);
    }
  }

  /** Products with the same positive factor are equal only for equal
      factors. */
  lemma MulCancel(a: nat, b: nat, c: nat)
    requires c > 0
    ensures Mul(a, c) == Mul(b, c) <==> a == b
  {
    if Mul(a, c) == Mul(b, c) {
      MulRemUnique(a, 0, b, 0, c);
    }
  }

  /** Every number splits into a quotient and a remainder. */
  lemma DivModSplit(x: nat, k: nat)
    requires k > 0
    ensures x == Mul(x / k, k) + x % k
  {
  }

  /** Quotient and remainder are the only ones: `x == q * k + r` with
      `r < k` fixes `x / k` and `x % k`. */
  lemma DivModUnique(x: nat, k: nat, q: nat, r: nat)
    requires r < k && x == Mul(q, k) + r
    ensures x / k == q && x % k == r
  {
    DivModSplit(x, k);
    MulRemUnique(q, r, x / k, x % k, k);
  }

  /** Frame `k` of `n` frames lies inside the payload of `n` frames. */
  lemma FrameInside(k: nat, n: nat, fs: nat)
    requires k < n
    ensures Mul(k, fs) + fs <= Mul(n, fs)
  {
    MulMono(k + 1, n, fs);
  }

  /** Every frame of `n` frames lies inside the payload of `n` frames. */
  lemma AllFramesInside(n: nat, fs: nat)
    ensures forall i: nat | i < n :: Mul(i, fs) + fs <= Mul(n, fs)
  {
    forall i: nat | i < n ensures Mul(i, fs) + fs <= Mul(n, fs) {
      FrameInside(i, n, fs);
    }
  }

  // ---------------------------------------------------------------------
  // Frames and planes

  /** The dimensions every frame of a sequence shares. */
  datatype Geometry = Geometry(channels: Byte, height: Byte, width: Byte)
  {
    /** `height * width`: the bytes of one channel plane. */
    function PlaneSize(): nat { Mul(height, width) }
    /** `height * width * channels`: the bytes of one frame. */
    function FrameSize(): nat { Mul(channels, PlaneSize()) }
  }

  /** Plane `ch` of a frame with more than `ch` channels lies inside it. */
  lemma PlaneInside(ch: nat, g: Geometry)
    requires ch < g.channels
    ensures Mul(ch, g.PlaneSize()) + g.PlaneSize() <= g.FrameSize()
  {
    FrameInside(ch, g.channels, g.PlaneSize());
  }

  /** Channel plane `ch` of a frame. */
  function Plane(f: seq<Byte>, g: Geometry, ch: nat): (r: seq<Byte>)
    requires |f| == g.FrameSize() && ch < g.channels
    ensures |r| == g.PlaneSize()
  {
    PlaneInside(ch, g);
    f[Mul(ch, g.PlaneSize())..Mul(ch, g.PlaneSize()) + g.PlaneSize()]
  }

  /** Where the pixel in row `row`, column `col` lies in a row-major plane
      `width` bytes wide. */
  function PixelIndex(row: nat, col: nat, width: nat): nat
  {
    Mul(row, width) + col
  }

  /** A pixel inside a `height` x `width` plane lies inside its bytes. */
  lemma PixelInside(row: nat, col: nat, height: nat, width: nat)
    requires row < height && col < width
    ensures PixelIndex(row, col, width) < Mul(height, width)
  {
    FrameInside(row, height, width);
  }

  /** Frame `k` of a payload whose frames are `fs` bytes each. */
  function FrameAt(p: seq<Byte>, k: nat, fs: nat): (f: seq<Byte>)
    requires Mul(k, fs) + fs <= |p|
    ensures |f| == fs
  {
    seq(fs, x requires 0 <= x < fs => p[Mul(k, fs) + x])
  }

  /** A frame is the slice of the payload it occupies. */
  lemma FrameAtIsSlice(p: seq<Byte>, k: nat, fs: nat)
    requires Mul(k, fs) + fs <= |p|
    ensures FrameAt(p, k, fs) == p[Mul(k, fs)..Mul(k, fs) + fs]
  {
  }

  /** A frame of a payload keeps its bytes when more frames are appended. */
  lemma FrameOfAppendLeft(prev: seq<Byte>, last: seq<Byte>, fs: nat, n: nat, i: nat)
    requires |prev| == Mul(n, fs) && i < n
    ensures Mul(i, fs) + fs <= |prev|
    ensures FrameAt(prev + last, i, fs) == FrameAt(prev, i, fs)
  {
    FrameInside(i, n, fs);
    SliceOfAppend(prev, last, Mul(i, fs), Mul(i, fs) + fs);
  }

  /** The frame appended after `n` frames is frame `n` of the result. */
  lemma FrameOfAppendRight(prev: seq<Byte>, last: seq<Byte>, fs: nat, n: nat)
    requires |prev| == Mul(n, fs) && |last| == fs
    ensures Mul(n, fs) + fs == |prev + last|
    ensures FrameAt(prev + last, n, fs) == last
  {
    SliceOfAppend(prev, last, Mul(n, fs), Mul(n, fs) + fs);
  }

  /** How many whole frames of `fs` bytes, at most `n`, a payload of `len`
      bytes holds: reading frame after frame, the read of frame `m` is the
      first that comes up short. */
  function FramesAvailable(len: nat, fs: nat, n: nat): (m: nat)
    ensures m <= n && Mul(m, fs) <= len
    ensures m < n ==> len < Mul(m, fs) + fs
  {
    if fs == 0 then n
    else
      var q := len / fs;
      assert Mul(q, fs) <= len < Mul(q, fs) + fs;
      if q < n then q else MulMono(n, q, fs); n
  }

  /** A payload that holds `k <= n` whole frames holds at least `k` of the `n`. */
  lemma FramesAvailableAtLeast(len: nat, fs: nat, n: nat, k: nat)
    requires k <= n && Mul(k, fs) <= len
    ensures k <= FramesAvailable(len, fs, n)
  {
    var m := FramesAvailable(len, fs, n);
    if m < k {
      FrameInside(m, k, fs);
    }
  }

  /** The count of whole frames is determined by the three conditions above. */
  lemma FramesAvailableUnique(len: nat, fs: nat, n: nat, k: nat)
    requires k <= n && Mul(k, fs) <= len
    requires k < n ==> len < Mul(k, fs) + fs
    ensures k == FramesAvailable(len, fs, n)
  {
    var m := FramesAvailable(len, fs, n);
    if k < m {
      FrameInside(k, m, fs);
    } else if m < k {
      FrameInside(m, k, fs);
    }
  }

  // ---------------------------------------------------------------------
  // Frames and payloads

  /** Every frame of `F` is `fs` bytes long. */
  predicate Uniform(F: seq<seq<Byte>>, fs: nat)
  {
    forall i | 0 <= i < |F| :: |F[i]| == fs
  }

  /** The first `n` frames of the payload `p`, `fs` bytes each. */
  function Frames(p: seq<Byte>, fs: nat, n: nat): (F: seq<seq<Byte>>)
    requires Mul(n, fs) <= |p|
    ensures |F| == n && Uniform(F, fs)
    ensures forall i | 0 <= i < n :: Mul(i, fs) + fs <= |p| && F[i] == FrameAt(p, i, fs)
  {
    AllFramesInside(n, fs);
    seq(n, i requires 0 <= i < n => FrameAt(p, i, fs))
  }

  /** The frames back to back, as they lie in a file. */
  function Flatten(F: seq<seq<Byte>>): (r: seq<Byte>)
  {
    if |F| == 0 then [] else Flatten(F[..|F| - 1]) + F[|F| - 1]
  }

  /** `|F|` frames of `fs` bytes take `|F| * fs` bytes. */
  lemma {:induction false} FlattenLength(F: seq<seq<Byte>>, fs: nat)
    requires Uniform(F, fs)
    ensures |Flatten(F)| == Mul(|F|, fs)
  {
    if |F| > 0 {
      FlattenLength(F[..|F| - 1], fs);
    }
  }

  /** Joining is compatible with concatenation. */
  lemma {:induction false} FlattenAppend(F: seq<seq<Byte>>, G: seq<seq<Byte>>)
    ensures Flatten(F + G) == Flatten(F) + Flatten(G)
  {
    if |G| > 0 {
      assert (F + G)[..|F + G| - 1] == F + G[..|G| - 1];
      FlattenAppend(F, G[..|G| - 1]);
    } else {
      assert F + G == F;
    }
  }

  /** Joining one frame more appends it. */
  lemma FlattenSnoc(F: seq<seq<Byte>>, f: seq<Byte>)
    ensures Flatten(F + [f]) == Flatten(F) + f
  {
    assert (F + [f])[..|F|] == F;
  }

  /** Frame `i` of the joined frames is `F[i]`. */
  lemma {:induction false} FlattenAt(F: seq<seq<Byte>>, fs: nat, i: nat)
    requires Uniform(F, fs) && i < |F|
    ensures Mul(i, fs) + fs <= |Flatten(F)|
    ensures FrameAt(Flatten(F), i, fs) == F[i]
  {
    var n := |F|;
    var prev := F[..n - 1];
    FlattenLength(prev, fs);
    if i < n - 1 {
      FlattenAt(prev, fs, i);
      FrameOfAppendLeft(Flatten(prev), F[n - 1], fs, n - 1, i);
    } else {
      FrameOfAppendRight(Flatten(prev), F[n - 1], fs, n - 1);
    }
  }

  /** Splitting the first `n` frames off a payload and joining them again
      gives the payload's first `n * fs` bytes. */
  lemma {:induction false} FlattenFrames(p: seq<Byte>, fs: nat, n: nat)
    requires Mul(n, fs) <= |p|
    ensures Flatten(Frames(p, fs, n)) == p[..Mul(n, fs)]
  {
    if n > 0 {
      var F := Frames(p, fs, n);
      FramesPrefix(p, fs, n - 1, n);
      FlattenFrames(p, fs, n - 1);
      assert Flatten(F) == Flatten(F[..n - 1]) + F[n - 1];
      SliceJoin(p, Mul(n - 1, fs), Mul(n, fs));
    }
  }

  /** Joining frames and splitting them again gives the frames back. */
  lemma FramesOfFlatten(F: seq<seq<Byte>>, fs: nat)
    requires Uniform(F, fs)
    ensures Mul(|F|, fs) <= |Flatten(F)|
    ensures Frames(Flatten(F), fs, |F|) == F
  {
    FlattenLength(F, fs);
    var G := Frames(Flatten(F), fs, |F|);
    forall i | 0 <= i < |F| ensures G[i] == F[i] {
      FlattenAt(F, fs, i);
    }
  }

  /** Fewer frames of a payload are a prefix of more of them. */
  lemma FramesPrefix(p: seq<Byte>, fs: nat, m: nat, n: nat)
    requires m <= n && Mul(n, fs) <= |p|
    ensures Mul(m, fs) <= |p|
    ensures Frames(p, fs, m) == Frames(p, fs, n)[..m]
  {
    MulMono(m, n, fs);
  }

  /** A frame inside a prefix of the payload is the frame of the payload. */
  lemma FrameOfPrefix(p: seq<Byte>, len: nat, fs: nat, i: nat)
    requires Mul(i, fs) + fs <= len <= |p|
    ensures FrameAt(p[..len], i, fs) == FrameAt(p, i, fs)
  {
    SliceOfSlice(p, 0, len, Mul(i, fs), Mul(i, fs) + fs);
  }
}
