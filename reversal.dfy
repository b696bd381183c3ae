/** The three ways the library plays a sequence backwards: `reverse` reads
    the whole payload, exchanges its frames pairwise in place and writes it
    in one go; `reverse_fast` maps the file and gathers frames from the end
    into batches; `reverse_small` seeks to each frame from the last one on
    and copies it through a one-frame buffer. All three write the frames in
    reverse order (`ReverseOutput`). */
module Reversal {
  import opened Common
  import opened Layout
  import opened Kernels
  import opened Sequences
  import opened Streams
  import opened Buffers
  import opened InPlace
  import opened Streaming

  // ---------------------------------------------------------------------
  // reverse

  /** `reverse`: the `n` frames read in one go, reversed in place and
      written in one go. A short read writes nothing. */
  method Reverse(r: Reader, w: Writer, n: nat, g: Geometry) returns (outcome: Outcome)
    requires r.pos == HeaderSize <= |r.data|
    requires w.Valid()
    modifies r, w
    ensures var p := r.data[HeaderSize..];
            Streamed(old(w.contents), ReverseOutput(p, g.FrameSize(), n), Mul(n, g.FrameSize()) <= |p|,
                     w.limit, w.contents, outcome)
  {
    var fs := g.FrameSize();
    var total := Mul(n, fs);
    ghost var p, before := r.data[HeaderSize..], w.contents;
    var buf := new Byte[total];
    var count := r.ReadFrames(buf, fs, n, 0, n);
    if count != total {
      PayloadMissing(p, fs, n, before, w.limit);
      outcome := IoFailure;
    } else {
      ghost var F := Frames(p, fs, n);
      FramesRead(buf[..], p, fs, 0, n);
      assert Frames(p, fs, 0 + n)[0..] == F;
      ReverseFrames(buf, fs, n, F);
      assert buf[..total] == buf[..];
      var wrote := w.Write(buf[..total]);
      PayloadWritten(p, fs, n, before, w.limit, buf[..total], w.contents, wrote);
      outcome := if wrote != total then IoFailure else Done;
    }
  }

  /** The exchange loop of `reverse`: the frames at byte offsets `start`
      and `end` change places through a one-frame temporary, and the two
      offsets move towards each other until they meet. */
  method ReverseFrames(buf: array<Byte>, fs: nat, n: nat, ghost F: seq<seq<Byte>>)
    requires buf.Length == Mul(n, fs) && Frames(buf[..], fs, n) == F
    modifies buf
    ensures Frames(buf[..], fs, n) == Reversed(F)
  {
    var start: int, end: int := 0, Mul(n, fs) - fs;
    ghost var i: nat := 0;
    PartlyReversedStart(F);
    while start < end
      invariant Exchanging(buf[..], fs, n, F, i, start, end)
      decreases end - start
    {
      start, end := ExchangeFrames(buf, fs, n, F, i, start, end);
      i := i + 1;
    }
    ExchangesDone(F, fs, n, i);
  }

  /** The state of the exchange loop of `reverse` after `i` exchanges: the
      offsets are those of frames `i` and `n - 1 - i`, and the buffer holds
      the frames with the first `i` pairs exchanged. */
  ghost predicate Exchanging(s: seq<Byte>, fs: nat, n: nat, F: seq<seq<Byte>>, i: nat, start: int, end: int)
  {
    && |s| == Mul(n, fs) && |F| == n && 2 * i <= n
    && start == Mul(i, fs) && end == Mul(n - i, fs) - fs
    && Frames(s, fs, n) == PartlyReversed(F, i)
  }

  /** One pass of the loop of `reverse`: frames `i` and `n - 1 - i`, at
      `start` and `end`, exchanged through a temporary frame buffer, and the
      two offsets moved one frame towards each other. */
  method ExchangeFrames(buf: array<Byte>, fs: nat, n: nat, ghost F: seq<seq<Byte>>, ghost i: nat,
                        start: int, end: int)
      returns (start': int, end': int)
    requires Exchanging(buf[..], fs, n, F, i, start, end) && start < end
    modifies buf
    ensures Exchanging(buf[..], fs, n, F, i + 1, start', end')
    ensures end' - start' < end - start
  {
    start', end' := start + fs, end - fs;
    ExchangeBounds(fs, n, i, start, end);
    ghost var s, j := buf[..], n - 1 - i;
    var temp := new Byte[fs];
    SwapViaTemp(buf, temp, start, end, fs);
    FramesSwapFrames(s, buf[..], fs, n, i, j, start, end);
    PartlyReversedStep(F, i);
    assert n - (i + 1) == j;
  }

  /** While the two offsets of `reverse` have not met, they are those of
      frames `i < n - 1 - i`, and the frames do not overlap. */
  lemma ExchangeBounds(fs: nat, n: nat, i: nat, start: int, end: int)
    requires 2 * i <= n && start == Mul(i, fs) && end == Mul(n - i, fs) - fs
    requires start < end
    ensures i + 1 < n - i
    ensures end == Mul(n - 1 - i, fs) && start + fs == Mul(i + 1, fs)
    ensures Blocks(Mul(n, fs), start, end, fs)
  {
    MulSucc(i, fs);
    MulSucc(n - 1 - i, fs);
    FrameInside(i, n - 1 - i, fs);
    FrameInside(n - 1 - i, n, fs);
  }

  /** Once the offsets have met, every pair of frames has been exchanged:
      `i` is `n / 2`, or the frames are empty and their order is invisible. */
  lemma ExchangesDone(F: seq<seq<Byte>>, fs: nat, n: nat, i: nat)
    requires |F| == n && Uniform(F, fs) && 2 * i <= n
    requires Mul(n - i, fs) - fs <= Mul(i, fs)
    ensures PartlyReversed(F, i) == Reversed(F)
  {
    if fs == 0 {
      var a, b := PartlyReversed(F, i), Reversed(F);
      forall q | 0 <= q < n ensures a[q] == b[q] {
        assert |a[q]| == 0 == |b[q]|;
      }
    } else {
      if i + 1 <= n - i - 1 {
        MulMono(i + 1, n - i - 1, fs);
        MulSucc(i, fs);
        MulSucc(n - i - 1, fs);
      }
      assert i == n / 2;
      PartlyReversedDone(F);
    }
  }

  /** Exchanging the bytes of frames `i < j` exchanges the two frames. */
  lemma {:induction false} FramesSwapFrames(s: seq<Byte>, t: seq<Byte>, fs: nat, n: nat, i: nat, j: nat, a: nat, b: nat)
    requires Mul(n, fs) <= |s| && i < j < n
    requires a == Mul(i, fs) && b == Mul(j, fs)
    requires Blocks(|s|, a, b, fs)
    requires t == SwapAt(s, a, b, fs)
    ensures Mul(n, fs) <= |t|
    ensures var G := Frames(s, fs, n); Frames(t, fs, n) == G[i := G[j]][j := G[i]]
  {
    var G, T := Frames(s, fs, n), Frames(t, fs, n);
    var H := G[i := G[j]][j := G[i]];
    forall q | 0 <= q < n ensures T[q] == H[q] {
      SwapFramesAt(s, fs, n, i, j, q);
    }
  }

  /** A short read of the whole payload: nothing is written. */
  lemma PayloadMissing(p: seq<Byte>, fs: nat, n: nat, before: seq<Byte>, limit: nat)
    requires FramesAvailable(|p|, fs, n) < n && |before| <= limit
    ensures Streamed(before, ReverseOutput(p, fs, n), Mul(n, fs) <= |p|, limit, before, IoFailure)
  {
    if Mul(n, fs) <= |p| {
      FramesAvailableAtLeast(|p|, fs, n, n);
    }
    assert before + [] == before;
  }

  /** The reversed payload written in one go. */
  lemma PayloadWritten(p: seq<Byte>, fs: nat, n: nat, before: seq<Byte>, limit: nat,
                       B: seq<Byte>, after: seq<Byte>, wrote: nat)
    requires Mul(n, fs) <= |p| && |B| == Mul(n, fs)
    requires Frames(B, fs, n) == Reversed(Frames(p, fs, n))
    requires after == Take(before + B, limit) && |before| <= limit
    requires wrote == if |before| + |B| <= limit then |B| else limit - |before|
    ensures wrote == |B| ==> Streamed(before, ReverseOutput(p, fs, n), Mul(n, fs) <= |p|, limit, after, Done)
    ensures wrote != |B| ==> Streamed(before, ReverseOutput(p, fs, n), Mul(n, fs) <= |p|, limit, after, IoFailure)
  {
    FlattenFrames(B, fs, n);
    assert B[..Mul(n, fs)] == B;
  }

  // ---------------------------------------------------------------------
  // reverse_fast

  /** `reverse_fast`: batches of up to `BatchSize` frames, gathered from the
      end of the mapped input into a buffer, last frame first, and written.
      The result of `fwrite` is not looked at, so a full output file loses
      the bytes past its limit and the transform still ends normally. */
  method ReverseFast(r: Reader, w: Writer, n: nat, g: Geometry)
    requires HeaderSize + Mul(n, g.FrameSize()) <= |r.data|
    requires w.Valid()
    modifies w
    ensures w.Valid()
    ensures w.contents == Take(old(w.contents) + ReverseOutput(r.data[HeaderSize..], g.FrameSize(), n), w.limit)
  {
    var fs := g.FrameSize();
    ghost var p, before := r.data[HeaderSize..], w.contents;
    ghost var R := Reversed(Frames(p, fs, n));
    var writeBuffer := new Byte[Mul(BatchSize, fs)];
    var batchStart: int := n - 1;
    ghost var done: nat := 0;
    assert R[..0] == [];
    while batchStart >= 0
      invariant batchStart < n
      invariant batchStart >= 0 ==> done == n - 1 - batchStart
      invariant batchStart < 0 ==> done == n
      invariant w.Valid()
      invariant ReversedSoFar(r.data, fs, n, before, w.limit, w.contents, done)
      invariant fresh(writeBuffer) && writeBuffer.Length == Mul(BatchSize, fs)
    {
      var batchEnd := batchStart - BatchSize + 1;
      if batchEnd < 0 {
        batchEnd := 0;
      }
      WriteBatch(r.data, w, writeBuffer, fs, n, batchStart, batchEnd, done, before);
      done := done + (batchStart - batchEnd + 1);
      batchStart := batchStart - BatchSize;
    }
    assert R[..n] == R;
  }

  /** The output of `reverse_fast` after the first `done` frames of the
      reversal were handed to `fwrite`: those frames behind what the file
      held, up to its limit. */
  ghost predicate ReversedSoFar(data: seq<Byte>, fs: nat, n: nat, before: seq<Byte>, limit: nat,
                                contents: seq<Byte>, done: nat)
  {
    && HeaderSize + Mul(n, fs) <= |data| && done <= n
    && contents == Take(before + Flatten(Reversed(Frames(data[HeaderSize..], fs, n))[..done]), limit)
  }

  /** One pass of the batch loop of `reverse_fast`: the batch gathered and
      handed to `fwrite`, whose result is not looked at. */
  method WriteBatch(data: seq<Byte>, w: Writer, buf: array<Byte>, fs: nat, n: nat, batchStart: nat, batchEnd: nat,
                    ghost done: nat, ghost before: seq<Byte>)
    requires batchEnd <= batchStart < n && batchStart - batchEnd < BatchSize && done == n - 1 - batchStart
    requires buf.Length == Mul(BatchSize, fs)
    requires w.Valid() && ReversedSoFar(data, fs, n, before, w.limit, w.contents, done)
    modifies w, buf
    ensures w.Valid()
    ensures ReversedSoFar(data, fs, n, before, w.limit, w.contents, done + (batchStart - batchEnd + 1))
  {
    ghost var R := Reversed(Frames(data[HeaderSize..], fs, n));
    GatherBatch(data, buf, fs, n, batchStart, batchEnd, R, done);
    var b := batchStart - batchEnd + 1;
    ghost var cur := w.contents;
    var ignored := w.Write(buf[..Mul(b, fs)]);
    BatchAppended(before, R, done, b, w.limit, cur, buf[..Mul(b, fs)], w.contents);
  }

  /** The inner loop of `reverse_fast`: frames `batchStart` down to
      `batchEnd` of the mapped payload copied one after the other to the
      start of the buffer, which then holds the next `batchStart - batchEnd + 1`
      frames of the reversal. */
  method GatherBatch(data: seq<Byte>, buf: array<Byte>, fs: nat, n: nat, batchStart: nat, batchEnd: nat,
                     ghost R: seq<seq<Byte>>, ghost done: nat)
    requires HeaderSize + Mul(n, fs) <= |data|
    requires R == Reversed(Frames(data[HeaderSize..], fs, n))
    requires batchEnd <= batchStart < n && batchStart - batchEnd < BatchSize && done == n - 1 - batchStart
    requires buf.Length == Mul(BatchSize, fs)
    modifies buf
    ensures Mul(batchStart - batchEnd + 1, fs) <= buf.Length
    ensures buf[..Mul(batchStart - batchEnd + 1, fs)] == Flatten(R[done..done + (batchStart - batchEnd + 1)])
  {
    ghost var p := data[HeaderSize..];
    var i: int := batchStart;
    ghost var k: nat := 0;
    assert R[done..done + 0] == [];
    while i >= batchEnd
      invariant batchEnd - 1 <= i <= batchStart && k == batchStart - i
      invariant Mul(k, fs) <= buf.Length
      invariant buf[..Mul(k, fs)] == Flatten(R[done..done + k])
    {
      var to, from := Mul(batchStart - i, fs), HeaderSize + Mul(i, fs);
      GatherBounds(fs, n, i, k, to, from, |data|);
      ghost var s := buf[..];
      Load(data, from, buf, to, fs);
      FrameGathered(data, p, fs, n, R, done, i, k, from, s, buf[..]);
      i, k := i - 1, k + 1;
    }
    MulMono(k, BatchSize, fs);
  }

  /** Frame `i`, gathered as the `k`-th frame of the current batch, lies
      inside the mapped file and inside the batch buffer. */
  lemma GatherBounds(fs: nat, n: nat, i: nat, k: nat, to: nat, from: nat, len: nat)
    requires i < n && k < BatchSize && HeaderSize + Mul(n, fs) <= len
    requires to == Mul(k, fs) && from == HeaderSize + Mul(i, fs)
    ensures from + fs <= len && to + fs <= Mul(BatchSize, fs)
  {
    FrameInside(i, n, fs);
    FrameInside(k, BatchSize, fs);
  }

  /** The bytes of frame `i` behind the header are frame `n - 1 - i` of the
      reversal. */
  lemma ReversedFrameBytes(data: seq<Byte>, p: seq<Byte>, fs: nat, n: nat, R: seq<seq<Byte>>, i: nat, from: nat)
    requires HeaderSize <= |data| && p == data[HeaderSize..] && Mul(n, fs) <= |p|
    requires R == Reversed(Frames(p, fs, n)) && i < n
    requires from == HeaderSize + Mul(i, fs)
    ensures from + fs <= |data|
    ensures data[from..from + fs] == R[n - 1 - i]
  {
    FrameInside(i, n, fs);
    SliceOfSlice(data, HeaderSize, |data|, Mul(i, fs), Mul(i, fs) + fs);
    FrameAtIsSlice(p, i, fs);
  }

  /** Copying frame `i` of the payload behind the `k` frames already in the
      batch buffer adds the next frame of the reversal. */
  lemma FrameGathered(data: seq<Byte>, p: seq<Byte>, fs: nat, n: nat, R: seq<seq<Byte>>,
                      done: nat, i: nat, k: nat, from: nat, s: seq<Byte>, t: seq<Byte>)
    requires HeaderSize <= |data| && p == data[HeaderSize..] && Mul(n, fs) <= |p|
    requires R == Reversed(Frames(p, fs, n)) && i < n && done + k == n - 1 - i
    requires from == HeaderSize + Mul(i, fs) && from + fs <= |data| && Mul(k, fs) + fs <= |s|
    requires s[..Mul(k, fs)] == Flatten(R[done..done + k])
    requires t == Patch(s, Mul(k, fs), data[from..from + fs])
    ensures Mul(k + 1, fs) == Mul(k, fs) + fs
    ensures t[..Mul(k + 1, fs)] == Flatten(R[done..done + (k + 1)])
  {
    var x := data[from..from + fs];
    ReversedFrameBytes(data, p, fs, n, R, i, from);
    MulSucc(k, fs);
    PatchIsSplice(s, Mul(k, fs), x);
    assert t[..Mul(k + 1, fs)] == s[..Mul(k, fs)] + x;
    var A, B := R[done..done + k], R[done..done + (k + 1)];
    assert B == A + [x];
    FlattenSnoc(A, x);
  }

  /** Writing a batch behind the batches before it, whether or not the
      file had room. */
  lemma BatchAppended(before: seq<Byte>, R: seq<seq<Byte>>, done: nat, b: nat, limit: nat,
                      cur: seq<Byte>, B: seq<Byte>, after: seq<Byte>)
    requires done + b <= |R|
    requires cur == Take(before + Flatten(R[..done]), limit)
    requires B == Flatten(R[done..done + b])
    requires after == Take(cur + B, limit)
    ensures after == Take(before + Flatten(R[..done + b]), limit)
  {
    var X, Y, Z := R[..done], R[done..done + b], R[..done + b];
    TakeAppend(before + Flatten(X), B, limit);
    assert X + Y == Z;
    FlattenAppend(X, Y);
    assert before + Flatten(X) + B == before + Flatten(Z);
  }

  // ---------------------------------------------------------------------
  // reverse_small

  /** `reverse_small`: for each frame from the last one down, a seek to it,
      a read of it and a write of it. A payload short of the last frame
      fails on the first read, before anything is written. */
  method ReverseSmall(r: Reader, w: Writer, n: nat, g: Geometry) returns (outcome: Outcome)
    requires HeaderSize <= |r.data|
    requires w.Valid()
    modifies r, w
    ensures var p := r.data[HeaderSize..];
            Streamed(old(w.contents), ReverseOutput(p, g.FrameSize(), n), Mul(n, g.FrameSize()) <= |p|,
                     w.limit, w.contents, outcome)
  {
    var fs := g.FrameSize();
    ghost var p, before := r.data[HeaderSize..], w.contents;
    ghost var out := ReverseOutput(p, fs, n);
    var buf := new Byte[fs];
    var frame: int := n - 1;
    ghost var done: nat := 0;
    assert out[..Mul(0, fs)] == [];
    while frame >= 0
      invariant -1 <= frame < n && done == n - 1 - frame
      invariant frame < n - 1 ==> Mul(n, fs) <= |p|
      invariant w.Valid()
      invariant Mul(done, fs) <= |out| && w.contents == before + out[..Mul(done, fs)]
      invariant fresh(buf) && buf.Length == fs
    {
      var at := HeaderSize + Mul(frame, fs);
      r.Seek(at);
      ghost var old_buf := buf[..];
      var count := r.Read(buf, 0, fs);
      if count != fs {
        LastFrameMissing(r.data, p, fs, n, frame, done, out, before, w.limit, w.contents);
        return IoFailure;
      }
      PatchWhole(old_buf, Chunk(r.data, at, fs));
      assert buf[..fs] == buf[..];
      FrameCopied(r.data, p, fs, n, frame, done, out, buf[..fs]);
      ghost var cur := w.contents;
      var wrote := w.Write(buf[..fs]);
      PrefixWritten(before, out, Mul(done, fs), buf[..fs], Mul(n, fs) <= |p|, cur, w.limit, w.contents, wrote);
      if wrote != fs {
        return IoFailure;
      }
      frame, done := frame - 1, done + 1;
    }
    AllCopied(p, fs, n, out, done, before, w.limit, w.contents);
    return Done;
  }

  /** A short read in `reverse_small` can only be the first one: a payload
      that holds its last frame holds them all. */
  lemma LastFrameMissing(data: seq<Byte>, p: seq<Byte>, fs: nat, n: nat, frame: nat, done: nat,
                         out: seq<Byte>, before: seq<Byte>, limit: nat, after: seq<Byte>)
    requires HeaderSize <= |data| && p == data[HeaderSize..] && frame < n && done == n - 1 - frame
    requires frame < n - 1 ==> Mul(n, fs) <= |p|
    requires |Chunk(data, HeaderSize + Mul(frame, fs), fs)| != fs
    requires out == ReverseOutput(p, fs, n) && Mul(done, fs) <= |out|
    requires after == before + out[..Mul(done, fs)] && |after| <= limit
    ensures Streamed(before, out, Mul(n, fs) <= |p|, limit, after, IoFailure)
  {
    MulSucc(frame, fs);
    if frame < n - 1 {
      FrameInside(frame, n, fs);
    }
    assert frame == n - 1 && !(Mul(n, fs) <= |p|);
    assert after == before;
  }

  /** Frame `frame`, read whole, is the next frame of the reversal. */
  lemma FrameCopied(data: seq<Byte>, p: seq<Byte>, fs: nat, n: nat, frame: nat, done: nat,
                    out: seq<Byte>, B: seq<Byte>)
    requires HeaderSize <= |data| && p == data[HeaderSize..] && frame < n && done == n - 1 - frame
    requires frame < n - 1 ==> Mul(n, fs) <= |p|
    requires B == Chunk(data, HeaderSize + Mul(frame, fs), fs) && |B| == fs
    requires out == ReverseOutput(p, fs, n)
    ensures Mul(n, fs) <= |p|
    ensures Mul(done + 1, fs) == Mul(done, fs) + |B| <= |out|
    ensures out[..Mul(done, fs) + |B|] == out[..Mul(done, fs)] + B
  {
    MulSucc(frame, fs);
    if frame == n - 1 {
      assert Mul(n, fs) <= |p|;
    }
    FrameInside(frame, n, fs);
    SliceOfSlice(data, HeaderSize, |data|, Mul(frame, fs), Mul(frame, fs) + fs);
    FrameAtIsSlice(p, frame, fs);
    ReverseOutputFrame(p, fs, n, done);
    FrameAtIsSlice(out, done, fs);
    MulSucc(done, fs);
    SliceJoin(out, Mul(done, fs), Mul(done, fs) + fs);
  }

  /** Every frame copied: the file holds the whole reversal. */
  lemma AllCopied(p: seq<Byte>, fs: nat, n: nat, out: seq<Byte>, done: nat,
                  before: seq<Byte>, limit: nat, after: seq<Byte>)
    requires done == n && (n > 0 ==> Mul(n, fs) <= |p|)
    requires out == ReverseOutput(p, fs, n) && Mul(done, fs) <= |out|
    requires after == before + out[..Mul(done, fs)] && |after| <= limit
    ensures Streamed(before, out, Mul(n, fs) <= |p|, limit, after, Done)
  {
    assert Mul(n, fs) <= |p|;
    assert out[..Mul(n, fs)] == out;
  }
}
