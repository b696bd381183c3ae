/** The two files a transform works on, and `memcpy` between buffers. */
module Streams {
  import opened Common
  import opened Layout

  /** The bytes an `fread` of `n` bytes at file position `at` delivers from a
      file holding `data`: all `n` when the file is long enough, what is left
      otherwise, nothing at or past the end. */
  function Chunk(data: seq<Byte>, at: nat, n: nat): (r: seq<Byte>)
    ensures |r| <= n
    ensures at + n <= |data| ==> |r| == n
    ensures at + |r| <= |data| ==> r == data[at..at + |r|]
    ensures |r| < n ==> |data| <= at + |r|
    ensures at <= |data| ==> (|r| == n <==> at + n <= |data|)
  {
    if at + n <= |data| then data[at..at + n]
    else if at < |data| then data[at..]
    else []
  }

  /** Reading frame `i` of `n` at its place behind the header: a whole
      frame is frame `i` of the payload, and a short read means the payload
      holds exactly `i` whole frames of the `n`. */
  lemma ReadFrame(data: seq<Byte>, fs: nat, n: nat, i: nat, got: seq<Byte>)
    requires HeaderSize <= |data| && i < n && Mul(i, fs) <= |data| - HeaderSize
    requires got == Chunk(data, HeaderSize + Mul(i, fs), fs)
    ensures |got| == fs ==> Mul(i, fs) + fs <= |data| - HeaderSize
    ensures |got| == fs ==> got == FrameAt(data[HeaderSize..], i, fs)
    ensures |got| != fs ==> FramesAvailable(|data| - HeaderSize, fs, n) == i
  {
    var p := data[HeaderSize..];
    if |got| == fs {
      SliceOfSlice(data, HeaderSize, |data|, Mul(i, fs), Mul(i, fs) + fs);
    } else {
      FramesAvailableUnique(|p|, fs, n, i);
    }
  }

  /** Reading frames `done` to `done + b - 1` of `n` in one go: a whole
      read is those frames of the payload, and a short read means the
      payload holds at least `done` but fewer than `done + b` whole frames. */
  lemma ReadBatch(data: seq<Byte>, fs: nat, n: nat, done: nat, b: nat, got: seq<Byte>)
    requires HeaderSize <= |data| && done + b <= n && Mul(done, fs) <= |data| - HeaderSize
    requires got == Chunk(data, HeaderSize + Mul(done, fs), Mul(b, fs))
    ensures Mul(done, fs) + Mul(b, fs) == Mul(done + b, fs)
    ensures |got| == Mul(b, fs) ==> Mul(done + b, fs) <= |data| - HeaderSize
    ensures |got| == Mul(b, fs) ==> got == data[HeaderSize..][Mul(done, fs)..Mul(done + b, fs)]
    ensures |got| != Mul(b, fs) ==> done <= FramesAvailable(|data| - HeaderSize, fs, n) < done + b
  {
    var p := data[HeaderSize..];
    MulAdd(done, b, fs);
    FramesAvailableAtLeast(|p|, fs, n, done);
    if |got| == Mul(b, fs) {
      SliceOfSlice(data, HeaderSize, |data|, Mul(done, fs), Mul(done + b, fs));
    } else if done + b <= FramesAvailable(|p|, fs, n) {
      MulMono(done + b, FramesAvailable(|p|, fs, n), fs);
    }
  }

  /** An input file opened for reading: its bytes and the file position. */
  class Reader {
    const data: seq<Byte>
    var pos: nat

    constructor (data: seq<Byte>, pos: nat)
      ensures this.data == data && this.pos == pos
    {
      this.data := data;
      this.pos := pos;
    }

    /** `fseek(file, p, SEEK_SET)`; a position past the end is allowed. */
    method Seek(p: nat)
      modifies this
      ensures pos == p
    {
      pos := p;
    }

    /** `fread(buf + off, 1, n, file)`: copies what the file still holds of
        the next `n` bytes into the buffer and advances past them. */
    method Read(buf: array<Byte>, off: nat, n: nat) returns (count: nat)
      requires off + n <= buf.Length
      modifies this, buf
      ensures count == |Chunk(data, old(pos), n)|
      ensures buf[..] == Patch(old(buf[..]), off, Chunk(data, old(pos), n))
      ensures pos == old(pos) + count
    {
      var got := Chunk(data, pos, n);
      forall i | off <= i < off + |got| {
        buf[i] := got[i - off];
      }
      assert buf[..] == Patch(old(buf[..]), off, got);
      count := |got|;
      pos := pos + count;
    }

    /** The `fread` of frames `done` to `done + b - 1` of `n`, `fs` bytes
        each, into the start of `buf`, from their place behind the header:
        a whole read leaves those frames of the payload in the buffer, and a
        short read means the payload holds at least `done` but fewer than
        `done + b` whole frames. */
    method ReadFrames(buf: array<Byte>, fs: nat, n: nat, done: nat, b: nat) returns (count: nat)
      requires HeaderSize <= |data| && pos == HeaderSize + Mul(done, fs) && done + b <= n
      requires Mul(done, fs) <= |data| - HeaderSize && Mul(b, fs) <= buf.Length
      modifies this, buf
      ensures Mul(done, fs) + Mul(b, fs) == Mul(done + b, fs)
      ensures count == Mul(b, fs) ==>
                && Mul(done + b, fs) <= |data| - HeaderSize
                && buf[..Mul(b, fs)] == data[HeaderSize..][Mul(done, fs)..Mul(done + b, fs)]
                && pos == HeaderSize + Mul(done + b, fs)
      ensures count != Mul(b, fs) ==> done <= FramesAvailable(|data| - HeaderSize, fs, n) < done + b
    {
      ghost var got, before := Chunk(data, pos, Mul(b, fs)), buf[..];
      count := Read(buf, 0, Mul(b, fs));
      ReadBatch(data, fs, n, done, b, got);
      if count == Mul(b, fs) {
        PatchSlice(before, 0, got, 0, count);
        assert buf[..count] == buf[0..count];
      }
    }
  }

  /** An output file opened for writing, its position at its end: every
      transform only appends to it. `limit` is the size the file cannot grow
      beyond (a full disk or a file-size limit); an `fwrite` that would cross
      it writes only the bytes that fit, which is how a short write happens. */
  class Writer {
    var contents: seq<Byte>
    const limit: nat

    ghost predicate Valid()
      reads this
    {
      |contents| <= limit
    }

    constructor (contents: seq<Byte>, limit: nat)
      requires |contents| <= limit
      ensures Valid()
      ensures this.contents == contents && this.limit == limit
    {
      this.contents := contents;
      this.limit := limit;
    }

    /** `fwrite(b, 1, |b|, file)`: appends as many bytes of `b` as fit under
        the limit and returns their number. */
    method Write(b: seq<Byte>) returns (count: nat)
      requires Valid()
      modifies this
      ensures Valid()
      ensures count == if |old(contents)| + |b| <= limit then |b| else limit - |old(contents)|
      ensures contents == Take(old(contents) + b, limit)
    {
      count := if |contents| + |b| <= limit then |b| else limit - |contents|;
      contents := Take(contents + b, limit);
    }

    /** `fseek(file, 0, SEEK_SET)` and then `fwrite(b, 1, |b|, file)` over a
        file exactly as long as `b`: the file holds `b` instead, and the
        position is at its end again. */
    method Rewrite(b: seq<Byte>) returns (count: nat)
      requires Valid() && |b| == |contents|
      modifies this
      ensures Valid()
      ensures count == |b| && contents == b
    {
      count := |b|;
      contents := b;
    }
  }

  /** `memcpy(dst + dstOff, src + srcOff, len)` out of a file mapped into
      memory read-only: `src` is the file's bytes. */
  method Load(src: seq<Byte>, srcOff: nat, dst: array<Byte>, dstOff: nat, len: nat)
    requires srcOff + len <= |src| && dstOff + len <= dst.Length
    modifies dst
    ensures dst[..] == Patch(old(dst[..]), dstOff, src[srcOff..srcOff + len])
  {
    forall i | dstOff <= i < dstOff + len {
      dst[i] := src[srcOff + i - dstOff];
    }
    assert dst[..] == Patch(old(dst[..]), dstOff, src[srcOff..srcOff + len]);
  }

  /** `memcpy(dst + dstOff, src + srcOff, len)`. The ranges must not overlap,
      unless they are the same range, which copies every byte onto itself. */
  method Copy(src: array<Byte>, srcOff: nat, dst: array<Byte>, dstOff: nat, len: nat)
    requires srcOff + len <= src.Length && dstOff + len <= dst.Length
    requires src == dst ==> srcOff == dstOff || srcOff + len <= dstOff || dstOff + len <= srcOff
    modifies dst
    ensures dst[..] == Patch(old(dst[..]), dstOff, old(src[srcOff..srcOff + len]))
  {
    ghost var moved := src[srcOff..srcOff + len];
    forall i | dstOff <= i < dstOff + len {
      dst[i] := src[srcOff + i - dstOff];
    }
    assert dst[..] == Patch(old(dst[..]), dstOff, moved);
  }
}
