/** Bytes, the way a transform ends, and two sequence helpers shared by every module. */
module Common {

  /** An `unsigned char`. */
  type Byte = x: int | 0 <= x < 256

  /** How a transform ends: a normal return, a parameter rejected before any
      I/O (a message and a plain `return` in the source, or `exit(1)` for an
      aspect ratio that does not parse), or a fatal short read or short write
      (a message and `exit(1)` in the source). */
  datatype Outcome = Done | InvalidParameter | IoFailure

  datatype Option<T> = None | Some(value: T)

  /** The first `limit` elements of `s`, or all of `s` when it is shorter:
      what a file that cannot grow beyond `limit` bytes holds after `s` was
      written to it. */
  function Take<T>(s: seq<T>, limit: nat): (r: seq<T>)
    ensures r <= s
    ensures |r| == if |s| <= limit then |s| else limit
  {
    if |s| <= limit then s else s[..limit]
  }

  /** Two intended contents of which one extends the other and both overflow
      the limit leave the same bytes behind. */
  lemma TakeOfExtension<T>(a: seq<T>, b: seq<T>, limit: nat)
    requires a <= b
    requires limit < |a|
    ensures Take(a, limit) == Take(b, limit)
  {
    assert a[..limit] == b[..limit];
  }

  /** Appending to a file that already hit its limit adds nothing. */
  lemma TakeAppend<T>(a: seq<T>, b: seq<T>, limit: nat)
    ensures Take(Take(a, limit) + b, limit) == Take(a + b, limit)
  {
    if limit < |a| {
      assert (a + b)[..limit] == a[..limit];
      assert (a[..limit] + b)[..limit] == a[..limit];
    }
  }

  /** Two adjacent slices from the start join into one. */
  lemma SliceJoin<T>(s: seq<T>, a: nat, b: nat)
    requires a <= b <= |s|
    ensures s[..a] + s[a..b] == s[..b]
  {
  }

  /** A slice of a slice is a slice of the whole. */
  lemma SliceOfSlice<T>(s: seq<T>, a: nat, b: nat, i: nat, j: nat)
    requires a <= b <= |s| && i <= j <= b - a
    ensures s[a..b][i..j] == s[a + i..a + j]
  {
    var x, y := s[a..b][i..j], s[a + i..a + j];
    forall k | 0 <= k < |x| ensures x[k] == y[k] {}
  }

  /** A slice of a concatenation that lies within one of its parts. */
  lemma SliceOfAppend<T>(a: seq<T>, b: seq<T>, i: nat, j: nat)
    requires i <= j <= |a| + |b|
    ensures j <= |a| ==> (a + b)[i..j] == a[i..j]
    ensures |a| <= i ==> (a + b)[i..j] == b[i - |a|..j - |a|]
  {
    var s := a + b;
    if j <= |a| {
      var x, y := s[i..j], a[i..j];
      forall k | 0 <= k < |x| ensures x[k] == y[k] {}
    }
    if |a| <= i {
      var x, y := s[i..j], b[i - |a|..j - |a|];
      forall k | 0 <= k < |x| ensures x[k] == y[k] {}
    }
  }

  /** `s` with the bytes from `off` on replaced by `b`; the result is longer
      than `s` when `b` runs past its end, as a file written past its end is. */
  function Patch<T>(s: seq<T>, off: nat, b: seq<T>): (r: seq<T>)
    requires off <= |s|
    ensures |r| == if off + |b| <= |s| then |s| else off + |b|
  {
    var n := if off + |b| <= |s| then |s| else off + |b|;
    seq(n, k requires 0 <= k < n => if off <= k < off + |b| then b[k - off] else s[k])
  }

  /** Element `k` of a patched sequence comes from the patch inside it and
      from `s` outside it. */
  lemma PatchAt<T>(s: seq<T>, off: nat, b: seq<T>, k: nat)
    requires off <= |s| && k < |Patch(s, off, b)|
    ensures Patch(s, off, b)[k] == if off <= k < off + |b| then b[k - off] else s[k]
  {
  }

  /** The patched sequence is `s` up to `off`, then `b`, then the rest of `s`. */
  lemma PatchIsSplice<T>(s: seq<T>, off: nat, b: seq<T>)
    requires off <= |s|
    ensures Patch(s, off, b) == if off + |b| <= |s| then s[..off] + b + s[off + |b|..] else s[..off] + b
  {
  }

  /** Patching all of `s` with bytes of its length replaces it. */
  lemma PatchWhole<T>(s: seq<T>, b: seq<T>)
    requires |b| == |s|
    ensures Patch(s, 0, b) == b
  {
  }

  /** Inside the patch the patched sequence holds `b`; a block of `s` that
      does not meet the patch keeps its bytes. */
  lemma PatchSlice<T>(s: seq<T>, off: nat, b: seq<T>, at: nat, m: nat)
    requires off + |b| <= |s| && at + m <= |s|
    ensures at + m <= off || off + |b| <= at ==> Patch(s, off, b)[at..at + m] == s[at..at + m]
    ensures at == off && m == |b| ==> Patch(s, off, b)[at..at + m] == b
  {
    var l := Patch(s, off, b)[at..at + m];
    forall x | 0 <= x < m ensures l[x] == Patch(s, off, b)[at + x] {}
  }
}
