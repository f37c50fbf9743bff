/**
  Byte buffers as Node's `Buffer` treats them: bytes, big-endian integer
  fields, clamped slicing and in-place copies into a fixed-size buffer.
 */
module Bytes {

  /** One octet of a Node `Buffer`. */
  type byte = x: int | 0 <= x < 256

  datatype Option<+T> = None | Some(value: T)

  /** A value, or the exception the JavaScript code would throw instead. */
  datatype Result<+T, +E> = Ok(value: T) | Err(error: E)

  const TwoTo32: int := 0x1_0000_0000

  function Min(a: int, b: int): int { if a <= b then a else b }

  function Max(a: int, b: int): int { if a <= b then b else a }

  /** `buf.readUInt32BE(0)`: the first four bytes as a big-endian unsigned integer. */
  function Be32(b: seq<byte>): (n: nat)
    requires |b| >= 4
    ensures n < TwoTo32
  {
    ((b[0] as int * 0x100 + b[1]) * 0x100 + b[2]) * 0x100 + b[3]
  }

  /** `buf.readUInt16BE(0)`: the first two bytes as a big-endian unsigned integer. */
  function Be16(b: seq<byte>): (n: nat)
    requires |b| >= 2
    ensures n < 0x1_0000
  {
    b[0] as int * 0x100 + b[1]
  }

  /** The four bytes `buf.writeUInt32BE(n, offset)` stores; Node throws for any `n` outside this range. */
  function U32Bytes(n: int): (b: seq<byte>)
    requires 0 <= n < TwoTo32
    ensures |b| == 4
  {
    [n / 0x100_0000, (n / 0x1_0000) % 0x100, (n / 0x100) % 0x100, n % 0x100]
  }

  /** Reading back what `writeUInt32BE` wrote gives the number that was written. */
  lemma U32RoundTrip(n: int)
    requires 0 <= n < TwoTo32
    ensures Be32(U32Bytes(n)) == n
  {
    var b := U32Bytes(n);
    assert b[0] as int * 0x100 + b[1] == n / 0x1_0000;
    assert (b[0] as int * 0x100 + b[1]) * 0x100 + b[2] == n / 0x100;
  }

  /** Every four-byte field is what `writeUInt32BE` writes for its own value. */
  lemma U32BytesOfBe32(b: seq<byte>)
    requires |b| == 4
    ensures U32Bytes(Be32(b)) == b
  {
    var n := Be32(b);
    assert n / 0x100 == (b[0] as int * 0x100 + b[1]) * 0x100 + b[2];
    assert n / 0x1_0000 == b[0] as int * 0x100 + b[1];
    assert n / 0x100_0000 == b[0];
  }

  /**
    Where a `Buffer.subarray`/`slice` bound lands: a negative bound counts
    back from the end, and every bound is clamped into `[0, len]`.
   */
  function Clamp(i: int, len: nat): (r: nat)
    ensures r <= len
    ensures 0 <= i <= len ==> r == i
  {
    if i < 0 then (if len + i < 0 then 0 else len + i)
    else if i > len then len
    else i
  }

  /** `buf.subarray(start, end)` (and the deprecated `buf.slice`): never fails, may be empty. */
  function Subarray(b: seq<byte>, start: int, end: int): (r: seq<byte>)
    ensures |r| <= |b|
    ensures 0 <= start <= end <= |b| ==> r == b[start..end]
  {
    var s := Clamp(start, |b|);
    var e := Clamp(end, |b|);
    if s <= e then b[s..e] else []
  }

  /** `buf.subarray(start)`: from `start` (counted back from the end when negative) to the end. */
  function SubarrayFrom(b: seq<byte>, start: int): (r: seq<byte>)
    ensures 0 <= start <= |b| ==> r == b[start..]
  {
    Subarray(b, start, |b|)
  }

  /**
    Text written with the 'binary' (latin1) encoding: each character
    becomes the low byte of its code. For ASCII text this is also what
    `Buffer.from(text)` (UTF-8) produces.
   */
  function Latin1(s: string): (r: seq<byte>)
    ensures |r| == |s|
  {
    seq(|s|, i requires 0 <= i < |s| => (s[i] as int) % 256)
  }

  lemma Latin1Append(a: string, b: string)
    ensures Latin1(a + b) == Latin1(a) + Latin1(b)
  {
  }

  /** `Buffer.concat(chunks)`. */
  function Concat(chunks: seq<seq<byte>>): seq<byte>
  {
    if chunks == [] then [] else chunks[0] + Concat(chunks[1..])
  }

  lemma {:induction false} ConcatAppend(chunks: seq<seq<byte>>, chunk: seq<byte>)
    ensures Concat(chunks + [chunk]) == Concat(chunks) + chunk
    decreases |chunks|
  {
    if chunks == [] {
      assert [] + [chunk] == [chunk];
    } else {
      assert (chunks + [chunk])[1..] == chunks[1..] + [chunk];
      ConcatAppend(chunks[1..], chunk);
    }
  }

  /**
    The buffer after `src.copy(dst, at)` or `dst.write(src, at)`: as many
    bytes of `src` as fit after `at` replace those of `dst`; the length of
    `dst` never changes.
   */
  function Overwrite(dst: seq<byte>, at: nat, src: seq<byte>): (r: seq<byte>)
    requires at <= |dst|
    ensures |r| == |dst|
  {
    var n := Min(|src|, |dst| - at);
    dst[..at] + src[..n] + dst[at + n..]
  }

  /** Byte `k` after an overwrite: from `src` where it was written, from `dst` elsewhere. */
  lemma OverwriteAt(dst: seq<byte>, at: nat, src: seq<byte>, k: nat)
    requires at <= |dst| && k < |dst|
    ensures Overwrite(dst, at, src)[k] == if at <= k < at + |src| then src[k - at] else dst[k]
  {
    var n := Min(|src|, |dst| - at);
    var r := Overwrite(dst, at, src);
    if k < at {
      assert r[k] == dst[..at][k];
    } else if k < at + n {
      assert r[k] == src[..n][k - at];
    } else {
      assert r[k] == dst[at + n..][k - at - n];
    }
  }

  /** `b` cut or zero-padded to exactly `n` bytes: what a field of a zero-filled buffer holds after a write. */
  function Fit(b: seq<byte>, n: nat): (r: seq<byte>)
    ensures |r| == n
    ensures forall k :: 0 <= k < n ==> r[k] == (if k < |b| then b[k] else 0)
  {
    if |b| >= n then b[..n] else b + seq(n - |b|, _ => 0)
  }

  /** Copying `src` over a zero-filled buffer of `n` bytes leaves `src` cut or zero-padded to `n`. */
  lemma OverwriteZeros(n: nat, src: seq<byte>)
    ensures Overwrite(seq(n, _ => 0), 0, src) == Fit(src, n)
  {
    var r := Overwrite(seq(n, _ => 0), 0, src);
    forall k | 0 <= k < n
      ensures r[k] == Fit(src, n)[k]
    {
      OverwriteAt(seq(n, _ => 0), 0, src, k);
    }
  }

  /** Copies `src` into `dst` at `at` in place, truncating at the end of `dst`, as `Buffer.copy` does. */
  method CopyInto(dst: array<byte>, at: nat, src: seq<byte>) returns (n: nat)
    requires at <= dst.Length
    modifies dst
    ensures n == Min(|src|, dst.Length - at)
    ensures dst[..] == Overwrite(old(dst[..]), at, src)
    ensures forall k :: at <= k < at + n ==> dst[k] == src[k - at]
    ensures forall k :: 0 <= k < dst.Length && !(at <= k < at + n) ==> dst[k] == old(dst[k])
  {
    n := Min(|src|, dst.Length - at);
    var i := 0;
    while i < n
      invariant 0 <= i <= n
      invariant forall k :: 0 <= k < at ==> dst[k] == old(dst[k])
      invariant forall k :: at <= k < at + i ==> dst[k] == src[k - at]
      invariant forall k :: at + i <= k < dst.Length ==> dst[k] == old(dst[k])
    {
      dst[at + i] := src[i];
      i := i + 1;
    }
    assert dst[..] == Overwrite(old(dst[..]), at, src);
  }

  /** Fills `dst[from..to]` with `value` in place, as `buf.fill(value, from, to)` does. */
  method FillRange(dst: array<byte>, value: byte, from: nat, to: nat)
    requires from <= to <= dst.Length
    modifies dst
    ensures forall k :: from <= k < to ==> dst[k] == value
    ensures forall k :: 0 <= k < dst.Length && !(from <= k < to) ==> dst[k] == old(dst[k])
  {
    var i := from;
    while i < to
      invariant from <= i <= to
      invariant forall k :: from <= k < i ==> dst[k] == value
      invariant forall k :: 0 <= k < dst.Length && !(from <= k < i) ==> dst[k] == old(dst[k])
    {
      dst[i] := value;
      i := i + 1;
    }
  }

  /** A fresh zero-filled buffer, as `Buffer.alloc(n)` returns. */
  method Alloc(n: nat) returns (b: array<byte>)
    ensures fresh(b) && b.Length == n
    ensures forall k :: 0 <= k < n ==> b[k] == 0
  {
    b := new byte[n](_ => 0);
  }
}
