/**
  app/commands/info.js: `splitPieces`, which cuts the concatenated piece
  hashes into consecutive slices of `hashLength` bytes.
 */
module InfoCommand {
  import opened Bytes

  /** Consecutive slices of `h` bytes, the last one possibly shorter. */
  function Chunks(p: seq<byte>, h: nat): seq<seq<byte>>
    requires h > 0
    decreases |p|
  {
    if p == [] then [] else [p[..Min(h, |p|)]] + Chunks(p[Min(h, |p|)..], h)
  }

  /**
    `splitPieces(pieces, hashLength)`: `pieces.subarray(i, i + hashLength)`
    for i = 0, hashLength, 2·hashLength, … below `|pieces|`. The loop only
    ends for a positive `hashLength` (or empty input).
   */
  method SplitPieces(pieces: seq<byte>, hashLength: int) returns (result: seq<seq<byte>>)
    requires hashLength > 0 || |pieces| == 0
    ensures |pieces| == 0 ==> result == []
    ensures hashLength > 0 ==> result == Chunks(pieces, hashLength)
  {
    result := [];
    var i := 0;
    while i < |pieces|
      invariant 0 <= i
      invariant hashLength > 0 ==> result + Chunks(pieces[Min(i, |pieces|)..], hashLength) == Chunks(pieces, hashLength)
      invariant |pieces| == 0 ==> result == []
      decreases |pieces| - i
    {
      var rest := pieces[i..];
      assert rest[..Min(hashLength, |rest|)] == Subarray(pieces, i, i + hashLength);
      assert rest[Min(hashLength, |rest|)..] == pieces[Min(i + hashLength, |pieces|)..];
      result := result + [Subarray(pieces, i, i + hashLength)];
      i := i + hashLength;
    }
  }

  function Flatten(chunks: seq<seq<byte>>): seq<byte>
  {
    if chunks == [] then [] else chunks[0] + Flatten(chunks[1..])
  }

  /** Concatenating the slices gives back the input. */
  lemma {:induction false} ChunksFlatten(p: seq<byte>, h: nat)
    requires h > 0
    ensures Flatten(Chunks(p, h)) == p
    decreases |p|
  {
    if p != [] {
      var c := Chunks(p, h);
      assert c[1..] == Chunks(p[Min(h, |p|)..], h);
      ChunksFlatten(p[Min(h, |p|)..], h);
    }
  }

  /** Every slice but the last has exactly `h` bytes; the last has between 1 and `h`. */
  lemma {:induction false} ChunkSizes(p: seq<byte>, h: nat)
    requires h > 0
    ensures forall k :: 0 <= k < |Chunks(p, h)| - 1 ==> |Chunks(p, h)[k]| == h
    ensures |Chunks(p, h)| > 0 ==> 1 <= |Chunks(p, h)[|Chunks(p, h)| - 1]| <= h
    decreases |p|
  {
    if p != [] {
      var c := Chunks(p, h);
      var tail := Chunks(p[Min(h, |p|)..], h);
      assert c == [p[..Min(h, |p|)]] + tail;
      ChunkSizes(p[Min(h, |p|)..], h);
      if |p| > h {
        assert tail != [];
      }
    }
  }

  /**
    There are ⌈|p| / h⌉ slices: the smallest count c with c·h ≥ |p|, so
    (c - 1)·h < |p| ≤ c·h, and none for empty input.
   */
  lemma {:induction false} ChunkCount(p: seq<byte>, h: nat)
    requires h > 0
    ensures |Chunks(p, h)| == 0 <==> p == []
    ensures p != [] ==> (|Chunks(p, h)| - 1) * h < |p| <= |Chunks(p, h)| * h
    decreases |p|
  {
    if p != [] {
      var rest := p[Min(h, |p|)..];
      ChunkCount(rest, h);
      var c := |Chunks(rest, h)|;
      assert |Chunks(p, h)| == c + 1;
      assert (c + 1) * h == c * h + h;
      if rest != [] {
        assert (c - 1) * h + h == c * h;
      }
    }
  }

  /** Slice k covers bytes [k·h, min((k+1)·h, |p|)), in order. */
  lemma {:induction false} ChunkAt(p: seq<byte>, h: nat, k: nat)
    requires h > 0 && k < |Chunks(p, h)|
    ensures k * h < |p|
    ensures Chunks(p, h)[k] == p[k * h..Min(k * h + h, |p|)]
    decreases k
  {
    var c := Chunks(p, h);
    if k > 0 {
      var rest := p[Min(h, |p|)..];
      assert c[k] == Chunks(rest, h)[k - 1];
      ChunkAt(rest, h, k - 1);
      assert |p| > h;
      assert (k - 1) * h + h == k * h;
      assert rest[(k - 1) * h..Min((k - 1) * h + h, |rest|)] == p[k * h..Min(k * h + h, |p|)];
    }
  }
}
