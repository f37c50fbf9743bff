/**
  What app/commands/download-piece.js and app/commands/magnet-download.js
  share about blocks: the `blocks` Map keyed by
  `${pieceIndex}-${blockOffset}`, its reassembly by `convertMapToBuffer`
  (sorted by piece index, then block offset), `validatePieceHash`, and
  the requests `downloadPiece` queues, one per block, at the offsets
  `createBlockRequest` steps through.

  `createBlockRequest` and `sha1Hash` come from module versions this model
  does not contain: they are the parameters `create` and `sha1`.
 */
module Blocks {
  import opened Bytes
  import opened Text

  datatype BlockKey = BlockKey(pieceIndex: nat, blockOffset: nat)

  /** The Map key `${pieceIndex}-${blockOffset}`. */
  function KeyText(k: BlockKey): string
  {
    Decimal(k.pieceIndex) + "-" + Decimal(k.blockOffset)
  }

  /** What the sort's comparator reads out of a key: `key.split('-').map(Number)`. */
  function KeyNumbers(text: string): seq<JsNumber>
  {
    var parts := Split(text, '-');
    seq(|parts|, i requires 0 <= i < |parts| => Number(parts[i]))
  }

  /** A key text splits back into its two numbers, so the text determines the pair. */
  lemma KeyTextReadsBack(k: BlockKey)
    ensures Split(KeyText(k), '-') == [Decimal(k.pieceIndex), Decimal(k.blockOffset)]
    ensures KeyNumbers(KeyText(k)) == [Int(k.pieceIndex), Int(k.blockOffset)]
  {
    var p := Decimal(k.pieceIndex);
    var o := Decimal(k.blockOffset);
    var s := KeyText(k);
    assert '-' !in p by {
      forall i | 0 <= i < |p| ensures p[i] != '-' { assert IsDigit(p[i]); }
    }
    assert '-' !in o by {
      forall i | 0 <= i < |o| ensures o[i] != '-' { assert IsDigit(o[i]); }
    }
    assert s[..|p|] == p;
    assert s[|p| + 1..] == o;
    IndexOfFirst(s, |p|, '-');
    assert Split(o, '-') == [o];
    assert Split(s, '-') == [p] + [o];
    NumberOfDecimal(k.pieceIndex);
    NumberOfDecimal(k.blockOffset);
  }

  /** Keying the Map by the text is keying it by the pair. */
  lemma KeyTextInjective(a: BlockKey, b: BlockKey)
    ensures KeyText(a) == KeyText(b) <==> a == b
  {
    if KeyText(a) == KeyText(b) {
      KeyTextReadsBack(a);
      KeyTextReadsBack(b);
      DecimalInjective(a.pieceIndex, b.pieceIndex);
      DecimalInjective(a.blockOffset, b.blockOffset);
    }
  }

  /** The comparator `pieceIndexA - pieceIndexB || blockOffsetA - blockOffsetB` on the numbers read back. */
  function Compare(a: BlockKey, b: BlockKey): int
  {
    var d := a.pieceIndex - b.pieceIndex;
    if d != 0 then d else a.blockOffset - b.blockOffset
  }

  /** Ascending piece index, then ascending block offset. */
  predicate Before(a: BlockKey, b: BlockKey)
  {
    a.pieceIndex < b.pieceIndex || (a.pieceIndex == b.pieceIndex && a.blockOffset < b.blockOffset)
  }

  /** The comparator orders keys by `Before`, and calls only equal keys equal. */
  lemma CompareIff(a: BlockKey, b: BlockKey)
    ensures Compare(a, b) < 0 <==> Before(a, b)
    ensures Compare(a, b) > 0 <==> Before(b, a)
    ensures Compare(a, b) == 0 <==> a == b
  {
  }

  datatype Entry = Entry(key: BlockKey, block: seq<byte>)

  /** A Map holds each key once. */
  predicate UniqueKeys(m: seq<Entry>)
  {
    forall i, j :: 0 <= i < j < |m| ==> m[i].key != m[j].key
  }

  function Lookup(m: seq<Entry>, k: BlockKey): Option<seq<byte>>
  {
    if m == [] then None else if m[0].key == k then Some(m[0].block) else Lookup(m[1..], k)
  }

  /** `blocks.set(key, block)`: an existing key keeps its place and takes the new block; a new key goes last. */
  function Set(m: seq<Entry>, k: BlockKey, block: seq<byte>): seq<Entry>
  {
    if m == [] then [Entry(k, block)]
    else if m[0].key == k then [Entry(k, block)] + m[1..]
    else [m[0]] + Set(m[1..], k, block)
  }

  /**
    After `set`, the key holds the new block, every other key what it held,
    keys stay unique, and the size grows by one exactly for a new key.
   */
  lemma {:induction false} SetSemantics(m: seq<Entry>, k: BlockKey, block: seq<byte>, other: BlockKey)
    requires UniqueKeys(m)
    ensures UniqueKeys(Set(m, k, block))
    ensures Lookup(Set(m, k, block), k) == Some(block)
    ensures other != k ==> Lookup(Set(m, k, block), other) == Lookup(m, other)
    ensures |Set(m, k, block)| == |m| + (if Lookup(m, k).Some? then 0 else 1)
    decreases |m|
  {
    if m != [] {
      assert UniqueKeys(m[1..]) by {
        forall i, j | 0 <= i < j < |m[1..]| ensures m[1..][i].key != m[1..][j].key {
          assert m[1..][i] == m[i + 1] && m[1..][j] == m[j + 1];
        }
      }
      if m[0].key == k {
        var r := Set(m, k, block);
        forall i, j | 0 <= i < j < |r| ensures r[i].key != r[j].key {
          assert r[j] == m[j];
          if i > 0 { assert r[i] == m[i]; }
        }
      } else {
        SetSemantics(m[1..], k, block, other);
        SetKeys(m[1..], k, block);
        var r := Set(m, k, block);
        forall i, j | 0 <= i < j < |r| ensures r[i].key != r[j].key {
          if i == 0 {
            assert r[j] == Set(m[1..], k, block)[j - 1];
            if r[j].key != k {
              var q := KeyIndex(m[1..], r[j].key);
              assert m[q + 1] == m[1..][q];
            }
          } else {
            assert r[i] == Set(m[1..], k, block)[i - 1];
            assert r[j] == Set(m[1..], k, block)[j - 1];
          }
        }
      }
    }
  }

  /** Where a key of `Set(m, k, block)` other than `k` sits in `m`. */
  function KeyIndex(m: seq<Entry>, k: BlockKey): (i: nat)
    requires exists j :: 0 <= j < |m| && m[j].key == k
    ensures i < |m| && m[i].key == k
  {
    if m[0].key == k then 0
    else
      assert exists j :: 0 <= j < |m[1..]| && m[1..][j].key == k by {
        var j :| 0 <= j < |m| && m[j].key == k;
        assert m[1..][j - 1] == m[j];
      }
      1 + KeyIndex(m[1..], k)
  }

  /** Every key of `Set(m, k, block)` is `k` or a key of `m`. */
  lemma {:induction false} SetKeys(m: seq<Entry>, k: BlockKey, block: seq<byte>)
    ensures forall i :: 0 <= i < |Set(m, k, block)| && Set(m, k, block)[i].key != k ==>
      exists j :: 0 <= j < |m| && m[j].key == Set(m, k, block)[i].key
    decreases |m|
  {
    if m != [] && m[0].key != k {
      SetKeys(m[1..], k, block);
      var r := Set(m, k, block);
      forall i | 0 <= i < |r| && r[i].key != k
        ensures exists j :: 0 <= j < |m| && m[j].key == r[i].key
      {
        if i == 0 {
          assert m[0].key == r[i].key;
        } else {
          assert r[i] == Set(m[1..], k, block)[i - 1];
          var j :| 0 <= j < |m[1..]| && m[1..][j].key == r[i].key;
          assert m[j + 1] == m[1..][j];
        }
      }
    } else if m != [] {
      var r := Set(m, k, block);
      forall i | 0 <= i < |r| && r[i].key != k
        ensures exists j :: 0 <= j < |m| && m[j].key == r[i].key
      {
        assert r[i] == m[i];
      }
    }
  }

  // ---------------------------------------------------------------------
  // convertMapToBuffer.
  // ---------------------------------------------------------------------

  /** Strictly ascending keys. */
  predicate Ascending(s: seq<Entry>)
  {
    forall i, j :: 0 <= i < j < |s| ==> Before(s[i].key, s[j].key)
  }

  /** `e` placed before the first entry the comparator puts after it. */
  function Insert(e: Entry, s: seq<Entry>): seq<Entry>
  {
    if s == [] then [e]
    else if Compare(s[0].key, e.key) > 0 then [e] + s
    else [s[0]] + Insert(e, s[1..])
  }

  /** `Array.from(blocks.entries()).sort(comparator)`. */
  function SortEntries(m: seq<Entry>): seq<Entry>
  {
    if m == [] then [] else Insert(m[0], SortEntries(m[1..]))
  }

  function BlocksOf(s: seq<Entry>): seq<seq<byte>>
  {
    if s == [] then [] else [s[0].block] + BlocksOf(s[1..])
  }

  /** `convertMapToBuffer()`: the blocks in comparator order, concatenated. */
  function ConvertMapToBuffer(m: seq<Entry>): seq<byte>
  {
    Concat(BlocksOf(SortEntries(m)))
  }

  /** Inserting loses or adds no entry but `e`. */
  lemma {:induction false} InsertPerm(e: Entry, s: seq<Entry>)
    ensures multiset(Insert(e, s)) == multiset(s) + multiset{e}
    decreases |s|
  {
    if s != [] && Compare(s[0].key, e.key) <= 0 {
      InsertPerm(e, s[1..]);
      assert s == [s[0]] + s[1..];
    }
  }

  lemma InsertSorted(e: Entry, s: seq<Entry>)
    requires Ascending(s) && forall x :: x in s ==> x.key != e.key
    ensures Ascending(Insert(e, s))
    decreases |s|
  {
    if s != [] {
      CompareIff(s[0].key, e.key);
      if Compare(s[0].key, e.key) <= 0 {
        InsertSortedStep(e, s);
      } else {
        var r := Insert(e, s);
        forall i, j | 0 <= i < j < |r| ensures Before(r[i].key, r[j].key) {
          if i == 0 {
            assert r[j] == s[j - 1];
            if j > 1 { assert Before(s[0].key, s[j - 1].key); }
          } else {
            assert r[i] == s[i - 1] && r[j] == s[j - 1];
          }
        }
      }
    }
  }

  /** `e` goes after the first entry: the order holds by induction on the rest. */
  lemma InsertSortedStep(e: Entry, s: seq<Entry>)
    requires Ascending(s) && forall x :: x in s ==> x.key != e.key
    requires s != [] && Compare(s[0].key, e.key) <= 0
    ensures Ascending(Insert(e, s))
    decreases |s|, 0
  {
    CompareIff(s[0].key, e.key);
    assert s[0] in s;
    assert Before(s[0].key, e.key);
    var rest := s[1..];
    assert forall x :: x in rest ==> x in s;
    assert Ascending(rest) by {
      forall i, j | 0 <= i < j < |rest| ensures Before(rest[i].key, rest[j].key) {
        assert rest[i] == s[i + 1] && rest[j] == s[j + 1];
      }
    }
    InsertSorted(e, rest);
    InsertPerm(e, rest);
    var t := Insert(e, rest);
    var r := Insert(e, s);
    assert r == [s[0]] + t;
    forall i, j | 0 <= i < j < |r| ensures Before(r[i].key, r[j].key) {
      if i == 0 {
        assert r[j] == t[j - 1];
        assert r[j] in multiset(t);
        if r[j] != e {
          assert r[j] in multiset(rest);
          var q :| 0 <= q < |rest| && rest[q] == r[j];
          assert s[q + 1] == r[j];
        }
      } else {
        assert r[i] == t[i - 1] && r[j] == t[j - 1];
      }
    }
  }

  /** The sort orders a Map's entries by ascending (piece index, block offset) and loses or adds none. */
  lemma {:induction false} SortEntriesSorted(m: seq<Entry>)
    requires UniqueKeys(m)
    ensures Ascending(SortEntries(m))
    ensures multiset(SortEntries(m)) == multiset(m)
    decreases |m|
  {
    if m != [] {
      var rest := m[1..];
      assert UniqueKeys(rest) by {
        forall i, j | 0 <= i < j < |rest| ensures rest[i].key != rest[j].key {
          assert rest[i] == m[i + 1] && rest[j] == m[j + 1];
        }
      }
      SortEntriesSorted(rest);
      var s := SortEntries(rest);
      forall x | x in s ensures x.key != m[0].key {
        assert x in multiset(rest);
        var q :| 0 <= q < |rest| && rest[q] == x;
        assert m[q + 1] == x;
      }
      InsertSorted(m[0], s);
      InsertPerm(m[0], s);
      assert m == [m[0]] + rest;
    }
  }

  /** Two ascending sequences holding the same entries are equal. */
  lemma {:induction false} AscendingUnique(a: seq<Entry>, b: seq<Entry>)
    requires Ascending(a) && Ascending(b) && multiset(a) == multiset(b)
    ensures a == b
    decreases |a|
  {
    if a != [] {
      assert b != [] by { assert a[0] in multiset(b); }
      AscendingHeads(a, b);
      assert a == [a[0]] + a[1..] && b == [b[0]] + b[1..];
      assert multiset(a[1..]) == multiset(b[1..]) by {
        assert multiset(a) == multiset{a[0]} + multiset(a[1..]);
        assert multiset(b) == multiset{a[0]} + multiset(b[1..]);
        assert multiset(a[1..]) == multiset(a) - multiset{a[0]};
        assert multiset(b[1..]) == multiset(b) - multiset{a[0]};
      }
      AscendingTail(a);
      AscendingTail(b);
      AscendingUnique(a[1..], b[1..]);
    }
  }

  /** Both start with the entry of least key. */
  lemma AscendingHeads(a: seq<Entry>, b: seq<Entry>)
    requires Ascending(a) && Ascending(b) && multiset(a) == multiset(b) && a != [] && b != []
    ensures a[0] == b[0]
  {
    assert a[0] in multiset(b) && b[0] in multiset(a);
    var i :| 0 <= i < |a| && a[i] == b[0];
    var j :| 0 <= j < |b| && b[j] == a[0];
    assert i != 0 ==> Before(a[0].key, b[0].key);
    assert j != 0 ==> Before(b[0].key, a[0].key);
  }

  lemma AscendingTail(a: seq<Entry>)
    requires Ascending(a) && a != []
    ensures Ascending(a[1..])
  {
    forall i, j | 0 <= i < j < |a[1..]| ensures Before(a[1..][i].key, a[1..][j].key) {
      assert a[1..][i] == a[i + 1] && a[1..][j] == a[j + 1];
    }
  }

  /**
    The reassembled buffer is the blocks in ascending key order: for any
    ascending listing of the Map's entries, whatever order they were set
    in, it is their concatenation.
   */
  lemma ConvertMapToBufferOrdered(m: seq<Entry>, s: seq<Entry>)
    requires UniqueKeys(m) && Ascending(s) && multiset(s) == multiset(m)
    ensures ConvertMapToBuffer(m) == Concat(BlocksOf(s))
  {
    SortEntriesSorted(m);
    AscendingUnique(SortEntries(m), s);
  }

  /** The sum of the block lengths of the entries. */
  function TotalSize(m: seq<Entry>): nat
  {
    if m == [] then 0 else |m[0].block| + TotalSize(m[1..])
  }

  lemma {:induction false} InsertSize(e: Entry, s: seq<Entry>)
    ensures TotalSize(Insert(e, s)) == |e.block| + TotalSize(s)
    decreases |s|
  {
    if s != [] && Compare(s[0].key, e.key) <= 0 {
      InsertSize(e, s[1..]);
      assert Insert(e, s)[1..] == Insert(e, s[1..]);
    } else if s != [] {
      assert Insert(e, s)[1..] == s;
    }
  }

  lemma {:induction false} ConcatSize(s: seq<Entry>)
    ensures |Concat(BlocksOf(s))| == TotalSize(s)
    decreases |s|
  {
    if s != [] {
      ConcatSize(s[1..]);
      assert BlocksOf(s)[1..] == BlocksOf(s[1..]);
    }
  }

  /** The reassembled buffer is as long as all blocks together. */
  lemma {:induction false} ConvertMapToBufferSize(m: seq<Entry>)
    ensures |ConvertMapToBuffer(m)| == TotalSize(m)
    decreases |m|
  {
    ConcatSize(SortEntries(m));
    SortSize(m);
  }

  lemma {:induction false} SortSize(m: seq<Entry>)
    ensures TotalSize(SortEntries(m)) == TotalSize(m)
    decreases |m|
  {
    if m != [] {
      SortSize(m[1..]);
      InsertSize(m[0], SortEntries(m[1..]));
    }
  }

  // ---------------------------------------------------------------------
  // validatePieceHash.
  // ---------------------------------------------------------------------

  datatype HashError = InvalidPieceHash(size: nat, expected: string, actual: string)

  /**
    `validatePieceHash(pieceBuffer, expectedPieceHash)`: the hex of the
    piece's SHA-1 digest against the hex of the expected hash.
   */
  function ValidatePieceHash(sha1: seq<byte> -> seq<byte>, pieceBuffer: seq<byte>, expectedPieceHash: seq<byte>)
    : Result<(), HashError>
  {
    var actual := LowerHex(sha1(pieceBuffer));
    var expected := LowerHex(expectedPieceHash);
    if expected == actual then Ok(()) else Err(InvalidPieceHash(|pieceBuffer|, expected, actual))
  }

  /** The piece passes exactly when its digest is the expected hash, byte for byte. */
  lemma ValidatePieceHashIff(sha1: seq<byte> -> seq<byte>, pieceBuffer: seq<byte>, expectedPieceHash: seq<byte>)
    ensures ValidatePieceHash(sha1, pieceBuffer, expectedPieceHash).Ok? <==> sha1(pieceBuffer) == expectedPieceHash
  {
    LowerHexInjective(sha1(pieceBuffer), expectedPieceHash);
  }

  // ---------------------------------------------------------------------
  // The requests downloadPiece queues.
  // ---------------------------------------------------------------------

  /** What `createBlockRequest` returns for a block offset. */
  datatype BlockRequest = BlockRequest(blockSize: int, peerMessage: seq<byte>)

  type RequestMaker = int -> BlockRequest

  /** The assumption made of `createBlockRequest`: every block it sizes has at least one byte. */
  ghost predicate PositiveSizes(create: RequestMaker)
  {
    forall offset :: create(offset).blockSize > 0
  }

  /** The request messages for the blocks from `offset` on, in offset order, while below the piece length. */
  function Requests(create: RequestMaker, pieceLength: int, offset: int): seq<seq<byte>>
    requires PositiveSizes(create)
    decreases pieceLength - offset
  {
    if offset >= pieceLength then []
    else [create(offset).peerMessage] + Requests(create, pieceLength, offset + create(offset).blockSize)
  }

  /** With 16 KiB blocks, a piece of L bytes takes ⌈L / 16384⌉ requests. */
  lemma {:induction false} RequestCount(create: RequestMaker, pieceLength: int, offset: int)
    requires forall o :: create(o).blockSize == 16384
    requires 0 <= offset
    ensures PositiveSizes(create)
    ensures |Requests(create, pieceLength, offset)| == if offset >= pieceLength then 0 else (pieceLength - offset + 16383) / 16384
    decreases pieceLength - offset
  {
    if offset < pieceLength {
      RequestCount(create, pieceLength, offset + 16384);
    }
  }
}
