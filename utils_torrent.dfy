/**
  app/utils/torrent.js: random peer ids and the info-hash pre-image (the
  bencoded info dictionary of section "metainfo files" of BEP 3) fed to
  SHA-1. `Math.random` is replaced by the sequence of indices it picks, and
  SHA-1 by a parameter.
 */
module UtilsTorrent {
  import opened Bytes
  import opened Text
  import opened UtilsEncoder
  import Bencode

  const Characters: string := "ABCDEFGHIJKLMNOPQRSTUVWXYZ0123456789"

  /** The default length of a peer id, and the size of one SHA-1 digest. */
  const DefaultPeerIdLength: nat := 20

  predicate IsPeerIdChar(c: char) { 'A' <= c <= 'Z' || '0' <= c <= '9' }

  /** Indices `Math.floor(Math.random() * 36)` can return. */
  predicate ValidPicks(picks: seq<int>)
  {
    forall i :: 0 <= i < |picks| ==> 0 <= picks[i] < |Characters|
  }

  /** The id made of the characters at the picked indices, in order. */
  function PeerIdOf(picks: seq<int>): (id: string)
    requires ValidPicks(picks)
    ensures |id| == |picks|
  {
    seq(|picks|, i requires 0 <= i < |picks| => Characters[picks[i]])
  }

  /**
    `generatePeerId(length)`: one character per loop turn, a negative length
    giving the empty string. `picks[i]` is the index the i-th call to
    `Math.random` selects.
   */
  method GeneratePeerId(length: int, picks: seq<int>) returns (result: string)
    requires ValidPicks(picks) && length <= |picks|
    ensures result == PeerIdOf(picks[..Max(length, 0)])
  {
    result := "";
    var i := 0;
    while i < length
      invariant 0 <= i <= Max(length, 0)
      invariant result == PeerIdOf(picks[..i])
    {
      result := result + [Characters[picks[i]]];
      i := i + 1;
    }
  }

  /** Every peer id has the requested length and only upper-case letters and digits. */
  lemma PeerIdShape(picks: seq<int>)
    requires ValidPicks(picks)
    ensures |PeerIdOf(picks)| == |picks|
    ensures forall i :: 0 <= i < |picks| ==> IsPeerIdChar(PeerIdOf(picks)[i])
  {
    forall i | 0 <= i < |picks| ensures IsPeerIdChar(PeerIdOf(picks)[i]) {
      var k := picks[i];
      assert PeerIdOf(picks)[i] == Characters[k];
      assert forall j :: 0 <= j < |Characters| ==> IsPeerIdChar(Characters[j]);
    }
  }

  /** The indices that make a given id: the position of each character in the alphabet. */
  function PicksFor(id: string): (picks: seq<int>)
    requires forall i :: 0 <= i < |id| ==> IsPeerIdChar(id[i])
    ensures |picks| == |id| && ValidPicks(picks)
  {
    seq(|id|, i requires 0 <= i < |id| => AlphabetIndex(id[i]))
  }

  function AlphabetIndex(c: char): (k: nat)
    requires IsPeerIdChar(c)
    ensures k < |Characters| && Characters[k] == c
  {
    if 'A' <= c <= 'Z' then c as int - 'A' as int else 26 + (c as int - '0' as int)
  }

  /** Every string of upper-case letters and digits is a possible peer id, so the alphabet is used in full. */
  lemma EveryIdReachable(id: string)
    requires forall i :: 0 <= i < |id| ==> IsPeerIdChar(id[i])
    ensures PeerIdOf(PicksFor(id)) == id
  {
  }

  /** The `info` fields the pre-image reads, and the ones it ignores. */
  datatype Info = Info(
    length: int,
    name: string,
    pieceLength: int,
    pieces: seq<byte>,
    others: seq<(seq<byte>, Bencode.Value)>)

  /** How `sha1Hash` renders a digest: `'hex'` text, or `'binary'` text (one character per byte). */
  datatype Encoding = Hex | Binary

  function Render(digest: seq<byte>, encoding: Encoding): string
  {
    match encoding
    case Hex => LowerHex(digest)
    case Binary => Bencode.Chars(digest)
  }

  /**
    The text before the raw pieces bytes. `numberOfPieces * INFO_HASH_LENGTH`
    is `(|pieces| / 20) * 20` in floating point, which gives `|pieces|` back.
   */
  function PreImageText(info: Info): string
  {
    "d"
    + (EncodeString("length") + EncodeInteger(info.length))
    + (EncodeString("name") + EncodeString(info.name))
    + (EncodeString("piece length") + EncodeInteger(info.pieceLength))
    + (EncodeString("pieces") + Decimal(|info.pieces|) + ":")
  }

  /** The bytes `calculateInfoHash` hands to SHA-1. */
  function InfoPreImage(info: Info): seq<byte>
  {
    Latin1(PreImageText(info)) + info.pieces + Latin1("e")
  }

  /** `calculateInfoHash(info, encoding)`. */
  function CalculateInfoHash(sha1: seq<byte> -> seq<byte>, info: Info, encoding: Encoding): string
  {
    Render(sha1(InfoPreImage(info)), encoding)
  }

  /** The four-entry info dictionary the pre-image stands for. */
  function InfoDictionary(info: Info): Bencode.Value
  {
    Bencode.BDict([
      (Latin1("length"), Bencode.BInt(info.length)),
      (Latin1("name"), Bencode.BStr(Latin1(info.name))),
      (Latin1("piece length"), Bencode.BInt(info.pieceLength)),
      (Latin1("pieces"), Bencode.BStr(info.pieces))])
  }

  /**
    The pre-image is exactly the bencoding of the dictionary of length, name,
    piece length and pieces, so the declared pieces length before the raw
    pieces is always `|pieces|`.
   */
  lemma PreImageIsBencodedDictionary(info: Info)
    ensures InfoPreImage(info) == Bencode.Encode(InfoDictionary(info))
  {
    DictionaryBytes(info);
    PreImageBytes(info);
  }

  /** The four key-value encodings, and the raw pieces after the last. */
  function EntryBytes(info: Info): seq<byte>
  {
    Latin1(EncodeString("length") + EncodeInteger(info.length))
    + Latin1(EncodeString("name") + EncodeString(info.name))
    + Latin1(EncodeString("piece length") + EncodeInteger(info.pieceLength))
    + Latin1(EncodeString("pieces") + Decimal(|info.pieces|) + ":")
    + info.pieces
  }

  lemma DictionaryBytes(info: Info)
    ensures Bencode.Encode(InfoDictionary(info)) == Latin1("d") + EntryBytes(info) + Latin1("e")
  {
    var d := InfoDictionary(info).entries;
    FourEntries(d);
    IntegerEntry("length", info.length);
    StringEntry("name", info.name);
    IntegerEntry("piece length", info.pieceLength);
    PiecesEntry(info.pieces);
    Nest5(Latin1(EncodeString("length") + EncodeInteger(info.length)),
          Latin1(EncodeString("name") + EncodeString(info.name)),
          Latin1(EncodeString("piece length") + EncodeInteger(info.pieceLength)),
          Latin1(EncodeString("pieces") + Decimal(|info.pieces|) + ":"),
          info.pieces);
  }

  lemma PreImageBytes(info: Info)
    ensures InfoPreImage(info) == Latin1("d") + EntryBytes(info) + Latin1("e")
  {
    Regroup("d",
      EncodeString("length") + EncodeInteger(info.length),
      EncodeString("name") + EncodeString(info.name),
      EncodeString("piece length") + EncodeInteger(info.pieceLength),
      EncodeString("pieces") + Decimal(|info.pieces|) + ":",
      info.pieces, Latin1("e"));
  }

  lemma Regroup(a: string, b: string, c: string, d: string, e: string, p: seq<byte>, z: seq<byte>)
    ensures Latin1(a + b + c + d + e) + p + z
         == Latin1(a) + (Latin1(b) + Latin1(c) + Latin1(d) + Latin1(e) + p) + z
  {
    Latin1Concat5(a, b, c, d, e);
  }

  /** One key and its value, bencoded. */
  function EntryEncoding(e: (seq<byte>, Bencode.Value)): seq<byte>
  {
    Bencode.EncodeBytes(e.0) + Bencode.Encode(e.1)
  }

  lemma FourEntries(d: seq<(seq<byte>, Bencode.Value)>)
    requires |d| == 4
    ensures Bencode.EncodeEntries(d)
         == EntryEncoding(d[0]) + (EntryEncoding(d[1]) + (EntryEncoding(d[2]) + EntryEncoding(d[3])))
  {
    EntriesStep(d[3..]);
    assert d[3..][0] == d[3] && d[3..][1..] == [];
    assert Bencode.EncodeEntries(d[3..]) == EntryEncoding(d[3]) + [] == EntryEncoding(d[3]);
    EntriesStep(d[2..]);
    assert d[2..][0] == d[2] && d[2..][1..] == d[3..];
    EntriesStep(d[1..]);
    assert d[1..][0] == d[1] && d[1..][1..] == d[2..];
    EntriesStep(d);
  }

  /** A dictionary's entries encode as the first key and value, then the rest. */
  lemma EntriesStep(d: seq<(seq<byte>, Bencode.Value)>)
    requires |d| >= 1
    ensures Bencode.EncodeEntries(d) == EntryEncoding(d[0]) + Bencode.EncodeEntries(d[1..])
  {
  }

  lemma Nest5(a: seq<byte>, b: seq<byte>, c: seq<byte>, d: seq<byte>, e: seq<byte>)
    ensures a + (b + (c + (d + e))) == a + b + c + d + e
  {
  }

  lemma IntegerEntry(key: string, n: int)
    ensures Bencode.EncodeBytes(Latin1(key)) + Bencode.Encode(Bencode.BInt(n))
         == Latin1(EncodeString(key) + EncodeInteger(n))
  {
    EncodeBufferOfText(key);
    Latin1Append(EncodeString(key), EncodeInteger(n));
  }

  lemma StringEntry(key: string, value: string)
    ensures Bencode.EncodeBytes(Latin1(key)) + Bencode.Encode(Bencode.BStr(Latin1(value)))
         == Latin1(EncodeString(key) + EncodeString(value))
  {
    EncodeBufferOfText(key);
    EncodeBufferOfText(value);
    Latin1Append(EncodeString(key), EncodeString(value));
  }

  lemma PiecesEntry(pieces: seq<byte>)
    ensures Bencode.EncodeBytes(Latin1("pieces")) + Bencode.Encode(Bencode.BStr(pieces))
         == Latin1(EncodeString("pieces") + Decimal(|pieces|) + ":") + pieces
  {
    EncodeBufferOfText("pieces");
    Latin1Append(EncodeString("pieces"), Decimal(|pieces|) + ":");
  }

  lemma Latin1Concat5(a: string, b: string, c: string, d: string, e: string)
    ensures Latin1(a + b + c + d + e) == Latin1(a) + Latin1(b) + Latin1(c) + Latin1(d) + Latin1(e)
  {
    Latin1Append(a + b + c + d, e);
    Latin1Append(a + b + c, d);
    Latin1Append(a + b, c);
    Latin1Append(a, b);
  }

  /** The keys appear in strictly ascending byte order, as BEP 3 requires of a dictionary. */
  lemma KeysAscending(info: Info)
    ensures Bencode.KeysSorted(InfoDictionary(info).entries)
  {
    var d := InfoDictionary(info).entries;
    assert Bencode.LexLess(d[0].0, d[1].0);
    assert Bencode.LexLess(d[1].0, d[2].0);
    assert Bencode.LexLess(d[2].0[5..], d[3].0[5..]);
    assert Bencode.LexLess(d[2].0, d[3].0) by {
      assert d[2].0[..5] == d[3].0[..5];
      PrefixThenLess(d[2].0, d[3].0, 5);
    }
  }

  lemma {:induction false} PrefixThenLess(a: seq<byte>, b: seq<byte>, k: nat)
    requires k <= |a| && k <= |b| && a[..k] == b[..k]
    requires Bencode.LexLess(a[k..], b[k..])
    ensures Bencode.LexLess(a, b)
  {
    if k > 0 {
      assert a[0] == a[..k][0] == b[..k][0] == b[0];
      assert a[1..][..k - 1] == a[1..k] == a[..k][1..] == b[..k][1..] == b[1..][..k - 1];
      assert a[1..][k - 1..] == a[k..] && b[1..][k - 1..] == b[k..];
      PrefixThenLess(a[1..], b[1..], k - 1);
    }
  }

  /**
    Only length, name, piece length and pieces enter the digest: any other
    fields of `info` are left out of the pre-image, and equal fields give
    equal digests.
   */
  lemma DigestIgnoresOtherFields(sha1: seq<byte> -> seq<byte>, a: Info, b: Info, encoding: Encoding)
    requires a.length == b.length && a.name == b.name
    requires a.pieceLength == b.pieceLength && a.pieces == b.pieces
    ensures InfoPreImage(a) == InfoPreImage(b)
    ensures CalculateInfoHash(sha1, a, encoding) == CalculateInfoHash(sha1, b, encoding)
  {
  }

  /** The 'binary' rendering keeps every digest byte: writing it back as 'binary' text gives the digest. */
  lemma BinaryRenderingKeepsBytes(digest: seq<byte>)
    ensures Latin1(Render(digest, Binary)) == digest
    ensures |Render(digest, Hex)| == 2 * |digest|
  {
    Bencode.Latin1OfChars(digest);
  }
}
