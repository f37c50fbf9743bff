/**
  Bencoded values over bytes, as the protocol carries them (section
  "bencoding" of BEP 3): the canonical byte encoding, key order, and a
  reader for byte strings. The values a decoder returns in the
  peer-protocol handlers are of this type.
 */
module Bencode {
  import opened Bytes
  import opened Text
  import Encoder

  datatype Value =
    | BInt(n: int)
    | BStr(bytes: seq<byte>)
    | BList(items: seq<Value>)
    | BDict(entries: seq<(seq<byte>, Value)>)

  /** `<length>:<bytes>`, the length written in ASCII decimal. */
  function EncodeBytes(b: seq<byte>): seq<byte>
  {
    Latin1(Decimal(|b|) + ":") + b
  }

  /** The bencoding of a value, dictionary entries in the order given. */
  function Encode(v: Value): seq<byte>
    decreases v, 1
  {
    match v
    case BInt(n) => Latin1("i" + Decimal(n) + "e")
    case BStr(b) => EncodeBytes(b)
    case BList(items) => Latin1("l") + EncodeItems(items) + Latin1("e")
    case BDict(entries) => Latin1("d") + EncodeEntries(entries) + Latin1("e")
  }

  function EncodeItems(items: seq<Value>): seq<byte>
    decreases items, 0
  {
    if items == [] then [] else Encode(items[0]) + EncodeItems(items[1..])
  }

  function EncodeEntries(entries: seq<(seq<byte>, Value)>): seq<byte>
    decreases entries, 0
  {
    if entries == [] then []
    else
      var entry := entries[0];
      assert entry in entries && entry.1 < entry;
      EncodeBytes(entry.0) + Encode(entry.1) + EncodeEntries(entries[1..])
  }

  /** Byte-wise lexicographic order, the order BEP 3 requires of dictionary keys. */
  predicate LexLess(a: seq<byte>, b: seq<byte>)
  {
    if a == [] then b != []
    else if b == [] then false
    else a[0] < b[0] || (a[0] == b[0] && LexLess(a[1..], b[1..]))
  }

  /** Keys strictly ascending, as BEP 3 demands of a dictionary. */
  predicate KeysSorted(entries: seq<(seq<byte>, Value)>)
  {
    forall i :: 0 < i < |entries| ==> LexLess(entries[i - 1].0, entries[i].0)
  }

  /** The value of property `key`: the last entry with that key, as assigning them in order leaves it. */
  function Get(entries: seq<(seq<byte>, Value)>, key: seq<byte>): (r: Option<Value>)
    ensures r.Some? <==> exists i :: 0 <= i < |entries| && entries[i].0 == key
    ensures r.Some? ==> exists i :: 0 <= i < |entries| && entries[i] == (key, r.value)
  {
    if entries == [] then None
    else
      var last := entries[|entries| - 1];
      if last.0 == key then Some(last.1)
      else
        var r := Get(entries[..|entries| - 1], key);
        assert forall i :: 0 <= i < |entries| - 1 ==> entries[..|entries| - 1][i] == entries[i];
        r
  }

  /**
    `value[key]` on what a decoder returned: a property of a dictionary,
    and `None` on anything else. JavaScript gives undefined there too,
    except for `length` of a byte string or a list, which is a number.
   */
  function Property(v: Value, key: string): Option<Value>
  {
    if v.BDict? then Get(v.entries, Latin1(key)) else None
  }

  /** `value.hasOwnProperty(key)`. */
  predicate HasProperty(v: Value, key: string)
  {
    Property(v, key).Some?
  }

  // ---------------------------------------------------------------------
  // Reading a byte string back.
  // ---------------------------------------------------------------------

  /** Bytes seen as the characters with those codes (the 'binary' decoding). */
  function Chars(b: seq<byte>): (s: string)
    ensures |s| == |b|
  {
    seq(|b|, i requires 0 <= i < |b| => b[i] as char)
  }

  predicate IsLatin1(s: string) { forall i :: 0 <= i < |s| ==> (s[i] as int) < 256 }

  lemma Latin1OfChars(b: seq<byte>)
    ensures Latin1(Chars(b)) == b
  {
  }

  lemma CharsOfLatin1(s: string)
    requires IsLatin1(s)
    ensures Chars(Latin1(s)) == s
  {
  }

  lemma CharsAppend(a: seq<byte>, b: seq<byte>)
    ensures Chars(a + b) == Chars(a) + Chars(b)
  {
  }

  lemma DecimalIsLatin1(n: int)
    ensures IsLatin1(Decimal(n))
  {
    var s := Decimal(n);
    forall i | 0 <= i < |s| ensures (s[i] as int) < 256 {
      if n >= 0 { assert IsDigit(s[i]); }
      else if i > 0 { assert s[i] == s[1..][i - 1]; assert IsDigit(s[i]); }
    }
  }

  /** `<length>:<bytes>` at the front of `s`: the bytes and what follows them. */
  function ReadBytes(s: seq<byte>): Option<(seq<byte>, seq<byte>)>
  {
    match Encoder.ReadString(Chars(s))
    case None => None
    case Some((str, rest)) => Some((Latin1(str), Latin1(rest)))
  }

  /** Reading an encoded byte string gives back exactly those bytes and leaves the rest. */
  lemma ReadEncodedBytes(b: seq<byte>, rest: seq<byte>)
    ensures ReadBytes(EncodeBytes(b) + rest) == Some((b, rest))
  {
    var prefix := Decimal(|b|) + ":";
    DecimalIsLatin1(|b|);
    assert IsLatin1(prefix);
    CharsOfLatin1(prefix);
    CharsAppend(Latin1(prefix), b + rest);
    CharsAppend(b, rest);
    assert EncodeBytes(b) + rest == Latin1(prefix) + (b + rest);
    Encoder.ReadEncodedString(Chars(b), Chars(rest));
    assert Chars(EncodeBytes(b) + rest) == Decimal(|Chars(b)|) + ":" + Chars(b) + Chars(rest);
    Latin1OfChars(b);
    Latin1OfChars(rest);
  }
}
