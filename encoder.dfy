/**
  The recursive bencode encoder (app/encoder.js) over JavaScript values,
  and a reference reader of the bencode grammar (section "bencoding" of
  BEP 3) that undoes it.
 */
module Encoder {
  import opened Bytes
  import opened Text
  import Decoder

  /**
    The JavaScript values `encode` distinguishes. Numbers are integers; an
    object is the list `Object.entries` gives; `Unsupported` stands for
    undefined, booleans, functions, symbols and bigints.
   */
  datatype Js =
    | JStr(s: string)
    | JInt(n: int)
    | JArr(items: seq<Js>)
    | JObj(entries: seq<(string, Js)>)
    | JNull
    | Unsupported

  /** The one exception `encode` throws: 'Unsupported value type'. */
  datatype EncodeError = UnsupportedValueType

  /** `encode(value)`. */
  function Encode(v: Js): Result<string, EncodeError>
    decreases v, 1
  {
    match v
    case JStr(s) => Ok(Decimal(|s|) + ":" + s)
    case JInt(n) => Ok("i" + Decimal(n) + "e")
    case JArr(items) =>
      (match EncodeItems(items)
       case Ok(body) => Ok("l" + body + "e")
       case Err(e) => Err(e))
    case JObj(entries) =>
      (match EncodeEntries(entries)
       case Ok(body) => Ok("d" + body + "e")
       case Err(e) => Err(e))
    case JNull => Err(UnsupportedValueType)
    case Unsupported => Err(UnsupportedValueType)
  }

  /** `value.map(encode).join('')`: the first element that throws makes the whole call throw. */
  function EncodeItems(items: seq<Js>): Result<string, EncodeError>
    decreases items, 0
  {
    if items == [] then Ok("")
    else match Encode(items[0])
      case Err(e) => Err(e)
      case Ok(head) =>
        (match EncodeItems(items[1..])
         case Err(e) => Err(e)
         case Ok(tail) => Ok(head + tail))
  }

  /** `Object.entries(value).map(([k, v]) => encode(k) + encode(v)).join('')`, in entry order. */
  function EncodeEntries(entries: seq<(string, Js)>): Result<string, EncodeError>
    decreases entries, 0
  {
    if entries == [] then Ok("")
    else
      var entry := entries[0];
      assert entry in entries && entry.1 < entry;
      match Encode(entry.1)
      case Err(e) => Err(e)
      case Ok(value) =>
        (match EncodeEntries(entries[1..])
         case Err(e) => Err(e)
         case Ok(tail) => Ok(Decimal(|entries[0].0|) + ":" + entries[0].0 + value + tail))
  }

  /** A value with no null and no unsupported value anywhere inside it. */
  predicate Encodable(v: Js)
    decreases v, 1
  {
    match v
    case JStr(_) => true
    case JInt(_) => true
    case JArr(items) => AllEncodable(items)
    case JObj(entries) => EntriesEncodable(entries)
    case JNull => false
    case Unsupported => false
  }

  predicate AllEncodable(items: seq<Js>)
    decreases items, 0
  {
    items == [] || (Encodable(items[0]) && AllEncodable(items[1..]))
  }

  predicate EntriesEncodable(entries: seq<(string, Js)>)
    decreases entries, 0
  {
    if entries == [] then true
    else
      var entry := entries[0];
      assert entry in entries && entry.1 < entry;
      Encodable(entry.1) && EntriesEncodable(entries[1..])
  }

  /** `encode` succeeds exactly on values without null or unsupported parts; otherwise it throws. */
  lemma {:induction false} EncodeSucceedsIffEncodable(v: Js)
    ensures Encode(v).Ok? <==> Encodable(v)
    ensures Encode(v).Err? ==> Encode(v) == Err(UnsupportedValueType)
    decreases v, 1
  {
    match v
    case JArr(items) => ItemsSucceedIffEncodable(items);
    case JObj(entries) => EntriesSucceedIffEncodable(entries);
    case _ =>
  }

  lemma {:induction false} ItemsSucceedIffEncodable(items: seq<Js>)
    ensures EncodeItems(items).Ok? <==> AllEncodable(items)
    ensures EncodeItems(items).Err? ==> EncodeItems(items) == Err(UnsupportedValueType)
    decreases items, 0
  {
    if items != [] {
      EncodeSucceedsIffEncodable(items[0]);
      ItemsSucceedIffEncodable(items[1..]);
    }
  }

  lemma {:induction false} EntriesSucceedIffEncodable(entries: seq<(string, Js)>)
    ensures EncodeEntries(entries).Ok? <==> EntriesEncodable(entries)
    ensures EncodeEntries(entries).Err? ==> EncodeEntries(entries) == Err(UnsupportedValueType)
    decreases entries, 0
  {
    if entries != [] {
      var entry := entries[0];
      assert entry in entries && entry.1 < entry;
      EncodeSucceedsIffEncodable(entry.1);
      EntriesSucceedIffEncodable(entries[1..]);
    }
  }

  // ---------------------------------------------------------------------
  // A reference reader for the bencode grammar, over the same text.
  // ---------------------------------------------------------------------

  /** How many decimal digits `s` starts with. */
  function LeadingDigits(s: string): (n: nat)
    ensures n <= |s| && AllDigits(s[..n])
    ensures n < |s| ==> !IsDigit(s[n])
  {
    if s != [] && IsDigit(s[0]) then 1 + LeadingDigits(s[1..]) else 0
  }

  /** `<length>:<characters>`, returning the string and what follows it. */
  function ReadString(s: string): (r: Option<(string, string)>)
    ensures r.Some? ==> |r.value.1| < |s|
  {
    var n := LeadingDigits(s);
    if n == 0 || n == |s| || s[n] != ':' then None
    else
      var len := DigitsValue(s[..n]);
      if |s| < n + 1 + len then None
      else Some((s[n + 1..n + 1 + len], s[n + 1 + len..]))
  }

  /** `<digits>e`: the magnitude of an integer and the text after its closing 'e'. */
  function ReadMagnitude(t: string): (r: Option<(nat, string)>)
    ensures r.Some? ==> |r.value.1| < |t|
  {
    var n := LeadingDigits(t);
    if n == 0 || n == |t| || t[n] != 'e' then None
    else Some((DigitsValue(t[..n]), t[n + 1..]))
  }

  /** `[-]<digits>e` after the leading 'i'. */
  function ReadInteger(s: string): (r: Option<(int, string)>)
    ensures r.Some? ==> |r.value.1| < |s|
  {
    if s != [] && s[0] == '-' then
      (match ReadMagnitude(s[1..])
       case None => None
       case Some((m, rest)) => Some((-(m as int), rest)))
    else
      (match ReadMagnitude(s)
       case None => None
       case Some((m, rest)) => Some((m as int, rest)))
  }

  /** One bencoded value at the front of `s`, and the text after it. */
  function ReadValue(s: string): (r: Option<(Js, string)>)
    ensures r.Some? ==> |r.value.1| < |s|
    decreases |s|, 1
  {
    if s == [] then None
    else if s[0] == 'i' then
      (match ReadInteger(s[1..])
       case None => None
       case Some((n, rest)) => Some((JInt(n), rest)))
    else if s[0] == 'l' then
      (match ReadItems(s[1..])
       case None => None
       case Some((items, rest)) => Some((JArr(items), rest)))
    else if s[0] == 'd' then
      (match ReadEntries(s[1..])
       case None => None
       case Some((entries, rest)) => Some((JObj(entries), rest)))
    else
      (match ReadString(s)
       case None => None
       case Some((str, rest)) => Some((JStr(str), rest)))
  }

  /** List elements up to and including the closing 'e'. */
  function ReadItems(s: string): (r: Option<(seq<Js>, string)>)
    ensures r.Some? ==> |r.value.1| < |s|
    decreases |s|, 2
  {
    if s == [] then None
    else if s[0] == 'e' then Some(([], s[1..]))
    else match ReadValue(s)
      case None => None
      case Some((v, rest)) =>
        (match ReadItems(rest)
         case None => None
         case Some((vs, after)) => Some(([v] + vs, after)))
  }

  /** Dictionary entries, in the order written, up to and including the closing 'e'. */
  function ReadEntries(s: string): (r: Option<(seq<(string, Js)>, string)>)
    ensures r.Some? ==> |r.value.1| < |s|
    decreases |s|, 2
  {
    if s == [] then None
    else if s[0] == 'e' then Some(([], s[1..]))
    else match ReadString(s)
      case None => None
      case Some((key, rest)) =>
        (match ReadValue(rest)
         case None => None
         case Some((v, rest2)) =>
           (match ReadEntries(rest2)
            case None => None
            case Some((es, after)) => Some(([(key, v)] + es, after))))
  }

  lemma {:induction false} LeadingDigitsOfDigits(n: nat, rest: string)
    requires rest == [] || !IsDigit(rest[0])
    ensures LeadingDigits(Digits(n) + rest) == |Digits(n)|
    ensures (Digits(n) + rest)[..|Digits(n)|] == Digits(n)
  {
    var d := Digits(n);
    LeadingDigitsOfDigitsRun(d, rest);
  }

  lemma {:induction false} LeadingDigitsOfDigitsRun(d: string, rest: string)
    requires AllDigits(d)
    requires rest == [] || !IsDigit(rest[0])
    ensures LeadingDigits(d + rest) == |d|
    ensures (d + rest)[..|d|] == d
  {
    if d != [] {
      assert (d + rest)[1..] == d[1..] + rest;
      LeadingDigitsOfDigitsRun(d[1..], rest);
    }
  }

  /** The reader takes back a string `encode` wrote, and exactly its characters. */
  lemma ReadEncodedString(s: string, rest: string)
    ensures ReadString(Decimal(|s|) + ":" + s + rest) == Some((s, rest))
  {
    var d := Digits(|s|);
    var t := d + ":" + s + rest;
    assert t == d + (":" + s + rest);
    LeadingDigitsOfDigits(|s|, ":" + s + rest);
    DigitsValueOfDigits(|s|);
    assert t[|d| + 1..|d| + 1 + |s|] == s;
    assert t[|d| + 1 + |s|..] == rest;
  }

  lemma ReadEncodedMagnitude(m: nat, rest: string)
    ensures ReadMagnitude(Digits(m) + "e" + rest) == Some((m, rest))
  {
    var d := Digits(m);
    var t := d + "e" + rest;
    assert t == d + ("e" + rest);
    LeadingDigitsOfDigits(m, "e" + rest);
    DigitsValueOfDigits(m);
    assert t[|d| + 1..] == rest;
  }

  /** The reader takes back an integer `encode` wrote. */
  lemma ReadEncodedInteger(n: int, rest: string)
    ensures ReadInteger(Decimal(n) + "e" + rest) == Some((n, rest))
  {
    if n < 0 {
      ReadEncodedMagnitude(-n, rest);
      ReadNegative(Digits(-n), -n, rest);
      assert Decimal(n) + "e" + rest == "-" + Digits(-n) + "e" + rest;
    } else {
      ReadEncodedMagnitude(n, rest);
      ReadNonNegative(Digits(n), n, rest);
    }
  }

  lemma ReadNegative(d: string, m: nat, rest: string)
    requires ReadMagnitude(d + "e" + rest) == Some((m, rest))
    ensures ReadInteger("-" + d + "e" + rest) == Some((-(m as int), rest))
  {
    assert ("-" + d + "e" + rest)[1..] == d + "e" + rest;
  }

  lemma ReadNonNegative(d: string, m: nat, rest: string)
    requires ReadMagnitude(d + "e" + rest) == Some((m, rest))
    requires d != [] && IsDigit(d[0])
    ensures ReadInteger(d + "e" + rest) == Some((m, rest))
  {
    assert (d + "e" + rest)[0] == d[0];
  }

  /** A string encoding is read as a string value. */
  lemma ReadValueOfString(s: string, rest: string)
    ensures ReadValue(Decimal(|s|) + ":" + s + rest) == Some((JStr(s), rest))
  {
    ReadEncodedString(s, rest);
    var t := Decimal(|s|) + ":" + s + rest;
    assert t[0] == Decimal(|s|)[0];
    assert IsDigit(t[0]);
  }

  /** An integer encoding is read as an integer value. */
  lemma ReadValueOfInteger(n: int, rest: string)
    ensures ReadValue("i" + Decimal(n) + "e" + rest) == Some((JInt(n), rest))
  {
    ReadEncodedInteger(n, rest);
    assert ("i" + Decimal(n) + "e" + rest)[1..] == Decimal(n) + "e" + rest;
  }

  lemma ReadValueOfList(body: string, items: seq<Js>, rest: string)
    requires ReadItems(body) == Some((items, rest))
    ensures ReadValue("l" + body) == Some((JArr(items), rest))
  {
    assert ("l" + body)[1..] == body;
  }

  lemma ReadValueOfDictionary(body: string, entries: seq<(string, Js)>, rest: string)
    requires ReadEntries(body) == Some((entries, rest))
    ensures ReadValue("d" + body) == Some((JObj(entries), rest))
  {
    assert ("d" + body)[1..] == body;
  }

  lemma EncodeListLayout(items: seq<Js>, rest: string)
    requires EncodeItems(items).Ok?
    ensures Encode(JArr(items)).Ok?
    ensures Encode(JArr(items)).value + rest == "l" + (EncodeItems(items).value + "e" + rest)
  {
  }

  lemma EncodeDictionaryLayout(entries: seq<(string, Js)>, rest: string)
    requires EncodeEntries(entries).Ok?
    ensures Encode(JObj(entries)).Ok?
    ensures Encode(JObj(entries)).value + rest == "d" + (EncodeEntries(entries).value + "e" + rest)
  {
  }

  lemma ReadItemsStep(s: string, v: Js, rest: string, vs: seq<Js>, after: string)
    requires s != [] && s[0] != 'e'
    requires ReadValue(s) == Some((v, rest)) && ReadItems(rest) == Some((vs, after))
    ensures ReadItems(s) == Some(([v] + vs, after))
  {
  }

  lemma ReadEntriesStep(s: string, key: string, rest: string, v: Js, rest2: string,
                        es: seq<(string, Js)>, after: string)
    requires s != [] && s[0] != 'e'
    requires ReadString(s) == Some((key, rest)) && ReadValue(rest) == Some((v, rest2))
    requires ReadEntries(rest2) == Some((es, after))
    ensures ReadEntries(s) == Some(([(key, v)] + es, after))
  {
  }

  /**
    Round trip: reading what `encode` wrote gives back the value and leaves
    whatever followed it, for every value `encode` accepts, with list
    order and dictionary entry order preserved.
   */
  lemma {:induction false} ReadEncode(v: Js, rest: string)
    requires Encodable(v)
    ensures Encode(v).Ok? && ReadValue(Encode(v).value + rest) == Some((v, rest))
    decreases v, 1
  {
    match v
    case JStr(s) =>
      ReadValueOfString(s, rest);
    case JInt(n) =>
      ReadValueOfInteger(n, rest);
    case JArr(items) =>
      ReadEncodeItems(items, rest);
      ReadValueOfList(EncodeItems(items).value + "e" + rest, items, rest);
      EncodeListLayout(items, rest);
    case JObj(entries) =>
      ReadEncodeEntries(entries, rest);
      ReadValueOfDictionary(EncodeEntries(entries).value + "e" + rest, entries, rest);
      EncodeDictionaryLayout(entries, rest);
  }

  lemma {:induction false} ReadEncodeItems(items: seq<Js>, rest: string)
    requires AllEncodable(items)
    ensures EncodeItems(items).Ok? && ReadItems(EncodeItems(items).value + "e" + rest) == Some((items, rest))
    decreases items, 0
  {
    if items != [] {
      ReadEncodeItems(items[1..], rest);
      var tail := EncodeItems(items[1..]).value + "e" + rest;
      ReadEncode(items[0], tail);
      var head := Encode(items[0]).value;
      FirstCharOfEncoding(items[0]);
      assert (head + tail)[0] == head[0];
      ReadItemsStep(head + tail, items[0], tail, items[1..], rest);
      EncodeItemsLayout(items, rest);
      assert [items[0]] + items[1..] == items;
    }
  }

  lemma {:induction false} ReadEncodeEntries(entries: seq<(string, Js)>, rest: string)
    requires EntriesEncodable(entries)
    ensures EncodeEntries(entries).Ok? && ReadEntries(EncodeEntries(entries).value + "e" + rest) == Some((entries, rest))
    decreases entries, 0
  {
    if entries != [] {
      var entry := entries[0];
      assert entry in entries && entry.1 < entry;
      ReadEncodeEntries(entries[1..], rest);
      var tail := EncodeEntries(entries[1..]).value + "e" + rest;
      ReadEncode(entry.1, tail);
      var value := Encode(entry.1).value;
      EncodeEntriesLayout(entries, rest);
      ReadEntryThen(entry.0, value + tail, entry.1, tail, entries[1..], rest);
      assert [entry] + entries[1..] == entries;
    }
  }

  /** The text of a non-empty list body: the first element, then the others. */
  lemma EncodeItemsLayout(items: seq<Js>, rest: string)
    requires items != [] && Encode(items[0]).Ok? && EncodeItems(items[1..]).Ok?
    ensures EncodeItems(items).Ok?
    ensures EncodeItems(items).value + "e" + rest
         == Encode(items[0]).value + (EncodeItems(items[1..]).value + "e" + rest)
  {
  }

  /** The text of a non-empty dictionary body: the first key, its value, then the other entries. */
  lemma EncodeEntriesLayout(entries: seq<(string, Js)>, rest: string)
    requires entries != [] && Encode(entries[0].1).Ok? && EncodeEntries(entries[1..]).Ok?
    ensures EncodeEntries(entries).Ok?
    ensures EncodeEntries(entries).value + "e" + rest
         == Decimal(|entries[0].0|) + ":" + entries[0].0
            + (Encode(entries[0].1).value + (EncodeEntries(entries[1..]).value + "e" + rest))
  {
    var key := Decimal(|entries[0].0|) + ":" + entries[0].0;
    var value := Encode(entries[0].1).value;
    var tail := EncodeEntries(entries[1..]).value;
    assert EncodeEntries(entries).value == key + value + tail;
    Regroup(key, value, tail, "e", rest);
  }

  lemma Regroup(a: string, b: string, c: string, d: string, e: string)
    ensures a + b + c + d + e == a + (b + (c + d + e))
  {
  }

  lemma ReadEntryThen(key: string, rest: string, v: Js, rest2: string,
                      es: seq<(string, Js)>, after: string)
    requires ReadValue(rest) == Some((v, rest2)) && ReadEntries(rest2) == Some((es, after))
    ensures ReadEntries(Decimal(|key|) + ":" + key + rest) == Some(([(key, v)] + es, after))
  {
    var whole := Decimal(|key|) + ":" + key + rest;
    ReadEncodedString(key, rest);
    assert whole[0] == Decimal(|key|)[0];
    ReadEntriesStep(whole, key, rest, v, rest2, es, after);
  }

  /** No encoding starts with the 'e' that closes a list or dictionary. */
  lemma FirstCharOfEncoding(v: Js)
    requires Encodable(v)
    ensures Encode(v).Ok? && Encode(v).value != [] && Encode(v).value[0] != 'e'
  {
    EncodeSucceedsIffEncodable(v);
  }

  /** A string encodes as its length in decimal, a colon, then the string itself. */
  lemma EncodeStringLayout(s: string)
    ensures Encode(JStr(s)).Ok?
    ensures |Encode(JStr(s)).value| == |Decimal(|s|)| + 1 + |s|
    ensures Encode(JStr(s)).value[|Decimal(|s|)|] == ':'
    ensures Encode(JStr(s)).value[|Decimal(|s|)| + 1..] == s
  {
    var e := Encode(JStr(s)).value;
    assert e == Decimal(|s|) + ":" + s;
  }

  /** The empty list encodes as "le". */
  lemma EmptyListIsLe()
    ensures Encode(JArr([])) == Ok("le")
  {
    assert "l" + "" + "e" == "le";
  }

  /** A null anywhere inside a list makes the whole list throw. */
  lemma NullInsideThrows(before: seq<Js>, after: seq<Js>)
    ensures Encode(JArr(before + [JNull] + after)) == Err(UnsupportedValueType)
  {
    var items := before + [JNull] + after;
    EncodeSucceedsIffEncodable(JArr(items));
    NotAllEncodable(before, after);
  }

  lemma {:induction false} NotAllEncodable(before: seq<Js>, after: seq<Js>)
    ensures !AllEncodable(before + [JNull] + after)
  {
    if before != [] {
      assert (before + [JNull] + after)[1..] == before[1..] + [JNull] + after;
      NotAllEncodable(before[1..], after);
    }
  }

  /** With the first decoder: a string encoding decodes back to the string. */
  lemma DecodeEncodedString(s: string)
    ensures Encode(JStr(s)).Ok?
    ensures Decoder.DecodeBencode(Encode(JStr(s)).value) == Ok(Decoder.Str(s))
  {
    Decoder.StringBranch(Decimal(|s|), s);
  }

  /** With the first decoder: an integer encoding decodes back to the integer. */
  lemma DecodeEncodedInteger(n: int)
    ensures Encode(JInt(n)).Ok?
    ensures Decoder.DecodeBencode(Encode(JInt(n)).value) == Ok(Decoder.Num(Int(n)))
  {
    Decoder.IntegerBranch(Decimal(n), 'e');
    NumberOfDecimal(n);
    assert "i" + Decimal(n) + "e" == "i" + Decimal(n) + ['e'];
  }
}
