/**
  The first bencode decoder (app/decoder.js): it reads byte-strings and
  integers only, from JavaScript text, choosing the branch by whether the
  first character converts to a number.
 */
module Decoder {
  import opened Bytes
  import opened Text

  /** What `decodeBencode` returns: the text after the colon, or what `Number(...)` made of the integer body. */
  datatype Decoded = Str(s: string) | Num(n: JsNumber)

  /** The two exceptions `decodeBencode` throws. */
  datatype DecodeError =
    | InvalidEncodedValue               // 'Invalid encoded value'
    | UnsupportedEncoding(input: string) // `Invalid value ${input}. Unsupported encoding.`

  /**
    `decodeBencode(v)`. A first character that converts to a number (a digit,
    or white space) selects the string branch; an empty input has no first
    character and `isNaN(undefined)` holds.
   */
  function DecodeBencode(v: string): Result<Decoded, DecodeError>
  {
    if v == [] || IsNaNChar(v[0]) then
      if v != [] && v[0] == 'i' then Ok(Num(Number(Substring(v, 1, |v| - 1))))
      else Err(UnsupportedEncoding(v))
    else
      var colon := IndexOf(v, ':');
      if colon == -1 then Err(InvalidEncodedValue) else Ok(Str(SubstrFrom(v, colon + 1)))
  }

  /**
    A digit-leading input decodes to everything after its first colon, and
    the declared length is never compared with what follows: `len` may be
    any run of digits, whatever `|s|` is.
   */
  lemma StringBranch(len: string, s: string)
    requires len != [] && AllDigits(len)
    ensures DecodeBencode(len + ":" + s) == Ok(Str(s))
  {
    var v := len + ":" + s;
    assert ':' !in len by {
      forall i | 0 <= i < |len| ensures len[i] != ':' { assert IsDigit(len[i]); }
    }
    assert v[..|len|] == len;
    IndexOfFirst(v, |len|, ':');
    assert v[|len| + 1..] == s;
  }

  /** The same, for an input whose first colon is at `n`. */
  lemma StringBranchAt(v: string, n: nat)
    requires 0 < n < |v| && AllDigits(v[..n]) && v[n] == ':'
    ensures DecodeBencode(v) == Ok(Str(v[n + 1..]))
  {
    StringBranch(v[..n], v[n + 1..]);
    assert v == v[..n] + ":" + v[n + 1..];
  }

  /** A digit-leading input without any colon throws 'Invalid encoded value'. */
  lemma NoColonFails(v: string)
    requires v != [] && IsDigit(v[0]) && ':' !in v
    ensures DecodeBencode(v) == Err(InvalidEncodedValue)
  {
  }

  /**
    An input starting with 'i' decodes to `Number` of the text between the
    first and the last character; the last character is dropped unchecked.
   */
  lemma IntegerBranch(body: string, last: char)
    ensures DecodeBencode("i" + body + [last]) == Ok(Num(Number(body)))
  {
    var v := "i" + body + [last];
    assert Substring(v, 1, |v| - 1) == v[1..|v| - 1] == body;
  }

  /** The same, for any input of at least two characters that starts with 'i'. */
  lemma IntegerBranchAt(v: string)
    requires |v| >= 2 && v[0] == 'i'
    ensures DecodeBencode(v) == Ok(Num(Number(v[1..|v| - 1])))
  {
    IntegerBranch(v[1..|v| - 1], v[|v| - 1]);
    assert v == "i" + v[1..|v| - 1] + [v[|v| - 1]];
  }

  /** On "i" alone `substring(1, 0)` swaps its bounds and returns "i", which is not a number. */
  lemma LoneI()
    ensures DecodeBencode("i") == Ok(Num(NotInteger))
  {
    assert Substring("i", 1, 0) == "i";
    assert TrimEnd(TrimStart("i")) == "i";
  }

  /** Empty input, and any first character that is not a number, not white space and not 'i', is refused. */
  lemma UnsupportedFirstCharacter(v: string)
    requires v == [] || (IsNaNChar(v[0]) && v[0] != 'i')
    ensures DecodeBencode(v) == Err(UnsupportedEncoding(v))
  {
  }

  /**
    The decoder never throws 'Invalid encoded value' except on a
    number-like first character with no colon anywhere, and never refuses an
    input that starts with a digit.
   */
  lemma ErrorCases(v: string)
    ensures DecodeBencode(v) == Err(InvalidEncodedValue) <==> v != [] && !IsNaNChar(v[0]) && ':' !in v
    ensures DecodeBencode(v).Err? && v != [] && IsDigit(v[0]) ==> DecodeBencode(v) == Err(InvalidEncodedValue)
  {
  }

  /** White space converts to 0 under `isNaN`, so a leading space also selects the string branch. */
  lemma LeadingSpaceIsAString()
    ensures DecodeBencode(" :x") == Ok(Str("x"))
  {
    assert IndexOf(" :x", ':') == 1;
  }

  /** The decoder's test: "5:hello" gives "hello". */
  lemma TestHello()
    ensures DecodeBencode("5:hello") == Ok(Str("hello"))
  {
    var v := "5:hello";
    assert v[..1] == "5" && v[1] == ':';
    StringBranchAt(v, 1);
    assert v[2..] == "hello";
  }

  /** The decoder's test: "10:hello12345" gives "hello12345" (the declared 10 is ignored). */
  lemma TestLongerString()
    ensures DecodeBencode("10:hello12345") == Ok(Str("hello12345"))
  {
    var v := "10:hello12345";
    assert v[..2] == "10" && v[2] == ':';
    StringBranchAt(v, 2);
    assert v[3..] == "hello12345";
  }

  /** The decoder's test: "i54e" gives 54. */
  lemma TestPositiveInteger()
    ensures DecodeBencode("i54e") == Ok(Num(Int(54)))
  {
    var v := "i54e";
    IntegerBranchAt(v);
    assert v[1..3] == "54";
    assert Decimal(54) == "54" by { assert Digits(5) == "5"; }
    NumberOfDecimal(54);
  }

  /** The decoder's test: "i-54e" gives -54. */
  lemma TestNegativeInteger()
    ensures DecodeBencode("i-54e") == Ok(Num(Int(-54)))
  {
    var v := "i-54e";
    IntegerBranchAt(v);
    assert v[1..4] == "-54";
    assert Decimal(-54) == "-54" by { assert Digits(54) == "54" by { assert Digits(5) == "5"; } }
    NumberOfDecimal(-54);
  }

  /** The decoder's test: "a54e" is refused as an unsupported encoding. */
  lemma TestUnsupported()
    ensures DecodeBencode("a54e") == Err(UnsupportedEncoding("a54e"))
  {
  }
}
