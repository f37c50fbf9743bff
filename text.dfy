/**
  JavaScript text as the client uses it: decimal rendering of integers
  (template literals), `Number()` on decimal text, `substring`/`indexOf`,
  and lowercase hex (`toString('hex')`) with Node's hex decoding.
 */
module Text {
  import opened Bytes

  predicate IsDigit(c: char) { '0' <= c <= '9' }

  predicate AllDigits(s: string) { forall i :: 0 <= i < |s| ==> IsDigit(s[i]) }

  function DigitChar(d: int): (c: char)
    requires 0 <= d < 10
    ensures IsDigit(c)
  {
    (('0' as int) + d) as char
  }

  function DigitValue(c: char): (d: nat)
    requires IsDigit(c)
    ensures d < 10 && DigitChar(d) == c
  {
    (c as int) - ('0' as int)
  }

  /** `${n}` for a non-negative integer: its decimal digits, with no leading zero. */
  function Digits(n: nat): (s: string)
    ensures |s| >= 1 && AllDigits(s)
    ensures s[0] == '0' ==> n == 0
    decreases n
  {
    if n < 10 then [DigitChar(n)] else Digits(n / 10) + [DigitChar(n % 10)]
  }

  /** `${n}` for an integer. */
  function Decimal(n: int): (s: string)
    ensures |s| >= 1
    ensures n >= 0 ==> AllDigits(s)
    ensures n < 0 ==> s[0] == '-' && AllDigits(s[1..])
  {
    if n < 0 then "-" + Digits(-n) else Digits(n)
  }

  /** The number a run of decimal digits stands for (leading zeros allowed). */
  function DigitsValue(s: string): nat
    requires AllDigits(s)
  {
    if s == [] then 0 else DigitsValue(s[..|s| - 1]) * 10 + DigitValue(s[|s| - 1])
  }

  /** Reading back the digits of `n` gives `n`. */
  lemma {:induction false} DigitsValueOfDigits(n: nat)
    ensures DigitsValue(Digits(n)) == n
  {
    if n >= 10 {
      var s := Digits(n);
      assert s[..|s| - 1] == Digits(n / 10);
      DigitsValueOfDigits(n / 10);
    }
  }

  /**
    The characters ECMAScript's StringToNumber skips around a numeral
    (WhiteSpace and LineTerminator).
   */
  predicate IsJsWhitespace(c: char)
  {
    var k := c as int;
    || 0x09 <= k <= 0x0D || k == 0x20 || k == 0xA0 || k == 0x1680
    || 0x2000 <= k <= 0x200A || k == 0x2028 || k == 0x2029 || k == 0x202F
    || k == 0x205F || k == 0x3000 || k == 0xFEFF
  }

  /** `isNaN(c)` for a one-character string: only a digit or white space converts to a number. */
  predicate IsNaNChar(c: char) { !IsDigit(c) && !IsJsWhitespace(c) }

  function TrimStart(s: string): (r: string)
    ensures |r| <= |s|
  {
    if s != [] && IsJsWhitespace(s[0]) then TrimStart(s[1..]) else s
  }

  function TrimEnd(s: string): (r: string)
    ensures |r| <= |s|
  {
    if s != [] && IsJsWhitespace(s[|s| - 1]) then TrimEnd(s[..|s| - 1]) else s
  }

  /**
    What `Number(text)` gives: `Int(n)` for an optionally signed run of
    decimal digits (surrounding white space ignored, empty text is 0);
    `NotInteger` for every other text, which JavaScript turns into NaN, a
    fraction, or a number written in a notation this model does not read
    (exponent, hex, "Infinity").
   */
  datatype JsNumber = Int(n: int) | NotInteger

  function Number(s: string): JsNumber
  {
    var t := TrimEnd(TrimStart(s));
    if t == "" then Int(0)
    else if AllDigits(t) then Int(DigitsValue(t))
    else if |t| > 1 && t[0] == '-' && AllDigits(t[1..]) then Int(-(DigitsValue(t[1..]) as int))
    else if |t| > 1 && t[0] == '+' && AllDigits(t[1..]) then Int(DigitsValue(t[1..]))
    else NotInteger
  }

  /** `Number` reads back every integer the template literal `${n}` writes. */
  lemma NumberOfDecimal(n: int)
    ensures Number(Decimal(n)) == Int(n)
  {
    var s := Decimal(n);
    TrimOfDecimal(n);
    if n < 0 {
      DigitsValueOfDigits(-n);
      assert s[1..] == Digits(-n);
      assert !AllDigits(s) by { assert !IsDigit(s[0]); }
    } else {
      DigitsValueOfDigits(n);
    }
  }

  /** Distinct integers render as distinct decimal text. */
  lemma DecimalInjective(m: int, n: int)
    requires Decimal(m) == Decimal(n)
    ensures m == n
  {
    NumberOfDecimal(m);
    NumberOfDecimal(n);
  }

  lemma TrimOfDecimal(n: int)
    ensures TrimEnd(TrimStart(Decimal(n))) == Decimal(n)
  {
    var s := Decimal(n);
    assert !IsJsWhitespace(s[0]);
    assert TrimStart(s) == s;
    assert !IsJsWhitespace(s[|s| - 1]);
  }

  /** `s.indexOf(c)`: the first position of `c`, or -1. */
  function IndexOf(s: string, c: char): (r: int)
    ensures -1 <= r < |s|
    ensures r == -1 <==> c !in s
    ensures r >= 0 ==> s[r] == c && c !in s[..r]
  {
    if s == [] then -1
    else if s[0] == c then 0
    else var k := IndexOf(s[1..], c); if k == -1 then -1 else k + 1
  }

  /** The position of the first occurrence is where `indexOf` finds it. */
  lemma IndexOfFirst(s: string, k: nat, c: char)
    requires k < |s| && s[k] == c && c !in s[..k]
    ensures IndexOf(s, c) == k
  {
    var r := IndexOf(s, c);
    assert c in s;
    forall j | 0 <= j < k ensures s[j] != c { assert s[..k][j] == s[j]; }
    forall j | 0 <= j < r ensures s[j] != c { assert s[..r][j] == s[j]; }
  }

  /** `s.split(c)`: the pieces between occurrences of `c`, at least one. */
  function Split(s: string, c: char): (parts: seq<string>)
    ensures |parts| >= 1
    ensures forall i :: 0 <= i < |parts| ==> c !in parts[i]
    decreases |s|
  {
    var k := IndexOf(s, c);
    if k == -1 then [s] else [s[..k]] + Split(s[k + 1..], c)
  }

  /** The pieces put back together with `c` between them. */
  function Join(parts: seq<string>, c: char): string
    requires |parts| >= 1
  {
    if |parts| == 1 then parts[0] else parts[0] + [c] + Join(parts[1..], c)
  }

  /** Splitting loses nothing: joining the pieces gives back the text. */
  lemma {:induction false} JoinSplit(s: string, c: char)
    ensures Join(Split(s, c), c) == s
    decreases |s|
  {
    var k := IndexOf(s, c);
    if k != -1 {
      JoinSplitStep(s, c);
      JoinSplit(s[k + 1..], c);
      assert s == s[..k] + [c] + s[k + 1..];
    }
  }

  lemma JoinSplitStep(s: string, c: char)
    requires IndexOf(s, c) != -1
    ensures var k := IndexOf(s, c);
      Join(Split(s, c), c) == s[..k] + [c] + Join(Split(s[k + 1..], c), c)
  {
    var k := IndexOf(s, c);
    var parts := Split(s, c);
    var rest := Split(s[k + 1..], c);
    assert parts == [s[..k]] + rest;
    assert parts[1..] == rest;
  }

  /** A `String.prototype.substring` bound: clamped into `[0, len]` (negative counts as 0). */
  function ClampText(i: int, len: nat): (r: nat)
    ensures r <= len
  {
    if i < 0 then 0 else if i > len then len else i
  }

  /** `s.substring(a, b)`: the bounds are clamped and swapped when `a > b`. */
  function Substring(s: string, a: int, b: int): string
  {
    var x := ClampText(a, |s|);
    var y := ClampText(b, |s|);
    if x <= y then s[x..y] else s[y..x]
  }

  /** `s.substr(start)` for `start >= 0`: everything from `start` on. */
  function SubstrFrom(s: string, start: nat): string
  {
    if start <= |s| then s[start..] else ""
  }

  function HexDigit(d: int): (c: char)
    requires 0 <= d < 16
  {
    if d < 10 then DigitChar(d) else (('a' as int) + d - 10) as char
  }

  /** `buf.toString('hex')`: two lowercase hex digits per byte. */
  function LowerHex(b: seq<byte>): (s: string)
    ensures |s| == 2 * |b|
  {
    if b == [] then "" else [HexDigit(b[0] / 16), HexDigit(b[0] % 16)] + LowerHex(b[1..])
  }

  /** The value of one hex digit, either case, as Node's hex decoder reads it. */
  function HexValue(c: char): Option<nat>
  {
    if '0' <= c <= '9' then Some(c as int - '0' as int)
    else if 'a' <= c <= 'f' then Some(c as int - 'a' as int + 10)
    else if 'A' <= c <= 'F' then Some(c as int - 'A' as int + 10)
    else None
  }

  /**
    The bytes `buf.write(text, offset, 'hex')` decodes: one byte per pair
    of hex digits, stopping at the first pair that is not two hex digits
    (a trailing odd digit is dropped).
   */
  function HexDecodePrefix(s: string): (r: seq<byte>)
    ensures |r| <= |s| / 2
  {
    if |s| < 2 then []
    else match (HexValue(s[0]), HexValue(s[1]))
      case (Some(hi), Some(lo)) => [hi * 16 + lo] + HexDecodePrefix(s[2..])
      case _ => []
  }

  /** Hex-decoding the lowercase hex of some bytes gives those bytes back. */
  lemma {:induction false} HexRoundTrip(b: seq<byte>)
    ensures HexDecodePrefix(LowerHex(b)) == b
  {
    if b != [] {
      var s := LowerHex(b);
      assert s[2..] == LowerHex(b[1..]);
      HexRoundTrip(b[1..]);
    }
  }

  /** Distinct byte strings have distinct hex renderings, so comparing hex compares bytes. */
  lemma LowerHexInjective(a: seq<byte>, b: seq<byte>)
    ensures LowerHex(a) == LowerHex(b) <==> a == b
  {
    if LowerHex(a) == LowerHex(b) {
      HexRoundTrip(a);
      HexRoundTrip(b);
    }
  }
}
