/**
  app/commands/peers.js: compact peer lists (BEP 23: four address bytes and
  a big-endian port per peer) turned into "a.b.c.d:port" text, and the
  percent-encoding of a hex info hash for the tracker query (section 2.1
  of RFC 3986).
 */
module Peers {
  import opened Bytes
  import opened Text
  import Encoder

  /** The `RangeError` `readUInt16BE(4)` throws on a group shorter than six bytes. */
  datatype PeerError = OutOfRange

  /** One address: the four bytes in decimal joined by '.', then ':' and the port. */
  function Address(g: seq<byte>): string
    requires |g| >= 6
  {
    Decimal(g[0]) + "." + (Decimal(g[1]) + "." + (Decimal(g[2]) + "." + (Decimal(g[3])
    + ":" + Decimal(Be16(g[4..])))))
  }

  /** The addresses of consecutive six-byte groups, or the error a short last group raises. */
  function AddressesOf(peers: seq<byte>): Result<seq<string>, PeerError>
  {
    MapGroups(peers, Address)
  }

  /** `render` applied to consecutive six-byte groups; a shorter last group is an error. */
  function MapGroups(peers: seq<byte>, render: seq<byte> --> string): Result<seq<string>, PeerError>
    requires forall g: seq<byte> :: |g| >= 6 ==> render.requires(g)
    decreases |peers|
  {
    if peers == [] then Ok([])
    else if |peers| < 6 then Err(OutOfRange)
    else Prepend([render(peers[..6])], MapGroups(peers[6..], render))
  }

  /** `parsePeers(peers)`. */
  method ParsePeers(peers: seq<byte>) returns (r: Result<seq<string>, PeerError>)
    ensures r == AddressesOf(peers)
  {
    var addresses: seq<string> := [];
    var i := 0;
    PrependNil(AddressesOf(peers));
    assert peers[i..] == peers;
    while i < |peers|
      invariant 0 <= i <= |peers|
      invariant AddressesOf(peers) == Prepend(addresses, AddressesOf(peers[i..]))
      decreases |peers| - i
    {
      var peer := Subarray(peers, i, i + 6);
      if |peer| < 6 {
        return Err(OutOfRange);
      }
      assert peer == peers[i..][..6];
      assert peers[i..][6..] == peers[i + 6..];
      PrependStep(addresses, Address(peer), AddressesOf(peers[i + 6..]));
      assert AddressesOf(peers[i..]) == Prepend([Address(peer)], AddressesOf(peers[i + 6..]));
      addresses := addresses + [Address(peer)];
      i := i + 6;
    }
    assert peers[i..] == [] && addresses + [] == addresses;
    return Ok(addresses);
  }

  /** `front` put before the addresses of a successful parse; an error passes through. */
  function Prepend(front: seq<string>, r: Result<seq<string>, PeerError>): Result<seq<string>, PeerError>
  {
    match r
    case Ok(rest) => Ok(front + rest)
    case Err(e) => Err(e)
  }

  lemma PrependNil(r: Result<seq<string>, PeerError>)
    ensures Prepend([], r) == r
  {
    if r.Ok? {
      assert [] + r.value == r.value;
    }
  }

  lemma PrependStep(front: seq<string>, a: string, r: Result<seq<string>, PeerError>)
    ensures Prepend(front, Prepend([a], r)) == Prepend(front + [a], r)
  {
    if r.Ok? {
      assert front + ([a] + r.value) == front + [a] + r.value;
    }
  }

  /**
    The list succeeds exactly when the length is a multiple of six; then it
    has one address per group.
   */
  lemma {:induction false} GroupsShape(peers: seq<byte>, render: seq<byte> --> string)
    requires forall g: seq<byte> :: |g| >= 6 ==> render.requires(g)
    ensures MapGroups(peers, render).Ok? <==> |peers| % 6 == 0
    ensures MapGroups(peers, render).Ok? ==> |MapGroups(peers, render).value| == |peers| / 6
    decreases |peers|
  {
    if |peers| >= 6 {
      GroupsShape(peers[6..], render);
      SixStep(|peers|);
    }
  }

  lemma SixStep(n: int)
    requires n >= 6
    ensures n % 6 == (n - 6) % 6 && n / 6 == (n - 6) / 6 + 1
  {
  }

  /** Entry k renders bytes 6k .. 6k+5, so the results keep the input order. */
  lemma {:induction false} GroupAt(peers: seq<byte>, render: seq<byte> --> string, k: nat)
    requires forall g: seq<byte> :: |g| >= 6 ==> render.requires(g)
    requires MapGroups(peers, render).Ok? && k < |MapGroups(peers, render).value|
    ensures 6 * k + 6 <= |peers|
    ensures MapGroups(peers, render).value[k] == render(peers[6 * k..6 * k + 6])
    decreases k
  {
    var rest := peers[6..];
    assert MapGroups(peers, render).value == [render(peers[..6])] + MapGroups(rest, render).value;
    if k == 0 {
      assert peers[6 * k..6 * k + 6] == peers[..6];
    } else {
      GroupAt(rest, render, k - 1);
      var j := 6 * (k - 1);
      assert j + 6 == 6 * k;
      assert rest[j..j + 6] == peers[j + 6..j + 12];
    }
  }

  /**
    `parsePeers` succeeds exactly when the length is a multiple of six, with
    one address per group, address k being the text of bytes 6k .. 6k+5.
   */
  lemma AddressesShape(peers: seq<byte>)
    ensures AddressesOf(peers).Ok? <==> |peers| % 6 == 0
    ensures AddressesOf(peers).Ok? ==> |AddressesOf(peers).value| == |peers| / 6
    ensures AddressesOf(peers).Ok? ==>
      forall k :: 0 <= k < |peers| / 6 ==> AddressesOf(peers).value[k] == Address(peers[6 * k..6 * k + 6])
  {
    GroupsShape(peers, Address);
    if AddressesOf(peers).Ok? {
      forall k | 0 <= k < |peers| / 6
        ensures AddressesOf(peers).value[k] == Address(peers[6 * k..6 * k + 6])
      {
        GroupAt(peers, Address, k);
      }
    }
  }

  // ---------------------------------------------------------------------
  // Reading an address back.
  // ---------------------------------------------------------------------

  /** The decimal number at the start of `s` when `sep` follows it, and the text after `sep`. */
  function ReadNumberBefore(s: string, sep: char): Option<(nat, string)>
  {
    var n := Encoder.LeadingDigits(s);
    if n == 0 || n == |s| || s[n] != sep then None else Some((DigitsValue(s[..n]), s[n + 1..]))
  }

  /**
    The numbers of a text made of decimal numbers, each of the first
    |seps| followed by its separator.
   */
  function ReadFields(s: string, seps: string): (r: Option<seq<nat>>)
    ensures r.Some? ==> |r.value| == |seps| + 1
    decreases |seps|
  {
    if seps == [] then
      var n := Encoder.LeadingDigits(s);
      if n == 0 || n != |s| then None else Some([DigitsValue(s[..n])])
    else
      match ReadNumberBefore(s, seps[0])
      case None => None
      case Some((n, rest)) => Cons(n, ReadFields(rest, seps[1..]))
  }

  function Cons(n: nat, r: Option<seq<nat>>): Option<seq<nat>>
  {
    match r
    case None => None
    case Some(ns) => Some([n] + ns)
  }

  /** The six bytes an "a.b.c.d:port" text stands for. */
  function ReadAddress(s: string): Option<seq<int>>
  {
    match ReadFields(s, "...:")
    case None => None
    case Some(ns) => Some(ns[..4] + [ns[4] / 256, ns[4] % 256])
  }

  lemma ReadDigitsThen(d: string, sep: char, rest: string)
    requires d != [] && AllDigits(d) && !IsDigit(sep)
    ensures ReadNumberBefore(d + [sep] + rest, sep) == Some((DigitsValue(d), rest))
  {
    var s := d + [sep] + rest;
    assert s == d + ([sep] + rest);
    Encoder.LeadingDigitsOfDigitsRun(d, [sep] + rest);
    assert s[|d| + 1..] == rest;
  }

  predicate IsField(d: string) { d != [] && AllDigits(d) }

  /** The values of digit runs. */
  function Values(ds: seq<string>): (vs: seq<nat>)
    requires forall i :: 0 <= i < |ds| ==> IsField(ds[i])
    ensures |vs| == |ds|
    ensures forall i :: 0 <= i < |ds| ==> IsField(ds[i]) && vs[i] == DigitsValue(ds[i])
  {
    if ds == [] then [] else assert IsField(ds[0]); [DigitsValue(ds[0])] + Values(ds[1..])
  }

  /** Digit runs, each but the last followed by its separator. */
  function Joined(ds: seq<string>, seps: string): string
    requires |ds| == |seps| + 1
    decreases |seps|
  {
    if seps == [] then ds[0] else ds[0] + [seps[0]] + Joined(ds[1..], seps[1..])
  }

  /** Digit runs joined by non-digit separators read back as their values. */
  lemma {:induction false} ReadJoined(ds: seq<string>, seps: string)
    requires |ds| == |seps| + 1
    requires forall i :: 0 <= i < |ds| ==> IsField(ds[i])
    requires forall i :: 0 <= i < |seps| ==> !IsDigit(seps[i])
    ensures ReadFields(Joined(ds, seps), seps) == Some(Values(ds))
    decreases |seps|
  {
    if seps == [] {
      Encoder.LeadingDigitsOfDigitsRun(ds[0], []);
      assert ds[0] + [] == ds[0];
      assert Values(ds) == [DigitsValue(ds[0])];
    } else {
      var rest := Joined(ds[1..], seps[1..]);
      ReadDigitsThen(ds[0], seps[0], rest);
      ReadJoined(ds[1..], seps[1..]);
      assert Values(ds) == [DigitsValue(ds[0])] + Values(ds[1..]);
    }
  }

  lemma JoinedCons(d: string, ds: seq<string>, c: char, seps: string)
    requires |ds| == |seps| + 1
    ensures Joined([d] + ds, [c] + seps) == d + [c] + Joined(ds, seps)
  {
    assert ([d] + ds)[1..] == ds && ([c] + seps)[1..] == seps;
  }

  /** The address text is the five numbers joined by '.', '.', '.' and ':'. */
  lemma AddressIsJoined(g: seq<byte>)
    requires |g| >= 6
    ensures Address(g) == Joined([Decimal(g[0])] + ([Decimal(g[1])] + ([Decimal(g[2])] + ([Decimal(g[3])]
                                 + [Decimal(Be16(g[4..]))]))), ['.'] + (['.'] + (['.'] + ([':'] + []))))
  {
    var d0, d1, d2, d3, d4 := Decimal(g[0]), Decimal(g[1]), Decimal(g[2]), Decimal(g[3]), Decimal(Be16(g[4..]));
    assert Joined([d4], []) == d4;
    JoinedCons(d3, [d4], ':', []);
    JoinedCons(d2, [d3] + [d4], '.', [':'] + []);
    JoinedCons(d1, [d2] + ([d3] + [d4]), '.', ['.'] + ([':'] + []));
    JoinedCons(d0, [d1] + ([d2] + ([d3] + [d4])), '.', ['.'] + (['.'] + ([':'] + [])));
  }

  lemma DecimalValue(n: nat)
    ensures IsField(Decimal(n)) && DigitsValue(Decimal(n)) == n
  {
    DigitsValueOfDigits(n);
  }

  lemma PortBytes(hi: byte, lo: byte)
    ensures (hi as int * 256 + lo) / 256 == hi && (hi as int * 256 + lo) % 256 == lo
  {
  }

  /** Every address text reads back as the six bytes it was made from, so distinct peers never print alike. */
  lemma ReadAddressOfAddress(g: seq<byte>)
    requires |g| >= 6
    ensures ReadAddress(Address(g)) == Some(g[..6])
  {
    var p := Be16(g[4..]);
    var ds := [Decimal(g[0])] + ([Decimal(g[1])] + ([Decimal(g[2])] + ([Decimal(g[3])] + [Decimal(p)])));
    var seps := ['.'] + (['.'] + (['.'] + ([':'] + [])));
    AddressIsJoined(g);
    DecimalValue(g[0]);
    DecimalValue(g[1]);
    DecimalValue(g[2]);
    DecimalValue(g[3]);
    DecimalValue(p);
    assert ds == [Decimal(g[0]), Decimal(g[1]), Decimal(g[2]), Decimal(g[3]), Decimal(p)];
    assert seps == "...:";
    ReadJoined(ds, seps);
    var ns := Values(ds);
    PortBytes(g[4], g[5]);
    assert ns[..4] + [ns[4] / 256, ns[4] % 256] == g[..6];
  }

  // ---------------------------------------------------------------------
  // urlEncodeInfoHash
  // ---------------------------------------------------------------------

  /** The characters the regular-expression `.` does not match. */
  predicate IsLineTerminator(c: char)
  {
    c == '\n' || c == '\r' || c == '\U{2028}' || c == '\U{2029}'
  }

  /** The matches of `/.{1,2}/g`: pairs of consecutive characters, line terminators skipped. */
  function Groups(s: string): seq<string>
    decreases |s|
  {
    if s == [] then []
    else if IsLineTerminator(s[0]) then Groups(s[1..])
    else if |s| >= 2 && !IsLineTerminator(s[1]) then [s[..2]] + Groups(s[2..])
    else [s[..1]] + Groups(s[1..])
  }

  /** The `TypeError` of calling `.map` on the `null` a match without results gives. */
  datatype EncodeError = NoMatch

  function PercentJoin(groups: seq<string>): string
  {
    if groups == [] then "" else "%" + groups[0] + PercentJoin(groups[1..])
  }

  /** `urlEncodeInfoHash(infoHash)`. */
  function UrlEncodeInfoHash(infoHash: string): Result<string, EncodeError>
  {
    var groups := Groups(infoHash);
    if groups == [] then Err(NoMatch) else Ok(PercentJoin(groups))
  }

  predicate NoLineTerminator(s: string) { forall i :: 0 <= i < |s| ==> !IsLineTerminator(s[i]) }

  function RemovePercent(s: string): string
  {
    if s == [] then "" else (if s[0] == '%' then "" else [s[0]]) + RemovePercent(s[1..])
  }

  lemma RemovePercentAppend(a: string, b: string)
    ensures RemovePercent(a + b) == RemovePercent(a) + RemovePercent(b)
  {
    if a == [] {
      assert a + b == b;
    } else {
      assert (a + b)[0] == a[0];
      assert (a + b)[1..] == a[1..] + b;
      RemovePercentAppend(a[1..], b);
    }
  }

  /**
    Without line terminators, the text is cut into pairs each preceded by
    '%': |result| = |s| + ⌈|s| / 2⌉, and deleting every '%' gives the
    input back.
   */
  lemma {:induction false} PercentEncodingShape(s: string)
    requires NoLineTerminator(s)
    ensures |PercentJoin(Groups(s))| == |s| + (|s| + 1) / 2
    ensures '%' !in s ==> RemovePercent(PercentJoin(Groups(s))) == s
    decreases |s|
  {
    if s != [] {
      var k := if |s| >= 2 then 2 else 1;
      assert NoLineTerminator(s[k..]);
      PercentEncodingShape(s[k..]);
      var g := Groups(s);
      assert g == [s[..k]] + Groups(s[k..]);
      assert g[1..] == Groups(s[k..]);
      if '%' !in s {
        assert '%' !in s[k..] by {
          forall i | 0 <= i < |s[k..]| ensures s[k..][i] != '%' { assert s[k..][i] == s[k + i]; }
        }
        RemovePercentAppend("%" + s[..k], PercentJoin(Groups(s[k..])));
        RemovePercentAppend("%", s[..k]);
        assert RemovePercent(s[..k]) == s[..k] by {
          assert s[..k][0] == s[0] && s[0] != '%';
          if k == 2 {
            assert s[..k][1..] == [s[1]] && s[1] != '%';
            assert RemovePercent([s[1]]) == [s[1]] by { assert [s[1]][1..] == []; }
          } else {
            assert s[..k][1..] == [];
          }
        }
        assert s[..k] + s[k..] == s;
      }
    }
  }

  /** A 40-character hex hash becomes 60 characters; empty input throws. */
  lemma InfoHashEncoding(h: string)
    requires |h| == 40 && forall i :: 0 <= i < |h| ==> HexValue(h[i]).Some?
    ensures UrlEncodeInfoHash(h).Ok? && |UrlEncodeInfoHash(h).value| == 60
    ensures RemovePercent(UrlEncodeInfoHash(h).value) == h
  {
    assert NoLineTerminator(h) by {
      forall i | 0 <= i < |h| ensures !IsLineTerminator(h[i]) { assert HexValue(h[i]).Some?; }
    }
    assert '%' !in h by {
      forall i | 0 <= i < |h| ensures h[i] != '%' { assert HexValue(h[i]).Some?; }
    }
    PercentEncodingShape(h);
    assert Groups(h) != [];
  }

  lemma EmptyHashThrows()
    ensures UrlEncodeInfoHash("") == Err(NoMatch)
  {
  }
}
