/**
 * URI encoding as JavaScript defines it (the Encode operation behind
 * encodeURI and encodeURIComponent in ECMA-262), UTF-8 as RFC 3629 defines
 * it, and the reading of a URL's query string as the WHATWG URL Standard's
 * application/x-www-form-urlencoded parser does it. A server that receives a
 * request URL sees the parameters that ParseUrl returns.
 */
module Uri {
  import opened Text

  type Byte = b: int | 0 <= b < 256

  // ---------------------------------------------------------------------
  // UTF-8

  /** The UTF-8 bytes of one Unicode scalar value. */
  function Utf8Char(c: char): (bs: seq<Byte>)
    ensures 1 <= |bs| <= 4
    ensures (|bs| == 1) == (c as int < 0x80)
    ensures |bs| == 1 ==> bs[0] == c as int
  {
    var cp := c as int;
    if cp < 0x80 then [cp]
    else if cp < 0x800 then [0xC0 + cp / 64, 0x80 + cp % 64]
    else if cp < 0x10000 then
      var q1, r1 := cp / 64, cp % 64;
      [0xE0 + q1 / 64, 0x80 + q1 % 64, 0x80 + r1]
    else
      var q1, r1 := cp / 64, cp % 64;
      var q2, r2 := q1 / 64, q1 % 64;
      [0xF0 + q2 / 64, 0x80 + q2 % 64, 0x80 + r2, 0x80 + r1]
  }

  function Utf8Encode(s: string): seq<Byte>
    decreases |s|
  {
    if s == [] then [] else Utf8Char(s[0]) + Utf8Encode(s[1..])
  }

  predicate IsCont(b: Byte) {
    0x80 <= b < 0xC0
  }

  /** Second byte of a three-byte sequence: no overlong forms, no surrogates. */
  predicate SecondOf3(b0: Byte, b1: Byte) {
    if b0 == 0xE0 then 0xA0 <= b1 < 0xC0
    else if b0 == 0xED then 0x80 <= b1 < 0xA0
    else IsCont(b1)
  }

  /** Second byte of a four-byte sequence: no overlong forms, nothing above U+10FFFF. */
  predicate SecondOf4(b0: Byte, b1: Byte) {
    if b0 == 0xF0 then 0x90 <= b1 < 0xC0
    else if b0 == 0xF4 then 0x80 <= b1 < 0x90
    else IsCont(b1)
  }

  /** The code point of a two-, three- or four-byte sequence: the payload bits of each byte in turn. */
  function Cp2(b0: Byte, b1: Byte): int {
    (b0 as int - 0xC0) * 64 + (b1 as int - 0x80)
  }

  function Cp3(b0: Byte, b1: Byte, b2: Byte): int {
    (b0 as int - 0xE0) * 4096 + (b1 as int - 0x80) * 64 + (b2 as int - 0x80)
  }

  function Cp4(b0: Byte, b1: Byte, b2: Byte, b3: Byte): int {
    (b0 as int - 0xF0) * 262144 + (b1 as int - 0x80) * 4096 + (b2 as int - 0x80) * 64 + (b3 as int - 0x80)
  }

  const Replacement: char := '�'

  /**
   * Decodes the character at the front of bs and says how many bytes it
   * took; a byte that does not start a well-formed sequence decodes to
   * U+FFFD on its own.
   */
  function DecodeOne(bs: seq<Byte>): (r: (char, nat))
    requires bs != []
    ensures 1 <= r.1 <= |bs|
  {
    var b0 := bs[0];
    if b0 < 0x80 then
      (b0 as char, 1)
    else if 0xC2 <= b0 < 0xE0 && |bs| >= 2 && IsCont(bs[1]) then
      (Cp2(b0, bs[1]) as char, 2)
    else if 0xE0 <= b0 < 0xF0 && |bs| >= 3 && SecondOf3(b0, bs[1]) && IsCont(bs[2]) then
      (Cp3(b0, bs[1], bs[2]) as char, 3)
    else if 0xF0 <= b0 < 0xF5 && |bs| >= 4 && SecondOf4(b0, bs[1]) && IsCont(bs[2]) && IsCont(bs[3]) then
      (Cp4(b0, bs[1], bs[2], bs[3]) as char, 4)
    else
      (Replacement, 1)
  }

  function Utf8Decode(bs: seq<Byte>): string
    decreases |bs|
  {
    if bs == [] then [] else
      var (c, n) := DecodeOne(bs);
      [c] + Utf8Decode(bs[n..])
  }

  lemma DecodeOneChar(c: char, rest: seq<Byte>)
    ensures DecodeOne(Utf8Char(c) + rest) == (c, |Utf8Char(c)|)
  {
    var cp := c as int;
    var bs := Utf8Char(c) + rest;
    if cp < 0x80 {
    } else if cp < 0x800 {
      assert bs[0] == 0xC0 + cp / 64 && bs[1] == 0x80 + cp % 64;
      assert Cp2(bs[0], bs[1]) == cp;
    } else if cp < 0x10000 {
      var q1, r1 := cp / 64, cp % 64;
      assert cp == q1 * 64 + r1;
      assert q1 == (q1 / 64) * 64 + q1 % 64;
      assert bs[0] == 0xE0 + q1 / 64 && bs[1] == 0x80 + q1 % 64 && bs[2] == 0x80 + r1;
      assert Cp3(bs[0], bs[1], bs[2]) == cp;
    } else {
      var q1, r1 := cp / 64, cp % 64;
      var q2, r2 := q1 / 64, q1 % 64;
      assert cp == q1 * 64 + r1;
      assert q1 == q2 * 64 + r2;
      assert q2 == (q2 / 64) * 64 + q2 % 64;
      assert bs[0] == 0xF0 + q2 / 64 && bs[1] == 0x80 + q2 % 64;
      assert bs[2] == 0x80 + r2 && bs[3] == 0x80 + r1;
      assert Cp4(bs[0], bs[1], bs[2], bs[3]) == cp;
    }
  }

  lemma {:induction false} Utf8EncodeAppend(a: string, b: string)
    ensures Utf8Encode(a + b) == Utf8Encode(a) + Utf8Encode(b)
    decreases |a|
  {
    if a == [] {
      assert a + b == b;
    } else {
      assert (a + b)[1..] == a[1..] + b;
      Utf8EncodeAppend(a[1..], b);
    }
  }

  /** Decoding the UTF-8 encoding of a string gives the string back. */
  lemma {:induction false} Utf8RoundTrip(s: string)
    ensures Utf8Decode(Utf8Encode(s)) == s
    decreases |s|
  {
    if s != [] {
      var bs := Utf8Encode(s);
      DecodeOneChar(s[0], Utf8Encode(s[1..]));
      assert bs[|Utf8Char(s[0])|..] == Utf8Encode(s[1..]);
      Utf8RoundTrip(s[1..]);
    }
  }

  // ---------------------------------------------------------------------
  // Percent-encoding as encodeURI and encodeURIComponent do it

  function HexDigit(d: nat): (c: char)
    requires d < 16
    ensures IsHex(c) && HexValue(c) == d
  {
    if d < 10 then ('0' as int + d) as char else ('A' as int + d - 10) as char
  }

  predicate IsHex(c: char) {
    '0' <= c <= '9' || 'A' <= c <= 'F' || 'a' <= c <= 'f'
  }

  function HexValue(c: char): nat
    requires IsHex(c)
  {
    if '0' <= c <= '9' then c as int - '0' as int
    else if 'A' <= c <= 'F' then c as int - 'A' as int + 10
    else c as int - 'a' as int + 10
  }

  /** The characters ECMA-262 calls uriUnreserved: letters, digits and - _ . ! ~ * ' ( ). */
  predicate IsUnreserved(c: char) {
    || 'A' <= c <= 'Z' || 'a' <= c <= 'z' || '0' <= c <= '9'
    || c == '-' || c == '_' || c == '.' || c == '!' || c == '~' || c == '*'
    || c == '\'' || c == '(' || c == ')'
  }

  /** The characters ECMA-262 calls uriReserved: ; / ? : @ & = + $ , */
  predicate IsReserved(c: char) {
    || c == ';' || c == '/' || c == '?' || c == ':' || c == '@'
    || c == '&' || c == '=' || c == '+' || c == '$' || c == ','
  }

  /** Which characters an encoder leaves as they are. */
  datatype Unescaped = UriSet | ComponentSet

  /** encodeURI keeps unreserved and reserved characters and '#'; encodeURIComponent only unreserved ones. */
  predicate Keeps(kept: Unescaped, c: char) {
    IsUnreserved(c) || (kept == UriSet && (IsReserved(c) || c == '#'))
  }

  /** "%XY" for every byte, with upper-case hexadecimal digits. */
  function Escape(bs: seq<Byte>): (s: string)
    ensures forall i | 0 <= i < |s| :: s[i] == '%' || IsUnreserved(s[i])
    decreases |bs|
  {
    if bs == [] then [] else ['%', HexDigit(bs[0] / 16), HexDigit(bs[0] % 16)] + Escape(bs[1..])
  }

  /**
   * Every character that the set keeps stays, every other one is replaced
   * by the escapes of its UTF-8 bytes.
   */
  function Encode(s: string, kept: Unescaped): (r: string)
    ensures forall i | 0 <= i < |r| :: r[i] == '%' || Keeps(kept, r[i])
    decreases |s|
  {
    if s == [] then []
    else (if Keeps(kept, s[0]) then [s[0]] else Escape(Utf8Char(s[0]))) + Encode(s[1..], kept)
  }

  function EncodeUri(s: string): string {
    Encode(s, UriSet)
  }

  function EncodeUriComponent(s: string): (r: string)
    ensures forall i | 0 <= i < |r| :: r[i] == '%' || IsUnreserved(r[i])
  {
    Encode(s, ComponentSet)
  }

  /** A string made only of characters the set keeps is its own encoding. */
  lemma {:induction false} EncodeKept(s: string, kept: Unescaped)
    requires forall i | 0 <= i < |s| :: Keeps(kept, s[i])
    ensures Encode(s, kept) == s
    decreases |s|
  {
    if s != [] {
      EncodeKept(s[1..], kept);
    }
  }

  /** Where a string holds no reserved character and no '#', encodeURI and encodeURIComponent agree. */
  lemma {:induction false} EncodersAgree(s: string)
    requires forall i | 0 <= i < |s| :: !IsReserved(s[i]) && s[i] != '#'
    ensures EncodeUri(s) == EncodeUriComponent(s)
    decreases |s|
  {
    if s != [] {
      EncodersAgree(s[1..]);
    }
  }

  // ---------------------------------------------------------------------
  // Reading a query string back (URL Standard, urlencoded parsing)

  predicate IsHexByte(b: Byte) {
    IsHex(b as char)
  }

  /** "%XY" becomes the byte XY; every other byte stays. */
  function PercentDecode(bs: seq<Byte>): seq<Byte>
    decreases |bs|
  {
    if bs == [] then []
    else if bs[0] == '%' as int && |bs| >= 3 && IsHexByte(bs[1]) && IsHexByte(bs[2]) then
      [HexValue(bs[1] as char) * 16 + HexValue(bs[2] as char)] + PercentDecode(bs[3..])
    else [bs[0]] + PercentDecode(bs[1..])
  }

  function PlusToSpace(s: string): (r: string)
    ensures |r| == |s|
    ensures forall i | 0 <= i < |s| :: r[i] == if s[i] == '+' then ' ' else s[i]
    decreases |s|
  {
    if s == [] then [] else [if s[0] == '+' then ' ' else s[0]] + PlusToSpace(s[1..])
  }

  /** A name or a value of a query string as the server reads it. */
  function FormDecode(s: string): string {
    Utf8Decode(PercentDecode(Utf8Encode(PlusToSpace(s))))
  }

  /** The three characters of an escape are ASCII, one byte each. */
  lemma EscapeIsAscii(b: Byte)
    ensures Utf8Encode(['%', HexDigit(b / 16), HexDigit(b % 16)])
         == ['%' as int, HexDigit(b / 16) as int, HexDigit(b % 16) as int]
  {
    var h1, h2 := HexDigit(b / 16), HexDigit(b % 16);
    assert ['%', h1, h2][1..] == [h1, h2];
    assert [h1, h2][1..] == [h2];
    assert [h2][1..] == [];
    assert Utf8Encode([h2]) == [h2 as int];
    assert Utf8Encode([h1, h2]) == [h1 as int, h2 as int];
  }

  /** Percent-decoding turns the escape of b back into b. */
  lemma PercentDecodeStep(b: Byte, rest: seq<Byte>)
    ensures PercentDecode(['%' as int, HexDigit(b / 16) as int, HexDigit(b % 16) as int] + rest)
         == [b] + PercentDecode(rest)
  {
    var h1, h2 := HexDigit(b / 16), HexDigit(b % 16);
    var xs := ['%' as int, h1 as int, h2 as int] + rest;
    assert xs[3..] == rest;
    assert h1 as int as char == h1 && h2 as int as char == h2;
  }

  /** One escape in front of text whose decoding is known. */
  lemma EscapeConsDecode(b: Byte, tail: string, rest: seq<Byte>, decoded: seq<Byte>)
    requires PercentDecode(Utf8Encode(tail) + rest) == decoded
    ensures PercentDecode(Utf8Encode(['%', HexDigit(b / 16), HexDigit(b % 16)] + tail) + rest) == [b] + decoded
  {
    var h1, h2 := HexDigit(b / 16), HexDigit(b % 16);
    Utf8EncodeAppend(['%', h1, h2], tail);
    EscapeIsAscii(b);
    var xs := Utf8Encode(['%', h1, h2] + tail) + rest;
    assert xs == ['%' as int, h1 as int, h2 as int] + (Utf8Encode(tail) + rest);
    PercentDecodeStep(b, Utf8Encode(tail) + rest);
  }

  lemma {:induction false} PercentDecodeEscape(bs: seq<Byte>, rest: seq<Byte>)
    ensures PercentDecode(Utf8Encode(Escape(bs)) + rest) == bs + PercentDecode(rest)
    decreases |bs|
  {
    if bs == [] {
      assert Utf8Encode(Escape(bs)) + rest == rest;
    } else {
      PercentDecodeEscape(bs[1..], rest);
      var decoded := bs[1..] + PercentDecode(rest);
      EscapeConsDecode(bs[0], Escape(bs[1..]), rest, decoded);
      assert Escape(bs) == ['%', HexDigit(bs[0] / 16), HexDigit(bs[0] % 16)] + Escape(bs[1..]);
      assert PercentDecode(Utf8Encode(Escape(bs)) + rest) == [bs[0]] + decoded;
      ConsAppend(bs[0], bs[1..], PercentDecode(rest));
      assert [bs[0]] + bs[1..] == bs;
    }
  }

  lemma ConsAppend<T>(x: T, xs: seq<T>, ys: seq<T>)
    ensures [x] + (xs + ys) == ([x] + xs) + ys
  {
  }

  /** Percent-decoding undoes encodeURIComponent at the level of bytes. */
  lemma {:induction false} PercentDecodeComponent(s: string)
    ensures PercentDecode(Utf8Encode(EncodeUriComponent(s))) == Utf8Encode(s)
    decreases |s|
  {
    if s != [] {
      var c := s[0];
      var head := if Keeps(ComponentSet, c) then [c] else Escape(Utf8Char(c));
      var tail := EncodeUriComponent(s[1..]);
      assert EncodeUriComponent(s) == head + tail;
      Utf8EncodeAppend(head, tail);
      if Keeps(ComponentSet, c) {
        assert Utf8Encode(head) == [c as int];
        assert (Utf8Encode(head) + Utf8Encode(tail))[1..] == Utf8Encode(tail);
      } else {
        PercentDecodeEscape(Utf8Char(c), Utf8Encode(tail));
      }
      PercentDecodeComponent(s[1..]);
    }
  }

  /** The server reads back exactly the string that encodeURIComponent was given. */
  lemma ComponentRoundTrip(s: string)
    ensures FormDecode(EncodeUriComponent(s)) == s
  {
    var e := EncodeUriComponent(s);
    assert PlusToSpace(e) == e;
    PercentDecodeComponent(s);
    Utf8RoundTrip(s);
  }

  /** A string of unreserved characters reads back as itself. */
  lemma PlainRoundTrip(s: string)
    requires forall i | 0 <= i < |s| :: IsUnreserved(s[i])
    ensures FormDecode(s) == s
  {
    EncodeKept(s, ComponentSet);
    ComponentRoundTrip(s);
  }

  // ---------------------------------------------------------------------
  // URLs

  /** What a server takes from a URL: the part before '?', and the decoded name/value pairs. */
  datatype Url = Url(base: string, params: seq<(string, string)>)

  /** One "name=value" piece; without '=' the whole piece is the name and the value is empty. */
  function NameValue(piece: string): (string, string) {
    var k := IndexOf(piece, '=');
    (FormDecode(piece[..k]), FormDecode(if k < |piece| then piece[k + 1..] else ""))
  }

  /** The pairs of the non-empty pieces, in order. */
  function Pairs(pieces: seq<string>): seq<(string, string)>
    decreases |pieces|
  {
    if pieces == [] then []
    else (if pieces[0] == "" then [] else [NameValue(pieces[0])]) + Pairs(pieces[1..])
  }

  /** The fragment ('#' onwards) is dropped; the query is what follows the first '?'. */
  function ParseUrl(url: string): Url {
    var s := url[..IndexOf(url, '#')];
    var q := IndexOf(s, '?');
    if q == |s| then Url(s, []) else Url(s[..q], Pairs(Split(s[q + 1..], '&')))
  }

  /** The pieces glued together with '&'. */
  function Join(pieces: seq<string>): string
    decreases |pieces|
  {
    if pieces == [] then ""
    else if |pieces| == 1 then pieces[0]
    else pieces[0] + "&" + Join(pieces[1..])
  }

  lemma {:induction false} JoinSnoc(pieces: seq<string>, p: string)
    requires pieces != []
    ensures Join(pieces + [p]) == Join(pieces) + "&" + p
    decreases |pieces|
  {
    if |pieces| > 1 {
      assert (pieces + [p])[1..] == pieces[1..] + [p];
      JoinSnoc(pieces[1..], p);
    } else {
      assert (pieces + [p])[1..] == [p];
    }
  }

  lemma {:induction false} SplitJoin(pieces: seq<string>)
    requires pieces != []
    requires forall i | 0 <= i < |pieces| :: '&' !in pieces[i]
    ensures Split(Join(pieces), '&') == pieces
    decreases |pieces|
  {
    if |pieces| == 1 {
      SplitNone(pieces[0], '&');
    } else {
      SplitFirst(pieces[0], Join(pieces[1..]), '&');
      SplitJoin(pieces[1..]);
    }
  }

  lemma {:induction false} JoinAvoids(pieces: seq<string>, c: char)
    requires c != '&'
    requires forall i | 0 <= i < |pieces| :: c !in pieces[i]
    ensures c !in Join(pieces)
    decreases |pieces|
  {
    if |pieces| > 1 {
      JoinAvoids(pieces[1..], c);
    }
  }

  /**
   * A URL made of a base, '?', and '&'-separated pieces, none of which holds
   * '&' or '#', is read as that base and the pairs of those pieces.
   */
  lemma ParseJoinedUrl(base: string, pieces: seq<string>)
    requires '?' !in base && '#' !in base
    requires pieces != []
    requires forall i | 0 <= i < |pieces| :: '&' !in pieces[i] && '#' !in pieces[i]
    ensures ParseUrl(base + "?" + Join(pieces)) == Url(base, Pairs(pieces))
  {
    JoinAvoids(pieces, '#');
    QueryAfterMark(base, Join(pieces));
    SplitJoin(pieces);
  }

  /** In base + "?" + q, with no '#' anywhere and no '?' in base, the query is q. */
  lemma QueryAfterMark(base: string, q: string)
    requires '?' !in base && '#' !in base && '#' !in q
    ensures var url := base + "?" + q;
      && url[..IndexOf(url, '#')] == url
      && IndexOf(url, '?') == |base|
      && url[..|base|] == base
      && url[|base| + 1..] == q
  {
    var url := base + "?" + q;
    assert url == base + ("?" + q);
    IndexOfAppend(base, "?" + q, '#');
    IndexOfAppend("?", q, '#');
    assert IndexOf(url, '#') == |url|;
    IndexOfAppend(base, "?" + q, '?');
  }

  /** "name=value" reads as the decoded name and value when the name holds no '='. */
  lemma NameValueSplit(name: string, value: string)
    requires '=' !in name
    ensures NameValue(name + "=" + value) == (FormDecode(name), FormDecode(value))
  {
    var piece := name + "=" + value;
    IndexOfAppend(name, "=" + value, '=');
    assert piece == name + ("=" + value);
    assert piece[..|name|] == name;
    assert piece[|name| + 1..] == value;
  }

  lemma {:induction false} PairsAppend(a: seq<string>, b: seq<string>)
    ensures Pairs(a + b) == Pairs(a) + Pairs(b)
    decreases |a|
  {
    if a == [] {
      assert a + b == b;
    } else {
      assert (a + b)[1..] == a[1..] + b;
      PairsAppend(a[1..], b);
    }
  }
}
