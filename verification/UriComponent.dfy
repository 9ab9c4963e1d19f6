/** `encodeURIComponent` and its inverse `decodeURIComponent` (ECMAScript 2023,
    sections 19.2.6.4 and 19.2.6.2, through the Encode and Decode operations of
    sections 19.2.6.5 and 19.2.6.6): every character outside the unreserved set
    is written as the `%XX` triples of its UTF-8 octets (section 2.1 of
    RFC 3986, section 3 of RFC 3629). */
module UriComponent {
  import opened Wrappers

  type Byte = b: int | 0 <= b < 0x100

  /** The characters `encodeURIComponent` leaves as they are: ASCII letters,
      decimal digits and the marks `-_.!~*'()`. */
  predicate IsUnreserved(c: char) {
    || ('A' <= c <= 'Z') || ('a' <= c <= 'z') || ('0' <= c <= '9')
    || c == '-' || c == '_' || c == '.' || c == '!' || c == '~'
    || c == '*' || c == '\'' || c == '(' || c == ')'
  }

  /** The upper-case hexadecimal digit the encoder writes for `n`. */
  function HexDigit(n: int): (c: char)
    requires 0 <= n < 16
  {
    if n < 10 then ('0' as int + n) as char else ('A' as int + n - 10) as char
  }

  predicate IsUpperHexDigit(c: char) {
    ('0' <= c <= '9') || ('A' <= c <= 'F')
  }

  /** A hexadecimal digit as the decoder reads it, in either case. */
  predicate IsHexDigit(c: char) {
    IsUpperHexDigit(c) || ('a' <= c <= 'f')
  }

  function HexValue(c: char): (n: int)
    requires IsHexDigit(c)
    ensures 0 <= n < 16
  {
    if c <= '9' then c as int - '0' as int
    else if c <= 'F' then c as int - 'A' as int + 10
    else c as int - 'a' as int + 10
  }

  // ---------------------------------------------------------------- UTF-8

  /** The UTF-8 octets of a Unicode scalar value: one octet below 0x80, then a
      lead octet and one to three continuation octets of six bits each. */
  function Utf8(c: char): (bs: seq<Byte>)
    ensures 1 <= |bs| <= 4
    ensures |bs| == 1 <==> c as int < 0x80
  {
    var cp := c as int;
    var s0, s1, s2 := cp % 0x40, cp / 0x40 % 0x40, cp / 0x40 / 0x40 % 0x40;
    if cp < 0x80 then [cp]
    else if cp < 0x800 then [0xC0 + cp / 0x40, 0x80 + s0]
    else if cp < 0x1_0000 then [0xE0 + cp / 0x40 / 0x40, 0x80 + s1, 0x80 + s0]
    else [0xF0 + cp / 0x40 / 0x40 / 0x40, 0x80 + s2, 0x80 + s1, 0x80 + s0]
  }

  /** The number of leading 1 bits of an octet: 0 for an ASCII octet, 1 for a
      continuation octet, 2 to 4 for the lead octet of a longer sequence. */
  function LeadingOnes(b: Byte): nat {
    if b < 0x80 then 0
    else if b < 0xC0 then 1
    else if b < 0xE0 then 2
    else if b < 0xF0 then 3
    else if b < 0xF8 then 4
    else if b < 0xFC then 5
    else if b < 0xFE then 6
    else if b < 0xFF then 7
    else 8
  }

  predicate IsContinuation(b: Byte) {
    0x80 <= b < 0xC0
  }

  /** The scalar value that `bs` is the UTF-8 encoding of, or None when `bs` is
      not the shortest encoding of a code point outside the surrogate range. */
  function Utf8Decode(bs: seq<Byte>): Option<char> {
    if |bs| == 1 && bs[0] < 0x80 then
      Some(bs[0] as char)
    else if |bs| == 2 && 0xC0 <= bs[0] < 0xE0 && IsContinuation(bs[1]) then
      var cp := (bs[0] as int - 0xC0) * 0x40 + (bs[1] as int - 0x80);
      if 0x80 <= cp then Some(cp as char) else None
    else if |bs| == 3 && 0xE0 <= bs[0] < 0xF0 && IsContinuation(bs[1]) && IsContinuation(bs[2]) then
      var cp := ((bs[0] as int - 0xE0) * 0x40 + (bs[1] as int - 0x80)) * 0x40 + (bs[2] as int - 0x80);
      if 0x800 <= cp && !(0xD800 <= cp < 0xE000) then Some(cp as char) else None
    else if && |bs| == 4 && 0xF0 <= bs[0] < 0xF8
            && IsContinuation(bs[1]) && IsContinuation(bs[2]) && IsContinuation(bs[3]) then
      var cp := (((bs[0] as int - 0xF0) * 0x40 + (bs[1] as int - 0x80)) * 0x40 + (bs[2] as int - 0x80)) * 0x40 + (bs[3] as int - 0x80);
      if 0x1_0000 <= cp < 0x11_0000 then Some(cp as char) else None
    else
      None
  }

  lemma DivMod64(x: int, q: int, r: int)
    requires 0 <= r < 0x40 && x == q * 0x40 + r
    ensures x / 0x40 == q && x % 0x40 == r
  {
  }

  /** Decoding the UTF-8 octets of a character gives the character back. */
  lemma Utf8DecodeUtf8(c: char)
    ensures Utf8Decode(Utf8(c)) == Some(c)
  {
    var cp := c as int;
    var q1, q2, q3 := cp / 0x40, cp / 0x40 / 0x40, cp / 0x40 / 0x40 / 0x40;
    if 0x80 <= cp {
      assert cp == q1 * 0x40 + cp % 0x40;
      if 0x800 <= cp {
        assert q1 == q2 * 0x40 + q1 % 0x40;
        if 0x1_0000 <= cp {
          assert q2 == q3 * 0x40 + q2 % 0x40;
        }
      }
    }
  }

  /** Only the UTF-8 octets of a character decode to it: a well-formed
      sequence is the encoding of what it decodes to. */
  lemma Utf8DecodeOnlyUtf8(bs: seq<Byte>, c: char)
    requires Utf8Decode(bs) == Some(c)
    ensures bs == Utf8(c)
  {
    var cp := c as int;
    if |bs| == 2 {
      DivMod64(cp, bs[0] - 0xC0, bs[1] - 0x80);
    } else if |bs| == 3 {
      var q1 := (bs[0] as int - 0xE0) * 0x40 + (bs[1] as int - 0x80);
      DivMod64(cp, q1, bs[2] - 0x80);
      DivMod64(q1, bs[0] - 0xE0, bs[1] - 0x80);
    } else if |bs| == 4 {
      var q2 := (bs[0] as int - 0xF0) * 0x40 + (bs[1] as int - 0x80);
      var q1 := q2 * 0x40 + (bs[2] as int - 0x80);
      DivMod64(cp, q1, bs[3] - 0x80);
      DivMod64(q1, q2, bs[2] - 0x80);
      DivMod64(q2, bs[0] - 0xF0, bs[1] - 0x80);
    }
  }

  /** The lead octet of a character's UTF-8 encoding announces its length, as
      the decoder reads it. */
  lemma LeadingOnesOfUtf8(c: char)
    ensures LeadingOnes(Utf8(c)[0]) == if |Utf8(c)| == 1 then 0 else |Utf8(c)|
  {
  }

  // ---------------------------------------------------------------- encoder

  /** `%XX` with upper-case hexadecimal digits, for every octet of `bs`. */
  function Percent(bs: seq<Byte>): (e: string)
    ensures |e| == 3 * |bs|
  {
    if bs == [] then [] else ['%', HexDigit(bs[0] / 16), HexDigit(bs[0] % 16)] + Percent(bs[1..])
  }

  function EncodeChar(c: char): string {
    if IsUnreserved(c) then [c] else Percent(Utf8(c))
  }

  /** `encodeURIComponent(s)` for a string of Unicode scalar values. */
  function Encode(s: string): string {
    if s == [] then [] else EncodeChar(s[0]) + Encode(s[1..])
  }

  /** The shape of an encoder output: unreserved characters and `%` followed by
      two upper-case hexadecimal digits. */
  predicate IsPercentEncoded(e: string)
    decreases |e|
  {
    if e == [] then true
    else if IsUnreserved(e[0]) then IsPercentEncoded(e[1..])
    else && e[0] == '%' && |e| >= 3 && IsUpperHexDigit(e[1]) && IsUpperHexDigit(e[2])
         && IsPercentEncoded(e[3..])
  }

  /** Triples for `bs` in front of an encoder output still make an encoder
      output. */
  lemma {:induction false} PercentThenEncoded(bs: seq<Byte>, rest: string)
    requires IsPercentEncoded(rest)
    ensures IsPercentEncoded(Percent(bs) + rest)
  {
    if bs != [] {
      var e := Percent(bs) + rest;
      PercentThenEncoded(bs[1..], rest);
      assert e[0] == '%' && e[1] == HexDigit(bs[0] / 16) && e[2] == HexDigit(bs[0] % 16);
      assert e[3..] == Percent(bs[1..]) + rest;
    } else {
      assert Percent(bs) + rest == rest;
    }
  }

  /** Everything `encodeURIComponent` produces is unreserved characters and
      well-formed `%XX` triples. */
  lemma {:induction false} EncodeIsPercentEncoded(s: string)
    ensures IsPercentEncoded(Encode(s))
  {
    if s != [] {
      var e := Encode(s);
      EncodeIsPercentEncoded(s[1..]);
      if IsUnreserved(s[0]) {
        assert e[0] == s[0] && e[1..] == Encode(s[1..]);
      } else {
        PercentThenEncoded(Utf8(s[0]), Encode(s[1..]));
      }
    }
  }

  /** A percent-encoded string uses no character but the unreserved ones and
      `%`: no `&`, `=`, `?`, `#` or white space can appear in it. */
  lemma {:induction false} PercentEncodedAlphabet(e: string)
    requires IsPercentEncoded(e)
    ensures forall k :: 0 <= k < |e| ==> IsUnreserved(e[k]) || e[k] == '%'
    decreases |e|
  {
    if e != [] {
      var n := if IsUnreserved(e[0]) then 1 else 3;
      PercentEncodedAlphabet(e[n..]);
      forall k | n <= k < |e| ensures IsUnreserved(e[k]) || e[k] == '%' {
        assert e[k] == e[n..][k - n];
      }
    }
  }

  /** The encoder works character by character: the encoding of a
      concatenation is the concatenation of the encodings. */
  lemma {:induction false} EncodeAppend(a: string, b: string)
    ensures Encode(a + b) == Encode(a) + Encode(b)
  {
    if a != [] {
      EncodeAppend(a[1..], b);
      assert (a + b)[1..] == a[1..] + b;
    } else {
      assert a + b == b;
    }
  }

  /** A string of unreserved characters only is its own encoding. */
  lemma {:induction false} EncodeUnreservedUnchanged(s: string)
    requires forall k :: 0 <= k < |s| ==> IsUnreserved(s[k])
    ensures Encode(s) == s
  {
    if s != [] {
      EncodeUnreservedUnchanged(s[1..]);
      assert s == [s[0]] + s[1..];
    }
  }

  // ---------------------------------------------------------------- decoder

  /** The octet of a `%XX` triple at the start of `s`; None when `s` does not
      start with `%` and two hexadecimal digits. */
  function ReadOctet(s: string): Option<Byte> {
    if |s| >= 3 && s[0] == '%' && IsHexDigit(s[1]) && IsHexDigit(s[2])
    then Some(HexValue(s[1]) * 16 + HexValue(s[2]))
    else None
  }

  /** The octets of `n` consecutive `%XX` triples at the start of `s`. */
  function ReadOctets(s: string, n: nat): Option<seq<Byte>>
    requires |s| >= 3 * n
  {
    if n == 0 then Some([])
    else match ReadOctet(s)
      case None => None
      case Some(b) =>
        match ReadOctets(s[3..], n - 1)
        case None => None
        case Some(bs) => Some([b] + bs)
  }

  function Prepend(c: char, r: Option<string>): Option<string> {
    match r
    case None => None
    case Some(t) => Some([c] + t)
  }

  /** `decodeURIComponent(s)`; None stands for the URIError it throws on a
      malformed triple or on octets that are not UTF-8. */
  function Decode(s: string): Option<string>
    decreases |s|
  {
    if s == [] then Some([])
    else if s[0] != '%' then Prepend(s[0], Decode(s[1..]))
    else match ReadOctet(s)
      case None => None
      case Some(b) =>
        var n := LeadingOnes(b);
        if n == 0 then Prepend(b as char, Decode(s[3..]))
        else if n == 1 || n > 4 || |s| < 3 * n then None
        else match ReadOctets(s, n)
          case None => None
          case Some(bs) =>
            match Utf8Decode(bs)
            case None => None
            case Some(c) => Prepend(c, Decode(s[3 * n..]))
  }

  lemma ReadOctetPercent(bs: seq<Byte>, rest: string)
    requires bs != []
    ensures ReadOctet(Percent(bs) + rest) == Some(bs[0])
  {
    var e := Percent(bs) + rest;
    assert e[0] == '%' && e[1] == HexDigit(bs[0] / 16) && e[2] == HexDigit(bs[0] % 16);
  }

  lemma {:induction false} ReadOctetsPercent(bs: seq<Byte>, rest: string)
    ensures |Percent(bs) + rest| >= 3 * |bs|
    ensures ReadOctets(Percent(bs) + rest, |bs|) == Some(bs)
  {
    if bs != [] {
      var e := Percent(bs) + rest;
      ReadOctetPercent(bs, rest);
      ReadOctetsPercent(bs[1..], rest);
      assert e[3..] == Percent(bs[1..]) + rest;
      assert [bs[0]] + bs[1..] == bs;
    }
  }

  /** Decoding the encoding of one character, followed by anything, yields the
      character in front of the decoding of what follows. */
  lemma DecodeEncodeChar(c: char, rest: string)
    ensures Decode(EncodeChar(c) + rest) == Prepend(c, Decode(rest))
  {
    var e := EncodeChar(c) + rest;
    if IsUnreserved(c) {
      assert e[0] == c && e[1..] == rest;
    } else {
      var bs := Utf8(c);
      ReadOctetPercent(bs, rest);
      ReadOctetsPercent(bs, rest);
      LeadingOnesOfUtf8(c);
      Utf8DecodeUtf8(c);
      assert e[0] == '%';
      assert e[3 * |bs|..] == rest;
    }
  }

  /** `decodeURIComponent(encodeURIComponent(s)) == s`. */
  lemma {:induction false} DecodeEncode(s: string)
    ensures Decode(Encode(s)) == Some(s)
  {
    if s != [] {
      DecodeEncode(s[1..]);
      DecodeEncodeChar(s[0], Encode(s[1..]));
      assert [s[0]] + s[1..] == s;
    }
  }
}
