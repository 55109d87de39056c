/**
  `encodeURIComponent` (section 18.2.6.5 of ECMA-262, 2015 edition): every
  character outside `A-Z a-z 0-9 - _ . ! ~ * ' ( )` is written as the UTF-8
  bytes of its code point, each as `%XX` with upper-case hex digits, the
  percent-encoding of section 2.1 of RFC 3986. Its partner is a decoder that
  reads the escapes back to bytes and the bytes back to characters;
  DecodeEncode proves that decoding undoes encoding on every string.
 */
module UriComponent {
  import opened Wrappers

  type Byte = b: int | 0 <= b < 256

  /** The characters `encodeURIComponent` leaves as they are. */
  predicate IsUnreserved(c: char) {
    || ('A' <= c <= 'Z') || ('a' <= c <= 'z') || ('0' <= c <= '9')
    || c == '-' || c == '_' || c == '.' || c == '!' || c == '~'
    || c == '*' || c == '\'' || c == '(' || c == ')'
  }

  /** The UTF-8 encoding of one code point: one byte below U+0080, then two,
      three or four bytes, a lead byte followed by 10xxxxxx continuation bytes. */
  function Utf8(c: char): seq<Byte> {
    var n := c as int;
    if n < 0x80 then [n]
    else if n < 0x800 then [0xC0 + n / 0x40, 0x80 + n % 0x40]
    else if n < 0x1_0000 then [0xE0 + n / 0x1000, 0x80 + (n / 0x40) % 0x40, 0x80 + n % 0x40]
    else [0xF0 + n / 0x4_0000, 0x80 + (n / 0x1000) % 0x40, 0x80 + (n / 0x40) % 0x40, 0x80 + n % 0x40]
  }

  /** The UTF-8 encoding of a string. */
  function Utf8Encode(s: string): seq<Byte> {
    if s == [] then [] else Utf8(s[0]) + Utf8Encode(s[1..])
  }

  /** An upper-case hexadecimal digit. */
  function HexDigit(d: int): char
    requires 0 <= d < 16
  {
    if d < 10 then ('0' as int + d) as char else ('A' as int + d - 10) as char
  }

  predicate IsHexDigit(c: char) {
    ('0' <= c <= '9') || ('A' <= c <= 'F') || ('a' <= c <= 'f')
  }

  /** The value of a hexadecimal digit of either case. */
  function HexValue(c: char): (d: int)
    requires IsHexDigit(c)
    ensures 0 <= d < 16
  {
    if '0' <= c <= '9' then c as int - '0' as int
    else if 'A' <= c <= 'F' then c as int - 'A' as int + 10
    else c as int - 'a' as int + 10
  }

  /** `%XX` for one byte. */
  function PercentByte(b: Byte): string {
    ['%', HexDigit(b / 16), HexDigit(b % 16)]
  }

  function PercentBytes(bs: seq<Byte>): (r: string)
    ensures forall k | 0 <= k < |r| :: IsUnreserved(r[k]) || r[k] == '%'
  {
    if bs == [] then [] else PercentByte(bs[0]) + PercentBytes(bs[1..])
  }

  function EncodeChar(c: char): (r: string)
    ensures forall k | 0 <= k < |r| :: IsUnreserved(r[k]) || r[k] == '%'
  {
    if IsUnreserved(c) then [c] else PercentBytes(Utf8(c))
  }

  /** `encodeURIComponent(s)`. Its output uses only unreserved characters and
      `%`, so it never holds a delimiter of a URI query (`&`, `=`, `?`, `#`)
      nor a space. */
  function EncodeUriComponent(s: string): (r: string)
    ensures forall k | 0 <= k < |r| :: IsUnreserved(r[k]) || r[k] == '%'
  {
    if s == [] then [] else EncodeChar(s[0]) + EncodeUriComponent(s[1..])
  }

  /** Puts `p` in front of a decoded result, passing a failure through. */
  function Prepend<T>(p: seq<T>, o: Option<seq<T>>): Option<seq<T>> {
    match o
    case None => None
    case Some(r) => Some(p + r)
  }

  /** Reads escapes back to bytes: `%XX` is one byte (hex digits of either
      case), any other character stands for its own UTF-8 bytes, and a `%` not
      followed by two hex digits is malformed. */
  function PercentDecode(t: string): Option<seq<Byte>> {
    if t == [] then Some([])
    else if t[0] == '%' then
      if |t| >= 3 && IsHexDigit(t[1]) && IsHexDigit(t[2])
      then Prepend([HexValue(t[1]) * 16 + HexValue(t[2])], PercentDecode(t[3..]))
      else None
    else Prepend(Utf8(t[0]), PercentDecode(t[1..]))
  }

  /** The length of the UTF-8 sequence a lead byte announces; 0 for a byte that
      cannot start one. */
  function SequenceLength(b: Byte): nat {
    if b < 0x80 then 1
    else if 0xC2 <= b < 0xE0 then 2
    else if 0xE0 <= b < 0xF0 then 3
    else if 0xF0 <= b < 0xF5 then 4
    else 0
  }

  predicate IsContinuation(b: Byte) {
    0x80 <= b < 0xC0
  }

  /** Decodes one complete UTF-8 sequence, rejecting bad continuation bytes,
      over-long forms, surrogates and values past U+10FFFF. */
  function DecodeOne(u: seq<Byte>): Option<char>
    requires 1 <= |u| <= 4
  {
    if exists k | 1 <= k < |u| :: !IsContinuation(u[k]) then None
    else
      var n :=
        if |u| == 1 then u[0] as int
        else if |u| == 2 then (u[0] as int - 0xC0) * 0x40 + (u[1] as int - 0x80)
        else if |u| == 3 then (u[0] as int - 0xE0) * 0x1000 + (u[1] as int - 0x80) * 0x40 + (u[2] as int - 0x80)
        else (u[0] as int - 0xF0) * 0x4_0000 + (u[1] as int - 0x80) * 0x1000 + (u[2] as int - 0x80) * 0x40 + (u[3] as int - 0x80);
      var least := if |u| == 1 then 0 else if |u| == 2 then 0x80 else if |u| == 3 then 0x800 else 0x1_0000;
      if least <= n && (n < 0xD800 || 0xE000 <= n < 0x11_0000) then Some(n as char) else None
  }

  /** Reads UTF-8 bytes back to characters. */
  function Utf8Decode(bs: seq<Byte>): Option<string>
    decreases |bs|
  {
    if bs == [] then Some([])
    else
      var len := SequenceLength(bs[0]);
      if len == 0 || |bs| < len then None
      else match DecodeOne(bs[..len])
        case None => None
        case Some(c) => Prepend([c], Utf8Decode(bs[len..]))
  }

  /** `decodeURIComponent`, as the inverse of the encoder. */
  function DecodeUriComponent(t: string): Option<string> {
    match PercentDecode(t)
    case None => None
    case Some(bs) => Utf8Decode(bs)
  }

  /** Splitting a code point into 6-bit groups and joining them again gives it back. */
  lemma SixBitGroups(n: int)
    requires 0 <= n
    ensures n / 0x40 * 0x40 + n % 0x40 == n
    ensures (n / 0x40) % 0x40 * 0x40 + n % 0x40 + n / 0x1000 * 0x1000 == n
    ensures (n / 0x1000) % 0x40 * 0x1000 + (n / 0x40) % 0x40 * 0x40 + n % 0x40 + n / 0x4_0000 * 0x4_0000 == n
  {
    var a := n / 0x40;
    var b := a / 0x40;
    assert n / 0x1000 == b;
    assert b / 0x40 == n / 0x4_0000;
  }

  /** A code point from U+0080 to U+07FF: two bytes that decode back to it. */
  lemma Utf8TwoBytes(c: char)
    requires 0x80 <= c as int < 0x800
    ensures |Utf8(c)| == 2 && SequenceLength(Utf8(c)[0]) == 2
    ensures DecodeOne(Utf8(c)) == Some(c)
  {
    var n := c as int;
    var u := Utf8(c);
    SixBitGroups(n);
    assert u == [0xC0 + n / 0x40, 0x80 + n % 0x40];
    assert !exists k | 1 <= k < |u| :: !IsContinuation(u[k]);
    assert (u[0] as int - 0xC0) * 0x40 + (u[1] as int - 0x80) == n;
  }

  /** A code point from U+0800 to U+FFFF: three bytes that decode back to it. */
  lemma Utf8ThreeBytes(c: char)
    requires 0x800 <= c as int < 0x1_0000
    ensures |Utf8(c)| == 3 && SequenceLength(Utf8(c)[0]) == 3
    ensures DecodeOne(Utf8(c)) == Some(c)
  {
    var n := c as int;
    var u := Utf8(c);
    SixBitGroups(n);
    assert u == [0xE0 + n / 0x1000, 0x80 + (n / 0x40) % 0x40, 0x80 + n % 0x40];
    assert !exists k | 1 <= k < |u| :: !IsContinuation(u[k]);
    assert (u[0] as int - 0xE0) * 0x1000 + (u[1] as int - 0x80) * 0x40 + (u[2] as int - 0x80) == n;
  }

  /** A code point from U+10000 on: four bytes that decode back to it. */
  lemma Utf8FourBytes(c: char)
    requires 0x1_0000 <= c as int
    ensures |Utf8(c)| == 4 && SequenceLength(Utf8(c)[0]) == 4
    ensures DecodeOne(Utf8(c)) == Some(c)
  {
    var n := c as int;
    var u := Utf8(c);
    SixBitGroups(n);
    assert u == [0xF0 + n / 0x4_0000, 0x80 + (n / 0x1000) % 0x40, 0x80 + (n / 0x40) % 0x40, 0x80 + n % 0x40];
    assert !exists k | 1 <= k < |u| :: !IsContinuation(u[k]);
    assert (u[0] as int - 0xF0) * 0x4_0000 + (u[1] as int - 0x80) * 0x1000
      + (u[2] as int - 0x80) * 0x40 + (u[3] as int - 0x80) == n;
  }

  /** The bytes of one code point decode back to that code point, and its lead
      byte announces exactly their number. */
  lemma Utf8CharRoundTrip(c: char)
    ensures 1 <= |Utf8(c)| <= 4
    ensures SequenceLength(Utf8(c)[0]) == |Utf8(c)|
    ensures DecodeOne(Utf8(c)) == Some(c)
  {
    var n := c as int;
    if n < 0x80 {
    } else if n < 0x800 {
      Utf8TwoBytes(c);
    } else if n < 0x1_0000 {
      Utf8ThreeBytes(c);
    } else {
      Utf8FourBytes(c);
    }
  }

  /** UTF-8 decoding undoes UTF-8 encoding. */
  lemma {:induction false} Utf8RoundTrip(s: string)
    ensures Utf8Decode(Utf8Encode(s)) == Some(s)
  {
    if s != [] {
      var u := Utf8(s[0]);
      var bs := Utf8Encode(s);
      Utf8CharRoundTrip(s[0]);
      Utf8RoundTrip(s[1..]);
      assert bs[..|u|] == u;
      assert bs[|u|..] == Utf8Encode(s[1..]);
      assert s == [s[0]] + s[1..];
    }
  }

  /** Reading a `%XX` group gives back its byte. */
  lemma PercentByteDecodes(b: Byte, t: string)
    ensures PercentDecode(PercentByte(b) + t) == Prepend([b], PercentDecode(t))
  {
    var e := PercentByte(b) + t;
    assert e[0] == '%' && e[1] == HexDigit(b / 16) && e[2] == HexDigit(b % 16);
    assert e[3..] == t;
  }

  /** Prepending in two steps is prepending the joined prefix. */
  lemma PrependTwice<T>(p: seq<T>, q: seq<T>, o: Option<seq<T>>)
    ensures Prepend(p, Prepend(q, o)) == Prepend(p + q, o)
  {
    if o.Some? {
      assert p + (q + o.value) == (p + q) + o.value;
    }
  }

  /** Reading a run of `%XX` groups gives back its bytes. */
  lemma {:induction false} PercentBytesDecode(bs: seq<Byte>, t: string)
    ensures PercentDecode(PercentBytes(bs) + t) == Prepend(bs, PercentDecode(t))
  {
    if bs != [] {
      var head, rest := PercentByte(bs[0]), PercentBytes(bs[1..]);
      assert PercentBytes(bs) == head + rest;
      assert (head + rest) + t == head + (rest + t);
      PercentBytesDecode(bs[1..], t);
      PercentByteDecodes(bs[0], rest + t);
      PrependTwice([bs[0]], bs[1..], PercentDecode(t));
      assert [bs[0]] + bs[1..] == bs;
    } else {
      assert PercentBytes(bs) + t == t;
      if PercentDecode(t).Some? {
        assert bs + PercentDecode(t).value == PercentDecode(t).value;
      }
    }
  }

  /** Reading the escapes of an encoded string gives the string's UTF-8 bytes. */
  lemma {:induction false} PercentDecodeEncoded(s: string)
    ensures PercentDecode(EncodeUriComponent(s)) == Some(Utf8Encode(s))
  {
    if s != [] {
      var rest := EncodeUriComponent(s[1..]);
      PercentDecodeEncoded(s[1..]);
      if IsUnreserved(s[0]) {
        var e := EncodeUriComponent(s);
        assert e == [s[0]] + rest;
        assert e[1..] == rest;
      } else {
        PercentBytesDecode(Utf8(s[0]), rest);
      }
    }
  }

  /** `decodeURIComponent(encodeURIComponent(s)) == s` for every string. */
  lemma DecodeEncode(s: string)
    ensures DecodeUriComponent(EncodeUriComponent(s)) == Some(s)
  {
    PercentDecodeEncoded(s);
    Utf8RoundTrip(s);
  }

  /** A string made only of unreserved characters is encoded as itself. */
  lemma {:induction false} EncodeUnreservedIsIdentity(s: string)
    requires forall k | 0 <= k < |s| :: IsUnreserved(s[k])
    ensures EncodeUriComponent(s) == s
  {
    if s != [] {
      EncodeUnreservedIsIdentity(s[1..]);
      assert s == [s[0]] + s[1..];
    }
  }
}
