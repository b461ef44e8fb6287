/**
 * Percent-encoding of a query value, as `urlencoding::encode` does it: the
 * text is taken as UTF-8, the unreserved characters of section 2.3 of
 * RFC 3986 are kept, and every other octet becomes `%XX` with upper-case
 * hex digits (section 2.1 of RFC 3986). A decoder is given beside it so
 * that the round trip can be stated.
 */
module PercentEncoding {
  import opened Wrappers
  import opened Octets

  /** The UTF-8 encoding of one Unicode scalar value. */
  function CharUtf8(c: char): (bs: seq<byte>)
    ensures 1 <= |bs| <= 4
  {
    var n := c as int;
    if n < 0x80 then [n as byte]
    else if n < 0x800 then [(0xC0 + n / 64) as byte, (0x80 + n % 64) as byte]
    else if n < 0x10000 then
      [(0xE0 + n / 4096) as byte, (0x80 + (n / 64) % 64) as byte, (0x80 + n % 64) as byte]
    else
      [(0xF0 + n / 262144) as byte, (0x80 + (n / 4096) % 64) as byte,
       (0x80 + (n / 64) % 64) as byte, (0x80 + n % 64) as byte]
  }

  /** The UTF-8 encoding of a string. */
  function Utf8(s: string): seq<byte> {
    if s == [] then [] else CharUtf8(s[0]) + Utf8(s[1..])
  }

  /** The scalar value held by `len` octets that start with a lead octet; None when they hold none. */
  function CharFromUtf8(bs: seq<byte>, len: nat): Option<char>
    requires 1 <= len <= 4 && |bs| >= len
  {
    var n :=
      if len == 1 then bs[0] as int
      else if len == 2 then (bs[0] as int - 0xC0) * 64 + (bs[1] as int - 0x80)
      else if len == 3 then (bs[0] as int - 0xE0) * 4096 + (bs[1] as int - 0x80) * 64 + (bs[2] as int - 0x80)
      else (bs[0] as int - 0xF0) * 262144 + (bs[1] as int - 0x80) * 4096 + (bs[2] as int - 0x80) * 64 + (bs[3] as int - 0x80);
    if (0 <= n < 0xD800 || 0xE000 <= n < 0x11_0000) then Some(n as char) else None
  }

  /** How many octets a sequence that starts with lead octet `b` takes. */
  function Utf8Length(b: byte): nat {
    if b < 0x80 then 1 else if b < 0xE0 then 2 else if b < 0xF0 then 3 else 4
  }

  /** UTF-8 decoding (lenient about continuation octets; it only has to invert `Utf8`). */
  function Utf8Decode(bs: seq<byte>): Option<string>
    decreases |bs|
  {
    if bs == [] then Some([])
    else
      var len := Utf8Length(bs[0]);
      if |bs| < len then None
      else match (CharFromUtf8(bs, len), Utf8Decode(bs[len..]))
        case (Some(c), Some(rest)) => Some([c] + rest)
        case _ => None
  }

  /** A lead octet and the octets after it: only the first `len` are read. */
  lemma CharFromUtf8Prefix(bs: seq<byte>, rest: seq<byte>, len: nat)
    requires 1 <= len <= 4 && |bs| >= len
    ensures CharFromUtf8(bs + rest, len) == CharFromUtf8(bs, len)
  {
    assert forall i :: 0 <= i < len ==> (bs + rest)[i] == bs[i];
  }

  /** Two octets carry 11 bits: 6 in the continuation octet, the rest in the lead. */
  lemma CharUtf8Two(c: char)
    requires 0x80 <= c as int < 0x800
    ensures Utf8Length(CharUtf8(c)[0]) == 2 && CharFromUtf8(CharUtf8(c), 2) == Some(c)
  {
    var n := c as int;
    assert n == (n / 64) * 64 + n % 64;
  }

  /** Three octets carry 16 bits, 6 in each continuation octet. */
  lemma CharUtf8Three(c: char)
    requires 0x800 <= c as int < 0x10000
    ensures Utf8Length(CharUtf8(c)[0]) == 3 && CharFromUtf8(CharUtf8(c), 3) == Some(c)
  {
    var n := c as int;
    assert n / 64 == (n / 4096) * 64 + (n / 64) % 64;
    assert n == (n / 64) * 64 + n % 64;
  }

  /** Four octets carry 21 bits, 6 in each continuation octet. */
  lemma CharUtf8Four(c: char)
    requires 0x10000 <= c as int
    ensures Utf8Length(CharUtf8(c)[0]) == 4 && CharFromUtf8(CharUtf8(c), 4) == Some(c)
  {
    var n := c as int;
    assert n / 4096 == (n / 262144) * 64 + (n / 4096) % 64;
    assert n / 64 == (n / 4096) * 64 + (n / 64) % 64;
    assert n == (n / 64) * 64 + n % 64;
  }

  /** Decoding the octets of one character gives it back, whatever follows. */
  lemma CharUtf8RoundTrip(c: char, rest: seq<byte>)
    ensures var bs := CharUtf8(c) + rest;
            Utf8Length(bs[0]) == |CharUtf8(c)| && CharFromUtf8(bs, |CharUtf8(c)|) == Some(c)
  {
    var n := c as int;
    var head := CharUtf8(c);
    if n < 0x80 {
    } else if n < 0x800 {
      CharUtf8Two(c);
    } else if n < 0x10000 {
      CharUtf8Three(c);
    } else {
      CharUtf8Four(c);
    }
    assert (head + rest)[0] == head[0];
    CharFromUtf8Prefix(head, rest, |head|);
  }

  /** UTF-8 decoding inverts UTF-8 encoding. */
  lemma {:induction false} Utf8RoundTrip(s: string)
    ensures Utf8Decode(Utf8(s)) == Some(s)
  {
    if s != [] {
      var bs := Utf8(s);
      var head := CharUtf8(s[0]);
      CharUtf8RoundTrip(s[0], Utf8(s[1..]));
      assert bs[|head|..] == Utf8(s[1..]);
      Utf8RoundTrip(s[1..]);
      assert [s[0]] + s[1..] == s;
    }
  }

  /** Octets that stand for themselves: ALPHA, DIGIT, `-`, `.`, `_` and `~`. */
  predicate IsUnreserved(b: byte) {
    (65 <= b <= 90) || (97 <= b <= 122) || (48 <= b <= 57) || b == 45 || b == 46 || b == 95 || b == 126
  }

  predicate IsUnreservedChar(c: char) {
    c as int < 256 && IsUnreserved(c as int as byte)
  }

  predicate IsUpperHexDigit(c: char) {
    ('0' <= c <= '9') || ('A' <= c <= 'F')
  }

  /** The value of a hex digit, either case. */
  function HexValue(c: char): Option<nat> {
    if '0' <= c <= '9' then Some(c as int - '0' as int)
    else if 'A' <= c <= 'F' then Some(c as int - 'A' as int + 10)
    else if 'a' <= c <= 'f' then Some(c as int - 'a' as int + 10)
    else None
  }

  /** The upper-case hex digit for `n`. */
  function HexDigit(n: nat): (c: char)
    requires n < 16
    ensures IsUpperHexDigit(c) && HexValue(c) == Some(n)
  {
    if n < 10 then (n + '0' as int) as char else (n - 10 + 'A' as int) as char
  }

  /** One octet, kept or escaped. */
  function EncodeByte(b: byte): string {
    if IsUnreserved(b) then [b as int as char]
    else ['%', HexDigit(b as int / 16), HexDigit(b as int % 16)]
  }

  /** Percent-encoding of octets: only unreserved characters, `%` and upper-case hex digits come out. */
  function EncodeBytes(bs: seq<byte>): (s: string)
    ensures forall i :: 0 <= i < |s| ==> IsUnreservedChar(s[i]) || s[i] == '%' || IsUpperHexDigit(s[i])
  {
    if bs == [] then []
    else
      var head := EncodeByte(bs[0]);
      var rest := EncodeBytes(bs[1..]);
      assert forall i :: 0 <= i < |head| ==> (head + rest)[i] == head[i];
      assert forall i :: |head| <= i < |head| + |rest| ==> (head + rest)[i] == rest[i - |head|];
      head + rest
  }

  /**
   * Percent-decoding that accepts only what `EncodeBytes` can produce in
   * shape: unreserved characters and `%XX` triplets; anything else is None.
   */
  function DecodeBytes(s: string): Option<seq<byte>>
    decreases |s|
  {
    if s == [] then Some([])
    else if s[0] == '%' then
      if |s| < 3 || HexValue(s[1]).None? || HexValue(s[2]).None? then None
      else match DecodeBytes(s[3..])
        case None => None
        case Some(rest) => Some([(HexValue(s[1]).value * 16 + HexValue(s[2]).value) as byte] + rest)
    else if IsUnreservedChar(s[0]) then
      match DecodeBytes(s[1..])
      case None => None
      case Some(rest) => Some([s[0] as int as byte] + rest)
    else None
  }

  /** Decoding inverts percent-encoding of octets. */
  lemma {:induction false} DecodeEncodeBytes(bs: seq<byte>)
    ensures DecodeBytes(EncodeBytes(bs)) == Some(bs)
  {
    if bs != [] {
      var b := bs[0];
      var head := EncodeByte(b);
      var s := EncodeBytes(bs);
      assert s == head + EncodeBytes(bs[1..]);
      DecodeEncodeBytes(bs[1..]);
      if IsUnreserved(b) {
        assert s[1..] == EncodeBytes(bs[1..]);
      } else {
        assert s[3..] == EncodeBytes(bs[1..]);
        assert b as int == (b as int / 16) * 16 + b as int % 16;
      }
      assert [b] + bs[1..] == bs;
    }
  }

  /** `urlencoding::encode`. */
  function Encode(msg: string): string {
    EncodeBytes(Utf8(msg))
  }

  /** Percent-decoding followed by UTF-8 decoding. */
  function Decode(s: string): Option<string> {
    match DecodeBytes(s)
    case None => None
    case Some(bs) => Utf8Decode(bs)
  }

  /** The encoded message is made of unreserved characters and `%XX` triplets only, and decodes back to the message. */
  lemma DecodeEncode(msg: string)
    ensures DecodeBytes(Encode(msg)) == Some(Utf8(msg))
    ensures Decode(Encode(msg)) == Some(msg)
  {
    DecodeEncodeBytes(Utf8(msg));
    Utf8RoundTrip(msg);
  }

  /** Distinct messages give distinct encodings. */
  lemma EncodeInjective(m1: string, m2: string)
    requires Encode(m1) == Encode(m2)
    ensures m1 == m2
  {
    DecodeEncode(m1);
    DecodeEncode(m2);
  }

  /** UTF-8 encoding works char by char. */
  lemma {:induction false} Utf8Concat(a: string, b: string)
    ensures Utf8(a + b) == Utf8(a) + Utf8(b)
  {
    if a != [] {
      assert (a + b)[1..] == a[1..] + b;
      Utf8Concat(a[1..], b);
    } else {
      assert a + b == b;
    }
  }

  /** Percent-encoding works octet by octet. */
  lemma {:induction false} EncodeBytesConcat(a: seq<byte>, b: seq<byte>)
    ensures EncodeBytes(a + b) == EncodeBytes(a) + EncodeBytes(b)
  {
    if a != [] {
      assert (a + b)[1..] == a[1..] + b;
      EncodeBytesConcat(a[1..], b);
    } else {
      assert a + b == b;
    }
  }

  /** Encoding works piece by piece. */
  lemma EncodeConcat(a: string, b: string)
    ensures Encode(a + b) == Encode(a) + Encode(b)
  {
    Utf8Concat(a, b);
    EncodeBytesConcat(Utf8(a), Utf8(b));
  }

  /** Text made of unreserved characters is its own encoding. */
  lemma {:induction false} EncodeUnreservedText(s: string)
    requires forall i :: 0 <= i < |s| ==> IsUnreservedChar(s[i])
    ensures Encode(s) == s
  {
    if s != [] {
      EncodeConcat([s[0]], s[1..]);
      assert [s[0]] + s[1..] == s;
      EncodeUnreservedText(s[1..]);
    }
  }

  /** A space is escaped as `%20`. */
  lemma EncodeSpaced(a: string, b: string)
    ensures Encode(a + " " + b) == Encode(a) + "%20" + Encode(b)
  {
    EncodeConcat(a + " ", b);
    EncodeConcat(a, " ");
    assert Encode(" ") == "%20";
  }

  /** Five words separated by spaces encode word by word, joined by `%20`. */
  lemma EncodeFiveWords(a: string, b: string, c: string, d: string, e: string)
    ensures Encode(a + " " + (b + " " + (c + " " + (d + " " + e))))
         == Encode(a) + "%20" + (Encode(b) + "%20" + (Encode(c) + "%20" + (Encode(d) + "%20" + Encode(e))))
  {
    EncodeSpaced(d, e);
    EncodeSpaced(c, d + " " + e);
    EncodeSpaced(b, c + " " + (d + " " + e));
    EncodeSpaced(a, b + " " + (c + " " + (d + " " + e)));
  }
}
