/**
  UTF-8 as sections 3 and 4 of RFC 3629 define it. The code points of a string are Unicode
  scalar values, so surrogates cannot occur.
*/
module Utf8 {
  import opened Keys
  import opened Wrappers

  newtype byte = b: int | 0 <= b < 256

  /** Byte-wise lexicographic order, the order of string comparison on encodings. */
  predicate BytesLess(a: seq<byte>, b: seq<byte>) {
    b != [] && (a == [] || a[0] < b[0] || (a[0] == b[0] && BytesLess(a[1..], b[1..])))
  }

  function EncodeChar(c: char): (r: seq<byte>)
    ensures 1 <= |r| <= 4
  {
    var n := c as int;
    if n < 0x80 then [n as byte]
    else if n < 0x800 then
      [(0xC0 + n / 0x40) as byte, (0x80 + n % 0x40) as byte]
    else if n < 0x10000 then
      [(0xE0 + n / 0x1000) as byte, (0x80 + n / 0x40 % 0x40) as byte, (0x80 + n % 0x40) as byte]
    else
      [(0xF0 + n / 0x40000) as byte, (0x80 + n / 0x1000 % 0x40) as byte,
       (0x80 + n / 0x40 % 0x40) as byte, (0x80 + n % 0x40) as byte]
  }

  function Encode(s: string): seq<byte> {
    if s == [] then [] else EncodeChar(s[0]) + Encode(s[1..])
  }

  /** Length of the sequence a lead byte announces; 0 for a byte that cannot lead. */
  function SequenceLength(lead: byte): nat {
    if lead < 0x80 then 1
    else if lead < 0xC2 then 0
    else if lead < 0xE0 then 2
    else if lead < 0xF0 then 3
    else if lead < 0xF5 then 4
    else 0
  }

  /** The number the payload bits of a sequence spell. */
  function Payload(b: seq<byte>): int
    requires |b| == 1 || |b| == 2 || |b| == 3 || |b| == 4
  {
    match |b|
    case 1 => b[0] as int
    case 2 => (b[0] as int - 0xC0) * 0x40 + (b[1] as int - 0x80)
    case 3 => (b[0] as int - 0xE0) * 0x1000 + (b[1] as int - 0x80) * 0x40 + (b[2] as int - 0x80)
    case _ => (b[0] as int - 0xF0) * 0x40000 + (b[1] as int - 0x80) * 0x1000
              + (b[2] as int - 0x80) * 0x40 + (b[3] as int - 0x80)
  }

  predicate IsScalar(n: int) {
    0 <= n < 0xD800 || 0xE000 <= n < 0x110000
  }

  /**
    Decodes the first character of b. Overlong forms, surrogates and stray continuation bytes are
    refused: the bytes must be the encoding of the character they spell.
  */
  function DecodeChar(b: seq<byte>): (r: Option<char>)
    requires b != []
    ensures r.Some? ==> EncodeChar(r.value) <= b
  {
    var k := SequenceLength(b[0]);
    if k == 0 || |b| < k then None
    else
      var n := Payload(b[..k]);
      if IsScalar(n) && EncodeChar(n as char) == b[..k] then Some(n as char) else None
  }

  /** Strict decoding: all of b must be valid. */
  function Decode(b: seq<byte>): Option<string>
    decreases |b|
  {
    if b == [] then Some([])
    else
      var c := DecodeChar(b);
      if c.None? then None
      else
        var rest := Decode(b[|EncodeChar(c.value)|..]);
        if rest.None? then None else Some([c.value] + rest.value)
  }

  /** A byte with the high bits 10, and the six bits it carries. */
  predicate Continues(b: byte) {
    0x80 <= b < 0xC0
  }

  function Bits(b: byte): int {
    b as int - 0x80
  }

  /** The table of section 3 of RFC 3629: the form by the range of the code point, and the bits in order. */
  lemma EncodeCharTable(c: char)
    ensures
      var n, e := c as int, EncodeChar(c);
      if n <= 0x7F then |e| == 1 && e[0] as int == n
      else if n <= 0x7FF then
        |e| == 2 && 0xC0 <= e[0] < 0xE0 && Continues(e[1]) && n == (e[0] as int - 0xC0) * 64 + Bits(e[1])
      else if n <= 0xFFFF then
        |e| == 3 && 0xE0 <= e[0] < 0xF0 && Continues(e[1]) && Continues(e[2])
        && n == ((e[0] as int - 0xE0) * 64 + Bits(e[1])) * 64 + Bits(e[2])
      else
        |e| == 4 && 0xF0 <= e[0] < 0xF8 && Continues(e[1]) && Continues(e[2]) && Continues(e[3])
        && n == (((e[0] as int - 0xF0) * 64 + Bits(e[1])) * 64 + Bits(e[2])) * 64 + Bits(e[3])
  {
    Sextets(c as int);
  }

  /** A number in base 64. */
  lemma Sextets(n: nat)
    ensures n == n / 0x40 * 64 + n % 0x40
    ensures n == (n / 0x1000 * 64 + n / 0x40 % 0x40) * 64 + n % 0x40
    ensures n == ((n / 0x40000 * 64 + n / 0x1000 % 0x40) * 64 + n / 0x40 % 0x40) * 64 + n % 0x40
  {
    var a := n / 0x40;
    var b := a / 0x40;
    assert n / 0x1000 == b;
    assert n / 0x40000 == b / 0x40;
  }

  lemma SplitPayload(n: int)
    requires 0 <= n < 0x110000
    ensures n == n / 0x40 * 0x40 + n % 0x40
    ensures n == n / 0x1000 * 0x1000 + n / 0x40 % 0x40 * 0x40 + n % 0x40
    ensures n == n / 0x40000 * 0x40000 + n / 0x1000 % 0x40 * 0x1000 + n / 0x40 % 0x40 * 0x40 + n % 0x40
  {
    var a := n / 0x40;
    var b := a / 0x40;
    assert n / 0x1000 == b;
    assert n / 0x40000 == b / 0x40;
  }

  /** Decoding a character gives back the one encoded, whatever follows it. */
  lemma DecodeEncodeChar(c: char, rest: seq<byte>)
    ensures DecodeChar(EncodeChar(c) + rest) == Some(c)
  {
    var e := EncodeChar(c);
    var b := e + rest;
    SplitPayload(c as int);
    assert SequenceLength(b[0]) == |e|;
    assert b[..|e|] == e;
    assert Payload(e) == c as int;
  }

  lemma {:induction false} DecodeEncodePrefix(s: string)
    ensures Decode(Encode(s)) == Some(s)
  {
    if s != [] {
      var e, rest := EncodeChar(s[0]), Encode(s[1..]);
      DecodeEncodeChar(s[0], rest);
      assert (e + rest)[|e|..] == rest;
      DecodeEncodePrefix(s[1..]);
      assert s == [s[0]] + s[1..];
    }
  }

  /** Decoding succeeds on exactly the encodings, and inverts encoding. */
  lemma {:induction false} DecodeIffEncode(b: seq<byte>, s: string)
    ensures Decode(b) == Some(s) <==> b == Encode(s)
    decreases |b|
  {
    if b == Encode(s) {
      DecodeEncodePrefix(s);
    }
    if Decode(b) == Some(s) && b != [] {
      var c := DecodeChar(b).value;
      var k := |EncodeChar(c)|;
      DecodeIffEncode(b[k..], s[1..]);
      assert b == b[..k] + b[k..];
      assert s[1..] == Decode(b[k..]).value;
    }
  }

  lemma {:induction false} EncodeConcat(s: string, t: string)
    ensures Encode(s + t) == Encode(s) + Encode(t)
  {
    if s == [] {
      assert s + t == t;
    } else {
      assert (s + t)[1..] == s[1..] + t;
      EncodeConcat(s[1..], t);
    }
  }

  /** The first difference of two encodings of the same length of two to four bytes. */
  lemma SameLengthOrder(c: char, d: char) returns (i: nat)
    requires c < d && |EncodeChar(c)| == |EncodeChar(d)|
    ensures i < |EncodeChar(c)|
    ensures EncodeChar(c)[..i] == EncodeChar(d)[..i] && EncodeChar(c)[i] < EncodeChar(d)[i]
  {
    var e, f := EncodeChar(c), EncodeChar(d);
    SplitPayload(c as int);
    SplitPayload(d as int);
    if e[0] != f[0] {
      i := 0;
    } else if e[1] != f[1] {
      i := 1;
    } else if e[2] != f[2] {
      i := 2;
    } else {
      i := 3;
    }
  }

  /** Bytes of different characters differ at a position both have, in the order of the characters. */
  lemma CharOrder(c: char, d: char) returns (i: nat)
    requires c < d
    ensures i < |EncodeChar(c)| && i < |EncodeChar(d)|
    ensures EncodeChar(c)[..i] == EncodeChar(d)[..i]
    ensures EncodeChar(c)[i] < EncodeChar(d)[i]
  {
    if |EncodeChar(c)| == |EncodeChar(d)| {
      i := SameLengthOrder(c, d);
    } else {
      i := 0;
    }
  }

  lemma {:induction false} LessAtDifference(a: seq<byte>, b: seq<byte>, i: nat)
    requires i < |a| && i < |b| && a[..i] == b[..i] && a[i] < b[i]
    ensures BytesLess(a, b) && !BytesLess(b, a)
  {
    if i > 0 {
      assert a[0] == a[..i][0] == b[..i][0] == b[0];
      assert a[1..][..i-1] == a[..i][1..] == b[..i][1..] == b[1..][..i-1];
      LessAtDifference(a[1..], b[1..], i - 1);
    }
  }

  lemma {:induction false} LessAfterCommonPrefix(p: seq<byte>, a: seq<byte>, b: seq<byte>)
    ensures BytesLess(p + a, p + b) <==> BytesLess(a, b)
  {
    if p == [] {
      assert p + a == a && p + b == b;
    } else {
      assert (p + a)[1..] == p[1..] + a && (p + b)[1..] == p[1..] + b;
      LessAfterCommonPrefix(p[1..], a, b);
    }
  }

  /**
    Section 1 of RFC 3629: byte-wise order of encodings is the order of code point sequences. So
    sorting member names by their bytes is sorting them by code point.
  */
  lemma {:induction false} ByteOrderIsCodePointOrder(s: string, t: string)
    ensures BytesLess(Encode(s), Encode(t)) <==> TextLess(s, t)
  {
    if s == [] || t == [] {
    } else if s[0] == t[0] {
      LessAfterCommonPrefix(EncodeChar(s[0]), Encode(s[1..]), Encode(t[1..]));
      ByteOrderIsCodePointOrder(s[1..], t[1..]);
    } else {
      var c, d := if s[0] < t[0] then s else t, if s[0] < t[0] then t else s;
      var i := CharOrder(c[0], d[0]);
      var e, f := Encode(c), Encode(d);
      assert e[..i] == EncodeChar(c[0])[..i] && f[..i] == EncodeChar(d[0])[..i];
      LessAtDifference(e, f, i);
    }
  }

  /** Different strings have different encodings. */
  lemma EncodeInjective(s: string, t: string)
    requires Encode(s) == Encode(t)
    ensures s == t
  {
    DecodeEncodePrefix(s);
    DecodeEncodePrefix(t);
  }
}
