/**
  Percent coding, as section 2.1 of RFC 3986 has it: the client's `query_escape`, the server's
  `percent_encode_path_segment`, and the server's `percent_decode`, which undoes both.
*/
module PercentCodec {
  import opened Wrappers
  import opened Utf8

  predicate Unreserved(b: byte) {
    || 'A' as int <= b as int <= 'Z' as int
    || 'a' as int <= b as int <= 'z' as int
    || '0' as int <= b as int <= '9' as int
    || b as int in {'-' as int, '_' as int, '.' as int, '~' as int}
  }

  function UpperHex(d: nat): char
    requires d < 16
  {
    if d < 10 then ('0' as int + d) as char else ('A' as int + (d - 10)) as char
  }

  /** One byte: itself, or a percent sign and two hex digits; a space may become a plus sign. */
  function EscapeByte(b: byte, spaceAsPlus: bool): string {
    if Unreserved(b) then [b as char]
    else if spaceAsPlus && b == 0x20 then "+"
    else ['%', UpperHex(b as int / 16), UpperHex(b as int % 16)]
  }

  function EscapeBytes(bytes: seq<byte>, spaceAsPlus: bool): string {
    if bytes == [] then "" else EscapeByte(bytes[0], spaceAsPlus) + EscapeBytes(bytes[1..], spaceAsPlus)
  }

  /** What the client writes into a query. */
  function QueryEscape(value: string): string {
    EscapeBytes(Encode(value), true)
  }

  /** What the server writes into a document path. */
  function EncodePathSegment(value: string): string {
    EscapeBytes(Encode(value), false)
  }

  // ---------- decoding ----------

  function HexValue(b: byte): Option<nat> {
    var n := b as int;
    if '0' as int <= n <= '9' as int then Some(n - '0' as int)
    else if 'a' as int <= n <= 'f' as int then Some(n - 'a' as int + 10)
    else if 'A' as int <= n <= 'F' as int then Some(n - 'A' as int + 10)
    else None
  }

  /** The two bytes after a percent sign, read as a base-16 number, which may carry a plus sign. */
  function HexPair(high: byte, low: byte): Option<byte> {
    var h, l := HexValue(high), HexValue(low);
    if l.None? then None
    else if h.Some? then Some((h.value * 16 + l.value) as byte)
    else if high as int == '+' as int then Some(l.value as byte)
    else None
  }

  function Prepend(front: seq<byte>, rest: Option<seq<byte>>): Option<seq<byte>> {
    match rest
    case None => None
    case Some(bytes) => Some(front + bytes)
  }

  /** The bytes that an escaped text stands for. */
  function DecodeBytes(bytes: seq<byte>): Option<seq<byte>> {
    if bytes == [] then Some([])
    else if bytes[0] as int == '+' as int then Prepend([0x20], DecodeBytes(bytes[1..]))
    else if bytes[0] as int == '%' as int then
      if |bytes| < 3 || HexPair(bytes[1], bytes[2]).None? then None
      else Prepend([HexPair(bytes[1], bytes[2]).value], DecodeBytes(bytes[3..]))
    else Prepend([bytes[0]], DecodeBytes(bytes[1..]))
  }

  /** The text an escaped text stands for; None when an escape or the resulting UTF-8 is malformed. */
  function Decoded(value: string): Option<string> {
    match DecodeBytes(Encode(value))
    case None => None
    case Some(bytes) => Utf8.Decode(bytes)
  }

  lemma PrependNothing(bytes: seq<byte>, rest: Option<seq<byte>>)
    ensures Prepend([], rest) == rest && Prepend(bytes, Some([])) == Some(bytes)
  {
    assert bytes + [] == bytes;
    assert rest.Some? ==> [] + rest.value == rest.value;
  }

  lemma PrependTwice(a: seq<byte>, b: seq<byte>, rest: Option<seq<byte>>)
    ensures Prepend(a, Prepend(b, rest)) == Prepend(a + b, rest)
  {
    if rest.Some? {
      assert a + (b + rest.value) == (a + b) + rest.value;
    }
  }

  /** The server's decoder: one pass over the bytes, with a growing output. */
  method PercentDecode(value: string) returns (r: Option<string>)
    ensures r == Decoded(value)
  {
    var bytes := Encode(value);
    var output: seq<byte> := [];
    var i := 0;
    PrependNothing([], DecodeBytes(bytes));
    assert bytes[0..] == bytes;
    while i < |bytes|
      invariant i <= |bytes|
      invariant DecodeBytes(bytes) == Prepend(output, DecodeBytes(bytes[i..]))
    {
      var b := bytes[i];
      ghost var rest := bytes[i..];
      if b as int == '+' as int {
        PrependTwice(output, [0x20], DecodeBytes(rest[1..]));
        output := output + [0x20];
        i := i + 1;
      } else if b as int == '%' as int {
        if |bytes| < i + 3 {
          return None;
        }
        var decoded := HexPair(bytes[i + 1], bytes[i + 2]);
        if decoded.None? {
          return None;
        }
        PrependTwice(output, [decoded.value], DecodeBytes(rest[3..]));
        output := output + [decoded.value];
        i := i + 3;
      } else {
        PrependTwice(output, [b], DecodeBytes(rest[1..]));
        output := output + [b];
        i := i + 1;
      }
    }
    PrependNothing(output, None);
    assert bytes[i..] == [];
    return Utf8.Decode(output);
  }

  // ---------- the tables ----------

  /** The unreserved bytes of section 2.3 of RFC 3986: letters, digits, hyphen, period, underscore and tilde. */
  predicate IsUnreserved(n: int) {
    0x41 <= n <= 0x5A || 0x61 <= n <= 0x7A || 0x30 <= n <= 0x39 || n in {0x2D, 0x2E, 0x5F, 0x7E}
  }

  /**
    An unreserved byte stands for itself, any other is written with two upper-case hexadecimal digits, as
    section 2.1 of RFC 3986 has it; in a query a space is a plus sign.
  */
  lemma EscapeByteTable(b: byte, spaceAsPlus: bool)
    ensures
      var n := b as int;
      EscapeByte(b, spaceAsPlus)
      == if IsUnreserved(n) then [n as char]
         else if n == 32 && spaceAsPlus then "+"
         else ['%', "0123456789ABCDEF"[n / 16], "0123456789ABCDEF"[n % 16]]
  {
    UpperHexTable(b as int / 16);
    UpperHexTable(b as int % 16);
  }

  lemma UpperHexTable(d: nat)
    requires d < 16
    ensures UpperHex(d) == "0123456789ABCDEF"[d]
  {
  }

  /** The byte is a hexadecimal digit, in either case, of that value. */
  predicate IsHexOf(b: byte, value: int) {
    0 <= value < 16 && (b as char == "0123456789abcdef"[value] || b as char == "0123456789ABCDEF"[value])
  }

  /** Two bytes behind a percent sign: hexadecimal digits, or a plus sign for the first. */
  lemma HexPairTable(high: byte, low: byte, h: nat, l: nat)
    requires h < 16 && l < 16
    ensures HexPair(high, low) == Some((h * 16 + l) as byte)
            <==> IsHexOf(low, l) && (IsHexOf(high, h) || (high as char == '+' && h == 0))
  {
    HexValueTable(high, h);
    HexValueTable(low, l);
    HexPairParts(high, low, h, l);
  }

  lemma HexPairParts(high: byte, low: byte, h: nat, l: nat)
    requires h < 16 && l < 16
    ensures HexPair(high, low) == Some((h * 16 + l) as byte)
            <==> HexValue(low) == Some(l) && (HexValue(high) == Some(h) || (high as char == '+' && h == 0))
  {
    if HexPair(high, low).Some? && HexValue(high).Some? {
      assert HexPair(high, low).value as int == HexValue(high).value * 16 + HexValue(low).value;
    }
  }

  lemma HexValueTable(b: byte, value: nat)
    requires value < 16
    ensures HexValue(b) == Some(value) <==> IsHexOf(b, value)
  {
  }

  // ---------- round trips ----------

  lemma EncodeOne(c: char)
    ensures Encode([c]) == EncodeChar(c)
  {
    assert [c][1..] == [];
  }

  lemma EncodeThree(a: char, b: char, c: char)
    ensures Encode([a, b, c]) == EncodeChar(a) + EncodeChar(b) + EncodeChar(c)
  {
    EncodeOne(c);
    assert [b, c][1..] == [c] && [a, b, c][1..] == [b, c];
    assert EncodeChar(a) + (EncodeChar(b) + EncodeChar(c)) == EncodeChar(a) + EncodeChar(b) + EncodeChar(c);
  }

  lemma HexDigits(d: nat)
    requires d < 16
    ensures |EncodeChar(UpperHex(d))| == 1 && HexValue(EncodeChar(UpperHex(d))[0]) == Some(d)
  {
  }

  /** Decoding an escaped byte gives back the byte, whatever follows it. */
  lemma DecodeEscapedByte(b: byte, spaceAsPlus: bool, rest: seq<byte>)
    ensures DecodeBytes(Encode(EscapeByte(b, spaceAsPlus)) + rest) == Prepend([b], DecodeBytes(rest))
  {
    var text := EscapeByte(b, spaceAsPlus);
    var bytes := Encode(text) + rest;
    if |text| == 1 {
      EncodeOne(text[0]);
      assert bytes[1..] == rest;
    } else {
      var high, low := UpperHex(b as int / 16), UpperHex(b as int % 16);
      EncodeThree('%', high, low);
      HexDigits(b as int / 16);
      HexDigits(b as int % 16);
      assert bytes[..3] == EncodeChar('%') + EncodeChar(high) + EncodeChar(low);
      assert bytes[1] == EncodeChar(high)[0] && bytes[2] == EncodeChar(low)[0];
      assert bytes[3..] == rest;
    }
  }

  /** Decoding escaped bytes gives back the bytes, whatever follows them. */
  lemma {:induction false} DecodeEscaped(bytes: seq<byte>, spaceAsPlus: bool, rest: seq<byte>)
    ensures DecodeBytes(Encode(EscapeBytes(bytes, spaceAsPlus)) + rest) == Prepend(bytes, DecodeBytes(rest))
  {
    if bytes == [] {
      assert Encode("") + rest == rest;
      PrependNothing([], DecodeBytes(rest));
    } else {
      var first, tail := EscapeByte(bytes[0], spaceAsPlus), EscapeBytes(bytes[1..], spaceAsPlus);
      EncodeConcat(first, tail);
      assert Encode(first + tail) + rest == Encode(first) + (Encode(tail) + rest);
      DecodeEscapedByte(bytes[0], spaceAsPlus, Encode(tail) + rest);
      DecodeEscaped(bytes[1..], spaceAsPlus, rest);
      PrependTwice([bytes[0]], bytes[1..], DecodeBytes(rest));
      assert [bytes[0]] + bytes[1..] == bytes;
    }
  }

  lemma DecodeEscapedText(value: string, spaceAsPlus: bool)
    ensures Decoded(EscapeBytes(Encode(value), spaceAsPlus)) == Some(value)
  {
    var escaped := Encode(EscapeBytes(Encode(value), spaceAsPlus));
    DecodeEscaped(Encode(value), spaceAsPlus, []);
    assert escaped + [] == escaped && Encode(value) + [] == Encode(value);
    DecodeEncodePrefix(value);
  }

  /** The server reads what the client wrote: for every string. */
  lemma QueryRoundTrip(value: string)
    ensures Decoded(QueryEscape(value)) == Some(value)
  {
    DecodeEscapedText(value, true);
  }

  /** Path segments can be decoded too; so different document ids never share a path. */
  lemma PathSegmentRoundTrip(value: string, other: string)
    ensures Decoded(EncodePathSegment(value)) == Some(value)
    ensures EncodePathSegment(value) == EncodePathSegment(other) <==> value == other
  {
    DecodeEscapedText(value, false);
    DecodeEscapedText(other, false);
  }

  /** Escaped text holds none of the characters that structure paths and queries. */
  lemma {:induction false} EscapedIsPlain(bytes: seq<byte>, spaceAsPlus: bool)
    ensures forall c :: c in EscapeBytes(bytes, spaceAsPlus) ==> c !in {'/', '?', '&', '=', ',', '#', ' '}
    ensures !spaceAsPlus ==> '+' !in EscapeBytes(bytes, spaceAsPlus)
  {
    if bytes != [] {
      EscapedIsPlain(bytes[1..], spaceAsPlus);
    }
  }

  /** Text without percent and plus signs stands for itself. */
  lemma {:induction false} PlainBytes(bytes: seq<byte>, rest: seq<byte>)
    requires forall i :: 0 <= i < |bytes| ==> bytes[i] as int != '%' as int && bytes[i] as int != '+' as int
    ensures DecodeBytes(bytes + rest) == Prepend(bytes, DecodeBytes(rest))
  {
    if bytes == [] {
      assert bytes + rest == rest;
      PrependNothing([], DecodeBytes(rest));
    } else {
      assert (bytes + rest)[1..] == bytes[1..] + rest;
      PlainBytes(bytes[1..], rest);
      PrependTwice([bytes[0]], bytes[1..], DecodeBytes(rest));
      assert [bytes[0]] + bytes[1..] == bytes;
    }
  }

  // ---------- the strict reader ----------

  /** Decoding that takes two hex digits after a percent sign, as section 2.1 of RFC 3986 has it. */
  function StrictBytes(bytes: seq<byte>): Option<seq<byte>> {
    if bytes == [] then Some([])
    else if bytes[0] as int == '+' as int then Prepend([0x20], StrictBytes(bytes[1..]))
    else if bytes[0] as int == '%' as int then
      if |bytes| < 3 || HexValue(bytes[1]).None? || HexValue(bytes[2]).None? then None
      else
        Prepend([(HexValue(bytes[1]).value * 16 + HexValue(bytes[2]).value) as byte], StrictBytes(bytes[3..]))
    else Prepend([bytes[0]], StrictBytes(bytes[1..]))
  }

  function StrictlyDecoded(value: string): Option<string> {
    match StrictBytes(Encode(value))
    case None => None
    case Some(bytes) => Utf8.Decode(bytes)
  }

  /** Some escape has a plus sign for its first digit. */
  predicate HasPlusEscape(bytes: seq<byte>) {
    if bytes == [] then false
    else if bytes[0] as int == '%' as int && |bytes| >= 3 then
      bytes[1] as int == '+' as int || HasPlusEscape(bytes[3..])
    else HasPlusEscape(bytes[1..])
  }

  lemma {:induction false} StrictBytesIff(bytes: seq<byte>)
    ensures StrictBytes(bytes) == if HasPlusEscape(bytes) then None else DecodeBytes(bytes)
  {
    if bytes != [] {
      if bytes[0] as int == '%' as int {
        if |bytes| >= 3 {
          StrictBytesIff(bytes[3..]);
        }
      } else {
        StrictBytesIff(bytes[1..]);
      }
    }
  }

  /**
    The server reads a text as a strict reader does iff it refuses the text or no escape in it has a
    plus sign for its first digit; a strict reader refuses those.
  */
  lemma StrictReaderAgreesIff(value: string)
    ensures StrictlyDecoded(value) == Decoded(value) <==> Decoded(value).None? || !HasPlusEscape(Encode(value))
    ensures HasPlusEscape(Encode(value)) ==> StrictlyDecoded(value).None?
  {
    StrictBytesIff(Encode(value));
  }

  /** A text that the server takes and a strict reader refuses. */
  lemma PlusForADigit()
    ensures Decoded("%+a") == Some("\n") && StrictlyDecoded("%+a") == None
  {
    var bytes := Encode("%+a");
    EncodeThree('%', '+', 'a');
    assert bytes == ['%' as int as byte, '+' as int as byte, 'a' as int as byte];
    assert bytes[3..] == [];
    PrependNothing([10], None);
    assert DecodeBytes(bytes) == Some([10]);
    EncodeOne('\n');
    DecodeEncodePrefix("\n");
  }

  /** No writer produces such an escape. */
  lemma {:induction false} EscapedHasNoPlus(bytes: seq<byte>, spaceAsPlus: bool)
    ensures !HasPlusEscape(Encode(EscapeBytes(bytes, spaceAsPlus)))
  {
    if bytes != [] {
      var first, rest := EscapeByte(bytes[0], spaceAsPlus), EscapeBytes(bytes[1..], spaceAsPlus);
      EncodeConcat(first, rest);
      EscapedHasNoPlus(bytes[1..], spaceAsPlus);
      if |first| == 1 {
        EncodeOne(first[0]);
        assert (Encode(first) + Encode(rest))[1..] == Encode(rest);
      } else {
        HexDigits(bytes[0] as int / 16);
        HexDigits(bytes[0] as int % 16);
        EncodeThree('%', first[1], first[2]);
        assert (Encode(first) + Encode(rest))[3..] == Encode(rest);
      }
    }
  }
}
