/**
  The compact text of JSON values, as RFC 8259 has it, and the bytes that are signed. A reader of JSON
  reads the value back, so the signed bytes determine a signed object up to member order.
*/
module JsonText {
  import opened Wrappers
  import opened Decimal
  import opened Utf8
  import opened CanonicalJson
  import opened JsonReader

  // ---------- printing ----------

  function Hex(d: nat): char
    requires d < 16
  {
    if d < 10 then Digit(d) else ('a' as int + (d - 10)) as char
  }

  function EscapeChar(c: char): (r: string)
    ensures r != [] && r[0] != '"'
  {
    if c == '"' then "\\\""
    else if c == '\\' then "\\\\"
    else if c as int == 8 then "\\b"
    else if c as int == 9 then "\\t"
    else if c as int == 10 then "\\n"
    else if c as int == 12 then "\\f"
    else if c as int == 13 then "\\r"
    else if c < ' ' then "\\u00" + [Hex(c as int / 16), Hex(c as int % 16)]
    else [c]
  }

  function EscapeText(s: string): string {
    if s == [] then [] else EscapeChar(s[0]) + EscapeText(s[1..])
  }

  function Quote(s: string): string {
    "\"" + EscapeText(s) + "\""
  }

  /** The compact text, without spaces, of a value without floats. */
  function Print(v: Json): string
    requires !HasFloat(v)
  {
    match v
    case Null => "null"
    case Bool(flag) => if flag then "true" else "false"
    case Int(n) => PrintInt(n)
    case Str(text) => Quote(text)
    case Arr(items) => "[" + PrintItems(items) + "]"
    case Obj(members) => "{" + PrintMembers(members) + "}"
  }

  function PrintItems(items: seq<Json>): string
    requires forall i :: 0 <= i < |items| ==> !HasFloat(items[i])
  {
    if items == [] then ""
    else if |items| == 1 then Print(items[0])
    else Print(items[0]) + "," + PrintItems(items[1..])
  }

  function PrintMembers(members: seq<Member>): string
    requires forall i :: 0 <= i < |members| ==> !HasFloat(members[i].value)
  {
    if members == [] then ""
    else
      var first := Quote(members[0].name) + ":" + Print(members[0].value);
      if |members| == 1 then first else first + "," + PrintMembers(members[1..])
  }

  /** The bytes that are hashed and signed; None for a value with a float. */
  function CanonicalBytes(v: Json): Option<seq<byte>>
    requires WellFormed(v)
  {
    var c := Canonicalize(v);
    if c.None? then None
    else
      CanonicalForm(v);
      Some(Encode(Print(c.value)))
  }

  const OBJECT_SIGNATURE_DOMAIN := "aichan.object.v1"

  /** What is signed: the domain, a newline, and the canonical bytes. */
  function SignatureInput(domain: string, v: Json): Option<seq<byte>>
    requires WellFormed(v)
  {
    match CanonicalBytes(v)
    case None => None
    case Some(bytes) => Some(Encode(domain) + Encode("\n") + bytes)
  }

  /** It is the encoding of a text. */
  lemma SignatureInputIsText(domain: string, v: Json)
    requires WellFormed(v) && SignatureInput(domain, v).Some?
    ensures exists text :: SignatureInput(domain, v) == Some(Encode(domain + "\n" + text))
  {
    CanonicalForm(v);
    var text := Print(Canonicalize(v).value);
    SplitDomain(domain, text);
    assert SignatureInput(domain, v) == Some(Encode(domain + "\n" + text));
  }

  function ObjectSignatureInput(v: Json): Option<seq<byte>>
    requires WellFormed(v)
  {
    SignatureInput(OBJECT_SIGNATURE_DOMAIN, v)
  }

  lemma Assoc<T>(a: seq<T>, b: seq<T>, c: seq<T>)
    ensures (a + b) + c == a + (b + c)
  {
  }

  lemma NothingBefore<T>(s: seq<T>)
    ensures [] + s == s
  {
  }

  lemma SameLengthPrefix<T>(a: seq<T>, s: seq<T>, b: seq<T>, t: seq<T>)
    requires a + s == b + t && |a| == |b|
    ensures a == b && s == t
  {
    assert a == (a + s)[..|a|] && b == (b + t)[..|b|];
    assert s == (a + s)[|a|..] && t == (b + t)[|b|..];
  }

  // ---------- the text is read back ----------

  lemma ReadsChar(c: char, s: string)
    ensures ReadChar(EscapeChar(c) + s) == Some((c, s))
  {
    var e := EscapeChar(c);
    assert (e + s)[|e|..] == s;
    if |e| == 6 {
      assert (e + s)[2..][..4] == e[2..];
      assert (e + s)[2..][4..] == s;
    }
  }

  /** No text that is read as a character is shorter than the one written. */
  lemma EscapesAreShortest(c: char, e: string)
    requires ReadChar(e) == Some((c, ""))
    ensures |EscapeChar(c)| <= |e|
  {
    if |e| == 1 {
      assert e[0] != '\\';
    }
  }

  /**
    A character is written as itself, unless it is a quote, a backslash or a control character; a code is
    written with lower-case digits.
  */
  lemma EscapeForm(c: char)
    ensures EscapeChar(c) == [c] <==> c != '"' && c != '\\' && c as int >= 32
    ensures |EscapeChar(c)| > 2 ==>
              EscapeChar(c) == "\\u00" + ["0123456789abcdef"[c as int / 16], "0123456789abcdef"[c as int % 16]]
  {
    if c as int < 32 {
      HexTable(c as int / 16);
      HexTable(c as int % 16);
    }
  }

  lemma HexTable(d: nat)
    requires d < 16
    ensures Hex(d) == "0123456789abcdef"[d]
  {
  }

  lemma EscapedThenRest(a: string, s: string)
    requires a != []
    ensures EscapeText(a) + s == EscapeChar(a[0]) + (EscapeText(a[1..]) + s)
  {
    Assoc(EscapeChar(a[0]), EscapeText(a[1..]), s);
  }

  lemma {:induction false} ReadsText(a: string, s: string)
    ensures ReadText(EscapeText(a) + ("\"" + s)) == Some((a, s))
  {
    if a == [] {
      NothingBefore("\"" + s);
      assert ("\"" + s)[1..] == s;
    } else {
      var rest := EscapeText(a[1..]) + ("\"" + s);
      EscapedThenRest(a, "\"" + s);
      ReadsChar(a[0], rest);
      assert (EscapeChar(a[0]) + rest)[0] == EscapeChar(a[0])[0];
      ReadsText(a[1..], s);
      assert [a[0]] + a[1..] == a;
    }
  }

  /** The text after a value: nothing, or a character that no number goes on with. */
  predicate Ends(s: string) {
    s == [] || s[0] in {',', ']', '}'}
  }

  lemma {:induction false} ReadsDigits(n: nat, s: string)
    ensures ReadDigits(PrintNat(n) + s, 0) == ReadDigits(s, n)
  {
    if n < 10 {
      assert ([Digit(n)] + s)[1..] == s;
    } else {
      var d := [Digit(n % 10)];
      Assoc(PrintNat(n / 10), d, s);
      ReadsDigits(n / 10, d + s);
      assert (d + s)[1..] == s;
    }
  }

  lemma ReadsNat(n: nat, s: string)
    requires Ends(s)
    ensures ReadNat(PrintNat(n) + s) == Some((n, s))
  {
    var digits := PrintNat(n);
    var t := digits + s;
    FirstDigit(n);
    ReadsDigits(n, s);
    assert t[0] == digits[0];
    if n == 0 {
      assert t[1..] == s;
    }
  }

  lemma ReadsWord(word: string, s: string)
    ensures word <= word + s && (word + s)[|word|..] == s
    ensures word != [] ==> (word + s)[0] == word[0]
  {
  }

  lemma ReadsInt(n: int, s: string)
    requires Ends(s)
    ensures ReadValue(PrintInt(n) + s) == Some((Int(n), s))
  {
    if n < 0 {
      Assoc("-", PrintNat(-n), s);
      ReadsWord("-", PrintNat(-n) + s);
      ReadsNat(-n, s);
    } else {
      ReadsNat(n, s);
      ReadsWord(PrintNat(n), s);
      assert IsDigit(PrintNat(n)[0]);
    }
  }

  lemma ReadsQuoted(text: string, s: string)
    ensures ReadValue(Quote(text) + s) == Some((Str(text), s))
    ensures (Quote(text) + s)[0] == '"' && ReadText((Quote(text) + s)[1..]) == Some((text, s))
  {
    var t := Quote(text) + s;
    assert t[1..] == EscapeText(text) + ("\"" + s);
    ReadsText(text, s);
  }

  /** Reading undoes printing, whatever follows the value. */
  lemma {:induction false} ReadsValue(v: Json, s: string)
    requires !HasFloat(v) && Ends(s)
    ensures ReadValue(Print(v) + s) == Some((v, s))
    decreases v
  {
    match v
    case Null => ReadsWord("null", s);
    case Bool(flag) => ReadsWord(if flag then "true" else "false", s);
    case Int(n) => ReadsInt(n, s);
    case Str(text) => ReadsQuoted(text, s);
    case Arr(items) =>
      Bracketed("[", PrintItems(items), "]", s);
      if items == [] {
        NothingBefore("]" + s);
        ReadsEmpty(s);
      } else {
        ReadsItems(items, s);
        StartsNoClose(items[0], AfterItem(items, s));
        ItemThenRest(items, s);
        ReadsArray(PrintItems(items) + ("]" + s), items, s);
      }
    case Obj(members) =>
      Bracketed("{", PrintMembers(members), "}", s);
      if members == [] {
        NothingBefore("}" + s);
        ReadsEmpty(s);
      } else {
        ReadsMembers(members, s);
        MemberThenRest(members, s);
        ReadsObject(PrintMembers(members) + ("}" + s), members, s);
      }
  }

  lemma Bracketed(open: string, a: string, close: string, s: string)
    ensures (open + a + close) + s == open + (a + (close + s))
  {
    Assoc(open + a, close, s);
    Assoc(open, a, close + s);
  }

  lemma ReadsEmpty(s: string)
    ensures ReadValue("[" + ("]" + s)) == Some((Arr([]), s))
    ensures ReadValue("{" + ("}" + s)) == Some((Obj([]), s))
  {
    var t, u := "[" + ("]" + s), "{" + ("}" + s);
    assert t[0] == '[' && t[1] == ']' && t[2..] == s;
    assert u[0] == '{' && u[1] == '}' && u[2..] == s;
  }

  lemma ReadsArray(inner: string, items: seq<Json>, s: string)
    requires inner != [] && inner[0] != ']' && ReadItems(inner) == Some((items, s))
    ensures ReadValue("[" + inner) == Some((Arr(items), s))
  {
    ReadsWord("[", inner);
  }

  lemma ReadsObject(inner: string, members: seq<Member>, s: string)
    requires inner != [] && inner[0] != '}' && ReadMembers(inner) == Some((members, s))
    ensures ReadValue("{" + inner) == Some((Obj(members), s))
  {
    ReadsWord("{", inner);
  }

  lemma StartsNoClose(v: Json, rest: string)
    requires !HasFloat(v)
    ensures (Print(v) + rest)[0] != ']'
  {
  }

  /** What follows the first item: a comma and the rest, or the closing bracket. */
  function AfterItem(items: seq<Json>, s: string): string
    requires items != [] && forall i :: 0 <= i < |items| ==> !HasFloat(items[i])
  {
    if |items| == 1 then "]" + s else "," + (PrintItems(items[1..]) + ("]" + s))
  }

  lemma ItemThenRest(items: seq<Json>, s: string)
    requires items != [] && forall i :: 0 <= i < |items| ==> !HasFloat(items[i])
    ensures PrintItems(items) + ("]" + s) == Print(items[0]) + AfterItem(items, s)
  {
    if |items| > 1 {
      Assoc(Print(items[0]) + ",", PrintItems(items[1..]), "]" + s);
      Assoc(Print(items[0]), ",", PrintItems(items[1..]) + ("]" + s));
    }
  }

  lemma LastItem(text: string, item: Json, rest: string)
    requires ReadValue(text) == Some((item, rest)) && rest != [] && rest[0] == ']'
    ensures ReadItems(text) == Some(([item], rest[1..]))
  {
  }

  lemma NextItem(text: string, item: Json, rest: string, items: seq<Json>, end: string)
    requires ReadValue(text) == Some((item, rest)) && rest != [] && rest[0] == ','
    requires ReadItems(rest[1..]) == Some((items, end))
    ensures ReadItems(text) == Some(([item] + items, end))
  {
  }

  lemma {:induction false} ReadsItems(items: seq<Json>, s: string)
    requires items != [] && forall i :: 0 <= i < |items| ==> !HasFloat(items[i])
    ensures ReadItems(PrintItems(items) + ("]" + s)) == Some((items, s))
    decreases items
  {
    var after := AfterItem(items, s);
    ItemThenRest(items, s);
    ReadsValue(items[0], after);
    if |items| == 1 {
      ReadsWord("]", s);
      LastItem(PrintItems(items) + ("]" + s), items[0], after);
      assert [items[0]] == items;
    } else {
      ReadsItems(items[1..], s);
      ReadsWord(",", PrintItems(items[1..]) + ("]" + s));
      NextItem(PrintItems(items) + ("]" + s), items[0], after, items[1..], s);
      assert [items[0]] + items[1..] == items;
    }
  }

  /** What follows the name of the first member. */
  function AfterName(members: seq<Member>, s: string): string
    requires members != [] && forall i :: 0 <= i < |members| ==> !HasFloat(members[i].value)
  {
    ":" + (Print(members[0].value) + AfterMember(members, s))
  }

  function AfterMember(members: seq<Member>, s: string): string
    requires members != [] && forall i :: 0 <= i < |members| ==> !HasFloat(members[i].value)
  {
    if |members| == 1 then "}" + s else "," + (PrintMembers(members[1..]) + ("}" + s))
  }

  lemma MemberThenRest(members: seq<Member>, s: string)
    requires members != [] && forall i :: 0 <= i < |members| ==> !HasFloat(members[i].value)
    ensures PrintMembers(members) + ("}" + s) == Quote(members[0].name) + AfterName(members, s)
  {
    var name, value := Quote(members[0].name), Print(members[0].value);
    var first := name + ":" + value;
    if |members| > 1 {
      Assoc(first + ",", PrintMembers(members[1..]), "}" + s);
      Assoc(first, ",", PrintMembers(members[1..]) + ("}" + s));
    }
    Assoc(name + ":", value, AfterMember(members, s));
    Assoc(name, ":", value + AfterMember(members, s));
  }

  lemma OneMember(member: Member, valueText: string, rest: string)
    requires ReadValue(valueText) == Some((member.value, rest))
    ensures ReadMember(Quote(member.name) + (":" + valueText)) == Some((member, rest))
  {
    ReadsQuoted(member.name, ":" + valueText);
    ReadsWord(":", valueText);
  }

  lemma LastMember(text: string, member: Member, rest: string)
    requires ReadMember(text) == Some((member, rest)) && rest != [] && rest[0] == '}'
    ensures ReadMembers(text) == Some(([member], rest[1..]))
  {
  }

  lemma NextMember(text: string, member: Member, rest: string, members: seq<Member>, end: string)
    requires ReadMember(text) == Some((member, rest)) && rest != [] && rest[0] == ','
    requires ReadMembers(rest[1..]) == Some((members, end))
    ensures ReadMembers(text) == Some(([member] + members, end))
  {
  }

  lemma {:induction false} ReadsMembers(members: seq<Member>, s: string)
    requires members != [] && forall i :: 0 <= i < |members| ==> !HasFloat(members[i].value)
    ensures ReadMembers(PrintMembers(members) + ("}" + s)) == Some((members, s))
    decreases members
  {
    var text, after := PrintMembers(members) + ("}" + s), AfterMember(members, s);
    MemberThenRest(members, s);
    ReadsValue(members[0].value, after);
    OneMember(members[0], Print(members[0].value) + after, after);
    if |members| == 1 {
      ReadsWord("}", s);
      LastMember(text, members[0], after);
      assert [members[0]] == members;
    } else {
      ReadsMembers(members[1..], s);
      ReadsWord(",", PrintMembers(members[1..]) + ("}" + s));
      NextMember(text, members[0], after, members[1..], s);
      assert [members[0]] + members[1..] == members;
    }
  }

  /** The text of a value is read as that value. */
  lemma ParsePrint(v: Json)
    requires !HasFloat(v)
    ensures Parse(Print(v)) == Some(v)
  {
    ReadsValue(v, []);
    assert Print(v) + [] == Print(v);
  }

  /** So different values have different texts. */
  lemma PrintInjective(v: Json, w: Json)
    requires !HasFloat(v) && !HasFloat(w) && Print(v) == Print(w)
    ensures v == w
  {
    ParsePrint(v);
    ParsePrint(w);
  }

  // ---------- the bytes ----------

  /** The bytes are the UTF-8 text of the value, with its members sorted by name at every depth. */
  lemma CanonicalBytesAreJson(v: Json)
    requires WellFormed(v) && !HasFloat(v)
    ensures CanonicalBytes(v).Some?
    ensures
      var text := Decode(CanonicalBytes(v).value);
      text.Some? && Parse(text.value).Some?
      && SortedDeep(Parse(text.value).value) && SameUpToOrder(v, Parse(text.value).value)
  {
    SucceedsIffNoFloat(v);
    CanonicalForm(v);
    var c := Canonicalize(v).value;
    ParsePrint(c);
    DecodeIffEncode(CanonicalBytes(v).value, Print(c));
  }

  /** What an object signature covers: a line with the domain, and then the object as sorted JSON. */
  lemma SignedObjectIsJson(v: Json) returns (text: string)
    requires WellFormed(v) && !HasFloat(v)
    ensures ObjectSignatureInput(v).Some?
    ensures Decode(ObjectSignatureInput(v).value) == Some("aichan.object.v1" + "\n" + text)
    ensures Parse(text).Some? && SortedDeep(Parse(text).value) && SameUpToOrder(v, Parse(text).value)
  {
    CanonicalBytesAreJson(v);
    text := Decode(CanonicalBytes(v).value).value;
    DecodeIffEncode(CanonicalBytes(v).value, text);
    SplitDomain("aichan.object.v1", text);
    DecodeIffEncode(ObjectSignatureInput(v).value, "aichan.object.v1" + "\n" + text);
  }

  lemma SplitDomain(domain: string, text: string)
    ensures Encode(domain + "\n" + text) == Encode(domain) + Encode("\n") + Encode(text)
  {
    EncodeConcat(domain, "\n");
    EncodeConcat(domain + "\n", text);
  }

  /** Values without floats have the same canonical bytes iff they differ at most in member order. */
  lemma CanonicalBytesAgreeIff(v: Json, w: Json)
    requires WellFormed(v) && WellFormed(w) && !HasFloat(v) && !HasFloat(w)
    ensures CanonicalBytes(v).Some? && CanonicalBytes(w).Some?
    ensures CanonicalBytes(v) == CanonicalBytes(w) <==> SameUpToOrder(v, w)
  {
    SucceedsIffNoFloat(v);
    SucceedsIffNoFloat(w);
    CanonicalFormsAgreeIff(v, w);
    if CanonicalBytes(v) == CanonicalBytes(w) {
      CanonicalForm(v);
      CanonicalForm(w);
      var c, d := Canonicalize(v).value, Canonicalize(w).value;
      EncodeInjective(Print(c), Print(d));
      PrintInjective(c, d);
    }
  }

  lemma SignatureInputsAgreeIff(domain: string, v: Json, w: Json)
    requires WellFormed(v) && WellFormed(w)
    ensures SignatureInput(domain, v).Some? <==> !HasFloat(v)
    ensures !HasFloat(v) && !HasFloat(w) ==>
              (SignatureInput(domain, v) == SignatureInput(domain, w) <==> SameUpToOrder(v, w))
  {
    SucceedsIffNoFloat(v);
    if !HasFloat(v) && !HasFloat(w) {
      var head := Encode(domain) + Encode("\n");
      CanonicalBytesAgreeIff(v, w);
      if SignatureInput(domain, v) == SignatureInput(domain, w) {
        SameLengthPrefix(head, CanonicalBytes(v).value, head, CanonicalBytes(w).value);
      }
    }
  }

  /** What is signed determines an object up to member order; only objects with floats cannot be signed. */
  lemma SignedObjectsAgreeIff(v: Json, w: Json)
    requires WellFormed(v) && WellFormed(w)
    ensures ObjectSignatureInput(v).Some? <==> !HasFloat(v)
    ensures !HasFloat(v) && !HasFloat(w) ==>
              (ObjectSignatureInput(v) == ObjectSignatureInput(w) <==> SameUpToOrder(v, w))
  {
    SignatureInputsAgreeIff(OBJECT_SIGNATURE_DOMAIN, v, w);
  }
}
