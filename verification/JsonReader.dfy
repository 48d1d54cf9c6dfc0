/**
  A reader of compact JSON without fractions and exponents, as RFC 8259 has it: literals in section 3,
  objects and arrays in sections 4 and 5, numbers in section 6, strings and their escapes in section 7.
  It knows nothing of the writer.
*/
module JsonReader {
  import opened Wrappers
  import opened CanonicalJson

  /** The value of a hexadecimal digit, in either case. */
  function HexValue(c: char): Option<nat> {
    if '0' <= c <= '9' then Some(c as int - '0' as int)
    else if 'a' <= c <= 'f' then Some(c as int - 'a' as int + 10)
    else if 'A' <= c <= 'F' then Some(c as int - 'A' as int + 10)
    else None
  }

  /** The character whose code four hexadecimal digits give. Halves of surrogate pairs are not read. */
  function ReadCode(s: string): Option<char>
    requires |s| == 4
  {
    match (HexValue(s[0]), HexValue(s[1]), HexValue(s[2]), HexValue(s[3]))
    case (Some(a), Some(b), Some(c), Some(d)) =>
      var code := ((a * 16 + b) * 16 + c) * 16 + d;
      if code < 0xD800 || 0xE000 <= code < 0x10000 then Some(code as char) else None
    case _ => None
  }

  /** One character of a string, and what follows it. */
  function ReadChar(s: string): (r: Option<(char, string)>)
    ensures r.Some? ==> |r.value.1| < |s|
  {
    if s == [] || s[0] == '"' || s[0] as int < 32 then None
    else if s[0] != '\\' then Some((s[0], s[1..]))
    else if |s| < 2 then None
    else
      var rest := s[2..];
      match s[1]
      case '"' => Some(('"', rest))
      case '\\' => Some(('\\', rest))
      case '/' => Some(('/', rest))
      case 'b' => Some((8 as char, rest))
      case 'f' => Some((12 as char, rest))
      case 'n' => Some((10 as char, rest))
      case 'r' => Some((13 as char, rest))
      case 't' => Some((9 as char, rest))
      case 'u' =>
        if |rest| < 4 then None
        else
          (match ReadCode(rest[..4])
           case Some(c) => Some((c, rest[4..]))
           case None => None)
      case _ => None
  }

  /** The rest of a string, behind its opening quote. */
  function ReadText(s: string): (r: Option<(string, string)>)
    ensures r.Some? ==> |r.value.1| < |s|
    decreases |s|
  {
    if s != [] && s[0] == '"' then Some(("", s[1..]))
    else
      match ReadChar(s)
      case None => None
      case Some((c, rest)) =>
        match ReadText(rest)
        case None => None
        case Some((text, end)) => Some(([c] + text, end))
  }

  /** Digits, read on from a number. */
  function ReadDigits(s: string, n: nat): (r: (nat, string))
    ensures |r.1| <= |s|
  {
    if s != [] && '0' <= s[0] <= '9' then ReadDigits(s[1..], n * 10 + (s[0] as int - '0' as int)) else (n, s)
  }

  /** An unsigned integer without leading zeros. */
  function ReadNat(s: string): (r: Option<(nat, string)>)
    ensures r.Some? ==> |r.value.1| < |s|
  {
    if s == [] || !('0' <= s[0] <= '9') then None
    else if s[0] == '0' then Some((0, s[1..]))
    else Some(ReadDigits(s[1..], s[0] as int - '0' as int))
  }

  function ReadValue(s: string): (r: Option<(Json, string)>)
    ensures r.Some? ==> |r.value.1| < |s|
    decreases |s|, 1
  {
    if s == [] then None
    else if s[0] == '"' then
      (match ReadText(s[1..])
       case Some((text, rest)) => Some((Str(text), rest))
       case None => None)
    else if s[0] == '[' then
      if |s| > 1 && s[1] == ']' then Some((Arr([]), s[2..]))
      else
        (match ReadItems(s[1..])
         case Some((items, rest)) => Some((Arr(items), rest))
         case None => None)
    else if s[0] == '{' then
      if |s| > 1 && s[1] == '}' then Some((Obj([]), s[2..]))
      else
        (match ReadMembers(s[1..])
         case Some((members, rest)) => Some((Obj(members), rest))
         case None => None)
    else if s[0] == '-' then
      (match ReadNat(s[1..])
       case Some((n, rest)) => Some((Int(0 - n), rest))
       case None => None)
    else if "null" <= s then Some((Null, s[4..]))
    else if "true" <= s then Some((Bool(true), s[4..]))
    else if "false" <= s then Some((Bool(false), s[5..]))
    else
      (match ReadNat(s)
       case Some((n, rest)) => Some((Int(n), rest))
       case None => None)
  }

  /** One item or more, up to the closing bracket. */
  function ReadItems(s: string): (r: Option<(seq<Json>, string)>)
    ensures r.Some? ==> |r.value.1| < |s|
    decreases |s|, 2
  {
    match ReadValue(s)
    case None => None
    case Some((item, rest)) =>
      if rest != [] && rest[0] == ']' then Some(([item], rest[1..]))
      else if rest != [] && rest[0] == ',' then
        (match ReadItems(rest[1..])
         case Some((items, end)) => Some(([item] + items, end))
         case None => None)
      else None
  }

  /** One member or more, up to the closing brace. */
  function ReadMembers(s: string): (r: Option<(seq<Member>, string)>)
    ensures r.Some? ==> |r.value.1| < |s|
    decreases |s|, 2
  {
    match ReadMember(s)
    case None => None
    case Some((member, rest)) =>
      if rest != [] && rest[0] == '}' then Some(([member], rest[1..]))
      else if rest != [] && rest[0] == ',' then
        (match ReadMembers(rest[1..])
         case Some((members, end)) => Some(([member] + members, end))
         case None => None)
      else None
  }

  function ReadMember(s: string): (r: Option<(Member, string)>)
    ensures r.Some? ==> |r.value.1| < |s|
    decreases |s|, 0
  {
    if s == [] || s[0] != '"' then None
    else
      match ReadText(s[1..])
      case None => None
      case Some((name, rest)) =>
        if rest == [] || rest[0] != ':' then None
        else
          match ReadValue(rest[1..])
          case Some((value, end)) => Some((Member(name, value), end))
          case None => None
  }

  /** The value a whole text is of. */
  function Parse(s: string): Option<Json> {
    match ReadValue(s)
    case Some((v, rest)) => if rest == [] then Some(v) else None
    case None => None
  }
}
