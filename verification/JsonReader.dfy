// A reader of JSON text (RFC 8259), written from the grammar and independent of
// the writer it is held against.
module JsonReader {
  import opened Prelude
  import opened Utf8
  import opened Decimals

  // JSON values: strings by their UTF-8 bytes, numbers by their exact decimal,
  // objects as maps.
  datatype Json =
    | JNull
    | JBool(b: bool)
    | JString(s: string)
    | JNumber(n: Decimal)
    | JArray(items: seq<Json>)
    | JObject(members: map<string, Json>)

  // ----- strings

  function HexValue(c: char): (r: Option<nat>)
    ensures r.Some? ==> r.value < 16
  {
    if '0' <= c <= '9' then Some(c as int - '0' as int)
    else if 'a' <= c <= 'f' then Some(c as int - 'a' as int + 10)
    else if 'A' <= c <= 'F' then Some(c as int - 'A' as int + 10)
    else None
  }

  // The code unit of four hex digits.
  function Hex4(s: string): (r: Option<nat>)
    requires |s| == 4
    ensures r.Some? ==> r.value < 0x10000
  {
    match (HexValue(s[0]), HexValue(s[1]), HexValue(s[2]), HexValue(s[3]))
    case (Some(a), Some(b), Some(c), Some(d)) => Some(((a * 16 + b) * 16 + c) * 16 + d)
    case _ => None
  }

  // \uXXXX at the front of `s`.
  function UnicodeEscape(s: string): (r: Option<nat>)
    ensures r.Some? ==> |s| >= 6 && r.value < 0x10000
  {
    if |s| >= 6 && s[0] == '\\' && s[1] == 'u' then Hex4(s[2..6]) else None
  }

  predicate High(u: int) { 0xD800 <= u <= 0xDBFF }

  predicate Low(u: int) { 0xDC00 <= u <= 0xDFFF }

  // An escape at the front of `s`: the scalar it stands for and its length.
  function ReadEscape(s: string): (r: Option<(int, nat)>)
    ensures r.Some? ==> Scalar(r.value.0) && 0 < r.value.1 <= |s|
  {
    if |s| < 2 || s[0] != '\\' then None
    else match s[1]
      case '"' => Some((0x22, 2))
      case '\\' => Some((0x5C, 2))
      case '/' => Some((0x2F, 2))
      case 'b' => Some((0x08, 2))
      case 'f' => Some((0x0C, 2))
      case 'n' => Some((0x0A, 2))
      case 'r' => Some((0x0D, 2))
      case 't' => Some((0x09, 2))
      case 'u' =>
        (match UnicodeEscape(s)
         case None => None
         case Some(u) =>
           if Low(u) then None
           else if !High(u) then Some((u, 6))
           else match UnicodeEscape(s[6..])
             case Some(l) => if Low(l) then Some((0x10000 + (u - 0xD800) * 1024 + (l - 0xDC00), 12)) else None
             case None => None)
      case _ => None
  }

  // The characters of a string after its opening quote, up to the closing one.
  function ReadChars(s: string): (r: Option<(string, string)>)
    ensures r.Some? ==> |r.value.1| < |s|
    decreases |s|
  {
    if s == "" then None
    else if s[0] == '"' then Some(("", s[1..]))
    else if s[0] == '\\' then
      match ReadEscape(s)
      case None => None
      case Some((cp, size)) => Prepend(EncodeRune(cp), ReadChars(s[size..]))
    else if (s[0] as int) < 0x20 then None
    else Prepend([s[0]], ReadChars(s[1..]))
  }

  function Prepend(c: string, r: Option<(string, string)>): Option<(string, string)> {
    match r
    case None => None
    case Some((text, rest)) => Some((c + text, rest))
  }

  // ----- values

  function SkipSpace(s: string): (r: string)
    ensures |r| <= |s|
  {
    if s != "" && (s[0] == ' ' || s[0] == '\t' || s[0] == '\n' || s[0] == '\r') then SkipSpace(s[1..]) else s
  }

  function Literal(s: string, word: string, v: Json): (r: Option<(Json, string)>)
    requires word != ""
    ensures r.Some? ==> |r.value.1| < |s|
  {
    if word <= s then Some((v, s[|word|..])) else None
  }

  function ReadValue(text: string): (r: Option<(Json, string)>)
    ensures r.Some? ==> |r.value.1| < |text|
    decreases |text|, 0
  {
    var s := SkipSpace(text);
    if s == "" then None
    else if s[0] == 'n' then Literal(s, "null", JNull)
    else if s[0] == 't' then Literal(s, "true", JBool(true))
    else if s[0] == 'f' then Literal(s, "false", JBool(false))
    else if s[0] == '"' then
      match ReadChars(s[1..])
      case None => None
      case Some((chars, rest)) => Some((JString(chars), rest))
    else if s[0] == '[' then
      var t := SkipSpace(s[1..]);
      if t != "" && t[0] == ']' then Some((JArray([]), t[1..]))
      else match ReadItems(s[1..])
        case None => None
        case Some((items, rest)) => Some((JArray(items), rest))
    else if s[0] == '{' then
      var t := SkipSpace(s[1..]);
      if t != "" && t[0] == '}' then Some((JObject(map[]), t[1..]))
      else match ReadMembers(s[1..])
        case None => None
        case Some((members, rest)) => Some((JObject(members), rest))
    else
      match ReadNumber(s)
      case None => None
      case Some((n, rest)) => Some((JNumber(Normalize(n)), rest))
  }

  // One item or more, up to the closing bracket.
  function ReadItems(text: string): (r: Option<(seq<Json>, string)>)
    ensures r.Some? ==> |r.value.1| < |text|
    decreases |text|, 1
  {
    match ReadValue(text)
    case None => None
    case Some((v, rest)) =>
      var t := SkipSpace(rest);
      if t == "" then None
      else if t[0] == ']' then Some(([v], t[1..]))
      else if t[0] != ',' then None
      else match ReadItems(t[1..])
        case None => None
        case Some((items, rest')) => Some(([v] + items, rest'))
  }

  // One member or more, up to the closing brace. A later duplicate wins.
  function ReadMembers(text: string): (r: Option<(map<string, Json>, string)>)
    ensures r.Some? ==> |r.value.1| < |text|
    decreases |text|, 1
  {
    match ReadMember(text)
    case None => None
    case Some((k, v, rest)) =>
      var t := SkipSpace(rest);
      if t == "" then None
      else if t[0] == '}' then Some((map[k := v], t[1..]))
      else if t[0] != ',' then None
      else match ReadMembers(t[1..])
        case None => None
        case Some((members, rest')) => Some((map[k := v] + members, rest'))
  }

  function ReadMember(text: string): (r: Option<(string, Json, string)>)
    ensures r.Some? ==> |r.value.2| < |text|
    decreases |text|, 0
  {
    var s := SkipSpace(text);
    if s == "" || s[0] != '"' then None
    else match ReadChars(s[1..])
      case None => None
      case Some((k, rest)) =>
        var t := SkipSpace(rest);
        if t == "" || t[0] != ':' then None
        else match ReadValue(t[1..])
          case None => None
          case Some((v, rest')) => Some((k, v, rest'))
  }

  // A whole JSON text.
  function ReadText(text: string): Option<Json> {
    match ReadValue(text)
    case Some((v, rest)) => if SkipSpace(rest) == "" then Some(v) else None
    case None => None
  }
}
