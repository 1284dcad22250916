/**
 * A reader for JSON text as section 2 to section 7 of RFC 8259 define it,
 * restricted to numbers without fraction or exponent. It is the independent
 * partner of the encoder: whatever the encoder writes, this reader reads back
 * to the value it came from (ReadStringify).
 */
module JsonReader {
  import opened Wrappers
  import opened Radix
  import opened Json

  /** Insignificant whitespace: space, horizontal tab, line feed, carriage return. */
  predicate IsJsonWs(c: char) {
    c == ' ' || c == '\t' || c == '\n' || c == '\r'
  }

  function SkipWs(s: string): (r: string)
    ensures |r| <= |s|
    ensures r == s[|s| - |r|..]
    ensures r == [] || !IsJsonWs(r[0])
  {
    if s != [] && IsJsonWs(s[0]) then SkipWs(s[1..]) else s
  }

  /** The value of four hexadecimal digits. */
  function Hex4(s: string): (v: nat)
    requires |s| == 4 && AllDigitsOf(s, 16)
    ensures v < 0x10000
  {
    DigitValue(s[0]) * 0x1000 + DigitValue(s[1]) * 0x100 + DigitValue(s[2]) * 0x10 + DigitValue(s[3])
  }

  /**
   * The character an escape denotes, s being the text after the backslash,
   * and the rest of the text. An escape of a UTF-16 surrogate is refused.
   */
  function ReadEscape(s: string): (r: Option<(char, string)>)
    ensures r.Some? ==> |r.value.1| < |s|
  {
    if s == [] then None
    else match s[0]
      case '"' => Some(('"', s[1..]))
      case '\\' => Some(('\\', s[1..]))
      case '/' => Some(('/', s[1..]))
      case 'b' => Some(('\U{8}', s[1..]))
      case 'f' => Some(('\U{C}', s[1..]))
      case 'n' => Some(('\n', s[1..]))
      case 'r' => Some(('\r', s[1..]))
      case 't' => Some(('\t', s[1..]))
      case 'u' =>
        if 5 <= |s| && AllDigitsOf(s[1..5], 16) then
          var code := Hex4(s[1..5]);
          if 0xD800 <= code < 0xE000 then None else Some((code as char, s[5..]))
        else None
      case _ => None
  }

  /** The characters of a string up to its closing quote, and the text after that quote. */
  function ReadStringBody(s: string): (r: Option<(string, string)>)
    ensures r.Some? ==> |r.value.1| < |s|
    decreases |s|
  {
    if s == [] then None
    else if s[0] == '"' then Some(([], s[1..]))
    else if s[0] == '\\' then
      match ReadEscape(s[1..])
      case None => None
      case Some((c, rest)) =>
        match ReadStringBody(rest)
        case None => None
        case Some((t, after)) => Some(([c] + t, after))
    else if s[0] as int < 0x20 then None
    else
      match ReadStringBody(s[1..])
      case None => None
      case Some((t, after)) => Some(([s[0]] + t, after))
  }

  /** The number of decimal digits at the start of s. */
  function DigitRun(s: string): (k: nat)
    ensures k <= |s|
    ensures AllDigitsOf(s[..k], 10)
    ensures k < |s| ==> !IsDigitOf(s[k], 10)
  {
    if s != [] && IsDigitOf(s[0], 10) then 1 + DigitRun(s[1..]) else 0
  }

  /** Digits of an integer: "0", or digits without a leading zero. */
  function ReadNatural(s: string): (r: Option<(nat, string)>)
    ensures r.Some? ==> |r.value.1| < |s|
  {
    var k := DigitRun(s);
    if k == 0 || (k > 1 && s[0] == '0') then None
    else Some((ValueOf(s[..k], 10), s[k..]))
  }

  /** An integer: an optional minus sign, then its digits. */
  function ReadNumber(s: string): (r: Option<(int, string)>)
    ensures r.Some? ==> |r.value.1| < |s|
  {
    if s != [] && s[0] == '-' then
      match ReadNatural(s[1..])
      case None => None
      case Some((m, rest)) => Some((-(m as int), rest))
    else
      match ReadNatural(s)
      case None => None
      case Some((m, rest)) => Some((m, rest))
  }

  /** A literal name: `word` at the start of s stands for v. */
  function ReadLiteral(s: string, word: string, v: Value): (r: Option<(Value, string)>)
    requires |word| > 0
    ensures r.Some? ==> r.value.0 == v && |r.value.1| < |s|
  {
    if |word| <= |s| && s[..|word|] == word then Some((v, s[|word|..])) else None
  }

  /** One value at the very start of s, and the text after it. */
  function ReadValue(s: string): (r: Option<(Value, string)>)
    ensures r.Some? ==> |r.value.1| < |s|
    decreases |s|, 0
  {
    if s == [] then None
    else match s[0]
      case 'n' => ReadLiteral(s, "null", Null)
      case 't' => ReadLiteral(s, "true", Bool(true))
      case 'f' => ReadLiteral(s, "false", Bool(false))
      case '"' =>
        (match ReadStringBody(s[1..])
         case None => None
         case Some((t, rest)) => Some((Str(t), rest)))
      case '[' => ReadArray(s[1..])
      case '{' => ReadObject(s[1..])
      case _ =>
        if s[0] == '-' || IsDigitOf(s[0], 10) then
          match ReadNumber(s)
          case None => None
          case Some((n, rest)) => Some((Num(n), rest))
        else None
  }

  /** An array, s starting after its opening bracket. */
  function ReadArray(s: string): (r: Option<(Value, string)>)
    ensures r.Some? ==> |r.value.1| < |s|
    decreases |s|, 2
  {
    var t := SkipWs(s);
    if t != [] && t[0] == ']' then Some((Arr([]), t[1..]))
    else
      match ReadItems(t)
      case None => None
      case Some((items, rest)) => Some((Arr(items), rest))
  }

  /** An object, s starting after its opening brace. */
  function ReadObject(s: string): (r: Option<(Value, string)>)
    ensures r.Some? ==> |r.value.1| < |s|
    decreases |s|, 2
  {
    var t := SkipWs(s);
    if t != [] && t[0] == '}' then Some((Obj([]), t[1..]))
    else
      match ReadMembers(t)
      case None => None
      case Some((members, rest)) => Some((Obj(members), rest))
  }

  /** The elements of a non-empty array, s starting at the first one, up to and past the closing bracket. */
  function ReadItems(s: string): (r: Option<(seq<Value>, string)>)
    ensures r.Some? ==> |r.value.1| < |s|
    decreases |s|, 1
  {
    match ReadValue(s)
    case None => None
    case Some((v, rest)) =>
      var t := SkipWs(rest);
      if t == [] then None
      else if t[0] == ']' then Some(([v], t[1..]))
      else if t[0] == ',' then
        match ReadItems(SkipWs(t[1..]))
        case None => None
        case Some((more, after)) => Some(([v] + more, after))
      else None
  }

  /** One member, s starting at its key: the key, the colon, the value, and the text after the value. */
  function ReadMember(s: string): (r: Option<(string, Value, string)>)
    ensures r.Some? ==> |r.value.2| < |s|
    decreases |s|, 0
  {
    if s == [] || s[0] != '"' then None
    else
      match ReadStringBody(s[1..])
      case None => None
      case Some((key, rest)) =>
        var t := SkipWs(rest);
        if t == [] || t[0] != ':' then None
        else
          match ReadValue(SkipWs(t[1..]))
          case None => None
          case Some((v, after)) => Some((key, v, after))
  }

  /** The members of a non-empty object, s starting at the first key, up to and past the closing brace. */
  function ReadMembers(s: string): (r: Option<(seq<(string, Value)>, string)>)
    ensures r.Some? ==> |r.value.1| < |s|
    decreases |s|, 1
  {
    match ReadMember(s)
    case None => None
    case Some((key, v, rest)) =>
      var u := SkipWs(rest);
      if u == [] then None
      else if u[0] == '}' then Some(([(key, v)], u[1..]))
      else if u[0] == ',' then
        match ReadMembers(SkipWs(u[1..]))
        case None => None
        case Some((more, after)) => Some(([(key, v)] + more, after))
      else None
  }

  /** A whole JSON text: one value, with optional whitespace around it. */
  function Read(text: string): Option<Value> {
    match ReadValue(SkipWs(text))
    case None => None
    case Some((v, rest)) => if SkipWs(rest) == [] then Some(v) else None
  }
}
