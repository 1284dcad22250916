/**
 * The compact JSON encoder that ecma5Compact.js installs when the runtime has
 * no `JSON.stringify`: the escape table `JSON.specialChars`, the escaping
 * callback `JSON.replaceChars` and the recursive `JSON.stringify`.
 */
module Json {
  import opened Wrappers
  import opened Radix

  /**
   * The values the encoder distinguishes by `typeof` and `instanceof Array`:
   * null, booleans, numbers (integral ones here), strings, arrays and plain
   * objects, whose own enumerable properties are kept in enumeration order.
   */
  datatype Value =
    | Null
    | Bool(b: bool)
    | Num(n: int)
    | Str(s: string)
    | Arr(items: seq<Value>)
    | Obj(members: seq<(string, Value)>)

  /** The characters the replace pattern `[\x00-\x1f\\"]` selects for escaping. */
  predicate NeedsEscape(c: char) {
    c as int < 0x20 || c == '"' || c == '\\'
  }

  /** The table `JSON.specialChars`: the seven characters with a two-character escape. */
  function SpecialChar(c: char): (e: Option<string>)
    ensures e.Some? ==> NeedsEscape(c) && |e.value| == 2 && e.value[0] == '\\'
  {
    match c
    case '\U{8}' => Some("\\b")
    case '\t' => Some("\\t")
    case '\n' => Some("\\n")
    case '\U{C}' => Some("\\f")
    case '\r' => Some("\\r")
    case '"' => Some("\\\"")
    case '\\' => Some("\\\\")
    case _ => None
  }

  /**
   * `JSON.replaceChars`: the table entry if there is one, otherwise `\u00`
   * followed by `Math.floor(code / 16)` and `code % 16`, each in radix 16.
   */
  function ReplaceChar(c: char): (r: string)
    ensures SpecialChar(c).Some? ==> r == SpecialChar(c).value
    ensures NeedsEscape(c) && SpecialChar(c).None? ==> |r| == 6
    ensures NeedsEscape(c) ==> |r| == 2 || |r| == 6
    ensures NeedsEscape(c) && |r| == 6 ==>
      c as int < 0x20 && c as int / 16 <= 1 &&
      r == ['\\', 'u', '0', '0', Digit(c as int / 16), Digit(c as int % 16)]
  {
    match SpecialChar(c)
    case Some(e) => e
    case None => "\\u00" + ToRadix(c as int / 16, 16) + ToRadix(c as int % 16, 16)
  }

  /**
   * What the replace call puts in place of one character of the input: an
   * escape starting with a backslash for a character the pattern selects, the
   * character itself otherwise.
   */
  function EscapeChar(c: char): (r: string)
    ensures NeedsEscape(c) ==> |r| in {2, 6} && r[0] == '\\'
    ensures !NeedsEscape(c) ==> r == [c]
  {
    if NeedsEscape(c) then ReplaceChar(c) else [c]
  }

  /** The body of an encoded string: every character replaced by its escape, left to right. */
  function EscapeBody(s: string): (r: string)
    ensures |s| <= |r| <= 6 * |s|
    ensures forall i :: 0 <= i < |r| ==> r[i] as int >= 0x20
    decreases |s|
  {
    if s == [] then [] else EscapeChar(s[0]) + EscapeBody(s[1..])
  }

  /** The encoding of a string: the escaped body between double quotes. */
  function Quote(s: string): (r: string)
    ensures |s| + 2 <= |r| <= 6 * |s| + 2
    ensures r[0] == '"' && r[|r| - 1] == '"'
  {
    "\"" + EscapeBody(s) + "\""
  }

  /** `Array.prototype.join` with separator `sep`, which is what `'[' + s + ']'` does to the array s. */
  function Join(parts: seq<string>, sep: string): (r: string)
    ensures |parts| > 0 && |parts[0]| > 0 ==> |r| > 0 && r[0] == parts[0][0]
  {
    if |parts| == 0 then ""
    else if |parts| == 1 then parts[0]
    else parts[0] + sep + Join(parts[1..], sep)
  }

  /** `JSON.stringify(obj)`; the first character of the encoding tells the kind of the value. */
  function Stringify(v: Value): (r: string)
    ensures |r| > 0
    ensures v.Null? <==> r[0] == 'n'
    ensures v.Bool? <==> r[0] in {'t', 'f'}
    ensures v.Num? <==> r[0] == '-' || IsDigitOf(r[0], 10)
    ensures v.Str? <==> r[0] == '"'
    ensures v.Arr? <==> r[0] == '['
    ensures v.Obj? <==> r[0] == '{'
    decreases v, 1
  {
    match v
    case Null => "null"
    case Bool(b) => if b then "true" else "false"
    case Num(n) => NumberToString(n)
    case Str(s) => Quote(s)
    case Arr(items) => "[" + Join(StringifyItems(items), ",") + "]"
    case Obj(members) => "{" + Join(StringifyMembers(members), ",") + "}"
  }

  /** The local array s of the array case: the encoding of every element, by index. */
  function StringifyItems(items: seq<Value>): (r: seq<string>)
    ensures |r| == |items|
    decreases items, 0
  {
    if items == [] then [] else [Stringify(items[0])] + StringifyItems(items[1..])
  }

  /** The local array s of the object case: `key:value` for every member, in enumeration order. */
  function StringifyMembers(members: seq<(string, Value)>): (r: seq<string>)
    ensures |r| == |members|
    decreases members, 0
  {
    if members == [] then []
    else
      var (key, value) := members[0];
      assert value < members[0];
      [Quote(key) + ":" + Stringify(value)] + StringifyMembers(members[1..])
  }

  /** Escaping works character by character: the body of a concatenation is the concatenation of the bodies. */
  lemma {:induction false} EscapeBodyAppend(a: string, b: string)
    ensures EscapeBody(a + b) == EscapeBody(a) + EscapeBody(b)
    decreases |a|
  {
    if a != [] {
      assert (a + b)[0] == a[0];
      assert (a + b)[1..] == a[1..] + b;
      EscapeBodyAppend(a[1..], b);
      assert EscapeBody(a + b) == EscapeChar(a[0]) + EscapeBody(a[1..] + b);
      Assoc(EscapeChar(a[0]), EscapeBody(a[1..]), EscapeBody(b));
    } else {
      assert a + b == b;
    }
  }

  /** Concatenation regrouped, for proofs about texts built piece by piece. */
  lemma Assoc(a: string, b: string, c: string)
    ensures a + b + c == a + (b + c)
  {
  }

  /** A string with nothing to escape is copied into the body unchanged. */
  lemma {:induction false} EscapeBodyPassThrough(s: string)
    requires forall i :: 0 <= i < |s| ==> !NeedsEscape(s[i])
    ensures EscapeBody(s) == s
    decreases |s|
  {
    if s != [] {
      EscapeBodyPassThrough(s[1..]);
    }
  }

  /** `JSON.specialChars` has exactly seven entries, all of them characters the pattern selects. */
  lemma SpecialCharTable(c: char)
    ensures SpecialChar(c).Some? <==> c in {'\U{8}', '\t', '\n', '\U{C}', '\r', '"', '\\'}
    ensures SpecialChar(c).Some? ==> NeedsEscape(c)
  {
  }

  /** Encodings of a few small values. */
  lemma StringifyExamples()
    ensures Stringify(Null) == "null"
    ensures Stringify(Bool(true)) == "true" && Stringify(Bool(false)) == "false"
    ensures Stringify(Arr([])) == "[]" && Stringify(Obj([])) == "{}"
  {
  }

  /** Three escapes: one from the table, two spelled out in hexadecimal. */
  lemma ReplaceCharExamples()
    ensures ReplaceChar('\n') == "\\n"
    ensures ReplaceChar('\U{1F}') == "\\u001f"
    ensures ReplaceChar('\U{0}') == "\\u0000"
  {
  }
}
