/**
 * The encoder and the reader are inverse: every escape `JSON.replaceChars`
 * writes is a valid escape under section 7 of RFC 8259 that denotes the
 * original character, and every text `JSON.stringify` writes reads back to
 * the value it was made from.
 */
module JsonRoundTrip {
  import opened Wrappers
  import opened Radix
  import opened Json
  import opened JsonReader

  /** A text that cannot extend the number before it. */
  predicate Delimits(rest: string) {
    rest == [] || !IsDigitOf(rest[0], 10)
  }

  /**
   * The pattern `[\x00-\x1f\\"]` selects exactly the characters that cannot
   * stand for themselves inside a JSON string.
   */
  lemma NeedsEscapeExactly(c: char)
    ensures !NeedsEscape(c) <==> ReadStringBody([c, '"']) == Some(([c], []))
  {
    var s: string := [c, '"'];
    assert s[1..] == ['"'];
    assert ReadStringBody(['"']) == Some(([], []));
    if c == '"' {
      assert ReadStringBody(s) == Some(([], ['"']));
    } else if c == '\\' {
      assert ReadStringBody([]) == None;
      assert ReadStringBody(s) == None;
    } else if c as int < 0x20 {
      assert ReadStringBody(s) == None;
    } else {
      assert [s[0]] + [] == [c];
    }
  }

  /** The escape written for c, read after its backslash, denotes c. */
  lemma ReadReplaceChar(c: char, rest: string)
    requires NeedsEscape(c)
    ensures ReadEscape(ReplaceChar(c)[1..] + rest) == Some((c, rest))
  {
    var e := ReplaceChar(c)[1..] + rest;
    if SpecialChar(c).None? {
      var hi, lo := c as int / 16, c as int % 16;
      DigitValueOfDigit(hi);
      DigitValueOfDigit(lo);
      assert e[0] == 'u';
      assert e[1..5] == ['0', '0', Digit(hi), Digit(lo)];
      assert Hex4(e[1..5]) == hi * 16 + lo == c as int;
      assert e[5..] == rest;
    }
  }

  /** A character that needs no escape is read as itself. */
  lemma ReadPlainChar(c: char, tail: string, t: string, rest: string)
    requires !NeedsEscape(c)
    requires ReadStringBody(tail) == Some((t, rest))
    ensures ReadStringBody([c] + tail) == Some(([c] + t, rest))
  {
    assert ([c] + tail)[1..] == tail;
  }

  /** An escaped character is read as the character it stands for. */
  lemma ReadEscapedChar(c: char, tail: string, t: string, rest: string)
    requires NeedsEscape(c)
    requires ReadStringBody(tail) == Some((t, rest))
    ensures ReadStringBody(ReplaceChar(c) + tail) == Some(([c] + t, rest))
  {
    var text := ReplaceChar(c) + tail;
    assert text[0] == '\\';
    assert text[1..] == ReplaceChar(c)[1..] + tail;
    ReadReplaceChar(c, tail);
  }

  /** The body of an encoded string, followed by the closing quote, reads back to the string. */
  lemma {:induction false} ReadEscapeBody(s: string, rest: string)
    ensures ReadStringBody(EscapeBody(s) + "\"" + rest) == Some((s, rest))
    decreases |s|
  {
    if s == [] {
      assert EscapeBody(s) + "\"" + rest == "\"" + rest;
    } else {
      var c := s[0];
      var tail := EscapeBody(s[1..]) + "\"" + rest;
      assert EscapeBody(s) + "\"" + rest == EscapeChar(c) + tail;
      ReadEscapeBody(s[1..], rest);
      if NeedsEscape(c) {
        ReadEscapedChar(c, tail, s[1..], rest);
      } else {
        ReadPlainChar(c, tail, s[1..], rest);
      }
      Uncons(s);
    }
  }

  /** A string encodes to a quoted body that reads back to the string. */
  lemma ReadQuote(s: string, rest: string)
    ensures ReadStringBody((Quote(s) + rest)[1..]) == Some((s, rest))
  {
    assert (Quote(s) + rest)[1..] == EscapeBody(s) + "\"" + rest;
    ReadEscapeBody(s, rest);
  }

  lemma {:induction false} DigitRunOf(ds: string, rest: string)
    requires AllDigitsOf(ds, 10) && Delimits(rest)
    ensures DigitRun(ds + rest) == |ds|
    decreases |ds|
  {
    if ds != [] {
      assert (ds + rest)[1..] == ds[1..] + rest;
      DigitRunOf(ds[1..], rest);
    } else {
      assert ds + rest == rest;
    }
  }

  /** The digits of m, followed by a delimiter, read back to m. */
  lemma ReadNaturalOf(m: nat, rest: string)
    requires Delimits(rest)
    ensures ReadNatural(ToRadix(m, 10) + rest) == Some((m, rest))
  {
    var ds := ToRadix(m, 10);
    var t := ds + rest;
    DigitRunOf(ds, rest);
    assert t[..|ds|] == ds && t[|ds|..] == rest;
    assert t[0] == ds[0];
    ValueOfToRadix(m, 10);
  }

  lemma ReadNegative(n: int, rest: string)
    requires Delimits(rest) && n < 0
    ensures ReadNumber(NumberToString(n) + rest) == Some((n, rest))
  {
    var m: nat := -n;
    var ds := ToRadix(m, 10);
    assert NumberToString(n) == "-" + ds;
    var s := "-" + ds + rest;
    assert s[1..] == ds + rest;
    ReadNaturalOf(m, rest);
    assert ReadNatural(s[1..]) == Some((m, rest));
  }

  lemma ReadNonNegative(n: int, rest: string)
    requires Delimits(rest) && n >= 0
    ensures ReadNumber(NumberToString(n) + rest) == Some((n, rest))
  {
    var ds := ToRadix(n, 10);
    var s := ds + rest;
    assert NumberToString(n) == ds;
    assert IsDigitOf(ds[0], 10) && s[0] == ds[0];
    ReadNaturalOf(n, rest);
  }

  /** The rendering of an integer reads back to it. */
  lemma ReadNumberToString(n: int, rest: string)
    requires Delimits(rest)
    ensures ReadNumber(NumberToString(n) + rest) == Some((n, rest))
  {
    if n < 0 {
      ReadNegative(n, rest);
    } else {
      ReadNonNegative(n, rest);
    }
  }

  lemma SkipWsNoop(t: string)
    requires t == [] || !IsJsonWs(t[0])
    ensures SkipWs(t) == t
  {
  }

  /** No encoding starts with whitespace. */
  lemma StringifyNonWs(v: Value)
    ensures |Stringify(v)| > 0 && !IsJsonWs(Stringify(v)[0])
  {
  }

  /** The encoding of a null, a boolean, a number or a string reads back to the value. */
  lemma ReadScalarPrefix(v: Value, rest: string)
    requires Delimits(rest)
    requires !v.Arr? && !v.Obj?
    ensures ReadValue(Stringify(v) + rest) == Some((v, rest))
  {
    var s := Stringify(v) + rest;
    match v
    case Null =>
      assert s[..4] == "null" && s[4..] == rest;
    case Bool(b) =>
      if b {
        assert s[..4] == "true" && s[4..] == rest;
      } else {
        assert s[..5] == "false" && s[5..] == rest;
      }
    case Num(n) =>
      assert s[0] == Stringify(v)[0];
      ReadNumberToString(n, rest);
    case Str(t) =>
      assert s[0] == '"';
      ReadQuote(t, rest);
  }

  /** An encoded array is its inside after an opening bracket. */
  lemma ArrayText(items: seq<Value>, rest: string)
    ensures Stringify(Arr(items)) + rest == "[" + (Join(StringifyItems(items), ",") + "]" + rest)
  {
    var j := Join(StringifyItems(items), ",");
    Assoc("[" + j, "]", rest);
    Assoc("[", j, "]" + rest);
    Assoc(j, "]", rest);
  }

  /** An encoded object is its inside after an opening brace. */
  lemma ObjectText(members: seq<(string, Value)>, rest: string)
    ensures Stringify(Obj(members)) + rest == "{" + (Join(StringifyMembers(members), ",") + "}" + rest)
  {
    var j := Join(StringifyMembers(members), ",");
    Assoc("{" + j, "}", rest);
    Assoc("{", j, "}" + rest);
    Assoc(j, "}", rest);
  }

  lemma ReadValueOpen(inner: string)
    ensures ReadValue("[" + inner) == ReadArray(inner)
    ensures ReadValue("{" + inner) == ReadObject(inner)
  {
    assert ("[" + inner)[0] == '[' && ("[" + inner)[1..] == inner;
    assert ("{" + inner)[0] == '{' && ("{" + inner)[1..] == inner;
  }

  /** An encoding, followed by anything that cannot extend it, reads back to the value. */
  lemma {:induction false} ReadStringifyPrefix(v: Value, rest: string)
    requires Delimits(rest)
    ensures ReadValue(Stringify(v) + rest) == Some((v, rest))
    decreases v, 2
  {
    match v
    case Arr(items) =>
      ArrayText(items, rest);
      ReadValueOpen(Join(StringifyItems(items), ",") + "]" + rest);
      ReadArrayOf(items, rest);
    case Obj(members) =>
      ObjectText(members, rest);
      ReadValueOpen(Join(StringifyMembers(members), ",") + "}" + rest);
      ReadObjectOf(members, rest);
    case _ =>
      ReadScalarPrefix(v, rest);
  }

  lemma ReadArrayEmpty(rest: string)
    ensures ReadArray("]" + rest) == Some((Arr([]), rest))
  {
    SkipWsNoop("]" + rest);
    assert ("]" + rest)[1..] == rest;
  }

  lemma ReadArrayFromItems(t: string, items: seq<Value>, rest: string)
    requires t != [] && !IsJsonWs(t[0]) && t[0] != ']'
    requires ReadItems(t) == Some((items, rest))
    ensures ReadArray(t) == Some((Arr(items), rest))
  {
    SkipWsNoop(t);
  }

  lemma ReadObjectEmpty(rest: string)
    ensures ReadObject("}" + rest) == Some((Obj([]), rest))
  {
    var u := "}" + rest;
    SkipWsNoop(u);
    assert SkipWs(u)[0] == '}' && SkipWs(u)[1..] == rest;
  }

  lemma ReadObjectFromMembers(t: string, members: seq<(string, Value)>, rest: string)
    requires t != [] && t[0] == '"'
    requires ReadMembers(t) == Some((members, rest))
    ensures ReadObject(t) == Some((Obj(members), rest))
  {
    SkipWsNoop(t);
  }

  /** The inside of a non-empty encoded array starts with its first element. */
  lemma ItemsStart(items: seq<Value>, rest: string)
    requires items != []
    ensures var inner := Join(StringifyItems(items), ",") + "]" + rest;
      inner != [] && !IsJsonWs(inner[0]) && inner[0] != ']'
  {
    assert StringifyItems(items)[0] == Stringify(items[0]);
  }

  /** The inside of a non-empty encoded object starts with the quote of its first key. */
  lemma MembersStart(members: seq<(string, Value)>, rest: string)
    requires members != []
    ensures var inner := Join(StringifyMembers(members), ",") + "}" + rest;
      inner != [] && inner[0] == '"'
  {
    assert StringifyMembers(members)[0][0] == '"';
  }

  /** The inside of an encoded array reads back to the array. */
  lemma {:induction false} ReadArrayOf(items: seq<Value>, rest: string)
    ensures ReadArray(Join(StringifyItems(items), ",") + "]" + rest) == Some((Arr(items), rest))
    decreases items, 1
  {
    if items == [] {
      assert Join(StringifyItems(items), ",") + "]" + rest == "]" + rest;
      ReadArrayEmpty(rest);
    } else {
      ItemsStart(items, rest);
      ReadItemsOf(items, rest);
      ReadArrayFromItems(Join(StringifyItems(items), ",") + "]" + rest, items, rest);
    }
  }

  /** The inside of an encoded object reads back to the object. */
  lemma {:induction false} ReadObjectOf(members: seq<(string, Value)>, rest: string)
    ensures ReadObject(Join(StringifyMembers(members), ",") + "}" + rest) == Some((Obj(members), rest))
    decreases members, 1
  {
    if members == [] {
      assert Join(StringifyMembers(members), ",") + "}" + rest == "}" + rest;
      ReadObjectEmpty(rest);
    } else {
      MembersStart(members, rest);
      ReadMembersOf(members, rest);
      ReadObjectFromMembers(Join(StringifyMembers(members), ",") + "}" + rest, members, rest);
    }
  }

  /** The last element of an array, followed by the closing bracket. */
  lemma ReadItemsLast(s: string, x: Value, rest: string)
    requires ReadValue(s) == Some((x, "]" + rest))
    ensures ReadItems(s) == Some(([x], rest))
  {
    SkipWsNoop("]" + rest);
    assert ("]" + rest)[1..] == rest;
  }

  /** An element followed by a comma and the remaining elements. */
  lemma ReadItemsNext(s: string, x: Value, tail: string, more: seq<Value>, rest: string)
    requires ReadValue(s) == Some((x, "," + tail))
    requires tail == [] || !IsJsonWs(tail[0])
    requires ReadItems(tail) == Some((more, rest))
    ensures ReadItems(s) == Some(([x] + more, rest))
  {
    SkipWsNoop("," + tail);
    assert ("," + tail)[1..] == tail;
    SkipWsNoop(tail);
  }

  /** Splitting off the first part of a joined list of two or more parts. */
  lemma JoinCons(parts: seq<string>, sep: string, suffix: string)
    requires |parts| >= 2
    ensures Join(parts, sep) + suffix == parts[0] + (sep + (Join(parts[1..], sep) + suffix))
  {
  }

  /** The text after the first element of an encoded array, and what it starts with. */
  lemma ItemsText(items: seq<Value>, rest: string)
    requires |items| > 1
    ensures Join(StringifyItems(items), ",") + "]" + rest ==
      Stringify(items[0]) + ("," + (Join(StringifyItems(items[1..]), ",") + "]" + rest))
    ensures !IsJsonWs((Join(StringifyItems(items[1..]), ",") + "]" + rest)[0])
  {
    var parts := StringifyItems(items);
    var later := StringifyItems(items[1..]);
    assert parts[0] == Stringify(items[0]);
    assert parts[1..] == later;
    JoinCons(parts, ",", "]" + rest);
    Assoc(Join(parts, ","), "]", rest);
    Assoc(Join(later, ","), "]", rest);
    StringifyNonWs(items[1]);
    assert later[0] == Stringify(items[1]);
  }

  /** The text of the elements after the first one, closed, then `rest`. */
  function ItemsAfter(items: seq<Value>, rest: string): string
    requires |items| > 1
  {
    Join(StringifyItems(items[1..]), ",") + "]" + rest
  }

  /** Reading a one-element array's inside, given that its element reads back. */
  lemma ItemsLastStep(items: seq<Value>, rest: string)
    requires |items| == 1
    requires ReadValue(Stringify(items[0]) + ("]" + rest)) == Some((items[0], "]" + rest))
    ensures ReadItems(Join(StringifyItems(items), ",") + "]" + rest) == Some((items, rest))
  {
    var x := items[0];
    var text := Join(StringifyItems(items), ",") + "]" + rest;
    assert ReadValue(text) == Some((x, "]" + rest)) by {
      assert text == Stringify(x) + ("]" + rest);
    }
    ReadItemsLast(text, x, rest);
    assert [x] == items;
  }

  /** Reading a longer array's inside, given that its first element and the others read back. */
  lemma ItemsNextStep(items: seq<Value>, rest: string)
    requires |items| > 1
    requires ReadValue(Stringify(items[0]) + ("," + ItemsAfter(items, rest))) ==
      Some((items[0], "," + ItemsAfter(items, rest)))
    requires ReadItems(ItemsAfter(items, rest)) == Some((items[1..], rest))
    ensures ReadItems(Join(StringifyItems(items), ",") + "]" + rest) == Some((items, rest))
  {
    var text := Join(StringifyItems(items), ",") + "]" + rest;
    var tail := ItemsAfter(items, rest);
    assert ReadValue(text) == Some((items[0], "," + tail)) && tail != [] && !IsJsonWs(tail[0]) by {
      ItemsText(items, rest);
    }
    ReadItemsNext(text, items[0], tail, items[1..], rest);
    Uncons(items);
  }

  /** The encodings of the elements of a non-empty array, joined by commas and closed, read back to the elements. */
  lemma {:induction false} ReadItemsOf(items: seq<Value>, rest: string)
    requires items != []
    ensures ReadItems(Join(StringifyItems(items), ",") + "]" + rest) == Some((items, rest))
    decreases items, 0
  {
    if |items| == 1 {
      ReadStringifyPrefix(items[0], "]" + rest);
      ItemsLastStep(items, rest);
    } else {
      ReadStringifyPrefix(items[0], "," + ItemsAfter(items, rest));
      ReadItemsOf(items[1..], rest);
      ItemsNextStep(items, rest);
    }
  }

  /** One encoded member, `key:value`, reads back to its key and value. */
  lemma ReadMemberOf(key: string, x: Value, tail: string)
    requires ReadValue(Stringify(x) + tail) == Some((x, tail))
    ensures ReadMember(Quote(key) + (":" + (Stringify(x) + tail))) == Some((key, x, tail))
  {
    var body := Stringify(x) + tail;
    var s := Quote(key) + (":" + body);
    ReadQuote(key, ":" + body);
    SkipWsNoop(":" + body);
    assert (":" + body)[1..] == body;
    StringifyNonWs(x);
    SkipWsNoop(body);
  }

  /** The text of an encoded object split after its first member. */
  lemma MembersText(members: seq<(string, Value)>, rest: string, tail: string)
    requires members != []
    requires tail == if |members| == 1 then "}" + rest
      else "," + (Join(StringifyMembers(members[1..]), ",") + "}" + rest)
    ensures Join(StringifyMembers(members), ",") + "}" + rest ==
      Quote(members[0].0) + (":" + (Stringify(members[0].1) + tail))
  {
    var parts := StringifyMembers(members);
    var q, v := Quote(members[0].0), Stringify(members[0].1);
    assert parts[0] == q + ":" + v;
    Assoc(q + ":", v, tail);
    Assoc(q, ":", v + tail);
    Assoc(Join(parts, ","), "}", rest);
    if |members| > 1 {
      var later := StringifyMembers(members[1..]);
      assert parts[1..] == later;
      JoinCons(parts, ",", "}" + rest);
      Assoc(Join(later, ","), "}", rest);
    }
  }

  /** The text after `rest` of the members after the first one. */
  function MembersAfter(members: seq<(string, Value)>, rest: string): string
    requires |members| > 1
  {
    Join(StringifyMembers(members[1..]), ",") + "}" + rest
  }

  /** A member followed by the closing brace. */
  lemma ReadMembersLast(s: string, key: string, x: Value, rest: string)
    requires ReadMember(s) == Some((key, x, "}" + rest))
    ensures ReadMembers(s) == Some(([(key, x)], rest))
  {
    var u := "}" + rest;
    SkipWsNoop(u);
    assert SkipWs(u)[0] == '}' && SkipWs(u)[1..] == rest;
  }

  /** A member followed by a comma and the remaining members. */
  lemma ReadMembersNext(s: string, key: string, x: Value, after: string, more: seq<(string, Value)>, rest: string)
    requires ReadMember(s) == Some((key, x, "," + after))
    requires after != [] && after[0] == '"'
    requires ReadMembers(after) == Some((more, rest))
    ensures ReadMembers(s) == Some(([(key, x)] + more, rest))
  {
    SkipWsNoop("," + after);
    assert ("," + after)[1..] == after;
    SkipWsNoop(after);
  }

  /** The first member of an encoded object reads back, followed by `tail`. */
  lemma FirstMember(members: seq<(string, Value)>, rest: string, tail: string)
    requires members != []
    requires tail == if |members| == 1 then "}" + rest else "," + MembersAfter(members, rest)
    requires ReadValue(Stringify(members[0].1) + tail) == Some((members[0].1, tail))
    ensures ReadMember(Join(StringifyMembers(members), ",") + "}" + rest) == Some((members[0].0, members[0].1, tail))
  {
    MembersText(members, rest, tail);
    ReadMemberOf(members[0].0, members[0].1, tail);
  }

  /** The last member of an object, followed by the closing brace. */
  lemma ReadLastMember(members: seq<(string, Value)>, rest: string)
    requires |members| == 1
    requires ReadValue(Stringify(members[0].1) + ("}" + rest)) == Some((members[0].1, "}" + rest))
    ensures ReadMembers(Join(StringifyMembers(members), ",") + "}" + rest) == Some((members, rest))
  {
    FirstMember(members, rest, "}" + rest);
    ReadMembersLast(Join(StringifyMembers(members), ",") + "}" + rest, members[0].0, members[0].1, rest);
    assert [(members[0].0, members[0].1)] == members;
  }

  /** A member followed by a comma and the remaining members. */
  lemma ReadNextMember(members: seq<(string, Value)>, rest: string)
    requires |members| > 1
    requires ReadValue(Stringify(members[0].1) + ("," + MembersAfter(members, rest))) ==
      Some((members[0].1, "," + MembersAfter(members, rest)))
    requires ReadMembers(MembersAfter(members, rest)) == Some((members[1..], rest))
    ensures ReadMembers(Join(StringifyMembers(members), ",") + "}" + rest) == Some((members, rest))
  {
    var after := MembersAfter(members, rest);
    FirstMember(members, rest, "," + after);
    MembersStart(members[1..], rest);
    ReadMembersNext(Join(StringifyMembers(members), ",") + "}" + rest, members[0].0, members[0].1, after, members[1..], rest);
    Uncons(members);
  }

  /** A non-empty sequence is its head followed by its tail. */
  lemma Uncons<T>(s: seq<T>)
    requires s != []
    ensures [s[0]] + s[1..] == s
  {
  }

  /** The `key:value` texts of a non-empty object, joined by commas and closed, read back to the members. */
  lemma {:induction false} ReadMembersOf(members: seq<(string, Value)>, rest: string)
    requires members != []
    ensures ReadMembers(Join(StringifyMembers(members), ",") + "}" + rest) == Some((members, rest))
    decreases members, 0
  {
    var (key, x) := members[0];
    assert x < members[0];
    if |members| == 1 {
      ReadStringifyPrefix(x, "}" + rest);
      ReadLastMember(members, rest);
    } else {
      ReadStringifyPrefix(x, "," + MembersAfter(members, rest));
      ReadMembersOf(members[1..], rest);
      ReadNextMember(members, rest);
    }
  }

  /** The round trip: reading what the encoder writes gives back the value. */
  lemma ReadStringify(v: Value)
    ensures Read(Stringify(v)) == Some(v)
  {
    SkipWsNoop(Stringify(v));
    assert Stringify(v) + [] == Stringify(v);
    ReadStringifyPrefix(v, []);
    SkipWsNoop([]);
  }

  /** Different values have different encodings. */
  lemma StringifyInjective(v: Value, w: Value)
    requires Stringify(v) == Stringify(w)
    ensures v == w
  {
    ReadStringify(v);
    ReadStringify(w);
  }
}
