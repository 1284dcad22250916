# ecma5Compact.js fallbacks in Dafny

`src/utility/ecma5Compact.js` installs replacements for standard functions when an
old JavaScript runtime does not have them. This project models four of those
fallbacks and proves what they promise.

- **JSON encoder.** It consists of:
  - the escape table `JSON.specialChars`;
  - the escaping callback `JSON.replaceChars`;
  - the recursive `JSON.stringify`.

  It lives in module `Json`. `Radix` renders integers, as
  `Number.prototype.toString(radix)` does for integral values up to 2^53. The encoder has a partner: an
  independent reader of RFC 8259 JSON text, in `JsonReader`. `JsonRoundTrip`
  proves that reading what the encoder writes gives back the original value.
- **`Array.prototype.indexOf`.** The method `ArrayShims.IndexOf` runs over an
  `array`, as the loop in the source does. It is proved against the
  specification function `FirstMatch`. An element is an `Option`. For
  `indexOf`, `None` is every read that gives `undefined`: a hole, an
  `undefined` element, or any index outside the array. The searched value may be
  `undefined` too.
- **`Array.prototype.filter`.** The method `ArrayShims.Filter` pushes the kept
  elements onto a result sequence. It is proved against the function `Kept`.
  Here `None` is a hole only. The loop tests `i in this`, which holds for an
  element that is `undefined`, so such an element is a `Some` of an element
  type that contains `undefined`. The same JavaScript array is therefore
  written differently for the two methods. The callback `fn` is a total function of the
  element and its index.
- **`String.prototype.trim`.** The source removes the matches of
  `/^[\s\u00A0]+|[\s\u00A0]+$/g`. This is `StringShims.Trim`, built from the
  lengths of the leading and trailing runs of white space. `\s` is the
  WhiteSpace and LineTerminator set of ECMA-262 (5th edition), sections 7.2
  and 7.3. Engines that lack `trim` have a narrower `\s`, which is why the
  source names U+00A0 again. No trim lemma depends on the list: they all hold
  for any character class `IsTrimmed`.

All files are given to Dafny together. `Wrappers` holds the `Option` type.

The modelled values are:
- JSON values: `null`, booleans, integral numbers, strings, arrays, and
  objects with their members in enumeration order.
- Strings: sequences of `char`.

## Model

| member | source | states |
|---|---|---|
| Json.SpecialChar | src/utility/ecma5Compact.js:180 | A table entry exists only for a character that the replace pattern escapes. The entry is two characters and starts with a backslash. |
| Json.SpecialCharTable | src/utility/ecma5Compact.js:180 | The table has an entry exactly for backspace, tab, newline, form feed, carriage return, `"` and `\`, and for nothing else. |
| Json.NeedsEscape | src/utility/ecma5Compact.js:189 | The class `[\x00-\x1f\\"]` of the replace pattern. It has no contract of its own; `JsonRoundTrip.NeedsEscapeExactly` states what it means. |
| Json.ReplaceChar | src/utility/ecma5Compact.js:182-184 | A character in the table gets exactly its table entry. Any other escaped character gets the six characters `\u00` + hex(code/16) + hex(code%16). The six-character form occurs only below 0x20, where the high nibble is 0 or 1. |
| Json.ReplaceCharExamples | src/utility/ecma5Compact.js:182-184 | Newline becomes `\n`; U+001F becomes `\u001f`; U+0000 becomes `\u0000`. |
| Json.EscapeChar | src/utility/ecma5Compact.js:189 | The replace callback applied to one character. A character the pattern selects becomes 2 or 6 characters starting with a backslash. Every other character is copied unchanged. |
| Json.EscapeBody | src/utility/ecma5Compact.js:189 | The escaped body is between 1 and 6 times the input length. It contains no character below 0x20. |
| Json.EscapeBodyAppend | src/utility/ecma5Compact.js:189 | Escaping works character by character: escaping `a + b` gives the escape of `a` followed by the escape of `b`. |
| Json.EscapeBodyPassThrough | src/utility/ecma5Compact.js:189 | A string with no control character, quote or backslash is copied unchanged. |
| Json.Quote | src/utility/ecma5Compact.js:188-189 | An encoded string is between `|s|+2` and `6|s|+2` characters long, and it starts and ends with `"`. |
| Json.Join | src/utility/ecma5Compact.js:197-203 | The conversion of the array `s` to text in `'[' + s + ']'` and `'{' + s + '}'`: the parts joined by commas. A joined list starts with the first character of its first part. `JsonRoundTrip.ReadArrayOf` and `JsonRoundTrip.ReadObjectOf` show that the joined parts read back one by one. |
| Json.Stringify | src/utility/ecma5Compact.js:186-209 | `JSON.stringify(obj)`. The encoding is never empty, and its first character identifies the kind of value, in both directions: `n` means null; `t`/`f` a boolean; `-` or a digit a number; `"` a string; `[` an array; `{` an object. Its inverse is `JsonRoundTrip.ReadStringify`. |
| Json.StringifyExamples | src/utility/ecma5Compact.js:190-207 | `null`, `true`, `false`, `[]` and `{}` are encoded as those exact texts. |
| Json.StringifyItems | src/utility/ecma5Compact.js:195-197 | There is one encoded element per array element. |
| Json.StringifyMembers | src/utility/ecma5Compact.js:200-203 | There is one `key:value` text per object member. |
| Radix.ToRadix | src/utility/ecma5Compact.js:183 | The radix rendering of `n` has at least one digit. Every digit belongs to the base, and there are no leading zeros. It is a single digit exactly when `n < base`. |
| Radix.ValueOfToRadix | src/utility/ecma5Compact.js:183 | Reading the rendering of `n` back as digits gives `n`. |
| Radix.NumberToString | src/utility/ecma5Compact.js:207 | `String(n)` starts with `-` exactly when `n < 0`. The rest is the decimal rendering of the magnitude. |
| JsonRoundTrip.NeedsEscapeExactly | src/utility/ecma5Compact.js:189 | The pattern selects exactly the characters that cannot stand for themselves in a JSON string. A character it leaves alone, followed by a closing quote, reads back as itself; a character it selects does not. |
| JsonRoundTrip.ReadReplaceChar | src/utility/ecma5Compact.js:182-184 | Every escape `replaceChars` writes is a valid JSON escape that denotes the original character. |
| JsonRoundTrip.ReadEscapeBody | src/utility/ecma5Compact.js:189 | The escaped body of any string, followed by the closing quote, reads back to that string. |
| JsonRoundTrip.ReadNumberToString | src/utility/ecma5Compact.js:207 | `String(n)` of any integer reads back to `n` when it is followed by a non-digit. |
| JsonRoundTrip.ReadStringifyPrefix | src/utility/ecma5Compact.js:186-209 | The encoding of any value reads back to that value when it is followed by a text that cannot extend it. |
| JsonRoundTrip.ReadArrayOf | src/utility/ecma5Compact.js:193-198 | The array text `[` + elements joined by `,` + `]` reads back to the array. |
| JsonRoundTrip.ReadObjectOf | src/utility/ecma5Compact.js:200-203 | The object text `{` + `key:value` texts joined by `,` + `}` reads back to the object. |
| JsonRoundTrip.ReadStringify | src/utility/ecma5Compact.js:186-209 | Reading the output of `JSON.stringify(v)` as a JSON text gives back `v`. |
| JsonRoundTrip.StringifyInjective | src/utility/ecma5Compact.js:186-209 | Different values never get the same encoding. |
| ArrayShims.At | src/utility/ecma5Compact.js:128 | `this[i]`: the element, or `undefined` (`None`) outside the array. It has no contract of its own; it is used by `FirstMatch`. |
| ArrayShims.FirstMatch | src/utility/ecma5Compact.js:127-130 | The first position from the start up to the length where `this[i] === value`, with no match before it. The result is none exactly when there is no such position. |
| ArrayShims.FirstMatchDefined | src/utility/ecma5Compact.js:126-129 | For a value other than `undefined`, a negative start finds the same position as start 0, and a position that is found is never negative. |
| ArrayShims.StartOf | src/utility/ecma5Compact.js:126 | The default of line 126: an absent (falsy) start index means 0. It has no contract of its own; `IndexOf` uses it. |
| ArrayShims.IndexOrMinusOne | src/utility/ecma5Compact.js:129-130 | The value `indexOf` returns: the position found, or -1. It has no contract of its own. |
| ArrayShims.IndexOf | src/utility/ecma5Compact.js:125-131 | `indexOf` as written: the first position from the start index, 0 when absent, even a negative one, where `this[i] === value`, or -1 when there is none. |
| ArrayShims.NegativeStartExample | src/utility/ecma5Compact.js:126-127 | On the array `[7, 8]`, `IndexOf` with value 7 and start -1 returns 0, while `IndexOfEs5` returns -1. |
| ArrayShims.UndefinedBelowZeroExample | src/utility/ecma5Compact.js:126-129 | On the array `[7, 8]`, `IndexOf` with value `undefined` and start -2 returns -2, while `IndexOfEs5` returns -1. |
| ArrayShims.Es5Start | src/utility/ecma5Compact.js:126 | The start position of section 15.4.4.14 of ECMA-262 (5th edition). It agrees with the fallback's start when `n >= 0`. In a non-empty array it is a valid position whenever `n` is below the length. A negative `n` leaves at most the last `-n` positions to search. |
| ArrayShims.IndexOfEs5 | src/utility/ecma5Compact.js:125-131 | Corrected `indexOf`: the first match at or after the standard start position, or -1. The result is always -1 or a position inside the array. |
| ArrayShims.Kept | src/utility/ecma5Compact.js:84-95 | `filter` returns at most as many elements as the array has. |
| ArrayShims.Filter | src/utility/ecma5Compact.js:84-95 | The loop returns exactly `Kept` of the array: the non-hole elements the callback accepts, in index order. |
| ArrayShims.KeptIndices | src/utility/ecma5Compact.js:86-89 | The kept positions are increasing. Each is a non-hole the callback accepts, and every such position is included. |
| ArrayShims.KeptAtIndices | src/utility/ecma5Compact.js:84-95 | The result is a subsequence of the array: its k-th element is the element at the k-th kept position, and nothing else is in it. |
| StringShims.IsWs | src/utility/ecma5Compact.js:111 | The class `\s` of section 15.10.2.12 of ECMA-262 (5th edition): the WhiteSpace and LineTerminator characters. It has no contract of its own, and no trim lemma depends on its list. |
| StringShims.IsTrimmed | src/utility/ecma5Compact.js:111 | The class `[\s\u00A0]` of the pattern: `\s` with U+00A0 named again. It has no contract of its own. |
| StringShims.LeadingRun | src/utility/ecma5Compact.js:111 | The match of `^[\s\u00A0]+` is the longest leading run of white space: every character in it is white space, and the next character is not. |
| StringShims.TrailingRun | src/utility/ecma5Compact.js:111 | The match of `[\s\u00A0]+$` is the longest trailing run of white space. |
| StringShims.TrimStart | src/utility/ecma5Compact.js:111 | After the leading run is removed, the string does not start with white space. |
| StringShims.TrimEnd | src/utility/ecma5Compact.js:111 | After the trailing run is removed, the string does not end with white space. |
| StringShims.Trim | src/utility/ecma5Compact.js:110-111 | The trimmed string neither starts nor ends with white space. |
| StringShims.TrimIsInfix | src/utility/ecma5Compact.js:110-111 | The result is the contiguous piece of `s` that starts where the leading run ends. Everything before and after it is white space, and the interior is untouched. |
| StringShims.LeadingRunOf | src/utility/ecma5Compact.js:111 | If white space `a` is followed by a piece that does not start with white space, the leading run is exactly `a`. |
| StringShims.TrailingRunOf | src/utility/ecma5Compact.js:111 | If a piece that does not end with white space is followed by white space `b`, the trailing run is exactly `b`. |
| StringShims.TrimUnique | src/utility/ecma5Compact.js:110-111 | For white space `a`, a piece `m` with no white space at either end, and white space `b`, trimming `a + m + b` gives `m`. |
| StringShims.TrimIdempotent | src/utility/ecma5Compact.js:110-111 | Trimming twice is the same as trimming once. |

## Left out

- `JSON.parse` (line 211) evaluates its input as program text through `new Function`, so it is not modelled. `JsonReader.Read` is an independent RFC 8259 reader. It serves only as the inverse of the encoder and does not model `JSON.parse`.
- Numbers are integers only. `String(obj)` of a non-integral number, of NaN or Infinity, and the exponent form used from 1e21 upwards are not modelled.
- `undefined` and functions reach `String(obj)` on line 207 and are not modelled. Every other object, a date included, goes through the `for-in` branch of lines 200-203, and only plain objects given as their members are modelled.
- Holes in arrays given to the encoder are not modelled: it writes `JSON.stringify(undefined)` for them.
- Objects are a sequence of members in enumeration order. The `for-in` loop's inclusion of inherited enumerable properties is not modelled, and neither is encoding a cyclic structure, which does not terminate.
- Strings are sequences of Unicode scalar values, not UTF-16 code units. The reader refuses `\u` escapes of surrogates, which the encoder never writes.
- `Function.prototype.bind`, `Array.isArray`, `Array.prototype.forEach`, `Date.now`, the `Object.assign`-style property copy and the feature-detection guards around each fallback are outside the four modelled operations.
- ArrayShims.Filter: the `scope` argument and any side effects of the callback on the array are not modelled. The callback is a pure function of the element and its index, and the array's length is read once, as the loop does.
- ArrayShims.IndexOf: `startIndex` is an integer or absent. A fractional or non-numeric start index is not modelled.
- ArrayShims.IndexOfEs5: the standard skips holes but finds `undefined` elements. The model does not tell the two apart, and treats every `None` as an `undefined` element.
- Radix.NumberToString: it gives the exact decimal digits of any integer. For integral numbers above 2^53 in magnitude, JavaScript prints the shortest digits that round-trip, padded with zeros: `String(2**60)` is `1152921504606847000`, where the model gives `1152921504606846976`. The exponent form from 1e21 upwards is not modelled either.
- Radix.ToRadix: only non-negative integers are rendered. `replaceChars` only passes in values below 0x20, and `String(n)` handles the sign separately.

## Findings

| source | as written | input that shows it | evidently intended | confidence | as-written member | corrected member |
|---|---|---|---|---|---|---|
| src/utility/ecma5Compact.js:126-127 | A negative `startIndex` starts the loop below 0. There, `this[startIndex]` is `undefined`, so the search in effect starts from index 0. | `[7, 8].indexOf(7, -1)` returns 0. | Section 15.4.4.14 of ECMA-262 (5th edition): a negative start counts from the end (`len + startIndex`), so the result is -1. | medium, not executed | ArrayShims.NegativeStartExample | ArrayShims.IndexOfEs5 |
| src/utility/ecma5Compact.js:126-129 | For a negative `startIndex`, the loop compares `this[i]` for indices below 0. Those read `undefined`, which equals `value` when `value` is `undefined`. | `[7, 8].indexOf(undefined, -2)` returns -2. `[7, 8].indexOf(undefined, -1)` returns -1 although it found a match. | The doc comment on line 123 promises the position of the value, or -1 when it is absent. The result should be -1 or a position in the array, as section 15.4.4.14 of ECMA-262 (5th edition) gives. | medium, not executed | ArrayShims.UndefinedBelowZeroExample | ArrayShims.IndexOfEs5 |

The escape form `\u00` + two nibbles is always six characters. For a control character below 0x10 the high nibble renders as `0`, so U+0001 becomes `\u0001`.
