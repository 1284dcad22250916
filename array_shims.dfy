/**
 * The `Array.prototype.indexOf` and `Array.prototype.filter` fallbacks of
 * ecma5Compact.js, over an `array` of `Option`s. The two read the array
 * differently, and `None` means a different thing for each: for `IndexOf`
 * it is every read that gives `undefined` (a hole, an `undefined` element,
 * an index outside the array); for `Filter`, which tests `i in this`, it is a
 * hole only, and an `undefined` element is a `Some` of an element type that
 * contains `undefined`.
 */
module ArrayShims {
  import opened Wrappers

  /**
   * `this[i]` as `indexOf` reads it: `None` (`undefined`) outside the
   * array, at a hole, and at an element that is `undefined`.
   */
  function At<T>(s: seq<Option<T>>, i: int): Option<T> {
    if 0 <= i < |s| then s[i] else None
  }

  /**
   * The first position i with `from <= i < |s|` where `this[i] === value`,
   * or `None` when there is no such position.
   */
  function FirstMatch<T(==)>(s: seq<Option<T>>, value: Option<T>, from: int): (r: Option<int>)
    ensures r.Some? ==> from <= r.value < |s| && At(s, r.value) == value
    ensures r.Some? ==> forall j :: from <= j < r.value ==> At(s, j) != value
    ensures r.None? <==> forall j :: from <= j < |s| ==> At(s, j) != value
    decreases |s| - from
  {
    if from >= |s| then None
    else if At(s, from) == value then Some(from)
    else FirstMatch(s, value, from + 1)
  }

  /** What `indexOf` returns for a search result: the position, or -1 for none. */
  function IndexOrMinusOne(found: Option<int>): int {
    match found
    case Some(i) => i
    case None => -1
  }

  /** For a defined value the positions below 0 never match, so a negative start is the same as 0. */
  lemma FirstMatchDefined<T>(s: seq<Option<T>>, value: Option<T>, from: int)
    requires value.Some?
    ensures FirstMatch(s, value, from) == FirstMatch(s, value, if from < 0 then 0 else from)
    ensures FirstMatch(s, value, from).None? || 0 <= FirstMatch(s, value, from).value
  {
  }

  /** `startIndex || 0`: a missing (falsy) start index means 0. */
  function StartOf(startIndex: Option<int>): int {
    match startIndex
    case None => 0
    case Some(n) => n
  }

  /**
   * `Array.prototype.indexOf(value, startIndex)` as the fallback is written:
   * the loop counts up from the start index, even a negative one, and
   * compares `this[i]` with `value`; `None` is `undefined`.
   */
  method IndexOf<T(==)>(a: array<Option<T>>, value: Option<T>, startIndex: Option<int>) returns (r: int)
    ensures r == IndexOrMinusOne(FirstMatch(a[..], value, StartOf(startIndex)))
  {
    var i := StartOf(startIndex);
    var len := a.Length;
    while i < len
      invariant forall j :: StartOf(startIndex) <= j < i ==> At(a[..], j) != value
      decreases len - i
    {
      var item := if 0 <= i then a[i] else None;
      assert item == At(a[..], i);
      if item == value {
        return i;
      }
      i := i + 1;
    }
    return -1;
  }

  /**
   * The start position of section 15.4.4.14 of ECMA-262 (5th edition) for a
   * relative start n. It agrees with the fallback's start when n >= 0; it
   * lies inside a non-empty array whenever n is below the length; and a
   * negative n leaves at most the last -n positions to search.
   */
  function Es5Start(len: nat, n: int): (k: nat)
    ensures 0 <= n ==> k == n
    ensures 0 < len && n < len ==> k < len
    ensures n < 0 ==> k <= len && len - k <= -n
  {
    if 0 <= n then n else if 0 <= len + n then len + n else 0
  }

  /**
   * `indexOf` as section 15.4.4.14 of ECMA-262 (5th edition) defines it, on
   * an array whose `None` entries are `undefined` elements: the search starts
   * at a position inside the array, so the result is a position of the array
   * or -1.
   */
  method IndexOfEs5<T(==)>(a: array<Option<T>>, value: Option<T>, startIndex: Option<int>) returns (r: int)
    ensures r == IndexOrMinusOne(FirstMatch(a[..], value, Es5Start(a.Length, StartOf(startIndex))))
    ensures r == -1 || 0 <= r < a.Length
  {
    var start := Es5Start(a.Length, StartOf(startIndex));
    var i := start;
    while i < a.Length
      invariant start <= i
      invariant forall j :: start <= j < i ==> At(a[..], j) != value
      decreases a.Length - i
    {
      if a[i] == value {
        assert At(a[..], i) == value;
        return i;
      }
      assert At(a[..], i) != value;
      i := i + 1;
    }
    return -1;
  }

  /** `[7, 8].indexOf(7, -1)`: 0 as written, where the standard counts from the end and finds nothing. */
  method NegativeStartExample() returns (asWritten: int, standard: int)
    ensures asWritten == 0 && standard == -1
  {
    var a := new Option<int>[2];
    a[0], a[1] := Some(7), Some(8);
    assert a[..] == [Some(7), Some(8)];
    asWritten := IndexOf(a, Some(7), Some(-1));
    standard := IndexOfEs5(a, Some(7), Some(-1));
  }

  /** `[7, 8].indexOf(undefined, -2)`: -2 as written, a negative result other than -1; -1 under the standard. */
  method UndefinedBelowZeroExample() returns (asWritten: int, standard: int)
    ensures asWritten == -2 && standard == -1
  {
    var a := new Option<int>[2];
    a[0], a[1] := Some(7), Some(8);
    assert a[..] == [Some(7), Some(8)];
    asWritten := IndexOf(a, None, Some(-2));
    standard := IndexOfEs5(a, None, Some(-2));
  }

  /** The elements `filter` keeps: every element that is not a hole and passes the callback, in index order. */
  function Kept<T>(s: seq<Option<T>>, keep: (T, nat) -> bool): (r: seq<T>)
    ensures |r| <= |s|
  {
    if s == [] then []
    else
      var last := |s| - 1;
      Kept(s[..last], keep) +
        match s[last]
        case Some(x) => if keep(x, last) then [x] else []
        case None => []
  }

  /**
   * `Array.prototype.filter(fn)`: the callback, seen here as a function of
   * the element and its index, is asked about every element that is not a
   * hole, and the ones it accepts are pushed in index order. Here `None` is
   * a hole only: `i in this` holds for an element that is `undefined`, so
   * such an element is a `Some` and is offered to the callback.
   */
  method Filter<T>(a: array<Option<T>>, keep: (T, nat) -> bool) returns (results: seq<T>)
    ensures results == Kept(a[..], keep)
  {
    results := [];
    var i, l := 0, a.Length;
    while i < l
      invariant 0 <= i <= l
      invariant results == Kept(a[..i], keep)
    {
      assert a[..i + 1][..i] == a[..i];
      if a[i].Some? {
        var value := a[i].value;
        if keep(value, i) {
          results := results + [value];
        }
      }
      i := i + 1;
    }
    assert a[..l] == a[..];
  }

  /** The positions `filter` keeps, in increasing order. */
  function KeptIndices<T>(s: seq<Option<T>>, keep: (T, nat) -> bool): (idx: seq<nat>)
    ensures forall k :: 0 <= k < |idx| ==> idx[k] < |s| && s[idx[k]].Some? && keep(s[idx[k]].value, idx[k])
    ensures forall k, m :: 0 <= k < m < |idx| ==> idx[k] < idx[m]
    ensures forall i :: 0 <= i < |s| && s[i].Some? && keep(s[i].value, i) ==> i in idx
  {
    if s == [] then []
    else
      var last := |s| - 1;
      KeptIndices(s[..last], keep) +
        if s[last].Some? && keep(s[last].value, last) then [last] else []
  }

  /**
   * What `filter` returns is exactly the elements at the kept positions: the
   * non-hole elements the callback accepts, in their original order.
   */
  lemma {:induction false} KeptAtIndices<T>(s: seq<Option<T>>, keep: (T, nat) -> bool)
    ensures |Kept(s, keep)| == |KeptIndices(s, keep)|
    ensures forall k :: 0 <= k < |Kept(s, keep)| ==> Some(Kept(s, keep)[k]) == s[KeptIndices(s, keep)[k]]
  {
    if s != [] {
      var last := |s| - 1;
      var init := s[..last];
      KeptAtIndices(init, keep);
      var r, idx := Kept(s, keep), KeptIndices(s, keep);
      var r0, idx0 := Kept(init, keep), KeptIndices(init, keep);
      assert r[..|r0|] == r0 && idx[..|idx0|] == idx0;
      forall k | 0 <= k < |r|
        ensures Some(r[k]) == s[idx[k]]
      {
        if k < |r0| {
          assert r[k] == r0[k] && idx[k] == idx0[k];
          assert s[idx0[k]] == init[idx0[k]];
        }
      }
    }
  }
}
