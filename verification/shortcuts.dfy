/** Small shortcuts: the first element passing a test, integer parsing
    with a fallback, and the overlap of two intervals. */
module Shortcuts {
  import opened Wrappers

  /** The test `first` applies: the given predicate, or Python truthiness
      when the predicate is None. */
  datatype Test<!T> = Predicate(p: T -> bool) | Truthiness

  function Passes<T>(test: Test<T>, truthy: T -> bool, x: T): bool {
    match test
    case Predicate(p) => p(x)
    case Truthiness => truthy(x)
  }

  /** `first(predicate_or_None, xs, default)`: the first element that
      passes, or `default` when none does. */
  function First<T>(test: Test<T>, truthy: T -> bool, xs: seq<T>, default: T): (r: T)
    ensures (exists i :: 0 <= i < |xs| && Passes(test, truthy, xs[i])) ==>
              exists i :: 0 <= i < |xs| && r == xs[i] && Passes(test, truthy, xs[i])
                && forall j :: 0 <= j < i ==> !Passes(test, truthy, xs[j])
    ensures (forall i :: 0 <= i < |xs| ==> !Passes(test, truthy, xs[i])) ==> r == default
    decreases |xs|
  {
    if |xs| == 0 then default
    else if Passes(test, truthy, xs[0]) then xs[0]
    else
      var r := First(test, truthy, xs[1..], default);
      assert forall j :: 1 <= j < |xs| ==> xs[j] == xs[1..][j - 1];
      r
  }

  /** What `int(value)` does: returns a number, raises ValueError or
      TypeError (both caught), or raises anything else (not caught). */
  datatype IntParse = Parsed(n: int) | ValueOrTypeError | OtherError(name: string)

  /** `int_or_0(value)`, given the outcome of `int(value)`. */
  function IntOr0(parse: IntParse): (r: Result<int, string>)
    ensures parse.Parsed? ==> r == Success(parse.n)
    ensures parse.ValueOrTypeError? ==> r == Success(0)
    ensures parse.OtherError? ==> r == Failure(parse.name)
  {
    match parse
    case Parsed(n) => Success(n)
    case ValueOrTypeError => Success(0)
    case OtherError(e) => Failure(e)
  }

  /** `int_or_None(value)`, given the outcome of `int(value)`. */
  function IntOrNone(parse: IntParse): (r: Result<Option<int>, string>)
    ensures parse.Parsed? ==> r == Success(Some(parse.n))
    ensures parse.ValueOrTypeError? ==> r == Success(None)
    ensures parse.OtherError? ==> r == Failure(parse.name)
  {
    match parse
    case Parsed(n) => Success(Some(n))
    case ValueOrTypeError => Success(None)
    case OtherError(e) => Failure(e)
  }

  /** The two parsers agree whenever one returns a number, and otherwise
      differ only in the fallback: 0 against None. */
  lemma IntFallbacksAgree(parse: IntParse)
    ensures IntOr0(parse).Success? <==> IntOrNone(parse).Success?
    ensures IntOr0(parse).Success? ==> IntOr0(parse).value == IntOrNone(parse).value.GetOr(0)
    ensures IntOrNone(parse) == Success(None) ==> IntOr0(parse) == Success(0)
  {
  }

  /** An interval `[start, end]` as a pair. */
  datatype Interval = Interval(start: int, end: int)

  function Min(a: int, b: int): int {
    if a <= b then a else b
  }

  function Max(a: int, b: int): int {
    if a >= b then a else b
  }

  /** `get_intervals_overlap(a, b)`: the length shared by the two
      intervals, negative (minus the gap) when they are apart. */
  function Overlap(a: Interval, b: Interval): (r: int)
    ensures r <= a.end - a.start && r <= b.end - b.start
  {
    Min(a.end, b.end) - Max(a.start, b.start)
  }

  /** The overlap does not depend on the order of the intervals. */
  lemma OverlapSymmetric(a: Interval, b: Interval)
    ensures Overlap(a, b) == Overlap(b, a)
  {
  }

  /** The integers `lo <= x < hi`. */
  function Range(lo: int, hi: int): (r: set<int>)
    ensures forall x :: x in r <==> lo <= x < hi
    decreases hi - lo
  {
    if hi <= lo then {} else Range(lo, hi - 1) + {hi - 1}
  }

  /** The unit cells `[x, x + 1)` two intervals have in common. */
  function CommonCells(a: Interval, b: Interval): set<int> {
    Range(Max(a.start, b.start), Min(a.end, b.end))
  }

  lemma {:induction false} RangeCard(lo: int, hi: int)
    requires lo <= hi
    ensures |Range(lo, hi)| == hi - lo
    decreases hi - lo
  {
    if lo < hi {
      RangeCard(lo, hi - 1);
      assert hi - 1 !in Range(lo, hi - 1);
    }
  }

  /** For integer intervals, a non-negative overlap counts the unit cells
      both intervals cover, and a negative one means they share none. */
  lemma OverlapCountsCommonCells(a: Interval, b: Interval)
    ensures Overlap(a, b) >= 0 ==> |CommonCells(a, b)| == Overlap(a, b)
    ensures Overlap(a, b) <= 0 ==> CommonCells(a, b) == {}
  {
    var lo := Max(a.start, b.start);
    var hi := Min(a.end, b.end);
    if lo <= hi {
      RangeCard(lo, hi);
    }
  }

  /** The docstring's examples. */
  lemma OverlapExamples()
    ensures Overlap(Interval(0, 5), Interval(10, 20)) == -5
    ensures Overlap(Interval(0, 9), Interval(10, 20)) == -1
    ensures Overlap(Interval(0, 10), Interval(10, 20)) == 0
    ensures Overlap(Interval(0, 15), Interval(10, 20)) == 5
    ensures Overlap(Interval(10, 15), Interval(10, 20)) == 5
    ensures Overlap(Interval(10, 20), Interval(10, 20)) == 10
    ensures Overlap(Interval(15, 20), Interval(10, 20)) == 5
    ensures Overlap(Interval(15, 15), Interval(10, 20)) == 0
    ensures Overlap(Interval(20, 20), Interval(10, 20)) == 0
    ensures Overlap(Interval(30, 40), Interval(10, 20)) == -10
  {
  }

  /** A nested interval overlaps by its own length. */
  lemma OverlapNested(a: Interval, b: Interval)
    requires b.start <= a.start <= a.end <= b.end
    ensures Overlap(a, b) == a.end - a.start
  {
  }
}
