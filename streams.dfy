/** The stream stages the queries are built from (filter, map, count, max,
    average), as functions over finite sequences, with the facts about them
    the queries rely on. */
module Streams {
  import opened Wrappers

  /** `Stream.filter(p)`: the elements satisfying `p`, in their order. */
  function Filter<T>(p: T -> bool, s: seq<T>): seq<T>
  {
    if s == [] then []
    else if p(s[0]) then [s[0]] + Filter(p, s[1..])
    else Filter(p, s[1..])
  }

  /** The elements a throwing predicate accepts without throwing. */
  function Kept<T, E>(p: T -> Result<bool, E>): T -> bool
  {
    x => p(x).Success? && p(x).value
  }

  /** `Stream.filter(p)` whose predicate may throw: the stream is consumed in
      order and the first exception ends it. */
  function TryFilter<T, E(==)>(p: T -> Result<bool, E>, s: seq<T>): (r: Result<seq<T>, E>)
    ensures r.Failure? <==> exists i :: 0 <= i < |s| && p(s[i]).Failure?
    ensures r.Failure? ==> exists i :: 0 <= i < |s| && p(s[i]) == Failure(r.error)
                                   && forall j :: 0 <= j < i ==> p(s[j]).Success?
    ensures r.Success? ==> r.value == Filter(Kept(p), s)
  {
    if s == [] then Success([])
    else match p(s[0])
      case Failure(e) => Failure(e)
      case Success(keep) =>
        match TryFilter(p, s[1..])
        case Failure(e) =>
          ghost var k :| 1 <= k < |s| && p(s[k]) == Failure(e) && forall j :: 1 <= j < k ==> p(s[j]).Success?;
          Failure(e)
        case Success(t) => Success(if keep then [s[0]] + t else t)
  }

  /** `Stream.map(f)` / `mapToInt(f)`. */
  function Map<T, U>(f: T -> U, s: seq<T>): (r: seq<U>)
    ensures |r| == |s|
    ensures forall i :: 0 <= i < |s| ==> r[i] == f(s[i])
  {
    if s == [] then [] else [f(s[0])] + Map(f, s[1..])
  }

  /** The positions of `s` whose element satisfies `p`: the reference
      definition of "the elements that pass a filter". */
  ghost function Positions<T>(p: T -> bool, s: seq<T>): set<int>
  {
    set i | 0 <= i < |s| && p(s[i])
  }

  /** The positions of `s` whose element maps to `y` under `f`. */
  ghost function Occurrences<T, U>(f: T -> U, s: seq<T>, y: U): set<int>
  {
    set i | 0 <= i < |s| && f(s[i]) == y
  }

  /** The positions of `s` whose element satisfies `p` and maps to `y`. */
  ghost function OccurrencesWhere<T, U>(f: T -> U, p: T -> bool, s: seq<T>, y: U): set<int>
  {
    set i | 0 <= i < |s| && p(s[i]) && f(s[i]) == y
  }

  lemma {:induction false} FilterConcat<T>(p: T -> bool, a: seq<T>, b: seq<T>)
    ensures Filter(p, a + b) == Filter(p, a) + Filter(p, b)
  {
    if a == [] {
      assert a + b == b;
    } else {
      assert (a + b)[0] == a[0];
      assert (a + b)[1..] == a[1..] + b;
      FilterConcat(p, a[1..], b);
    }
  }

  lemma {:induction false} MapConcat<T, U>(f: T -> U, a: seq<T>, b: seq<T>)
    ensures Map(f, a + b) == Map(f, a) + Map(f, b)
  {
  }

  /** A filter keeps exactly as many elements as there are positions
      satisfying its predicate. */
  lemma {:induction false} FilterSize<T>(p: T -> bool, s: seq<T>)
    ensures |Filter(p, s)| == |Positions(p, s)|
  {
    if s == [] {
      assert Positions(p, s) == {};
    } else {
      var t, x := s[..|s| - 1], s[|s| - 1];
      assert s == t + [x];
      FilterSize(p, t);
      FilterConcat(p, t, [x]);
      assert Filter(p, [x]) == if p(x) then [x] else [];
      var extra: set<int> := if p(x) then {|t|} else {};
      assert Positions(p, s) == Positions(p, t) + extra;
      assert |t| !in Positions(p, t);
    }
  }

  /** The number of times `y` occurs among the images of the kept elements is
      the number of positions whose element passes `p` and maps to `y`. */
  lemma {:induction false} MapFilterMultiplicity<T, U>(f: T -> U, p: T -> bool, s: seq<T>, y: U)
    ensures multiset(Map(f, Filter(p, s)))[y] == |OccurrencesWhere(f, p, s, y)|
  {
    if s != [] {
      var t, x := s[..|s| - 1], s[|s| - 1];
      assert s == t + [x];
      MapFilterMultiplicity(f, p, t, y);
      FilterConcat(p, t, [x]);
      var kept := if p(x) then [x] else [];
      assert Filter(p, [x]) == kept;
      MapConcat(f, Filter(p, t), kept);
      assert multiset(Map(f, Filter(p, s))) == multiset(Map(f, Filter(p, t))) + multiset(Map(f, kept));
      var extra: set<int> := if p(x) && f(x) == y then {|t|} else {};
      assert multiset(Map(f, kept))[y] == |extra|;
      SplitLast(f, p, s, y);
    }
  }

  lemma SplitLast<T, U>(f: T -> U, p: T -> bool, s: seq<T>, y: U)
    requires s != []
    ensures var t, x := s[..|s| - 1], s[|s| - 1];
      |OccurrencesWhere(f, p, s, y)| == |OccurrencesWhere(f, p, t, y)| + (if p(x) && f(x) == y then 1 else 0)
  {
    var t, x := s[..|s| - 1], s[|s| - 1];
    var small := OccurrencesWhere(f, p, t, y);
    var extra: set<int> := if p(x) && f(x) == y then {|t|} else {};
    forall i ensures i in OccurrencesWhere(f, p, s, y) <==> i in small + extra {
      if 0 <= i < |t| {
        assert s[i] == t[i];
      }
    }
    assert OccurrencesWhere(f, p, s, y) == small + extra;
    assert |t| !in small;
  }

  /** A filter keeps an element as often as it occurs if the element passes,
      and drops it otherwise. */
  lemma {:induction false} FilterMultiplicity<T>(p: T -> bool, s: seq<T>, y: T)
    ensures multiset(Filter(p, s))[y] == if p(y) then multiset(s)[y] else 0
  {
    if s != [] {
      FilterMultiplicity(p, s[1..], y);
      assert s == [s[0]] + s[1..];
    }
  }

  /** The number of times `y` occurs among the images is the number of
      positions whose element maps to `y`. */
  lemma {:induction false} MapMultiplicity<T, U>(f: T -> U, s: seq<T>, y: U)
    ensures multiset(Map(f, s))[y] == |Occurrences(f, s, y)|
  {
    if s != [] {
      var t, x := s[..|s| - 1], s[|s| - 1];
      assert s == t + [x];
      MapMultiplicity(f, t, y);
      MapConcat(f, t, [x]);
      assert multiset(Map(f, s)) == multiset(Map(f, t)) + multiset{f(x)};
      MapSplitLast(f, s, y);
    }
  }

  lemma MapSplitLast<T, U>(f: T -> U, s: seq<T>, y: U)
    requires s != []
    ensures var t, x := s[..|s| - 1], s[|s| - 1];
      |Occurrences(f, s, y)| == |Occurrences(f, t, y)| + (if f(x) == y then 1 else 0)
  {
    var t, x := s[..|s| - 1], s[|s| - 1];
    var small := Occurrences(f, t, y);
    var extra: set<int> := if f(x) == y then {|t|} else {};
    assert Occurrences(f, s, y) == small + extra;
    assert |t| !in small;
  }

  /** On a sequence where `q` is the negation of `p`, filtering by `p` and by
      `q` splits it. */
  lemma {:induction false} FilterPartition<T>(p: T -> bool, q: T -> bool, s: seq<T>)
    requires forall i :: 0 <= i < |s| ==> q(s[i]) == !p(s[i])
    ensures |Filter(p, s)| + |Filter(q, s)| == |s|
  {
    if s != [] {
      FilterPartition(p, q, s[1..]);
    }
  }

  /** Every kept element comes from a position of the input whose element
      passes the filter. */
  lemma {:induction false} FilterOrigin<T>(p: T -> bool, s: seq<T>, k: int) returns (i: int)
    requires 0 <= k < |Filter(p, s)|
    ensures 0 <= i < |s| && s[i] == Filter(p, s)[k] && p(s[i])
  {
    if p(s[0]) && k == 0 {
      i := 0;
    } else {
      var j := FilterOrigin(p, s[1..], if p(s[0]) then k - 1 else k);
      i := j + 1;
    }
  }

  lemma {:induction false} FilterShorter<T>(p: T -> bool, s: seq<T>)
    ensures |Filter(p, s)| <= |s|
  {
    if s != [] {
      FilterShorter(p, s[1..]);
    }
  }

  /** `IntStream.max()`: empty for an empty stream, otherwise an element that
      no element exceeds. */
  function Max(s: seq<int>): (m: Option<int>)
    ensures m.None? <==> s == []
    ensures m.Some? ==> m.value in s && forall i :: 0 <= i < |s| ==> s[i] <= m.value
  {
    if s == [] then None
    else match Max(s[1..])
      case None => Some(s[0])
      case Some(v) => Some(if s[0] < v then v else s[0])
  }

  /** `IntStream.sum()`, on unbounded integers. */
  function Sum(s: seq<int>): int
  {
    if s == [] then 0 else s[0] + Sum(s[1..])
  }

  /** `IntStream.average()`: empty for an empty stream, otherwise the exact
      mean, which lies between the least and the greatest element. */
  function Average(s: seq<int>): (r: Option<real>)
    ensures r.None? <==> s == []
    ensures r.Some? ==> exists i :: 0 <= i < |s| && s[i] as real <= r.value
    ensures r.Some? ==> exists j :: 0 <= j < |s| && r.value <= s[j] as real
  {
    if s == [] then None
    else
      MeanBetweenElements(s);
      Some((Sum(s) as real) / (|s| as real))
  }

  /** Bounds on every element bound the sum. */
  lemma {:induction false} SumBounds(s: seq<int>, lo: int, hi: int)
    requires forall i :: 0 <= i < |s| ==> lo <= s[i] <= hi
    ensures |s| * lo <= Sum(s) <= |s| * hi
  {
    if s != [] {
      SumBounds(s[1..], lo, hi);
      assert |s| * lo == lo + (|s| - 1) * lo;
      assert |s| * hi == hi + (|s| - 1) * hi;
    }
  }

  /** The mean lies between the least and the greatest element, both of
      which occur in the sequence. */
  lemma MeanBetweenElements(s: seq<int>)
    requires s != []
    ensures exists i :: 0 <= i < |s| && s[i] as real <= (Sum(s) as real) / (|s| as real)
    ensures exists j :: 0 <= j < |s| && (Sum(s) as real) / (|s| as real) <= s[j] as real
  {
    var hi := Max(s).value;
    var lo := Max(Map(x => -x, s)).value;
    assert forall i :: 0 <= i < |s| ==> -s[i] <= lo;
    var j :| 0 <= j < |s| && s[j] == hi;
    var k :| 0 <= k < |s| && Map(x => -x, s)[k] == lo;
    assert s[k] == -lo;
    MeanWithin(s, -lo, hi);
    assert s[k] as real <= (Sum(s) as real) / (|s| as real);
    assert (Sum(s) as real) / (|s| as real) <= s[j] as real;
  }

  /** Bounds on every element bound the quotient of the sum by the length. */
  lemma MeanWithin(s: seq<int>, lo: int, hi: int)
    requires s != []
    requires forall i :: 0 <= i < |s| ==> lo <= s[i] <= hi
    ensures lo as real <= (Sum(s) as real) / (|s| as real) <= hi as real
  {
    SumBounds(s, lo, hi);
    QuotientBounds(Sum(s) as real, |s| as real, lo as real, hi as real);
  }

  /** Bounds on every element bound the mean. */
  lemma AverageWithin(s: seq<int>, lo: int, hi: int)
    requires s != []
    requires forall i :: 0 <= i < |s| ==> lo <= s[i] <= hi
    ensures lo as real <= Average(s).value <= hi as real
  {
    MeanWithin(s, lo, hi);
  }

  lemma QuotientBounds(total: real, n: real, lo: real, hi: real)
    requires n > 0.0 && n * lo <= total <= n * hi
    ensures lo <= total / n <= hi
  {
    assert total / n - lo == (total - n * lo) / n;
    assert hi - total / n == (n * hi - total) / n;
  }
}
