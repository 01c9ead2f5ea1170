/** Java's natural order on strings (`String.compareTo`), the comparators
    `Comparator.naturalOrder()` and `Comparator.reverseOrder()`, and
    `Stream.sorted(comparator)` on sequences of strings. */
module StringOrder {

  /** `a.compareTo(b)`: at the first position where the strings differ, the
      difference of the two characters; when one string is a prefix of the
      other, the difference of the lengths. */
  function CompareTo(a: string, b: string): int
    decreases |a|
  {
    if a == [] || b == [] then |a| - |b|
    else if a[0] != b[0] then a[0] as int - b[0] as int
    else CompareTo(a[1..], b[1..])
  }

  lemma {:induction false} CompareToZero(a: string, b: string)
    ensures CompareTo(a, b) == 0 <==> a == b
    decreases |a|
  {
    if a != [] && b != [] && a[0] == b[0] {
      CompareToZero(a[1..], b[1..]);
      assert a == [a[0]] + a[1..] && b == [b[0]] + b[1..];
    }
  }

  lemma {:induction false} CompareToAntisymmetric(a: string, b: string)
    ensures CompareTo(b, a) == -CompareTo(a, b)
    decreases |a|
  {
    if a != [] && b != [] && a[0] == b[0] {
      CompareToAntisymmetric(a[1..], b[1..]);
    }
  }

  lemma {:induction false} CompareToTransitive(a: string, b: string, c: string)
    requires CompareTo(a, b) <= 0 && CompareTo(b, c) <= 0
    ensures CompareTo(a, c) <= 0
    decreases |a|
  {
    if a != [] && b != [] && c != [] && a[0] == b[0] && b[0] == c[0] {
      CompareToTransitive(a[1..], b[1..], c[1..]);
    }
  }

  /** The two comparators the queries sort with. */
  datatype Direction = NaturalOrder | ReverseOrder

  /** `comparator.compare(a, b)`; `reverseOrder()` compares `b` with `a`. */
  function Compare(d: Direction, a: string, b: string): int
  {
    match d
    case NaturalOrder => CompareTo(a, b)
    case ReverseOrder => CompareTo(b, a)
  }

  /** `a` may come before `b` in a sequence sorted by `d`. */
  predicate InOrder(d: Direction, a: string, b: string)
  {
    Compare(d, a, b) <= 0
  }

  lemma InOrderTotal(d: Direction, a: string, b: string)
    ensures InOrder(d, a, b) || InOrder(d, b, a)
  {
    CompareToAntisymmetric(a, b);
  }

  lemma InOrderAntisymmetric(d: Direction, a: string, b: string)
    requires InOrder(d, a, b) && InOrder(d, b, a)
    ensures a == b
  {
    CompareToAntisymmetric(a, b);
    CompareToZero(a, b);
  }

  lemma InOrderTransitive(d: Direction, a: string, b: string, c: string)
    requires InOrder(d, a, b) && InOrder(d, b, c)
    ensures InOrder(d, a, c)
  {
    match d
    case NaturalOrder => CompareToTransitive(a, b, c);
    case ReverseOrder => CompareToTransitive(c, b, a);
  }

  /** Every earlier element may come before every later one. */
  predicate Sorted(d: Direction, s: seq<string>)
  {
    forall i, j :: 0 <= i < j < |s| ==> InOrder(d, s[i], s[j])
  }

  /** Inserts `x` after the elements that may come before it. */
  function Insert(d: Direction, x: string, s: seq<string>): seq<string>
  {
    if s == [] then [x]
    else if InOrder(d, s[0], x) then [s[0]] + Insert(d, x, s[1..])
    else [x] + s
  }

  /** `Stream.sorted(comparator)`, as an insertion sort. */
  function Sort(d: Direction, s: seq<string>): seq<string>
  {
    if s == [] then [] else Insert(d, s[0], Sort(d, s[1..]))
  }

  lemma {:induction false} InsertSorted(d: Direction, x: string, s: seq<string>)
    requires Sorted(d, s)
    ensures multiset(Insert(d, x, s)) == multiset(s) + multiset{x}
    ensures Sorted(d, Insert(d, x, s))
  {
    if s == [] {
    } else if InOrder(d, s[0], x) {
      var rest := s[1..];
      var t := Insert(d, x, rest);
      assert s == [s[0]] + rest;
      InsertSorted(d, x, rest);
      forall j | 0 <= j < |t| ensures InOrder(d, s[0], t[j]) {
        assert t[j] in multiset(rest) + multiset{x};
        if t[j] != x {
          assert t[j] in rest;
          var k :| 0 <= k < |rest| && rest[k] == t[j];
          assert s[k + 1] == t[j];
        }
      }
      ConsSorted(d, s[0], t);
    } else {
      InOrderTotal(d, s[0], x);
      forall j | 0 <= j < |s| ensures InOrder(d, x, s[j]) {
        if j > 0 {
          InOrderTransitive(d, x, s[0], s[j]);
        }
      }
      ConsSorted(d, x, s);
    }
  }

  lemma ConsSorted(d: Direction, h: string, t: seq<string>)
    requires Sorted(d, t)
    requires forall j :: 0 <= j < |t| ==> InOrder(d, h, t[j])
    ensures Sorted(d, [h] + t)
  {
    var r := [h] + t;
    forall i, j | 0 <= i < j < |r| ensures InOrder(d, r[i], r[j]) {
      assert r[j] == t[j - 1];
      if i > 0 {
        assert r[i] == t[i - 1];
      }
    }
  }

  /** Sorting yields an ordered permutation of its input. */
  lemma {:induction false} SortSorted(d: Direction, s: seq<string>)
    ensures multiset(Sort(d, s)) == multiset(s)
    ensures Sorted(d, Sort(d, s))
  {
    if s != [] {
      SortSorted(d, s[1..]);
      InsertSorted(d, s[0], Sort(d, s[1..]));
      assert s == [s[0]] + s[1..];
    }
  }

  /** Two ordered permutations of the same elements are equal, so the result
      of sorting does not depend on the sorting algorithm. */
  lemma {:induction false} SortedUnique(d: Direction, r1: seq<string>, r2: seq<string>)
    requires Sorted(d, r1) && Sorted(d, r2)
    requires multiset(r1) == multiset(r2)
    ensures r1 == r2
  {
    if r1 == [] {
      assert |r2| == |multiset(r2)| == 0;
    } else {
      SortedHeads(d, r1, r2);
      DropHead(r1);
      DropHead(r2);
      SortedUnique(d, r1[1..], r2[1..]);
      assert r1 == [r1[0]] + r1[1..] && r2 == [r2[0]] + r2[1..];
    }
  }

  lemma SortedHeads(d: Direction, r1: seq<string>, r2: seq<string>)
    requires Sorted(d, r1) && Sorted(d, r2)
    requires multiset(r1) == multiset(r2) && r1 != []
    ensures r2 != [] && r1[0] == r2[0]
  {
    assert r1[0] in multiset(r2);
    assert r2[0] in multiset(r1);
    var i :| 0 <= i < |r1| && r1[i] == r2[0];
    var j :| 0 <= j < |r2| && r2[j] == r1[0];
    if i > 0 && j > 0 {
      assert InOrder(d, r1[0], r1[i]) && InOrder(d, r2[0], r2[j]);
      InOrderAntisymmetric(d, r1[0], r2[0]);
    }
  }

  lemma DropHead(r: seq<string>)
    requires r != []
    ensures multiset(r[1..]) == multiset(r) - multiset{r[0]}
  {
    assert r == [r[0]] + r[1..];
  }
}
