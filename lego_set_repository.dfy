/** The read-only queries of the LEGO set repository, each a function of the
    loaded list of sets. A query that prints returns the lines it prints; a
    query that throws returns `Failure` with the exception. */
module LegoSetRepository {
  import opened Wrappers
  import opened Streams
  import opened StringOrder

  /** Java `int`. */
  type Int32 = x: int | -0x8000_0000 <= x < 0x8000_0000

  /** How a set is packaged; `NotSpecified` is the sentinel the queries
      test for. */
  datatype PackagingType =
    | Box | BoxWithBackingCard | BlisterPack | Bucket | FoilPack
    | PlasticBox | Polybag | Tub | Other | NotSpecified

  /** The enum constant's name, which is what `toString()` returns when the
      enum does not override it. */
  function PackagingTypeName(p: PackagingType): string
  {
    match p
    case Box => "BOX"
    case BoxWithBackingCard => "BOX_WITH_BACKING_CARD"
    case BlisterPack => "BLISTER_PACK"
    case Bucket => "BUCKET"
    case FoilPack => "FOIL_PACK"
    case PlasticBox => "PLASTIC_BOX"
    case Polybag => "POLYBAG"
    case Tub => "TUB"
    case Other => "OTHER"
    case NotSpecified => "NOT_SPECIFIED"
  }

  /** One LEGO set record; `None` stands for a null field. */
  datatype LegoSet = LegoSet(
    name: string,
    theme: Option<string>,
    pieces: Int32,
    packagingType: Option<PackagingType>,
    tags: Option<set<string>>)

  /** The exceptions the queries can throw. */
  datatype Exception =
    | IllegalStateException
    | NullPointerException
    | StringIndexOutOfBoundsException

  /** `LegoSet::getName`. */
  function NameOf(s: LegoSet): string
  {
    s.name
  }

  /** `LegoSet::getPieces`. */
  function PiecesOf(s: LegoSet): int
  {
    s.pieces as int
  }

  function Names(sets: seq<LegoSet>): seq<string>
  {
    Map(NameOf, sets)
  }

  function Pieces(sets: seq<LegoSet>): seq<int>
  {
    Map(PiecesOf, sets)
  }

  // ---------------------------------------------------------------------
  // countLegoSetsWithTag

  /** `legoSet -> legoSet.getTags() != null && legoSet.getTags().contains(tag)`. */
  function HasTag(tag: string): LegoSet -> bool
  {
    (s: LegoSet) => s.tags.Some? && tag in s.tags.value
  }

  /** The number of sets whose tags are present and contain `tag`. */
  function CountLegoSetsWithTag(sets: seq<LegoSet>, tag: string): (n: nat)
    ensures n == |set i | 0 <= i < |sets| && sets[i].tags.Some? && tag in sets[i].tags.value|
    ensures n <= |sets|
  {
    var p := HasTag(tag);
    FilterSize(p, sets);
    FilterShorter(p, sets);
    assert Positions(p, sets) == set i | 0 <= i < |sets| && sets[i].tags.Some? && tag in sets[i].tags.value;
    |Filter(p, sets)|
  }

  /** No set carries the tag: the count is zero. */
  lemma AbsentTagCountsZero(sets: seq<LegoSet>, tag: string)
    requires forall i :: 0 <= i < |sets| && sets[i].tags.Some? ==> tag !in sets[i].tags.value
    ensures CountLegoSetsWithTag(sets, tag) == 0
  {
    assert (set i | 0 <= i < |sets| && sets[i].tags.Some? && tag in sets[i].tags.value) == {};
  }

  // ---------------------------------------------------------------------
  // countLegoSetsLargestPiece

  /** The largest piece count, or 0 when there are no sets. */
  function CountLegoSetsLargestPiece(sets: seq<LegoSet>): (m: Int32)
    ensures sets == [] ==> m == 0
    ensures sets != [] ==> exists i :: 0 <= i < |sets| && sets[i].pieces == m
    ensures forall i :: 0 <= i < |sets| ==> sets[i].pieces <= m
  {
    var largest := Max(Pieces(sets));
    assert largest.Some? ==> exists i :: 0 <= i < |sets| && sets[i].pieces == largest.value;
    largest.GetOr(0)
  }

  // ---------------------------------------------------------------------
  // printLegoSetsInAlphabeticalOrder

  /** Every name, once per set, in natural string order. */
  function PrintLegoSetsInAlphabeticalOrder(sets: seq<LegoSet>): (lines: seq<string>)
    ensures |lines| == |sets|
    ensures forall n :: multiset(lines)[n] == |set i | 0 <= i < |sets| && sets[i].name == n|
    ensures Sorted(NaturalOrder, lines)
  {
    var names := Names(sets);
    SortSorted(NaturalOrder, names);
    assert |Sort(NaturalOrder, names)| == |multiset(names)|;
    NamesMultiplicity(sets);
    Sort(NaturalOrder, names)
  }

  lemma NamesMultiplicity(sets: seq<LegoSet>)
    ensures forall n :: multiset(Names(sets))[n] == |set i | 0 <= i < |sets| && sets[i].name == n|
  {
    forall n ensures multiset(Names(sets))[n] == |set i | 0 <= i < |sets| && sets[i].name == n| {
      MapMultiplicity(NameOf, sets, n);
      assert Occurrences(NameOf, sets, n) == set i | 0 <= i < |sets| && sets[i].name == n;
    }
  }

  /** The lines are the only ordered arrangement of the names, whatever
      sorting algorithm produced them. */
  lemma AlphabeticalOrderIsUnique(sets: seq<LegoSet>, lines: seq<string>)
    requires Sorted(NaturalOrder, lines)
    requires multiset(lines) == multiset(Names(sets))
    ensures lines == PrintLegoSetsInAlphabeticalOrder(sets)
  {
    var names := Names(sets);
    SortSorted(NaturalOrder, names);
    SortedUnique(NaturalOrder, lines, Sort(NaturalOrder, names));
  }

  // ---------------------------------------------------------------------
  // printNamesWithPiecesBetween100and500

  /** `legoSet -> legoSet.getPieces() >= lo && legoSet.getPieces() <= hi`. */
  function PiecesBetween(lo: int, hi: int): LegoSet -> bool
  {
    (s: LegoSet) => s.pieces >= lo && s.pieces <= hi
  }

  /** The names of the sets whose piece count lies in `[lo, hi]`. */
  function NamesWithPiecesBetween(sets: seq<LegoSet>, lo: int, hi: int): (names: seq<string>)
    ensures forall n ::
              multiset(names)[n] == |set i | 0 <= i < |sets| && lo <= sets[i].pieces <= hi && sets[i].name == n|
  {
    var p := PiecesBetween(lo, hi);
    forall n ensures multiset(Names(Filter(p, sets)))[n]
      == |set i | 0 <= i < |sets| && lo <= sets[i].pieces <= hi && sets[i].name == n| {
      MapFilterMultiplicity(NameOf, p, sets, n);
      assert OccurrencesWhere(NameOf, p, sets, n)
          == set i | 0 <= i < |sets| && lo <= sets[i].pieces <= hi && sets[i].name == n;
    }
    Names(Filter(p, sets))
  }

  /** Widening the bounds keeps every name that was selected. */
  lemma NamesWithPiecesBetweenMonotone(sets: seq<LegoSet>, lo: int, hi: int, lo': int, hi': int)
    requires lo' <= lo && hi <= hi'
    ensures multiset(NamesWithPiecesBetween(sets, lo, hi)) <= multiset(NamesWithPiecesBetween(sets, lo', hi'))
  {
    forall n ensures multiset(NamesWithPiecesBetween(sets, lo, hi))[n]
      <= multiset(NamesWithPiecesBetween(sets, lo', hi'))[n] {
      var narrow := set i | 0 <= i < |sets| && lo <= sets[i].pieces <= hi && sets[i].name == n;
      var wide := set i | 0 <= i < |sets| && lo' <= sets[i].pieces <= hi' && sets[i].name == n;
      assert narrow <= wide;
      SubsetCardinality(narrow, wide);
    }
  }

  lemma SubsetCardinality(a: set<int>, b: set<int>)
    requires a <= b
    ensures |a| <= |b|
  {
    assert b == a + (b - a);
  }

  /** The names of the sets with 100 to 500 pieces, both bounds included,
      in reverse natural order. */
  function PrintNamesWithPiecesBetween100and500(sets: seq<LegoSet>): (lines: seq<string>)
    ensures forall n ::
              multiset(lines)[n] == |set i | 0 <= i < |sets| && 100 <= sets[i].pieces <= 500 && sets[i].name == n|
    ensures Sorted(ReverseOrder, lines)
  {
    var names := NamesWithPiecesBetween(sets, 100, 500);
    SortSorted(ReverseOrder, names);
    Sort(ReverseOrder, names)
  }

  /** Any reverse-ordered arrangement of the names with 100 to 500 pieces
      is the printed listing, whatever sorting algorithm produced it. */
  lemma ReverseOrderIsUnique(sets: seq<LegoSet>, lines: seq<string>)
    requires Sorted(ReverseOrder, lines)
    requires forall n ::
               multiset(lines)[n] == |set i | 0 <= i < |sets| && 100 <= sets[i].pieces <= 500 && sets[i].name == n|
    ensures lines == PrintNamesWithPiecesBetween100and500(sets)
  {
    var printed := PrintNamesWithPiecesBetween100and500(sets);
    assert multiset(lines) == multiset(printed);
    SortedUnique(ReverseOrder, lines, printed);
  }

  // ---------------------------------------------------------------------
  // printNamesStartWithLetterB

  /** `s.charAt(i)`. */
  function CharAt(s: string, i: int): Result<char, Exception>
  {
    if 0 <= i < |s| then Success(s[i]) else Failure(StringIndexOutOfBoundsException)
  }

  /** `name.charAt(0) == 'B'`. */
  function FirstLetterIsB(name: string): Result<bool, Exception>
  {
    match CharAt(name, 0)
    case Failure(e) => Failure(e)
    case Success(c) => Success(c == 'B')
  }

  /** The names starting with 'B', in natural order; an empty name makes
      `charAt(0)` throw before anything is printed. */
  function PrintNamesStartWithLetterB(sets: seq<LegoSet>): (r: Result<seq<string>, Exception>)
    ensures r.Failure? <==> exists i :: 0 <= i < |sets| && sets[i].name == ""
    ensures r.Failure? ==> r.error == StringIndexOutOfBoundsException
    ensures r.Success? ==> forall n ::
              multiset(r.value)[n] == |set i | 0 <= i < |sets| && "B" <= sets[i].name && sets[i].name == n|
    ensures r.Success? ==> Sorted(NaturalOrder, r.value)
  {
    var names := Names(sets);
    match TryFilter(FirstLetterIsB, names)
    case Failure(e) =>
      ghost var i :| 0 <= i < |names| && FirstLetterIsB(names[i]) == Failure(e);
      Failure(e)
    case Success(bs) =>
      BNamesMultiplicity(sets, bs);
      SortSorted(NaturalOrder, bs);
      Success(Sort(NaturalOrder, bs))
  }

  /** When no name is empty, any ordered arrangement of the names starting
      with 'B' is the printed listing, whatever sorting algorithm produced it. */
  lemma BOrderIsUnique(sets: seq<LegoSet>, lines: seq<string>)
    requires forall i :: 0 <= i < |sets| ==> sets[i].name != ""
    requires Sorted(NaturalOrder, lines)
    requires forall n ::
               multiset(lines)[n] == |set i | 0 <= i < |sets| && "B" <= sets[i].name && sets[i].name == n|
    ensures PrintNamesStartWithLetterB(sets) == Success(lines)
  {
    var printed := PrintNamesStartWithLetterB(sets).value;
    assert multiset(lines) == multiset(printed);
    SortedUnique(NaturalOrder, lines, printed);
  }

  lemma BNamesMultiplicity(sets: seq<LegoSet>, bs: seq<string>)
    requires bs == Filter(Kept(FirstLetterIsB), Names(sets))
    ensures forall n :: multiset(bs)[n] == |set i | 0 <= i < |sets| && "B" <= sets[i].name && sets[i].name == n|
  {
    var keep := Kept(FirstLetterIsB);
    forall n ensures multiset(bs)[n] == |set i | 0 <= i < |sets| && "B" <= sets[i].name && sets[i].name == n| {
      FilterMultiplicity(keep, Names(sets), n);
      MapMultiplicity(NameOf, sets, n);
      assert keep(n) == (FirstLetterIsB(n).Success? && FirstLetterIsB(n).value);
      assert n != [] ==> ("B" <= n <==> n[0] == 'B');
      if !("B" <= n) {
        assert (set i | 0 <= i < |sets| && "B" <= sets[i].name && sets[i].name == n) == {};
      } else {
        assert (set i | 0 <= i < |sets| && "B" <= sets[i].name && sets[i].name == n)
            == Occurrences(NameOf, sets, n);
      }
    }
  }

  // ---------------------------------------------------------------------
  // packagingTypeSpecified

  /** `!getPackagingType().toString().equals("NOT_SPECIFIED")`; a null
      packaging type throws. */
  function IsPackagingSpecified(s: LegoSet): Result<bool, Exception>
  {
    match s.packagingType
    case None => Failure(NullPointerException)
    case Some(p) => Success(PackagingTypeName(p) != "NOT_SPECIFIED")
  }

  /** Comparing the constant's name with "NOT_SPECIFIED" is the same as
      comparing the constant with the sentinel. */
  lemma PackagingTypeNameIsSentinel(p: PackagingType)
    ensures PackagingTypeName(p) == "NOT_SPECIFIED" <==> p == NotSpecified
  {
  }

  /** The number of sets whose packaging type is not the sentinel; a null
      packaging type throws. */
  function PackagingTypeSpecified(sets: seq<LegoSet>): (r: Result<nat, Exception>)
    ensures r.Failure? <==> exists i :: 0 <= i < |sets| && sets[i].packagingType.None?
    ensures r.Failure? ==> r.error == NullPointerException
    ensures r.Success? ==>
              r.value == |sets| - |set i | 0 <= i < |sets| && sets[i].packagingType == Some(NotSpecified)|
  {
    match TryFilter(IsPackagingSpecified, sets)
    case Failure(e) =>
      ghost var i :| 0 <= i < |sets| && IsPackagingSpecified(sets[i]) == Failure(e);
      Failure(e)
    case Success(specified) =>
      SpecifiedCount(sets, specified);
      Success(|Pieces(specified)|)
  }

  lemma SpecifiedCount(sets: seq<LegoSet>, specified: seq<LegoSet>)
    requires forall i :: 0 <= i < |sets| ==> sets[i].packagingType.Some?
    requires specified == Filter(Kept(IsPackagingSpecified), sets)
    ensures |specified| == |sets| - |set i | 0 <= i < |sets| && sets[i].packagingType == Some(NotSpecified)|
  {
    var keep := Kept(IsPackagingSpecified);
    forall i | 0 <= i < |sets| ensures HasSentinelPackaging(sets[i]) == !keep(sets[i]) {
      assert keep(sets[i]) == (IsPackagingSpecified(sets[i]).Success? && IsPackagingSpecified(sets[i]).value);
      PackagingTypeNameIsSentinel(sets[i].packagingType.value);
    }
    FilterPartition(keep, HasSentinelPackaging, sets);
    FilterSize(HasSentinelPackaging, sets);
    assert Positions(HasSentinelPackaging, sets) == set i | 0 <= i < |sets| && sets[i].packagingType == Some(NotSpecified);
  }

  predicate HasSentinelPackaging(s: LegoSet)
  {
    s.packagingType == Some(NotSpecified)
  }

  // ---------------------------------------------------------------------
  // averagePieces

  /** The number of sets whose theme is `theme`. */
  ghost function ThemeCount(sets: seq<LegoSet>, theme: Option<string>): nat
  {
    |set i | 0 <= i < |sets| && sets[i].theme == theme|
  }

  /** The sum of the piece counts of the sets whose theme is `theme`. */
  ghost function ThemePieceTotal(sets: seq<LegoSet>, theme: Option<string>): int
  {
    if sets == [] then 0
    else (if sets[0].theme == theme then sets[0].pieces as int else 0) + ThemePieceTotal(sets[1..], theme)
  }

  /** `legoSet -> Objects.equals(legoSet.getTheme(), theme)`. */
  function HasTheme(theme: Option<string>): LegoSet -> bool
  {
    (s: LegoSet) => s.theme == theme
  }

  /** The piece counts of the sets whose theme is `Objects.equals` to
      `theme`: a null theme matches the sets without one. */
  function ThemePieces(sets: seq<LegoSet>, theme: Option<string>): seq<int>
  {
    Pieces(Filter(HasTheme(theme), sets))
  }

  /** The mean piece count over the sets of `theme`; no such set throws. */
  function AveragePieces(sets: seq<LegoSet>, theme: Option<string>): (r: Result<real, Exception>)
    ensures r.Failure? <==> forall i :: 0 <= i < |sets| ==> sets[i].theme != theme
    ensures r.Failure? ==> r.error == IllegalStateException
    ensures r.Success? ==>
              ThemeCount(sets, theme) > 0
              && r.value == (ThemePieceTotal(sets, theme) as real) / (ThemeCount(sets, theme) as real)
    ensures r.Success? ==> exists i :: 0 <= i < |sets| && sets[i].theme == theme && sets[i].pieces as real <= r.value
    ensures r.Success? ==> exists i :: 0 <= i < |sets| && sets[i].theme == theme && r.value <= sets[i].pieces as real
  {
    var mean := Average(ThemePieces(sets, theme));
    MeanFacts(sets, theme);
    if mean.None? then Failure(IllegalStateException) else Success(mean.value)
  }

  lemma MeanFacts(sets: seq<LegoSet>, theme: Option<string>)
    ensures Average(ThemePieces(sets, theme)).None? <==> forall i :: 0 <= i < |sets| ==> sets[i].theme != theme
    ensures Average(ThemePieces(sets, theme)).Some? ==>
              ThemeCount(sets, theme) > 0
              && Average(ThemePieces(sets, theme)).value == (ThemePieceTotal(sets, theme) as real) / (ThemeCount(sets, theme) as real)
    ensures Average(ThemePieces(sets, theme)).Some? ==>
              exists i :: 0 <= i < |sets| && sets[i].theme == theme
                          && sets[i].pieces as real <= Average(ThemePieces(sets, theme)).value
    ensures Average(ThemePieces(sets, theme)).Some? ==>
              exists i :: 0 <= i < |sets| && sets[i].theme == theme
                          && Average(ThemePieces(sets, theme)).value <= sets[i].pieces as real
  {
    ThemePiecesFacts(sets, theme);
    if ThemePieces(sets, theme) != [] {
      MeanIsTotalOverCount(sets, theme);
      MeanBetweenThemePieces(sets, theme);
    }
  }

  lemma MeanIsTotalOverCount(sets: seq<LegoSet>, theme: Option<string>)
    requires ThemePieces(sets, theme) != []
    ensures ThemeCount(sets, theme) > 0
    ensures Average(ThemePieces(sets, theme)).value
      == (ThemePieceTotal(sets, theme) as real) / (ThemeCount(sets, theme) as real)
  {
    ThemePiecesCount(sets, theme);
    ThemeSum(sets, theme);
  }

  lemma MeanBetweenThemePieces(sets: seq<LegoSet>, theme: Option<string>)
    requires ThemePieces(sets, theme) != []
    ensures exists i :: 0 <= i < |sets| && sets[i].theme == theme
                        && sets[i].pieces as real <= Average(ThemePieces(sets, theme)).value
    ensures exists i :: 0 <= i < |sets| && sets[i].theme == theme
                        && Average(ThemePieces(sets, theme)).value <= sets[i].pieces as real
  {
    var pieces := ThemePieces(sets, theme);
    var mean := Average(pieces).value;
    ThemePiecesOrigin(sets, theme);
    var k :| 0 <= k < |pieces| && pieces[k] as real <= mean;
    var l :| 0 <= l < |pieces| && mean <= pieces[l] as real;
    var i :| 0 <= i < |sets| && sets[i].theme == theme && sets[i].pieces == pieces[k];
    var j :| 0 <= j < |sets| && sets[j].theme == theme && sets[j].pieces == pieces[l];
  }

  lemma ThemePiecesFacts(sets: seq<LegoSet>, theme: Option<string>)
    ensures |ThemePieces(sets, theme)| == ThemeCount(sets, theme)
    ensures Sum(ThemePieces(sets, theme)) == ThemePieceTotal(sets, theme)
    ensures ThemePieces(sets, theme) == [] <==> forall i :: 0 <= i < |sets| ==> sets[i].theme != theme
  {
    ThemePiecesCount(sets, theme);
    ThemeSum(sets, theme);
    var p := HasTheme(theme);
    if ThemePieces(sets, theme) == [] {
      forall i | 0 <= i < |sets| ensures sets[i].theme != theme {
        assert i !in Positions(p, sets);
      }
    } else {
      var i :| i in Positions(p, sets);
    }
  }

  lemma ThemePiecesCount(sets: seq<LegoSet>, theme: Option<string>)
    ensures |ThemePieces(sets, theme)| == ThemeCount(sets, theme) == |Positions(HasTheme(theme), sets)|
  {
    var p := HasTheme(theme);
    FilterSize(p, sets);
    assert Positions(p, sets) == set i | 0 <= i < |sets| && sets[i].theme == theme;
  }

  /** Every selected piece count is that of a set of the theme. */
  lemma ThemePiecesOrigin(sets: seq<LegoSet>, theme: Option<string>)
    ensures forall k :: 0 <= k < |ThemePieces(sets, theme)| ==>
      exists i :: 0 <= i < |sets| && sets[i].theme == theme && sets[i].pieces == ThemePieces(sets, theme)[k]
  {
    var p := HasTheme(theme);
    var kept := Filter(p, sets);
    assert ThemePieces(sets, theme) == Map(PiecesOf, kept);
    forall k | 0 <= k < |kept|
      ensures exists i :: 0 <= i < |sets| && sets[i].theme == theme && sets[i].pieces == ThemePieces(sets, theme)[k]
    {
      var i := FilterOrigin(p, sets, k);
      assert ThemePieces(sets, theme)[k] == PiecesOf(kept[k]);
    }
  }

  /** Bounds that every set of the theme respects also bound the mean. */
  lemma AveragePiecesWithin(sets: seq<LegoSet>, theme: Option<string>, lo: int, hi: int)
    requires AveragePieces(sets, theme).Success?
    requires forall i :: 0 <= i < |sets| && sets[i].theme == theme ==> lo <= sets[i].pieces <= hi
    ensures lo as real <= AveragePieces(sets, theme).value <= hi as real
  {
  }

  /** When every set of the theme has the same piece count, that count is
      the mean. */
  lemma AveragePiecesOfUniformTheme(sets: seq<LegoSet>, theme: Option<string>, v: int)
    requires exists i :: 0 <= i < |sets| && sets[i].theme == theme
    requires forall i :: 0 <= i < |sets| && sets[i].theme == theme ==> sets[i].pieces == v
    ensures AveragePieces(sets, theme) == Success(v as real)
  {
  }

  /** No theme's mean exceeds the largest piece count. */
  lemma AverageAtMostLargestPiece(sets: seq<LegoSet>, theme: Option<string>)
    requires AveragePieces(sets, theme).Success?
    ensures AveragePieces(sets, theme).value <= CountLegoSetsLargestPiece(sets) as real
  {
  }

  lemma {:induction false} ThemeSum(sets: seq<LegoSet>, theme: Option<string>)
    ensures Sum(ThemePieces(sets, theme)) == ThemePieceTotal(sets, theme)
  {
    if sets != [] {
      ThemeSum(sets[1..], theme);
    }
  }

  // ---------------------------------------------------------------------
  // A three-set example

  function Example(): seq<LegoSet>
  {
    [ LegoSet("Alpha", Some("X"), 150, Some(Box), Some({"a"})),
      LegoSet("Beta", Some("X"), 600, Some(NotSpecified), None),
      LegoSet("gamma", Some("Y"), 50, Some(Polybag), Some({"a", "b"})) ]
  }

  lemma ExampleCounts()
    ensures CountLegoSetsWithTag(Example(), "a") == 2
    ensures CountLegoSetsWithTag(Example(), "c") == 0
    ensures CountLegoSetsLargestPiece(Example()) == 600
  {
    var sets := Example();
    assert (set i | 0 <= i < |sets| && sets[i].tags.Some? && "a" in sets[i].tags.value) == {0, 2};
    AbsentTagCountsZero(sets, "c");
  }

  lemma ExamplePackaging()
    ensures PackagingTypeSpecified(Example()) == Success(2)
  {
    var sets := Example();
    assert (set i | 0 <= i < |sets| && sets[i].packagingType == Some(NotSpecified)) == {1};
  }

  lemma ExampleNames()
    ensures PrintLegoSetsInAlphabeticalOrder(Example()) == ["Alpha", "Beta", "gamma"]
    ensures PrintNamesWithPiecesBetween100and500(Example()) == ["Alpha"]
    ensures PrintNamesStartWithLetterB(Example()) == Success(["Beta"])
  {
    assert Names(Example()) == ["Alpha", "Beta", "gamma"];
    assert Sort(NaturalOrder, ["gamma"]) == ["gamma"];
    assert Sort(NaturalOrder, ["Beta", "gamma"]) == ["Beta", "gamma"];
    assert FirstLetterIsB("Alpha") == Success(false);
    assert FirstLetterIsB("Beta") == Success(true);
    assert FirstLetterIsB("gamma") == Success(false);
  }

  lemma ExampleAverages()
    ensures AveragePieces(Example(), Some("X")) == Success(375.0)
    ensures AveragePieces(Example(), None) == Failure(IllegalStateException)
  {
  }
}
