# LEGO set repository queries, in Dafny

This project models `LegoSetRepository`, a Java class holding seven read-only
queries over a list of LEGO set records loaded from a JSON file. Each query is
a single stream pipeline (`filter`, `map`, `sorted`, `count`, `max`,
`average`). Here each query is a Dafny function of the loaded list,
`seq<LegoSet>`:

- A query that prints returns the sequence of lines it would print.
- A query that can throw returns a `Result`, with `Failure` carrying the
  exception.

Files:

- `wrappers.dfy`: `Option` (Java's null and `OptionalInt`/`OptionalDouble`) and `Result`.
- `streams.dfy`: the stream stages as functions over sequences, and the facts about them:
  - `Filter`, and `TryFilter`, a filter whose predicate may throw;
  - `Map`, `Max`, `Sum` and `Average`;
  - position-set counts, the reference definition of "how many elements pass".
- `string_order.dfy`: `String.compareTo`, `Comparator.naturalOrder()` and
  `reverseOrder()`, and `sorted(...)` as an insertion sort. It proves that the
  sorted result is an ordered permutation, and that the result is unique.
- `lego_set_repository.dfy`: the `LegoSet` record, the `PackagingType` enum,
  the exceptions, the seven queries and the lemmas about them.

Some behaviour of the code that is easy to overlook; the model follows the code:

- `averagePieces` compares themes with `Objects.equals`. So a null theme
  argument (`None`) matches the sets that have no theme.
- `printNamesStartWithLetterB` calls `charAt(0)` on every name. An empty name
  makes the whole query throw `StringIndexOutOfBoundsException` before any
  line is printed, because `sorted` consumes the whole stream first. The empty
  name is not skipped.
- `packagingTypeSpecified` calls `toString()` on the packaging type. A null
  packaging type makes it throw `NullPointerException`; it is not counted as
  "not specified".

## Model

| member | source | states |
|---|---|---|
| `LegoSetRepository.CountLegoSetsWithTag` | src/main/java/brickset/LegoSetRepository.java:21-25 | the count is the number of positions whose set has non-null tags containing `tag`; it is at most the number of sets |
| `LegoSetRepository.AbsentTagCountsZero` | src/main/java/brickset/LegoSetRepository.java:21-25 | a tag that no set carries counts 0; sets with null tags contribute nothing |
| `LegoSetRepository.CountLegoSetsLargestPiece` | src/main/java/brickset/LegoSetRepository.java:31-37 | 0 for no sets; otherwise the piece count of some set, and no set has more |
| `LegoSetRepository.PrintLegoSetsInAlphabeticalOrder` | src/main/java/brickset/LegoSetRepository.java:42-48 | one line per set; each name occurs as often as there are sets with that name; the lines are in natural string order |
| `LegoSetRepository.AlphabeticalOrderIsUnique` | src/main/java/brickset/LegoSetRepository.java:45-46 | every ordered arrangement of the names equals the printed lines, so Java's sorting algorithm gives the same output |
| `LegoSetRepository.NamesWithPiecesBetween` | src/main/java/brickset/LegoSetRepository.java:56-57 | each name occurs as often as there are sets with that name and `lo <= pieces <= hi` |
| `LegoSetRepository.NamesWithPiecesBetweenMonotone` | src/main/java/brickset/LegoSetRepository.java:56 | widening the piece bounds only adds names, as multisets |
| `LegoSetRepository.PrintNamesWithPiecesBetween100and500` | src/main/java/brickset/LegoSetRepository.java:53-60 | each name occurs as often as there are sets with that name and 100 to 500 pieces, both bounds included; the lines are in reverse natural order |
| `LegoSetRepository.ReverseOrderIsUnique` | src/main/java/brickset/LegoSetRepository.java:56-58 | every reverse-ordered arrangement of the names with 100 to 500 pieces, with their multiplicities, equals the printed lines |
| `LegoSetRepository.PrintNamesStartWithLetterB` | src/main/java/brickset/LegoSetRepository.java:65-72 | fails with `StringIndexOutOfBoundsException` exactly when some name is empty; otherwise each name starting with 'B' occurs once per set bearing it, no other name occurs, and the lines are in natural order |
| `LegoSetRepository.BOrderIsUnique` | src/main/java/brickset/LegoSetRepository.java:68-70 | when no name is empty, every ordered arrangement of the names starting with 'B', with their multiplicities, is the query's result |
| `LegoSetRepository.PackagingTypeNameIsSentinel` | src/main/java/brickset/LegoSetRepository.java:81 | comparing `toString()` with "NOT_SPECIFIED" is the same as comparing the constant with `NOT_SPECIFIED` |
| `LegoSetRepository.PackagingTypeSpecified` | src/main/java/brickset/LegoSetRepository.java:78-84 | fails with `NullPointerException` exactly when some packaging type is null; otherwise the number of sets minus the number whose packaging type is `NOT_SPECIFIED` |
| `LegoSetRepository.AveragePieces` | src/main/java/brickset/LegoSetRepository.java:91-98 | fails with `IllegalStateException` exactly when no set's theme equals `theme` (null-safe); otherwise at least one set matches, the mean is the matching sets' total piece count divided by their number, and it lies between the piece counts of two matching sets |
| `LegoSetRepository.AveragePiecesWithin` | src/main/java/brickset/LegoSetRepository.java:94-97 | bounds that every matching set respects also bound the mean |
| `LegoSetRepository.AveragePiecesOfUniformTheme` | src/main/java/brickset/LegoSetRepository.java:94-97 | if every matching set has `v` pieces, the mean is exactly `v` |
| `LegoSetRepository.AverageAtMostLargestPiece` | src/main/java/brickset/LegoSetRepository.java:31-37 | no theme's mean exceeds the result of `countLegoSetsLargestPiece` |
| `LegoSetRepository.ExampleCounts` | src/main/java/brickset/LegoSetRepository.java:21-37 | on a three-set example: tag "a" counts 2, tag "c" counts 0, the largest piece count is 600 |
| `LegoSetRepository.ExamplePackaging` | src/main/java/brickset/LegoSetRepository.java:78-84 | on the same example: two packaging types are specified |
| `LegoSetRepository.ExampleNames` | src/main/java/brickset/LegoSetRepository.java:42-72 | on the same example: the alphabetical, 100-to-500 and 'B' listings are exactly the expected lines |
| `LegoSetRepository.ExampleAverages` | src/main/java/brickset/LegoSetRepository.java:91-98 | on the same example: theme "X" averages 375, a null theme fails |
| `LegoSetRepository.HasTag` | src/main/java/brickset/LegoSetRepository.java:23 | the filter's lambda: the set's tags are non-null and contain `tag` |
| `LegoSetRepository.PiecesBetween` | src/main/java/brickset/LegoSetRepository.java:56 | the filter's lambda: `getPieces() >= lo && getPieces() <= hi`, both bounds included |
| `LegoSetRepository.FirstLetterIsB` | src/main/java/brickset/LegoSetRepository.java:69 | the filter's lambda: `charAt(0)` throws `StringIndexOutOfBoundsException` on an empty name, otherwise the test is whether the first character is 'B' |
| `LegoSetRepository.PackagingTypeName` | src/main/java/brickset/LegoSetRepository.java:81 | `toString()` of a packaging type, taken to be the enum constant's name |
| `LegoSetRepository.IsPackagingSpecified` | src/main/java/brickset/LegoSetRepository.java:81 | the filter's lambda: a null packaging type throws `NullPointerException`, otherwise the test is whether its name differs from "NOT_SPECIFIED" |
| `LegoSetRepository.HasTheme` | src/main/java/brickset/LegoSetRepository.java:94 | the filter's lambda: `Objects.equals(getTheme(), theme)`, so two nulls are equal |
| `Streams.Filter` | src/main/java/brickset/LegoSetRepository.java:23 | `filter(p)`: the elements satisfying `p`, in stream order |
| `Streams.Map` | src/main/java/brickset/LegoSetRepository.java:45 | `map(f)` and `mapToInt(f)`: as many results as inputs, each the image of the element at the same position |
| `Streams.Sum` | src/main/java/brickset/LegoSetRepository.java:96 | the sum `average()` divides, on unbounded integers |
| `StringOrder.CompareTo` | src/main/java/brickset/LegoSetRepository.java:46 | `String.compareTo`: at the first differing position the difference of the characters, otherwise the difference of the lengths |
| `StringOrder.Compare` | src/main/java/brickset/LegoSetRepository.java:58 | `naturalOrder()` compares `a` with `b`; `reverseOrder()` compares `b` with `a` |
| `StringOrder.Sort` | src/main/java/brickset/LegoSetRepository.java:70 | `sorted(comparator)` as an insertion sort; what it guarantees is stated by `StringOrder.SortSorted` and `StringOrder.SortedUnique` |
| `Streams.TryFilter` | src/main/java/brickset/LegoSetRepository.java:69 | a filter whose predicate may throw fails exactly when the predicate throws on some element, with the first exception in stream order; otherwise it keeps what the predicate accepts |
| `Streams.FilterSize` | src/main/java/brickset/LegoSetRepository.java:23-24 | `filter(...).count()` equals the number of positions passing the predicate |
| `Streams.MapFilterMultiplicity` | src/main/java/brickset/LegoSetRepository.java:56-57 | after `filter` then `map`, a value occurs once per position that passes and maps to it |
| `Streams.Max` | src/main/java/brickset/LegoSetRepository.java:35-36 | `max()` is empty exactly for an empty stream; otherwise it is an element that no element exceeds |
| `Streams.Average` | src/main/java/brickset/LegoSetRepository.java:96-97 | `average()` is empty exactly for an empty stream; otherwise the mean is at least some element and at most some element |
| `Streams.AverageWithin` | src/main/java/brickset/LegoSetRepository.java:96 | bounds on every element bound the mean |
| `StringOrder.CompareToZero` | src/main/java/brickset/LegoSetRepository.java:46 | `compareTo` is 0 exactly for equal strings |
| `StringOrder.CompareToAntisymmetric` | src/main/java/brickset/LegoSetRepository.java:58 | swapping the arguments of `compareTo` negates it, which is how `reverseOrder()` reverses the order |
| `StringOrder.CompareToTransitive` | src/main/java/brickset/LegoSetRepository.java:46 | the natural string order is transitive |
| `StringOrder.SortSorted` | src/main/java/brickset/LegoSetRepository.java:46 | `sorted(comparator)` returns a permutation of its input in which every earlier element may precede every later one |
| `StringOrder.SortedUnique` | src/main/java/brickset/LegoSetRepository.java:58 | two ordered permutations of the same strings are equal |

## Left out

- The `Repository` base class is not part of this model, and neither is loading `brickset.json` (lines 12-14) or memoising the loaded list. The queries take the list as a parameter.
- Printing. `System.out.println` is replaced by returning the sequence of lines.
- `main` (lines 100-110). It is a fixed demonstration sequence of calls.
- `AveragePieces`: the mean is an exact `real`. The model does not round it to a `double`. The sum of piece counts is exact; Java sums the `int` values in a `long`, which cannot overflow for a list shorter than 2^31 elements.
- `PackagingType`: `LegoSet.java` is not part of this model. Its constant list is a representative set of packaging kinds. Only `NOT_SPECIFIED` affects any query. `toString()` is assumed not to be overridden, so it returns the constant's name; an override that never returned "NOT_SPECIFIED" would make line 81 count every set.
- `StringOrder.CompareTo`: compares Dafny characters (Unicode scalar values). Java compares UTF-16 code units. The natural order can therefore differ for strings containing characters outside the Basic Multilingual Plane.
- A null name (`getName()` returning null) is not modelled. Names are non-null strings, so the `NullPointerException` that `charAt` or `compareTo` would throw is out of scope.
- A null `tag` argument to `countLegoSetsWithTag` is not modelled. The tag is a string.
- The sorting algorithm: Java sorts with its own merge sort and the model uses insertion sort. `StringOrder.SortedUnique` shows that the output does not depend on the algorithm.
- Purity and repeatability of the queries are not stated as a lemma. Every query is a Dafny function of its input, so repeated calls agree and nothing is modified, by construction.
