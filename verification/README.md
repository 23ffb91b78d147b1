# AutoSearch terms and their orderings, in Dafny

This project models `Term`, the value type behind the AutoSearch prefix
autocomplete engine. A term is an immutable pair of query text and a
non-negative `long` weight. The model covers:

- the constructor's argument checks;
- the `weight<TAB>query` text form;
- three orderings:
  - the natural order `compareTo`: case-insensitive and lexicographic;
  - the prefix order `byPrefixOrder(r)`: only the first `r` characters count;
  - the descending weight order `byReverseWeightOrder`.

The orderings exist for an autocomplete search class, `Autocomplete`. Its
source is not part of this model. The model assumes how that class might use
the orderings: it sorts terms by the natural order, finds the matches with the
prefix order against a probe term built from the typed prefix, and re-sorts the
matches by descending weight. The results about the search range are stated for
a probe passed as the SECOND argument of the prefix comparator.

Modules:

- `Results`: `Option` (a Java `null` becomes `None`) and `Result`, which is
  how a thrown exception is modelled.
- `JavaString`: the two `String` operations the orderings use.
  `ToLower` is a length-preserving ASCII fold. `CompareTo` follows Java's
  `compareTo`: the character difference at the first mismatch, otherwise the
  length difference. `LexLess` is an independent lexicographic order,
  defined by a witness index, against which `CompareTo` is proved.
- `Decimal`: decimal text of a non-negative weight, and its reader.
- `Comparators`: the laws a Java comparator must obey (reflexive,
  antisymmetric, transitive), sortedness under a comparator, and the extra
  property that all answers are -1, 0 or 1. All three term orderings return
  only those values, but Java's `Comparator` contract asks only for
  consistent signs.
- `Terms`: the term, its constructor, `toString`, `compareTo` and
  `byReverseWeightOrder`.
- `PrefixOrders`: `byPrefixOrder` and the comparator it returns. `Compare`
  follows the source as written, including a defect in one branch (see
  Findings). `CompareIntended` is the order the Javadoc of `byPrefixOrder`
  describes (Term.java:65-67): the first r characters of each query, or the
  whole query when it is shorter.

The source's own comments and its code disagree in two places. The model
follows the code in both:

- The doc comment of `byReverseWeightOrder` gives the signs of an ascending
  weight order. The code answers -1 when the first term is heavier, so
  heavier terms sort first.
- The Javadoc at Term.java:65-67 says the prefix order compares the first r
  characters of each query. When the first query is long and the second is
  short, the code compares the first query with itself (Term.java:154-156).

## Model

| member | source | states |
|---|---|---|
| Terms.NewTerm | Term.java:32-40 | a null query fails with NullPointerException before the weight is looked at; otherwise a negative weight fails with IllegalArgumentException; weight 0 is accepted; on success the term holds exactly the given query and weight |
| Terms.NewTermFromFields | Term.java:38-39 | every term is what the constructor builds from its own query and weight (the stored fields equal the arguments) |
| Terms.ReverseWeightOrder | Term.java:47-60 | -1 exactly when the first term is heavier, 1 exactly when it is lighter, 0 exactly on equal weights |
| Terms.ReverseWeightOrderIsComparator | Term.java:49-57 | the weight order is a valid comparator; swapping the arguments negates the answer |
| Terms.SortedByReverseWeight | Term.java:49-57 | a sequence is sorted by this comparator exactly when its weights never increase (heaviest first) |
| Terms.Render | Term.java:82-84 | the text ends with a TAB followed by the unchanged query, and reading the line back as decimal weight, TAB, query recovers the term |
| Terms.RenderInjective | Term.java:82-84 | two terms with the same text form are the same term |
| Decimal.FromNat | Term.java:83 | the weight's text is non-empty decimal digits with no leading zero, and its value is the weight |
| Decimal.FromNatCanonical | Term.java:83 | every digit string without a leading zero is the text form of its own value |
| JavaString.ToLower | Term.java:93 | `toLowerCase` keeps the length and folds each character on its own: `A`..`Z` become `a`..`z`, everything else is unchanged (the same call appears at Term.java:132-133, 146-147, 155-156, 167-168) |
| Terms.Sign | Term.java:94-99 | the normalisation of a `compareTo` result keeps its sign and answers -1, 0 or 1 (the same code appears at Term.java:136-143, 150-152, 159-164, 171-176) |
| JavaString.CompareTo | Term.java:93 | String.compareTo answers 0 exactly on equal strings, and a prefix compares by the length difference |
| JavaString.CompareToNegativeIffLexLess | Term.java:93 | String.compareTo is negative exactly when the first string is lexicographically smaller, a proper prefix counting as smaller |
| JavaString.CompareToAntisymmetric | Term.java:93 | swapping the operands of String.compareTo negates its result |
| JavaString.CompareToTransitive | Term.java:93 | the order String.compareTo induces is transitive |
| JavaString.TruncateMonotone | Term.java:132-133 | cutting two strings to their first r characters never reverses their order |
| Terms.CompareTo | Term.java:92-100 | the answer is in {-1, 0, 1}: -1 exactly when the lower-cased query is lexicographically smaller, 0 exactly when the queries are equal up to letter case, 1 exactly when it is greater |
| Terms.CompareToIsComparator | Term.java:92-100 | compareTo is reflexive, antisymmetric and transitive |
| Terms.CompareToCaseInsensitive | Term.java:93 | a term can be replaced by one whose query differs only in letter case without changing any comparison, from either side |
| PrefixOrders.PrefixOrder | Term.java:72-76 | a negative r fails with IllegalArgumentException; any other r yields a comparator holding that r |
| PrefixOrders.Compare | Term.java:127-178 | the answer is in {-1, 0, 1}, and the r-prefix is cut only from queries at least r long, so no slice goes out of bounds |
| PrefixOrders.CompareBothLong | Term.java:131-144 | when both queries are at least r long, the answer orders their first r lower-cased characters, and it is 0 exactly when those prefixes are equal up to case |
| PrefixOrders.CompareBothShort | Term.java:166-177 | when both queries are shorter than r, the prefix order equals compareTo |
| PrefixOrders.CompareEmptyPrefix | Term.java:131-143 | with r = 0 every two terms compare 0 |
| PrefixOrders.CompareShortFirstNeverTies | Term.java:145-152 | a first query shorter than r never ties with a second query at least r long |
| PrefixOrders.CompareDefectBranch | Term.java:154-165 | when the first query is at least r long and the second is shorter, the answer ignores the second term: 0 if the first is exactly r long, else -1, never 1 |
| PrefixOrders.CompareNotAntisymmetric | Term.java:154-156 | with r = 2, "ab" against "a" gives 0 while "a" against "ab" gives -1, so the comparator as written is not antisymmetric |
| PrefixOrders.CompareProbeFirstTiesShortTerms | Term.java:154-165 | a probe of exactly r characters passed as the first argument ties with every term shorter than r, whatever its text ("ab" ties with "b" at r = 2) |
| PrefixOrders.CompareAgreesWithIntended | Term.java:128-177 | outside the defective branch, and in particular whenever the second query is at least r long, the code computes the corrected prefix order |
| PrefixOrders.CompareIntendedIsComparator | Term.java:65-76 | the prefix order the Javadoc describes (first r characters of each query) is reflexive, antisymmetric and transitive for every r |
| PrefixOrders.CompareTiesIffStartsWith | Term.java:131-152 | against a probe at least r long, a term compares 0 exactly when its query begins with the probe's first r characters, ignoring case |
| PrefixOrders.CompareIntendedMonotone | Term.java:127-178 | the corrected prefix order never reverses compareTo: a term no greater than another compares no greater against any probe |
| PrefixOrders.SortedAnswersAscend | Term.java:127-178 | over terms sorted by compareTo, the as-written answers against a probe at least r long, passed second, never decrease along the sequence |
| PrefixOrders.PrefixMatchesContiguous | Term.java:127-178 | in a sequence sorted by compareTo, the terms whose queries begin with a given prefix, ignoring case, form one contiguous block |

## Findings

| source | as written | input that shows it | evidently intended | confidence | as-written member | corrected member |
|---|---|---|---|---|---|---|
| Term.java:154-156 | in the branch where t2 is shorter than r and t1 is not, the second operand is `t1.query.toLowerCase()` | r = 2, t1 = "ab", t2 = "a": compare(t1, t2) = 0 but compare(t2, t1) = -1 | the second operand is `t2.query.toLowerCase()`, which gives 1 for that input | high; not executed | PrefixOrders.CompareNotAntisymmetric | PrefixOrders.CompareIntendedIsComparator |

`PrefixOrders.Compare` models the code as written. `PrefixOrders.CompareIntended`
is the corrected order. `CompareIntendedMonotone` is about the corrected order.
`SortedAnswersAscend` is about the as-written `Compare`. It holds because of
`CompareAgreesWithIntended`: the defective branch cannot be reached when the
second argument is at least r long. `PrefixMatchesContiguous` states its result
through a case-insensitive starts-with predicate, and its proof goes through
`SortedAnswersAscend`. Whether a caller passes its probe second cannot be checked
here. A probe passed first does reach the defect:
`CompareProbeFirstTiesShortTerms` shows it then ties with every shorter term.

## Left out

- testing.java is I/O plumbing and is not modelled. It covers prompting for a file name, re-prompting when the file is missing, reading `N` and the `weight<TAB>query` lines with a Scanner, the `k > 0` re-prompt loop, and printing the top `min(k, length)` results.
- `Autocomplete`, the search engine with its two binary searches, is not part of this model. Its source is not available, so how it calls the prefix comparator is unknown. The search-range lemmas assume the probe is the second argument and is at least r long. If `Autocomplete` passes the probe first, the defect applies and those lemmas do not cover it.
- `Term.main` is a demo that prints to standard output and is not modelled.
- Java's `toLowerCase` uses full Unicode and the default locale; for example, the Turkish dotted I can change a string's length. The model folds only `A`..`Z`.
- Java strings are sequences of UTF-16 code units, while a Dafny `char` is a Unicode scalar value. For characters above U+FFFF, Java's `length()` counts two units where the model counts one. So the prefix comparator can take a different branch, `substring(0, r)` can cut at a different place (even inside a surrogate pair), and the sign of `compareTo` can flip. For example, at r = 1, t1 = U+1F600 and t2 = U+E000 give -1 in Java, because the lone high surrogate U+D83D is cut off. The model answers 1. The model is faithful only for text within the Basic Multilingual Plane.
- Null `Term` arguments to `compareTo`, to the comparators and to `toString` are not modelled. In Java they throw NullPointerException (Term.java:50, 93, 128-129); here a term is a value and is never null. Only the constructor's null query is modelled.
- Comparator objects, anonymous classes and `Comparable` dispatch are not modelled. Each ordering is a plain function, and the prefix comparator's object is reduced to a datatype holding `r`.
- The stability of `Arrays.sort` is not modelled.
- The line reader `ParseLine`, used for the round trip of `Render`, accepts only plain digit strings before the TAB. Scanner's `nextLong` also accepts a sign and surrounding whitespace.
