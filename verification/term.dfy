/**
  An autocomplete term: an immutable pair of query text and non-negative
  weight, with its constructor check, its textual form, its natural
  (case-insensitive lexicographic) order and its descending-weight order.
  The prefix order lives in module `PrefixOrders`.
*/
module Terms {
  import opened Results
  import opened Comparators
  import Str = JavaString
  import Decimal

  const MinLong: int := -0x8000_0000_0000_0000
  const MaxLong: int := 0x7FFF_FFFF_FFFF_FFFF
  /** Java `long`. */
  type Long = x: int | MinLong <= x <= MaxLong

  const MinInt: int := -0x8000_0000
  const MaxInt: int := 0x7FFF_FFFF
  /** Java `int`. */
  type Int = x: int | MinInt <= x <= MaxInt

  /** A `long` that passed the constructor's sign check. */
  type Weight = w: int | 0 <= w <= MaxLong

  datatype Term = Term(query: string, weight: Weight)

  /** The exceptions the term API throws, with the messages it throws them with. */
  datatype TermError = NullPointer(message: string) | IllegalArgument(message: string)

  const NullQueryMessage: string := "query can't be null"
  const NegativeWeightMessage: string := "weight must be nonnegative"

  /**
    `new Term(query, weight)`: a null query is rejected first, then a
    negative weight; weight zero is accepted and the fields are stored as given.
  */
  function NewTerm(query: Option<string>, weight: Long): (res: Result<Term, TermError>)
    ensures res.Success? <==> query.Some? && weight >= 0
    ensures res.Success? ==> res.value.query == query.value && res.value.weight == weight
    ensures query.None? ==> res.error == NullPointer(NullQueryMessage)
    ensures query.Some? && weight < 0 ==> res.error == IllegalArgument(NegativeWeightMessage)
  {
    if query.None? then Failure(NullPointer(NullQueryMessage))
    else if weight < 0 then Failure(IllegalArgument(NegativeWeightMessage))
    else Success(Term(query.value, weight))
  }

  /** Every term is what the constructor builds from its own fields. */
  lemma NewTermFromFields(t: Term)
    ensures NewTerm(Some(t.query), t.weight) == Success(t)
  {
  }

  /** Normalises a `compareTo` result to -1, 0 or 1, keeping its sign. */
  function Sign(comp: int): (r: int)
    ensures r == -1 || r == 0 || r == 1
    ensures r < 0 <==> comp < 0
    ensures r > 0 <==> comp > 0
  {
    if comp <= -1 then -1
    else if comp >= 1 then 1
    else 0
  }

  /** Index of the first TAB in `s`, if any. */
  function TabIndex(s: string): (i: Option<nat>)
    ensures i.Some? ==> i.value < |s| && s[i.value] == '\t' && '\t' !in s[..i.value]
    ensures i.None? ==> '\t' !in s
  {
    if |s| == 0 then None
    else if s[0] == '\t' then Some(0)
    else match TabIndex(s[1..])
      case None => None
      case Some(j) =>
        assert s[..j + 1] == [s[0]] + s[1..][..j];
        Some(j + 1)
  }

  /** The first TAB of `head + TAB + tail` is the one after `head` when `head` holds none. */
  lemma {:induction false} TabIndexAfter(head: string, tail: string)
    requires '\t' !in head
    ensures TabIndex(head + "\t" + tail) == Some(|head|)
  {
    if |head| > 0 {
      TabIndexAfter(head[1..], tail);
      assert (head + "\t" + tail)[1..] == head[1..] + "\t" + tail;
    }
  }

  /**
    Reads a line of the form `weight<TAB>query` back into a term: the text
    before the first TAB must be a decimal number that fits a `long`, and
    everything after it is the query.
  */
  function ParseLine(line: string): Option<Term> {
    match TabIndex(line)
    case None => None
    case Some(i) =>
      var digits := line[..i];
      if |digits| > 0 && Decimal.AllDigits(digits) && Decimal.ToNat(digits) <= MaxLong
      then Some(Term(line[i + 1..], Decimal.ToNat(digits)))
      else None
  }

  /**
    `toString()`: the decimal weight, one TAB, then the query unchanged.
    The weight is written as `Long.toString` writes it, without a leading
    zero, and reading the line back recovers the term.
  */
  function Render(t: Term): (s: string)
    ensures |s| > |t.query| && s[|s| - |t.query|..] == t.query
    ensures s[|s| - |t.query| - 1] == '\t'
    ensures var d := s[..|s| - |t.query| - 1];
      |d| > 0 && Decimal.AllDigits(d) && (d[0] == '0' ==> |d| == 1)
    ensures ParseLine(s) == Some(t)
  {
    var digits := Decimal.FromNat(t.weight);
    var s := digits + "\t" + t.query;
    assert s[..|digits|] == digits;
    assert |s| - |t.query| - 1 == |digits|;
    assert s[|digits| + 1..] == t.query;
    assert forall k :: 0 <= k < |digits| ==> digits[k] != '\t';
    TabIndexAfter(digits, t.query);
    s
  }

  /** Distinct terms render to distinct lines. */
  lemma RenderInjective(t: Term, u: Term)
    requires Render(t) == Render(u)
    ensures t == u
  {
  }

  /**
    `compareTo`: lexicographic order of the lower-cased queries, normalised
    to -1, 0 or 1; the weights play no part.
  */
  function CompareTo(a: Term, b: Term): (r: int)
    ensures r == -1 || r == 0 || r == 1
    ensures r == -1 <==> Str.LexLess(Str.ToLower(a.query), Str.ToLower(b.query))
    ensures r == 0 <==> Str.EqualIgnoringCase(a.query, b.query)
    ensures r == 1 <==> Str.LexLess(Str.ToLower(b.query), Str.ToLower(a.query))
  {
    var x, y := Str.ToLower(a.query), Str.ToLower(b.query);
    Str.CompareToNegativeIffLexLess(x, y);
    Str.CompareToNegativeIffLexLess(y, x);
    Str.CompareToAntisymmetric(x, y);
    Str.EqualIgnoringCaseIffSameLower(a.query, b.query);
    Sign(Str.CompareTo(x, y))
  }

  /** The natural order is a valid comparator: reflexive, antisymmetric and transitive. */
  lemma CompareToIsComparator()
    ensures IsComparator(CompareTo)
  {
    forall x: Term, y: Term
      ensures CompareTo(x, y) == -CompareTo(y, x)
    {
      Str.CompareToAntisymmetric(Str.ToLower(x.query), Str.ToLower(y.query));
    }
    forall x: Term, y: Term, z: Term | CompareTo(x, y) <= 0 && CompareTo(y, z) <= 0
      ensures CompareTo(x, z) <= 0
    {
      Str.CompareToTransitive(Str.ToLower(x.query), Str.ToLower(y.query), Str.ToLower(z.query));
    }
  }

  /**
    Letter case in a query is invisible to the natural order: a term may be
    replaced by one whose query differs only in case.
  */
  lemma CompareToCaseInsensitive(a: Term, b: Term, c: Term)
    requires Str.EqualIgnoringCase(a.query, b.query)
    ensures CompareTo(a, c) == CompareTo(b, c)
    ensures CompareTo(c, a) == CompareTo(c, b)
  {
    Str.EqualIgnoringCaseIffSameLower(a.query, b.query);
  }

  /**
    `byReverseWeightOrder().compare(x, y)`: the heavier term comes first,
    so the answer is -1 when `x` is heavier, 1 when `y` is, and 0 on a tie.
  */
  function ReverseWeightOrder(x: Term, y: Term): (r: int)
    ensures r == -1 <==> x.weight > y.weight
    ensures r == 1 <==> x.weight < y.weight
    ensures r == 0 <==> x.weight == y.weight
  {
    if x.weight > y.weight then -1
    else if x.weight < y.weight then 1
    else 0
  }

  lemma ReverseWeightOrderIsComparator()
    ensures IsComparator(ReverseWeightOrder)
  {
  }

  /** Sorting by the reverse weight order means the weights never increase along the sequence. */
  lemma SortedByReverseWeight(s: seq<Term>)
    ensures SortedBy(ReverseWeightOrder, s) <==> forall i, j :: 0 <= i < j < |s| ==> s[i].weight >= s[j].weight
  {
  }
}
