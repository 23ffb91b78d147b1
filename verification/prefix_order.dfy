/**
  The prefix order of length `r` (`Term.byPrefixOrder(r)` and its private
  comparator class `ByPrefixOrder`). `Compare` follows the source branch by
  branch, including its third branch, which compares the first term's
  prefix with the first term's own text instead of with the second term.
  `CompareIntended` is the order the Javadoc of `byPrefixOrder` describes,
  comparing the first `r` characters of each query (the whole query when it
  is shorter). The two agree whenever the second argument is at least `r`
  long; a probe built from an `r`-character prefix and passed second is in
  that position, a probe passed first is not.
*/
module PrefixOrders {
  import opened Results
  import opened Comparators
  import opened Terms
  import Str = JavaString

  const NegativeLengthMessage: string := "R should be >=  0"

  /** A non-negative Java `int`. */
  type Length = x: int | 0 <= x <= MaxInt

  /** The comparator object: it holds nothing but the prefix length `r`. */
  datatype ByPrefixOrder = ByPrefixOrder(r: Length)

  /** `byPrefixOrder(r)`: rejects a negative `r`, otherwise a comparator for that `r`. */
  function PrefixOrder(r: Int): (res: Result<ByPrefixOrder, TermError>)
    ensures res.Success? <==> r >= 0
    ensures res.Success? ==> res.value.r == r
    ensures r < 0 ==> res.error == IllegalArgument(NegativeLengthMessage)
  {
    if r < 0 then Failure(IllegalArgument(NegativeLengthMessage))
    else Success(ByPrefixOrder(r))
  }

  /**
    `ByPrefixOrder.compare(t1, t2)` as written. Each `substring(0, r)` is
    taken only from a query of length at least `r`, so every slice below is
    within bounds.
  */
  function Compare(o: ByPrefixOrder, t1: Term, t2: Term): (c: int)
    ensures c == -1 || c == 0 || c == 1
  {
    var r := o.r;
    var len1, len2 := |t1.query|, |t2.query|;
    if len1 >= r && len2 >= r then
      Sign(Str.CompareTo(Str.ToLower(t1.query)[..r], Str.ToLower(t2.query)[..r]))
    else if len1 < r && len2 >= r then
      Sign(Str.CompareTo(Str.ToLower(t1.query), Str.ToLower(t2.query)[..r]))
    else if len2 < r && len1 >= r then
      // the second operand is t1's own lower-cased text, not t2's
      Sign(Str.CompareTo(Str.ToLower(t1.query)[..r], Str.ToLower(t1.query)))
    else
      Sign(Str.CompareTo(Str.ToLower(t1.query), Str.ToLower(t2.query)))
  }

  /**
    The prefix order as its Javadoc describes it: compare the first `r`
    lower-cased characters of each query, or the whole query when it is
    shorter than `r`.
  */
  function CompareIntended(o: ByPrefixOrder, t1: Term, t2: Term): (c: int)
    ensures c == -1 || c == 0 || c == 1
  {
    Sign(Str.CompareTo(Str.Truncate(Str.ToLower(t1.query), o.r), Str.Truncate(Str.ToLower(t2.query), o.r)))
  }

  /** `q` begins with `p`, letter case ignored. */
  predicate StartsWithIgnoringCase(q: string, p: string) {
    |p| <= |q| && Str.EqualIgnoringCase(q[..|p|], p)
  }

  /**
    When both queries are at least `r` long, the order is that of their
    first `r` lower-cased characters.
  */
  lemma CompareBothLong(o: ByPrefixOrder, t1: Term, t2: Term)
    requires |t1.query| >= o.r && |t2.query| >= o.r
    ensures Compare(o, t1, t2) == -1 <==> Str.LexLess(Str.ToLower(t1.query)[..o.r], Str.ToLower(t2.query)[..o.r])
    ensures Compare(o, t1, t2) == 0 <==> Str.EqualIgnoringCase(t1.query[..o.r], t2.query[..o.r])
    ensures Compare(o, t1, t2) == 1 <==> Str.LexLess(Str.ToLower(t2.query)[..o.r], Str.ToLower(t1.query)[..o.r])
  {
    var x, y := Str.ToLower(t1.query)[..o.r], Str.ToLower(t2.query)[..o.r];
    Str.CompareToNegativeIffLexLess(x, y);
    Str.CompareToNegativeIffLexLess(y, x);
    Str.CompareToAntisymmetric(x, y);
    Str.ToLowerPrefix(t1.query, o.r);
    Str.ToLowerPrefix(t2.query, o.r);
    Str.EqualIgnoringCaseIffSameLower(t1.query[..o.r], t2.query[..o.r]);
  }

  /** When both queries are shorter than `r`, the prefix order is the natural order. */
  lemma CompareBothShort(o: ByPrefixOrder, t1: Term, t2: Term)
    requires |t1.query| < o.r && |t2.query| < o.r
    ensures Compare(o, t1, t2) == CompareTo(t1, t2)
  {
  }

  /** With `r` = 0 every pair of terms is tied. */
  lemma CompareEmptyPrefix(o: ByPrefixOrder, t1: Term, t2: Term)
    requires o.r == 0
    ensures Compare(o, t1, t2) == 0
  {
  }

  /** A query shorter than `r` never ties with one that has a full `r`-prefix. */
  lemma CompareShortFirstNeverTies(o: ByPrefixOrder, t1: Term, t2: Term)
    requires |t1.query| < o.r <= |t2.query|
    ensures Compare(o, t1, t2) != 0
  {
  }

  /**
    The third branch, long first and short second, does not look at `t2`
    at all: it answers 0 when `t1` is exactly `r` long and -1 otherwise,
    never 1.
  */
  lemma CompareDefectBranch(o: ByPrefixOrder, t1: Term, t2: Term)
    requires |t2.query| < o.r <= |t1.query|
    ensures Compare(o, t1, t2) == (if |t1.query| == o.r then 0 else -1)
  {
  }

  /**
    The as-written comparator is not antisymmetric: with `r` = 2, "ab"
    ties with "a" but "a" is smaller than "ab".
  */
  lemma CompareNotAntisymmetric()
    ensures Compare(ByPrefixOrder(2), Term("ab", 0), Term("a", 0)) == 0
    ensures Compare(ByPrefixOrder(2), Term("a", 0), Term("ab", 0)) == -1
    ensures !Antisymmetric((t1, t2) => Compare(ByPrefixOrder(2), t1, t2))
  {
    var o := ByPrefixOrder(2);
    var a, ab := Term("a", 0), Term("ab", 0);
    CompareDefectBranch(o, ab, a);
    assert Str.ToLower(a.query) == "a";
    assert Str.ToLower(ab.query)[..2] == "ab";
    assert Str.CompareTo("a", "ab") == -1;
    assert ((t1, t2) => Compare(ByPrefixOrder(2), t1, t2))(ab, a) != -((t1, t2) => Compare(ByPrefixOrder(2), t1, t2))(a, ab);
  }

  /**
    A probe of exactly `r` characters passed FIRST ties with every term
    shorter than `r`, whatever its text.
  */
  lemma CompareProbeFirstTiesShortTerms(o: ByPrefixOrder, probe: Term, t: Term)
    requires |t.query| < o.r == |probe.query|
    ensures Compare(o, probe, t) == 0
  {
    CompareDefectBranch(o, probe, t);
  }

  /** An instance of the above: with `r` = 2 the probe "ab" ties with "b". */
  lemma CompareProbeFirstExample()
    ensures Compare(ByPrefixOrder(2), Term("ab", 0), Term("b", 0)) == 0
  {
    CompareProbeFirstTiesShortTerms(ByPrefixOrder(2), Term("ab", 0), Term("b", 0));
  }

  /**
    Outside the third branch the source computes the corrected order; in
    particular whenever the second argument has at least `r` characters.
  */
  lemma CompareAgreesWithIntended(o: ByPrefixOrder, t1: Term, t2: Term)
    requires |t2.query| >= o.r || |t1.query| < o.r
    ensures Compare(o, t1, t2) == CompareIntended(o, t1, t2)
  {
  }

  /** The corrected prefix order is a valid comparator for every `r`. */
  lemma CompareIntendedIsComparator(o: ByPrefixOrder)
    ensures IsComparator((t1, t2) => CompareIntended(o, t1, t2))
  {
    var cmp := (t1, t2) => CompareIntended(o, t1, t2);
    forall x: Term, y: Term
      ensures cmp(x, y) == -cmp(y, x)
    {
      Str.CompareToAntisymmetric(Str.Truncate(Str.ToLower(x.query), o.r), Str.Truncate(Str.ToLower(y.query), o.r));
    }
    forall x: Term, y: Term, z: Term | cmp(x, y) <= 0 && cmp(y, z) <= 0
      ensures cmp(x, z) <= 0
    {
      Str.CompareToTransitive(
        Str.Truncate(Str.ToLower(x.query), o.r),
        Str.Truncate(Str.ToLower(y.query), o.r),
        Str.Truncate(Str.ToLower(z.query), o.r));
    }
  }

  /**
    Against a probe of at least `r` characters, a term ties exactly when
    its query begins with the probe's first `r` characters, letter case
    ignored.
  */
  lemma CompareTiesIffStartsWith(o: ByPrefixOrder, t: Term, probe: Term)
    requires |probe.query| >= o.r
    ensures Compare(o, t, probe) == 0 <==> StartsWithIgnoringCase(t.query, probe.query[..o.r])
  {
  }

  /**
    The corrected prefix order never reverses the natural order: a term
    that is no greater than another compares no greater against any probe.
  */
  lemma CompareIntendedMonotone(o: ByPrefixOrder, a: Term, b: Term, probe: Term)
    requires CompareTo(a, b) <= 0
    ensures CompareIntended(o, a, probe) <= CompareIntended(o, b, probe)
  {
    var la, lb := Str.ToLower(a.query), Str.ToLower(b.query);
    Str.CompareToNegativeIffLexLess(la, lb);
    assert Str.CompareTo(la, lb) <= 0;
    var x, y, p := Str.Truncate(la, o.r), Str.Truncate(lb, o.r), Str.Truncate(Str.ToLower(probe.query), o.r);
    Str.TruncateMonotone(la, lb, o.r);
    if Str.CompareTo(y, p) < 0 {
      Str.CompareToTransitiveStrict(x, y, p);
    } else if Str.CompareTo(y, p) == 0 {
      Str.CompareToTransitive(x, y, p);
    }
  }

  /**
    Over terms sorted by the natural order, the answers against a probe of
    at least `r` characters never decrease along the sequence: all -1 first,
    then all 0, then all 1. This is what lets a binary search find the
    first and the last match.
  */
  lemma SortedAnswersAscend(o: ByPrefixOrder, s: seq<Term>, probe: Term)
    requires SortedBy(CompareTo, s)
    requires |probe.query| >= o.r
    ensures forall i, j :: 0 <= i < j < |s| ==> Compare(o, s[i], probe) <= Compare(o, s[j], probe)
  {
    forall i, j | 0 <= i < j < |s|
      ensures Compare(o, s[i], probe) <= Compare(o, s[j], probe)
    {
      CompareAgreesWithIntended(o, s[i], probe);
      CompareAgreesWithIntended(o, s[j], probe);
      CompareIntendedMonotone(o, s[i], s[j], probe);
    }
  }

  /**
    In a sequence sorted by the natural order, the terms whose queries begin
    with a given prefix (letter case ignored) occupy one contiguous block.
  */
  lemma PrefixMatchesContiguous(s: seq<Term>, prefix: string, i: nat, j: nat, k: nat)
    requires SortedBy(CompareTo, s)
    requires i <= j <= k < |s|
    requires |prefix| <= MaxInt
    requires StartsWithIgnoringCase(s[i].query, prefix) && StartsWithIgnoringCase(s[k].query, prefix)
    ensures StartsWithIgnoringCase(s[j].query, prefix)
  {
    var o := ByPrefixOrder(|prefix|);
    var probe := Term(prefix, 0);
    assert probe.query[..o.r] == prefix;
    SortedAnswersAscend(o, s, probe);
    CompareTiesIffStartsWith(o, s[i], probe);
    CompareTiesIffStartsWith(o, s[j], probe);
    CompareTiesIffStartsWith(o, s[k], probe);
  }
}
