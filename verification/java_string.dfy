/**
  The two `java.lang.String` operations the term orderings are built from:
  `toLowerCase`, restricted to a length-preserving ASCII fold, and
  `compareTo`, the lexicographic comparison in which a proper prefix is
  smaller. `LexLess` is an independent, witness-based definition of the
  lexicographic order against which `CompareTo` is proved.
*/
module JavaString {

  predicate IsUpper(c: char) {
    'A' <= c <= 'Z'
  }

  /** Lower-cases one character: `A`..`Z` move to `a`..`z`, everything else is kept. */
  function ToLowerChar(c: char): (d: char)
    ensures !IsUpper(d)
    ensures IsUpper(c) ==> d != c && d as int - c as int == 'a' as int - 'A' as int
    ensures !IsUpper(c) ==> d == c
  {
    if IsUpper(c) then (c as int + ('a' as int - 'A' as int)) as char else c
  }

  /** `s.toLowerCase()` under the ASCII fold: same length, each character folded. */
  function ToLower(s: string): (t: string)
    ensures |t| == |s|
    ensures forall i :: 0 <= i < |s| ==> t[i] == ToLowerChar(s[i])
  {
    seq(|s|, i requires 0 <= i < |s| => ToLowerChar(s[i]))
  }

  /** Two strings are equal up to letter case when they fold to the same characters. */
  predicate EqualIgnoringCase(s: string, t: string) {
    |s| == |t| && forall i :: 0 <= i < |s| ==> ToLowerChar(s[i]) == ToLowerChar(t[i])
  }

  lemma ToLowerPrefix(s: string, k: nat)
    requires k <= |s|
    ensures ToLower(s)[..k] == ToLower(s[..k])
  {
  }

  lemma EqualIgnoringCaseIffSameLower(s: string, t: string)
    ensures EqualIgnoringCase(s, t) <==> ToLower(s) == ToLower(t)
  {
  }

  /**
    `a.compareTo(b)`: at the first index where the strings differ, the
    difference of the two characters; when one is a prefix of the other,
    the difference of the lengths.
  */
  function CompareTo(a: string, b: string): (r: int)
    ensures r == 0 <==> a == b
    ensures |a| <= |b| && a == b[..|a|] ==> r == |a| - |b|
    decreases |a|
  {
    if |a| == 0 || |b| == 0 then |a| - |b|
    else if a[0] != b[0] then a[0] as int - b[0] as int
    else
      assert a == [a[0]] + a[1..] && b == [b[0]] + b[1..];
      CompareTo(a[1..], b[1..])
  }

  /**
    `a` is lexicographically smaller than `b`, witnessed at index `k`:
    the strings agree below `k`, and at `k` either `a` has ended while `b`
    goes on, or both go on and `a` has the smaller character.
  */
  predicate LessAt(a: string, b: string, k: nat) {
    && k <= |a| && k <= |b|
    && a[..k] == b[..k]
    && ((k == |a| && k < |b|) || (k < |a| && k < |b| && a[k] < b[k]))
  }

  ghost predicate LexLess(a: string, b: string) {
    exists k: nat :: LessAt(a, b, k)
  }

  lemma LessAtShift(a: string, b: string, k: nat)
    requires |a| > 0 && |b| > 0 && a[0] == b[0]
    ensures LessAt(a, b, k + 1) <==> LessAt(a[1..], b[1..], k)
  {
    if k + 1 <= |a| && k + 1 <= |b| {
      assert a[..k + 1] == [a[0]] + a[1..][..k];
      assert b[..k + 1] == [b[0]] + b[1..][..k];
    }
  }

  /** `compareTo` is negative exactly when the first string is lexicographically smaller. */
  lemma {:induction false} CompareToNegativeIffLexLess(a: string, b: string)
    ensures CompareTo(a, b) < 0 <==> LexLess(a, b)
    decreases |a|
  {
    if |a| == 0 || |b| == 0 {
      if |a| == 0 && |b| > 0 {
        assert LessAt(a, b, 0);
      } else {
        forall k: nat ensures !LessAt(a, b, k) {}
      }
    } else if a[0] != b[0] {
      if a[0] < b[0] {
        assert LessAt(a, b, 0);
      } else {
        forall k: nat ensures !LessAt(a, b, k) {}
      }
    } else {
      CompareToNegativeIffLexLess(a[1..], b[1..]);
      if CompareTo(a, b) < 0 {
        var k: nat :| LessAt(a[1..], b[1..], k);
        LessAtShift(a, b, k);
        assert LessAt(a, b, k + 1);
      }
      if LexLess(a, b) {
        var k: nat :| LessAt(a, b, k);
        assert k != 0;
        LessAtShift(a, b, k - 1);
        assert LessAt(a[1..], b[1..], k - 1);
      }
    }
  }

  /** Swapping the operands of `compareTo` negates the result. */
  lemma {:induction false} CompareToAntisymmetric(a: string, b: string)
    ensures CompareTo(a, b) == -CompareTo(b, a)
    decreases |a|
  {
    if |a| > 0 && |b| > 0 && a[0] == b[0] {
      CompareToAntisymmetric(a[1..], b[1..]);
    }
  }

  /** The order `compareTo` induces is transitive. */
  lemma {:induction false} CompareToTransitive(a: string, b: string, c: string)
    requires CompareTo(a, b) <= 0 && CompareTo(b, c) <= 0
    ensures CompareTo(a, c) <= 0
    decreases |a|
  {
    if |a| > 0 && |b| > 0 && |c| > 0 && a[0] == b[0] && b[0] == c[0] {
      CompareToTransitive(a[1..], b[1..], c[1..]);
    }
  }

  /** Strict and non-strict steps chain to a strict result. */
  lemma CompareToTransitiveStrict(a: string, b: string, c: string)
    requires CompareTo(a, b) <= 0 && CompareTo(b, c) <= 0
    requires CompareTo(a, b) < 0 || CompareTo(b, c) < 0
    ensures CompareTo(a, c) < 0
  {
  }

  /** `s.substring(0, r)` when `s` is long enough, otherwise `s` itself. */
  function Truncate(s: string, r: nat): (t: string)
    ensures |t| <= r && |t| <= |s|
    ensures t == s[..|t|]
    ensures |t| == r || t == s
  {
    if |s| >= r then s[..r] else s
  }

  /** Cutting both operands at the same length never reverses their order. */
  lemma {:induction false} TruncateMonotone(a: string, b: string, r: nat)
    requires CompareTo(a, b) <= 0
    ensures CompareTo(Truncate(a, r), Truncate(b, r)) <= 0
    decreases r
  {
    if r > 0 && |a| > 0 && |b| > 0 && a[0] == b[0] {
      TruncateMonotone(a[1..], b[1..], r - 1);
      assert Truncate(a, r)[1..] == Truncate(a[1..], r - 1);
      assert Truncate(b, r)[1..] == Truncate(b[1..], r - 1);
    }
  }
}
