/** The string comparison behind `a.value.localeCompare(b.value, 'en',
    { sensitivity: 'accent' })`.  The Unicode collation tables are not part
    of this model: a collation is any three-way comparison that is a
    consistent comparator in the sense of ECMA-402 (chapter 10, Collator
    Objects) and ECMA-262 (section 23.1.3.30, Array.prototype.sort), that is,
    a total preorder.  `AccentCompare` is one concrete collation of this kind
    with the accent-sensitive, case-insensitive behaviour of the source. */
module Collation {
  import opened Text

  /** `cmp` is reflexive, antisymmetric in sign and transitive: a total preorder
      read off its sign. */
  ghost predicate IsCollation(cmp: (string, string) -> int)
  {
    && (forall s :: cmp(s, s) == 0)
    && (forall s, t :: cmp(s, t) < 0 <==> cmp(t, s) > 0)
    && (forall s, t, u :: cmp(s, t) <= 0 && cmp(t, u) <= 0 ==> cmp(s, u) <= 0)
  }

  /** Lexicographic three-way comparison by code point. */
  function LexCompare(s: string, t: string): (r: int)
    ensures -1 <= r <= 1
  {
    if s == [] && t == [] then 0
    else if s == [] then -1
    else if t == [] then 1
    else if s[0] < t[0] then -1
    else if s[0] > t[0] then 1
    else LexCompare(s[1..], t[1..])
  }

  lemma {:induction false} LexCompareReflexive(s: string)
    ensures LexCompare(s, s) == 0
  {
    if s != [] { LexCompareReflexive(s[1..]); }
  }

  lemma {:induction false} LexCompareAntisymmetric(s: string, t: string)
    ensures LexCompare(s, t) == -LexCompare(t, s)
  {
    if s != [] && t != [] && s[0] == t[0] { LexCompareAntisymmetric(s[1..], t[1..]); }
  }

  lemma {:induction false} LexCompareEqual(s: string, t: string)
    ensures LexCompare(s, t) == 0 <==> s == t
  {
    if s == t {
      LexCompareReflexive(s);
    } else if s != [] && t != [] && s[0] == t[0] {
      LexCompareEqual(s[1..], t[1..]);
      assert s == [s[0]] + s[1..] && t == [t[0]] + t[1..];
    }
  }

  lemma {:induction false} LexCompareTransitive(s: string, t: string, u: string)
    requires LexCompare(s, t) <= 0 && LexCompare(t, u) <= 0
    ensures LexCompare(s, u) <= 0
  {
    if s != [] && t != [] && u != [] && s[0] == t[0] == u[0] {
      LexCompareTransitive(s[1..], t[1..], u[1..]);
    }
  }

  /** Accent-sensitive, case-insensitive comparison: compare the lower-case
      folds by code point.  Strings that differ only in letter case compare
      equal; a letter and its accented form do not. */
  function AccentCompare(s: string, t: string): (r: int)
    ensures -1 <= r <= 1
    ensures r == 0 <==> Lower(s) == Lower(t)
  {
    LexCompareEqual(Lower(s), Lower(t));
    LexCompare(Lower(s), Lower(t))
  }

  /** `AccentCompare` compares equal exactly the strings with the same fold. */
  lemma AccentCompareEqualIffSameFold(s: string, t: string)
    ensures AccentCompare(s, t) == 0 <==> Lower(s) == Lower(t)
  {
    LexCompareEqual(Lower(s), Lower(t));
  }

  lemma AccentCompareIsCollation()
    ensures IsCollation(AccentCompare)
  {
    forall s ensures AccentCompare(s, s) == 0 {
      LexCompareReflexive(Lower(s));
    }
    forall s, t ensures AccentCompare(s, t) < 0 <==> AccentCompare(t, s) > 0 {
      LexCompareAntisymmetric(Lower(s), Lower(t));
    }
    forall s, t, u | AccentCompare(s, t) <= 0 && AccentCompare(t, u) <= 0
      ensures AccentCompare(s, u) <= 0
    {
      LexCompareTransitive(Lower(s), Lower(t), Lower(u));
    }
  }
}
