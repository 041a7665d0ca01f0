/** Worked instances of the filter behaviour with three tags. */
module Scenarios {
  import opened Text
  import opened Entries
  import opened Collation
  import opened Sorting
  import opened TagSearch

  /** The collation ignores letter case ... */
  lemma CaseIsIgnored()
    ensures AccentCompare("Go", "go") == 0
    ensures AccentCompare("apex", "Java") < 0
  {
    assert Lower("Go") == "go" && Lower("go") == "go";
    assert Lower("apex") == "apex" && Lower("Java") == "java";
  }

  /** ... but not accents (the Latin-1 `é`, U+00E9). */
  lemma AccentsAreKept()
    ensures AccentCompare("e", "é") != 0
  {
    assert Lower("e") == "e" && Lower("é") == "é";
    AccentCompareEqualIffSameFold("e", "é");
  }

  /** The checked tag comes first; the unchecked ones follow in collation
      order, so "apex" precedes "Java" although 'J' precedes 'a' by code point. */
  lemma SortThreeTags(java: FilterElem, go: FilterElem, apex: FilterElem)
    requires java.value == "Java" && go.value == "Go" && apex.value == "apex"
    ensures StableSort(AccentCompare, [Keyed(java, false), Keyed(go, true), Keyed(apex, false)])
         == [Keyed(go, true), Keyed(apex, false), Keyed(java, false)]
  {
    var j, g, x := Keyed(java, false), Keyed(go, true), Keyed(apex, false);
    CaseIsIgnored();
    assert [j, g, x][..2] == [j, g] && [j, g][..1] == [j] && [j][..0] == [];
    assert StableSort(AccentCompare, [j]) == [j];
    assert Compare(AccentCompare, j, g) > 0;
    assert Insert(AccentCompare, [j], g) == Insert(AccentCompare, [], g) + [j];
    assert StableSort(AccentCompare, [j, g]) == [g, j];
    assert Compare(AccentCompare, j, x) > 0 && Compare(AccentCompare, g, x) < 0;
    assert [g, j][..1] == [g];
    assert Insert(AccentCompare, [g], x) == [g, x];
  }

  /** The query "O" is the letter 'o' once folded. */
  lemma MatchesO(e: FilterElem)
    ensures Matches(e, "O") <==> 'o' in Lower(e.value)
  {
    assert Lower("O") == "o";
    IncludesChar(Lower(e.value), 'o');
  }

  /** A value none of whose characters folds to 'o' has no 'o' once folded. */
  lemma NoFoldedO(s: string)
    requires forall i :: 0 <= i < |s| ==> LowerChar(s[i]) != 'o'
    ensures 'o' !in Lower(s)
  {
  }

  /** Matching folds the case of both sides: "O" occurs in "Go" only. */
  lemma MatchesOfThree(java: FilterElem, go: FilterElem, apex: FilterElem)
    requires java.value == "Java" && go.value == "Go" && apex.value == "apex"
    ensures Matches(go, "O") && !Matches(apex, "O") && !Matches(java, "O")
  {
    MatchesO(go);
    MatchesO(apex);
    MatchesO(java);
    assert Lower("Go")[1] == 'o';
    NoFoldedO("apex");
    NoFoldedO("Java");
  }

  /** The query "O" shows "Go" only, and the count beside the search bar is 1. */
  lemma SearchOneTag(java: FilterElem, go: FilterElem, apex: FilterElem)
    requires java.value == "Java" && go.value == "Go" && apex.value == "apex"
    ensures FilterByQuery([go, apex, java], "O") == [go]
    ensures GetFilterResultCount([go, apex, java], "O") == 1
  {
    MatchesOfThree(java, go, apex);
    assert [java][1..] == [];
    assert FilterByQuery([java], "O") == [];
    assert [apex, java][1..] == [java];
    assert FilterByQuery([apex, java], "O") == [];
    assert [go, apex, java][1..] == [apex, java];
  }
}
