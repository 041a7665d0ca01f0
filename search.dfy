/** The tag search: the tag list shows the entries whose lower-cased value
    contains the lower-cased query, in their order, and the search bar shows
    how many there are (`getFilterResultCount`). */
module TagSearch {
  import opened Text
  import opened Entries

  /** `value.toLowerCase().includes(query.toLowerCase())` */
  predicate Matches(e: FilterElem, query: string): (b: bool)
    ensures query == "" ==> b
    ensures b ==> |query| <= |e.value|
  {
    Includes(Lower(e.value), Lower(query))
  }

  /** `entries.filter(e => Matches(e, query))` */
  function FilterByQuery(s: seq<FilterElem>, query: string): (r: seq<FilterElem>)
    ensures |r| <= |s|
    ensures IsSubseq(r, s)
    ensures forall k :: 0 <= k < |r| ==> r[k] in s && Matches(r[k], query)
    ensures forall k :: 0 <= k < |s| ==> (s[k] in r <==> Matches(s[k], query))
  {
    if s == [] then []
    else
      var rest := FilterByQuery(s[1..], query);
      assert forall k :: 1 <= k < |s| ==> s[k] == s[1..][k - 1];
      if Matches(s[0], query) then
        assert ([s[0]] + rest)[1..] == rest;
        [s[0]] + rest
      else rest
  }

  /** The indices of the entries the query matches. */
  ghost function MatchingIndices(s: seq<FilterElem>, query: string): set<nat>
  {
    set k: nat | k < |s| && Matches(s[k], query)
  }

  /** `getFilterResultCount`: the length of the filtered list. */
  function GetFilterResultCount(s: seq<FilterElem>, query: string): (n: nat)
    ensures n <= |s|
    ensures n == |MatchingIndices(s, query)|
  {
    FilterCountsMatches(s, query);
    |FilterByQuery(s, query)|
  }

  /** Adding one to every element of a set of naturals. */
  ghost function Succs(a: set<nat>): set<nat>
  {
    set k: nat | k in a :: k + 1
  }

  /** ... keeps its size. */
  lemma {:induction false} SuccsSize(a: set<nat>)
    ensures |Succs(a)| == |a|
    decreases |a|
  {
    if a != {} {
      var x :| x in a;
      var a' := a - {x};
      SuccsSize(a');
      assert Succs(a) == Succs(a') + {x + 1} by {
        forall y | y in Succs(a) ensures y in Succs(a') + {x + 1} {
          var k: nat :| k in a && y == k + 1;
          if k != x { assert k in a'; }
        }
        assert x + 1 in Succs(a);
        forall y | y in Succs(a') ensures y in Succs(a) {
          var k: nat :| k in a' && y == k + 1;
          assert k in a;
        }
      }
      assert x + 1 !in Succs(a');
    }
  }

  /** The matches in `s` past its first entry are those in `s[1..]`, one
      index further. */
  lemma MatchingIndicesTail(s: seq<FilterElem>, query: string)
    requires s != []
    ensures MatchingIndices(s, query) - {0} == Succs(MatchingIndices(s[1..], query))
  {
    var m, m' := MatchingIndices(s, query), MatchingIndices(s[1..], query);
    forall k: nat | k in m - {0} ensures k in Succs(m') {
      assert s[1..][k - 1] == s[k];
      assert k - 1 in m';
    }
    forall k | k in Succs(m') ensures k in m - {0} {
      var k': nat :| k' in m' && k == k' + 1;
      assert s[1..][k'] == s[k];
    }
  }

  /** Removing `0` from a set of naturals drops its size by one exactly when
      `0` was in it. */
  lemma WithoutZeroSize(m: set<nat>)
    ensures |m| == |m - {0}| + (if 0 in m then 1 else 0)
  {
    if 0 in m {
      assert m == (m - {0}) + {0};
    } else {
      assert m == m - {0};
    }
  }

  /** The filtered list has one entry per matching index. */
  lemma {:induction false} FilterCountsMatches(s: seq<FilterElem>, query: string)
    ensures |FilterByQuery(s, query)| == |MatchingIndices(s, query)|
    decreases |s|
  {
    if s != [] {
      var m, m' := MatchingIndices(s, query), MatchingIndices(s[1..], query);
      FilterCountsMatches(s[1..], query);
      SuccsSize(m');
      MatchingIndicesTail(s, query);
      WithoutZeroSize(m);
      assert 0 in m <==> Matches(s[0], query);
    }
  }

  /** Every string contains the empty string, so the empty query keeps
      every entry and the count is the length. */
  lemma {:induction false} EmptyQueryKeepsAll(s: seq<FilterElem>)
    ensures FilterByQuery(s, "") == s
    ensures GetFilterResultCount(s, "") == |s|
    decreases |s|
  {
    if s != [] {
      assert Lower("") == "";
      assert StartsWith(Lower(s[0].value), "");
      EmptyQueryKeepsAll(s[1..]);
    }
  }

  /** The query is folded to lower case first, so its case does not matter. */
  lemma MatchesIgnoresQueryCase(e: FilterElem, query: string)
    ensures Matches(e, query) <==> Matches(e, Lower(query))
  {
    LowerIdempotent(query);
  }

  /** Filtering a concatenation filters each part. */
  lemma {:induction false} FilterAppend(s: seq<FilterElem>, t: seq<FilterElem>, query: string)
    ensures FilterByQuery(s + t, query) == FilterByQuery(s, query) + FilterByQuery(t, query)
    decreases |s|
  {
    if s == [] {
      assert s + t == t;
    } else {
      assert (s + t)[0] == s[0] && (s + t)[1..] == s[1..] + t;
      FilterAppend(s[1..], t, query);
    }
  }

  /** Filtering twice with the same query is filtering once. */
  lemma {:induction false} FilterIdempotent(s: seq<FilterElem>, query: string)
    ensures FilterByQuery(FilterByQuery(s, query), query) == FilterByQuery(s, query)
    decreases |s|
  {
    if s != [] {
      FilterIdempotent(s[1..], query);
      if Matches(s[0], query) {
        var rest := FilterByQuery(s[1..], query);
        assert ([s[0]] + rest)[1..] == rest;
      }
    }
  }
}
