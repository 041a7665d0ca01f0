/** `sortFilterDataArr`: the entries are sorted in place with
    `Array.prototype.sort` and a two-key comparator (checked entries first,
    then by collation of `value`), and the same array is returned.

    ECMA-262 (section 23.1.3.30) fixes the result of a sort by a consistent
    comparator, not the algorithm: the result is ordered, is a permutation of
    the input, and is stable.  `StableSort` is an insertion sort written as a
    function; `StableSortIsTheOnlyStableOrder` shows that every ordered, stable
    permutation of the input is equal to it, so nothing depends on the choice
    of algorithm.

    The comparator reads `state`, a mutable field, so the theory is stated on
    `Keyed` values: an entry together with the state it has while the sort
    runs (the sort itself changes no entry). */
module Sorting {
  import opened Entries
  import opened Collation

  /** An entry and the checkbox state the comparator sees. */
  datatype Keyed = Keyed(elem: FilterElem, state: bool)

  /** The entries of `s` with their current states. */
  ghost function Snapshot(s: seq<FilterElem>): (r: seq<Keyed>)
    reads s
    ensures |r| == |s|
  {
    if s == [] then [] else [Keyed(s[0], s[0].state)] + Snapshot(s[1..])
  }

  /** Entry `i` of the snapshot is entry `i` with its current state. */
  lemma {:induction false} SnapshotIndex(s: seq<FilterElem>)
    ensures forall i :: 0 <= i < |s| ==> Snapshot(s)[i] == Keyed(s[i], s[i].state)
    decreases |s|
  {
    if s != [] {
      SnapshotIndex(s[1..]);
      forall i | 1 <= i < |s| ensures Snapshot(s)[i] == Keyed(s[i], s[i].state) {
        assert Snapshot(s)[i] == Snapshot(s[1..])[i - 1];
        assert s[1..][i - 1] == s[i];
      }
    }
  }

  /** The entries, forgetting the states. */
  function Elems(k: seq<Keyed>): seq<FilterElem>
  {
    seq(|k|, i requires 0 <= i < |k| => k[i].elem)
  }

  lemma ElemsOfSnapshot(s: seq<FilterElem>)
    ensures Elems(Snapshot(s)) == s
  {
    var k := Snapshot(s);
    SnapshotIndex(s);
    assert |Elems(k)| == |s|;
    forall i | 0 <= i < |s| ensures Elems(k)[i] == s[i] {
      assert k[i] == Keyed(s[i], s[i].state);
    }
  }

  lemma MultisetWithout<T>(s: seq<T>, m: nat)
    requires m < |s|
    ensures multiset(s[..m] + s[m + 1..]) == multiset(s) - multiset{s[m]}
  {
    assert s == s[..m] + [s[m]] + s[m + 1..];
  }

  lemma ElemsWithout(k: seq<Keyed>, m: nat)
    requires m < |k|
    ensures Elems(k[..m] + k[m + 1..]) == Elems(k)[..m] + Elems(k)[m + 1..]
    ensures Elems(k)[m] == k[m].elem
  {
  }

  /** Rearranging the keyed entries rearranges the entries. */
  lemma {:induction false} ElemsPermutation(k1: seq<Keyed>, k2: seq<Keyed>)
    requires multiset(k1) == multiset(k2)
    ensures multiset(Elems(k1)) == multiset(Elems(k2))
    decreases |k1|
  {
    if k1 == [] {
      assert |k2| == |multiset(k2)| == 0;
    } else {
      var x := k1[0];
      assert x in multiset(k2);
      var m :| 0 <= m < |k2| && k2[m] == x;
      var rest := k2[..m] + k2[m + 1..];
      MultisetWithout(k2, m);
      assert k1 == [x] + k1[1..];
      ElemsPermutation(k1[1..], rest);
      ElemsWithout(k2, m);
      MultisetWithout(Elems(k2), m);
      assert Elems(k1) == [x.elem] + Elems(k1[1..]);
    }
  }

  /** The comparator passed to `sort`. */
  function Compare(cmp: (string, string) -> int, a: Keyed, b: Keyed): (r: int)
    ensures a.state != b.state ==> (r < 0 <==> a.state) && r != 0
    ensures a.state == b.state ==> r == cmp(a.elem.value, b.elem.value)
  {
    if a.state == b.state then cmp(a.elem.value, b.elem.value)
    else if a.state && !b.state then -1
    else 1
  }

  /** The same comparator on the entries themselves, as the sort calls it. */
  function CompareElems(cmp: (string, string) -> int, a: FilterElem, b: FilterElem): (r: int)
    reads a, b
    ensures a.state != b.state ==> (r < 0 <==> a.state) && r != 0
    ensures a.state == b.state ==> r == cmp(a.value, b.value)
  {
    Compare(cmp, Keyed(a, a.state), Keyed(b, b.state))
  }

  /** With a collation underneath, the two-key comparator is itself a
      consistent comparator (a total preorder). */
  lemma CompareIsConsistent(cmp: (string, string) -> int, a: Keyed, b: Keyed, c: Keyed)
    requires IsCollation(cmp)
    ensures Compare(cmp, a, a) == 0
    ensures Compare(cmp, a, b) < 0 <==> Compare(cmp, b, a) > 0
    ensures Compare(cmp, a, b) <= 0 && Compare(cmp, b, c) <= 0 ==> Compare(cmp, a, c) <= 0
  {
  }

  /** Every entry may precede every later one. */
  ghost predicate Ordered(cmp: (string, string) -> int, s: seq<Keyed>)
  {
    forall i, j :: 0 <= i < j < |s| ==> Compare(cmp, s[i], s[j]) <= 0
  }

  /** The entries of `s` that compare equal to `e`, in their order in `s`.
      A sort is stable when it leaves every such class as it was. */
  ghost function KeyClass(cmp: (string, string) -> int, s: seq<Keyed>, e: Keyed): seq<Keyed>
  {
    if s == [] then []
    else KeyClass(cmp, s[..|s| - 1], e) + (if Compare(cmp, e, s[|s| - 1]) == 0 then [s[|s| - 1]] else [])
  }

  /** Insert `x` behind the last entry of `p` that may precede it. */
  ghost function Insert(cmp: (string, string) -> int, p: seq<Keyed>, x: Keyed): (r: seq<Keyed>)
    ensures |r| == |p| + 1
  {
    if p == [] || Compare(cmp, p[|p| - 1], x) <= 0 then p + [x]
    else Insert(cmp, p[..|p| - 1], x) + [p[|p| - 1]]
  }

  lemma {:induction false} InsertPermutes(cmp: (string, string) -> int, p: seq<Keyed>, x: Keyed)
    ensures multiset(Insert(cmp, p, x)) == multiset(p) + multiset{x}
  {
    if !(p == [] || Compare(cmp, p[|p| - 1], x) <= 0) {
      assert p == p[..|p| - 1] + [p[|p| - 1]];
      InsertPermutes(cmp, p[..|p| - 1], x);
    }
  }

  /** The sort of a longer prefix inserts one more entry. */
  lemma StableSortSnoc(cmp: (string, string) -> int, s: seq<Keyed>, i: nat)
    requires i < |s|
    ensures StableSort(cmp, s[..i + 1]) == Insert(cmp, StableSort(cmp, s[..i]), s[i])
  {
    assert s[..i + 1][..i] == s[..i];
  }

  /** The stable sort of `s`: insertion of each entry, left to right. */
  ghost function StableSort(cmp: (string, string) -> int, s: seq<Keyed>): (r: seq<Keyed>)
    ensures |r| == |s|
  {
    if s == [] then [] else Insert(cmp, StableSort(cmp, s[..|s| - 1]), s[|s| - 1])
  }

  /** The stable sort is a permutation of its input. */
  lemma {:induction false} StableSortPermutes(cmp: (string, string) -> int, s: seq<Keyed>)
    ensures multiset(StableSort(cmp, s)) == multiset(s)
  {
    if s != [] {
      assert s == s[..|s| - 1] + [s[|s| - 1]];
      StableSortPermutes(cmp, s[..|s| - 1]);
      InsertPermutes(cmp, StableSort(cmp, s[..|s| - 1]), s[|s| - 1]);
    }
  }

  // ---------------------------------------------------------------- ordering

  lemma {:induction false} InsertOrdered(cmp: (string, string) -> int, p: seq<Keyed>, x: Keyed)
    requires IsCollation(cmp) && Ordered(cmp, p)
    ensures Ordered(cmp, Insert(cmp, p, x))
  {
    var r := Insert(cmp, p, x);
    if p == [] || Compare(cmp, p[|p| - 1], x) <= 0 {
      forall i, j | 0 <= i < j < |r| ensures Compare(cmp, r[i], r[j]) <= 0 {
        if j == |p| && i < |p| - 1 {
          assert Compare(cmp, p[i], p[|p| - 1]) <= 0;
        }
      }
    } else {
      var p', y := p[..|p| - 1], p[|p| - 1];
      InsertOrdered(cmp, p', x);
      InsertPermutes(cmp, p', x);
      var q := Insert(cmp, p', x);
      assert r == q + [y];
      forall i | 0 <= i < |q| ensures Compare(cmp, q[i], y) <= 0 {
        assert q[i] in multiset(q);
        if q[i] != x {
          var k :| 0 <= k < |p'| && p'[k] == q[i];
          assert Compare(cmp, p[k], p[|p| - 1]) <= 0;
        }
      }
    }
  }

  /** The stable sort is ordered. */
  lemma {:induction false} StableSortOrdered(cmp: (string, string) -> int, s: seq<Keyed>)
    requires IsCollation(cmp)
    ensures Ordered(cmp, StableSort(cmp, s))
  {
    if s != [] {
      StableSortOrdered(cmp, s[..|s| - 1]);
      InsertOrdered(cmp, StableSort(cmp, s[..|s| - 1]), s[|s| - 1]);
    }
  }

  // --------------------------------------------------------------- stability

  lemma {:induction false} KeyClassAppend(cmp: (string, string) -> int, s: seq<Keyed>, t: seq<Keyed>, e: Keyed)
    ensures KeyClass(cmp, s + t, e) == KeyClass(cmp, s, e) + KeyClass(cmp, t, e)
    decreases |t|
  {
    if t == [] {
      assert s + t == s;
    } else {
      var t' := t[..|t| - 1];
      assert (s + t)[..|s + t| - 1] == s + t';
      KeyClassAppend(cmp, s, t', e);
    }
  }

  lemma {:induction false} InsertStable(cmp: (string, string) -> int, p: seq<Keyed>, x: Keyed, e: Keyed)
    requires IsCollation(cmp)
    ensures KeyClass(cmp, Insert(cmp, p, x), e) == KeyClass(cmp, p + [x], e)
  {
    if !(p == [] || Compare(cmp, p[|p| - 1], x) <= 0) {
      var p', y := p[..|p| - 1], p[|p| - 1];
      var q := Insert(cmp, p', x);
      InsertStable(cmp, p', x, e);
      calc {
        KeyClass(cmp, Insert(cmp, p, x), e);
        { assert Insert(cmp, p, x) == q + [y]; KeyClassAppend(cmp, q, [y], e); }
        KeyClass(cmp, q, e) + KeyClass(cmp, [y], e);
        KeyClass(cmp, p' + [x], e) + KeyClass(cmp, [y], e);
        { KeyClassAppend(cmp, p', [x], e); }
        KeyClass(cmp, p', e) + KeyClass(cmp, [x], e) + KeyClass(cmp, [y], e);
        { CompareIsConsistent(cmp, y, e, x);
          CompareIsConsistent(cmp, e, y, x);
          assert KeyClass(cmp, [x], e) == [] || KeyClass(cmp, [y], e) == []; }
        KeyClass(cmp, p', e) + KeyClass(cmp, [y], e) + KeyClass(cmp, [x], e);
        { KeyClassAppend(cmp, p', [y], e); assert p' + [y] == p; }
        KeyClass(cmp, p, e) + KeyClass(cmp, [x], e);
        { KeyClassAppend(cmp, p, [x], e); }
        KeyClass(cmp, p + [x], e);
      }
    }
  }

  /** The stable sort keeps every class of equal-comparing entries in input order. */
  lemma {:induction false} StableSortStable(cmp: (string, string) -> int, s: seq<Keyed>, e: Keyed)
    requires IsCollation(cmp)
    ensures KeyClass(cmp, StableSort(cmp, s), e) == KeyClass(cmp, s, e)
  {
    if s != [] {
      var s', x := s[..|s| - 1], s[|s| - 1];
      var q := StableSort(cmp, s');
      assert StableSort(cmp, s) == Insert(cmp, q, x);
      InsertStable(cmp, q, x, e);
      KeyClassAppend(cmp, q, [x], e);
      StableSortStable(cmp, s', e);
      assert KeyClass(cmp, s, e) == KeyClass(cmp, s', e) + KeyClass(cmp, [x], e);
    }
  }

  // -------------------------------------------------------------- uniqueness

  /** The last entries of two ordered sequences with the same entries compare equal. */
  lemma LastEntriesCompareEqual(cmp: (string, string) -> int, s: seq<Keyed>, t: seq<Keyed>)
    requires IsCollation(cmp)
    requires Ordered(cmp, s) && Ordered(cmp, t)
    requires multiset(s) == multiset(t) && s != []
    ensures |t| == |s| && Compare(cmp, s[|s| - 1], t[|t| - 1]) == 0
  {
    assert |t| == |multiset(t)| == |s|;
    var n := |s|;
    var x, y := s[n - 1], t[n - 1];
    assert y in multiset(s);
    var k :| 0 <= k < n && s[k] == y;
    assert k < n - 1 ==> Compare(cmp, s[k], s[n - 1]) <= 0;
    assert x in multiset(t);
    var m :| 0 <= m < n && t[m] == x;
    assert m < n - 1 ==> Compare(cmp, t[m], t[n - 1]) <= 0;
  }

  /** Dropping the same last entry from two sequences with equal classes
      leaves them with equal classes. */
  lemma DropLastKeepsClasses(cmp: (string, string) -> int, s': seq<Keyed>, t': seq<Keyed>, x: Keyed)
    requires forall e :: KeyClass(cmp, s' + [x], e) == KeyClass(cmp, t' + [x], e)
    ensures forall e :: KeyClass(cmp, s', e) == KeyClass(cmp, t', e)
  {
    forall e ensures KeyClass(cmp, s', e) == KeyClass(cmp, t', e) {
      assert (s' + [x])[..|s'|] == s';
      assert (t' + [x])[..|t'|] == t';
      var cs := KeyClass(cmp, s' + [x], e);
      var tail := if Compare(cmp, e, x) == 0 then [x] else [];
      assert cs == KeyClass(cmp, s', e) + tail;
      assert cs == KeyClass(cmp, t', e) + tail;
      assert KeyClass(cmp, s', e) == cs[..|cs| - |tail|];
      assert KeyClass(cmp, t', e) == cs[..|cs| - |tail|];
    }
  }

  /** When the last entries compare equal and the classes agree, the last
      entries are the same: each is the last of its class. */
  lemma LastEntriesEqual(cmp: (string, string) -> int, s: seq<Keyed>, t: seq<Keyed>)
    requires IsCollation(cmp)
    requires |s| == |t| > 0 && Compare(cmp, s[|s| - 1], t[|t| - 1]) == 0
    requires KeyClass(cmp, s, s[|s| - 1]) == KeyClass(cmp, t, s[|s| - 1])
    ensures s[|s| - 1] == t[|t| - 1]
  {
    var x, y := s[|s| - 1], t[|t| - 1];
    var cs, ct := KeyClass(cmp, s, x), KeyClass(cmp, t, x);
    assert cs == KeyClass(cmp, s[..|s| - 1], x) + [x];
    assert ct == KeyClass(cmp, t[..|t| - 1], x) + [y];
  }

  lemma DropLast(cmp: (string, string) -> int, s: seq<Keyed>)
    requires s != [] && Ordered(cmp, s)
    ensures s == s[..|s| - 1] + [s[|s| - 1]]
    ensures multiset(s[..|s| - 1]) == multiset(s) - multiset{s[|s| - 1]}
    ensures Ordered(cmp, s[..|s| - 1])
  {
    assert s == s[..|s| - 1] + [s[|s| - 1]];
  }

  /** Two ordered sequences with the same entries and the same classes of
      equal-comparing entries are equal. */
  lemma {:induction false} OrderedStableUnique(cmp: (string, string) -> int, s: seq<Keyed>, t: seq<Keyed>)
    requires IsCollation(cmp)
    requires Ordered(cmp, s) && Ordered(cmp, t)
    requires multiset(s) == multiset(t)
    requires forall e :: KeyClass(cmp, s, e) == KeyClass(cmp, t, e)
    ensures s == t
    decreases |s|
  {
    if s == [] {
      assert |t| == |multiset(t)| == 0;
    } else {
      LastEntriesCompareEqual(cmp, s, t);
      var n := |s|;
      LastEntriesEqual(cmp, s, t);
      DropLast(cmp, s);
      DropLast(cmp, t);
      DropLastKeepsClasses(cmp, s[..n - 1], t[..n - 1], s[n - 1]);
      OrderedStableUnique(cmp, s[..n - 1], t[..n - 1]);
    }
  }

  /** Whatever stable sorting algorithm runs underneath, its result is `StableSort`. */
  lemma StableSortIsTheOnlyStableOrder(cmp: (string, string) -> int, s: seq<Keyed>, t: seq<Keyed>)
    requires IsCollation(cmp)
    requires Ordered(cmp, t) && multiset(t) == multiset(s)
    requires forall e :: KeyClass(cmp, t, e) == KeyClass(cmp, s, e)
    ensures t == StableSort(cmp, s)
  {
    StableSortOrdered(cmp, s);
    StableSortPermutes(cmp, s);
    forall e ensures KeyClass(cmp, StableSort(cmp, s), e) == KeyClass(cmp, t, e) {
      StableSortStable(cmp, s, e);
    }
    OrderedStableUnique(cmp, StableSort(cmp, s), t);
  }

  /** Sorting an already ordered collection changes nothing ... */
  lemma StableSortOfOrdered(cmp: (string, string) -> int, s: seq<Keyed>)
    requires IsCollation(cmp) && Ordered(cmp, s)
    ensures StableSort(cmp, s) == s
  {
    StableSortIsTheOnlyStableOrder(cmp, s, s);
  }

  /** ... so sorting twice is sorting once. */
  lemma StableSortIdempotent(cmp: (string, string) -> int, s: seq<Keyed>)
    requires IsCollation(cmp)
    ensures StableSort(cmp, StableSort(cmp, s)) == StableSort(cmp, s)
  {
    StableSortOrdered(cmp, s);
    StableSortOfOrdered(cmp, StableSort(cmp, s));
  }

  /** What the sort promises, collected for the method's postcondition. */
  lemma StableSortProperties(cmp: (string, string) -> int, s: seq<Keyed>)
    requires IsCollation(cmp)
    ensures Ordered(cmp, StableSort(cmp, s))
    ensures forall e :: KeyClass(cmp, StableSort(cmp, s), e) == KeyClass(cmp, s, e)
    ensures Ordered(cmp, s) ==> StableSort(cmp, s) == s
  {
    StableSortOrdered(cmp, s);
    forall e ensures KeyClass(cmp, StableSort(cmp, s), e) == KeyClass(cmp, s, e) {
      StableSortStable(cmp, s, e);
    }
    if Ordered(cmp, s) {
      StableSortOfOrdered(cmp, s);
    }
  }

  /** In an ordered collection no unchecked entry precedes a checked one, and
      neighbours with the same state are in collation order. */
  lemma OrderedMeansCheckedFirst(cmp: (string, string) -> int, s: seq<Keyed>)
    requires Ordered(cmp, s)
    ensures forall i, j :: 0 <= i < j < |s| && s[j].state ==> s[i].state
    ensures forall i :: 0 <= i < |s| - 1 && s[i].state == s[i + 1].state ==>
      cmp(s[i].elem.value, s[i + 1].elem.value) <= 0
  {
    forall i, j | 0 <= i < j < |s| && s[j].state ensures s[i].state {
      assert Compare(cmp, s[i], s[j]) <= 0;
    }
    forall i | 0 <= i < |s| - 1 && s[i].state == s[i + 1].state
      ensures cmp(s[i].elem.value, s[i + 1].elem.value) <= 0
    {
      assert Compare(cmp, s[i], s[i + 1]) <= 0;
    }
  }

  // ------------------------------------------------------------ the method

  lemma SpliceBeforeLast<T>(p: seq<T>, x: T, j: nat)
    requires j < |p|
    ensures p[..|p| - 1][..j] + [x] + p[..|p| - 1][j..] + [p[|p| - 1]] == p[..j] + [x] + p[j..]
  {
    var p' := p[..|p| - 1];
    assert p'[..j] == p[..j];
    assert p'[j..] + [p[|p| - 1]] == p[j..];
  }

  /** Inserting `x` into `p` lands it at `j` when everything from `j` on
      must follow it and the entry before `j` (if any) may precede it. */
  lemma {:induction false} InsertAt(cmp: (string, string) -> int, p: seq<Keyed>, x: Keyed, j: nat)
    requires j <= |p|
    requires forall k :: j <= k < |p| ==> Compare(cmp, p[k], x) > 0
    requires j == 0 || Compare(cmp, p[j - 1], x) <= 0
    ensures Insert(cmp, p, x) == p[..j] + [x] + p[j..]
    decreases |p| - j
  {
    if j < |p| {
      var p', y := p[..|p| - 1], p[|p| - 1];
      assert Compare(cmp, y, x) > 0;
      assert Insert(cmp, p, x) == Insert(cmp, p', x) + [y];
      forall k | j <= k < |p'| ensures Compare(cmp, p'[k], x) > 0 {
        assert p'[k] == p[k];
      }
      assert j > 0 ==> p'[j - 1] == p[j - 1];
      InsertAt(cmp, p', x, j);
      SpliceBeforeLast(p, x, j);
    } else {
      assert p[..j] == p && p[j..] == [];
    }
  }

  /** `s` with `s[i]` moved to index `j` and `s[j..i]` one place right. */
  function Shifted<T>(s: seq<T>, j: nat, i: nat): (r: seq<T>)
    requires j <= i < |s|
    ensures |r| == |s|
    ensures forall k :: 0 <= k < j ==> r[k] == s[k]
    ensures r[j] == s[i]
    ensures forall k :: j < k <= i ==> r[k] == s[k - 1]
    ensures forall k :: i < k < |s| ==> r[k] == s[k]
  {
    s[..j] + [s[i]] + s[j..i] + s[i + 1..]
  }

  /** Moving entries and taking their snapshot commute. */
  lemma SnapshotShifted(s: seq<FilterElem>, j: nat, i: nat)
    requires j <= i < |s|
    ensures Snapshot(Shifted(s, j, i)) == Shifted(Snapshot(s), j, i)
  {
    var t, ks := Shifted(s, j, i), Snapshot(s);
    var l, r := Snapshot(t), Shifted(ks, j, i);
    SnapshotIndex(s);
    SnapshotIndex(t);
    forall k | 0 <= k < |s| ensures l[k] == r[k] {
      var m := if k < j || i < k then k else if k == j then i else k - 1;
      assert t[k] == s[m] && r[k] == ks[m];
    }
  }

  /** After the shifting loop of `InsertLast` the prefix holds `Insert`'s
      result and the suffix is untouched. */
  lemma ShiftedKeys(cmp: (string, string) -> int, keys: seq<Keyed>, j: nat, i: nat)
    requires j <= i < |keys|
    requires forall k :: j <= k < i ==> Compare(cmp, keys[k], keys[i]) > 0
    requires j == 0 || Compare(cmp, keys[j - 1], keys[i]) <= 0
    ensures Shifted(keys, j, i)[..i + 1] == Insert(cmp, keys[..i], keys[i])
    ensures Shifted(keys, j, i)[i + 1..] == keys[i + 1..]
  {
    var kt := Shifted(keys, j, i);
    var p, x := keys[..i], keys[i];
    InsertAt(cmp, p, x, j);
    var q := p[..j] + [x] + p[j..];
    forall k | 0 <= k <= i ensures kt[k] == q[k] {
      if k < j {
        assert q[k] == p[k];
      } else if k > j {
        assert q[k] == p[k - 1];
      }
    }
    assert kt[..i + 1] == q;
  }

  /** The comparisons the shifting loop made, on the keyed entries. */
  lemma ShiftedComparisons(cmp: (string, string) -> int, s: seq<FilterElem>, j: nat, i: nat)
    requires j <= i < |s|
    requires forall k :: j <= k < i ==> CompareElems(cmp, s[k], s[i]) > 0
    requires j == 0 || CompareElems(cmp, s[j - 1], s[i]) <= 0
    ensures forall k :: j <= k < i ==> Compare(cmp, Snapshot(s)[k], Snapshot(s)[i]) > 0
    ensures j == 0 || Compare(cmp, Snapshot(s)[j - 1], Snapshot(s)[i]) <= 0
  {
    var keys := Snapshot(s);
    SnapshotIndex(s);
    forall k | j <= k < i ensures Compare(cmp, keys[k], keys[i]) > 0 {
      assert CompareElems(cmp, s[k], s[i]) > 0;
    }
  }

  /** Scans the sorted prefix `a[..i]` from its end for the place of `a[i]`:
      the entries from `j` to `i - 1` must follow it, the one before `j` (if
      any) may precede it. */
  method FindSlot(cmp: (string, string) -> int, a: array<FilterElem>, i: nat) returns (j: nat)
    requires i < a.Length
    ensures j <= i
    ensures forall k :: j <= k < i ==> CompareElems(cmp, a[k], a[i]) > 0
    ensures j == 0 || CompareElems(cmp, a[j - 1], a[i]) <= 0
  {
    j := i;
    while j > 0 && CompareElems(cmp, a[j - 1], a[i]) > 0
      invariant 0 <= j <= i
      invariant forall k :: j <= k < i ==> CompareElems(cmp, a[k], a[i]) > 0
    {
      j := j - 1;
    }
  }

  /** Moves `a[i]` to index `j`, shifting `a[j..i]` one place right. */
  method ShiftInto(a: array<FilterElem>, j: nat, i: nat)
    requires j <= i < a.Length
    modifies a
    ensures a[..] == Shifted(old(a[..]), j, i)
  {
    ghost var s := a[..];
    var x := a[i];
    var k := i;
    while k > j
      invariant j <= k <= i
      invariant forall m :: 0 <= m <= k ==> a[m] == s[m]
      invariant forall m :: k < m <= i ==> a[m] == s[m - 1]
      invariant forall m :: i < m < a.Length ==> a[m] == s[m]
    {
      a[k] := a[k - 1];
      k := k - 1;
    }
    a[j] := x;
    assert a[..] == Shifted(s, j, i);
  }

  /** One step of the insertion sort: finds the place `j` of `a[i]` in the
      sorted prefix `a[..i]`, shifts the entries from there one place right
      and drops `a[i]` into the gap; `s` is the array before. */
  method InsertLast(cmp: (string, string) -> int, a: array<FilterElem>, i: nat, ghost s: seq<FilterElem>)
    returns (j: nat)
    requires i < a.Length && s == a[..]
    modifies a
    ensures j <= i && a[..] == Shifted(s, j, i)
    ensures forall k :: j <= k < i ==> CompareElems(cmp, s[k], s[i]) > 0
    ensures j == 0 || CompareElems(cmp, s[j - 1], s[i]) <= 0
  {
    j := FindSlot(cmp, a, i);
    ShiftInto(a, j, i);
  }

  /** No unchecked entry comes before a checked one. */
  ghost predicate CheckedFirst(s: seq<FilterElem>)
    reads s
  {
    forall i, j :: 0 <= i < j < |s| && s[j].state ==> s[i].state
  }

  /** Neighbours with the same state are in collation order of their values. */
  ghost predicate SameStateInOrder(cmp: (string, string) -> int, s: seq<FilterElem>)
    reads s
  {
    forall i :: 0 <= i < |s| - 1 && s[i].state == s[i + 1].state ==> cmp(s[i].value, s[i + 1].value) <= 0
  }

  /** The postcondition of `SortFilterDataArr`, from the keyed result. */
  lemma SortResult(cmp: (string, string) -> int, before: seq<FilterElem>, after: seq<FilterElem>,
                   input: seq<Keyed>, keys: seq<Keyed>)
    requires IsCollation(cmp)
    requires input == Snapshot(before) && keys == Snapshot(after)
    requires keys == StableSort(cmp, input)
    ensures multiset(after) == multiset(before)
    ensures Ordered(cmp, keys)
    ensures CheckedFirst(after) && SameStateInOrder(cmp, after)
    ensures forall e :: KeyClass(cmp, keys, e) == KeyClass(cmp, input, e)
    ensures Ordered(cmp, input) ==> after == before
  {
    StableSortProperties(cmp, input);
    OrderedMeansCheckedFirst(cmp, keys);
    SnapshotIndex(after);
    ElemsOfSnapshot(after);
    ElemsOfSnapshot(before);
    StableSortPermutes(cmp, input);
    ElemsPermutation(keys, input);
  }

  /** The outer loop of `SortInPlace` after one more insertion. */
  lemma SortStep(cmp: (string, string) -> int, input: seq<Keyed>, keys: seq<Keyed>, keys': seq<Keyed>, i: nat)
    requires i < |input| == |keys| == |keys'|
    requires keys[..i] == StableSort(cmp, input[..i]) && keys[i..] == input[i..]
    requires keys'[..i + 1] == Insert(cmp, keys[..i], keys[i]) && keys'[i + 1..] == keys[i + 1..]
    ensures keys'[..i + 1] == StableSort(cmp, input[..i + 1]) && keys'[i + 1..] == input[i + 1..]
  {
    StableSortSnoc(cmp, input, i);
    assert keys[i] == input[i];
    assert keys[i + 1..] == keys[i..][1..];
    assert input[i + 1..] == input[i..][1..];
  }

  /** `InsertLast` on the keyed entries: `keys` are the entries of `a`
      with their states, and they move exactly as `Insert` says. */
  method InsertKeyed(cmp: (string, string) -> int, a: array<FilterElem>, i: nat, ghost keys: seq<Keyed>)
    requires i < a.Length && keys == Snapshot(a[..])
    modifies a
    ensures Snapshot(a[..])[..i + 1] == Insert(cmp, keys[..i], keys[i])
    ensures Snapshot(a[..])[i + 1..] == keys[i + 1..]
  {
    ghost var before := a[..];
    var j := InsertLast(cmp, a, i, before);
    assert keys == Snapshot(before);
    ShiftedComparisons(cmp, before, j, i);
    ShiftedKeys(cmp, keys, j, i);
    SnapshotShifted(before, j, i);
  }

  /** The insertion sort behind `sortFilterDataArr`, on the array in place. */
  method SortInPlace(cmp: (string, string) -> int, a: array<FilterElem>)
    modifies a
    ensures Snapshot(a[..]) == StableSort(cmp, Snapshot(old(a[..])))
  {
    ghost var input := Snapshot(a[..]);
    ghost var keys := input;
    var i := 0;
    while i < a.Length
      invariant 0 <= i <= a.Length
      invariant keys == Snapshot(a[..])
      invariant keys[..i] == StableSort(cmp, input[..i])
      invariant keys[i..] == input[i..]
    {
      InsertKeyed(cmp, a, i, keys);
      ghost var keys' := Snapshot(a[..]);
      SortStep(cmp, input, keys, keys', i);
      keys := keys';
      i := i + 1;
    }
    assert keys == keys[..a.Length] && input == input[..a.Length];
    assert input == Snapshot(old(a[..]));
  }

  /** `sortFilterDataArr`: sorts `a` in place and returns it. */
  method SortFilterDataArr(cmp: (string, string) -> int, a: array<FilterElem>) returns (r: array<FilterElem>)
    requires IsCollation(cmp)
    modifies a
    ensures r == a
    ensures Snapshot(a[..]) == StableSort(cmp, Snapshot(old(a[..])))
    ensures multiset(a[..]) == multiset(old(a[..]))
    ensures Ordered(cmp, Snapshot(a[..]))
    ensures CheckedFirst(a[..]) && SameStateInOrder(cmp, a[..])
    ensures forall e :: KeyClass(cmp, Snapshot(a[..]), e) == KeyClass(cmp, Snapshot(old(a[..])), e)
    ensures Ordered(cmp, Snapshot(old(a[..]))) ==> a[..] == old(a[..])
  {
    SortInPlace(cmp, a);
    SortResult(cmp, old(a[..]), a[..], Snapshot(old(a[..])), Snapshot(a[..]));
    r := a;
  }
}
