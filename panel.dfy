/** The filter panel component: the tag and type collections it holds (the
    `tagsStateWithFreq` / `typesStateWithFreq` state of its parent, read and
    written through the setters it receives), the text of the tag search bar,
    and the handlers that change them.  The effect on `tagsStateWithFreq`
    re-sorts every new tag array in place; the type array is never sorted.
    Rendering is reduced to the list of tags shown and the count beside the
    search bar. */
module Panel {
  import opened Text
  import opened Entries
  import opened Collation
  import opened Sorting
  import opened Toggle
  import opened TagSearch

  class FilterPanel {
    var tags: array<FilterElem>
    var types: array<FilterElem>
    var tagSearchBarValue: string
    /** The collation behind `localeCompare(…, 'en', { sensitivity: 'accent' })`. */
    const cmp: (string, string) -> int

    ghost predicate Valid()
      reads this
    {
      IsCollation(cmp) && tags != types
    }

    /** Mounting: the state starts from the given collections and an empty
        search bar, and the effect sorts the tags. */
    constructor (cmp: (string, string) -> int, tags0: array<FilterElem>, types0: array<FilterElem>)
      requires IsCollation(cmp) && tags0 != types0
      modifies tags0
      ensures Valid() && this.cmp == cmp && tags == tags0 && types == types0 && tagSearchBarValue == ""
      ensures Snapshot(tags[..]) == StableSort(cmp, Snapshot(old(tags0[..])))
      ensures types[..] == old(types0[..])
    {
      this.cmp := cmp;
      tags := tags0;
      types := types0;
      tagSearchBarValue := "";
      new;
      TagsChanged(tags0);
    }

    /** The effect on `tagsStateWithFreq`: a new tag array is sorted in place
        and handed back to the setter, which keeps the same array. */
    method TagsChanged(a: array<FilterElem>)
      requires Valid() && a != types
      modifies this`tags, a
      ensures Valid() && tags == a
      ensures Snapshot(a[..]) == StableSort(cmp, Snapshot(old(a[..])))
      ensures CheckedFirst(a[..]) && SameStateInOrder(cmp, a[..])
      ensures multiset(a[..]) == multiset(old(a[..]))
    {
      tags := a;
      var sorted := SortFilterDataArr(cmp, tags);
      // The setter receives `sorted`, which is `a` itself: the state already
      // holds that array, so the store changes nothing.
      assert sorted == tags;
    }

    /** `onCheckboxTagsChange`: toggles the named tag in a copy of the tag
        array, which the effect then sorts.  `ok` is false when the handler
        throws because no tag has the name; then nothing changes. */
    method OnCheckboxTagsChange(name: string, state: bool) returns (ok: bool)
      requires Valid()
      modifies this`tags, Objects(tags)
      ensures Valid() && types == old(types) && tagSearchBarValue == old(tagSearchBarValue)
      ensures ok <==> FindIndex(old(tags[..]), name) != -1
      ensures !ok ==> tags == old(tags) && forall k :: 0 <= k < tags.Length ==> tags[k].state == old(tags[k].state)
      ensures ok ==>
        && fresh(tags)
        && multiset(tags[..]) == multiset(old(tags[..]))
        && Snapshot(tags[..]) == StableSort(cmp, Snapshot(old(tags[..])))
        && CheckedFirst(tags[..]) && SameStateInOrder(cmp, tags[..])
        && var target := old(tags[FindIndex(tags[..], name)]);
           forall k :: 0 <= k < old(tags.Length) ==>
             old(tags[k]).state == (if old(tags[k]) == target then state else old(tags[k].state))
    {
      var r := ToggleEntry(tags, name, state);
      if r.TypeError? {
        return false;
      }
      TagsChanged(r.copy);
      ok := true;
    }

    /** `onCheckboxTypesChange`: toggles the named type in a copy of the type
        array, which is stored as it is: types keep their order. */
    method OnCheckboxTypesChange(name: string, state: bool) returns (ok: bool)
      requires Valid()
      modifies this`types, Objects(types)
      ensures Valid() && tags == old(tags) && tags[..] == old(tags[..])
      ensures tagSearchBarValue == old(tagSearchBarValue)
      ensures ok <==> FindIndex(old(types[..]), name) != -1
      ensures !ok ==> types == old(types) && forall k :: 0 <= k < types.Length ==> types[k].state == old(types[k].state)
      ensures ok ==>
        && fresh(types)
        && types[..] == old(types[..])
        && var target := types[FindIndex(types[..], name)];
           forall k :: 0 <= k < types.Length ==>
             types[k].state == (if types[k] == target then state else old(types[k].state))
    {
      var r := ToggleEntry(types, name, state);
      if r.TypeError? {
        return false;
      }
      types := r.copy;
      ok := true;
    }

    /** `onSearchChange` (and the clear button, with the empty string). */
    method OnSearchChange(value: string)
      modifies this`tagSearchBarValue
      ensures tagSearchBarValue == value
    {
      tagSearchBarValue := value;
    }

    /** The tags listed under the search bar, in the order they are held. */
    function RenderedTags(): (r: seq<FilterElem>)
      reads this, tags
      ensures IsSubseq(r, tags[..])
      ensures forall k :: 0 <= k < tags.Length ==> (tags[k] in r <==> Matches(tags[k], tagSearchBarValue))
      ensures |r| == |MatchingIndices(tags[..], tagSearchBarValue)|
    {
      FilterCountsMatches(tags[..], tagSearchBarValue);
      FilterByQuery(tags[..], tagSearchBarValue)
    }

    /** The `resultsCount` of the search bar: the number of tags listed. */
    function ResultsCount(): (n: nat)
      reads this, tags
      ensures n == |RenderedTags()| && n <= tags.Length
      ensures tagSearchBarValue == "" ==> n == tags.Length
    {
      EmptyQueryKeepsAll(tags[..]);
      GetFilterResultCount(tags[..], tagSearchBarValue)
    }
  }
}
