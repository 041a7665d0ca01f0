# Facet filter of the registry viewer, in Dafny

The registry viewer's home page has a filter panel with two facets: the
devfile *types* and the devfile *tags*. Each facet is a collection of
`FilterElem` entries, each holding a `value` (the facet value) and a
`state` (whether its checkbox is ticked). Two components hold this logic,
almost line for line the same: `components/home-page/Filter.tsx` and
`components/home-page/DevfileFilter.tsx`. One set of modules models both.
The rows below cite `Filter.tsx`, except for the test ids. The same code
is in `DevfileFilter.tsx`. There the handlers and the rendering sit one or
two lines further down. `sortFilterDataArr` and `getFilterResultCount`
sit at the same lines in both files.

The model covers:

- **`sortFilterDataArr`** (module `Sorting`). It sorts the tag array in
  place with `Array.prototype.sort` and returns the same array. The
  comparator puts checked entries first and orders entries with the same
  state by `localeCompare(…, 'en', { sensitivity: 'accent' })`. The sort is
  an insertion sort on an `array<FilterElem>`. It is proved to produce
  `StableSort`, a functional stable sort of the entries paired with their
  states. `StableSort` is proved to be ordered, a permutation, and stable.
  `StableSortIsTheOnlyStableOrder` proves that any stable, ordered
  permutation equals it. ECMA-262 (section 23.1.3.30, Array.prototype.sort)
  requires a stable sort, so whichever algorithm a JavaScript engine uses
  gives the same array.
- **The collation** (module `Collation`). The results are proved for every
  comparison function that is a total preorder (`IsCollation`).
  `AccentCompare` is one concrete such function: it compares the lower-case
  folds code point by code point. Like `sensitivity: 'accent'`, it treats
  "Go" and "go" as equal and "e" and "é" as different.
- **The tag search** (module `TagSearch`). This is the inline
  `.filter(tag => value.toLowerCase().includes(query.toLowerCase()))` and
  `getFilterResultCount`. The filtered list is the order-preserving
  subsequence of matching entries, and its length is the number of matching
  indices.
- **The checkbox handlers** (module `Toggle`). A handler finds the first
  entry with the name (`findIndex`, ECMA-262 section 23.1.3.10), copies the
  outer array, and assigns the state to the entry found.
- **The `data-test-id` suffix** (module `TestIds`). It is
  `value.replace(/\.| /g, '')`.
- **The component** (module `Panel`). It holds the two arrays and the
  search bar text. Tag changes are re-sorted, as the effect on
  `tagsStateWithFreq` does; type changes keep their order. It also exposes
  the rendered tag list and the results count.
- **Worked instances** (module `Scenarios`). Three tags sorted and
  searched; case-insensitive, accent-sensitive comparison.

Three behaviours of the code differ from what a reader of the component
might expect. The model follows the code in each case:

- `sensitivity: 'accent'` makes the sort accent-sensitive and
  case-insensitive. It is not accent-insensitive.
- The toggle copies only the outer array. `copy[index].state = state`
  changes the entry object that the previous array also holds, so the old
  array sees the new state as well (`Toggle.ToggleEntry`, the
  `old(tags[k]).state` clause of `Panel.FilterPanel.OnCheckboxTagsChange`).
- A name that no entry has makes `findIndex` return -1. Then
  `copy[-1].state = …` throws a TypeError, because `copy[-1]` is
  `undefined`. It is not a no-op. The model returns `TypeError` and changes
  nothing.

Test ids are not unique: "node.js", "node js" and "nodejs" share one
(`TestIds.TestIdsCollide`).

## Model

| member | source | states |
|---|---|---|
| `Text.LowerChar` | components/home-page/Filter.tsx:105 | one character's fold is never an ASCII capital and is either the character itself or the character 32 code points up |
| `Text.Lower` | components/home-page/Filter.tsx:105 | `toLowerCase` keeps the length and folds each character on its own |
| `Text.LowerIdempotent` | components/home-page/Filter.tsx:105 | folding a folded string changes nothing |
| `Text.Includes` | components/home-page/Filter.tsx:105 | `includes` holds for the empty query, and only for a query no longer than the value |
| `Text.IncludesIffOccurs` | components/home-page/Filter.tsx:105 | `includes` holds exactly when the query occurs at some index of the value |
| `Collation.AccentCompare` | components/home-page/Filter.tsx:129 | the concrete collation's result is -1, 0 or 1, and 0 exactly when the two lower-case folds are equal |
| `Collation.AccentCompareEqualIffSameFold` | components/home-page/Filter.tsx:129 | the concrete collation calls two values equal exactly when their lower-case folds are equal (case-insensitive, accent-sensitive) |
| `Collation.AccentCompareIsCollation` | components/home-page/Filter.tsx:129 | the concrete collation is reflexive, antisymmetric in sign and transitive |
| `Sorting.Compare` | components/home-page/Filter.tsx:127-137 | entries with different states never compare equal, and the checked one comes first; entries with the same state compare as the collation compares their values |
| `Sorting.CompareElems` | components/home-page/Filter.tsx:127-137 | the same two-key order read off the entries' current states, as the sort calls it |
| `Sorting.StableSort` | components/home-page/Filter.tsx:127 | the array the sort must produce keeps the input's length; the lemmas below prove it ordered, a permutation, stable and unique |
| `Sorting.CompareIsConsistent` | components/home-page/Filter.tsx:127-137 | over a collation, the two-key comparator is itself a consistent comparator (a total preorder) |
| `Sorting.StableSortPermutes` | components/home-page/Filter.tsx:127 | the stable sort is a permutation of its input |
| `Sorting.StableSortOrdered` | components/home-page/Filter.tsx:127-137 | the stable sort's result is ordered by the comparator |
| `Sorting.StableSortStable` | components/home-page/Filter.tsx:127-137 | every class of entries that compare equal keeps its input order |
| `Sorting.StableSortIsTheOnlyStableOrder` | components/home-page/Filter.tsx:127 | any ordered, stable permutation of the input is the stable sort, so the result does not depend on the sorting algorithm |
| `Sorting.StableSortOfOrdered` | components/home-page/Filter.tsx:127-137 | sorting an already ordered collection changes nothing |
| `Sorting.StableSortIdempotent` | components/home-page/Filter.tsx:127-137 | sorting twice is sorting once |
| `Sorting.StableSortProperties` | components/home-page/Filter.tsx:127-137 | ordered, stable, and the identity on ordered input, together |
| `Sorting.OrderedMeansCheckedFirst` | components/home-page/Filter.tsx:128-136 | in an ordered collection no unchecked entry precedes a checked one, and same-state neighbours are in collation order |
| `Sorting.FindSlot` | components/home-page/Filter.tsx:127-137 | the scan from the end of the sorted prefix stops at the index `j` where every entry in `a[j..i]` must follow `a[i]` and the one before `j`, if any, may precede it |
| `Sorting.ShiftInto` | components/home-page/Filter.tsx:127-137 | the array afterwards is the old one with `a[i]` moved to index `j` and `a[j..i]` one place right, and nothing else changed |
| `Sorting.InsertLast` | components/home-page/Filter.tsx:127-137 | one insertion step moves `a[i]` to the index `j` in front of the entries that must follow it (everything in `a[j..i]`) and behind one that may precede it |
| `Sorting.InsertKeyed` | components/home-page/Filter.tsx:127-137 | one insertion step does to the entries with their states what `Insert` does, and leaves the rest alone |
| `Sorting.SortInPlace` | components/home-page/Filter.tsx:127-137 | the in-place sort leaves exactly `StableSort` of the entries with their states |
| `Sorting.SortFilterDataArr` | components/home-page/Filter.tsx:126-140 | the same array is returned, sorted in place: a permutation, checked entries first, same-state neighbours in collation order, stable, and unchanged when already ordered |
| `Toggle.FindIndex` | components/home-page/Filter.tsx:46 | -1 exactly when no entry has the name; otherwise the first index whose entry has it |
| `Toggle.ToggleEntry` | components/home-page/Filter.tsx:46-49 | TypeError exactly when no entry has the name, and then no state changes; otherwise a fresh copy holding the same entries, whose found entry (shared with the original array) gets the new state while every other state stays |
| `TagSearch.Matches` | components/home-page/Filter.tsx:105 | the empty query matches every entry, and a matching query is no longer than the value |
| `TagSearch.FilterByQuery` | components/home-page/Filter.tsx:104-105 | the tag list is a subsequence of the tags in their order, and holds a tag exactly when its folded value contains the folded query |
| `TagSearch.GetFilterResultCount` | components/home-page/Filter.tsx:142-145 | the count is at most the length and equals the number of matching indices |
| `TagSearch.FilterCountsMatches` | components/home-page/Filter.tsx:142-145 | the filtered list has exactly one entry per matching index |
| `TagSearch.EmptyQueryKeepsAll` | components/home-page/Filter.tsx:142-145 | the empty query keeps every entry and the count is the length |
| `TagSearch.MatchesIgnoresQueryCase` | components/home-page/Filter.tsx:105 | the case of the query does not matter |
| `TagSearch.FilterAppend` | components/home-page/Filter.tsx:104-105 | filtering a concatenation filters each part |
| `TagSearch.FilterIdempotent` | components/home-page/Filter.tsx:104-105 | filtering twice with the same query is filtering once |
| `TestIds.StripDotsAndSpaces` | components/home-page/DevfileFilter.tsx:82 | the suffix is no longer than the value and holds neither '.' nor ' ' |
| `TestIds.StripIsSubseq` | components/home-page/DevfileFilter.tsx:82 | the suffix is a subsequence of the value |
| `TestIds.StripKeepsOthers` | components/home-page/DevfileFilter.tsx:82 | every other character is kept as often as the value has it |
| `TestIds.StripAppend` | components/home-page/DevfileFilter.tsx:82 | stripping distributes over concatenation |
| `TestIds.StripIsIdentityIff` | components/home-page/DevfileFilter.tsx:82 | the suffix equals the value exactly when the value has neither '.' nor ' ' |
| `TestIds.StripIdempotent` | components/home-page/DevfileFilter.tsx:82 | stripping twice is stripping once |
| `TestIds.TypeTestId` | components/home-page/DevfileFilter.tsx:82 | a type id is "type-" followed by `StripDotsAndSpaces(value)`: a subsequence of the value without '.' or ' ' that keeps every other character as often as the value has it |
| `TestIds.TagTestId` | components/home-page/DevfileFilter.tsx:110 | a tag id is "tag-" followed by `StripDotsAndSpaces(value)`: a subsequence of the value without '.' or ' ' that keeps every other character as often as the value has it |
| `TestIds.TestIdsCollide` | components/home-page/DevfileFilter.tsx:110 | distinct values such as "node.js" and "nodejs" get the same id |
| `Panel.FilterPanel.constructor` | components/home-page/Filter.tsx:35-39 | the search bar starts empty, the tags are sorted by the effect, and the types keep their order |
| `Panel.FilterPanel.TagsChanged` | components/home-page/Filter.tsx:37-39 | a new tag array is sorted in place and kept: `StableSort` of its entries, checked first, same-state neighbours in order, a permutation |
| `Panel.FilterPanel.OnCheckboxTagsChange` | components/home-page/Filter.tsx:41-51 | succeeds exactly when a tag has the name; on failure nothing changes; on success the new tag array is a sorted permutation of the old one and only the found entry's state changed (the old array sees it too) |
| `Panel.FilterPanel.OnCheckboxTypesChange` | components/home-page/Filter.tsx:53-63 | succeeds exactly when a type has the name; on failure nothing changes; on success the new type array has the same entries in the same order and only the found entry's state changed; the tags are untouched |
| `Panel.FilterPanel.OnSearchChange` | components/home-page/Filter.tsx:65-67 | the search bar holds the new text |
| `Panel.FilterPanel.RenderedTags` | components/home-page/Filter.tsx:104-105 | the tags shown are a subsequence of the held tags, holding a tag exactly when it matches the search text and one entry per matching index |
| `Panel.FilterPanel.ResultsCount` | components/home-page/Filter.tsx:100 | the results count is the number of tags shown, at most the number of tags, and all of them when the search text is empty |
| `Scenarios.CaseIsIgnored` | components/home-page/Filter.tsx:129 | "Go" and "go" compare equal; "apex" precedes "Java" |
| `Scenarios.AccentsAreKept` | components/home-page/Filter.tsx:129 | "e" and "é" do not compare equal |
| `Scenarios.SortThreeTags` | components/home-page/Filter.tsx:126-140 | unchecked "Java", checked "Go", unchecked "apex" sort to "Go", "apex", "Java" |
| `Scenarios.MatchesO` | components/home-page/Filter.tsx:105 | the query "O" matches exactly the values whose fold contains 'o' |
| `Scenarios.MatchesOfThree` | components/home-page/Filter.tsx:105 | "O" matches "Go" but neither "apex" nor "Java" |
| `Scenarios.SearchOneTag` | components/home-page/Filter.tsx:100-105 | searching "O" among "Go", "apex", "Java" shows "Go" alone and a count of 1 |

## Left out

- Rendering is not modelled: the JSX, the PatternFly components, styling,
  `capitalizeFirstLetter`, and the rule that hides a facet group with at most
  one entry (Filter.tsx lines 75 and 91). Only the tag list and the count
  are computed.
- React scheduling is reduced to direct calls. The component's props are
  fields, a setter call is an assignment, and the effect on
  `tagsStateWithFreq` runs as part of the handler that changed the array.
  A setter given the array it already holds is treated as a no-op; React
  may render once more in that case.
- The change event is reduced to its `name` and `checked` values. The
  unused `checked` argument of the handlers is dropped.
- A handler's TypeError is modelled as a `TypeError` result (and
  `ok == false` in `Panel`), not as a thrown exception.
- The model does not track an entry object shared between the tag array
  and the type array: `Panel` assumes only that the two arrays are different
  arrays.
- `Collation.AccentCompare` orders by code point after folding, not by the
  Unicode Collation Algorithm: it puts "é" after "z", where the English
  collation puts it between "e" and "f". Its classes of equal strings are
  also finer: `sensitivity: 'accent'` treats width variants as equal (the
  fullwidth "Ａ" and "a") and ignores completely ignorable code points (the
  soft hyphen in "a\u00ADb" against "ab"); `AccentCompare` calls both pairs
  different. The sort theorems are stated for every collation
  (`IsCollation`), so they hold for the real one too.
- `Text.Lower` folds only the Basic Latin and Latin-1 Supplement capitals;
  the rest of Unicode's case mapping, including ones that change length,
  is not modelled.
- Strings are sequences of Unicode scalar values (Dafny `char`), while
  JavaScript strings are sequences of UTF-16 code units. A lone surrogate
  in a value or a query cannot be represented, and for characters outside
  the Basic Multilingual Plane code-point order differs from code-unit
  order.
- The frequency field of `FilterElem` is never read by this logic and is
  not modelled.
- `components/home-page/DevfileSearchBar.tsx` and `next.config.js` carry no
  filter logic and are not part of this model.
