# Pattern list of the design tool's sidebar

The sidebar of the design tool shows the patterns (reusable component
definitions) of every installed pattern library, filtered by a search term.
`PatternListContainer` draws nothing while no project is loaded. Otherwise it
asks the project's pattern search once for the current term, and draws one
`PatternLibraryContainer` per library of the store, in the store's order.

Each library section takes the library's patterns that match the search result
and drops synthetic pages. It then splits the rest, keeping their order, into
patterns with a group label (a group that is neither `''` nor `undefined`) and
patterns without one. The labelled patterns are grouped by label: one bucket
per label, in the order in which the labels first occur. A library with no
listed pattern draws nothing. Otherwise the folder, headed by the library's
display name (or its name when the display name is empty), shows each bucket
under its label, then the "Other Components" label, then the unlabelled
patterns.

The label comes from the expression
`groupedPatterns.length === 0 || (ungroupedPatterns.length !== 0 && <label/>)`.
It evaluates to `true` when there is no grouped pattern and to `false` when
there is no ungrouped one, and React draws nothing for either. So the label
appears exactly when both kinds are present. `ChildValue` and
`OtherLabelChild` model that expression as written. One could read the label
rule as "shown whenever ungrouped patterns exist"; the code does not do that,
and the model follows the code.

The project has two modules:

- `Collections` (`collections.dfy`) holds the sequence operations the component
  is built from: `Array.prototype.filter` (`Filter`), lodash `partition`
  (`Partition`), and lodash `groupBy` read back with `entries` (`GroupBy`).
  Each is written as a left fold and comes with an independent description of
  its result. For `Partition` that is `StablePartition`: an interleaving of the
  two parts, one holding the elements that satisfy the predicate and the other
  the elements that do not. For `GroupBy` it is `IsGrouping`: distinct keys,
  each bucket holding exactly its key's items in order, every key present, and
  buckets in first-seen order. Lemmas prove that `Partition` and `GroupBy`
  meet their descriptions and that each description determines the result.
  `Filter` is pinned down by the same route (its result is `Partition`'s
  first part), by `FilterCount` (how many copies of each value it keeps) and
  by `FilterAppend` (it keeps the order).
- `PatternList` (`pattern_list.dfy`) holds the patterns, `isGrouped`, the
  library section (`LibrarySectionOf`), the rows it draws (`Rows`), and the
  whole list (`PatternListOf`), with the lemmas about them.

The project's search and `library.getPatterns(searchResult)` are not visible
here. They are parameters of `PatternListOf` (`search`, `getPatterns`), and a
library section takes the resulting patterns (`found`) as input.

## Model

| member | source | states |
|---|---|---|
| `PatternList.IsGrouped` | packages/core/src/container/pattern-list/pattern-list-container.tsx:144-149 | the `isGrouped(grouped)` closure, written as in the source; its meaning is stated by `IsGroupedPolarity` |
| `PatternList.IsGroupedPolarity` | packages/core/src/container/pattern-list/pattern-list-container.tsx:144-149 | `isGrouped(true)` holds of a pattern iff its group is a non-empty string; `isGrouped(false)` is exactly its negation |
| `Collections.Filter` | packages/core/src/container/pattern-list/pattern-list-container.tsx:95-97 | the result holds exactly the input elements that satisfy the predicate, no more of each than the input has |
| `PatternList.IsListed` | packages/core/src/container/pattern-list/pattern-list-container.tsx:97 | the filter's predicate: the pattern is not a synthetic page; stated by `ListedHasNoSyntheticPage` |
| `PatternList.ListedPatterns` | packages/core/src/container/pattern-list/pattern-list-container.tsx:95-97 | `patterns`, the search hits without synthetic pages; stated by `ListedHasNoSyntheticPage` |
| `PatternList.ListedHasNoSyntheticPage` | packages/core/src/container/pattern-list/pattern-list-container.tsx:95-97 | the listed patterns are exactly the found patterns whose type is not `SyntheticPage` |
| `Collections.FilterCount` | packages/core/src/container/pattern-list/pattern-list-container.tsx:95-97 | the filter keeps every occurrence of a kept value and no occurrence of any other value |
| `Collections.FilterAppend` | packages/core/src/container/pattern-list/pattern-list-container.tsx:95-97 | filtering a concatenation is the concatenation of the filters, so the filter keeps the input's order |
| `Collections.Partition` | packages/core/src/container/pattern-list/pattern-list-container.tsx:99 | the first part is the filter by the predicate and the second the filter by its negation; their lengths add up to the input's |
| `Collections.PartitionIsStable` | packages/core/src/container/pattern-list/pattern-list-container.tsx:99 | the two parts interleave to the input, the first satisfies the predicate, the second does not, and they share no element |
| `Collections.StablePartitionIsPartition` | packages/core/src/container/pattern-list/pattern-list-container.tsx:99 | any stable partition of a sequence is the one `Partition` returns (the converse of `PartitionIsStable`) |
| `Collections.InterleavesIsPermutation` | packages/core/src/container/pattern-list/pattern-list-container.tsx:99 | two sequences that interleave to a third are together a permutation of it |
| `PatternList.SplitByGroup` | packages/core/src/container/pattern-list/pattern-list-container.tsx:99 | `[groupedPatterns, ungroupedPatterns]`; stated by `SplitIsStablePartition`, `GroupedNonEmpty` and `UngroupedNonEmpty` |
| `PatternList.SplitIsStablePartition` | packages/core/src/container/pattern-list/pattern-list-container.tsx:99 | grouped and ungrouped interleave to the listed patterns; every grouped pattern has a non-empty label, every ungrouped one has `''` or none; they are disjoint and together a permutation of the listed patterns |
| `Collections.GroupBy` | packages/core/src/container/pattern-list/pattern-list-container.tsx:101 | `entries(groupBy(..))` as a left fold; its properties are stated by `GroupByIsGrouping`, `GroupingIsGroupBy` and `GroupByIsPermutation` |
| `Collections.GroupByIsGrouping` | packages/core/src/container/pattern-list/pattern-list-container.tsx:101 | the buckets have distinct keys; each is non-empty and holds exactly the items with its key, in order; every item's key has a bucket; buckets come in order of their keys' first occurrence |
| `Collections.GroupingIsGroupBy` | packages/core/src/container/pattern-list/pattern-list-container.tsx:101 | any list of buckets with those properties is the one `GroupBy` returns, so the properties determine the grouping |
| `Collections.GroupByIsPermutation` | packages/core/src/container/pattern-list/pattern-list-container.tsx:101 | the buckets laid end to end are a permutation of the grouped items |
| `PatternList.LibrarySectionOf` | packages/core/src/container/pattern-list/pattern-list-container.tsx:92-141 | `PatternLibraryContainer.render` as a layout value; its properties are stated by `SectionEmptyIffNothingListed`, `SectionHeading`, `SectionGroups`, `SectionUngrouped`, `SectionIsPermutation`, `SectionHasNoSyntheticPage`, `SectionOtherLabel` and `LayoutExample` |
| `PatternList.SectionEmptyIffNothingListed` | packages/core/src/container/pattern-list/pattern-list-container.tsx:103-105 | a library draws nothing iff every found pattern is a synthetic page |
| `PatternList.Heading` | packages/core/src/container/pattern-list/pattern-list-container.tsx:109 | `getDisplayName() \|\| getName()`; stated by `SectionHeading` |
| `PatternList.SectionHeading` | packages/core/src/container/pattern-list/pattern-list-container.tsx:109 | a drawn section is headed by the display name, or by the name when the display name is empty |
| `PatternList.GroupKey` | packages/core/src/container/pattern-list/pattern-list-container.tsx:101 | the `groupBy` iteratee `getGroup()`; an absent group would become the key "undefined", which no grouped pattern has; stated by `BucketIsLabelled` and `SectionGroups` |
| `PatternList.BucketIsLabelled` | packages/core/src/container/pattern-list/pattern-list-container.tsx:99-101 | for a non-empty label, the grouped patterns filed under it are exactly the listed patterns with that label, in found order |
| `PatternList.SectionGroups` | packages/core/src/container/pattern-list/pattern-list-container.tsx:101-123 | bucket labels are distinct and non-empty; each bucket holds exactly the listed patterns with its label, in found order; every labelled listed pattern has its label's bucket; buckets are in first-seen order |
| `PatternList.SectionUngrouped` | packages/core/src/container/pattern-list/pattern-list-container.tsx:136-138 | the ungrouped patterns drawn are exactly the listed patterns without a label, in found order |
| `PatternList.SectionIsPermutation` | packages/core/src/container/pattern-list/pattern-list-container.tsx:111-138 | the buckets followed by the ungrouped patterns are a permutation of the listed patterns: each is drawn exactly once |
| `PatternList.SectionHasNoSyntheticPage` | packages/core/src/container/pattern-list/pattern-list-container.tsx:95-138 | no synthetic page appears in any bucket or among the ungrouped patterns |
| `PatternList.OtherLabelChild` | packages/core/src/container/pattern-list/pattern-list-container.tsx:125-135 | the JavaScript value of the label expression; when it draws is stated by `OtherLabelDrawnWhenBoth` and `SectionOtherLabel` |
| `PatternList.OtherLabelDrawnWhenBoth` | packages/core/src/container/pattern-list/pattern-list-container.tsx:125-135 | the value of the label expression is the label element iff both the grouped and the ungrouped patterns are non-empty |
| `PatternList.GroupedNonEmpty` | packages/core/src/container/pattern-list/pattern-list-container.tsx:99 | there is a grouped pattern iff some found pattern is listed and labelled |
| `PatternList.UngroupedNonEmpty` | packages/core/src/container/pattern-list/pattern-list-container.tsx:99 | there is an ungrouped pattern iff some found pattern is listed and unlabelled |
| `PatternList.SectionOtherLabel` | packages/core/src/container/pattern-list/pattern-list-container.tsx:125-135 | "Other Components" is drawn iff the library lists both a labelled and an unlabelled pattern |
| `PatternList.GroupRows` | packages/core/src/container/pattern-list/pattern-list-container.tsx:111-123 | each bucket's label followed by its patterns; what the rows hold is stated by `GroupRowsContent`, and that each pattern sits under its own bucket's heading by `GroupRowsHeadings` |
| `PatternList.GroupRowsContent` | packages/core/src/container/pattern-list/pattern-list-container.tsx:111-123 | the group rows hold the buckets' patterns laid end to end, the bucket labels in bucket order as headings, and no "Other Components" label |
| `PatternList.GroupRowsHeadings` | packages/core/src/container/pattern-list/pattern-list-container.tsx:111-123 | when every bucket's patterns carry its label, the nearest heading above each pattern row of the group rows is that pattern's own group |
| `PatternList.Rows` | packages/core/src/container/pattern-list/pattern-list-container.tsx:107-139 | the rows of a folder: the group rows, then the label when drawn, then the ungrouped patterns; stated by `RowsContent`, `RowsHeadings`, `RowsOrderOf` and `RowsOrder` |
| `PatternList.RowsContent` | packages/core/src/container/pattern-list/pattern-list-container.tsx:107-139 | a section that draws nothing has no rows; a folder's rows hold its bucket patterns followed by its ungrouped patterns, its labels in bucket order as headings, and the "Other Components" label exactly when the folder draws it |
| `PatternList.RowsHeadings` | packages/core/src/container/pattern-list/pattern-list-container.tsx:111-123 | in a library's drawn rows, the nearest group heading above every labelled pattern carries that pattern's own label |
| `PatternList.RowsOrderOf` | packages/core/src/container/pattern-list/pattern-list-container.tsx:111-138 | in a section whose buckets hold labelled patterns and whose rest does not, nothing but unlabelled patterns follows the label or an unlabelled pattern |
| `PatternList.RowsOrder` | packages/core/src/container/pattern-list/pattern-list-container.tsx:107-139 | in the drawn rows, every group heading and grouped pattern precedes the "Other Components" label and every ungrouped pattern |
| `PatternList.PatternListOf` | packages/core/src/container/pattern-list/pattern-list-container.tsx:22-84 | `PatternListContainer.render` as a layout value; its properties are stated by `PatternListLayout` |
| `PatternList.PatternListLayout` | packages/core/src/container/pattern-list/pattern-list-container.tsx:25-65 | no project draws nothing; otherwise one section per library, in store order, each computed from that library's hits for the single search result and headed by its own library |
| `PatternList.LayoutExample` | packages/core/src/container/pattern-list/pattern-list-container.tsx:95-138 | patterns 1 and 3 labelled "Layout", 2 labelled `''`, 4 unlabelled: one bucket "Layout" with [1, 3], the label, then [2, 4] |

## Left out

- Styling, spacing, the sticky header and the search box (lines 35-55, 68-81, 112-118): presentation only. The layout is modelled as the `LibrarySection`, `Row` and `PatternListView` values.
- Writing the search term on each keystroke and the MobX store injection (lines 11-12, 51): these are state plumbing owned by the store, which is not part of this model.
- The drag image (`handleDragStart`, `ElementDragImage`, lines 14-20, 56, 66): a browser side effect with no effect on the data.
- The "Open Library Store" link (line 76): it calls into app state that is not part of this model.
- `getPatternSearch().query(..)` and `library.getPatterns(..)` (lines 31, 96): their implementations are not part of this model. They become the function parameters `search` and `getPatterns`.
- `PatternItemContainer` and React `key`s (lines 61, 120, 137): each drawn pattern is represented by the pattern itself.
- Pattern types other than `SyntheticPage`: the list tells no other type apart, so they are folded into `OtherPatternType`.
- `Collections.GroupBy`: models lodash `groupBy` + `entries` with buckets in the order their keys first occur. JavaScript enumerates integer-like property names (such as "2") before all other keys, in ascending order. The model assumes that no group label is such a string.
