# ListApp core in Dafny

A model of the data and the pure logic of ListApp, a SwiftUI checklist app.
A user keeps named lists. Each list has a creation date, an optional due date
and an ordered sequence of items that can be checked off. The model covers:

- the persisted records `ListItem` and `ListItemModel`, with their three initialisers and `updateEndDate`;
- the four orderings of the main screen (`ListMainSortingOptions`): A–Z, earliest deadline, earliest created and latest created;
- the default-name allocator `findDefaultName`, together with `addNewList` and `deleteList` on the store;
- the edit operations `saveChanges`, `addItem` and `deleteItem`, which `ListDetailsView` and `FullListView` both contain;
- the completion toggle and icon choice of `ListItemView`.

Everything is an immutable datatype and pure functions. Dates are `int`
timestamps. A `UUID` is an `id: nat` supplied by the caller, and `Date.now`
is a `now`/`start` argument. Strings are `seq<char>`. The store behind
`@Query var listArray` is a `seq<ListRecord>`. Items are held by value inside
their list, so the cascade delete rule is explicit: `StoredItems` counts every
item in the store.

Files, one module each:

| file | module | models |
|---|---|---|
| `optional.dfy` | `Optional` | Swift `Optional` |
| `swift_text.dfy` | `SwiftText` | `String` `<`, `hasPrefix`, `split(separator:)`, `Int(_:)`, `String(_:)` |
| `list_item_model.dfy` | `ListItemModel` | `ListItem`, `ListItemModel` |
| `list_item_view.dfy` | `ListItemView` | the toggle on tap, `getImageName` |
| `sorting.dfy` | `Sorting` | `ListMainSortingOptions` and the sort functions |
| `list_main_view.dfy` | `ListMainView` | `findDefaultName`, `addNewList`, `deleteList`, the initial sort option |
| `offsets.dfy` | `Offsets` | `Array.remove(atOffsets:)` |
| `list_details_view.dfy` | `ListDetailsView` | `init`, `saveChanges`, `addItem`, `deleteItem` |
| `full_list_view.dfy` | `FullListView` | the same four members, shown equal to the first copy |

Behaviour of the code that the model reproduces:

- `saveChanges` with an empty name returns before the date is considered, so an empty name also discards a date edit.
- `deleteItem` passes its offsets straight to `remove(atOffsets:)`, which traps when an offset is out of range. The model therefore requires offsets in range.
- The sorts use `sorted(by:)`, whose stability Swift does not document. The model proves permutation and order only, and claims nothing about ties.
- `findDefaultName` accepts any `Int` suffix. That includes `+5`, `-3` and `007`, and also runs of spaces before or after the number (`"List  5 "`).
- No code path clears a due date.
- The default-name allocator picks the greatest qualifying name in string order, not in numeric order. With "List 9" and "List 10" stored, "List 9" is the greatest string, so "List 10" is allocated a second time (`ListMainView.DefaultNameCollides`). `ListMainView.AddNewList` uses the allocator as written. The row under "## Findings" records both the as-written behaviour and a numeric allocator proved never to repeat a stored name.

## Model

| member | source | states |
|---|---|---|
| ListItemModel.NewFromDict | ListApp/Models/ListItemModel.swift:29-36 | one item per dictionary entry, carrying that entry's key and value, with no name repeated; the item count equals the entry count; item i is named by entry i of the dictionary's iteration order, which is passed in as a parameter; name, start and end are stored as given, and end defaults to nil |
| ListItemModel.NewFromZip | ListApp/Models/ListItemModel.swift:38-45 | zip truncation: as many items as the shorter array; item i has `items[i]` as its name and `states[i]` as its state; name, start and end are stored as given |
| ListItemModel.ZipUnzip | ListApp/Models/ListItemModel.swift:40-42 | with arrays of equal length, both arrays can be read back from the items |
| ListItemModel.NewNamed | ListApp/Models/ListItemModel.swift:47-52 | the name-only initialiser creates a list with no items; name, start and end are stored as given |
| ListItemModel.UpdateEndDate | ListApp/Models/ListItemModel.swift:54-56 | the due date becomes the given date; id, name, start and items are unchanged |
| ListItemModel.UpdateEndDateLastWins | ListApp/Models/ListItemModel.swift:54-56 | of two successive due-date updates only the second one counts |
| ListItemView.Toggle | ListApp/Components/ListItemView.swift:25 | a tap flips the completion flag and keeps the item's name |
| ListItemView.ToggleTwice | ListApp/Components/ListItemView.swift:25 | toggling twice restores the item |
| ListItemView.TapItem | ListApp/Views/ListDetailsView.swift:43-45 | a tap on row i flips only item i's flag; item i keeps its name; every other item and every list field is unchanged |
| ListItemView.TapTwice | ListApp/Views/ListDetailsView.swift:43-45 | two taps on the same row restore the list |
| ListItemView.ImageName | ListApp/Components/ListItemView.swift:30-32 | the icon is "smallcircle.filled.circle" exactly when the item is complete, and "circle" otherwise |
| SwiftText.LexLeTotalOrder | ListApp/Helper/ListMainSortingOptions.swift:29 | the string order used by A–Z sorting is a total order: total, antisymmetric and transitive |
| SwiftText.SplitLosesOnlySeparators | ListApp/Views/ListMainView.swift:170 | joining the pieces of `split(separator:)` back together gives the input without its separators |
| SwiftText.SplitTwoWords | ListApp/Views/ListMainView.swift:170 | two non-empty words joined by one separator split back into exactly those two words |
| SwiftText.FormatParseRoundTrip | ListApp/Views/ListMainView.swift:178-183 | `Int(String(n)) == n` for every n a 64-bit `Int` holds |
| SwiftText.FormatIntIsOneWord | ListApp/Views/ListMainView.swift:183 | the decimal form of a number is non-empty and has no space, so it survives the split |
| Sorting.DueBeforeIsStrictWeakOrder | ListApp/Helper/ListMainSortingOptions.swift:33-47 | the earliest-deadline comparator is irreflexive and transitive, and its incomparability relation is transitive |
| Sorting.AllComparatorsAreStrictWeakOrders | ListApp/Helper/ListMainSortingOptions.swift:28-57 | all four comparators handed to `sorted(by:)` are strict weak orders |
| Sorting.NotBeforeIsTotalPreorder | ListApp/Helper/ListMainSortingOptions.swift:28-57 | for every comparator, "does not come before" is total and transitive |
| Sorting.Sort | ListApp/Helper/ListMainSortingOptions.swift:29-55 | `sorted(by:)` returns a permutation (same multiset of records) in which no record comes before an earlier one |
| Sorting.SortByAlphabet | ListApp/Helper/ListMainSortingOptions.swift:28-31 | a permutation of the lists that is non-decreasing by name in string order |
| Sorting.SortByDue | ListApp/Helper/ListMainSortingOptions.swift:32-49 | a permutation in which every dated list precedes every undated one; dated lists ascend by due date and undated lists by creation date |
| Sorting.SortByCreateFirst | ListApp/Helper/ListMainSortingOptions.swift:50-53 | a permutation ascending by creation date |
| Sorting.SortByCreateLast | ListApp/Helper/ListMainSortingOptions.swift:54-57 | a permutation descending by creation date |
| Sorting.SortByOption | ListApp/Helper/ListMainSortingOptions.swift:16-27 | for each option, a permutation ordered by that option's own comparator |
| Sorting.PermutationKeepsLength | ListApp/Helper/ListMainSortingOptions.swift:16-27 | sorting never adds or drops a list |
| ListMainView.DefaultShapedNames | ListApp/Views/ListMainView.swift:167-174 | a name is kept exactly when it is in the store and qualifies: it has the prefix "List", splits on spaces into two pieces, the first is "List" and the second parses as an `Int` |
| ListMainView.LastWhenSorted | ListApp/Views/ListMainView.swift:175-176 | `.sorted().last` is nil exactly for no names; otherwise it is one of the names and no name is greater in string order |
| ListMainView.FindDefaultName | ListApp/Views/ListMainView.swift:165-184 | the result starts with "List "; with no qualifying name in the store it is "List 1" |
| ListMainView.DefaultNameFollowsGreatest | ListApp/Views/ListMainView.swift:174-183 | the result is "List " followed by one more than the number of the qualifying name that is greatest as a string |
| ListMainView.DefaultNameIsDefaultShaped | ListApp/Views/ListMainView.swift:169-172 | "List " plus the decimal form of an `Int` qualifies, and its number reads back unchanged |
| ListMainView.FirstDefaultName | ListApp/Views/ListMainView.swift:166-183 | an empty store gives "List 1" |
| ListMainView.DefaultNameCollides | ListApp/Views/ListMainView.swift:174-176 | with "List 9" and "List 10" stored, the result is "List 10", the name of a stored list |
| ListMainView.DefaultNameAfterPrefix | ListApp/Views/ListMainView.swift:174-183 | with "List 1" and "List 10" stored, the result is "List 11" |
| ListMainView.DefaultNameAfterNine | ListApp/Views/ListMainView.swift:174-183 | with "List 1", "List 2" and "List 9" stored, the result is "List 10" |
| ListMainView.GreatestOfTwo | ListApp/Views/ListMainView.swift:174-183 | with two stored names, the allocator continues from the one that is default-shaped and greater as a string |
| ListMainView.GreatestOfThree | ListApp/Views/ListMainView.swift:174-183 | with three stored names, the allocator continues from the one that is default-shaped and greatest as a string |
| ListMainView.InitialDisplayIsAlphabetical | ListApp/Views/ListMainView.swift:18 | a freshly shown main screen shows all lists, non-decreasing by name |
| ListMainView.AddNewList | ListApp/Views/ListMainView.swift:186-192 | the store gains exactly one list at the end and keeps the rest; the new list has the allocated name, no items, no due date and the given start; edit mode is off and the path is just the new list; ids stay unique when the new id is fresh |
| ListMainView.FirstIndex | ListApp/Views/ListMainView.swift:194 | the first position whose id matches, or nil when none does |
| ListMainView.DeleteList | ListApp/Views/ListMainView.swift:193-198 | with no matching id the store is unchanged; otherwise exactly one matching list is removed; every list with another id is kept; with unique ids no list with that id remains |
| ListMainView.DeleteListAt | ListApp/Views/ListMainView.swift:194-197 | with unique ids, deleting the list at position k removes exactly position k |
| ListMainView.StoredItemsAppend | ListApp/Models/ListItemModel.swift:27 | the items of two groups of lists are the items of the first group plus those of the second |
| ListMainView.StoredItemsSplit | ListApp/Models/ListItemModel.swift:27 | a list's own items are exactly what separates the store with it from the store without it |
| ListMainView.DeleteListCascades | ListApp/Models/ListItemModel.swift:27 | deleting a list removes exactly its items from the store, and no other list's items |
| Offsets.KeptPositions | ListApp/Views/ListDetailsView.swift:186 | the surviving positions: ascending, none in the offsets, and every position outside the offsets included |
| Offsets.RemoveAtOffsetsKeepsTheRest | ListApp/Views/ListDetailsView.swift:186 | `remove(atOffsets:)` keeps exactly the elements at positions outside the offsets, in their original order, and shrinks by the number of offsets |
| Offsets.RemoveFirstAndLast | ListApp/Views/ListDetailsView.swift:186 | removing offsets {0, 2} from three items leaves the middle one |
| Offsets.RemoveNothing | ListApp/Views/ListDetailsView.swift:186 | an empty offset set removes nothing |
| Offsets.RemoveLast | ListApp/Views/ListDetailsView.swift:186 | removing the last offset drops only the last element |
| ListDetailsView.InitEdit | ListApp/Views/ListDetailsView.swift:23-32 | the edited name is seeded from the list; "no end date" is cleared exactly when the list has a due date; the edited date is that due date, or now |
| ListDetailsView.SaveChanges | ListApp/Views/ListDetailsView.swift:173-178 | an empty name changes nothing, the date included; otherwise the name is stored; the date is stored unless "no end date" is set, and then the old due date is kept; no path clears a due date; id, start and items never change |
| ListDetailsView.SaveUneditedIsNoOp | ListApp/Views/ListDetailsView.swift:173-178 | saving straight after opening the editor leaves the list unchanged |
| ListDetailsView.SaveChangesIdempotent | ListApp/Views/ListDetailsView.swift:173-178 | saving the same edit twice is the same as saving it once |
| ListDetailsView.AddItem | ListApp/Views/ListDetailsView.swift:180-183 | an empty name adds nothing; otherwise exactly one unchecked item with that name is appended and the earlier items are unchanged; the other list fields never change |
| ListDetailsView.DeleteItem | ListApp/Views/ListDetailsView.swift:185-187 | the items at the offsets are removed and the rest keep their relative order; the list is shorter by the number of offsets; the other fields are unchanged |
| ListDetailsView.DeleteUndoesAdd | ListApp/Views/ListDetailsView.swift:180-187 | deleting the item just added restores the list |
| FullListView.InitEdit | ListApp/Views/FullListView.swift:20-28 | the second copy of `init` seeds exactly the same edit state as the first |
| FullListView.SaveChanges | ListApp/Views/FullListView.swift:91-96 | the second copy of `saveChanges` agrees with the first on every input |
| FullListView.AddItem | ListApp/Views/FullListView.swift:98-101 | the second copy of `addItem` agrees with the first on every input |
| FullListView.DeleteItem | ListApp/Views/FullListView.swift:103-105 | the second copy of `deleteItem` agrees with the first on every in-range input |

## Left out

- View layout, navigation, modals, accessibility labels, animations and the `body` members are presentation only. `UpdateView`, `CustomModalView`, `SortButtonView`, `ListCardView` and `NewCardView` are not part of this model. Neither is the future-only `DatePicker` range, which constrains the UI and not the model.
- Keyboard detection (`DetectKeyboard`) is Combine/NotificationCenter plumbing.
- SwiftData internals (`@Model`, `@Query`, `modelContext`, `.modelContainer`) are replaced by a sequence of records. Insertion appends to it. The on-screen order always comes from the sorter.
- `Date`, `UUID`, `Date.now` and `DateFormatter` are replaced by integers and parameters.
- ListItemModel.NewFromDict: Swift leaves a dictionary's iteration order unspecified, so the model takes that order as a parameter.
- SwiftText.LexLess: Swift compares strings by Unicode canonical equivalence; the model compares characters ordinally.
- SwiftText.ParseInt: accepts only ASCII digits after an optional sign, within the 64-bit range. Other Unicode digit forms are not modelled.
- ListMainView.FindDefaultName: computes `number + 1` with unbounded integers. Swift traps when the chosen suffix is `Int.max`, and the model does not reproduce that trap.
- Sorting.Sort: stability and the relative order of ties are not claimed, because `sorted(by:)` does not promise them.
- ListDetailsView.DeleteItem: out-of-range offsets trap in `remove(atOffsets:)`, so the model requires in-range offsets.
- ListMainView.AddNewList: `path` holds the new record by value, whereas SwiftUI holds a reference to the persisted object.
- Observation (`@Bindable`, `@State` re-rendering) is not modelled. Each operation maps a record to a record.

## Findings

| source | as written | input that shows it | evidently intended | confidence | as-written member | corrected member |
|---|---|---|---|---|---|---|
| ListApp/Views/ListMainView.swift:174-176 | the new default name continues from the greatest qualifying name in string order (`.sorted().last`) | a store holding "List 9" and "List 10": "List 9" is the greatest string, so "List 10" is allocated a second time | continue from the greatest number, so that the new name is not already stored | not executed; follows from the definitions | ListMainView.DefaultNameCollides | ListMainView.NumericDefaultNameIsFresh |

The corrected half is `ListMainView.FindDefaultNameNumeric`, which continues
from the greatest number (`ListMainView.MaxSuffix`). `ListMainView.NumericDefaultNameIsFresh`
proves that it never returns the name of a stored list unless the number
would overflow `Int`. The rest of the model keeps the allocator as written.
