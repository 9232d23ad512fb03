# Activity list and activity form, modelled in Dafny

This project models the two screens of the activity app that hold real logic.

- **The activity list** (`ActivitiesListScreen`). `applyFilters` copies the loaded activities and keeps only those that pass four filters, joined by AND:
  - a text search over name or description,
  - favourites only,
  - a category,
  - a date window ("today" or "week").

  It then sorts the result "newest", "oldest" or "az" and publishes it as `filtered`. `toggleFavorite` flips one activity's favourite flag optimistically and rolls the flip back when saving fails. Unknown categories get the fallback colour.
- **The create/edit form** (`CreateActivityScreen`). This covers the initial form state, loading an activity to edit, the map tap, the date picker and `handleSubmit`. `handleSubmit` refuses a blank name or description first and a missing or zero coordinate second. Otherwise it builds a trimmed record and issues exactly one save: an update when editing with a loaded original, a create otherwise.

Modules:

- `Wrappers` holds `Option`.
- `Text` holds `trim`, lower-casing as a character map, and `includes`.
- `ActivityModel` holds the entity.
- `ListFilters`, `ListSort`, `ListFavorites` and `ListScreen` model the list screen.
- `CreateForm` models the form.

Screen state that the source keeps in `useState` fields is modelled as a class:

- `ListScreen.ActivitiesList` for the list screen.
- `CreateForm.ActivityForm` for the form.

The rest is functions and lemmas. The filters run as one loop per filter (`KeepWhere`), and the sort runs in place on an array (`SortInPlace`). Both are proved equal to specification functions (`Filter`, `InsertionSort`), and the promised properties are proved as lemmas about those functions.

How each platform or I/O dependency is modelled:

- **Time.** A `time` is the instant an ISO string denotes, in integer milliseconds. `new Date(s)` and `toISOString()` therefore act on instants, and the stored text is not modelled. `toISOString()` writes the UTC form with milliseconds, which can differ in text from the string that was loaded, so facts about saving a loaded time back hold for the instant, not for the string.
- **Platform behaviour.** Three things the screens take from JavaScript are parameters bundled in `ListFilters.Locale`:
  - the case mapping of `toLowerCase`,
  - the calendar day of `toDateString`,
  - `localeCompare`.
- **Current time.** The clock reading (`new Date()`) is a parameter.
- **Persistence and fetches.** Each appears only as its outcome, passed in as a parameter:
  - `saveFails` for the favourite save,
  - `LoadResult` for the edit screen's fetch,
  - `fetched` for the list load.
- **Submission.** A submission returns the save it issues (`Submission`) rather than performing it.

Behaviour of the code that the model keeps as written:

- A coordinate of exactly 0 is refused like a missing one, because the check is on truthiness.
- "az" orders by `localeCompare` alone.
- The search query is lower-cased but not trimmed before matching.
- With duplicate ids, the rollback does not restore the flags (`ListFavorites.RollbackNeedsAgreeingFlags`).

## Model

| member | source | states |
|---|---|---|
| `Text.Trim` | src/screens/CreateActivityScreen.tsx:132-133 | definition, no contract: `s.trim()` as `TrimStart` followed by `TrimEnd`; used also at src/screens/CreateActivityScreen.tsx:120 and src/screens/ActivitiesListScreen.tsx:113 |
| `Text.IsBlank` | src/screens/CreateActivityScreen.tsx:120 | definition, no contract: `!s.trim()`, the one blankness test used by both screens (also src/screens/ActivitiesListScreen.tsx:113) |
| `Text.Contains` | src/screens/ActivitiesListScreen.tsx:117-118 | definition, no contract: `s.includes(q)`; its meaning is `Text.ContainsIff` |
| `Text.TrimEmptyIff` | src/screens/ActivitiesListScreen.tsx:113 | `trim()` gives the empty string exactly when every character is ECMAScript white space or a line terminator |
| `Text.TrimIdempotent` | src/screens/CreateActivityScreen.tsx:132-133 | a trimmed string neither starts nor ends with white space, and trimming it again changes nothing |
| `Text.TrimStart` | src/screens/CreateActivityScreen.tsx:132 | the result is a suffix of the input and does not start with white space |
| `Text.TrimStartDropsWhiteSpace` | src/screens/CreateActivityScreen.tsx:132 | everything dropped from the front is white space |
| `Text.TrimEnd` | src/screens/CreateActivityScreen.tsx:132 | the result is a prefix of the input and does not end with white space |
| `Text.TrimEndDropsWhiteSpace` | src/screens/CreateActivityScreen.tsx:132 | everything dropped from the end is white space |
| `Text.LowerSlice` | src/screens/ActivitiesListScreen.tsx:114-118 | lowering a slice of a string gives the same text as slicing the lowered string |
| `Text.FoundIgnoringCase` | src/screens/ActivitiesListScreen.tsx:114-118 | if `q` occurs literally in `s`, the lowered `q` is found in the lowered `s`, whatever the case mapping |
| `Text.ContainsIff` | src/screens/ActivitiesListScreen.tsx:117-118 | `includes` holds exactly when the query occurs at some position of the string |
| `ListFilters.IsFav` | src/screens/ActivitiesListScreen.tsx:124 | definition, no contract: JavaScript truthiness of `isFavorite`; a missing flag is not a favourite |
| `ListFilters.Meets` | src/screens/ActivitiesListScreen.tsx:115-144 | definition, no contract: the four filter callbacks (text search, favourite, category equality, date window with "today", "week" and any other key admitting all) |
| `ListFilters.Stage` | src/screens/ActivitiesListScreen.tsx:113-145 | definition, no contract: one `if (…) list = list.filter(…)` step |
| `ListFilters.Narrow` | src/screens/ActivitiesListScreen.tsx:110-145 | definition, no contract: the four steps in the source's order; its meaning is `ListFilters.NarrowCount` |
| `ListFilters.Admits` | src/screens/ActivitiesListScreen.tsx:113-145 | definition, no contract: the AND of the four conditions, the independent reference `Narrow` is proved against |
| `ListFilters.Filter` | src/screens/ActivitiesListScreen.tsx:115-119 | a filtered list is never longer than its input |
| `ListFilters.FilterCount` | src/screens/ActivitiesListScreen.tsx:115-145 | filtering keeps every copy of an element that meets the predicate and drops every copy of one that does not |
| `ListFilters.FilterMembership` | src/screens/ActivitiesListScreen.tsx:115-145 | an element is in the filtered list exactly when it is in the input and meets the predicate |
| `ListFilters.FilterKeepsAll` | src/screens/ActivitiesListScreen.tsx:115-145 | a predicate every element meets removes nothing |
| `ListFilters.FilterCommutes` | src/screens/ActivitiesListScreen.tsx:112-145 | two filters applied in either order give the same list, so the order of the filter chain does not matter |
| `ListFilters.StageCount` | src/screens/ActivitiesListScreen.tsx:113-145 | a filter step that is switched off keeps every copy of every element; one that is on keeps every copy only of the elements that meet the predicate |
| `ListFilters.NarrowCount` | src/screens/ActivitiesListScreen.tsx:110-145 | the filtered list is a sub-multiset of the loaded activities: all copies of those that pass all four conditions, none of the others |
| `ListFilters.NarrowMembership` | src/screens/ActivitiesListScreen.tsx:110-145 | an activity survives the filters exactly when it was loaded and passes search, favourites, category and date together |
| `ListFilters.BlankQueryKeepsAll` | src/screens/ActivitiesListScreen.tsx:113-120 | a query made only of white space switches the search off |
| `ListFilters.SearchAdmitsIff` | src/screens/ActivitiesListScreen.tsx:113-120 | a non-blank query keeps an activity exactly when the lower-cased, untrimmed query occurs in the lower-cased name or description |
| `ListFilters.LiteralMatchAdmitted` | src/screens/ActivitiesListScreen.tsx:113-120 | an activity whose name or description contains the query literally always passes the search, blank query or not |
| `ListFilters.WeekWindow` | src/screens/ActivitiesListScreen.tsx:139-142 | "week" keeps exactly the activities from now up to 7 × 86 400 000 ms ahead, so past ones are excluded |
| `ListFilters.FiltersOffKeepAll` | src/screens/ActivitiesListScreen.tsx:50-57 | with a blank query, favourites off and category and date "all", as on the screen's first render, nothing is removed |
| `ListFilters.KeepWhere` | src/screens/ActivitiesListScreen.tsx:115-119 | the filtering loop returns exactly `Filter` of its input |
| `ListSort.OrderOf` | src/screens/ActivitiesListScreen.tsx:150-156 | "newest", "oldest" and "az" select the three comparators; every other key selects none |
| `ListSort.After` | src/screens/ActivitiesListScreen.tsx:150-155 | definition, no contract: the three comparators `b − a`, `a − b` on times and `localeCompare` on names, read as "positive" |
| `ListSort.Insert` | src/screens/ActivitiesListScreen.tsx:150-156 | inserting adds one element |
| `ListSort.InsertionSort` | src/screens/ActivitiesListScreen.tsx:150-156 | sorting keeps the length |
| `ListSort.InsertPermutes` | src/screens/ActivitiesListScreen.tsx:150-156 | inserting adds exactly one copy of the element |
| `ListSort.SortPermutes` | src/screens/ActivitiesListScreen.tsx:150-156 | sorting is a permutation: every element keeps its number of copies |
| `ListSort.InsertLast` | src/screens/ActivitiesListScreen.tsx:150-156 | the last element after an insertion is the inserted one or the previous last one |
| `ListSort.InsertSorted` | src/screens/ActivitiesListScreen.tsx:150-156 | inserting into a sorted list keeps it sorted, given an asymmetric comparator |
| `ListSort.SortSorted` | src/screens/ActivitiesListScreen.tsx:150-156 | every mode's result has no adjacent pair out of order; "az" needs `localeCompare` to be asymmetric |
| `ListSort.SortOfSorted` | src/screens/ActivitiesListScreen.tsx:150-156 | sorting a list already in order leaves it unchanged |
| `ListSort.SortedPairwise` | src/screens/ActivitiesListScreen.tsx:150-156 | with a consistent comparator, order between neighbours gives order between any two positions |
| `ListSort.NewestDescending` | src/screens/ActivitiesListScreen.tsx:150-151 | "newest" yields times in non-increasing order |
| `ListSort.OldestAscending` | src/screens/ActivitiesListScreen.tsx:152-153 | "oldest" yields times in non-decreasing order |
| `ListSort.NamesAscending` | src/screens/ActivitiesListScreen.tsx:154-155 | "az" yields names whose `localeCompare`, earlier against later, is never positive |
| `ListSort.SortInPlace` | src/screens/ActivitiesListScreen.tsx:150-156 | the in-place array sort leaves the array equal to the stable insertion sort of its old contents |
| `ListSort.SortList` | src/screens/ActivitiesListScreen.tsx:150-156 | sorting the list through an array returns the stable insertion sort of the list |
| `ListSort.InsertInto` | src/screens/ActivitiesListScreen.tsx:150-156 | one pass of the in-place sort inserts `a[i]` into the sorted prefix and leaves the rest of the array alone |
| `ListSort.InsertAt` | src/screens/ActivitiesListScreen.tsx:150-156 | an element lands just after the last element that need not go after it |
| `ListScreen.Pipeline` | src/screens/ActivitiesListScreen.tsx:109-158 | definition, no contract: narrowing followed by the sort the mode selects, or none; its meaning is given by the `Pipeline…` lemmas |
| `ListScreen.PipelineCount` | src/screens/ActivitiesListScreen.tsx:109-158 | the published list is a reordering of a sub-multiset of the loaded list: exactly the copies that pass all filters |
| `ListScreen.PipelineSubMultiset` | src/screens/ActivitiesListScreen.tsx:109-158 | the published list holds nothing that was not loaded, and nothing more often than it was loaded |
| `ListScreen.PipelineMembership` | src/screens/ActivitiesListScreen.tsx:109-158 | an activity is shown exactly when it was loaded and passes every active filter |
| `ListScreen.PipelineNewest` | src/screens/ActivitiesListScreen.tsx:150-151 | with "newest" the published times are non-increasing |
| `ListScreen.PipelineOldest` | src/screens/ActivitiesListScreen.tsx:152-153 | with "oldest" the published times are non-decreasing |
| `ListScreen.PipelineAlphabetical` | src/screens/ActivitiesListScreen.tsx:154-155 | with "az" and a consistent `localeCompare`, the published names are in comparator order |
| `ListScreen.PipelineUnknownModeKeepsOrder` | src/screens/ActivitiesListScreen.tsx:149-156 | any other sort key publishes the filtered list in its original order |
| `ListScreen.PipelineIgnoresDistance` | src/screens/ActivitiesListScreen.tsx:147 | the distance setting has no effect on the result |
| `ListScreen.NarrowList` | src/screens/ActivitiesListScreen.tsx:110-145 | the four filter loops, each run only when its control is active, compute exactly `Narrow` |
| `ListScreen.FilterAndSort` | src/screens/ActivitiesListScreen.tsx:109-158 | the filter loops and the in-place sort compute exactly the specified result |
| `ListScreen.CategoryColor` | src/screens/ActivitiesListScreen.tsx:221 | a known category gets its own colour; any other gets the "yhteisö" colour; the colour is always one of the palette's |
| `ListScreen.ActivitiesList.constructor` | src/screens/ActivitiesListScreen.tsx:45-57 | both lists start empty, with search "", favourites off, category, distance and date "all" and sort "newest" |
| `ListScreen.ActivitiesList.Load` | src/screens/ActivitiesListScreen.tsx:95-106 | a successful fetch sets both the loaded and the shown list to the data; a failed one changes neither |
| `ListScreen.ActivitiesList.ChangeSettings` | src/screens/ActivitiesListScreen.tsx:50-57 | the filter controls set the settings to the given values |
| `ListScreen.ActivitiesList.ApplyFilters` | src/screens/ActivitiesListScreen.tsx:109-158 | only `filtered` changes, to the specified result; the loaded `activities` are not mutated |
| `ListScreen.ActivitiesList.ToggleFavorite` | src/screens/ActivitiesListScreen.tsx:171-198 | an unknown id issues no save and changes nothing; otherwise the add or remove save matching the new flag is issued, and the list is the toggled one, or the rolled-back one when the save fails |
| `ListFavorites.FindById` | src/screens/ActivitiesListScreen.tsx:172-173 | absent exactly when no entry has the id; otherwise the first entry with the id |
| `ListFavorites.SetFavorite` | src/screens/ActivitiesListScreen.tsx:178-182 | definition, no contract: the `prev.map` update that sets the flag of every entry with the id; its meaning is `ToggleFlips`, `RollbackRestores`, `SetFavoriteOverwrites` and `SetFavoriteAbsent` |
| `ListFavorites.SetFavoriteOverwrites` | src/screens/ActivitiesListScreen.tsx:192-196 | a second update of the same id overwrites the first, whatever the two flags |
| `ListFavorites.SetFavoriteAbsent` | src/screens/ActivitiesListScreen.tsx:178-182 | updating an id no entry has leaves the list unchanged |
| `ListFavorites.RollbackIsOneUpdate` | src/screens/ActivitiesListScreen.tsx:184-197 | after a failed save the list equals a single update of the id to `!newFav`, as if the optimistic update had never happened |
| `ListFavorites.UniqueIdsAgree` | src/services/activityService.ts:22 | ids are database primary keys, so the model takes unique ids as an assumption; under it, all entries with an id share one favourite truthiness, which is what `ToggleFlips` needs |
| `ListFavorites.NewFlag` | src/screens/ActivitiesListScreen.tsx:175 | definition, no contract: `!current.isFavorite` for the first entry with the id |
| `ListFavorites.Toggled` | src/screens/ActivitiesListScreen.tsx:178-182 | definition, no contract: the optimistic update, or the list unchanged for an unknown id; its meaning is `ToggleFlips` and `ToggleAbsent` |
| `ListFavorites.RolledBack` | src/screens/ActivitiesListScreen.tsx:192-196 | definition, no contract: the optimistic update followed by the rollback; its meaning is `RollbackRestores` |
| `ListFavorites.ToggleAbsent` | src/screens/ActivitiesListScreen.tsx:172-173 | an id not in the list changes nothing, with or without rollback |
| `ListFavorites.ToggleFlips` | src/screens/ActivitiesListScreen.tsx:175-182 | the entries with the id have their truthiness negated; every other entry, every activity field, the length and the order are unchanged |
| `ListFavorites.RollbackRestores` | src/screens/ActivitiesListScreen.tsx:184-197 | after a failed save every entry has its original truthiness: entries with the id carry it as an explicit flag, the others are untouched |
| `ListFavorites.RollbackNeedsAgreeingFlags` | src/screens/ActivitiesListScreen.tsx:192-196 | with two entries sharing an id but not a flag, the rollback leaves both unfavourited, so it does not restore the list |
| `CreateForm.IsSet` | src/screens/CreateActivityScreen.tsx:125 | definition, no contract: JavaScript truthiness of a coordinate, false for `null` and for 0 |
| `CreateForm.IsEditingId` | src/screens/CreateActivityScreen.tsx:50 | definition, no contract: `!!activityId`, false for an absent or empty id |
| `CreateForm.Base` | src/screens/CreateActivityScreen.tsx:130-141 | definition, no contract: the `base` record (trimmed name and description, category, date, both coordinates); its meaning is `SavedDraftIsNormalised` and `HandleSubmit` |
| `CreateForm.HandleSubmit` | src/screens/CreateActivityScreen.tsx:119-163 | refused for a blank field first, then for a null or zero coordinate; an update, carrying the original's id and creator, exactly when editing with a loaded original; a create otherwise; both save `Base` |
| `CreateForm.SavedDraftIsNormalised` | src/screens/CreateActivityScreen.tsx:130-141 | a saved name and description are non-empty, begin and end with a non-space and are fixed by `trim`, and both coordinates are non-zero |
| `CreateForm.WhiteSpaceNameRejected` | src/screens/CreateActivityScreen.tsx:120-123 | a name of white space only is refused whatever the location |
| `CreateForm.ZeroCoordinateRejected` | src/screens/CreateActivityScreen.tsx:125-128 | a coordinate of exactly 0 is refused as a missing location |
| `CreateForm.EditingWithoutOriginalCreates` | src/screens/CreateActivityScreen.tsx:144-154 | edit mode whose activity never loaded creates a new activity, with no id or creator |
| `CreateForm.Loaded` | src/screens/CreateActivityScreen.tsx:85-93 | definition, no contract: the form state `load` leaves after finding an activity; its meaning is `ActivityForm.Load` and `LoadThenSubmitRoundTrip` |
| `CreateForm.LoadThenSubmitRoundTrip` | src/screens/CreateActivityScreen.tsx:85-145 | loading a trimmed activity with non-zero coordinates and submitting unchanged updates it with its own id, creator and fields; the time is the same instant, not necessarily the same ISO text |
| `CreateForm.ActivityForm.constructor` | src/screens/CreateActivityScreen.tsx:40-69 | edit mode exactly when the route's id is present and non-empty; empty name and description, category "liikunta", the preset coordinates or null, the current date, no original |
| `CreateForm.ActivityForm.Load` | src/screens/CreateActivityScreen.tsx:72-103 | in edit mode a found activity's name, description, category, time and location are copied in and it becomes the original; a missing one sends the user back and changes nothing; a failed fetch and create mode change nothing |
| `CreateForm.ActivityForm.OnMapPress` | src/screens/CreateActivityScreen.tsx:166-171 | the location becomes the tapped coordinate |
| `CreateForm.ActivityForm.HandleChange` | src/screens/CreateActivityScreen.tsx:106-111 | a picked date replaces the date; a dismissed picker keeps it |
| `CreateForm.ActivityForm.Submit` | src/screens/CreateActivityScreen.tsx:119-163 | submitting yields the decision of `HandleSubmit` on the current fields and changes no field |

## Left out

- Rendering, styles, the bottom sheet and its `PanResponder`, the chips, the picker and map widgets, alerts, the `loading` flags and navigation: these are presentation. Of navigation, only the "go back" on a missing activity is modelled.
- All persistence: the SQLite service, the database handle and `fetchActivities`, `addFavorite`, `removeFavorite`, `getActivityById`, `createActivity` and `updateActivity`. Those functions are not part of this model. Their outcomes are parameters, and the saves are returned as values.
- React's effect scheduling. `applyFilters` re-runs whenever one of its seven dependencies changes: the search query, the favourites switch, category, distance, date filter, sort mode or the loaded activities (src/screens/ActivitiesListScreen.tsx:161-169). Here it is a separate method call. The rollback in `toggleFavorite` is modelled as following the optimistic update directly, with no other update in between, because the interleaving of asynchronous state updates is concurrency.
- Date parsing and time zones. Times are integer milliseconds, and an invalid date (`NaN`) is not modelled. The "today" filter compares an abstract calendar-day function. The week filter's floating-point division by one day is restated over integers; the comparisons agree because the divisor is a positive constant.
- `toLowerCase` is modelled by a per-character mapping, which is a choice of the model. JavaScript's mapping is not per-character: the Final_Sigma rule lowers 'Σ' to 'ς' or 'σ' depending on its neighbours, and some mappings change a string's length. Neither context-sensitive nor length-changing mappings are modelled.
- Dafny strings are sequences of Unicode scalar values, not of UTF-16 code units, so a lone surrogate in a JavaScript string cannot be represented and the positions of `includes` count scalar values.
- Coordinates are `real`, so a `NaN` coordinate (also falsy in JavaScript) is not modelled.
- `ListSort.InsertionSort`: the engine's own sort algorithm is not modelled. The specification is a stable insertion sort. For a consistent comparator, any stable sort produces that same order, but the model does not prove this uniqueness. For an inconsistent `localeCompare` the JavaScript order is implementation-defined, while the model's is insertion sort's. Stability is built into the definition but not stated as a separate lemma.
- `ListScreen.CategoryColor`: `CATEGORY_COLORS` is a plain object. A category naming an inherited property such as `toString` would select that property, not the fallback colour, and the model treats such a category as unknown.
- Participant lists and their JSON serialisation, the details and profile screens, login and registration, notifications and the map screen are not part of this model.
- The outcome of the save in `handleSubmit`: on success the screen navigates to the list, and on failure it shows an alert. Neither changes the form's state, so `Submission` stops at the save it issues.
