# Provider directory: verified model of the component logic

The provider directory is a single-page React app. A creation form adds
provider records: last name, first name, e-mail address, specialty and
practice name. A list view filters, sorts, selects, removes and edits those
records in place. This project models the logic hidden inside those
components and proves what the code promises:

- **Providers, Text**: the five field keys and the record type (`ByField<T>`
  serves both as the record and as the form's touched flags). Also the
  JavaScript string primitives the components use: the `\s` class and
  `trim()`, ASCII `toLowerCase()`, `includes()` and the relational `<` on
  strings.
- **Validation, Form** (`ProviderForm.tsx`):
  - the three patterns as predicates on characters, the required keys,
    `isValid`, `allValid` and `errorShown`;
  - a `ProviderForm` class whose `fields` and `touched` records are changed
    by `HandleChange` and `HandleSubmit`.
- **Pipeline** (`ProviderList.tsx`, the derivation):
  - each record is paired with its original index;
  - the case-insensitive filter keeps the records where any field matches;
  - the comparator-driven sort is modelled as a stable insertion sort. It
    is proved to be a permutation that is ordered by the lower-cased key in
    the chosen direction and keeps the filtered order among equal keys.
- **ListEngine** (`ProviderList.tsx`, the state): a `ProviderList` class
  over `filter`, `sortKey`, `sortDirection`, `selected` (a set of original
  indices), `editingCell` and `cellInput`. Its handlers cover:
  - sort clicks, the key select and the direction button;
  - row toggles, select-all and remove;
  - double-click, typing, blur-commit and the Enter/Escape key handler.
- **Store** (`App.tsx`): the initial load (stored sequence or sample set),
  append on submit, and removal by original indices.
- **Widget** (`RegexInput.tsx`): the widget's validity with the pattern
  passed in as a predicate, its `touched` flag, and when the error element
  is rendered.

Callbacks handed to a component by its parent are results of the modelled
methods:

- `onSubmit` is `HandleSubmit`'s `submitted`;
- `onRemove` is `HandleRemove`'s `indices`;
- `onUpdateProviders` is `HandleCellInputBlur`'s `update`;
- `onChange` is `RegexInput.HandleChange`'s `forwarded`.

The parent's answer, new `providers` props, arrives through
`ProviderList.Receive`.

The model follows the component code throughout:

- Escape commits the edit just as Enter does.
- A commit stores the draft without validating it.
- The input widget never resets its `touched` flag. The widget's tests
  expect `touched` to reset when the parent clears the value; the code
  never resets it.

## Model

| member | source | states |
|---|---|---|
| Providers.ByField.Set | src/components/ProviderForm.tsx:64 | writing key `k` changes `k` to the new value and leaves every other key as it was |
| Providers.AllFieldsComplete | src/components/ProviderForm.tsx:59 | the key list that `allValid` walks holds every key of the record |
| Providers.SetOwnValue | src/components/ProviderList.tsx:115 | spreading a record with its own value for a key yields the same record |
| Text.LineTerminatorIsSpace | src/components/ProviderForm.tsx:22 | every line terminator that `.` refuses is also white space |
| Text.IsSpace | src/components/ProviderForm.tsx:18 | the characters of `\s`, which are also the ones `trim()` removes |
| Text.TrimStart | src/components/ProviderForm.tsx:54 | the result is a suffix of the input, only white space was dropped, and it does not start with white space |
| Text.TrimEnd | src/components/ProviderForm.tsx:54 | the result is a prefix of the input, only white space was dropped, and it does not end with white space |
| Text.Trim | src/components/ProviderForm.tsx:54 | `trim()` never grows the string, and a non-empty result has no white space at either end |
| Text.TrimOffset | src/components/ProviderForm.tsx:54 | where the trimmed text starts: only white space precedes it |
| Text.TrimIsSlice | src/components/ProviderForm.tsx:54 | `trim()` returns the contiguous slice of the input starting at that offset |
| Text.TrimDropsOnlyTrailingSpace | src/components/ProviderForm.tsx:54 | only white space follows the slice `trim()` keeps |
| Text.TrimEmptyIff | src/components/ProviderForm.tsx:54-55 | the trimmed value is empty iff the value is entirely white space |
| Text.TrimIdempotent | src/components/ProviderList.tsx:113 | trimming a trimmed draft changes nothing |
| Text.LowerChar | src/components/ProviderList.tsx:36 | ASCII capitals map to their lower-case letter, every other character is kept |
| Text.Lower | src/components/ProviderList.tsx:36 | `toLowerCase()` keeps the length and folds each character independently |
| Text.LowerIdempotent | src/components/ProviderList.tsx:36-40 | folding the already folded filter changes nothing |
| Text.ContainsIff | src/components/ProviderList.tsx:36 | `includes` holds iff the needle occurs at some offset of the haystack |
| Text.ContainsEmpty | src/components/ProviderList.tsx:36 | every string includes the empty string |
| Text.Contains | src/components/ProviderList.tsx:36 | `includes`: a prefix match here or an occurrence further on (characterized by `Text.ContainsIff`) |
| Text.LexLess | src/components/ProviderList.tsx:46 | string `<`: the first differing character decides, and a proper prefix comes first |
| Text.LexLessAsymmetric | src/components/ProviderList.tsx:46-47 | `a < b` and `b < a` never both hold on strings |
| Text.LexTotal | src/components/ProviderList.tsx:46-48 | two strings are equal or one is `<` the other, so the comparator's fall-through `0` means equal keys |
| Text.LexLessTransitive | src/components/ProviderList.tsx:46-47 | string `<` is transitive |
| Text.LexLeqTransitive | src/components/ProviderList.tsx:46-47 | the non-strict order on strings is transitive |
| Validation.FieldValid | src/components/ProviderForm.tsx:53-57 | a required field is valid iff it is not all white space and matches its pattern untrimmed; an optional field iff it is all white space or matches |
| Validation.NamePattern | src/components/ProviderForm.tsx:18 | at least two characters, each a letter, white space, `'` or `-` |
| Validation.EmailPattern | src/components/ProviderForm.tsx:20 | a run, `@`, a run, `.`, a run, where runs hold no white space or `@` and the `.` is any dot after the `@` |
| Validation.PracticePattern | src/components/ProviderForm.tsx:22 | at least two characters, none a line terminator |
| Validation.Pattern | src/components/ProviderForm.tsx:17-23 | the `regexes` table: names and specialty share one pattern |
| Validation.IsRequired | src/components/ProviderForm.tsx:41 | first name, last name and e-mail address are required |
| Validation.AllValid | src/components/ProviderForm.tsx:59-61 | the form is valid iff every one of the five keys is valid |
| Validation.ErrorShown | src/components/ProviderForm.tsx:90-92 | `errorShown(k)`, which picks the message text handed to the widget, holds only for a touched key, and for a touched key iff its value is invalid |
| Validation.RequiredBlankBlocksSubmit | src/components/ProviderForm.tsx:41 | a blank first name, last name or e-mail address makes the whole form invalid |
| Validation.EmailShape | src/components/ProviderForm.tsx:20 | a matching address holds exactly one `@` and no white space |
| Validation.RunShape | src/components/ProviderForm.tsx:20 | a `[^\s@]+` run holds neither `@` nor white space |
| Validation.AddressNeedsAt | src/components/ProviderForm.tsx:20 | an address without `@` is invalid |
| Validation.EmailFromRuns | src/components/ProviderForm.tsx:20 | any three runs joined by `@` and `.` match the address pattern |
| Validation.SpaceFreePracticeName | src/components/ProviderForm.tsx:22 | any practice name of two or more characters without white space is valid, since no such character is a line terminator |
| Validation.MatchingValueValid | src/components/ProviderForm.tsx:56 | a non-blank value matching its pattern is valid, required or not |
| Validation.ShortFirstNameRejected | src/tests/ProviderForm.test.tsx:148 | the first name `J` is invalid |
| Validation.SymbolLastNameRejected | src/tests/ProviderForm.test.tsx:157 | the last name `@-1Smith` is invalid |
| Validation.AddressWithoutAtRejected | src/tests/ProviderForm.test.tsx:139 | the address `not-an-email` is invalid |
| Validation.SampleAddressMatches | src/tests/ProviderForm.test.tsx:89 | `john@smith.com` matches the address pattern |
| Validation.SampleFieldValid | src/tests/ProviderForm.test.tsx:85-93 | each field of the tests' sample record is valid |
| Validation.SampleProviderAccepted | src/tests/ProviderForm.test.tsx:85-93 | the sample record Smith / John / john@smith.com / Cardiology / Smith Clinic passes `allValid` |
| Form.AllFlags | src/components/ProviderForm.tsx:70-76 | the touched record that sets every key to one flag |
| Form.PatternTest | src/components/ProviderForm.tsx:108 | each key's widget receives that key's pattern |
| Form.MessageVisible | src/components/ProviderForm.tsx:109 | a key's message is on screen iff the form's flag and the widget's own flag are both set, the value fails the pattern, and the key is invalid |
| Form.BlankNameHidden | src/components/ProviderForm.tsx:53-57 | a required name of two or more spaces blocks submission, yet its message never appears, since the widget's pattern accepts white space |
| Form.UntouchedWidgetHidden | src/components/ProviderForm.tsx:70-76 | a failed submit sets the form's flags only, so a widget that was never changed or blurred shows no message |
| Form.ProviderForm.constructor | src/components/ProviderForm.tsx:44-51 | a fresh form has empty values, no key touched, and `errorShown(k)` holds for no key |
| Form.ProviderForm.SubmitEnabled | src/components/ProviderForm.tsx:59-61 | the submit button is enabled iff every key is valid |
| Form.ProviderForm.HandleChange | src/components/ProviderForm.tsx:63-66 | only key `k` changes value and becomes touched; `errorShown(k)` now holds iff the new value is invalid; `errorShown` of every other key is unchanged |
| Form.ProviderForm.HandleSubmit | src/components/ProviderForm.tsx:68-88 | a valid form emits exactly its values, then clears them and every flag; an invalid one emits nothing, keeps its values, marks every key touched, so `errorShown(k)` holds exactly for each invalid key |
| Widget.IsValid | src/components/RegexInput.tsx:24 | without a pattern every value is valid; with one, validity is the pattern's verdict |
| Widget.NoErrorBeforeInteraction | src/components/RegexInput.tsx:43-47 | before any change or blur no error is rendered, even for an invalid value |
| Widget.NoErrorWithoutPattern | src/components/RegexInput.tsx:24 | a widget without a pattern never renders an error |
| Widget.ErrorOnceTouched | src/components/RegexInput.tsx:43-47 | once touched, the error is rendered iff the pattern refuses the value |
| Widget.ErrorRendered | src/components/RegexInput.tsx:43 | the error element appears iff the value is invalid and the widget is touched |
| Widget.RegexInput.constructor | src/components/RegexInput.tsx:22 | `touched` starts false |
| Widget.RegexInput.HandleChange | src/components/RegexInput.tsx:26-29 | the new text is forwarded unchanged and the widget becomes touched |
| Widget.RegexInput.HandleBlur | src/components/RegexInput.tsx:39 | a blur marks the widget touched |
| Store.InitialRecords | src/App.tsx:15-19 | the stored sequence when one is stored, the sample set otherwise |
| Store.Append | src/App.tsx:39 | one longer, every earlier record at its position, the new record last |
| Store.Remove | src/App.tsx:44 | removal never lengthens the sequence |
| Store.KeptBelow | src/App.tsx:44 | the count of unnamed positions below `n` is at most `n` |
| Store.RemoveCount | src/App.tsx:44 | as many records remain as there are unnamed positions |
| Store.RemoveKeeps | src/App.tsx:44 | the record at every unnamed index is kept, at the position given by how many unnamed indices precede it |
| Store.KeptBelowMonotone | src/App.tsx:44 | the count of kept positions grows with the bound |
| Store.KeptBelowStrict | src/App.tsx:44 | kept records keep their relative order: a later kept index lands strictly further right |
| Store.KeptPlusNamed | src/App.tsx:44 | every position below `n` is either kept or named |
| Store.RemoveLength | src/App.tsx:44 | the length after removal is `n` minus the number of distinct in-range indices |
| Store.RemoveDependsOnlyOnNamed | src/App.tsx:44 | order, repetition and out-of-range entries of `indices` have no effect |
| Store.RemoveNothing | src/App.tsx:44 | naming no in-range index removes nothing |
| Store.RemoveAppended | src/App.tsx:39-44 | removing the index of a just-appended record undoes the append |
| Store.RemoveLastOfThree | src/App.tsx:44 | removing `[2]` from `[A, B, C]` yields `[A, B]` |
| Pipeline.Indexed | src/components/ProviderList.tsx:33 | row `i` pairs record `i` with index `i` |
| Pipeline.MatchesAnyField | src/components/ProviderList.tsx:34-41 | the filter keeps a record iff some field, lower-cased, includes the lower-cased filter |
| Pipeline.Matches | src/components/ProviderList.tsx:34-41 | the five-way test: some field, lower-cased, includes the lower-cased filter |
| Pipeline.Filtered | src/components/ProviderList.tsx:32-41 | `filteredData`, characterized by `Pipeline.FilteredSpec` |
| Pipeline.FilterRows | src/components/ProviderList.tsx:34-41 | exactly the matching rows remain |
| Pipeline.FilterRowsIncreasing | src/components/ProviderList.tsx:34-41 | filtering keeps the rows in original order |
| Pipeline.FilteredSpec | src/components/ProviderList.tsx:32-41 | `filteredData` is in original order, pairs each record with its own index, and holds exactly the matching records |
| Pipeline.FilterRowsAllMatch | src/components/ProviderList.tsx:34-41 | when every row matches, filtering keeps them all in order |
| Pipeline.EmptyFilterKeepsAll | src/components/ProviderList.tsx:32-41 | with an empty filter, `filteredData` is every record in order with its index |
| Pipeline.FilterRowsSameTest | src/components/ProviderList.tsx:36-40 | filters that fold to the same text keep the same rows |
| Pipeline.FilterIgnoresCase | src/components/ProviderList.tsx:36-40 | the filter's own case does not matter |
| Pipeline.FilterFoldedOnce | src/components/ProviderList.tsx:36-40 | a filter typed already lower-cased selects the same rows as the original filter |
| Pipeline.Insert | src/components/ProviderList.tsx:43-49 | inserting adds exactly that row and keeps the others |
| Pipeline.SortRows | src/components/ProviderList.tsx:43-49 | `sortedData` is a permutation of `filteredData` |
| Pipeline.NotBeforeInOrder | src/components/ProviderList.tsx:44-48 | when the comparator does not put `b` first, `a` may stand before `b` |
| Pipeline.KeyOf | src/components/ProviderList.tsx:44-45 | a row's sort key is its `sortKey` field, lower-cased |
| Pipeline.Before | src/components/ProviderList.tsx:46-47 | the comparator is negative: for `asc` the smaller key first, for `desc` the larger |
| Pipeline.InsertSorted | src/components/ProviderList.tsx:43-49 | inserting into an ordered sequence keeps it ordered |
| Pipeline.InOrderTransitive | src/components/ProviderList.tsx:43-49 | the order the comparator allows is transitive in both directions |
| Pipeline.SortedPairwise | src/components/ProviderList.tsx:43-49 | in rows ordered pairwise by neighbours, every earlier row is in order with every later one |
| Pipeline.SortRowsSorted | src/components/ProviderList.tsx:43-49 | adjacent sorted rows are non-decreasing on the lower-cased key for `asc`, non-increasing for `desc` |
| Pipeline.WithKey | src/components/ProviderList.tsx:43-49 | exactly the rows with key `v` |
| Pipeline.WithKeySwap | src/components/ProviderList.tsx:43-49 | two rows with different keys can trade places without changing any key's rows |
| Pipeline.InsertStable | src/components/ProviderList.tsx:43-49 | insertion puts the new row ahead of every row with an equal key |
| Pipeline.SortStable | src/components/ProviderList.tsx:43-49 | for every key value, the rows with that key keep their input order, in either direction |
| Pipeline.WithKeyIncreasing | src/components/ProviderList.tsx:43-49 | the rows with one key, taken from an increasing sequence, are increasing |
| Pipeline.WithKeyAt | src/components/ProviderList.tsx:43-49 | a row with key `v` sits at its rank among the rows with key `v` |
| Pipeline.RankIncreases | src/components/ProviderList.tsx:43-49 | later rows with key `v` have higher ranks |
| Pipeline.VisibleSpec | src/components/ProviderList.tsx:32-49 | `sortedData` is a permutation of `filteredData`, ordered by key, each row paired with its own index, and holds record `i` iff it matches |
| Pipeline.Visible | src/components/ProviderList.tsx:43-49 | `sortedData`, characterized by `Pipeline.VisibleSpec` and `Pipeline.VisibleStable` |
| Pipeline.VisibleStable | src/components/ProviderList.tsx:43-49 | in `sortedData`, rows with equal keys appear in increasing original index |
| Pipeline.DistinctCount | src/components/ProviderList.tsx:43-49 | a sequence without repeats holds each row at most once |
| Pipeline.PermutationDistinct | src/components/ProviderList.tsx:43-49 | reordering a sequence without repeats introduces none |
| Pipeline.DistinctIndicesCount | src/components/ProviderList.tsx:80 | rows with distinct indices give as many indices as rows |
| Pipeline.VisibleIndicesCount | src/components/ProviderList.tsx:80 | the visible rows carry as many distinct original indices as there are rows, each naming a record |
| ListEngine.Toggle | src/components/ProviderList.tsx:65-75 | membership of `i` flips and every other member is unchanged |
| ListEngine.ToggleTwice | src/components/ProviderList.tsx:65-75 | toggling the same index twice restores the selection |
| ListEngine.NextSort | src/components/ProviderList.tsx:51-58 | a click on the sort column flips the direction; any other column becomes the key, ascending |
| ListEngine.NextSortTwice | src/components/ProviderList.tsx:51-58 | two clicks on the sort column restore the sort |
| ListEngine.NewHeaderTwice | src/components/ProviderList.tsx:51-58 | two clicks on a new column sort by it descending |
| ListEngine.SortIndicator | src/components/ProviderList.tsx:60-63 | only the sort column shows an arrow: ` ▲` when ascending and ` ▼` when descending |
| ListEngine.SelectAllTarget | src/components/ProviderList.tsx:77-83 | equal sizes clear the selection; otherwise it becomes exactly the visible rows' original indices |
| ListEngine.SelectAllThenClear | src/components/ProviderList.tsx:77-83 | after select-all selects the visible rows, the next select-all clears them |
| ListEngine.FilteredViewKeepsIndex | src/components/ProviderList.tsx:32-41 | a filter that hides the first of three records still shows the third under its original index 2 |
| ListEngine.SelectAllBySizeOnly | src/components/ProviderList.tsx:78 | a selection of the right size that holds a hidden row counts as all selected and is cleared |
| ListEngine.SelectAllChecksHeader | src/components/ProviderList.tsx:154-156 | after select-all, the header is checked iff the previous selection size differed from the visible row count and some row is visible |
| ListEngine.HeaderChecked | src/components/ProviderList.tsx:154-156 | the header checkbox is checked iff the selection is as large as the visible rows and some row is visible |
| ListEngine.Commit | src/components/ProviderList.tsx:112-120 | no update iff the trimmed draft equals the stored value; otherwise the same number of records, where only that field of that record changes, to the untrimmed draft |
| ListEngine.CommitUntouchedCell | src/components/ProviderList.tsx:99-120 | editing a cell and leaving without typing re-emits unchanged data when the stored value has white space at either end, and emits nothing otherwise |
| ListEngine.CommitSettles | src/components/ProviderList.tsx:112-120 | a draft without surrounding white space, once stored, commits nothing again |
| ListEngine.CommitTrimmedDraft | src/components/ProviderList.tsx:112-113 | trimming the draft before blur does not change whether an update is emitted |
| ListEngine.CommitUntrimmedRepeats | src/components/ProviderList.tsx:112-120 | a draft with surrounding white space, once stored, re-emits the same data on every later commit |
| ListEngine.ListOf | src/components/ProviderList.tsx:86 | `Array.from(selected)` lists every member exactly once |
| ListEngine.RemoveSelection | src/App.tsx:44 | removing a listed selection of in-range indices drops exactly one record per selected index |
| ListEngine.ProviderList.constructor | src/components/ProviderList.tsx:20-30 | no filter, sorted by last name ascending, nothing selected or edited |
| ListEngine.ProviderList.Rows | src/components/ProviderList.tsx:43-49 | the rows on screen are `sortedData` of the current state |
| ListEngine.ProviderList.RemoveEnabled | src/components/ProviderList.tsx:481 | the remove button is enabled iff the selection is non-empty |
| ListEngine.ProviderList.Receive | src/components/ProviderList.tsx:15-19 | new props replace the records and keep every piece of local state; a selection of original indices stays one when the new sequence is no shorter |
| ListEngine.ProviderList.SetFilter | src/components/ProviderList.tsx:438 | only the filter changes |
| ListEngine.ProviderList.SetSortKey | src/components/ProviderList.tsx:451 | only the key changes; the direction is kept |
| ListEngine.ProviderList.ToggleSortDirection | src/components/ProviderList.tsx:463-466 | only the direction flips |
| ListEngine.ProviderList.HandleSort | src/components/ProviderList.tsx:51-58 | the new key and direction are `NextSort` of the old ones; nothing else changes |
| ListEngine.ProviderList.HandleSelect | src/components/ProviderList.tsx:65-75 | only index `i` changes membership, whatever `i` and the selection are; a selection of original indices toggled at a record's index still holds only original indices |
| ListEngine.ProviderList.HandleSelectAll | src/components/ProviderList.tsx:77-83 | from any selection, stale ones included, the selection becomes `SelectAllTarget` of the visible rows, and afterwards holds only original indices |
| ListEngine.ProviderList.HandleRemove | src/components/ProviderList.tsx:85-88 | every selected index is handed over exactly once, then the selection is empty |
| ListEngine.ProviderList.HandleCellDoubleClick | src/components/ProviderList.tsx:99-106 | that cell is being edited and the draft is its stored value |
| ListEngine.ProviderList.HandleCellInputChange | src/components/ProviderList.tsx:108-110 | only the draft changes |
| ListEngine.ProviderList.HandleCellInputBlur | src/components/ProviderList.tsx:112-120 | the update is `Commit` of the draft, and editing ends |
| ListEngine.ProviderList.HandleCellInputKeyDown | src/components/ProviderList.tsx:122-126 | Enter and Escape both commit the edited cell and end editing; other keys change nothing |

## Left out

- Rendering: the JSX of every component, the table and list views, `ProviderTable.tsx`, `ProviderListView.tsx` and the `viewMode` toggle only present the modelled state.
- Persistence: `localStorage`, `JSON.parse`/`JSON.stringify`, `console.log` and the save effect are foreign I/O. The initial load is modelled as a choice over an optional stored sequence.
- `constants.ts` (label and message tables), `jest.config.ts` and the sample data asset hold no logic; the sample data is a parameter.
- Text.Lower: folds ASCII capitals only, not the whole Unicode case mapping of `toLowerCase()`.
- Text.IsSpace: the `\s`/`trim()` set is written out for characters; strings are sequences of code points, not UTF-16 code units, so `{2,}`, `.` and `<` count and compare code points.
- Widget.IsValid: a pattern is an abstract predicate on the text; the widget's regular expression engine is not modelled (the form's own patterns are written out in `Validation`).
- Form.ProviderForm.HandleChange, Form.ProviderForm.HandleSubmit: their contracts speak of `errorShown(k)`, which only chooses the message text passed to the widget; whether the message is on screen also depends on the widget's own pattern test and `touched` flag (`Form.MessageVisible`). The widgets' flags are not fields of the form class.
- ListEngine.ProviderList.HandleCellDoubleClick: takes no `value` parameter and reads the stored value `providers[row][col]` itself; every call site in the view passes exactly that row's `provider[col]`, so the two are the same.
- The form's `touched` record and each widget's own `touched` flag are separate states; the model keeps them separate, as the code does.
- ListEngine.ProviderList.Receive: local state persists across new props, as the component's `useState` does, so a shorter props sequence keeps stale selected indices. The selection holds only original indices while the parent shrinks the list only through `onRemove`; `HandleRemove` clears the selection in the same update.
- Form.UntouchedWidgetHidden, Form.ProviderForm.HandleSubmit: the submit button is disabled while the form is invalid (`src/components/ProviderForm.tsx:115`), so the invalid branch of `handleSubmit` runs only when the form is submitted some other way.
- ListEngine.ProviderList.HandleCellInputBlur: the code indexes `providers[rowIdx]` without a check, so the model requires the edited row to exist.
- ListEngine.ListOf: JavaScript sets iterate in insertion order; the model lists the members in an unspecified order. The store's removal does not depend on that order (`Store.RemoveDependsOnlyOnNamed`).
- `App.tsx` renders `ProviderTable`, not `ProviderList`, so no edit update reaches the store in this version. `ListEngine.RemoveThirdScenario` filters the first of three records out of view, selects the third by its original index, and composes the removal with `Store.Remove` directly.
- Form.SampleSubmission: a client scenario that replays the form test's sample submission (`src/tests/ProviderForm.test.tsx:96-130`); its assertions check the submitted record and the reset form inside its body, and it has no `ensures`, so it has no row in the table.
