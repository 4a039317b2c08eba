# DataTable and InputField — a Dafny model

This project models the state logic of two React components of a UI kit:

- **DataTable** (`src/components/ui/DataTable.tsx`). This covers how a row is keyed (`getRowKey`) and the derived display order (`sortedData`): the comparator and the copy-and-sort. It also covers the three-state header-click machine (`handleSort`), select-all and single-row selection with the list each reports to `onRowSelect`, and the header checkbox's "all selected" and "indeterminate" flags.
- **InputField** (`src/components/ui/InputField.tsx`). This covers the local state (`showPassword`, `internalValue`) and the controlled/uncontrolled value. It also covers the change, clear and password-toggle handlers, and what the render derives from props and state: validity, input type, `disabled`, which adornment shows, and the description text with its `aria-describedby`.

Layout:

| file | module | contents |
|---|---|---|
| `wrappers.dfy` | `Wrappers` | the `Option` type |
| `table_sort.dfy` | `TableSort` | records, columns, sort state, both comparators, the stable sort and its correctness and uniqueness, the display order, the header-click machine |
| `table_selection.dfy` | `TableSelection` | row keys, the selection set, the filter that builds the reported list, the indicator flags |
| `data_table.dfy` | `DataTableComponent` | the `DataTable` class: `sortState` and `selectedRows` as fields, its handlers as methods |
| `table_examples.dfy` | `TableExamples` | concrete records: a sort cycle, a selection in display order, a collision of row keys |
| `input_field.dfy` | `InputFieldComponent` | the derivations as functions, and the `InputField` class with its handlers |

Modelling choices:

- A record is a `map<string, int>`. A field missing from the map stands for both `null` and `undefined`, which the component treats alike. Cells and row keys use the one value type `int`.
- `rowKey` is either a field name or a function of the record. The default is the field `id`.
- Props are `const` fields of each class, fixed when it is constructed. State the component keeps with `useState` is a `var` field that the handler methods assign.
- Callbacks are modelled by what the component hands them. For `onRowSelect`, the methods return the list of records. For `onChange` and `onClear`, they return how many times the callback runs: 0 when it was not supplied, 1 when it was.
- When a comparator is consistent, `Array.prototype.sort` is specified by ECMA-262 as a stable sort. That sort is modelled as an insertion sort (`SortBy`). `StableSortIsUnique` shows that any sorted, stable rearrangement of the input equals `SortBy`, so the choice of sorting algorithm does not affect the order.

Falsy values in the code:

- `getRowKey` returns `record[rowKey] || index`, so a field value of `0` falls back to the index, not only a missing one. A record with `id` 0 can therefore take another row's key. `DefaultRowKeyFallsBack` and `FalsyIdCollisionExample` show this.
- A sort key of `""` is treated like no sort at all, because `!sortState.key` is true for it.

## Model

| member | source | states |
|---|---|---|
| TableSort.CompareAsWritten | src/components/ui/DataTable.tsx:70-77 | the comparator as the code passes it to `sort`; CompareAsWrittenIsInconsistent and AbsentComparesLast state its behaviour, and Compare agrees with it except on two absent values |
| TableSort.ActiveSort | src/components/ui/DataTable.tsx:57-64 | which sort applies to `sortedData`, if any; ActiveSortCases states its cases as an if-and-only-if |
| TableSort.DisplayOrder | src/components/ui/DataTable.tsx:56-79 | `sortedData`; DisplayOrderCorrect states that it is `data` or its sorted, stable permutation |
| TableSort.NextSortState | src/components/ui/DataTable.tsx:82-93 | the `setSortState` updater of `handleSort`; NextSortStateCases, NextSortStatePreservesWellFormed and ThreeClicksRestore state its transitions |
| TableSelection.RowKey | src/components/ui/DataTable.tsx:49-54 | `getRowKey`; RowKeyPositionIndependent and DefaultRowKeyFallsBack state when it uses the index |
| TableSelection.AllKeys | src/components/ui/DataTable.tsx:98 | the set select-all installs; SelectAllReportsDisplayed and SelectAllIndicators state what the filter and the flags make of it |
| TableSelection.SelectedIndicesFrom | src/components/ui/DataTable.tsx:119-121 | the positions the filter keeps; SelectedIndicesFromBounds, SelectedIndicesFromAscending and SelectedIndicesFromMembers characterise them |
| TableSelection.SelectedDataFrom | src/components/ui/DataTable.tsx:119-121 | the records the filter keeps; SelectedDataFromMatches ties them to the kept positions |
| TableSelection.IsAllSelected | src/components/ui/DataTable.tsx:149 | `isAllSelected`; IndicatorsExclusive and SelectAllIndicators state its properties |
| TableSelection.IsIndeterminate | src/components/ui/DataTable.tsx:150 | `isIndeterminate`; IndicatorsExclusive and SelectAllIndicators state its properties |
| DataTableComponent.DataTable.Displayed | src/components/ui/DataTable.tsx:56-79 | `sortedData` for the current state; DisplayOrderCorrect states its properties |
| DataTableComponent.DataTable.AllSelected | src/components/ui/DataTable.tsx:149 | the header checkbox's checked flag; HandleSelectAll states its value after select-all |
| DataTableComponent.DataTable.Indeterminate | src/components/ui/DataTable.tsx:150 | the header checkbox's partial mark; HandleSelectAll states its value after select-all |
| InputFieldComponent.InitialInternalValue | src/components/ui/InputField.tsx:99 | `useState(value \|\| "")`; DisplayedValueModes and the InputField constructor state the value shown on mount |
| InputFieldComponent.ActualValue | src/components/ui/InputField.tsx:100 | `actualValue`; DisplayedValueModes states the controlled and uncontrolled cases |
| InputFieldComponent.IsInvalid | src/components/ui/InputField.tsx:101 | `isInvalid`; InvalidCases states its cases |
| InputFieldComponent.InputType | src/components/ui/InputField.tsx:121 | `inputType`; InputTypeCases states its cases |
| InputFieldComponent.InputDisabled | src/components/ui/InputField.tsx:146 | the input's `disabled`; AdornmentCases states it |
| InputFieldComponent.SpinnerVisible | src/components/ui/InputField.tsx:153 | the spinner is rendered; AdornmentCases states when |
| InputFieldComponent.ClearButtonVisible | src/components/ui/InputField.tsx:159 | the clear button is rendered; AdornmentCases and HandleClear state when |
| InputFieldComponent.PasswordToggleVisible | src/components/ui/InputField.tsx:174 | the password toggle is rendered; AdornmentCases states when |
| InputFieldComponent.PasswordToggleLabel | src/components/ui/InputField.tsx:179 | the toggle's `aria-label`; TogglePasswordVisibility states that a toggle changes it |
| InputFieldComponent.DescriptionId | src/components/ui/InputField.tsx:149 | the description's id; DescriptionCases states that `aria-describedby` names it |
| InputFieldComponent.Description | src/components/ui/InputField.tsx:187-193 | the description paragraph's text; DescriptionCases states its cases |
| InputFieldComponent.DescribedBy | src/components/ui/InputField.tsx:148-150 | `aria-describedby`; DescriptionCases states that it appears with the paragraph |
| TableSort.Project | src/components/ui/DataTable.tsx:67-71 | `a[column.dataIndex]` with null and undefined read alike as absent; AbsentComparesLast and SortByCorrect state how absent and present values are ordered |
| TableSort.CompareOn | src/components/ui/DataTable.tsx:66-78 | the comparison function handed to `sort`, applied to two records; SortByCorrect and StableSortIsUnique state the order it induces |
| InputFieldComponent.Controlled | src/components/ui/InputField.tsx:100 | `value !== undefined`, which also guards lines 104 and 111; DisplayedValueModes, HandleChange and HandleClear state what it decides |
| InputFieldComponent.InputField.DisplayedValue | src/components/ui/InputField.tsx:100 | `actualValue`, shown as `value={actualValue}` at line 144; the InputField constructor, HandleChange and HandleClear state its value after each step |
| TableSort.Compare | src/components/ui/DataTable.tsx:70-77 | the corrected comparator used for the display order; CompareIsConsistent, AbsentComparesLast, DescIsReversedAsc and CompareZeroIffEqual state its properties |
| TableSort.CompareAsWrittenIsInconsistent | src/components/ui/DataTable.tsx:70-77 | as written, an absent value compares greater than another absent value (and itself), so the comparator breaks ECMA-262's consistency conditions |
| TableSort.CompareIsConsistent | src/components/ui/DataTable.tsx:70-77 | the corrected comparator meets every ECMA-262 consistency condition, in both directions |
| TableSort.AbsentComparesLast | src/components/ui/DataTable.tsx:70-71 | an absent value compares after a present one in both directions, for both comparators |
| TableSort.DescIsReversedAsc | src/components/ui/DataTable.tsx:73-77 | between present values descending is the negation of ascending, and ascending orders by the numbers |
| TableSort.CompareAntisymmetric | src/components/ui/DataTable.tsx:70-77 | a > b exactly when b < a |
| TableSort.CompareTransitive | src/components/ui/DataTable.tsx:70-77 | "not after" is transitive |
| TableSort.CompareZeroIffEqual | src/components/ui/DataTable.tsx:70-77 | the comparison is 0 exactly for equal values, absent ones included |
| TableSort.Insert | src/components/ui/DataTable.tsx:66 | inserting gives the old elements plus the new one, as a multiset |
| TableSort.SortBy | src/components/ui/DataTable.tsx:66 | the sort is a permutation of the copied data |
| TableSort.GroupAppend | src/components/ui/DataTable.tsx:66 | the records with a given value in a concatenation are those of each part, in order |
| TableSort.InsertLowerBound | src/components/ui/DataTable.tsx:66 | a record that is not after `x` nor after any element stays a lower bound after inserting `x` |
| TableSort.SortedCons | src/components/ui/DataTable.tsx:66 | a lower bound put in front of a sorted sequence keeps it sorted |
| TableSort.SortedSplit | src/components/ui/DataTable.tsx:66 | the head of a sorted sequence is a lower bound of its tail, and the tail is sorted |
| TableSort.HeadLowerBound | src/components/ui/DataTable.tsx:66 | a record not after the head of a sorted sequence is a lower bound of all of it |
| TableSort.InsertSorted | src/components/ui/DataTable.tsx:66 | inserting into a sorted sequence keeps it sorted |
| TableSort.GroupSingleton | src/components/ui/DataTable.tsx:66 | a one-record sequence has records only for that record's value |
| TableSort.GroupSwap | src/components/ui/DataTable.tsx:66 | two records that compare unequal never share a value class |
| TableSort.InsertStableSwap | src/components/ui/DataTable.tsx:66 | moving `x` past an unequal head keeps every value class in order |
| TableSort.InsertStableAt | src/components/ui/DataTable.tsx:66 | inserting `x` keeps the records of each value in the order of `[x] + s` |
| TableSort.InsertStable | src/components/ui/DataTable.tsx:66 | insertion is stable for every value |
| TableSort.SortBySorted | src/components/ui/DataTable.tsx:66-78 | the sort's output is sorted by the comparator |
| TableSort.SortByStable | src/components/ui/DataTable.tsx:66-78 | the sort's output keeps records with equal values in input order |
| TableSort.SortByCorrect | src/components/ui/DataTable.tsx:66-78 | the output is a permutation of the data and is sorted and stable; absent values come last; present values ascend under asc and descend under desc |
| TableSort.GroupMember | src/components/ui/DataTable.tsx:66 | every record in a value class comes from the sequence and has that value |
| TableSort.SortedHeadFirst | src/components/ui/DataTable.tsx:66 | the head of a sorted sequence is not after any of its elements |
| TableSort.GroupHead | src/components/ui/DataTable.tsx:66 | the class of the head's value starts with the head |
| TableSort.SortedHeadsEqual | src/components/ui/DataTable.tsx:66 | two sorted sequences whose classes agree on both heads' values start with the same record |
| TableSort.TailGroupsEqual | src/components/ui/DataTable.tsx:66 | dropping equal heads keeps all classes equal |
| TableSort.SortedGroupsDetermine | src/components/ui/DataTable.tsx:66 | two sorted sequences with the same classes are equal |
| TableSort.StableSortIsUnique | src/components/ui/DataTable.tsx:66-78 | every sorted, stable rearrangement of the data is the model's sort, so every conforming stable sort shows the same order |
| TableSort.FindColumn | src/components/ui/DataTable.tsx:61 | no column is found exactly when no column has the key; otherwise the result is the first column with that key |
| TableSort.ActiveSortCases | src/components/ui/DataTable.tsx:56-64 | no sort applies exactly when the key is null or empty, the direction is null, no column matches, or the matching column is not sortable; otherwise the sort uses the state's direction and a sortable column with the key |
| TableSort.DisplayOrderCorrect | src/components/ui/DataTable.tsx:56-79 | the display always holds exactly the data's records; it is the data itself when no sort applies, and otherwise sorted and stable on the active column |
| TableSort.NextSortStateCases | src/components/ui/DataTable.tsx:81-94 | a click on an unsortable header changes nothing; on the active column asc goes to desc and desc goes to unsorted; from any state whose key is another column, or whose key is this column with no direction, the clicked column becomes active ascending |
| TableSort.NextSortStatePreservesWellFormed | src/components/ui/DataTable.tsx:81-94 | a click keeps the key null exactly when the direction is |
| TableSort.ThreeClicksRestore | src/components/ui/DataTable.tsx:56-94 | three clicks on an inactive sortable column go asc, then desc, then unsorted, and the display returns to the original data |
| TableSort.ClickSortsByClickedColumn | src/components/ui/DataTable.tsx:57-94 | with unique column keys, clicking an inactive sortable column with a non-empty key sorts ascending on that column's field |
| TableSelection.RowKeyPositionIndependent | src/components/ui/DataTable.tsx:49-54 | a row's key is the same at every position exactly when `rowKey` is a function or the named field is truthy |
| TableSelection.DefaultRowKeyFallsBack | src/components/ui/DataTable.tsx:41-54 | with the default key, a truthy `id` is the key and anything else gives the index; an `id` of 0 at index 2 collides with an `id` of 2 |
| TableSelection.KeysUpTo | src/components/ui/DataTable.tsx:98 | every key of the first n rows is in the set |
| TableSelection.KeysUpToWitness | src/components/ui/DataTable.tsx:98 | every key in the set belongs to one of the first n rows |
| TableSelection.KeysUpToSize | src/components/ui/DataTable.tsx:98 | the set has at most n keys, and exactly n when the first n rows' keys are distinct |
| TableSelection.Toggle | src/components/ui/DataTable.tsx:107-115 | the row's key is in the new set exactly when `checked`; every other key is as before |
| TableSelection.ToggleIdempotent | src/components/ui/DataTable.tsx:107-115 | setting a row to the same value twice gives the same set as once |
| TableSelection.SelectedIndicesFromBounds | src/components/ui/DataTable.tsx:119-121 | the filter keeps positions from the start point to the end only |
| TableSelection.SelectedIndicesFromAscending | src/components/ui/DataTable.tsx:119-121 | the filter keeps positions in ascending order |
| TableSelection.SelectedIndicesFromMembers | src/components/ui/DataTable.tsx:119-121 | a position is kept exactly when its row's key is selected |
| TableSelection.SelectedIndices | src/components/ui/DataTable.tsx:119-121 | the positions kept are in range and ascending, and a position is kept exactly when its row's key is selected |
| TableSelection.SelectedDataFromMatches | src/components/ui/DataTable.tsx:119-121 | the filtered records are the records at the kept positions, in order |
| TableSelection.SelectedData | src/components/ui/DataTable.tsx:119-122 | the reported list is the displayed records at the kept positions, in display order |
| TableSelection.SelectedAllFrom | src/components/ui/DataTable.tsx:119-121 | when every row's key is selected, the filter keeps every row |
| TableSelection.SelectedNoneFrom | src/components/ui/DataTable.tsx:119-121 | when no row's key is selected, the filter keeps nothing |
| TableSelection.SelectAllReportsDisplayed | src/components/ui/DataTable.tsx:96-105 | filtering by all displayed keys reports the whole display, and filtering by the empty set reports nothing, so select-all's lists agree with the row filter |
| TableSelection.ToggleReportsRow | src/components/ui/DataTable.tsx:107-122 | after checking, the row is reported; after unchecking, no row with its key is; every row with another key is reported exactly as before |
| TableSelection.IndicatorsExclusive | src/components/ui/DataTable.tsx:149-150 | "all selected" and "indeterminate" are never both on, and neither is on with nothing selected |
| TableSelection.SelectAllIndicators | src/components/ui/DataTable.tsx:149-150 | the flags of lines 149-150 over the set select-all installs at line 98: after select-all, "all selected" holds exactly when the display is non-empty with distinct keys; "indeterminate" holds exactly when it is non-empty with a repeated key |
| DataTableComponent.DataTable.constructor | src/components/ui/DataTable.tsx:35-47 | mounting keeps the props, with nothing sorted and nothing selected |
| DataTableComponent.DataTable.HandleSort | src/components/ui/DataTable.tsx:81-94 | the sort state takes the click transition, stays well formed, and is unchanged for an unsortable column |
| DataTableComponent.DataTable.HandleSelectAll | src/components/ui/DataTable.tsx:96-105 | checking selects every displayed key and reports the display; unchecking clears and reports nothing; either list equals the row filter for the new set; after checking, "all selected" shows exactly when the display is non-empty with distinct keys and "indeterminate" exactly when it is non-empty with a repeated key; after unchecking neither shows |
| DataTableComponent.DataTable.HandleRowSelect | src/components/ui/DataTable.tsx:107-123 | the row's key is added or removed with nothing else changed, and the displayed rows with a selected key are reported in display order |
| DataTableComponent.ToggleTwice | src/components/ui/DataTable.tsx:107-123 | the same toggle twice leaves the set of a single toggle, reports the same list both times, and leaves the sort state alone |
| DataTableComponent.ThreeClicks | src/components/ui/DataTable.tsx:81-94 | three clicks from mount leave the table unsorted, showing the data as given, with the selection untouched |
| TableExamples.NamesOfRows | src/components/ui/DataTable.tsx:67-68 | the sample records' name fields |
| TableExamples.SortAscExample | src/components/ui/DataTable.tsx:66-78 | ascending on name puts the three sample rows in name order |
| TableExamples.SortDescExample | src/components/ui/DataTable.tsx:66-78 | descending on name reverses that order |
| TableExamples.SortCycleExample | src/components/ui/DataTable.tsx:56-94 | clicking the name header cycles the display through ascending, descending and original order |
| TableExamples.SelectionExample | src/components/ui/DataTable.tsx:107-122 | in the unsorted display, checking id 2 then id 1 reports id 1 first, so rows are reported in display order, here the reverse of click order; unchecking id 2 leaves id 1 |
| TableExamples.FalsyIdCollisionExample | src/components/ui/DataTable.tsx:49-54 | a record with `id` 0 at index 1 shares key 1 with the first record, so checking the first row reports both |
| InputFieldComponent.DisplayedValueModes | src/components/ui/InputField.tsx:99-100 | on mount the field shows `value` or ""; a controlled field always shows `value`, an uncontrolled one its internal value |
| InputFieldComponent.InvalidCases | src/components/ui/InputField.tsx:101 | the field is invalid exactly when `invalid` is set or a non-empty error message is given |
| InputFieldComponent.InputTypeCases | src/components/ui/InputField.tsx:121 | a password field is "text" exactly when shown and "password" exactly when hidden; any other field keeps its `type`; flipping visibility changes a password field's type |
| InputFieldComponent.AdornmentCases | src/components/ui/InputField.tsx:146-183 | loading disables the input and shows only the spinner; otherwise the clear button shows exactly with the option on and text present, and the toggle exactly for password fields |
| InputFieldComponent.DescriptionCases | src/components/ui/InputField.tsx:148-150 | the description and `aria-describedby` appear together, the attribute names the paragraph's id, and the text is the error message when there is one, else the helper text |
| InputFieldComponent.InputField.constructor | src/components/ui/InputField.tsx:98-99 | mounting hides the password and starts the internal value at `value` or "" |
| InputFieldComponent.InputField.HandleChange | src/components/ui/InputField.tsx:103-108 | an uncontrolled field takes the typed text, a controlled one keeps showing `value`; `onChange` runs once when supplied |
| InputFieldComponent.InputField.HandleClear | src/components/ui/InputField.tsx:110-115 | an uncontrolled field is emptied and its clear button hidden; a controlled one is untouched; `onClear` runs once when supplied |
| InputFieldComponent.InputField.TogglePasswordVisibility | src/components/ui/InputField.tsx:117-121 | visibility flips, which swaps a password field between "password" and "text" and changes the toggle's label |
| InputFieldComponent.ToggleTwice | src/components/ui/InputField.tsx:117-121 | two toggles restore visibility and input type |

## Findings

| source | as written | input that shows it | evidently intended | confidence | as-written member | corrected member |
|---|---|---|---|---|---|---|
| src/components/ui/DataTable.tsx:70-71 | the comparator returns 1 whenever the left value is null or undefined, even when the right one is too, so two absent values each compare greater than the other and ECMA-262 does not call it consistent | two records that both lack the sorted field, e.g. `{id: 1}` and `{id: 2}` sorted on `name` | return 0 when both values are absent so such records keep their input order, as the rest of the comparator does for equal values | not executed; found by proof | TableSort.CompareAsWrittenIsInconsistent | TableSort.CompareIsConsistent |

The display order in the model (`TableSort.DisplayOrder`, `TableSort.SortByCorrect`) uses the corrected comparator, `TableSort.Compare`.

## Left out

- Rendering, styling and markup are not modelled. This covers class names, `getSizeClasses`, the size and variant props, the `Checkbox` component, icons, the loading overlay, the empty-table text, the label element and ARIA attributes other than `aria-describedby` and the password toggle's `aria-label`.
- Column `render` callbacks and the `String(value ?? '')` cell text are not modelled, because they only affect what a cell shows.
- Cell values and row keys have a single type, `int`. The mixed string/number comparison of JavaScript's `>` and `<` is not modelled.
- `null` and `undefined` are not distinguished, because the component treats them alike.
- DataTable props are fixed per instance. New `data` or `columns` arriving on a re-render are not modelled, nor is a selection that has gone stale because rows were removed.
- Whether `onRowSelect` is supplied is not modelled. The handlers always return the list it would be given.
- TableSort.DisplayOrder: no sort result is modelled for the comparator as written. ECMA-262 leaves the order implementation-defined for an inconsistent comparator, so only the corrected one is sorted with (see Findings).
- InputFieldComponent.InputField.HandleChange: the event object handed to `onChange` is reduced to the typed text, and the callback to a count of its calls.
- InputFieldComponent.InputField.HandleClear: `onClear` is reduced to a count of its calls.
- A `value` of `null` is not modelled. `value` is either a string or omitted.
- React's batching and asynchronous state updates are not modelled. Each handler's update is applied at once.
- The remaining components of the kit (theme toggle, badge, stories, demo pages, screenshot configuration) are not part of this model.
