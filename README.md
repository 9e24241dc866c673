# User table: search, pagination, inline editing and deletion

A Dafny model of the state machine behind an admin table of users. The page loads a
list of user records (`id`, `name`, `email`, `role`) once. It then shows them five to a
page, filtered by a case-insensitive search. Rows can be edited inline and deleted
singly or in bulk, and a strip of First / Previous / page / Next / Last controls moves
between pages. Searching, paging, deleting and committing a cell end with a full
re-render from the record list. The Edit button does not: both of its paths stop at a
`replaceChild` that throws (see "## Findings").

The model has three modules:

- `Records` (Records.dfy): the record, ASCII lower-casing, `includes` as substring
  containment, `Array.prototype.filter` as `Keep`, the search `Filter`, `findIndex` as
  `FindIndex`, and deletion by one id (`RemoveId`) or by a list of ids (`RemoveIds`).
- `Pagination` (Pagination.dfy): the page count (`TotalPages`), the 5-row window of a
  page (`PageWindow`), the page a render settles on after stepping back from an empty
  page (`SettledPage`), the clamp of a navigation target (`Clamp`), and the control strip
  with its enable/disable rule (`StripLength`, `StripAt`, `IsDisabled`, `Target`).
- `Table` (Table.dfy): class `TableController` holds the mutable state of script.js.
  - `userData`: the record list.
  - `searchText`: the search box.
  - `currentPage` and `totalPages`.
  - `rows`: the rendered table body. Each row has its checkbox, its edit-mode flag
    (`editable-row`), whether its cells react to clicks, whether it shows Save/Cancel,
    and three cells. A cell is either text or an open input holding the typed value and
    the text it started from.
  - `controls`: the pagination strip.
  - `selectAll`: the select-all checkbox.

  The methods are the handlers. Each one changes the fields its `modifies` clause names
  and states the new state. `Valid()` is the invariant kept between events:
  - the page index is at least 1, and within 1..totalPages when pages exist;
  - the page count and the strip match the listing;
  - the rows stand for the records of the current page, in order;
  - at most one row is in edit mode, and no row shows Save/Cancel (as the code runs,
    Save/Cancel never appear).

Where the documented behaviour and the code differ, the model follows the code:

- Edit on a row not in edit mode (script.js:167-184) takes every row out of edit mode
  and puts this row in it, with cells that open an input when clicked. It then tries to
  swap the Edit and Delete buttons for Save and Cancel with `row.replaceChild`. Those
  buttons sit inside a cell, not directly in the row, so the call throws: the row keeps
  its Edit and Delete buttons and nothing is rendered. `EditRow` ensures
  `rows == EditRows(old(rows), id)`, and `EditKeepsEditDelete` shows the buttons stay.
- Edit on the row in edit mode (script.js:163-165) runs `saveOrCancelEdit`, the handler
  Save and Cancel were meant to share. It takes every row out of edit mode, which turns
  open inputs into text. No Save button exists, so `row.querySelector('.saveBtn')` is
  null and `replaceChild` throws before `renderTable()`. Nothing is written into the
  records and nothing is re-rendered: ticked boxes stay ticked and cells keep their click
  listeners. `SaveOrCancelEdit` ensures `rows == LeaveAllRows(old(rows))` and changes no
  other field. Only the blur of a cell's input (`finishEditing`, reached by Enter, Escape
  or losing focus) writes a field.
- When no record matches, `totalPages` is 0 and the render leaves `currentPage` as it
  was: the step back only happens when pages exist.
- Taking a row out of edit mode does not remove the click listeners its cells received.
  Until the next render, a click on such a cell still opens an input. `Row.listening`
  models this.
- A click on Edit therefore leaves the page index, the strip, the records and the
  select-all box as they were; `EditRow` modifies `rows` only.

## Model

| member | source | states |
|---|---|---|
| `Records.Set` | script.js:255 | writing a field sets exactly that field to the value; the id and the other fields are unchanged |
| `Records.SetSameValue` | script.js:236-237 | writing back a field's own value leaves the record unchanged |
| `Records.Lower` | script.js:39-41 | lower-casing keeps the length and lower-cases each character (ASCII letters only) |
| `Records.LowerIdempotent` | script.js:39-41 | lower-casing twice is lower-casing once |
| `Records.Contains` | script.js:41 | `includes` holds exactly when the term occurs at some position of the value |
| `Records.ContainsEmpty` | script.js:41 | every value contains the empty term |
| `Records.Keep` | script.js:40 | the filter is no longer than its input, keeps a record exactly when the predicate holds, and is an order-preserving subsequence of its input |
| `Records.KeepAll` | script.js:40 | when every record passes, the filter returns its input unchanged |
| `Records.KeepKeep` | script.js:154 | filtering by one predicate and then another equals filtering once by their conjunction |
| `Records.KeepAppend` | script.js:40-42 | filtering a concatenation concatenates the filtered parts, so relative order is kept |
| `Records.Matches` | script.js:41 | a record matches exactly when its lower-cased id, name, email or role contains the lower-cased term |
| `Records.Filter` | script.js:39-42 | a record is listed exactly when some lower-cased field value contains the lower-cased term; the listing is an order-preserving subsequence of the records |
| `Records.MatchesIgnoresTermCase` | script.js:39-41 | a term and its lower-cased form match the same records |
| `Records.FilterEmptyTerm` | script.js:39-42 | the empty term lists every record, in order |
| `Records.FirstIndex` | script.js:252 | returns -1 exactly when no element satisfies the predicate, otherwise the first position whose element does |
| `Records.FindIndex` | script.js:252 | returns -1 exactly when no record has the id, otherwise the first position holding it |
| `Records.FindIndexOfMember` | script.js:252 | with unique ids, the look-up of a listed record's id finds that record |
| `Records.SetField` | script.js:247-256 | the write of `finishEditing`: the first record with the id gets the value in that field; every other record is unchanged, no id changes, and an unknown id writes nothing |
| `Records.SetFieldOwnValue` | script.js:232-238 | writing back the value a field already holds changes no record |
| `Records.RemoveId` | script.js:153-154 | after deleting an id, a record remains exactly when it was there and has another id; the rest keep their order |
| `Records.RemoveAbsentId` | script.js:154 | deleting an id no record has changes nothing |
| `Records.RemoveIdIdempotent` | script.js:153-156 | deleting the same id twice is the same as deleting it once |
| `Records.RemoveIds` | script.js:65-70 | deleting a list of ids one by one never lengthens the records, and a record remains exactly when it was there and its id is not in the list |
| `Records.FilterAfterRemove` | script.js:153-155 | deleting an id and then filtering equals filtering and then deleting the id, so the listing never grows |
| `Records.RemoveIdsIsKeep` | script.js:65-70 | deleting ids one after another is one filter that drops every record whose id is in the list |
| `Records.RemoveIdsExactly` | script.js:65-70 | bulk deletion keeps a record exactly when its id is not among the deleted ids, in the original order |
| `Pagination.TotalPages` | script.js:44-45 | the page count is the ceiling of matches / 5: enough pages for every match, and no empty last page |
| `Pagination.TotalPagesZero` | script.js:45 | there are no pages exactly when nothing matches |
| `Pagination.PageWindow` | script.js:47-49 | page p shows at most 5 rows, namely rows 5(p-1) up to min(5p, M) of the listing; it is non-empty exactly when p <= totalPages |
| `Pagination.PagesPrefix` | script.js:47-49 | pages 1..n laid end to end are the first min(5n, M) rows |
| `Pagination.PagesCoverAll` | script.js:44-49 | all pages laid end to end are the whole listing: every row is on exactly one page |
| `Pagination.SettledPage` | script.js:53-57 | the repeated step back ends on page min(p, totalPages) when pages exist, otherwise on p; the result is at least 1 |
| `Pagination.SettledPageShowsRows` | script.js:53-57 | with at least one match, the settled page is within 1..totalPages and shows rows |
| `Pagination.LastRowDeletedStepsBack` | script.js:53-55 | when the last page has lost its only row, the render moves back exactly one page |
| `Pagination.SettledTwice` | script.js:53-57 | settling on a listing and then on a shorter non-empty one equals settling once on the shorter one |
| `Pagination.Clamp` | script.js:132 | the target page is at least 1 and at most totalPages when pages exist; a target already within 1..totalPages is kept |
| `Pagination.ClampIsSettled` | script.js:131-134 | a clamped target never triggers the step back |
| `Pagination.StripLength` | script.js:100-116 | the strip is empty exactly when there is at most one page; otherwise it holds the four arrows and one control per page |
| `Pagination.StripAt` | script.js:100-116 | in the strip, a page control holds a page in 1..totalPages, and position k holds page k-1; the arrows are the first two and last two positions |
| `Pagination.IsDisabled` | script.js:142-150 | a page control is never disabled, and on a page strictly between the first and the last no control is |
| `Pagination.Target` | script.js:101-115 | a page control targets its own page; an enabled arrow on a page in range targets another page in 1..totalPages |
| `Pagination.EnabledControlsStayInRange` | script.js:101-116 | on a page in range, every enabled control targets a page in 1..totalPages, so the clamp keeps it; enabled First/Previous/Next/Last move to another page |
| `Pagination.TwelveRows` | script.js:44-115 | 12 rows make 3 pages: page 1 shows rows 1-5; Last from page 1 goes to page 3, which shows rows 11-12; Previous from page 3 goes to page 2, which shows rows 6-10 |
| `Table.WithCell` | script.js:240-241 | replacing one cell leaves the row's flags and other cells unchanged |
| `Table.FreshRow` | script.js:76-89 | a rendered row carries the record's id, is unchecked, is out of edit mode and shows the record's fields as text |
| `Table.Commit` | script.js:193 | an open input becomes text showing the input's value |
| `Table.FreshRows` | script.js:76-91 | the rows a render draws stand for the page's records in order, none in edit mode and none showing Save/Cancel |
| `Table.DisableRow` | script.js:190-196 | leaving edit mode clears the flag and commits every open input to text; nothing else changes |
| `Table.LeaveEditMode` | script.js:190-196 | a row in edit mode leaves it and commits its open inputs; any other row is untouched; id, tick, listeners and buttons are kept |
| `Table.LeaveAllRows` | script.js:189-197 | after `disableEditingForAllRows` no row is in edit mode and each row is its own `LeaveEditMode` |
| `Table.FindRow` | script.js:159-160 | returns -1 exactly when no rendered row has the id, otherwise the first such row |
| `Table.CheckedIds` | script.js:66-69 | an id is collected exactly when some checked row carries it |
| `Table.EditRows` | script.js:158-187 | Edit as the code runs: unknown id changes nothing; otherwise at most one row ends in edit mode, the clicked row's mode flips, Edit on the row in edit mode gives exactly `LeaveAllRows` of the rows (its open inputs committed, no row left in edit mode), and every other row becomes its own `LeaveEditMode`; ids, ticks and buttons are kept and no listener is removed; a row entering edit mode gets clickable cells and nothing else |
| `Table.EditRowsKeepsEditState` | script.js:158-204 | as the code runs, Edit keeps the rows standing for the page, at most one row in edit mode, and no Save/Cancel |
| `Table.EditKeepsEditDelete` | script.js:167-184 | Edit on a freshly drawn row puts it in edit mode but never shows Save/Cancel |
| `Table.SecondEditKeepsTicks` | script.js:206-222 | a second Edit on the open row leaves no row in edit mode but renders nothing: a box ticked in between stays ticked and the cells keep their listeners |
| `Table.IntendedEditRows` | script.js:158-223 | Edit as evidently intended: the opened row shows Save/Cancel; Save/Cancel re-render the page, so every row is fresh, unticked and without listeners |
| `Table.IntendedEditShowsSaveCancel` | script.js:158-223 | the intended Edit keeps at most one row in edit mode, and that row shows Save/Cancel |
| `Table.ShownRecordIsListed` | script.js:40-49 | every shown row stands for a record of the list that matches the search |
| `Table.ShownTextWrittenBack` | script.js:225-256 | with unique ids, the text a freshly rendered cell shows, written back into its row's record, changes no record |
| `Table.TableController.constructor` | script.js:9-13 | starts with no records, page 1, no pages, an empty table and strip |
| `Table.TableController.Render` | script.js:38-57 | the page count is ceil(M/5); the page index becomes the settled page; the rows are exactly those of that page's records; with pages, the index is in 1..totalPages and the page has rows; the strip matches; records, search text and select-all are unchanged |
| `Table.TableController.DrawRows` | script.js:76-93 | draws one fresh row per record of the page, in order |
| `Table.TableController.UpdatePagination` | script.js:97-120 | the strip is rebuilt: empty for one page or none, otherwise First, Previous, the pages 1..N in order, Next, Last, each disabled by the rule |
| `Table.TableController.UpdatePaginationButtonsState` | script.js:137-151 | First/Previous are disabled exactly on page 1, Next/Last exactly on the last page, every other control is enabled |
| `Table.TableController.Load` | script.js:16-21 | the fetched records replace the list and the table is rendered; search text and select-all are unchanged |
| `Table.TableController.Search` | script.js:30-33 | the search text is set, the view returns to page 1 and is rendered |
| `Table.TableController.GoToPage` | script.js:131-134 | the page index becomes clamp(p, totalPages), so it lies in 1..max(1, totalPages) and equals p when p is in range |
| `Table.TableController.PressControl` | script.js:101-116 | a disabled control does nothing; an enabled one moves to its target page exactly; records, search text and select-all are unchanged |
| `Table.TableController.DeleteRow` | script.js:153-156 | the records become the list without that id, and the table re-renders and steps back if needed; the listing never grows and the page index never increases |
| `Table.TableController.DeleteChecked` | script.js:65-73 | the records lose exactly those whose id is on a checked row, keeping order; select-all ends unchecked; the page index never increases and, with matches left, is the settled page; with nothing checked nothing else changes, otherwise the rows show the new page |
| `Table.TableController.DeleteIds` | script.js:65-70 | deleting the ids one by one, each with its own render, leaves `RemoveIds` of the records, search text and select-all kept, the page index at most the old one and settled, and the rows showing that page |
| `Table.TableController.SetRowChecked` | script.js:80 | only that row's checkbox changes |
| `Table.TableController.SetSelectAll` | script.js:58-63 | every rendered row's checkbox takes the select-all state; nothing else in the rows changes |
| `Table.TableController.CheckAll` | script.js:60-62 | every row's checkbox takes the given state; nothing else in the rows changes |
| `Table.TableController.DisableEditingForAllRows` | script.js:189-197 | the rows become `LeaveAllRows` of the old rows: none in edit mode, open inputs committed, other rows untouched |
| `Table.TableController.LeaveAll` | script.js:190-196 | the loop over the rows computes `LeaveAllRows` |
| `Table.TableController.EnableEditingForRow` | script.js:199-204 | the row enters edit mode and its cells react to clicks |
| `Table.TableController.EditRow` | script.js:158-187 | the rows become `EditRows` of the old rows; only `rows` changes and the invariant holds |
| `Table.TableController.SaveOrCancelEdit` | script.js:206-223 | every row leaves edit mode (`LeaveAllRows`); no render: records, page index, strip, ticks and listeners are unchanged |
| `Table.TableController.StartEditing` | script.js:225-245 | a click on a text cell of a clickable row opens an input holding that text, remembering it as the original; any other click changes nothing |
| `Table.TableController.TypeInCell` | script.js:248 | typing changes only the value of the open input |
| `Table.TableController.FinishEditing` | script.js:247-259 | the records become `SetField` of the row's id, the field and the input's value; the table re-renders on the settled page |
| `Table.TableController.PressEscape` | script.js:232-238 | Escape commits, through `SetField`, the text the cell showed when editing began, not the typed value; search text and select-all are kept and the table re-renders on the settled page |
| `Table.TableController.EditThenEscape` | script.js:232-238 | on a freshly rendered table with unique ids, Edit, a click on a cell and Escape leave every record unchanged |

## Findings

| source | as written | input that shows it | evidently intended | confidence | as-written member | corrected member |
|---|---|---|---|---|---|---|
| script.js:183-184 | `row.replaceChild(saveBtn, editBtn)` on the `<tr>`, whose children are cells; the Edit button is inside a cell, so the call throws | click Edit on any row of a rendered table | the Edit/Delete buttons are swapped for Save/Cancel inside their cell | not executed | `Table.EditKeepsEditDelete` | `Table.IntendedEditShowsSaveCancel` |
| script.js:219-222 | `row.querySelector('.saveBtn')` is null because no Save button was ever inserted, so `replaceChild` throws and `renderTable()` is never reached | click Edit on row a, tick row b, click Edit on row a again | the buttons are swapped back and the page is rendered again, clearing ticks and listeners | not executed | `Table.SecondEditKeepsTicks` | `Table.IntendedEditRows` |

The controller follows the code as written (`EditRow`, `SaveOrCancelEdit`); the intended
behaviour is stated beside it as values.

## Left out

- The network fetch (script.js:16-25) is not modelled: no request, no JSON parsing and no
  logged error path. `Load` models a successful fetch. A failed fetch leaves the state
  that the constructor builds.
- DOM construction is not modelled: `innerHTML` templates, `createElement`,
  `createPaginationButton`, `replaceChild`, `closest`, `dataset` and the `window.*`
  globals. Rows and controls are values. A cell shows its field value as text. The model
  ignores how HTML markup inside a value would be parsed.
- Event-listener registration is not modelled. The select-all and Delete listeners are
  added again on every render, so they pile up. Every Delete listener after the first
  does nothing, because the rows it finds are fresh and unchecked. Every select-all
  listener after the first assigns each checkbox the state the first one just gave it,
  an idempotent repeat. The model applies each effect once. Before the first render there is no Delete listener at all, so a click
  on Delete does nothing; `DeleteChecked` may also be called on the constructor's
  state, where it clears select-all.
- Focus and blur are not modelled. Losing focus and Enter are the explicit event
  `FinishEditing`. In a browser, any click or Tab away from an open input first blurs
  it, so `finishEditing` writes and re-renders before another handler runs. The model
  over-approximates: it also allows `EditRow`, `SaveOrCancelEdit`, `SetRowChecked`,
  `PressControl` and the other handlers while an input is open, a sequence the page
  cannot produce. Its contracts hold for those extra sequences too.
- A click on a cell that already holds an open input reaches `startEditing` with the
  input as the event target, which has no `editing` class; the model treats every click
  as aimed at the cell itself.
- Typing in the search box without clicking Search is not modelled. `searchText` changes
  only through `Search`. In the code, any later render also uses the newly typed text.
- Records.Lower: lower-cases ASCII letters only, not all of Unicode. `toString` is the
  identity, because every field value is a string.
- `Math.ceil` over floating point is the exact integer ceiling `TotalPages`.
- The uniqueness of ids is not enforced. It is a precondition of `EditThenEscape` and `ShownTextWrittenBack` only.
  Every other member handles duplicate ids the way the code does: deletion removes all
  records with the id, and look-ups find the first.
