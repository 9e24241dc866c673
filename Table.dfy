/** The table controller: the record list, the search box, the page index and page count,
    the rendered rows with their edit state, the pagination strip and the select-all box,
    with the handlers that change them. */
module Table {
  import opened Records
  import opened Pagination

  /** An editable cell: its text, or an input holding the typed value and the text the cell
      showed when editing began. */
  datatype Cell = Text(shown: string) | Input(value: string, original: string)

  /** A rendered table row. */
  datatype Row = Row(
    id: string,
    checked: bool,     // the row's checkbox
    editable: bool,    // the row is in edit mode (class `editable-row`)
    listening: bool,   // its cells start editing when clicked
    saveCancel: bool,  // the row shows Save/Cancel instead of Edit/Delete (never, as the code runs)
    name: Cell,
    email: Cell,
    role: Cell)

  function CellOf(row: Row, f: Field): Cell
  {
    match f
    case Name => row.name
    case Email => row.email
    case Role => row.role
  }

  /** The row with cell `f` replaced by `c`; the flags and the other cells stay. */
  function WithCell(row: Row, f: Field, c: Cell): (r: Row)
    ensures CellOf(r, f) == c
    ensures forall g :: g != f ==> CellOf(r, g) == CellOf(row, g)
    ensures SameFlags(r, row)
  {
    match f
    case Name => row.(name := c)
    case Email => row.(email := c)
    case Role => row.(role := c)
  }

  /** Two rows agree on everything but their cells. */
  predicate SameFlags(a: Row, b: Row)
  {
    a.id == b.id && a.checked == b.checked && a.editable == b.editable
    && a.listening == b.listening && a.saveCancel == b.saveCancel
  }

  /** The row rendered for a record: unchecked, out of edit mode, showing the record's fields. */
  function FreshRow(r: Record): (row: Row)
    ensures row.id == r.id
    ensures !row.checked && !row.editable && !row.listening && !row.saveCancel
    ensures forall f :: CellOf(row, f) == Text(Get(r, f))
  {
    Row(r.id, false, false, false, false, Text(r.name), Text(r.email), Text(r.role))
  }

  /** The rows are exactly those a render draws for `page`. */
  ghost predicate Shows(rows: seq<Row>, page: seq<Record>)
  {
    |rows| == |page| && forall j :: 0 <= j < |rows| ==> rows[j] == FreshRow(page[j])
  }

  /** The rows stand for the records of `page`, one for one, in order. */
  ghost predicate SameIds(rows: seq<Row>, page: seq<Record>)
  {
    |rows| == |page| && forall j :: 0 <= j < |rows| ==> rows[j].id == page[j].id
  }

  ghost predicate AtMostOneEditable(rows: seq<Row>)
  {
    forall i, j :: 0 <= i < |rows| && 0 <= j < |rows| && rows[i].editable && rows[j].editable ==> i == j
  }

  ghost predicate NoneEditable(rows: seq<Row>)
  {
    forall j :: 0 <= j < |rows| ==> !rows[j].editable
  }

  /** No row shows Save/Cancel: every row still has its Edit and Delete buttons. */
  ghost predicate NoSaveCancel(rows: seq<Row>)
  {
    forall j :: 0 <= j < |rows| ==> !rows[j].saveCancel
  }

  /** The rows a render draws for `page`. */
  function FreshRows(page: seq<Record>): (rows: seq<Row>)
    ensures Shows(rows, page)
    ensures NoneEditable(rows) && NoSaveCancel(rows)
  {
    seq(|page|, j requires 0 <= j < |page| => FreshRow(page[j]))
  }

  /** An open input turns back into text showing the input's value. */
  function Commit(c: Cell): (r: Cell)
    ensures r.Text?
    ensures r.shown == if c.Input? then c.value else c.shown
  {
    match c
    case Text(_) => c
    case Input(v, _) => Text(v)
  }

  /** A row leaving edit mode: every open input of it becomes text; nothing else changes. */
  function DisableRow(row: Row): (r: Row)
    ensures !r.editable
    ensures r.id == row.id && r.checked == row.checked && r.listening == row.listening && r.saveCancel == row.saveCancel
    ensures forall f :: CellOf(r, f) == Commit(CellOf(row, f))
  {
    row.(editable := false, name := Commit(row.name), email := Commit(row.email), role := Commit(row.role))
  }

  /** What `disableEditingForAllRows` does to one row: a row in edit mode leaves it, any
      other row is untouched. */
  function LeaveEditMode(row: Row): (r: Row)
    ensures !r.editable
    ensures r.id == row.id && r.checked == row.checked && r.listening == row.listening && r.saveCancel == row.saveCancel
    ensures !row.editable ==> r == row
    ensures row.editable ==> forall f :: CellOf(r, f) == Commit(CellOf(row, f))
  {
    if row.editable then DisableRow(row) else row
  }

  /** The rows after `disableEditingForAllRows()`. */
  function LeaveAllRows(rows: seq<Row>): (r: seq<Row>)
    ensures |r| == |rows| && NoneEditable(r)
    ensures forall j :: 0 <= j < |r| ==> r[j] == LeaveEditMode(rows[j])
  {
    seq(|rows|, j requires 0 <= j < |rows| => LeaveEditMode(rows[j]))
  }

  /** `tableBody.querySelector('tr[data-id="id"]')`: the first row carrying the id, or -1. */
  function FindRow(rows: seq<Row>, id: string): (k: int)
    ensures -1 <= k < |rows|
    ensures k == -1 <==> forall j :: 0 <= j < |rows| ==> rows[j].id != id
    ensures k != -1 ==> rows[k].id == id && forall j :: 0 <= j < k ==> rows[j].id != id
  {
    FirstIndex(rows, (r: Row) => r.id == id)
  }

  /** The ids of the checked rows, in table order (`querySelectorAll('.rowCheckbox:checked')`). */
  function CheckedIds(rows: seq<Row>): (ids: seq<string>)
    ensures |ids| <= |rows|
    ensures forall id :: id in ids <==> exists j :: 0 <= j < |rows| && rows[j].checked && rows[j].id == id
  {
    if rows == [] then []
    else
      var rest := CheckedIds(rows[1..]);
      assert forall id :: id in rest <==> exists j :: 1 <= j < |rows| && rows[j].checked && rows[j].id == id by {
        forall id | id in rest ensures exists j :: 1 <= j < |rows| && rows[j].checked && rows[j].id == id {
          var j :| 0 <= j < |rows[1..]| && rows[1..][j].checked && rows[1..][j].id == id;
          assert rows[j + 1] == rows[1..][j];
        }
        forall id | exists j :: 1 <= j < |rows| && rows[j].checked && rows[j].id == id ensures id in rest {
          var j :| 1 <= j < |rows| && rows[j].checked && rows[j].id == id;
          assert rows[1..][j - 1] == rows[j];
        }
      }
      (if rows[0].checked then [rows[0].id] else []) + rest
  }

  // ---------------------------------------------------------------------------
  // The Edit button, as the code runs and as it is evidently meant to run

  /** The rows after a click on Edit of the row carrying `id`, as the code runs. Both paths
      end in a `replaceChild` that throws, so the handler stops early and nothing is
      rendered. On a row in edit mode, `saveOrCancelEdit` stops after
      `disableEditingForAllRows()`: no row holds a Save button, so the child to replace is
      null. On any other row, `editRow` stops after `enableEditingForRow(row)`: the Edit
      button is a child of a cell, not of the row. */
  function EditRows(rows: seq<Row>, id: string): (r: seq<Row>)
    ensures |r| == |rows|
    ensures forall j :: 0 <= j < |r| ==>
      r[j].id == rows[j].id && r[j].checked == rows[j].checked && r[j].saveCancel == rows[j].saveCancel
    ensures forall j :: 0 <= j < |r| && rows[j].listening ==> r[j].listening
    ensures FindRow(rows, id) == -1 ==> r == rows
    ensures FindRow(rows, id) != -1 ==>
      AtMostOneEditable(r) && (r[FindRow(rows, id)].editable <==> !rows[FindRow(rows, id)].editable)
    ensures FindRow(rows, id) != -1 && !rows[FindRow(rows, id)].editable ==>
      r[FindRow(rows, id)] == rows[FindRow(rows, id)].(editable := true, listening := true)
    ensures FindRow(rows, id) != -1 && rows[FindRow(rows, id)].editable ==> r == LeaveAllRows(rows)
    ensures FindRow(rows, id) != -1 && rows[FindRow(rows, id)].editable ==> NoneEditable(r)
    ensures FindRow(rows, id) != -1 ==>
      forall j :: 0 <= j < |r| && j != FindRow(rows, id) ==> r[j] == LeaveEditMode(rows[j])
  {
    var k := FindRow(rows, id);
    if k == -1 then rows
    else if rows[k].editable then LeaveAllRows(rows)
    else LeaveAllRows(rows)[k := rows[k].(editable := true, listening := true)]
  }

  /** As the code runs, Edit keeps the rows standing for the page, keeps at most one row in
      edit mode, and never brings up Save/Cancel. */
  lemma EditRowsKeepsEditState(rows: seq<Row>, id: string, page: seq<Record>)
    requires SameIds(rows, page) && AtMostOneEditable(rows) && NoSaveCancel(rows)
    ensures SameIds(EditRows(rows, id), page)
    ensures AtMostOneEditable(EditRows(rows, id)) && NoSaveCancel(EditRows(rows, id))
  {
  }

  /** As the code runs, Edit puts a freshly drawn row in edit mode but leaves its Edit and
      Delete buttons in place: Save/Cancel never appear. */
  lemma EditKeepsEditDelete(r: Record)
    ensures EditRows([FreshRow(r)], r.id)[0].editable
    ensures !EditRows([FreshRow(r)], r.id)[0].saveCancel
  {
    assert FindRow([FreshRow(r)], r.id) == 0;
  }

  /** As the code runs, a second click on Edit of the row in edit mode renders nothing: a
      box ticked in between stays ticked, and the cells of the row still open an input
      when clicked. */
  lemma SecondEditKeepsTicks(a: Record, b: Record)
    requires a.id != b.id
    ensures var once := EditRows([FreshRow(a), FreshRow(b)], a.id);
      var twice := EditRows(once[1 := once[1].(checked := true)], a.id);
      |twice| == 2 && twice[1].checked && twice[0].listening && NoneEditable(twice)
  {
    var rows := [FreshRow(a), FreshRow(b)];
    assert FindRow(rows, a.id) == 0;
    var once := EditRows(rows, a.id);
    assert once[0] == rows[0].(editable := true, listening := true);
    var ticked := once[1 := once[1].(checked := true)];
    assert FindRow(ticked, a.id) == 0;
  }

  /** What the edit buttons are evidently meant to keep: at most one row in edit mode, and
      that row shows Save/Cancel. */
  ghost predicate IntendedEditState(rows: seq<Row>)
  {
    AtMostOneEditable(rows) && forall j :: 0 <= j < |rows| && rows[j].editable ==> rows[j].saveCancel
  }

  /** `editRow(id)` as evidently intended, `page` being the records of the current page:
      the Edit/Delete buttons are swapped for Save/Cancel inside the cell that holds them,
      and on a row in edit mode (the path the Save and Cancel buttons also take) the
      buttons are swapped back and the page is rendered again. */
  function IntendedEditRows(rows: seq<Row>, id: string, page: seq<Record>): (r: seq<Row>)
    ensures FindRow(rows, id) != -1 && !rows[FindRow(rows, id)].editable ==>
      |r| == |rows| && r[FindRow(rows, id)].editable && r[FindRow(rows, id)].saveCancel
    ensures FindRow(rows, id) != -1 && rows[FindRow(rows, id)].editable ==>
      Shows(r, page) && forall j :: 0 <= j < |r| ==> !r[j].checked && !r[j].listening && !r[j].saveCancel
  {
    var k := FindRow(rows, id);
    if k == -1 then rows
    else if rows[k].editable then FreshRows(page)
    else LeaveAllRows(rows)[k := rows[k].(editable := true, listening := true, saveCancel := true)]
  }

  /** The intended Edit, Save and Cancel keep the intended invariant. */
  lemma IntendedEditShowsSaveCancel(rows: seq<Row>, id: string, page: seq<Record>)
    requires IntendedEditState(rows)
    ensures IntendedEditState(IntendedEditRows(rows, id, page))
  {
    var k := FindRow(rows, id);
    if k != -1 && !rows[k].editable {
      var r := IntendedEditRows(rows, id, page);
      assert forall j :: 0 <= j < |r| && j != k ==> !r[j].editable;
    }
  }

  class TableController {
    var userData: seq<Record>
    var searchText: string
    var currentPage: int
    var totalPages: int
    var rows: seq<Row>
    var controls: seq<Button>
    var selectAll: bool

    /** The records the current search text lists. */
    ghost function Listed(): seq<Record>
      reads this`userData, this`searchText
    {
      Filter(userData, searchText)
    }

    /** The records of the current page. */
    ghost function Page(): seq<Record>
      reads this`userData, this`searchText, this`currentPage
      requires currentPage >= 1
    {
      PageWindow(Listed(), currentPage)
    }

    /** What holds between two events: the page index is at least 1, and within
        1..totalPages when pages exist; the page count and the strip match the listing, the rows stand for the page's
        records, and at most one row is in edit mode. */
    ghost predicate Valid()
      reads this
    {
      Paged() && RowsMatch() && EditState()
    }

    /** The page index is at least 1, and within 1..totalPages when pages exist; the count
        and strip match the listing. */
    ghost predicate Paged()
      reads this`userData, this`searchText, this`currentPage, this`totalPages, this`controls
    {
      && currentPage >= 1
      && totalPages == TotalPages(|Listed()|)
      && (totalPages > 0 ==> currentPage <= totalPages)
      && StripShown(controls, currentPage, totalPages)
    }

    /** The rows stand for the records of the current page, in order. */
    ghost predicate RowsMatch()
      reads this`userData, this`searchText, this`currentPage, this`rows
    {
      currentPage >= 1 && SameIds(rows, Page())
    }

    /** At most one row is in edit mode, and no row shows Save/Cancel. */
    ghost predicate EditState()
      reads this`rows
    {
      AtMostOneEditable(rows) && NoSaveCancel(rows)
    }

    /** The state before the data arrives: no records, page 1, no pages. */
    constructor ()
      ensures Valid()
      ensures userData == [] && searchText == "" && currentPage == 1 && totalPages == 0
      ensures rows == [] && controls == [] && !selectAll
    {
      userData, searchText, currentPage, totalPages := [], "", 1, 0;
      rows, controls, selectAll := [], [], false;
    }

    /** `renderTable()`: lists the matching records, counts the pages, steps back while the
        asked page is empty but pages exist, then draws the page and the strip. */
    method Render()
      requires currentPage >= 1
      modifies this
      ensures Valid()
      ensures userData == old(userData) && searchText == old(searchText) && selectAll == old(selectAll)
      ensures currentPage == SettledPage(old(currentPage), |Listed()|)
      ensures Shows(rows, Page())
      ensures totalPages > 0 ==> 1 <= currentPage <= totalPages && |rows| > 0
      decreases currentPage
    {
      var filteredData := Filter(userData, searchText);
      totalPages := TotalPages(|filteredData|);
      var pageData := PageWindow(filteredData, currentPage);
      rows := [];
      if |pageData| == 0 && totalPages > 0 {
        currentPage := Max(1, currentPage - 1);
        Render();
        return;
      }
      rows := DrawRows(pageData);
      UpdatePagination();
    }

    /** The `forEach` of `renderTable` over the page's records: one fresh row per record. */
    static method DrawRows(page: seq<Record>) returns (drawn: seq<Row>)
      ensures Shows(drawn, page)
    {
      drawn := [];
      var k := 0;
      while k < |page|
        invariant 0 <= k <= |page|
        invariant Shows(drawn, page[..k])
      {
        drawn := drawn + [FreshRow(page[k])];
        k := k + 1;
      }
      assert page[..k] == page;
    }

    /** `updatePagination(totalPages)`: the strip is rebuilt, and only when there is more
        than one page. */
    method UpdatePagination()
      modifies this`controls
      ensures StripShown(controls, currentPage, totalPages)
    {
      controls := [];
      if totalPages > 1 {
        controls := [Button(First, false), Button(Previous, false)];
        var i := 1;
        while i <= totalPages
          invariant 1 <= i <= totalPages + 1
          invariant |controls| == i + 1
          invariant forall k :: 0 <= k < |controls| ==> controls[k].control == StripAt(k, totalPages)
        {
          controls := controls + [Button(PageNumber(i), false)];
          i := i + 1;
        }
        controls := controls + [Button(Next, false), Button(Last, false)];
        UpdatePaginationButtonsState();
      }
    }

    /** `updatePaginationButtonsState()`: enable every control, then disable First and
        Previous on page 1 and Next and Last on the last page. */
    method UpdatePaginationButtonsState()
      requires totalPages > 1 && |controls| == StripLength(totalPages)
      requires forall k :: 0 <= k < |controls| ==> controls[k].control == StripAt(k, totalPages)
      modifies this`controls
      ensures StripShown(controls, currentPage, totalPages)
    {
      var k := 0;
      while k < |controls|
        invariant 0 <= k <= |controls| == totalPages + 4
        invariant forall j :: 0 <= j < |controls| ==> controls[j].control == StripAt(j, totalPages)
        invariant forall j :: 0 <= j < k ==> !controls[j].disabled
      {
        controls := controls[k := controls[k].(disabled := false)];
        k := k + 1;
      }
      var n := |controls|;
      if currentPage == 1 {
        controls := controls[0 := controls[0].(disabled := true)];
        controls := controls[1 := controls[1].(disabled := true)];
      }
      if currentPage == totalPages {
        controls := controls[n - 1 := controls[n - 1].(disabled := true)];
        controls := controls[n - 2 := controls[n - 2].(disabled := true)];
      }
    }

    /** The outcome of the initial fetch: the records are replaced and the table rendered. */
    method Load(data: seq<Record>)
      requires Valid()
      modifies this
      ensures Valid()
      ensures userData == data && searchText == old(searchText) && selectAll == old(selectAll)
      ensures currentPage == SettledPage(old(currentPage), |Listed()|)
      ensures Shows(rows, Page())
    {
      userData := data;
      Render();
    }

    /** The Search button, after `term` was typed in the search box: back to page 1. */
    method Search(term: string)
      requires Valid()
      modifies this
      ensures Valid()
      ensures userData == old(userData) && searchText == term && selectAll == old(selectAll)
      ensures currentPage == 1
      ensures Shows(rows, Page())
    {
      searchText := term;
      currentPage := 1;
      Render();
    }

    /** `goToPage(page)`: the target is clamped into the pages that exist. */
    method GoToPage(page: int)
      requires Valid()
      modifies this
      ensures Valid()
      ensures userData == old(userData) && searchText == old(searchText) && selectAll == old(selectAll)
      ensures totalPages == old(totalPages)
      ensures currentPage == Clamp(page, totalPages)
      ensures Shows(rows, Page())
    {
      currentPage := Clamp(page, totalPages);
      Render();
      ClampIsSettled(page, |Listed()|);
    }

    /** A click on the `k`-th control of the strip; a disabled control does not react, an
        enabled one goes to its target page, which never needs clamping. */
    method PressControl(k: int)
      requires Valid() && 0 <= k < |controls|
      modifies this
      ensures Valid()
      ensures old(controls[k].disabled) ==> currentPage == old(currentPage) && rows == old(rows)
      ensures !old(controls[k].disabled) ==>
        currentPage == Target(old(controls[k].control), old(currentPage), old(totalPages))
        && Shows(rows, Page())
      ensures userData == old(userData) && searchText == old(searchText) && selectAll == old(selectAll)
    {
      if !controls[k].disabled {
        EnabledControlsStayInRange(currentPage, totalPages, k);
        GoToPage(Target(controls[k].control, currentPage, totalPages));
      }
    }

    /** `deleteRow(userId)`: every record with the id goes, the others keep their order. */
    method DeleteRow(id: string)
      requires Valid()
      modifies this
      ensures Valid()
      ensures userData == RemoveId(old(userData), id)
      ensures searchText == old(searchText) && selectAll == old(selectAll)
      ensures |Listed()| <= |old(Listed())| && currentPage <= old(currentPage)
      ensures currentPage == SettledPage(old(currentPage), |Listed()|)
      ensures Shows(rows, Page())
    {
      FilterAfterRemove(userData, id, searchText);
      userData := RemoveId(userData, id);
      Render();
    }

    /** The Delete button: the ids of the checked rows are deleted one after another, then
        select-all is cleared. */
    method DeleteChecked()
      requires Valid()
      modifies this
      ensures Valid()
      ensures userData == RemoveIds(old(userData), CheckedIds(old(rows)))
      ensures forall x :: x in userData <==> x in old(userData) && x.id !in CheckedIds(old(rows))
      ensures IsSubsequence(userData, old(userData))
      ensures searchText == old(searchText) && !selectAll
      ensures currentPage <= old(currentPage)
      ensures |Listed()| > 0 ==> currentPage == SettledPage(old(currentPage), |Listed()|)
      ensures CheckedIds(old(rows)) == [] ==> rows == old(rows) && currentPage == old(currentPage)
      ensures CheckedIds(old(rows)) != [] ==> Shows(rows, Page())
    {
      var ids := CheckedIds(rows);
      DeleteIds(ids);
      RemoveIdsExactly(old(userData), ids);
      selectAll := false;
    }

    /** The `forEach` of the Delete listener: `deleteRow` for each id in turn, each one
        rendering the table again. */
    method DeleteIds(ids: seq<string>)
      requires Valid()
      modifies this
      ensures Valid()
      ensures userData == RemoveIds(old(userData), ids)
      ensures searchText == old(searchText) && selectAll == old(selectAll)
      ensures currentPage <= old(currentPage)
      ensures |Listed()| > 0 ==> currentPage == SettledPage(old(currentPage), |Listed()|)
      ensures ids == [] ==> rows == old(rows) && currentPage == old(currentPage)
      ensures ids != [] ==> Shows(rows, Page())
    {
      if ids == [] {
        return;
      }
      RemoveIdsStep(old(userData), ids, 0);
      DeleteRow(ids[0]);
      var k := 1;
      while k < |ids|
        invariant 1 <= k <= |ids|
        invariant Valid()
        invariant userData == RemoveIds(old(userData), ids[..k])
        invariant searchText == old(searchText) && selectAll == old(selectAll)
        invariant currentPage <= old(currentPage)
        invariant |Listed()| > 0 ==> currentPage == SettledPage(old(currentPage), |Listed()|)
        invariant Shows(rows, Page())
      {
        ghost var before, page := |Listed()|, currentPage;
        RemoveIdsStep(old(userData), ids, k);
        DeleteRow(ids[k]);
        assert currentPage == SettledPage(page, |Listed()|) && |Listed()| <= before;
        if |Listed()| > 0 {
          assert page == SettledPage(old(currentPage), before);
          SettledTwice(old(currentPage), before, |Listed()|);
        }
        k := k + 1;
      }
      assert ids[..k] == ids;
    }

    /** A click on the checkbox of row `j`. */
    method SetRowChecked(j: int, b: bool)
      requires Valid() && 0 <= j < |rows|
      modifies this`rows
      ensures Valid()
      ensures rows == old(rows)[j := old(rows)[j].(checked := b)]
    {
      rows := rows[j := rows[j].(checked := b)];
    }

    /** A change of the select-all checkbox: every rendered row checkbox takes its state. */
    method SetSelectAll(b: bool)
      requires Valid()
      modifies this`rows, this`selectAll
      ensures Valid()
      ensures selectAll == b
      ensures |rows| == |old(rows)|
      ensures forall j :: 0 <= j < |rows| ==> rows[j] == old(rows)[j].(checked := b)
    {
      selectAll := b;
      rows := CheckAll(rows, b);
    }

    /** The loop of the select-all handler over the row checkboxes. */
    static method CheckAll(rows: seq<Row>, b: bool) returns (boxes: seq<Row>)
      ensures |boxes| == |rows|
      ensures forall j :: 0 <= j < |boxes| ==> boxes[j] == rows[j].(checked := b)
    {
      boxes := rows;
      var k := 0;
      while k < |boxes|
        invariant 0 <= k <= |boxes| == |rows|
        invariant forall j :: 0 <= j < k ==> boxes[j] == rows[j].(checked := b)
        invariant forall j :: k <= j < |boxes| ==> boxes[j] == rows[j]
      {
        boxes := boxes[k := boxes[k].(checked := b)];
        k := k + 1;
      }
    }

    /** `disableEditingForAllRows()`: every row in edit mode leaves it, its open inputs
        turning into text; other rows are untouched. */
    method DisableEditingForAllRows()
      requires Valid()
      modifies this`rows
      ensures Valid()
      ensures rows == LeaveAllRows(old(rows))
    {
      rows := LeaveAll(rows);
      assert forall j :: 0 <= j < |rows| ==> rows[j].id == old(rows)[j].id && !rows[j].saveCancel;
    }

    /** The loop of `disableEditingForAllRows` over the rows. */
    static method LeaveAll(rows: seq<Row>) returns (all: seq<Row>)
      ensures all == LeaveAllRows(rows)
    {
      all := rows;
      var k := 0;
      while k < |all|
        invariant 0 <= k <= |all| == |rows|
        invariant forall j :: 0 <= j < k ==> all[j] == LeaveEditMode(rows[j])
        invariant forall j :: k <= j < |all| ==> all[j] == rows[j]
      {
        if all[k].editable {
          all := all[k := DisableRow(all[k])];
        }
        k := k + 1;
      }
      assert all == LeaveAllRows(rows);
    }

    /** `enableEditingForRow(row)`: the row enters edit mode and its cells become clickable. */
    method EnableEditingForRow(j: int)
      requires 0 <= j < |rows|
      modifies this`rows
      ensures rows == old(rows)[j := old(rows)[j].(editable := true, listening := true)]
    {
      rows := rows[j := rows[j].(editable := true, listening := true)];
    }

    /** `editRow(userId)`: on a row in edit mode it runs `saveOrCancelEdit`; on another row
        it takes every row out of edit mode and puts this one in. Either way the button swap
        that follows throws, and the table is not rendered again. */
    method EditRow(id: string)
      requires Valid()
      modifies this`rows
      ensures Valid()
      ensures rows == EditRows(old(rows), id)
    {
      ghost var page := Page();
      EditRowsKeepsEditState(rows, id, page);
      var k := FindRow(rows, id);
      if k != -1 {
        if rows[k].editable {
          SaveOrCancelEdit(k);
        } else {
          DisableEditingForAllRows();
          assert rows[k] == old(rows)[k];
          EnableEditingForRow(k);
          // `row.replaceChild(saveBtn, editBtn)` throws here: the Edit button is not a
          // child of the row
        }
      }
      assert rows == EditRows(old(rows), id);
    }

    /** `saveOrCancelEdit(row, userId)` for row `j` (the `row` argument): every row leaves
        edit mode. The swap back to Edit/Delete on row `j` then throws, because that row
        holds no Save button to replace, so the table is not rendered again and the records
        are not written. */
    method SaveOrCancelEdit(j: int)
      requires Valid() && 0 <= j < |rows|
      modifies this`rows
      ensures Valid()
      ensures rows == LeaveAllRows(old(rows))
    {
      DisableEditingForAllRows();
      // `row.replaceChild(editBtn, row.querySelector('.saveBtn'))` throws here
    }

    /** `startEditing`: a click on cell `f` of row `j`. A row whose cells were made clickable
        opens an input holding the cell's text; other clicks change nothing. */
    method StartEditing(j: int, f: Field)
      requires Valid() && 0 <= j < |rows|
      modifies this`rows
      ensures Valid()
      ensures rows == if old(rows)[j].listening && CellOf(old(rows)[j], f).Text?
        then old(rows)[j := WithCell(old(rows)[j], f, Input(CellOf(old(rows)[j], f).shown, CellOf(old(rows)[j], f).shown))]
        else old(rows)
    {
      var cell := CellOf(rows[j], f);
      if rows[j].listening && cell.Text? {
        rows := rows[j := WithCell(rows[j], f, Input(cell.shown, cell.shown))];
      }
    }

    /** Typing `v` into the open input of cell `f` of row `j`. */
    method TypeInCell(j: int, f: Field, v: string)
      requires Valid() && 0 <= j < |rows| && CellOf(rows[j], f).Input?
      modifies this`rows
      ensures Valid()
      ensures rows == old(rows)[j := WithCell(old(rows)[j], f, CellOf(old(rows)[j], f).(value := v))]
    {
      rows := rows[j := WithCell(rows[j], f, CellOf(rows[j], f).(value := v))];
    }

    /** `finishEditing`: the input of cell `f` of row `j` loses focus (Enter blurs it too).
        The input's value is written into that field of the first record with the row's id,
        if there is one, and the table is rendered again. */
    method FinishEditing(j: int, f: Field)
      requires Valid() && 0 <= j < |rows| && CellOf(rows[j], f).Input?
      modifies this
      ensures Valid()
      ensures userData == SetField(old(userData), old(rows)[j].id, f, CellOf(old(rows)[j], f).value)
      ensures searchText == old(searchText) && selectAll == old(selectAll)
      ensures currentPage == SettledPage(old(currentPage), |Listed()|)
      ensures Shows(rows, Page())
    {
      var newValue := CellOf(rows[j], f).value;
      var rowId := rows[j].id;
      var userIndex := FindIndex(userData, rowId);
      if userIndex != -1 {
        userData := userData[userIndex := Set(userData[userIndex], f, newValue)];
      }
      assert userData == SetField(old(userData), rowId, f, newValue);
      Render();
    }

    /** Escape in the input of cell `f` of row `j`: the input gets back the text the cell
        showed when editing began, then loses focus, which commits that text. */
    method PressEscape(j: int, f: Field)
      requires Valid() && 0 <= j < |rows| && CellOf(rows[j], f).Input?
      modifies this
      ensures Valid()
      ensures userData == SetField(old(userData), old(rows)[j].id, f, CellOf(old(rows)[j], f).original)
      ensures searchText == old(searchText) && selectAll == old(selectAll)
      ensures currentPage == SettledPage(old(currentPage), |Listed()|)
      ensures Shows(rows, Page())
    {
      TypeInCell(j, f, CellOf(rows[j], f).original);
      FinishEditing(j, f);
    }

    /** On a freshly rendered table with unique ids: Edit on row `j`, a click on its cell `f`
        and Escape leave every record as it was. */
    method EditThenEscape(j: int, f: Field)
      requires Valid() && Shows(rows, Page()) && UniqueIds(userData) && 0 <= j < |rows|
      modifies this
      ensures userData == old(userData)
    {
      var id := rows[j].id;
      var k := FindRow(rows, id);
      ShownTextWrittenBack(userData, searchText, currentPage, rows, k, f);
      ghost var text := CellOf(rows[k], f).shown;
      assert SetField(userData, id, f, text) == userData && !rows[k].editable;
      EditRow(id);
      assert rows[k].listening && CellOf(rows[k], f) == Text(text);
      StartEditing(k, f);
      assert rows[k].id == id && CellOf(rows[k], f).original == text;
      PressEscape(k, f);
    }
  }

  /** With unique ids, writing the text a freshly rendered cell shows back into the record
      its row stands for changes no record. */
  lemma ShownTextWrittenBack(data: seq<Record>, term: string, cp: int, rows: seq<Row>, k: int, f: Field)
    requires cp >= 1 && Shows(rows, PageWindow(Filter(data, term), cp)) && UniqueIds(data)
    requires 0 <= k < |rows|
    ensures CellOf(rows[k], f).Text?
    ensures FindIndex(data, rows[k].id) != -1
    ensures SetField(data, rows[k].id, f, CellOf(rows[k], f).shown) == data
  {
    var r := PageWindow(Filter(data, term), cp)[k];
    assert rows[k] == FreshRow(r);
    ShownRecordIsListed(data, term, cp, k);
    FindIndexOfMember(data, r);
    SetFieldOwnValue(data, r.id, f);
  }

  /** Every row the table shows stands for a record of the list that matches the search. */
  lemma ShownRecordIsListed(data: seq<Record>, term: string, cp: int, k: int)
    requires cp >= 1 && 0 <= k < |PageWindow(Filter(data, term), cp)|
    ensures PageWindow(Filter(data, term), cp)[k] in data
    ensures Matches(PageWindow(Filter(data, term), cp)[k], term)
  {
    var listed := Filter(data, term);
    assert PageWindow(listed, cp)[k] == listed[(cp - 1) * PageSize + k];
  }
}
