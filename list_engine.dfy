/** The provider list's local state and its event handlers: sorting by a
    header, selecting rows one at a time or all at once, removing the
    selection, and editing one cell in place. */
module ListEngine {
  import opened Wrappers
  import opened Text
  import opened Providers
  import opened Pipeline
  import Store

  /** The cell being edited: an original row index and a column. */
  datatype Cell = Cell(row: nat, col: Field)

  /** `handleSelect(idx)`: flips the membership of `i`. */
  function Toggle(s: set<nat>, i: nat): (r: set<nat>)
    ensures i in r <==> i !in s
    ensures forall j :: j != i ==> (j in r <==> j in s)
  {
    if i in s then s - {i} else s + {i}
  }

  /** Checking a box twice restores the selection. */
  lemma ToggleTwice(s: set<nat>, i: nat)
    ensures Toggle(Toggle(s, i), i) == s
  {
  }

  /** `handleSort(key)`: clicking the current sort column flips the
      direction, any other column becomes the key in ascending order. */
  function NextSort(key: Field, dir: Direction, clicked: Field): (r: (Field, Direction))
    ensures r.0 == clicked
    ensures clicked == key ==> r.1 != dir
    ensures clicked != key ==> r.1 == Asc
  {
    if key == clicked then (key, if dir == Asc then Desc else Asc)
    else (clicked, Asc)
  }

  /** Two clicks on one header leave the sort where it was, when that
      header was already the key. */
  lemma NextSortTwice(key: Field, dir: Direction)
    ensures var once := NextSort(key, dir, key); NextSort(once.0, once.1, key) == (key, dir)
  {
  }

  /** A click on a new header followed by a click on the same header
      gives that key descending. */
  lemma NewHeaderTwice(key: Field, dir: Direction, clicked: Field)
    requires clicked != key
    ensures var once := NextSort(key, dir, clicked); NextSort(once.0, once.1, clicked) == (clicked, Desc)
  {
  }

  /** `getSortIndicator(key)`: an arrow only on the sort column, up for
      ascending and down for descending. */
  function SortIndicator(key: Field, dir: Direction, column: Field): (r: string)
    ensures column != key ==> r == ""
    ensures column == key && dir == Asc ==> r == " \U{25B2}"
    ensures column == key && dir == Desc ==> r == " \U{25BC}"
  {
    if column != key then ""
    else if dir == Asc then " \U{25B2}" else " \U{25BC}"
  }

  /** `handleSelectAll`: compares only the SIZE of the selection with the
      number of visible rows; equal sizes clear the selection, anything
      else selects exactly the visible rows. */
  function SelectAllTarget(selected: set<nat>, rows: seq<Row>): (r: set<nat>)
    ensures |selected| == |rows| ==> r == {}
    ensures |selected| != |rows| ==> forall i :: i in r <==> exists x :: x in rows && x.idx == i
  {
    if |selected| == |rows| then {} else Indices(rows)
  }

  /** After select-all picks the visible rows, the next select-all clears
      them: there are as many visible indices as visible rows. */
  lemma SelectAllThenClear(ps: seq<Provider>, filter: string, key: Field, dir: Direction, s: set<nat>)
    requires |s| != |Visible(ps, filter, key, dir)|
    ensures var once := SelectAllTarget(s, Visible(ps, filter, key, dir));
      |once| == |Visible(ps, filter, key, dir)|
      && SelectAllTarget(once, Visible(ps, filter, key, dir)) == {}
  {
    VisibleIndicesCount(ps, filter, key, dir);
  }

  /** A selection as large as the visible rows counts as "all selected"
      even when it holds rows the filter hides: select-all then clears it
      instead of selecting the visible rows. */
  lemma SelectAllBySizeOnly(ps: seq<Provider>, filter: string, key: Field, dir: Direction, s: set<nat>, i: nat)
    requires |s| == |Visible(ps, filter, key, dir)| && i in s && i < |ps| && !Matches(ps[i], filter)
    ensures SelectAllTarget(s, Visible(ps, filter, key, dir)) == {}
    ensures i !in Indices(Visible(ps, filter, key, dir))
  {
    VisibleSpec(ps, filter, key, dir);
  }

  /** The header checkbox: checked when the selection is as large as the
      visible rows and there is at least one. */
  predicate HeaderChecked(selected: set<nat>, rows: seq<Row>) {
    |selected| == |rows| && |rows| > 0
  }

  /** Select-all checks the header iff it selects something. */
  lemma SelectAllChecksHeader(ps: seq<Provider>, filter: string, key: Field, dir: Direction, s: set<nat>)
    ensures var rows := Visible(ps, filter, key, dir);
      HeaderChecked(SelectAllTarget(s, rows), rows) <==> |s| != |rows| && |rows| > 0
  {
    VisibleIndicesCount(ps, filter, key, dir);
  }

  /** `handleCellInputBlur(row, col)` on the data: when the trimmed draft
      differs from the stored value, the update replaces that one field of
      that one record with the draft as typed; otherwise no update. */
  function Commit(ps: seq<Provider>, row: nat, col: Field, draft: string): (r: Option<seq<Provider>>)
    requires row < |ps|
    ensures r.None? <==> Trim(draft) == ps[row].Get(col)
    ensures r.Some? ==> |r.value| == |ps| && r.value[row].Get(col) == draft
    ensures r.Some? ==> forall j :: j != col ==> r.value[row].Get(j) == ps[row].Get(j)
    ensures r.Some? ==> forall i :: 0 <= i < |ps| && i != row ==> r.value[i] == ps[i]
  {
    if Trim(draft) != ps[row].Get(col) then
      Some(seq(|ps|, i requires 0 <= i < |ps| => if i == row then ps[i].Set(col, draft) else ps[i]))
    else None
  }

  /** Leaving a cell without typing re-emits the data unchanged when the
      stored value has white space at either end, and emits nothing
      otherwise. */
  lemma CommitUntouchedCell(ps: seq<Provider>, row: nat, col: Field)
    requires row < |ps|
    ensures var v := ps[row].Get(col);
      Commit(ps, row, col, v) == if Trim(v) == v then None else Some(ps)
  {
    var v := ps[row].Get(col);
    var r := Commit(ps, row, col, v);
    if r.Some? {
      SetOwnValue(ps[row], col);
      assert r.value == ps;
    }
  }

  /** A draft that is its own trim settles: committing it again emits
      nothing. */
  lemma CommitSettles(ps: seq<Provider>, row: nat, col: Field, draft: string)
    requires row < |ps| && Trim(draft) == draft && draft != ps[row].Get(col)
    ensures Commit(Commit(ps, row, col, draft).value, row, col, draft).None?
  {
  }

  /** Whether blur emits an update does not change when the draft is
      trimmed first: the comparison already trims it. */
  lemma CommitTrimmedDraft(ps: seq<Provider>, row: nat, col: Field, draft: string)
    requires row < |ps|
    ensures Commit(ps, row, col, Trim(draft)).None? <==> Commit(ps, row, col, draft).None?
  {
    TrimIdempotent(draft);
  }

  /** A draft with white space at either end never settles: the value is
      stored untrimmed, so the same draft committed again re-emits the
      same data. */
  lemma CommitUntrimmedRepeats(ps: seq<Provider>, row: nat, col: Field, draft: string)
    requires row < |ps| && Trim(draft) != draft && Trim(draft) != ps[row].Get(col)
    ensures var once := Commit(ps, row, col, draft).value;
      Commit(once, row, col, draft) == Some(once)
  {
    var once := Commit(ps, row, col, draft).value;
    CommitUntouchedCell(once, row, col);
  }

  /** `Array.from(selected)`: every member once, in some order. */
  method ListOf(s: set<nat>) returns (xs: seq<int>)
    ensures |xs| == |s|
    ensures forall x :: x in xs <==> x in s
    ensures forall a, b :: 0 <= a < b < |xs| ==> xs[a] != xs[b]
  {
    xs := [];
    var rest := s;
    while rest != {}
      invariant rest <= s
      invariant forall x :: x in xs <==> x in s && x !in rest
      invariant |xs| + |rest| == |s|
      invariant forall a, b :: 0 <= a < b < |xs| ==> xs[a] != xs[b]
      decreases |rest|
    {
      var x :| x in rest;
      xs := xs + [x];
      rest := rest - {x};
    }
  }

  /** The store's removal of a listed selection drops exactly the selected
      records: one per selected index. */
  lemma RemoveSelection<T>(records: seq<T>, indices: seq<int>, selected: set<nat>)
    requires forall x :: x in indices <==> x in selected
    requires forall i :: i in selected ==> i < |records|
    ensures |Store.Remove(records, indices)| == |records| - |selected|
  {
    Store.RemoveLength(records, indices);
    assert Store.Named(|records|, indices) == selected by {
      forall i ensures i in Store.Named(|records|, indices) <==> i in selected {
        if i in selected {
          assert i in indices;
        }
      }
    }
  }

  class ProviderList {
    /** The records received from the parent. */
    var providers: seq<Provider>
    var filter: string
    var sortKey: Field
    var sortDirection: Direction
    /** Selected rows, by original index. */
    var selected: set<nat>
    var editingCell: Option<Cell>
    var cellInput: string

    /** The initial state: no filter, sorted by last name ascending,
        nothing selected, nothing being edited. */
    constructor (ps: seq<Provider>)
      ensures providers == ps && filter == "" && sortKey == LastName && sortDirection == Asc
      ensures selected == {} && editingCell == None && cellInput == ""
      ensures Rows() == SortRows(Indexed(ps), LastName, Asc)
    {
      providers := ps;
      filter := "";
      sortKey := LastName;
      sortDirection := Asc;
      selected := {};
      editingCell := None;
      cellInput := "";
      EmptyFilterKeepsAll(ps);
    }

    /** `sortedData`: the rows on screen. */
    function Rows(): seq<Row>
      reads this
    {
      Visible(providers, filter, sortKey, sortDirection)
    }

    /** Every selected index names a record. */
    predicate SelectionInRange()
      reads this
    {
      forall i :: i in selected ==> i < |providers|
    }

    /** The remove button is enabled iff something is selected. */
    function RemoveEnabled(): (r: bool)
      reads this
      ensures r <==> selected != {}
    {
      |selected| > 0
    }

    /** A new `providers` prop from the parent: local state is kept. */
    method Receive(ps: seq<Provider>)
      modifies this
      ensures providers == ps
      ensures filter == old(filter) && sortKey == old(sortKey) && sortDirection == old(sortDirection)
      ensures selected == old(selected) && editingCell == old(editingCell) && cellInput == old(cellInput)
      ensures old(SelectionInRange()) && |ps| >= |old(providers)| ==> SelectionInRange()
    {
      providers := ps;
    }

    /** Typing in the filter box. */
    method SetFilter(f: string)
      modifies this
      ensures filter == f
      ensures providers == old(providers) && sortKey == old(sortKey) && sortDirection == old(sortDirection)
      ensures selected == old(selected) && editingCell == old(editingCell) && cellInput == old(cellInput)
    {
      filter := f;
    }

    /** Choosing a key in the list view's select: the direction is kept. */
    method SetSortKey(k: Field)
      modifies this
      ensures sortKey == k
      ensures providers == old(providers) && filter == old(filter) && sortDirection == old(sortDirection)
      ensures selected == old(selected) && editingCell == old(editingCell) && cellInput == old(cellInput)
    {
      sortKey := k;
    }

    /** The list view's direction button: flips the direction only. */
    method ToggleSortDirection()
      modifies this
      ensures sortDirection != old(sortDirection)
      ensures providers == old(providers) && filter == old(filter) && sortKey == old(sortKey)
      ensures selected == old(selected) && editingCell == old(editingCell) && cellInput == old(cellInput)
    {
      sortDirection := if sortDirection == Asc then Desc else Asc;
    }

    /** A click on a column header. */
    method HandleSort(k: Field)
      modifies this
      ensures (sortKey, sortDirection) == NextSort(old(sortKey), old(sortDirection), k)
      ensures providers == old(providers) && filter == old(filter)
      ensures selected == old(selected) && editingCell == old(editingCell) && cellInput == old(cellInput)
    {
      if sortKey == k {
        sortDirection := if sortDirection == Asc then Desc else Asc;
      } else {
        sortKey := k;
        sortDirection := Asc;
      }
    }

    /** A row's checkbox: only that index changes membership. */
    method HandleSelect(i: nat)
      modifies this
      ensures selected == Toggle(old(selected), i)
      ensures old(SelectionInRange()) && i < |old(providers)| ==> SelectionInRange()
      ensures providers == old(providers) && filter == old(filter) && sortKey == old(sortKey)
      ensures sortDirection == old(sortDirection) && editingCell == old(editingCell) && cellInput == old(cellInput)
    {
      selected := Toggle(selected, i);
    }

    /** The header checkbox. */
    method HandleSelectAll()
      modifies this
      ensures selected == SelectAllTarget(old(selected), old(Rows()))
      ensures SelectionInRange()
      ensures providers == old(providers) && filter == old(filter) && sortKey == old(sortKey)
      ensures sortDirection == old(sortDirection) && editingCell == old(editingCell) && cellInput == old(cellInput)
    {
      var rows := Rows();
      if |selected| == |rows| {
        selected := {};
      } else {
        VisibleIndicesCount(providers, filter, sortKey, sortDirection);
        selected := Indices(rows);
      }
    }

    /** The remove button: hands the parent every selected index once and
        clears the selection. */
    method HandleRemove() returns (indices: seq<int>)
      modifies this
      ensures forall x :: x in indices <==> x in old(selected)
      ensures |indices| == |old(selected)|
      ensures forall a, b :: 0 <= a < b < |indices| ==> indices[a] != indices[b]
      ensures selected == {}
      ensures providers == old(providers) && filter == old(filter) && sortKey == old(sortKey)
      ensures sortDirection == old(sortDirection) && editingCell == old(editingCell) && cellInput == old(cellInput)
    {
      indices := ListOf(selected);
      selected := {};
    }

    /** A double click on a cell: that cell is edited, starting from its
        stored value. */
    method HandleCellDoubleClick(row: nat, col: Field)
      requires row < |providers|
      modifies this
      ensures editingCell == Some(Cell(row, col)) && cellInput == old(providers)[row].Get(col)
      ensures providers == old(providers) && filter == old(filter) && sortKey == old(sortKey)
      ensures sortDirection == old(sortDirection) && selected == old(selected)
    {
      editingCell := Some(Cell(row, col));
      cellInput := providers[row].Get(col);
    }

    /** Typing in the cell being edited. */
    method HandleCellInputChange(v: string)
      modifies this
      ensures cellInput == v
      ensures providers == old(providers) && filter == old(filter) && sortKey == old(sortKey)
      ensures sortDirection == old(sortDirection) && selected == old(selected) && editingCell == old(editingCell)
    {
      cellInput := v;
    }

    /** Leaving the cell: the update for the parent, if any, and the
        editing state ends. The records here change only when the parent
        sends them back. */
    method HandleCellInputBlur(row: nat, col: Field) returns (update: Option<seq<Provider>>)
      requires row < |providers|
      modifies this
      ensures update == Commit(old(providers), row, col, old(cellInput))
      ensures editingCell == None
      ensures providers == old(providers) && filter == old(filter) && sortKey == old(sortKey)
      ensures sortDirection == old(sortDirection) && selected == old(selected) && cellInput == old(cellInput)
    {
      update := Commit(providers, row, col, cellInput);
      editingCell := None;
    }

    /** Enter and Escape both blur the input, and so both commit; any
        other key does nothing. */
    method HandleCellInputKeyDown(key: string) returns (update: Option<seq<Provider>>)
      requires key == "Enter" || key == "Escape" ==> editingCell.Some? && editingCell.value.row < |providers|
      modifies this
      ensures key == "Enter" || key == "Escape" ==>
        update == Commit(old(providers), old(editingCell).value.row, old(editingCell).value.col, old(cellInput))
        && editingCell == None
      ensures !(key == "Enter" || key == "Escape") ==> update == None && editingCell == old(editingCell)
      ensures providers == old(providers) && filter == old(filter) && sortKey == old(sortKey)
      ensures sortDirection == old(sortDirection) && selected == old(selected) && cellInput == old(cellInput)
    {
      if key == "Enter" || key == "Escape" {
        update := HandleCellInputBlur(editingCell.value.row, editingCell.value.col);
      } else {
        update := None;
      }
    }
  }

  /** A filter that hides the first of three records still shows the
      third under its original index 2. */
  lemma FilteredViewKeepsIndex(a: Provider, b: Provider, c: Provider, f: string, key: Field, dir: Direction)
    requires Matches(c, f) && !Matches(a, f)
    ensures Row(c, 2) in Visible([a, b, c], f, key, dir)
    ensures Row(a, 0) !in Visible([a, b, c], f, key, dir)
  {
    var ps := [a, b, c];
    VisibleSpec(ps, f, key, dir);
    assert ps[2] == c && ps[0] == a;
  }

  /** With a filter that hides the first of three records, the third is
      shown under its original index; selecting and removing it leaves the
      first two. */
  method RemoveThirdScenario(a: Provider, b: Provider, c: Provider, f: string)
    requires Matches(b, f) && Matches(c, f) && !Matches(a, f)
  {
    var ps := [a, b, c];
    var list := new ProviderList(ps);
    list.SetFilter(f);
    FilteredViewKeepsIndex(a, b, c, f, list.sortKey, list.sortDirection);
    assert Row(c, 2) in list.Rows() && Row(a, 0) !in list.Rows();
    list.HandleSelect(2);
    assert list.selected == {2};
    var indices := list.HandleRemove();
    assert Store.Named(3, indices) == Store.Named(3, [2]);
    Store.RemoveDependsOnlyOnNamed(ps, indices, [2]);
    Store.RemoveLastOfThree(a, b, c);
    assert Store.Remove(ps, indices) == [a, b];
    assert list.selected == {};
  }
}
