/** The `DataTablePage` component: its state fields, the derived views
    (`filtered`, `pages`, `pageData`) and the event handlers that change
    the state. */
module Table {
  import opened Rows
  import opened Filtering
  import opened Sorting
  import opened Paging

  /** The partner-type buttons. */
  datatype PartnerType = All | Vendors | Customers

  /** Every state field of the component that the handlers touch. */
  datatype TableState = TableState(
    data: seq<Row>,
    roleFilter: string,
    query: string,
    taxIdQuery: string,
    page: int,
    sortBy: SortKey,
    sortDir: Dir,
    blockedOnly: bool,
    filterType: PartnerType)

  /** The other direction, as a second click on the same header gives. */
  function Flip(d: Dir): (r: Dir)
    ensures r != d
  {
    if d == Asc then Desc else Asc
  }

  /** The file a row carries after `handleFileChange`: none when no file was
      chosen, otherwise one with the chosen file's name and its object URL. */
  function NewFile(upload: Option<string>, url: string): (f: Option<FileRef>)
    ensures upload.None? <==> f.None?
    ensures upload.Some? ==> f.value.name == upload.value && f.value.url == url
  {
    match upload
    case None => None
    case Some(name) => Some(FileRef(name, url))
  }

  /** `prev.map(...)` of `handleFileChange`: every row whose id is `id` gets
      the new file and keeps every other field; all other rows are unchanged. */
  function UpdateFile(rows: seq<Row>, id: int, upload: Option<string>, url: string): (r: seq<Row>)
    ensures |r| == |rows|
    ensures forall i :: 0 <= i < |r| && rows[i].id != id ==> r[i] == rows[i]
    ensures forall i :: 0 <= i < |r| && rows[i].id == id ==>
      r[i].file == NewFile(upload, url) && r[i].(file := rows[i].file) == rows[i]
  {
    seq(|rows|, i requires 0 <= i < |rows| =>
      if rows[i].id != id then rows[i] else rows[i].(file := NewFile(upload, url)))
  }

  /** No two rows share an id. */
  ghost predicate DistinctIds(rows: seq<Row>) {
    forall i, j :: 0 <= i < j < |rows| ==> rows[i].id != rows[j].id
  }

  /** With distinct ids, at most one row changes, and the ids stay distinct. */
  lemma UpdateFileTouchesOneRow(rows: seq<Row>, id: int, upload: Option<string>, url: string)
    requires DistinctIds(rows)
    ensures var r := UpdateFile(rows, id, upload, url);
      && DistinctIds(r)
      && forall i, j :: 0 <= i < |r| && 0 <= j < |r| && r[i] != rows[i] && r[j] != rows[j] ==> i == j
  {
    var r := UpdateFile(rows, id, upload, url);
    forall i, j | 0 <= i < |r| && 0 <= j < |r| && r[i] != rows[i] && r[j] != rows[j]
      ensures i == j
    {
      assert rows[i].id == id && rows[j].id == id;
    }
    forall i, j | 0 <= i < j < |r| ensures r[i].id != r[j].id {
      assert r[i].id == rows[i].id && r[j].id == rows[j].id;
    }
  }

  class DataTable {
    var data: seq<Row>
    var roleFilter: string
    var query: string
    var taxIdQuery: string
    var page: int
    var sortBy: SortKey
    var sortDir: Dir
    var blockedOnly: bool
    var filterType: PartnerType

    /** Every handler keeps the page at 1 or more. */
    ghost predicate Valid()
      reads this
    {
      page >= 1
    }

    /** The whole state, for saying what a handler leaves alone. */
    function State(): TableState
      reads this
    {
      TableState(data, roleFilter, query, taxIdQuery, page, sortBy, sortDir, blockedOnly, filterType)
    }

    /** The filter fields the `filtered` view depends on. */
    function Criteria(): Filters
      reads this
    {
      Filters(roleFilter, query, taxIdQuery, blockedOnly)
    }

    /** The rows that pass the filters, in data order (before sorting). */
    function Matching(): seq<Row>
      reads this
    {
      Filter(data, Criteria())
    }

    /** `pages`. */
    function Pages(): (pages: int)
      reads this
      ensures pages >= 1
    {
      PageCount(|Matching()|)
    }

    /** The initial state: `data` as given, every filter empty or off,
        page 1, sorted ascending by id. */
    constructor (rows: seq<Row>)
      ensures Valid()
      ensures State() == TableState(rows, "", "", "", 1, Id, Asc, false, All)
      ensures Matching() == rows
    {
      data, roleFilter, query, taxIdQuery := rows, "", "", "";
      page, sortBy, sortDir := 1, Id, Asc;
      blockedOnly, filterType := false, All;
      NoFiltersKeepAll(rows);
    }

    /** The `filtered` view: the passing rows, sorted in place by the
        current key and direction. */
    method Filtered() returns (view: seq<Row>)
      ensures multiset(view) == multiset(Matching())
      ensures |view| == |Matching()|
      ensures SortedBy(view, sortBy, sortDir)
    {
      var m := Matching();
      var a := new Row[|m|](i requires 0 <= i < |m| => m[i]);
      assert a[..] == m;
      SortRows(a, sortBy, sortDir);
      view := a[..];
      assert |multiset(view)| == |multiset(m)|;
    }

    /** `filtered` together with `pageData`, the rows of the current page. */
    method PageData() returns (view: seq<Row>, rows: seq<Row>)
      requires Valid()
      ensures multiset(view) == multiset(Matching()) && SortedBy(view, sortBy, sortDir)
      ensures rows == PageSlice(view, page) && |rows| <= PerPage
      ensures forall i :: 0 <= i < |rows| ==> rows[i] == view[PageStart(page) + i]
      ensures |rows| > 0 <==> |view| > 0 && page <= Pages()
    {
      view := Filtered();
      rows := PageSlice(view, page);
      PageNonEmptyIff(view, page);
    }

    /** Prev is disabled on page 1, where a click would not move. */
    predicate PrevIsDisabled()
      reads this
      ensures PrevIsDisabled() ==> PrevPage(page) == page
    {
      PrevDisabled(page)
    }

    /** Next is disabled on the last page, where a click would not move. */
    predicate NextIsDisabled()
      reads this
      ensures NextIsDisabled() ==> NextPage(page, Pages()) == page
    {
      NextDisabled(page, Pages())
    }

    /** `handleSearch`: back to page 1. */
    method HandleSearch()
      modifies this
      ensures Valid()
      ensures State() == old(State()).(page := 1)
    {
      page := 1;
    }

    /** `handleSort`: a click on the current key flips the direction; a click on
        another key sorts by it ascending. Either way back to page 1. */
    method HandleSort(field: SortKey)
      modifies this
      ensures Valid()
      ensures old(sortBy) == field ==> sortBy == field && sortDir == Flip(old(sortDir))
      ensures old(sortBy) != field ==> sortBy == field && sortDir == Asc
      ensures State() == old(State()).(sortBy := sortBy, sortDir := sortDir, page := 1)
    {
      if sortBy == field {
        sortDir := if sortDir == Asc then Desc else Asc;
      } else {
        sortBy := field;
        sortDir := Asc;
      }
      page := 1;
    }

    /** The company select. The page is not reset. */
    method SetRoleFilter(v: string)
      modifies this
      ensures State() == old(State()).(roleFilter := v)
    {
      roleFilter := v;
    }

    /** The search box. The page is not reset. */
    method SetQuery(v: string)
      modifies this
      ensures State() == old(State()).(query := v)
    {
      query := v;
    }

    /** The tax-id box. The page is not reset. */
    method SetTaxIdQuery(v: string)
      modifies this
      ensures State() == old(State()).(taxIdQuery := v)
    {
      taxIdQuery := v;
    }

    /** The blocked-only checkbox: sets the flag and goes back to page 1. */
    method SetBlockedOnly(v: bool)
      modifies this
      ensures Valid()
      ensures State() == old(State()).(blockedOnly := v, page := 1)
    {
      blockedOnly := v;
      page := 1;
    }

    /** The All/Vendors/Customers buttons: set the type and go back to page 1.
        The type takes no part in filtering, so the matching rows stay the same. */
    method SetFilterType(t: PartnerType)
      modifies this
      ensures Valid()
      ensures State() == old(State()).(filterType := t, page := 1)
      ensures Matching() == old(Matching())
    {
      filterType := t;
      page := 1;
    }

    /** Reset: clears the five filter fields, goes back to page 1, and keeps
        the data and the sort; afterwards every row matches. */
    method Reset()
      modifies this
      ensures Valid()
      ensures State() == old(State()).(roleFilter := "", query := "", taxIdQuery := "",
                                       blockedOnly := false, filterType := All, page := 1)
      ensures Criteria() == NoFilters
      ensures Matching() == data
    {
      roleFilter, query, taxIdQuery := "", "", "";
      blockedOnly, filterType := false, All;
      page := 1;
      NoFiltersKeepAll(data);
    }

    /** The Prev button. From a page within the page count it stays within it. */
    method Prev()
      requires Valid()
      modifies this
      ensures Valid()
      ensures State() == old(State()).(page := PrevPage(old(page)))
      ensures old(page) <= Pages() ==> page <= Pages()
      ensures old(PrevIsDisabled()) ==> page == old(page)
      ensures old(!PrevIsDisabled()) && old(page) <= Pages() ==> page == old(page) - 1
    {
      page := PrevPage(page);
    }

    /** The Next button. It always lands within the page count. */
    method Next()
      requires Valid()
      modifies this
      ensures Valid()
      ensures State() == old(State()).(page := NextPage(old(page), old(Pages())))
      ensures page <= Pages()
      ensures old(NextIsDisabled()) ==> page == old(page)
      ensures old(!NextIsDisabled()) && old(page) <= Pages() ==> page == old(page) + 1
    {
      page := NextPage(page, Pages());
    }

    /** A click on the `i`-th numbered button of the window. */
    method SelectPageButton(i: nat)
      requires Valid() && i < |Window(Pages(), page)|
      modifies this
      ensures Valid()
      ensures State() == old(State()).(page := old(Window(Pages(), page))[i])
      ensures page <= Pages()
    {
      page := Window(Pages(), page)[i];
    }

    /** `handleFileChange(id, file)`: `upload` is the chosen file's name, if
        any, and `url` the object URL the browser gave it. */
    method HandleFileChange(id: int, upload: Option<string>, url: string)
      modifies this
      ensures State() == old(State()).(data := UpdateFile(old(data), id, upload, url))
      ensures |data| == |old(data)|
      ensures DistinctIds(old(data)) ==> DistinctIds(data)
    {
      if DistinctIds(data) {
        UpdateFileTouchesOneRow(data, id, upload, url);
      }
      data := UpdateFile(data, id, upload, url);
    }
  }
}
