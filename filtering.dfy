/** The row predicate of the `filtered` view and `data.filter` itself. */
module Filtering {
  import opened Text
  import opened Rows

  /** The filter fields of the component that the predicate reads. The
      partner-type buttons (`filterType`) are not among them. */
  datatype Filters = Filters(roleFilter: string, query: string, taxIdQuery: string, blockedOnly: bool)

  /** Every filter empty or off: the state after Reset and at start. */
  const NoFilters := Filters("", "", "", false)

  /** The callback given to `data.filter`, test by test as `DataTablePage`
      writes it: an empty string is falsy, so an empty filter skips its test.
      A passing row has the chosen company code and, when blocked-only is on,
      is blocked; `MatchesIff` gives the whole condition. */
  predicate Matches(f: Filters, d: Row)
    ensures Matches(f, d) ==> f.roleFilter == "" || d.companyCode == f.roleFilter
    ensures Matches(f, d) ==> !f.blockedOnly || d.blocked
  {
    if f.roleFilter != "" && d.companyCode != f.roleFilter then false
    else if f.blockedOnly && !d.blocked then false
    else if f.query != "" && !(
      var q := Lower(f.query);
      Includes(Lower(d.name1), q) || Includes(Lower(d.name2), q) ||
      Includes(Lower(d.searchTerm1), q) || Includes(Lower(d.searchTerm2), q)) then false
    else if f.taxIdQuery != "" && !Includes(Lower(d.taxId), Lower(f.taxIdQuery)) then false
    else true
  }

  /** `q`, lower-cased, occurs somewhere in `s`, lower-cased. */
  ghost predicate ContainsIgnoringCase(s: string, q: string) {
    exists i :: OccursAt(Lower(s), Lower(q), i)
  }

  /** A row passes exactly when each filter is empty (or off) or is met. */
  lemma MatchesIff(f: Filters, d: Row)
    ensures Matches(f, d) <==>
      && (f.roleFilter == "" || d.companyCode == f.roleFilter)
      && (!f.blockedOnly || d.blocked)
      && (f.query == "" ||
          ContainsIgnoringCase(d.name1, f.query) || ContainsIgnoringCase(d.name2, f.query) ||
          ContainsIgnoringCase(d.searchTerm1, f.query) || ContainsIgnoringCase(d.searchTerm2, f.query))
      && (f.taxIdQuery == "" || ContainsIgnoringCase(d.taxId, f.taxIdQuery))
  {
    var q := Lower(f.query);
    IncludesIff(Lower(d.name1), q);
    IncludesIff(Lower(d.name2), q);
    IncludesIff(Lower(d.searchTerm1), q);
    IncludesIff(Lower(d.searchTerm2), q);
    IncludesIff(Lower(d.taxId), Lower(f.taxIdQuery));
  }

  /** `data.filter(d => Matches(f, d))`: the passing rows, in their original order. */
  function Filter(data: seq<Row>, f: Filters): (r: seq<Row>)
    ensures |r| <= |data|
  {
    if data == [] then []
    else (if Matches(f, data[0]) then [data[0]] else []) + Filter(data[1..], f)
  }

  /** Each row occurs in the output as often as in the input when it
      passes, and not at all when it does not. */
  lemma {:induction false} FilterCount(data: seq<Row>, f: Filters, x: Row)
    ensures multiset(Filter(data, f))[x] == if Matches(f, x) then multiset(data)[x] else 0
  {
    if data != [] {
      FilterCount(data[1..], f, x);
      assert data == [data[0]] + data[1..];
    }
  }

  /** A row is in the filtered view exactly when it is in the data and passes. */
  lemma FilterMembers(data: seq<Row>, f: Filters)
    ensures forall x :: x in Filter(data, f) <==> x in data && Matches(f, x)
  {
    forall x {
      FilterCount(data, f, x);
    }
  }

  /** With every filter empty or off, all rows pass, in their order. */
  lemma {:induction false} NoFiltersKeepAll(data: seq<Row>)
    ensures Filter(data, NoFilters) == data
  {
    if data != [] {
      NoFiltersKeepAll(data[1..]);
      assert data == [data[0]] + data[1..];
    }
  }

  /** Filtering keeps order: filtering a concatenation filters each part
      and concatenates the results. */
  lemma {:induction false} FilterAppend(a: seq<Row>, b: seq<Row>, f: Filters)
    ensures Filter(a + b, f) == Filter(a, f) + Filter(b, f)
  {
    if a == [] {
      assert a + b == b;
    } else {
      var h := if Matches(f, a[0]) then [a[0]] else [];
      assert (a + b)[0] == a[0];
      assert (a + b)[1..] == a[1..] + b;
      assert Filter(a + b, f) == h + Filter(a[1..] + b, f);
      FilterAppend(a[1..], b, f);
      assert Filter(a, f) == h + Filter(a[1..], f);
      var x, y := Filter(a[1..], f), Filter(b, f);
      assert h + (x + y) == (h + x) + y;
    }
  }
}
