# Partner table engine of DataTablePage

This project models the client-side table engine of the `DataTablePage`
component, the partner registry screen of the administrative console. The
component holds an in-memory array of partner rows. Four filter fields
(company code, free-text search, tax-id search, blocked-only) and the
partner-type buttons are editable. The table can be sorted by a key in either
direction and paged ten rows at a time.

The model has six modules:

- `Text`: ASCII lower-casing, `includes` as substring search, and JavaScript's
  `<` on strings as lexicographic order by character code. The lemmas prove
  that `includes` finds exactly the occurrences of the query. They also prove
  that the order is irreflexive, asymmetric, transitive and total.
- `Rows`: the `Row` record and the `result.sort` comparator. The `class`
  field is named `rowClass` because `class` is a Dafny keyword. The comparator
  is proved antisymmetric (swapping its arguments negates the result) and the
  order it induces transitive.
- `Filtering`: the row predicate and `data.filter`. The lemmas prove that the
  predicate is exactly the conjunction of the four filters. They also prove
  that filtering keeps each passing row as often as it occurs and drops every
  failing row, that it keeps order, and that with no filter it keeps all rows.
- `Sorting`: in-place insertion sort on an `array<Row>` with the component's
  comparator. It is proved to leave the array sorted and to be a permutation.
- `Paging`: the page count, `pageData` as a `slice` (JavaScript's index rules
  included), the Prev/Next clamps and their disabled states, the five-button
  window and its ellipsis, and the "Showing a to b of n" caption.
- `Table`: the component as the class `DataTable`. Its fields are the
  component's state. Its handlers are methods and its derived views are
  functions or methods.

Some editing handlers do not reset the page: the company select, the search
box and the tax-id box each set only their own field
(src/pages/DataTablePage.tsx:243, 261, 275). After such an edit, `page` can
exceed `pages`. Only `page >= 1` holds in every state (`DataTable.Valid`). The
paging lemmas therefore say what happens in both cases. Outside the page
count, `pageData` is empty, the caption reads "Showing 0 to n of n", Next
jumps to the last page, and Prev can stay outside the count.

## Model

| member | source | states |
|---|---|---|
| Text.Lower | src/pages/DataTablePage.tsx:121-126 | lower-casing keeps the length, maps each character by `LowerChar` and leaves no upper-case letter |
| Text.LowerIdempotent | src/pages/DataTablePage.tsx:121-126 | lower-casing twice equals lower-casing once |
| Text.Includes | src/pages/DataTablePage.tsx:122 | `s.includes(q)` holds only when `q` is no longer than `s`, and always for an empty `q`; `IncludesIff` gives the full meaning |
| Text.IncludesIff | src/pages/DataTablePage.tsx:122 | `s.includes(q)` holds exactly when `q` occurs in `s` at some index |
| Text.LexLess | src/pages/DataTablePage.tsx:141-142 | JavaScript `a < b` on strings: a proper prefix is below the longer string, and nothing is below the empty string; the order laws are the `Lex*` lemmas |
| Text.LexTransitive | src/pages/DataTablePage.tsx:141-142 | JavaScript `<` on strings is transitive |
| Text.LexTotal | src/pages/DataTablePage.tsx:141-142 | two different strings are ordered one way or the other |
| Text.LexAsymmetric | src/pages/DataTablePage.tsx:141-142 | `a < b` and `b < a` never hold together |
| Text.LexIrreflexive | src/pages/DataTablePage.tsx:141-142 | no string is less than itself |
| Rows.KeyOf | src/pages/DataTablePage.tsx:133-139 | the sort key is a number exactly for `id` and a lower-cased string for the other keys |
| Rows.KeyLess | src/pages/DataTablePage.tsx:141-142 | `<` on two sort keys: no key is below itself and only keys of one kind are ordered |
| Rows.Compare | src/pages/DataTablePage.tsx:141-143 | the comparator returns -1, 0 or 1; 0 exactly when neither key is below the other; under `asc` negative exactly when `a`'s key is below `b`'s, under `desc` exactly when `b`'s is below `a`'s |
| Rows.CompareFlip | src/pages/DataTablePage.tsx:141-143 | the comparator is antisymmetric: swapping the rows turns a positive result negative, a negative one positive, and keeps a tie |
| Rows.InOrderMeaning | src/pages/DataTablePage.tsx:141-143 | under `asc`, a row may precede another iff its key is not greater; under `desc`, iff its key is not smaller |
| Rows.InOrderTransitive | src/pages/DataTablePage.tsx:132-144 | the order the comparator induces is transitive |
| Filtering.Matches | src/pages/DataTablePage.tsx:117-129 | a passing row has the chosen company code (when one is chosen) and is blocked (when blocked-only is on); `MatchesIff` gives the whole condition |
| Filtering.MatchesIff | src/pages/DataTablePage.tsx:117-129 | a row passes iff the company filter is empty or equal to its company code, blocked-only is off or it is blocked, the query is empty or its lower-cased form occurs in one of the lower-cased `name1`/`name2`/`searchTerm1`/`searchTerm2`, and likewise for tax id |
| Filtering.Filter | src/pages/DataTablePage.tsx:117 | the filtered rows are never more than the data |
| Filtering.FilterCount | src/pages/DataTablePage.tsx:117-129 | a passing row occurs in the output as often as in the data; a failing row does not occur |
| Filtering.FilterMembers | src/pages/DataTablePage.tsx:117-129 | a row is in the output iff it is in the data and passes |
| Filtering.FilterAppend | src/pages/DataTablePage.tsx:117 | filtering keeps the data's order: it distributes over concatenation |
| Filtering.NoFiltersKeepAll | src/pages/DataTablePage.tsx:117-129 | with every filter empty or off, the output is the data itself |
| Sorting.AdjacentToSorted | src/pages/DataTablePage.tsx:132-144 | neighbours in comparator order implies every pair in order |
| Sorting.SortedMeaning | src/pages/DataTablePage.tsx:132-144 | a sorted view is non-decreasing in key under `asc` and non-increasing under `desc` |
| Sorting.SortRows | src/pages/DataTablePage.tsx:132-144 | the in-place sort leaves the array sorted by the comparator and a permutation of what it held |
| Sorting.InsertAt | src/pages/DataTablePage.tsx:132-144 | one insertion pass extends the ordered prefix `a[..i+1]` by one row, is a permutation of that prefix, and leaves `a[i+1..]` unchanged |
| Paging.PageCount | src/pages/DataTablePage.tsx:149 | `pages` is at least 1, is 1 for no rows, and otherwise is the least number of ten-row pages that hold all rows |
| Paging.JsSlice | src/pages/DataTablePage.tsx:153 | `slice` is never longer than the sequence, equals Dafny's slice for in-range indices, runs to the end when `end` is past it, and is empty when `begin` is at or past the end or `0 <= end <= begin` |
| Paging.PageSlice | src/pages/DataTablePage.tsx:151-154 | for page 1 or more, `pageData` is the run of rows starting at `(page-1)*10`, of length `min(10, n - start)` or 0 |
| Paging.PageNonEmptyIff | src/pages/DataTablePage.tsx:151-154 | a page holds rows iff there are rows and it is within the page count |
| Paging.PagesUpToPrefix | src/pages/DataTablePage.tsx:151-154 | pages `1..k` concatenated are the first `10k` rows (or all of them) |
| Paging.PagesCoverView | src/pages/DataTablePage.tsx:149-154 | pages `1..pages` concatenated are the whole filtered view |
| Paging.PrevPage | src/pages/DataTablePage.tsx:553 | Prev never gives a page below 1, and from page 1 or more it goes back at most one page and never forward |
| Paging.NextPage | src/pages/DataTablePage.tsx:606 | Next never gives a page beyond `pages` or more than one ahead, and below `pages` it goes exactly one ahead |
| Paging.PrevDisabled | src/pages/DataTablePage.tsx:554 | Prev is disabled only where it would not move |
| Paging.NextDisabled | src/pages/DataTablePage.tsx:607 | Next is disabled only where it would not move |
| Paging.PrevInRange | src/pages/DataTablePage.tsx:553-554 | from a page in `1..pages`, Prev stays in range; it is disabled iff it would not move, and when enabled it moves back by one |
| Paging.NextInRange | src/pages/DataTablePage.tsx:606-607 | from a page in `1..pages`, Next stays in range; it is disabled iff it would not move, and when enabled it moves forward by one |
| Paging.PrevNextInverse | src/pages/DataTablePage.tsx:553-607 | an enabled Prev undoes Next and an enabled Next undoes Prev |
| Paging.NextAlwaysInRange | src/pages/DataTablePage.tsx:606 | Next lands in `1..pages` from any page, and on the last page from beyond it |
| Paging.WindowButton | src/pages/DataTablePage.tsx:567-576 | every one of the `min(pages, 5)` buttons carries a page number within `1..pages` |
| Paging.Window | src/pages/DataTablePage.tsx:566-576 | the window has `min(pages, 5)` consecutive buttons, all within `1..pages`, starting at 1 and ending at `pages` when there are at most five pages, and containing the current page when it is in range |
| Paging.ShowEllipsis | src/pages/DataTablePage.tsx:593 | the "..." is shown iff the window's last button is below `pages` |
| Paging.ShowFrom | src/pages/DataTablePage.tsx:549 | the caption's first number is 0 exactly for an empty page, and otherwise the 1-based position of the first row of a page |
| Paging.ShowTo | src/pages/DataTablePage.tsx:549 | the caption's second number never exceeds the number of rows nor the end of the page, and is not negative |
| Paging.ShowingRange | src/pages/DataTablePage.tsx:549 | on a page in range, "Showing a to b of n" has `a` the 1-based position of the page's first row and `b` that of its last, `1 <= a <= b <= n`, and `view[a-1..b]` is exactly `pageData`; with no rows it reads 0 to 0; beyond the page count, 0 to n |
| Table.NewFile | src/pages/DataTablePage.tsx:159-161 | no file chosen gives no file; a chosen file gives a record with its name and URL |
| Table.UpdateFile | src/pages/DataTablePage.tsx:157-162 | the length is kept, rows with another id are unchanged, and a matching row changes only in `file` |
| Table.UpdateFileTouchesOneRow | src/pages/DataTablePage.tsx:156-163 | with distinct ids, at most one row changes and ids stay distinct |
| Table.Flip | src/pages/DataTablePage.tsx:108 | flipping always gives the other direction |
| Table.DataTable.Pages | src/pages/DataTablePage.tsx:149 | the page count of the component is at least 1 |
| Table.DataTable.constructor | src/pages/DataTablePage.tsx:89-99 | starts with the given data, empty filters, page 1, ascending by id, type All; every row matches |
| Table.DataTable.Filtered | src/pages/DataTablePage.tsx:116-147 | the view is a permutation of the matching rows, sorted by the current key and direction |
| Table.DataTable.PageData | src/pages/DataTablePage.tsx:151-154 | `pageData` is the current page's run of at most ten rows of the sorted view, non-empty iff the view is and the page is in range |
| Table.DataTable.PrevIsDisabled | src/pages/DataTablePage.tsx:554 | the component's Prev button is disabled only where a click would not move the page |
| Table.DataTable.NextIsDisabled | src/pages/DataTablePage.tsx:607 | the component's Next button is disabled only where a click would not move the page |
| Table.DataTable.HandleSearch | src/pages/DataTablePage.tsx:104 | Search sets the page to 1 and changes nothing else |
| Table.DataTable.HandleSort | src/pages/DataTablePage.tsx:106-114 | clicking the current key flips the direction; another key becomes the key with `asc`; the page becomes 1; nothing else changes |
| Table.DataTable.SetRoleFilter | src/pages/DataTablePage.tsx:243 | sets the company filter only; the page is kept |
| Table.DataTable.SetQuery | src/pages/DataTablePage.tsx:261 | sets the query only; the page is kept |
| Table.DataTable.SetTaxIdQuery | src/pages/DataTablePage.tsx:275 | sets the tax-id query only; the page is kept |
| Table.DataTable.SetBlockedOnly | src/pages/DataTablePage.tsx:296 | sets blocked-only and the page to 1 |
| Table.DataTable.SetFilterType | src/pages/DataTablePage.tsx:200-224 | sets the partner type and the page to 1; the matching rows do not change |
| Table.DataTable.Reset | src/pages/DataTablePage.tsx:312 | clears the five filter fields to `''`, `''`, `''`, `false`, `All`, sets the page to 1, keeps data and sort; then every row matches |
| Table.DataTable.Prev | src/pages/DataTablePage.tsx:553 | the page becomes `max(1, page-1)`; it stays within the page count if it was; when disabled it does not move, and when enabled from a page in range it moves back by one |
| Table.DataTable.Next | src/pages/DataTablePage.tsx:606 | the page becomes `min(pages, page+1)`, always within the page count; when disabled it does not move, and when enabled from a page in range it moves forward by one |
| Table.DataTable.SelectPageButton | src/pages/DataTablePage.tsx:580 | a numbered button sets the page to its number, which is within the page count |
| Table.DataTable.HandleFileChange | src/pages/DataTablePage.tsx:156-163 | `data` becomes `UpdateFile` of the old data; nothing else changes; distinct ids stay distinct |

## Left out

- Rendering, CSS, dark mode, animations, the detail modal with `selectedRow`,
  and the `DetailRow`/`SortIcon` components: presentation only.
- The `sampleData` fixture: it uses `Math.random`. The constructor takes the
  rows as a parameter instead.
- `companiesList`, the option list of the company select: it only feeds the
  dropdown's choices.
- `handleView`, `URL.createObjectURL`, `window.open`, `alert` and the
  `click()` on the hidden file input: browser calls. The object URL of an
  uploaded file is a parameter of `HandleFileChange`.
- Sort keys: `sortBy` is a free string in `DataTablePage`. The model has the six
  keys the component uses: `id` and the five clickable headers.
- Table.DataTable.Filtered: it promises a sorted permutation of the matching
  rows. JavaScript's `Array.prototype.sort` is also stable, so rows with equal
  keys keep their data order. The model does not state that.
- Table.UpdateFile: every matching row gets the one `url` parameter. The
  component calls `URL.createObjectURL` once per matching row, so rows that
  share an id would each get a URL of their own. The two agree when ids are
  distinct, which `UpdateFileTouchesOneRow` assumes and the constructor does
  not require.
- JavaScript numbers: `id` and `page` are modelled as unbounded integers.
  Fractional, infinite or NaN ids, which the `Row` type's `number` allows, are
  not covered.
- Text.Lower: lower-cases ASCII letters only. Unicode case mapping is not
  modelled.
- Text.LexLess: compares Unicode scalar values. JavaScript compares UTF-16
  code units, and the two can differ for characters outside the Basic
  Multilingual Plane.
- The Register, SignIn, PrivateRoute, App and auth files: form, storage and
  routing plumbing around the table.
