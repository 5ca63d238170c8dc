/**
 * The state of the editable review table: the leases of a rent history,
 * split into pages, and the index of the page on screen. Every edit is a
 * transform of the current page alone; navigation moves the index within the
 * pages.
 */
module EditableTable {
  import opened Wrappers

  /** A cell value: the table holds text and numbers. */
  datatype Value = Text(text: string) | Number(number: real)

  /** A lease row, keyed by column id; `updateData` may write any column id. */
  type Lease = map<string, Value>

  type Page = seq<Lease>

  const TextColumns: set<string> :=
    {"regYear", "aptStat", "filingDate", "reasonsChange", "leaseStart", "leaseEnd"}

  const RentColumns: set<string> := {"legalRent", "prefRent", "paidRent"}

  /** `LEASE_APT_STAT[0]`, the first apartment status offered. */
  const DefaultAptStat := "RS"

  /** `emptyLease()`: every column present, rents zero, status "RS", every other text column empty. */
  function EmptyLease(): (l: Lease)
    ensures l.Keys == TextColumns + RentColumns
    ensures forall c :: c in RentColumns ==> l[c] == Number(0.0)
    ensures forall c :: c in TextColumns && c != "aptStat" ==> l[c] == Text("")
    ensures l["aptStat"] == Text(DefaultAptStat)
  {
    map[
      "regYear" := Text(""),
      "aptStat" := Text(DefaultAptStat),
      "filingDate" := Text(""),
      "legalRent" := Number(0.0),
      "prefRent" := Number(0.0),
      "paidRent" := Number(0.0),
      "reasonsChange" := Text(""),
      "leaseStart" := Text(""),
      "leaseEnd" := Text("")]
  }

  // ------------------------------------------------------------ edits of the current page

  /**
   * `oldPages.map((page, pageIdx) => pageIdx === currentPageIndex ? edit(page) : page)`:
   * every other page is left as it was, and nothing happens when the index
   * names no page.
   */
  function EditCurrentPage(pages: seq<Page>, current: int, edit: Page -> Page): (r: seq<Page>)
    ensures |r| == |pages|
    ensures forall p :: 0 <= p < |pages| && p != current ==> r[p] == pages[p]
    ensures 0 <= current < |pages| ==> r[current] == edit(pages[current])
  {
    seq(|pages|, p requires 0 <= p < |pages| => if p == current then edit(pages[p]) else pages[p])
  }

  /** The `updateData` transform of a page: `{...row, [columnId]: value}` on the row at `rowIndex`. */
  function UpdateRow(page: Page, rowIndex: int, columnId: string, value: Value): (r: Page)
    ensures |r| == |page|
    ensures forall i :: 0 <= i < |page| && i != rowIndex ==> r[i] == page[i]
    ensures 0 <= rowIndex < |page| ==> r[rowIndex].Keys == page[rowIndex].Keys + {columnId}
    ensures 0 <= rowIndex < |page| ==> r[rowIndex][columnId] == value
    ensures 0 <= rowIndex < |page| ==> forall c :: c in page[rowIndex] && c != columnId ==> r[rowIndex][c] == page[rowIndex][c]
  {
    if 0 <= rowIndex < |page| then page[rowIndex := page[rowIndex][columnId := value]] else page
  }

  /** Where `splice(start, …)` inserts in an array of length `len`: negative starts count from the end, and both ends clamp. */
  function SpliceStart(len: nat, start: int): (s: nat)
    ensures s <= len
    ensures 0 <= start <= len ==> s == start
    ensures start > len ==> s == len
    ensures start < 0 ==> s == if len + start < 0 then 0 else len + start
  {
    if start < 0 then (if len + start < 0 then 0 else len + start)
    else if start > len then len
    else start
  }

  /** The `addRow` transform: append an empty lease, or insert one after `rowIndex`. */
  function InsertRow(page: Page, rowIndex: Option<int>): (r: Page)
    ensures |r| == |page| + 1
    ensures rowIndex.None? ==> r == page + [EmptyLease()]
    ensures rowIndex.Some? && 0 <= rowIndex.value < |page| ==>
      && r[rowIndex.value + 1] == EmptyLease()
      && (forall i :: 0 <= i <= rowIndex.value ==> r[i] == page[i])
      && (forall i :: rowIndex.value < i < |page| ==> r[i + 1] == page[i])
  {
    match rowIndex
    case None => page + [EmptyLease()]
    case Some(i) =>
      var at := SpliceStart(|page|, i + 1);
      page[..at] + [EmptyLease()] + page[at..]
  }

  /** `page.filter((_, idx) => idx !== rowIndex)`, for the elements from position `offset` of the original page on. */
  function FilterOut(rest: Page, offset: nat, rowIndex: int): (r: Page)
    ensures |r| <= |rest|
    decreases |rest|
  {
    if |rest| == 0 then []
    else if offset == rowIndex then FilterOut(rest[1..], offset + 1, rowIndex)
    else [rest[0]] + FilterOut(rest[1..], offset + 1, rowIndex)
  }

  /** The filter keeps every element when the index to drop lies outside the elements it sees. */
  lemma {:induction false} FilterOutMissing(rest: Page, offset: nat, rowIndex: int)
    requires rowIndex < offset || rowIndex >= offset + |rest|
    ensures FilterOut(rest, offset, rowIndex) == rest
    decreases |rest|
  {
    if |rest| > 0 {
      FilterOutMissing(rest[1..], offset + 1, rowIndex);
      assert [rest[0]] + rest[1..] == rest;
    }
  }

  /** The filter drops exactly the element at `rowIndex`. */
  lemma {:induction false} FilterOutSlices(rest: Page, offset: nat, rowIndex: int)
    requires offset <= rowIndex < offset + |rest|
    ensures FilterOut(rest, offset, rowIndex) == rest[..rowIndex - offset] + rest[rowIndex - offset + 1..]
    decreases |rest|
  {
    if offset == rowIndex {
      FilterOutMissing(rest[1..], offset + 1, rowIndex);
    } else {
      var k := rowIndex - offset;
      FilterOutSlices(rest[1..], offset + 1, rowIndex);
      assert FilterOut(rest, offset, rowIndex) == [rest[0]] + FilterOut(rest[1..], offset + 1, rowIndex);
      assert rest[..k] == [rest[0]] + rest[1..][..k - 1];
      assert rest[k + 1..] == rest[1..][k..];
    }
  }

  /** The `removeRow` transform: the element at `rowIndex` goes, and an index naming no row changes nothing. */
  function DropRow(page: Page, rowIndex: int): (r: Page)
    ensures 0 <= rowIndex < |page| ==> r == page[..rowIndex] + page[rowIndex + 1..]
    ensures !(0 <= rowIndex < |page|) ==> r == page
  {
    if 0 <= rowIndex < |page| then
      FilterOutSlices(page, 0, rowIndex);
      FilterOut(page, 0, rowIndex)
    else
      FilterOutMissing(page, 0, rowIndex);
      FilterOut(page, 0, rowIndex)
  }

  // ------------------------------------------------------------ the table state

  datatype TableState = TableState(pages: seq<Page>, currentPageIndex: int)

  /** The current page index names a page. */
  predicate Valid(t: TableState) {
    0 <= t.currentPageIndex < |t.pages|
  }

  /** `pages[currentPageIndex] || []` */
  function CurrentPageData(t: TableState): (rows: Page)
    ensures Valid(t) ==> rows == t.pages[t.currentPageIndex]
    ensures !Valid(t) ==> rows == []
  {
    if 0 <= t.currentPageIndex < |t.pages| then t.pages[t.currentPageIndex] else []
  }

  function UpdateData(t: TableState, rowIndex: int, columnId: string, value: Value): (r: TableState)
    ensures r.currentPageIndex == t.currentPageIndex && |r.pages| == |t.pages|
    ensures forall p :: 0 <= p < |t.pages| && p != t.currentPageIndex ==> r.pages[p] == t.pages[p]
    ensures CurrentPageData(r) == UpdateRow(CurrentPageData(t), rowIndex, columnId, value)
  {
    var edit := (page: Page) => UpdateRow(page, rowIndex, columnId, value);
    t.(pages := EditCurrentPage(t.pages, t.currentPageIndex, edit))
  }

  function AddRow(t: TableState, rowIndex: Option<int>): (r: TableState)
    ensures r.currentPageIndex == t.currentPageIndex && |r.pages| == |t.pages|
    ensures forall p :: 0 <= p < |t.pages| && p != t.currentPageIndex ==> r.pages[p] == t.pages[p]
    ensures Valid(t) ==> CurrentPageData(r) == InsertRow(CurrentPageData(t), rowIndex)
    ensures !Valid(t) ==> r == t
  {
    var edit := (page: Page) => InsertRow(page, rowIndex);
    var pages := EditCurrentPage(t.pages, t.currentPageIndex, edit);
    assert !Valid(t) ==> pages == t.pages;
    t.(pages := pages)
  }

  function RemoveRow(t: TableState, rowIndex: int): (r: TableState)
    ensures r.currentPageIndex == t.currentPageIndex && |r.pages| == |t.pages|
    ensures forall p :: 0 <= p < |t.pages| && p != t.currentPageIndex ==> r.pages[p] == t.pages[p]
    ensures CurrentPageData(r) == DropRow(CurrentPageData(t), rowIndex)
  {
    var edit := (page: Page) => DropRow(page, rowIndex);
    t.(pages := EditCurrentPage(t.pages, t.currentPageIndex, edit))
  }

  /** Inserting a row after `i` and removing the row at `i + 1` gives the page back. */
  lemma {:induction false} RemoveUndoesAdd(t: TableState, i: int)
    requires Valid(t) && -1 <= i < |CurrentPageData(t)|
    ensures RemoveRow(AddRow(t, Some(i)), i + 1) == t
  {
    var page := CurrentPageData(t);
    var added := InsertRow(page, Some(i));
    assert added == page[..i + 1] + [EmptyLease()] + page[i + 1..];
    assert DropRow(added, i + 1) == page by {
      assert added[..i + 1] == page[..i + 1];
      assert added[i + 2..] == page[i + 1..];
      assert page[..i + 1] + page[i + 1..] == page;
    }
    var r := RemoveRow(AddRow(t, Some(i)), i + 1);
    assert r.pages == t.pages by {
      assert forall p :: 0 <= p < |t.pages| ==> r.pages[p] == t.pages[p];
    }
  }

  /** Appending a row and removing the last one gives the page back. */
  lemma RemoveUndoesAppend(t: TableState)
    requires Valid(t)
    ensures RemoveRow(AddRow(t, None), |CurrentPageData(t)|) == t
  {
    var page := CurrentPageData(t);
    assert (page + [EmptyLease()])[..|page|] == page;
    var r := RemoveRow(AddRow(t, None), |page|);
    assert r.pages == t.pages by {
      assert forall p :: 0 <= p < |t.pages| ==> r.pages[p] == t.pages[p];
    }
  }

  // ------------------------------------------------------------ pagination

  function TotalPages(t: TableState): nat {
    |t.pages|
  }

  predicate CanPreviousPage(t: TableState) {
    t.currentPageIndex > 0
  }

  predicate CanNextPage(t: TableState) {
    t.currentPageIndex < TotalPages(t) - 1
  }

  function GoToFirstPage(t: TableState): (r: TableState)
    ensures r.pages == t.pages
    ensures TotalPages(t) > 0 ==> Valid(r) && !CanPreviousPage(r)
  {
    t.(currentPageIndex := 0)
  }

  /** `Math.max(0, i - 1)` */
  function GoToPreviousPage(t: TableState): (r: TableState)
    ensures r.pages == t.pages
    ensures Valid(t) ==> Valid(r)
    ensures CanPreviousPage(t) <==> r.currentPageIndex == t.currentPageIndex - 1
    ensures !CanPreviousPage(t) ==> r.currentPageIndex == 0
  {
    t.(currentPageIndex := if 0 > t.currentPageIndex - 1 then 0 else t.currentPageIndex - 1)
  }

  /** `Math.min(totalPages - 1, i + 1)` */
  function GoToNextPage(t: TableState): (r: TableState)
    ensures r.pages == t.pages
    ensures Valid(t) ==> Valid(r)
    ensures CanNextPage(t) <==> r.currentPageIndex == t.currentPageIndex + 1
    ensures !CanNextPage(t) ==> r.currentPageIndex == TotalPages(t) - 1
  {
    var total := TotalPages(t);
    t.(currentPageIndex := if total - 1 < t.currentPageIndex + 1 then total - 1 else t.currentPageIndex + 1)
  }

  /** `totalPages - 1`: the last page, or -1 when there are no pages. */
  function GoToLastPage(t: TableState): (r: TableState)
    ensures r.pages == t.pages
    ensures TotalPages(t) > 0 ==> Valid(r) && !CanNextPage(r)
    ensures TotalPages(t) == 0 ==> r.currentPageIndex == -1 && CurrentPageData(r) == []
  {
    t.(currentPageIndex := TotalPages(t) - 1)
  }

  /** Stepping forward and back returns to the page one started on, when there is a next page. */
  lemma NextThenPrevious(t: TableState)
    requires Valid(t) && CanNextPage(t)
    ensures GoToPreviousPage(GoToNextPage(t)) == t
  {
  }

  /** Every edit and every move keeps the current index on a page. */
  lemma ValidPreserved(t: TableState, rowIndex: int, columnId: string, value: Value, at: Option<int>)
    requires Valid(t)
    ensures Valid(UpdateData(t, rowIndex, columnId, value))
    ensures Valid(AddRow(t, at))
    ensures Valid(RemoveRow(t, rowIndex))
    ensures Valid(GoToFirstPage(t)) && Valid(GoToPreviousPage(t))
    ensures Valid(GoToNextPage(t)) && Valid(GoToLastPage(t))
  {
  }
}
