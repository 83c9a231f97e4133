/** `client/src/components/Admin/content/AudioRecordsList.jsx`: the paging
    state of the admin's audio table, the rows it shows and the order of its
    render guards. The records, `loading` and `error` come from the
    analytics context and are inputs here. */
module AudioRecordsList {
  import opened Wrappers
  import opened JsValues

  /** The rows the table body maps over. */
  function VisibleRows<T>(records: seq<T>, page: int, rowsPerPage: Number): seq<T> {
    if rowsPerPage.Num? && rowsPerPage.n > 0 then
      Slice(records, page * rowsPerPage.n, page * rowsPerPage.n + rowsPerPage.n)
    else records
  }

  /** With a positive page size at most that many rows show, as one
      contiguous run of the records in their order; otherwise (a page size
      of 0, negative or `NaN`) every record shows. */
  lemma VisibleRowsRun<T>(records: seq<T>, page: int, rowsPerPage: Number)
    ensures exists k :: RunAt(VisibleRows(records, page, rowsPerPage), records, k)
    ensures rowsPerPage.Num? && rowsPerPage.n > 0 && page >= 0 ==> |VisibleRows(records, page, rowsPerPage)| <= rowsPerPage.n
    ensures !(rowsPerPage.Num? && rowsPerPage.n > 0) ==> VisibleRows(records, page, rowsPerPage) == records
  {
    var v := VisibleRows(records, page, rowsPerPage);
    if rowsPerPage.Num? && rowsPerPage.n > 0 {
      var n := rowsPerPage.n;
      var start := page * n;
      assert v == Slice(records, start, start + n);
      SliceRun(records, start, start + n);
      if page >= 0 {
        assert 0 <= start by { NonNegativeProduct(page, n); }
      }
    } else {
      assert records[0..|records|] == records;
      assert RunAt(v, records, 0);
    }
  }

  lemma NonNegativeProduct(a: int, b: int)
    requires a >= 0 && b >= 0
    ensures a * b >= 0
  {
  }

  /** Paging loses no record: record `i` is row `i % n` of page `i / n`. */
  lemma EveryRecordOnItsPage<T>(records: seq<T>, n: int, i: int)
    requires n > 0 && 0 <= i < |records|
    ensures i % n < |VisibleRows(records, i / n, Num(n))|
    ensures VisibleRows(records, i / n, Num(n))[i % n] == records[i]
  {
    var a := PageStart(i, n);
    var b := SliceIndex(a + n, |records|);
    assert SliceIndex(a, |records|) == a;
    assert VisibleRows(records, i / n, Num(n)) == records[a..b];
  }

  /** The first index of the page that holds index `i`. */
  lemma PageStart(i: int, n: int) returns (a: int)
    requires n > 0 && i >= 0
    ensures a == (i / n) * n
    ensures 0 <= a <= i && i - a == i % n && i % n < n
  {
    a := (i / n) * n;
    NonNegativeProduct(i / n, n);
  }

  /** The error object the analytics context stores when a fetch fails:
      `{ message, details }`, never a string. */
  datatype FetchError = FetchError(message: string, details: string)

  /** What the component renders. `ObjectChild` is `<Alert>` handed the
      error object itself as its child, which React refuses by throwing. */
  datatype View<T> =
    | Spinner
    | ErrorAlert(text: string)
    | ObjectChild(error: FetchError)
    | NoRecords
    | RecordsTable(rows: seq<T>, count: nat)

  /** The guards in order: loading, then any error (an object, so always
      truthy), then a missing or empty list; only then the table, whose
      pagination counts every record. The error branch passes the object
      itself to `<Alert>`. */
  function Render<T>(loading: bool, error: Option<FetchError>, records: Option<seq<T>>, page: int, rowsPerPage: Number)
    : (v: View<T>)
    ensures v.Spinner? <==> loading
    ensures v.ObjectChild? <==> !loading && error.Some?
    ensures v.ObjectChild? ==> v.error == error.value
    ensures !v.ErrorAlert?
    ensures v.NoRecords? <==> !loading && error.None? && (records.None? || records.value == [])
    ensures v.RecordsTable? ==>
              records.Some? && records.value != [] && v.rows == VisibleRows(records.value, page, rowsPerPage)
              && v.count == |records.value|
  {
    if loading then Spinner
    else if error.Some? then ObjectChild(error.value)
    else if records.None? || records.value == [] then NoRecords
    else RecordsTable(VisibleRows(records.value, page, rowsPerPage), |records.value|)
  }

  /** The evidently intended render: the alert shows the error's message. */
  function RenderFixed<T>(loading: bool, error: Option<FetchError>, records: Option<seq<T>>, page: int, rowsPerPage: Number)
    : (v: View<T>)
    ensures v.Spinner? <==> loading
    ensures v.ErrorAlert? <==> !loading && error.Some?
    ensures v.ErrorAlert? ==> v.text == error.value.message
    ensures !v.ObjectChild?
    ensures v.NoRecords? <==> !loading && error.None? && (records.None? || records.value == [])
    ensures v.RecordsTable? <==> !loading && error.None? && records.Some? && records.value != []
    ensures v.RecordsTable? ==>
              v.rows == VisibleRows(records.value, page, rowsPerPage) && v.count == |records.value|
  {
    match Render(loading, error, records, page, rowsPerPage)
    case ObjectChild(e) => ErrorAlert(e.message)
    case v => v
  }

  class RecordsList {
    var page: int
    var rowsPerPage: Number

    constructor ()
      ensures page == 0 && rowsPerPage == Num(10)
    {
      page := 0;
      rowsPerPage := Num(10);
    }

    method HandleChangePage(newPage: int)
      modifies this`page
      ensures page == newPage
    {
      page := newPage;
    }

    /** `handleChangeRowsPerPage`: the parsed page size, back to the first page. */
    method HandleChangeRowsPerPage(value: string)
      modifies this`rowsPerPage, this`page
      ensures rowsPerPage == ParseInt(value) && page == 0
    {
      rowsPerPage := ParseInt(value);
      page := 0;
    }
  }

  /** After a change of page size the table shows the first records. */
  lemma FirstPageAfterResize<T>(records: seq<T>, n: nat, t: string)
    requires n > 0
    requires t == [] || !IsAsciiDigit(t[0])
    ensures VisibleRows(records, 0, ParseInt(Decimal(n) + t)) == records[..if n < |records| then n else |records|]
  {
    ParseIntDecimal(n, t);
  }
}
