/** The four routes: `get_records` (filter, search, sort, paginate),
    `get_record`, `get_columns` and `search_column`, all reading the one
    table loaded at startup. */
module Routes {
  import opened Wrappers
  import opened Text
  import opened Seqs
  import opened Table
  import opened Filtering
  import opened Searching
  import opened Sorting
  import opened Pagination

  /** `sort_order == "desc"`: `Desc` is the string "desc", `Asc` any other value. */
  datatype SortOrder = Asc | Desc

  /** The query parameters of `GET /records`. */
  datatype RecordsQuery = RecordsQuery(
    page: int,
    pageSize: int,
    sortBy: Option<string>,
    sortOrder: SortOrder,
    search: Option<string>,
    filters: Option<string>)

  datatype Metadata = Metadata(
    totalRecords: nat,
    totalPages: nat,
    currentPage: int,
    pageSize: int,
    hasNext: bool,
    hasPrevious: bool)

  /** The response of `GET /records`: one page of rows and its metadata. */
  datatype RecordsPage = RecordsPage(data: seq<Record>, metadata: Metadata)

  /** The ranges the framework enforces before the handler runs. */
  predicate ValidQuery(q: RecordsQuery)
  {
    q.page >= 1 && 1 <= q.pageSize <= 100
  }

  /** Python truthiness of an optional string: present and not empty. */
  predicate Given(o: Option<string>)
  {
    o.Some? && o.value != ""
  }

  /** The pairs the filter loop runs over; none when `filters` is absent or empty. */
  function FilterPairs(q: RecordsQuery): Result<seq<Pair>, Error>
  {
    if Given(q.filters) then ParseFilters(q.filters.value) else Ok([])
  }

  /** `if sort_by and sort_by in df.columns`. */
  predicate SortApplies(ds: Dataset, q: RecordsQuery)
  {
    Given(q.sortBy) && q.sortBy.value in ds.columns
  }

  /** The rows that survive the filter and the search, in load order. */
  function Kept(ds: Dataset, q: RecordsQuery, pairs: seq<Pair>): seq<Record>
  {
    Searched(Filtered(ds.columns, ds.records, pairs), q.search)
  }

  /** The rows after steps 1 to 3, before the page is cut. */
  function Ordered(ds: Dataset, q: RecordsQuery, pairs: seq<Pair>): seq<Record>
  {
    var kept := Kept(ds, q, pairs);
    if SortApplies(ds, q) then StableSort(kept, q.sortBy.value, q.sortOrder == Desc) else kept
  }

  /** Step 4: the page and the metadata, from the requested page number as given. */
  function Paginate(rows: seq<Record>, page: int, pageSize: int): RecordsPage
    requires page >= 1 && pageSize >= 1
  {
    var pages := TotalPages(|rows|, pageSize);
    RecordsPage(PageSlice(rows, page, pageSize),
      Metadata(|rows|, pages, page, pageSize, page < pages, page > 1))
  }

  /** The reference definition of `get_records`. */
  function QueryRecords(ds: Dataset, q: RecordsQuery): Result<RecordsPage, Error>
    requires ValidQuery(q)
  {
    match FilterPairs(q)
    case Err(e) => Err(e)
    case Ok(pairs) => Ok(Paginate(Ordered(ds, q, pairs), q.page, q.pageSize))
  }

  /** Steps 1 to 3 of `get_records`: narrows a copy of the rows pair by pair,
      searches, and sorts the list in place when `sort_by` applies. */
  method OrderRows(ds: Dataset, q: RecordsQuery, pairs: seq<Pair>) returns (rows: seq<Record>)
    ensures rows == Ordered(ds, q, pairs)
  {
    rows := ApplyFilters(ds.columns, ds.records, pairs);
    rows := Searched(rows, q.search);
    if SortApplies(ds, q) {
      var a := new Record[|rows|](i requires 0 <= i < |rows| => rows[i]);
      assert a[..] == rows;
      SortInPlace(a, q.sortBy.value, q.sortOrder == Desc);
      rows := a[..];
    }
  }

  /** Step 4 of `get_records`, statement by statement as the handler computes
      it; `Paginate` is the same computation as one expression, and the lemmas
      about the page are stated on `Paginate`. */
  method CutPage(rows: seq<Record>, page: int, pageSize: int) returns (p: RecordsPage)
    requires page >= 1 && pageSize >= 1
    ensures p == Paginate(rows, page, pageSize)
  {
    var totalRecords := |rows|;
    var totalPages := (totalRecords + pageSize - 1) / pageSize;
    var start := (page - 1) * pageSize;
    var end := start + pageSize;
    p := RecordsPage(rows[Min(start, totalRecords)..Min(end, totalRecords)],
      Metadata(totalRecords, totalPages, page, pageSize, page < totalPages, page > 1));
  }

  /** `get_records`. */
  method GetRecords(ds: Dataset, q: RecordsQuery) returns (r: Result<RecordsPage, Error>)
    requires ValidQuery(q)
    ensures r == QueryRecords(ds, q)
  {
    var pairs: seq<Pair> := [];
    if Given(q.filters) {
      var parsed := ParseFilters(q.filters.value);
      if parsed.Err? {
        return Err(parsed.error);
      }
      pairs := parsed.value;
    }
    var rows := OrderRows(ds, q, pairs);
    var p := CutPage(rows, q.page, q.pageSize);
    r := Ok(p);
  }

  // ---------------------------------------------------------------------
  // What `get_records` promises

  /** The request fails only on a malformed `filters` string: some
      comma-separated segment without exactly one colon. Unknown columns,
      an unknown `sort_by` or an empty search never fail. */
  lemma QueryFailsOnlyOnMalformedFilters(ds: Dataset, q: RecordsQuery)
    requires ValidQuery(q)
    ensures QueryRecords(ds, q).Err? <==>
      (Given(q.filters) &&
       exists i :: 0 <= i < |Split(q.filters.value, ',')| && !WellFormed(Split(q.filters.value, ',')[i]))
    ensures QueryRecords(ds, q).Err? ==> QueryRecords(ds, q).error == MalformedFilter
  {
  }

  /** Every returned row is a row of the table that satisfies every filter
      pair naming a known column and, when a search term is given, holds it
      case-insensitively in some field. */
  lemma QueryRowsMatch(ds: Dataset, q: RecordsQuery, x: Record)
    requires ValidQuery(q) && QueryRecords(ds, q).Ok?
    requires x in QueryRecords(ds, q).value.data
    ensures x in ds.records
    ensures MatchesAll(ds.columns, FilterPairs(q).value, x)
    ensures Given(q.search) ==> exists c :: c in x && Contains(Lower(x[c]), Lower(q.search.value))
  {
    var pairs := FilterPairs(q).value;
    var rows := Ordered(ds, q, pairs);
    var kept := Kept(ds, q, pairs);
    var page := PageSlice(rows, q.page, q.pageSize);
    var i :| 0 <= i < |page| && page[i] == x;
    assert x in rows;
    if SortApplies(ds, q) {
      StableSortPermutes(kept, q.sortBy.value, q.sortOrder == Desc);
      assert x in multiset(rows);
    }
    assert x in kept;
  }

  /** Without an applicable `sort_by` the rows keep their load order: they are
      exactly the qualifying rows of the table, as a subsequence of it. */
  lemma QueryUnsortedKeepsLoadOrder(ds: Dataset, q: RecordsQuery, pairs: seq<Pair>)
    requires !SortApplies(ds, q)
    ensures IsSubsequence(Ordered(ds, q, pairs), ds.records)
    ensures forall x :: x in Ordered(ds, q, pairs) <==>
      (x in ds.records && MatchesAll(ds.columns, pairs, x) &&
       (Given(q.search) ==> exists c :: c in x && Contains(Lower(x[c]), Lower(q.search.value))))
    ensures forall x {:trigger multiset(Ordered(ds, q, pairs))[x]} ::
      MatchesAll(ds.columns, pairs, x) &&
      (Given(q.search) ==> exists c :: c in x && Contains(Lower(x[c]), Lower(q.search.value))) ==>
        multiset(Ordered(ds, q, pairs))[x] == multiset(ds.records)[x]
  {
    var filtered := Filtered(ds.columns, ds.records, pairs);
    SubsequenceTransitive(Searched(filtered, q.search), filtered, ds.records);
  }

  /** With an applicable `sort_by` the rows are the kept rows rearranged:
      ordered by the column's raw string form (ascending, or descending for
      "desc"), with rows of equal key in their load order. */
  lemma QuerySortedByColumn(ds: Dataset, q: RecordsQuery, pairs: seq<Pair>)
    requires SortApplies(ds, q)
    ensures multiset(Ordered(ds, q, pairs)) == multiset(Kept(ds, q, pairs))
    ensures Sorted(Ordered(ds, q, pairs), q.sortBy.value, q.sortOrder == Desc)
    ensures forall key ::
      Select(Ordered(ds, q, pairs), KeyTest(q.sortBy.value, key)) == Select(Kept(ds, q, pairs), KeyTest(q.sortBy.value, key))
  {
    var kept := Kept(ds, q, pairs);
    var column, desc := q.sortBy.value, q.sortOrder == Desc;
    StableSortPermutes(kept, column, desc);
    StableSortSorted(kept, column, desc);
    forall key ensures Select(StableSort(kept, column, desc), KeyTest(column, key)) == Select(kept, KeyTest(column, key)) {
      StableSortStable(kept, column, desc, key);
    }
  }

  /** The page holds at most `page_size` rows; the metadata counts the rows and
      pages; `has_next` says exactly whether the next page has rows; and pages
      1 to `total_pages` together are the whole sorted list. */
  lemma QueryPageAndMetadata(ds: Dataset, q: RecordsQuery)
    requires ValidQuery(q) && QueryRecords(ds, q).Ok?
    ensures var rows := Ordered(ds, q, FilterPairs(q).value);
      var p := QueryRecords(ds, q).value;
      && |p.data| <= q.pageSize
      && p.data == PageSlice(rows, q.page, q.pageSize)
      && p.metadata.totalRecords == |rows|
      && (|rows| == 0 ==> p.metadata.totalPages == 0)
      && (|rows| > 0 ==> (p.metadata.totalPages - 1) * q.pageSize < |rows| <= p.metadata.totalPages * q.pageSize)
      && (p.metadata.hasNext <==> PageSlice(rows, q.page + 1, q.pageSize) != [])
      && (p.metadata.hasPrevious <==> q.page > 1)
      && Pages(rows, q.pageSize, p.metadata.totalPages) == rows
  {
    var rows := Ordered(ds, q, FilterPairs(q).value);
    assert QueryRecords(ds, q).value == Paginate(rows, q.page, q.pageSize);
    PageAndMetadata(rows, q.page, q.pageSize);
  }

  /** `QueryPageAndMetadata` for any list of rows. */
  lemma PageAndMetadata(rows: seq<Record>, page: int, pageSize: int)
    requires page >= 1 && pageSize >= 1
    ensures var p := Paginate(rows, page, pageSize);
      && |p.data| <= pageSize
      && p.data == PageSlice(rows, page, pageSize)
      && p.metadata.totalRecords == |rows|
      && (|rows| == 0 ==> p.metadata.totalPages == 0)
      && (|rows| > 0 ==> (p.metadata.totalPages - 1) * pageSize < |rows| <= p.metadata.totalPages * pageSize)
      && (p.metadata.hasNext <==> PageSlice(rows, page + 1, pageSize) != [])
      && (p.metadata.hasPrevious <==> page > 1)
      && Pages(rows, pageSize, p.metadata.totalPages) == rows
  {
    HasNextMeansMoreRows(rows, page, pageSize);
    PagesCover(rows, pageSize);
  }

  /** A page past the last one is empty and has no next page, yet reports a
      previous page whenever its number exceeds 1 (page 2 of a one-page result,
      page 999 of anything shorter). */
  lemma PageBeyondEnd(rows: seq<Record>, page: int, pageSize: int)
    requires page >= 1 && pageSize >= 1
    requires page > TotalPages(|rows|, pageSize)
    ensures Paginate(rows, page, pageSize).data == []
    ensures !Paginate(rows, page, pageSize).metadata.hasNext
    ensures Paginate(rows, page, pageSize).metadata.hasPrevious <==> page > 1
  {
    PageBeyondEndEmpty(rows, page, pageSize);
  }

  /** Page 2 of two rows, one per page: the second row, no next page, a previous page. */
  lemma LastOfTwoPages(a: Record, b: Record)
    ensures Paginate([a, b], 2, 1) ==
      RecordsPage([b], Metadata(2, 2, 2, 1, false, true))
  {
  }

  /** Sorting by the raw string form is case-sensitive: "Bob" sorts before
      "alice" ascending, because 'B' precedes 'a' in code-point order. */
  lemma SortIsCaseSensitive()
    ensures var bob := map["name" := "Bob", "age" := "30"];
      var alice := map["name" := "alice", "age" := "25"];
      StableSort([bob, alice], "name", false) == [bob, alice] &&
      StableSort([alice, bob], "name", false) == [bob, alice]
  {
    var bob := map["name" := "Bob", "age" := "30"];
    var alice := map["name" := "alice", "age" := "25"];
    assert Field(bob, "name") == "Bob" && Field(alice, "name") == "alice";
    assert Less("Bob", "alice");
    assert !LessEq("alice", "Bob") by {
      if LessEq("alice", "Bob") { LessEqAntisymmetric("alice", "Bob"); }
    }
    assert [alice, bob][..1] == [alice] && [bob, alice][..1] == [bob];
    assert StableSort([bob], "name", false) == [bob] && StableSort([alice], "name", false) == [alice];
    assert Insert([bob], alice, "name", false) == [bob, alice];
    assert Insert([], bob, "name", false) == [bob];
    assert Insert([alice], bob, "name", false) == [bob, alice];
  }

  /** The filter and the search select independently: running them in the
      other order keeps the same rows. */
  lemma FilterSearchCommute(columns: seq<Column>, records: seq<Record>, pairs: seq<Pair>, search: Option<string>)
    ensures Searched(Filtered(columns, records, pairs), search) ==
      Filtered(columns, Searched(records, search), pairs)
  {
    if search.Some? && search.value != "" {
      var f, s := ConjunctionTest(columns, pairs), SearchTest(Lower(search.value));
      var both := (r: Record) => f(r) && s(r);
      SelectSelect(records, f, s, both);
      SelectSelect(records, s, f, both);
    }
  }

  // ---------------------------------------------------------------------
  // get_record

  /** `get_record`: the bound check is 0-based but the lookup is
      `data[record_id - 1]`, so id 0 reads the last row (Python's index -1). */
  function GetRecord(ds: Dataset, id: int): (r: Result<Record, Error>)
    ensures r.Err? <==> id < 0 || id >= |ds.records|
    ensures r.Err? ==> r.error == NotFound
    ensures r.Ok? ==> r.value == ds.records[(id - 1) % |ds.records|]
  {
    if id < 0 || id >= |ds.records| then Err(NotFound)
    else
      var k := id - 1;
      PreviousIndex(id, |ds.records|);
      Ok(ds.records[if k < 0 then k + |ds.records| else k])
  }

  /** Id 0 returns the last row; ids 1 to n - 1 return the row before their
      0-based position; id n, the 1-based position of the last row, is not found. */
  lemma GetRecordOffByOne(ds: Dataset, id: int)
    requires |ds.records| > 0
    ensures GetRecord(ds, 0) == Ok(ds.records[|ds.records| - 1])
    ensures 1 <= id < |ds.records| ==> GetRecord(ds, id) == Ok(ds.records[id - 1])
    ensures GetRecord(ds, |ds.records|) == Err(NotFound)
  {
  }

  /** Still, the lookup is a rotation: every row is returned for the valid id
      `(j + 1) mod n`, and distinct valid ids read distinct positions. */
  lemma GetRecordRotation(ds: Dataset, j: int, id1: int, id2: int)
    requires 0 <= j < |ds.records|
    ensures GetRecord(ds, (j + 1) % |ds.records|) == Ok(ds.records[j])
    ensures 0 <= id1 < id2 < |ds.records| ==>
      (id1 - 1) % |ds.records| != (id2 - 1) % |ds.records|
  {
    var n := |ds.records|;
    PreviousIndex(j + 1, n);
    if 0 <= id1 < id2 < n {
      PreviousIndex(id1, n);
      PreviousIndex(id2, n);
    }
  }

  /** `(id - 1) mod n` for ids from 0 to n, and `id mod n` for the ids the rotation uses. */
  lemma PreviousIndex(id: int, n: int)
    requires 0 <= id <= n && n >= 1
    ensures (id - 1) % n == (if id == 0 then n - 1 else id - 1)
    ensures id % n == (if id == n then 0 else id)
  {
    var k := if id == 0 then n - 1 else id - 1;
    assert id - 1 == (if id == 0 then -1 else 0) * n + k;
    if id == n {
      assert id == 1 * n + 0;
    } else {
      assert id == 0 * n + id;
    }
  }

  /** With two rows, `GET /records/0` returns the second row rather than
      failing, and `GET /records/2` fails although there is a second row. */
  lemma GetRecordTwoRows(first: Record, second: Record)
    ensures GetRecord(Dataset(["name"], [first, second]), 0) == Ok(second)
    ensures GetRecord(Dataset(["name"], [first, second]), 1) == Ok(first)
    ensures GetRecord(Dataset(["name"], [first, second]), 2) == Err(NotFound)
  {
  }

  // ---------------------------------------------------------------------
  // get_columns and search_column

  /** `get_columns`: the column names in file order. */
  function GetColumns(ds: Dataset): (cols: seq<Column>)
    ensures cols == ds.columns
  {
    ds.columns
  }

  /** `str(record.get(column, '')).lower().find(query) != -1`, for a
      lower-cased query. */
  predicate ColumnContains(r: Record, column: Column, query: string)
  {
    Find(Lower(Field(r, column)), query) != -1
  }

  function ColumnTest(column: Column, query: string): Record -> bool
  {
    r => ColumnContains(r, column, query)
  }

  /** The rows, in load order, whose field in `column` holds `query` case-insensitively. */
  function ColumnMatches(ds: Dataset, column: Column, query: string): (hits: seq<Record>)
    ensures forall x :: x in hits <==> x in ds.records && Contains(Lower(Field(x, column)), Lower(query))
    ensures forall x {:trigger multiset(hits)[x]} :: Contains(Lower(Field(x, column)), Lower(query)) ==>
      multiset(hits)[x] == multiset(ds.records)[x]
    ensures IsSubsequence(hits, ds.records)
  {
    SelectIsSubsequence(ds.records, ColumnTest(column, Lower(query)));
    Select(ds.records, ColumnTest(column, Lower(query)))
  }

  /** `search_column`: an unknown column is an error; otherwise the first
      `limit` matching rows in load order. */
  function SearchColumn(ds: Dataset, column: Column, query: string, limit: int): (r: Result<seq<Record>, Error>)
    requires 1 <= limit <= 100
    ensures r.Err? <==> column !in ds.columns
    ensures r.Err? ==> r.error == InvalidColumn(column)
    ensures r.Ok? ==> r.value <= ColumnMatches(ds, column, query)
    ensures r.Ok? ==> |r.value| == Min(limit, |ColumnMatches(ds, column, query)|)
  {
    if column !in ds.columns then Err(InvalidColumn(column))
    else
      var hits := ColumnMatches(ds, column, query);
      Ok(hits[..Min(limit, |hits|)])
  }

  /** Fewer than `limit` results means no matching row was left out. */
  lemma SearchColumnComplete(ds: Dataset, column: Column, query: string, limit: int, x: Record)
    requires 1 <= limit <= 100 && column in ds.columns
    requires |SearchColumn(ds, column, query, limit).value| < limit
    requires x in ds.records && Contains(Lower(Field(x, column)), Lower(query))
    ensures x in SearchColumn(ds, column, query, limit).value
  {
    var hits := ColumnMatches(ds, column, query);
    assert SearchColumn(ds, column, query, limit).value == hits;
  }

  /** Every column `get_columns` lists is one `search_column` accepts, and no other. */
  lemma ListedColumnsSearchable(ds: Dataset, column: Column, query: string, limit: int)
    requires 1 <= limit <= 100
    ensures column in GetColumns(ds) <==> SearchColumn(ds, column, query, limit).Ok?
  {
  }
}
