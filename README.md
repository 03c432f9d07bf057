# CSV2REST query engine, modelled in Dafny

CSV2REST serves one CSV table, read once at startup, through a read-only HTTP
interface. This project models the query engine behind its four routes in
`routes.py`:

- `get_records` runs a fixed pipeline over a copy of the rows. First it
  filters on `column:value` pairs: matching is case-insensitive, pairs are
  conjunctive, and pairs naming an unknown column are skipped. Then a
  case-insensitive substring search runs across every field. Then an
  optional stable sort orders the rows by the raw string form of one column.
  Last, it cuts the requested page and computes the metadata.
- `get_record` checks the id against `0 <= id < len(data)` and then reads
  `data[id - 1]`, so id 0 returns the last row.
- `get_columns` lists the column names in file order.
- `search_column` rejects an unknown column. Otherwise it returns the first
  `limit` rows, in load order, whose field in that column contains the query
  case-insensitively.

Modules, leaves first:

- `Wrappers` (`wrappers.dfy`): `Option` and `Result`.
- `Text` (`text.dfy`): ASCII `lower()`, `find()`, `split()` with its inverse
  `Join`, and Python's code-point order on strings.
- `Seqs` (`seqs.dfy`): `Select`, the list comprehension
  `[x for x in s if keep(x)]`, and its algebra.
- `Table` (`table.dfy`): rows, the dataset and the error kinds.
- `Filtering` (`filtering.dfy`): the filter parser and the filter loop.
- `Searching` (`searching.dfy`): the search across all fields.
- `Sorting` (`sorting.dfy`): the stable sort, in place on an array, proved
  equal to a reference insertion sort.
- `Pagination` (`pagination.dfy`): the page count and the page slice.
- `Routes` (`routes.dfy`): the four routes and the properties of the whole
  `get_records` pipeline.

A row is a `map<string, string>` from column name to the string form
`str(value)` of its cell. `Table.Field` is `str(record.get(column, ''))`.
Both the filter loop and the sort work the way the source does: the filter is
a loop that reassigns a local list, and the sort works in place. `get_records`
is the method `Routes.GetRecords`, proved equal to the reference function
`Routes.QueryRecords`. The lemmas about that function state what the
pipeline promises. `Routes.GetColumns` returns the column list unchanged;
`Routes.ListedColumnsSearchable` relates it to `search_column`.

Two behaviours of the code are easy to miss:

- A `filters` segment without exactly one colon makes the request fail: the
  unpacking `for column, value in filter_pairs` raises. Here that is
  `Err(MalformedFilter)` (`Routes.QueryFailsOnlyOnMalformedFilters`).
- `GET /records/0` passes the bound check and reads `data[-1]`, the last row
  (`Routes.GetRecordTwoRows`).

A table may hold identical rows. Every selection keeps each copy of a row it
keeps, so the contracts state multiplicities (`multiset`) as well as
membership and order.

## Model

| member | source | states |
|---|---|---|
| `Text.Lower` | routes.py:38 | The result has the input's length, holds no ASCII capital, and folds to the same characters as the input. |
| `Text.Find` | routes.py:47 | Python's `find`: -1 exactly when the term does not occur; otherwise an index where it occurs, with no occurrence before it. |
| `Text.Split` | routes.py:33 | `split` on one character: there are as many parts as separators plus one, no part holds the separator, and joining the parts gives back the input. |
| `Text.SplitJoin` | routes.py:33 | Splitting the join of separator-free parts gives back those parts. |
| `Text.LessTotal` | routes.py:54-57 | Any two distinct sort keys are ordered one way or the other by code-point order. |
| `Text.LessTransitive` | routes.py:54-57 | The code-point order on sort keys is transitive. |
| `Seqs.Select` | routes.py:36-39 | The comprehension keeps exactly the elements that satisfy the test, each as many times as it occurs in the input, drops every other element, and never grows the list. |
| `Seqs.SelectIsSubsequence` | routes.py:36-39 | The comprehension's result is a subsequence of its input, in input order. |
| `Filtering.PairOf` | routes.py:33-34 | Unpacking a one-colon segment gives a column and a value, neither holding a colon, that spell the segment around one colon. |
| `Filtering.ParseSegments` | routes.py:33-34 | The unpacking succeeds exactly when every segment holds exactly one colon. It then gives one pair per segment, in order, each spelling its segment. |
| `Filtering.ParseFilters` | routes.py:33-34 | A successful parse gives one pair per comma-separated segment. |
| `Filtering.ParseRender` | routes.py:33-34 | Writing pairs as `c1:v1,c2:v2` and parsing the result gives back the pairs, when no column or value holds a separator. |
| `Filtering.RenderParse` | routes.py:33-34 | A successful parse, written back out, is the filter string it came from. |
| `Filtering.Filtered` | routes.py:34-39 | The filter keeps exactly the rows of the table that match every pair naming a known column, each as often as it occurs in the table, as a subsequence in load order. |
| `Filtering.DuplicateRowsKept` | routes.py:36-39 | Two identical matching rows both survive the filter. |
| `Filtering.ApplyFilters` | routes.py:29-39 | The loop over the pairs, narrowing a copy of the rows one known pair at a time, ends with the single conjunctive selection `Filtered`. |
| `Filtering.FilteredIdempotent` | routes.py:34-39 | Filtering the filtered rows again by the same pairs changes nothing. |
| `Filtering.UnknownPairIgnored` | routes.py:35 | Dropping a pair whose column is unknown leaves the result unchanged. |
| `Filtering.AllUnknownKeepsAll` | routes.py:35 | When no pair names a known column, every row passes. |
| `Searching.Searched` | routes.py:42-50 | An absent or empty term keeps the rows as they are. Otherwise the rows kept are exactly those with some field whose lower-cased form contains the lower-cased term, each as often as before, as a subsequence in prior order. |
| `Sorting.StableSortPermutes` | routes.py:54-57 | The sort yields a permutation of its input. |
| `Sorting.StableSortSorted` | routes.py:54-57 | The sorted rows are in non-decreasing key order ascending, and non-increasing descending. |
| `Sorting.StableSortStable` | routes.py:54-57 | For every key, the rows with that key keep their prior relative order, also when descending. |
| `Sorting.StableSortCharacterised` | routes.py:54-57 | The reference sort is sorted, a permutation and stable. Any list with those three properties is the reference sort, so every stable sort by this key and direction gives the same list. |
| `Sorting.SortedUnique` | routes.py:54-57 | Two sorted lists with the same rows and the same order within each key are equal. |
| `Sorting.InsertInPlace` | routes.py:54-57 | One in-place insertion step turns the array prefix into the reference `Insert` of the next row and leaves the rest of the array unchanged. |
| `Sorting.SortInPlace` | routes.py:54-57 | Sorting the array in place leaves it holding the reference stable sort of its old contents. |
| `Pagination.TotalPages` | routes.py:61 | The page count is the ceiling of rows over page size: 0 for no rows, otherwise `(pages - 1) * size < rows <= pages * size`. |
| `Pagination.PageSlice` | routes.py:62-67 | The page has at most `page_size` rows, taken in order from position `(page - 1) * page_size`. It is empty exactly when that position is at or past the end, and otherwise holds `min(page_size, remaining)` rows. |
| `Pagination.PagesPrefix` | routes.py:62-67 | Pages 1 to k together are the first `k * page_size` rows, or all rows if there are fewer. |
| `Pagination.PagesCover` | routes.py:60-67 | Pages 1 to `total_pages` together reproduce the whole list exactly. |
| `Pagination.HasNextMeansMoreRows` | routes.py:61-73 | `page < total_pages` holds exactly when page `page + 1` is not empty. |
| `Pagination.PageBeyondEndEmpty` | routes.py:62-67 | A page past `total_pages` is empty. |
| `Routes.OrderRows` | routes.py:29-57 | Steps 1 to 3 of the handler (filter loop, search, in-place sort) produce the reference `Ordered` rows. |
| `Routes.CutPage` | routes.py:59-76 | The handler's page arithmetic produces the reference `Paginate` page and metadata. |
| `Routes.GetRecords` | routes.py:17-78 | The handler returns exactly the reference `QueryRecords` result. |
| `Routes.QueryFailsOnlyOnMalformedFilters` | routes.py:32-34 | A records query fails only when `filters` is given and some segment lacks exactly one colon. Unknown columns, an unknown `sort_by` and an empty search never fail. |
| `Routes.QueryRowsMatch` | routes.py:29-67 | Every returned row is a row of the table that satisfies every known filter pair and, when a term is given, holds it case-insensitively in some field. |
| `Routes.QueryUnsortedKeepsLoadOrder` | routes.py:29-53 | Without an applicable `sort_by`, the rows are exactly the qualifying rows, each as often as it occurs in the table, as a subsequence of the table in load order. |
| `Routes.QuerySortedByColumn` | routes.py:53-57 | With an applicable `sort_by`, the rows are a permutation of the kept rows, ordered by raw key, with each key's rows in their prior order. |
| `Routes.QueryPageAndMetadata` | routes.py:59-76 | The page has at most `page_size` rows. The total counts the rows. The page count is the ceiling. `has_next` holds exactly when the next page has rows. `has_previous` is `page > 1`. Pages 1 to `total_pages` give back the rows. |
| `Routes.PageBeyondEnd` | routes.py:62-74 | A page past the last is empty and has no next page, but still reports a previous page when its number exceeds 1. |
| `Routes.LastOfTwoPages` | routes.py:60-74 | Page 2 of two rows, one per page, holds the second row, with `has_next` false and `has_previous` true. |
| `Routes.SortIsCaseSensitive` | routes.py:54-57 | Sorting by `name` ascending puts "Bob" before "alice", from either starting order. |
| `Routes.FilterSearchCommute` | routes.py:34-50 | Filtering then searching keeps the same rows as searching then filtering. |
| `Routes.GetRecord` | routes.py:85-87 | Not found exactly when `id < 0` or `id >= len`. Otherwise the row at `(id - 1) mod len`. |
| `Routes.GetRecordOffByOne` | routes.py:85-87 | Id 0 returns the last row. Ids 1 to len-1 return the row before their 0-based position. Id len is not found. |
| `Routes.GetRecordRotation` | routes.py:85-87 | Every row is returned by the valid id `(j + 1) mod len`, and distinct valid ids read distinct positions. |
| `Routes.GetRecordTwoRows` | routes.py:85-87 | On two rows: id 0 gives the second row, id 1 the first, and id 2 is not found. |
| `Routes.GetColumns` | routes.py:94 | The column names as loaded, in file order; `Routes.ListedColumnsSearchable` ties them to `search_column`. |
| `Routes.ColumnMatches` | routes.py:108-111 | The matches are exactly the rows whose field in the column contains the query case-insensitively, each as often as it occurs in the table, in load order. |
| `Routes.SearchColumn` | routes.py:105-112 | Fails with `InvalidColumn` exactly when the column is unknown. Otherwise returns a prefix of the matches of length `min(limit, matches)`. |
| `Routes.SearchColumnComplete` | routes.py:109-112 | Fewer than `limit` results means every matching row was returned. |
| `Routes.ListedColumnsSearchable` | routes.py:94-106 | `search_column` accepts exactly the columns `get_columns` lists. |

## Left out

- HTTP routing, `Query` parameter validation, `HTTPException` and the response models (routes.py:1-6, 16-24, 80, 89, 96-100) are not modelled. The declared numeric ranges (`page >= 1`, `1 <= page_size <= 100`, `1 <= limit <= 100`) are preconditions. The 404 and 400 responses are `Error` variants.
- `sort_order` is a string, and only the exact value `"desc"` reverses the sort (routes.py:56). `Routes.SortOrder` has `Desc` for that value and `Asc` for every other value.
- Loading the CSV with pandas, `df.to_dict` and the module-level try/except (routes.py:8-14; utils.py:5-9, 20-24) are file I/O. The table is an input `Dataset` of column names and rows.
- `create_dynamic_model` (utils.py:11-18) wraps a library call that types every column as `Any`. No behaviour is left to verify.
- main.py (app construction and server start) is process and network setup.
- Python `str()` on pandas cell values (ints, floats such as `30.0`, NaN as `"nan"`, booleans) is not modelled: a row holds each cell's string form already.
- Unicode `str.lower()` is modelled as ASCII case folding only.
- `list.sort` is Timsort; the model sorts by insertion. `Sorting.StableSortCharacterised` proves that any stable sort by the same key and direction gives the same list, so only running time differs.
- The error a malformed filter raises (`ValueError` from tuple unpacking, an HTTP 500) is one `MalformedFilter` variant; the message is not modelled.
