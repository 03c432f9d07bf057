/** Step 4 of the records query: the page count and the half-open page slice.
    Python's slice `s[start:end]` clips both bounds to the list. */
module Pagination {

  function Min(a: int, b: int): int
  {
    if a <= b then a else b
  }

  /** `(total_records + page_size - 1) // page_size`: the ceiling of n / p. */
  function TotalPages(n: nat, pageSize: int): (pages: nat)
    requires pageSize >= 1
    ensures n == 0 ==> pages == 0
    ensures n > 0 ==> (pages - 1) * pageSize < n <= pages * pageSize
  {
    var q := (n + pageSize - 1) / pageSize;
    var r := (n + pageSize - 1) % pageSize;
    assert n + pageSize - 1 == q * pageSize + r;
    assert (q - 1) * pageSize == q * pageSize - pageSize;
    q
  }

  /** `data[(page - 1) * page_size : (page - 1) * page_size + page_size]`. */
  function PageSlice<T>(s: seq<T>, page: int, pageSize: int): (r: seq<T>)
    requires page >= 1 && pageSize >= 1
    ensures |r| <= pageSize
    ensures (page - 1) * pageSize >= |s| <==> r == []
    ensures forall i :: 0 <= i < |r| ==> 0 <= (page - 1) * pageSize + i < |s| && r[i] == s[(page - 1) * pageSize + i]
    ensures (page - 1) * pageSize < |s| ==> |r| == Min(pageSize, |s| - (page - 1) * pageSize)
  {
    var start := (page - 1) * pageSize;
    assert start >= 0;
    s[Min(start, |s|)..Min(start + pageSize, |s|)]
  }

  /** Pages 1 to k, one after another. */
  function Pages<T>(s: seq<T>, pageSize: int, k: nat): seq<T>
    requires pageSize >= 1
  {
    if k == 0 then [] else Pages(s, pageSize, k - 1) + PageSlice(s, k, pageSize)
  }

  /** The first k pages are the first k * page_size rows (or all of them). */
  lemma {:induction false} PagesPrefix<T>(s: seq<T>, pageSize: int, k: nat)
    requires pageSize >= 1
    ensures Pages(s, pageSize, k) == s[..Min(k * pageSize, |s|)]
  {
    if k > 0 {
      PagesPrefix(s, pageSize, k - 1);
      var start := (k - 1) * pageSize;
      assert k * pageSize == start + pageSize;
      assert start >= 0;
      assert s[..Min(start, |s|)] + s[Min(start, |s|)..Min(start + pageSize, |s|)] == s[..Min(start + pageSize, |s|)];
    }
  }

  /** Reading pages 1 to total_pages in turn reproduces the whole list: no row
      is dropped or repeated. */
  lemma PagesCover<T>(s: seq<T>, pageSize: int)
    requires pageSize >= 1
    ensures Pages(s, pageSize, TotalPages(|s|, pageSize)) == s
  {
    var n := TotalPages(|s|, pageSize);
    PagesPrefix(s, pageSize, n);
    assert Min(n * pageSize, |s|) == |s|;
  }

  /** `has_next = page < total_pages` holds exactly when the next page has rows. */
  lemma HasNextMeansMoreRows<T>(s: seq<T>, page: int, pageSize: int)
    requires page >= 1 && pageSize >= 1
    ensures page < TotalPages(|s|, pageSize) <==> PageSlice(s, page + 1, pageSize) != []
  {
    var n := TotalPages(|s|, pageSize);
    if page < n {
      assert page * pageSize <= (n - 1) * pageSize by { MultiplyMonotone(page, n - 1, pageSize); }
    } else if |s| > 0 {
      assert n * pageSize <= page * pageSize by { MultiplyMonotone(n, page, pageSize); }
    }
  }

  /** A page beyond the last one is empty. */
  lemma PageBeyondEndEmpty<T>(s: seq<T>, page: int, pageSize: int)
    requires page >= 1 && pageSize >= 1
    requires page > TotalPages(|s|, pageSize)
    ensures PageSlice(s, page, pageSize) == []
  {
    var n := TotalPages(|s|, pageSize);
    MultiplyMonotone(n, page - 1, pageSize);
  }

  lemma MultiplyMonotone(a: int, b: int, c: nat)
    requires a <= b
    ensures a * c <= b * c
  {
    assert b * c - a * c == (b - a) * c;
  }
}
