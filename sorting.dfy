/** Step 3 of the records query: `filtered_data.sort(key=lambda x:
    str(x.get(sort_by, '')), reverse=(sort_order == "desc"))`, a stable sort on
    the raw (not case-folded) string form of one column. Python keeps equal keys
    in their prior order also when `reverse` is set. */
module Sorting {
  import opened Text
  import opened Seqs
  import opened Table

  /** Key `a` may come before key `b`: `a <= b` ascending, `a >= b` descending. */
  predicate InOrder(desc: bool, a: string, b: string)
  {
    if desc then LessEq(b, a) else LessEq(a, b)
  }

  lemma InOrderTransitive(desc: bool, a: string, b: string, c: string)
    requires InOrder(desc, a, b) && InOrder(desc, b, c)
    ensures InOrder(desc, a, c)
  {
    if desc { LessEqTransitive(c, b, a); } else { LessEqTransitive(a, b, c); }
  }

  lemma InOrderTotal(desc: bool, a: string, b: string)
    ensures InOrder(desc, a, b) || InOrder(desc, b, a)
  {
    LessEqTotal(a, b);
  }

  /** The rows are ordered by the column's string form. */
  predicate Sorted(s: seq<Record>, column: Column, desc: bool)
  {
    forall i, j :: 0 <= i < j < |s| ==> InOrder(desc, Field(s[i], column), Field(s[j], column))
  }

  function KeyTest(column: Column, key: string): Record -> bool
  {
    r => Field(r, column) == key
  }

  /** Each key's rows appear in the same relative order in `t` as in `s`. */
  ghost predicate SameKeyOrder(t: seq<Record>, s: seq<Record>, column: Column)
  {
    forall key :: Select(t, KeyTest(column, key)) == Select(s, KeyTest(column, key))
  }

  /** A stable sort of `s`: sorted, a permutation of `s`, and keeping each key's rows in order. */
  ghost predicate IsStableSortOf(t: seq<Record>, s: seq<Record>, column: Column, desc: bool)
  {
    Sorted(t, column, desc) && multiset(t) == multiset(s) && SameKeyOrder(t, s, column)
  }

  /** Inserts `x` behind the last row of the sorted `t` that may precede it,
      so that `x` follows every row with an equal key. */
  function Insert(t: seq<Record>, x: Record, column: Column, desc: bool): seq<Record>
    decreases |t|
  {
    if |t| == 0 || InOrder(desc, Field(t[|t| - 1], column), Field(x, column)) then t + [x]
    else Insert(t[..|t| - 1], x, column, desc) + [t[|t| - 1]]
  }

  /** Insertion sort by the column's string form: the reference definition of
      the stable sort. */
  function StableSort(s: seq<Record>, column: Column, desc: bool): seq<Record>
    decreases |s|
  {
    if |s| == 0 then []
    else Insert(StableSort(s[..|s| - 1], column, desc), s[|s| - 1], column, desc)
  }

  lemma {:induction false} InsertPermutes(t: seq<Record>, x: Record, column: Column, desc: bool)
    ensures multiset(Insert(t, x, column, desc)) == multiset(t) + multiset{x}
    decreases |t|
  {
    if |t| > 0 && !InOrder(desc, Field(t[|t| - 1], column), Field(x, column)) {
      var init, last := t[..|t| - 1], t[|t| - 1];
      calc {
        multiset(Insert(t, x, column, desc));
        multiset(Insert(init, x, column, desc) + [last]);
        multiset(Insert(init, x, column, desc)) + multiset{last};
        { InsertPermutes(init, x, column, desc); }
        multiset(init) + multiset{x} + multiset{last};
        { assert init + [last] == t; }
        multiset(t) + multiset{x};
      }
    }
  }

  /** Appending a row that every row may precede keeps the rows sorted. */
  lemma SortedSnoc(t: seq<Record>, x: Record, column: Column, desc: bool)
    requires Sorted(t, column, desc)
    requires forall i :: 0 <= i < |t| ==> InOrder(desc, Field(t[i], column), Field(x, column))
    ensures Sorted(t + [x], column, desc)
  {
    var u := t + [x];
    forall i, j | 0 <= i < j < |u| ensures InOrder(desc, Field(u[i], column), Field(u[j], column)) {
      if j < |t| { assert u[i] == t[i] && u[j] == t[j]; } else { assert u[i] == t[i] && u[j] == x; }
    }
  }

  lemma {:induction false} InsertSorted(t: seq<Record>, x: Record, column: Column, desc: bool)
    requires Sorted(t, column, desc)
    ensures Sorted(Insert(t, x, column, desc), column, desc)
    decreases |t|
  {
    var kx := Field(x, column);
    if |t| == 0 {
      SortedSnoc(t, x, column, desc);
    } else {
      var init, last := t[..|t| - 1], t[|t| - 1];
      var kl := Field(last, column);
      if InOrder(desc, kl, kx) {
        forall i | 0 <= i < |t| ensures InOrder(desc, Field(t[i], column), kx) {
          if i < |t| - 1 {
            InOrderTransitive(desc, Field(t[i], column), kl, kx);
          }
        }
        SortedSnoc(t, x, column, desc);
      } else {
        assert Sorted(init, column, desc);
        InsertSorted(init, x, column, desc);
        InsertPermutes(init, x, column, desc);
        InOrderTotal(desc, kx, kl);
        var u := Insert(init, x, column, desc);
        forall i | 0 <= i < |u| ensures InOrder(desc, Field(u[i], column), kl) {
          assert u[i] in multiset(u);
          if u[i] != x {
            assert u[i] in multiset(init);
            var k :| 0 <= k < |init| && init[k] == u[i];
            assert t[k] == u[i];
          }
        }
        SortedSnoc(u, last, column, desc);
      }
    }
  }

  /** Keys that may not precede one another are different. */
  lemma OutOfOrderDistinct(desc: bool, a: string, b: string)
    requires !InOrder(desc, a, b)
    ensures a != b
  {
    LessEqReflexive(a);
  }

  /** Rows with keys other than `x`'s keep their order; `x` joins its key's rows last. */
  lemma {:induction false} InsertKeyOrder(t: seq<Record>, x: Record, column: Column, desc: bool, key: string)
    ensures Select(Insert(t, x, column, desc), KeyTest(column, key)) ==
      Select(t, KeyTest(column, key)) + Select([x], KeyTest(column, key))
    decreases |t|
  {
    if |t| == 0 || InOrder(desc, Field(t[|t| - 1], column), Field(x, column)) {
      SelectAppend(t, [x], KeyTest(column, key));
    } else {
      var init := t[..|t| - 1];
      InsertKeyOrder(init, x, column, desc, key);
      KeyOrderPastLast(t, x, column, desc, key);
    }
  }

  /** The inductive step of `InsertKeyOrder`: `x` moves left past a last row
      whose key differs from its own. */
  lemma KeyOrderPastLast(t: seq<Record>, x: Record, column: Column, desc: bool, key: string)
    requires |t| > 0 && !InOrder(desc, Field(t[|t| - 1], column), Field(x, column))
    requires Select(Insert(t[..|t| - 1], x, column, desc), KeyTest(column, key)) ==
      Select(t[..|t| - 1], KeyTest(column, key)) + Select([x], KeyTest(column, key))
    ensures Select(Insert(t, x, column, desc), KeyTest(column, key)) ==
      Select(t, KeyTest(column, key)) + Select([x], KeyTest(column, key))
  {
    var init, last := t[..|t| - 1], t[|t| - 1];
    var test, u := KeyTest(column, key), Insert(init, x, column, desc);
    calc {
      Select(Insert(t, x, column, desc), test);
      { assert Insert(t, x, column, desc) == u + [last]; }
      Select(u + [last], test);
      { OutOfOrderDistinct(desc, Field(last, column), Field(x, column));
        SelectSwapLast(u, init, x, last, test); }
      Select(init + [last], test) + Select([x], test);
      { assert init + [last] == t; }
      Select(t, test) + Select([x], test);
    }
  }

  /** The reference sort yields a permutation of its input. */
  lemma {:induction false} StableSortPermutes(s: seq<Record>, column: Column, desc: bool)
    ensures multiset(StableSort(s, column, desc)) == multiset(s)
    decreases |s|
  {
    if |s| > 0 {
      var init, last := s[..|s| - 1], s[|s| - 1];
      calc {
        multiset(StableSort(s, column, desc));
        multiset(Insert(StableSort(init, column, desc), last, column, desc));
        { InsertPermutes(StableSort(init, column, desc), last, column, desc); }
        multiset(StableSort(init, column, desc)) + multiset{last};
        { StableSortPermutes(init, column, desc); }
        multiset(init) + multiset{last};
        { assert init + [last] == s; }
        multiset(s);
      }
    }
  }

  /** The reference sort orders the rows by the column's string form. */
  lemma {:induction false} StableSortSorted(s: seq<Record>, column: Column, desc: bool)
    ensures Sorted(StableSort(s, column, desc), column, desc)
    decreases |s|
  {
    if |s| > 0 {
      StableSortSorted(s[..|s| - 1], column, desc);
      InsertSorted(StableSort(s[..|s| - 1], column, desc), s[|s| - 1], column, desc);
    }
  }

  /** The reference sort is stable: for every key, the rows with that key keep
      their prior relative order. */
  lemma {:induction false} StableSortStable(s: seq<Record>, column: Column, desc: bool, key: string)
    ensures Select(StableSort(s, column, desc), KeyTest(column, key)) == Select(s, KeyTest(column, key))
    decreases |s|
  {
    if |s| > 0 {
      var init, last := s[..|s| - 1], s[|s| - 1];
      var test, r := KeyTest(column, key), StableSort(init, column, desc);
      calc {
        Select(StableSort(s, column, desc), test);
        Select(Insert(r, last, column, desc), test);
        { InsertKeyOrder(r, last, column, desc, key); }
        Select(r, test) + Select([last], test);
        { StableSortStable(init, column, desc, key); }
        Select(init, test) + Select([last], test);
        { SelectAppend(init, [last], test); }
        Select(init + [last], test);
        { assert init + [last] == s; }
        Select(s, test);
      }
    }
  }

  /** The reference sort is a stable sort, and the only one: every sorted,
      stable permutation of the input is the reference sort. So any stable
      sorting algorithm with this key and direction, Timsort included, yields
      the same list. */
  lemma StableSortCharacterised(s: seq<Record>, t: seq<Record>, column: Column, desc: bool)
    ensures IsStableSortOf(StableSort(s, column, desc), s, column, desc)
    ensures IsStableSortOf(t, s, column, desc) ==> t == StableSort(s, column, desc)
  {
    var r := StableSort(s, column, desc);
    StableSortSorted(s, column, desc);
    StableSortPermutes(s, column, desc);
    forall key ensures Select(r, KeyTest(column, key)) == Select(s, KeyTest(column, key)) {
      StableSortStable(s, column, desc, key);
    }
    if IsStableSortOf(t, s, column, desc) {
      SortedUnique(t, r, column, desc);
    }
  }

  /** A row's key is in order with the key of the last row of a sorted list holding it. */
  lemma InOrderWithLast(t: seq<Record>, x: Record, column: Column, desc: bool)
    requires Sorted(t, column, desc) && x in t
    ensures InOrder(desc, Field(x, column), Field(t[|t| - 1], column))
  {
    var i :| 0 <= i < |t| && t[i] == x;
    if i == |t| - 1 {
      if desc { LessEqReflexive(Field(x, column)); } else { LessEqReflexive(Field(x, column)); }
    }
  }

  /** Two sorted lists with the same rows end with rows of the same key. */
  lemma LastKeysAgree(t: seq<Record>, u: seq<Record>, column: Column, desc: bool)
    requires Sorted(t, column, desc) && Sorted(u, column, desc)
    requires multiset(t) == multiset(u) && |t| > 0 && |u| > 0
    ensures Field(t[|t| - 1], column) == Field(u[|u| - 1], column)
  {
    var m, y := t[|t| - 1], u[|u| - 1];
    assert m in multiset(u) && y in multiset(t);
    InOrderWithLast(t, y, column, desc);
    InOrderWithLast(u, m, column, desc);
    if desc {
      LessEqAntisymmetric(Field(m, column), Field(y, column));
    } else {
      LessEqAntisymmetric(Field(m, column), Field(y, column));
    }
  }

  /** Two sorted lists with the same rows and the same order within each key are equal. */
  lemma {:induction false} SortedUnique(t: seq<Record>, u: seq<Record>, column: Column, desc: bool)
    requires Sorted(t, column, desc) && Sorted(u, column, desc)
    requires multiset(t) == multiset(u)
    requires SameKeyOrder(t, u, column)
    ensures t == u
    decreases |t|
  {
    assert |t| == |multiset(t)| == |multiset(u)| == |u|;
    if |t| > 0 {
      var n := |t|;
      DropLast(t, u, column, desc);
      SortedUnique(t[..n - 1], u[..n - 1], column, desc);
      assert t == t[..n - 1] + [t[n - 1]] && u == u[..n - 1] + [u[n - 1]];
    }
  }

  /** A prefix of sorted rows is sorted. */
  lemma SortedPrefix(t: seq<Record>, k: nat, column: Column, desc: bool)
    requires Sorted(t, column, desc) && k <= |t|
    ensures Sorted(t[..k], column, desc)
  {
    forall i, j | 0 <= i < j < k
      ensures InOrder(desc, Field(t[..k][i], column), Field(t[..k][j], column))
    {
      assert t[..k][i] == t[i] && t[..k][j] == t[j];
    }
  }

  /** The inductive step of `SortedUnique`: both lists end with the same row,
      and what remains satisfies the same hypotheses. */
  lemma DropLast(t: seq<Record>, u: seq<Record>, column: Column, desc: bool)
    requires Sorted(t, column, desc) && Sorted(u, column, desc)
    requires multiset(t) == multiset(u)
    requires SameKeyOrder(t, u, column)
    requires |t| == |u| > 0
    ensures t[|t| - 1] == u[|u| - 1]
    ensures Sorted(t[..|t| - 1], column, desc) && Sorted(u[..|u| - 1], column, desc)
    ensures multiset(t[..|t| - 1]) == multiset(u[..|u| - 1])
    ensures SameKeyOrder(t[..|t| - 1], u[..|u| - 1], column)
  {
    var n := |t|;
    var t', u', m, y := t[..n - 1], u[..n - 1], t[n - 1], u[n - 1];
    assert t == t' + [m] && u == u' + [y];
    LastKeysAgree(t, u, column, desc);
    SelectSameLast(t', u', m, y, KeyTest(column, Field(m, column)));
    forall key ensures Select(t', KeyTest(column, key)) == Select(u', KeyTest(column, key)) {
      SelectCancelLast(t', u', m, KeyTest(column, key));
    }
    MultisetCancelLast(t', u', m);
    SortedPrefix(t, n - 1, column, desc);
    SortedPrefix(u, n - 1, column, desc);
  }

  /** Inserting into a sorted prefix is shifting the rows that must follow `x`
      one place right and writing `x` into the gap at `j`. */
  lemma {:induction false} InsertShifted(t: seq<Record>, x: Record, j: nat, column: Column, desc: bool)
    requires j <= |t|
    requires j == 0 || InOrder(desc, Field(t[j - 1], column), Field(x, column))
    requires forall k :: j <= k < |t| ==> !InOrder(desc, Field(t[k], column), Field(x, column))
    ensures Insert(t, x, column, desc) == t[..j] + [x] + t[j..]
    decreases |t|
  {
    if j < |t| {
      var init, last := t[..|t| - 1], t[|t| - 1];
      assert !InOrder(desc, Field(last, column), Field(x, column));
      forall k | j <= k < |init| ensures !InOrder(desc, Field(init[k], column), Field(x, column)) {
        assert init[k] == t[k];
      }
      assert j == 0 || init[j - 1] == t[j - 1];
      calc {
        Insert(t, x, column, desc);
        Insert(init, x, column, desc) + [last];
        { InsertShifted(init, x, j, column, desc); }
        init[..j] + [x] + init[j..] + [last];
        { assert init[..j] == t[..j]; assert init[j..] + [last] == t[j..]; }
        t[..j] + [x] + t[j..];
      }
    } else {
      assert t[..j] == t;
    }
  }

  /** The array contents an insertion step leaves: `b` is the array after the
      rows `orig[j..i]` moved one place right, and `x` is written into the gap. */
  lemma PlaceInserted(orig: seq<Record>, b: seq<Record>, i: nat, j: nat, column: Column, desc: bool)
    requires j <= i < |orig| == |b|
    requires forall k :: 0 <= k < j ==> b[k] == orig[k]
    requires forall k :: j < k <= i ==> b[k] == orig[k - 1]
    requires forall k :: i < k < |b| ==> b[k] == orig[k]
    requires j == 0 || InOrder(desc, Field(orig[j - 1], column), Field(orig[i], column))
    requires forall k :: j <= k < i ==> !InOrder(desc, Field(orig[k], column), Field(orig[i], column))
    ensures b[j := orig[i]][..i + 1] == Insert(orig[..i], orig[i], column, desc)
    ensures b[j := orig[i]][i + 1..] == orig[i + 1..]
  {
    var t, x, c := orig[..i], orig[i], b[j := orig[i]];
    InsertShifted(t, x, j, column, desc);
    forall k | 0 <= k <= i ensures c[k] == (t[..j] + [x] + t[j..])[k] {
      if k < j { assert c[k] == t[k]; } else if j < k { assert c[k] == t[k - 1]; }
    }
    assert c[..i + 1] == t[..j] + [x] + t[j..];
  }

  /** One step of the insertion sort: `a[i]` enters the sorted prefix `a[..i]`,
      moving left only past rows that must follow it. */
  method InsertInPlace(a: array<Record>, i: nat, column: Column, desc: bool)
    requires i < a.Length
    modifies a
    ensures a[..i + 1] == Insert(old(a[..i]), old(a[i]), column, desc)
    ensures a[i + 1..] == old(a[i + 1..])
  {
    ghost var orig := a[..];
    var x := a[i];
    var j := i;
    while j > 0 && !InOrder(desc, Field(a[j - 1], column), Field(x, column))
      invariant 0 <= j <= i
      invariant forall k :: 0 <= k < j ==> a[k] == orig[k]
      invariant forall k :: j < k <= i ==> a[k] == orig[k - 1]
      invariant forall k :: i < k < a.Length ==> a[k] == orig[k]
      invariant forall k :: j <= k < i ==> !InOrder(desc, Field(orig[k], column), Field(x, column))
    {
      a[j] := a[j - 1];
      j := j - 1;
    }
    ghost var b := a[..];
    a[j] := x;
    PlaceInserted(orig, b, i, j, column, desc);
    assert a[..] == b[j := x];
  }

  /** `list.sort` on the array holding the rows: an insertion sort, stable
      because a row never passes a row with an equal key. */
  method SortInPlace(a: array<Record>, column: Column, desc: bool)
    modifies a
    ensures a[..] == StableSort(old(a[..]), column, desc)
  {
    ghost var s := a[..];
    for i := 0 to a.Length
      invariant a[..i] == StableSort(s[..i], column, desc)
      invariant forall k :: i <= k < a.Length ==> a[k] == s[k]
    {
      ghost var before := a[..];
      assert before[..i] == StableSort(s[..i], column, desc) && before[i] == s[i];
      InsertInPlace(a, i, column, desc);
      assert s[..i + 1][..i] == s[..i];
      forall k | i + 1 <= k < a.Length ensures a[k] == s[k] {
        assert a[k] == a[i + 1..][k - i - 1] == before[i + 1..][k - i - 1];
      }
    }
    assert a[..] == a[..a.Length] && s[..a.Length] == s;
  }

}
