/** Order-preserving selection over sequences: the Python list comprehension
    `[x for x in s if keep(x)]`, and the facts every filtering stage uses. */
module Seqs {

  /** `[x for x in s if keep(x)]`. */
  function Select<T(!new)>(s: seq<T>, keep: T -> bool): (r: seq<T>)
    ensures |r| <= |s|
    ensures forall x :: x in r <==> x in s && keep(x)
    ensures forall x {:trigger multiset(r)[x]} :: keep(x) ==> multiset(r)[x] == multiset(s)[x]
    decreases |s|
  {
    if |s| == 0 then []
    else
      assert s == [s[0]] + s[1..];
      assert multiset(s) == multiset{s[0]} + multiset(s[1..]);
      (if keep(s[0]) then [s[0]] else []) + Select(s[1..], keep)
  }

  /** `a` can be obtained from `b` by deleting elements: a subsequence in the same order. */
  predicate IsSubsequence<T(==)>(a: seq<T>, b: seq<T>)
    decreases |b|
  {
    if |a| == 0 then true
    else if |b| == 0 then false
    else (a[0] == b[0] && IsSubsequence(a[1..], b[1..])) || IsSubsequence(a, b[1..])
  }

  lemma {:induction false} SelectIsSubsequence<T(!new)>(s: seq<T>, keep: T -> bool)
    ensures IsSubsequence(Select(s, keep), s)
    decreases |s|
  {
    if |s| > 0 {
      SelectIsSubsequence(s[1..], keep);
      var r := Select(s, keep);
      if keep(s[0]) {
        assert r[0] == s[0] && r[1..] == Select(s[1..], keep);
      } else {
        assert r == Select(s[1..], keep);
      }
    }
  }

  lemma {:induction false} SubsequenceReflexive<T>(s: seq<T>)
    ensures IsSubsequence(s, s)
    decreases |s|
  {
    if |s| > 0 { SubsequenceReflexive(s[1..]); }
  }

  lemma {:induction false} SubsequenceTransitive<T>(a: seq<T>, b: seq<T>, c: seq<T>)
    requires IsSubsequence(a, b) && IsSubsequence(b, c)
    ensures IsSubsequence(a, c)
    decreases |c|
  {
    if |a| > 0 && |c| > 0 {
      if |b| > 0 && b[0] == c[0] && IsSubsequence(b[1..], c[1..]) {
        if a[0] == b[0] && IsSubsequence(a[1..], b[1..]) {
          SubsequenceTransitive(a[1..], b[1..], c[1..]);
        } else {
          SubsequenceTransitive(a, b[1..], c[1..]);
        }
      } else {
        SubsequenceTransitive(a, b, c[1..]);
      }
    }
  }

  /** Selection distributes over concatenation. */
  lemma {:induction false} SelectAppend<T(!new)>(a: seq<T>, b: seq<T>, keep: T -> bool)
    ensures Select(a + b, keep) == Select(a, keep) + Select(b, keep)
    decreases |a|
  {
    if |a| > 0 {
      SelectAppend(a[1..], b, keep);
      assert (a + b)[0] == a[0] && (a + b)[1..] == a[1..] + b;
      SelectUnfold(a + b, keep);
      SelectUnfold(a, keep);
    } else {
      assert a + b == b;
    }
  }

  /** One step of the comprehension. */
  lemma SelectUnfold<T(!new)>(s: seq<T>, keep: T -> bool)
    requires |s| > 0
    ensures Select(s, keep) == (if keep(s[0]) then [s[0]] else []) + Select(s[1..], keep)
  {
  }

  /** When at most one of `x` and `y` is selected, appending them in either
      order selects the same. */
  lemma SelectSwapLast<T(!new)>(a: seq<T>, b: seq<T>, x: T, y: T, keep: T -> bool)
    requires !keep(x) || !keep(y)
    requires Select(a, keep) == Select(b, keep) + Select([x], keep)
    ensures Select(a + [y], keep) == Select(b + [y], keep) + Select([x], keep)
  {
    SelectAppend(a, [y], keep);
    SelectAppend(b, [y], keep);
    SelectSingleton(x, keep);
    SelectSingleton(y, keep);
    SwapEmpty(Select(b, keep), Select([x], keep), Select([y], keep));
  }

  /** Appending two sequences, one of them empty, in either order. */
  lemma SwapEmpty<T>(s: seq<T>, u: seq<T>, v: seq<T>)
    requires u == [] || v == []
    ensures s + u + v == s + v + u
  {
    if u == [] {
      assert s + u == s;
    } else {
      assert s + v == s;
    }
  }

  lemma SelectSingleton<T(!new)>(x: T, keep: T -> bool)
    ensures Select([x], keep) == if keep(x) then [x] else []
  {
    assert [x][1..] == [];
  }

  /** Equal selections stay equal once a common last element is removed. */
  lemma SelectCancelLast<T(!new)>(a: seq<T>, b: seq<T>, x: T, keep: T -> bool)
    requires Select(a + [x], keep) == Select(b + [x], keep)
    ensures Select(a, keep) == Select(b, keep)
  {
    SelectAppend(a, [x], keep);
    SelectAppend(b, [x], keep);
    var tail := Select([x], keep);
    assert Select(a, keep) == (Select(a, keep) + tail)[..|Select(a, keep) + tail| - |tail|];
    assert Select(b, keep) == (Select(b, keep) + tail)[..|Select(b, keep) + tail| - |tail|];
  }

  lemma MultisetCancelLast<T>(a: seq<T>, b: seq<T>, x: T)
    requires multiset(a + [x]) == multiset(b + [x])
    ensures multiset(a) == multiset(b)
  {
    assert multiset(a + [x]) == multiset(a) + multiset{x};
    assert multiset(b + [x]) == multiset(b) + multiset{x};
    forall e ensures multiset(a)[e] == multiset(b)[e] {
      assert multiset(a + [x])[e] == multiset(b + [x])[e];
    }
  }

  /** Equal selections whose last elements are both selected end alike. */
  lemma SelectSameLast<T(!new)>(a: seq<T>, b: seq<T>, x: T, y: T, keep: T -> bool)
    requires keep(x) && keep(y)
    requires Select(a + [x], keep) == Select(b + [y], keep)
    ensures x == y
  {
    SelectAppend(a, [x], keep);
    SelectAppend(b, [y], keep);
    var r := Select(a + [x], keep);
    assert r[|r| - 1] == x;
    assert Select(b + [y], keep)[|r| - 1] == y;
  }

  /** Two predicates that agree on the elements of `s` select the same. */
  lemma {:induction false} SelectCongruent<T(!new)>(s: seq<T>, p: T -> bool, q: T -> bool)
    requires forall x :: x in s ==> p(x) == q(x)
    ensures Select(s, p) == Select(s, q)
    decreases |s|
  {
    if |s| > 0 {
      assert forall x :: x in s[1..] ==> x in s;
      SelectCongruent(s[1..], p, q);
    }
  }

  /** Selecting twice is selecting once by the conjunction. */
  lemma {:induction false} SelectSelect<T(!new)>(s: seq<T>, p: T -> bool, q: T -> bool, pq: T -> bool)
    requires forall x :: pq(x) == (p(x) && q(x))
    ensures Select(Select(s, p), q) == Select(s, pq)
    decreases |s|
  {
    if |s| > 0 {
      SelectSelect(s[1..], p, q, pq);
      if p(s[0]) {
        var sp := Select(s, p);
        assert sp == [s[0]] + Select(s[1..], p);
        assert sp[0] == s[0] && sp[1..] == Select(s[1..], p);
        assert Select(sp, q) == (if q(s[0]) then [s[0]] else []) + Select(sp[1..], q);
      } else {
        assert Select(s, p) == Select(s[1..], p);
      }
    }
  }

  /** Selecting again by the same predicate changes nothing. */
  lemma SelectIdempotent<T(!new)>(s: seq<T>, keep: T -> bool)
    ensures Select(Select(s, keep), keep) == Select(s, keep)
  {
    SelectSelect(s, keep, keep, keep);
  }

  /** Selection keeps everything exactly when everything qualifies. */
  lemma {:induction false} SelectAll<T(!new)>(s: seq<T>, keep: T -> bool)
    requires forall x :: x in s ==> keep(x)
    ensures Select(s, keep) == s
    decreases |s|
  {
    if |s| > 0 {
      assert forall x :: x in s[1..] ==> x in s;
      SelectAll(s[1..], keep);
      assert [s[0]] + s[1..] == s;
    }
  }
}
