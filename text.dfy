/** The string operations the query engine relies on: ASCII `str.lower()`,
    `str.find()`, `str.split()` on one separator character, and Python's
    code-point order on strings (the comparison `list.sort` uses on `str` keys). */
module Text {

  /** ASCII case folding of one character. */
  function LowerChar(c: char): char
  {
    if 'A' <= c <= 'Z' then (c as int + 32) as char else c
  }

  /** `s.lower()`: the same string with every ASCII capital letter folded. */
  function Lower(s: string): (r: string)
    ensures |r| == |s|
    ensures forall i :: 0 <= i < |r| ==> !('A' <= r[i] <= 'Z')
    ensures forall i :: 0 <= i < |r| ==> LowerChar(r[i]) == LowerChar(s[i])
  {
    seq(|s|, i requires 0 <= i < |s| => LowerChar(s[i]))
  }

  /** Folding twice is folding once, so comparing folded strings is an equivalence. */
  lemma LowerIdempotent(s: string)
    ensures Lower(Lower(s)) == Lower(s)
  {
  }

  // ---------------------------------------------------------------------
  // Substring search

  /** `t` occurs in `s` starting at index `i`. */
  predicate OccursAt(s: string, t: string, i: int)
  {
    0 <= i && i + |t| <= |s| && s[i..i + |t|] == t
  }

  /** `t` is a substring of `s`. */
  ghost predicate Contains(s: string, t: string)
  {
    exists i :: OccursAt(s, t, i)
  }

  /** `s.find(t)`: the lowest index at which `t` occurs in `s`, or -1. */
  function Find(s: string, t: string): (r: int)
    ensures -1 <= r <= |s|
    ensures r == -1 <==> !Contains(s, t)
    ensures r != -1 ==> OccursAt(s, t, r) && forall i :: 0 <= i < r ==> !OccursAt(s, t, i)
    decreases |s|
  {
    if |t| <= |s| && s[..|t|] == t then
      assert OccursAt(s, t, 0);
      0
    else if |s| == 0 then -1
    else
      var k := Find(s[1..], t);
      assert forall i :: OccursAt(s[1..], t, i) <==> OccursAt(s, t, i + 1) by {
        forall i ensures OccursAt(s[1..], t, i) <==> OccursAt(s, t, i + 1) {
          if 0 <= i && i + |t| <= |s| - 1 {
            assert s[1..][i..i + |t|] == s[i + 1..i + 1 + |t|];
          }
        }
      }
      assert !OccursAt(s, t, 0);
      if k == -1 then
        assert forall i :: !OccursAt(s, t, i) by {
          forall i ensures !OccursAt(s, t, i) {
            if i >= 1 { assert !OccursAt(s[1..], t, i - 1); }
          }
        }
        -1
      else
        assert forall i :: 1 <= i < k + 1 ==> !OccursAt(s, t, i) by {
          forall i | 1 <= i < k + 1 ensures !OccursAt(s, t, i) {
            assert !OccursAt(s[1..], t, i - 1);
          }
        }
        k + 1
  }

  // ---------------------------------------------------------------------
  // Code-point order on strings

  /** Python's `a < b` on `str`: lexicographic by code point, a proper prefix first. */
  predicate Less(a: string, b: string)
    decreases |a|
  {
    if |a| == 0 then |b| > 0
    else if |b| == 0 then false
    else if a[0] != b[0] then a[0] < b[0]
    else Less(a[1..], b[1..])
  }

  /** Python's `a <= b` on `str`. */
  predicate LessEq(a: string, b: string)
  {
    Less(a, b) || a == b
  }

  lemma {:induction false} LessIrreflexive(a: string)
    ensures !Less(a, a)
    decreases |a|
  {
    if |a| > 0 { LessIrreflexive(a[1..]); }
  }

  lemma {:induction false} LessTransitive(a: string, b: string, c: string)
    requires Less(a, b) && Less(b, c)
    ensures Less(a, c)
    decreases |a|
  {
    if |a| > 0 && a[0] == b[0] && b[0] == c[0] {
      LessTransitive(a[1..], b[1..], c[1..]);
    }
  }

  /** Any two distinct strings are ordered one way or the other. */
  lemma {:induction false} LessTotal(a: string, b: string)
    ensures Less(a, b) || a == b || Less(b, a)
    decreases |a|
  {
    if |a| > 0 && |b| > 0 && a[0] == b[0] {
      LessTotal(a[1..], b[1..]);
      if a[1..] == b[1..] {
        assert a == [a[0]] + a[1..] && b == [b[0]] + b[1..];
      }
    }
  }

  lemma LessEqReflexive(a: string)
    ensures LessEq(a, a)
  {
  }

  lemma LessEqTransitive(a: string, b: string, c: string)
    requires LessEq(a, b) && LessEq(b, c)
    ensures LessEq(a, c)
  {
    if Less(a, b) && Less(b, c) { LessTransitive(a, b, c); }
  }

  lemma LessEqTotal(a: string, b: string)
    ensures LessEq(a, b) || LessEq(b, a)
  {
    LessTotal(a, b);
  }

  /** `a <= b` and `b <= a` only for equal strings. */
  lemma LessEqAntisymmetric(a: string, b: string)
    requires LessEq(a, b) && LessEq(b, a)
    ensures a == b
  {
    if Less(a, b) && Less(b, a) {
      LessTransitive(a, b, a);
      LessIrreflexive(a);
    }
  }

  // ---------------------------------------------------------------------
  // Splitting on one separator character

  /** The inverse of `str.split`: the parts with `sep` between each two. */
  function Join(parts: seq<string>, sep: char): string
  {
    if |parts| == 0 then ""
    else if |parts| == 1 then parts[0]
    else parts[0] + [sep] + Join(parts[1..], sep)
  }

  /** Number of occurrences of `c` in `s`. */
  function Count(s: string, c: char): nat
  {
    multiset(s)[c]
  }

  /** `s.split(sep)` for a one-character separator: never empty, and the
      parts hold no separator and join back to `s`. */
  function Split(s: string, sep: char): (parts: seq<string>)
    ensures |parts| == Count(s, sep) + 1
    ensures forall i :: 0 <= i < |parts| ==> sep !in parts[i]
    ensures Join(parts, sep) == s
    decreases |s|
  {
    if |s| == 0 then [""]
    else
      var rest := Split(s[1..], sep);
      PrependSplits(s[0], s[1..], rest, sep);
      assert [s[0]] + s[1..] == s;
      Prepend(s[0], rest, sep)
  }

  /** The parts of `[c] + t`, given the parts of `t`: `c` either starts a new
      part or joins the first one. */
  function Prepend(c: char, rest: seq<string>, sep: char): seq<string>
    requires |rest| > 0
  {
    if c == sep then [""] + rest else [[c] + rest[0]] + rest[1..]
  }

  lemma PrependSplits(c: char, t: string, rest: seq<string>, sep: char)
    requires |rest| == Count(t, sep) + 1
    requires forall i :: 0 <= i < |rest| ==> sep !in rest[i]
    requires Join(rest, sep) == t
    ensures |Prepend(c, rest, sep)| == Count([c] + t, sep) + 1
    ensures forall i :: 0 <= i < |Prepend(c, rest, sep)| ==> sep !in Prepend(c, rest, sep)[i]
    ensures Join(Prepend(c, rest, sep), sep) == [c] + t
  {
    assert multiset([c] + t) == multiset{c} + multiset(t);
    PrependNoSeparator(c, rest, sep);
    PrependJoin(c, rest, sep);
  }

  lemma PrependNoSeparator(c: char, rest: seq<string>, sep: char)
    requires |rest| > 0
    requires forall i :: 0 <= i < |rest| ==> sep !in rest[i]
    ensures forall i :: 0 <= i < |Prepend(c, rest, sep)| ==> sep !in Prepend(c, rest, sep)[i]
  {
    var parts := Prepend(c, rest, sep);
    forall i | 0 <= i < |parts| ensures sep !in parts[i] {
      if c == sep {
        if i > 0 { assert parts[i] == rest[i - 1]; }
      } else if i == 0 {
        assert parts[0] == [c] + rest[0];
      } else {
        assert parts[i] == rest[i];
      }
    }
  }

  lemma PrependJoin(c: char, rest: seq<string>, sep: char)
    requires |rest| > 0
    ensures Join(Prepend(c, rest, sep), sep) == [c] + Join(rest, sep)
  {
    var parts := Prepend(c, rest, sep);
    if c == sep {
      assert parts[1..] == rest;
      assert Join(parts, sep) == "" + [sep] + Join(rest, sep);
    } else {
      assert parts[1..] == rest[1..];
      if |rest| > 1 {
        assert Join(rest, sep) == rest[0] + [sep] + Join(rest[1..], sep);
        assert Join(parts, sep) == ([c] + rest[0]) + [sep] + Join(rest[1..], sep);
      }
    }
  }

  /** A piece without the separator splits to itself. */
  lemma {:induction false} SplitNoSeparator(p: string, sep: char)
    requires sep !in p
    ensures Split(p, sep) == [p]
    decreases |p|
  {
    if |p| > 0 {
      SplitNoSeparator(p[1..], sep);
      assert [p[0]] + p[1..] == p;
    }
  }

  /** Splitting `p + sep + rest` yields `p` followed by the parts of `rest`. */
  lemma {:induction false} SplitCons(p: string, rest: string, sep: char)
    requires sep !in p
    ensures Split(p + [sep] + rest, sep) == [p] + Split(rest, sep)
    decreases |p|
  {
    if |p| == 0 {
      assert (p + [sep] + rest)[1..] == rest;
    } else {
      SplitCons(p[1..], rest, sep);
      SplitConsStep(p, rest, sep);
    }
  }

  /** The inductive step of `SplitCons`: the first character of `p` joins the
      first part. */
  lemma SplitConsStep(p: string, rest: string, sep: char)
    requires |p| > 0 && p[0] != sep
    requires Split(p[1..] + [sep] + rest, sep) == [p[1..]] + Split(rest, sep)
    ensures Split(p + [sep] + rest, sep) == [p] + Split(rest, sep)
  {
    var s := p + [sep] + rest;
    SplitAtSeparator(p, sep, rest);
    calc {
      Split(s, sep);
      Prepend(p[0], [p[1..]] + Split(rest, sep), sep);
      { PrependJoins(p[0], p[1..], Split(rest, sep), sep); }
      [p] + Split(rest, sep);
    }
  }

  /** How `p + [sep] + rest` comes apart at its first character. */
  lemma SplitAtSeparator(p: string, sep: char, rest: string)
    requires |p| > 0
    ensures (p + [sep] + rest)[0] == p[0]
    ensures (p + [sep] + rest)[1..] == p[1..] + [sep] + rest
    ensures [p[0]] + p[1..] == p
  {
  }

  lemma PrependJoins(c: char, q: string, parts: seq<string>, sep: char)
    requires c != sep
    ensures Prepend(c, [q] + parts, sep) == [[c] + q] + parts
  {
    assert ([q] + parts)[0] == q && ([q] + parts)[1..] == parts;
  }

  /** Splitting a join gives back the parts, when no part holds the separator. */
  lemma {:induction false} SplitJoin(parts: seq<string>, sep: char)
    requires |parts| >= 1
    requires forall i :: 0 <= i < |parts| ==> sep !in parts[i]
    ensures Split(Join(parts, sep), sep) == parts
    decreases |parts|
  {
    if |parts| == 1 {
      SplitNoSeparator(parts[0], sep);
    } else {
      SplitJoin(parts[1..], sep);
      SplitCons(parts[0], Join(parts[1..], sep), sep);
      assert [parts[0]] + parts[1..] == parts;
    }
  }
}
