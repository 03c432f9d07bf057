/** Step 1 of the records query: parsing the `filters` parameter into
    `column:value` pairs and keeping the rows that match every pair whose
    column exists, compared case-insensitively. */
module Filtering {
  import opened Wrappers
  import opened Text
  import opened Seqs
  import opened Table

  /** One parsed `column:value` constraint. */
  type Pair = (Column, string)

  // ---------------------------------------------------------------------
  // Parsing `col1:val1,col2:val2`

  /** A segment that unpacks into `column, value`: `segment.split(':')` has
      exactly two parts, so the segment holds exactly one colon. */
  predicate WellFormed(segment: string)
  {
    Count(segment, ':') == 1
  }

  /** `column, value = segment.split(':')` on a segment that unpacks. */
  function PairOf(segment: string): (p: Pair)
    requires WellFormed(segment)
    ensures p.0 + ":" + p.1 == segment
    ensures ':' !in p.0 && ':' !in p.1
  {
    var parts := Split(segment, ':');
    assert Join(parts, ':') == parts[0] + [':'] + parts[1];
    (parts[0], parts[1])
  }

  /** The unpacking loop over the segments: it fails exactly when some segment
      does not hold exactly one colon, and otherwise yields one pair per
      segment, in order, each spelling its segment. */
  function ParseSegments(segments: seq<string>): (r: Result<seq<Pair>, Error>)
    ensures r.Ok? <==> forall i :: 0 <= i < |segments| ==> WellFormed(segments[i])
    ensures r.Ok? ==> |r.value| == |segments|
    ensures r.Ok? ==> forall i :: 0 <= i < |r.value| ==>
      r.value[i].0 + ":" + r.value[i].1 == segments[i] && ':' !in r.value[i].0 && ':' !in r.value[i].1
  {
    if forall i | 0 <= i < |segments| :: WellFormed(segments[i]) then
      Ok(seq(|segments|, i requires 0 <= i < |segments| => PairOf(segments[i])))
    else Err(MalformedFilter)
  }

  /** `[f.split(':') for f in filters.split(',')]` followed by the unpacking in
      the loop header. */
  function ParseFilters(filters: string): (r: Result<seq<Pair>, Error>)
    ensures r.Ok? ==> |r.value| == Count(filters, ',') + 1
  {
    ParseSegments(Split(filters, ','))
  }

  /** The `filters` string a list of pairs is written as. */
  function Render(pairs: seq<Pair>): string
  {
    Join(seq(|pairs|, i requires 0 <= i < |pairs| => pairs[i].0 + ":" + pairs[i].1), ',')
  }

  /** Parsing gives back the pairs a filter string was written from, when no
      column or value holds a separator. */
  lemma ParseRender(pairs: seq<Pair>)
    requires |pairs| >= 1
    requires forall i :: 0 <= i < |pairs| ==>
      ':' !in pairs[i].0 && ':' !in pairs[i].1 && ',' !in pairs[i].0 && ',' !in pairs[i].1
    ensures ParseFilters(Render(pairs)) == Ok(pairs)
  {
    var segments := seq(|pairs|, i requires 0 <= i < |pairs| => pairs[i].0 + ":" + pairs[i].1);
    forall i | 0 <= i < |segments| ensures ',' !in segments[i] && WellFormed(segments[i]) && PairOf(segments[i]) == pairs[i] {
      SegmentOfPair(pairs[i]);
    }
    SplitJoin(segments, ',');
    ParseSegmentsOf(segments, pairs);
  }

  /** Segments each of which unpacks into the pair at its position parse to those pairs. */
  lemma ParseSegmentsOf(segments: seq<string>, pairs: seq<Pair>)
    requires |segments| == |pairs|
    requires forall i :: 0 <= i < |segments| ==> WellFormed(segments[i]) && PairOf(segments[i]) == pairs[i]
    ensures ParseSegments(segments) == Ok(pairs)
  {
    var r := ParseSegments(segments);
    assert r.value == seq(|segments|, i requires 0 <= i < |segments| => PairOf(segments[i]));
    assert r.value == pairs;
  }

  /** The segment written for one pair unpacks back into that pair. */
  lemma SegmentOfPair(p: Pair)
    requires ':' !in p.0 && ':' !in p.1
    ensures WellFormed(p.0 + ":" + p.1) && PairOf(p.0 + ":" + p.1) == p
    ensures ',' !in p.0 && ',' !in p.1 ==> ',' !in p.0 + ":" + p.1
  {
    var s := p.0 + ":" + p.1;
    assert s == p.0 + [':'] + p.1;
    assert multiset(s) == multiset(p.0) + multiset{':'} + multiset(p.1);
    var q := PairOf(s);
    SeparatedUnique(q.0, q.1, p.0, p.1);
  }

  /** A successful parse renders back to the very filter string it came from. */
  lemma RenderParse(filters: string)
    requires ParseFilters(filters).Ok?
    ensures Render(ParseFilters(filters).value) == filters
  {
    var segments := Split(filters, ',');
    var pairs := ParseFilters(filters).value;
    var rendered := seq(|pairs|, i requires 0 <= i < |pairs| => pairs[i].0 + ":" + pairs[i].1);
    forall i | 0 <= i < |segments| ensures rendered[i] == segments[i] {
      assert rendered[i] == pairs[i].0 + ":" + pairs[i].1;
    }
    assert rendered == segments;
  }

  /** `a + ":" + b` determines `a` and `b` when neither `a` nor `c` holds a colon:
      both prefixes end at the first colon. */
  lemma SeparatedUnique(a: string, b: string, c: string, d: string)
    requires ':' !in a && ':' !in c
    requires a + ":" + b == c + ":" + d
    ensures a == c && b == d
  {
    FirstColon(a, b);
    FirstColon(c, d);
    var s := a + ":" + b;
    assert a == s[..|a|] && b == s[|a| + 1..];
    assert c == s[..|c|] && d == s[|c| + 1..];
  }

  /** The first colon of `a + ":" + b` sits right after `a`. */
  lemma FirstColon(a: string, b: string)
    requires ':' !in a
    ensures Find(a + ":" + b, ":") == |a|
  {
    var s := a + ":" + b;
    assert OccursAt(s, ":", |a|);
    forall i | 0 <= i < |a| ensures !OccursAt(s, ":", i) {
      assert s[i..i + 1] == [a[i]];
    }
  }

  // ---------------------------------------------------------------------
  // Matching

  /** `str(record.get(column, '')).lower() == value.lower()`. */
  predicate MatchesPair(r: Record, column: Column, value: string)
  {
    Lower(Field(r, column)) == Lower(value)
  }

  /** The row satisfies every pair whose column exists; pairs naming an
      unknown column impose nothing. */
  predicate MatchesAll(columns: seq<Column>, pairs: seq<Pair>, r: Record)
  {
    forall i :: 0 <= i < |pairs| && pairs[i].0 in columns ==> MatchesPair(r, pairs[i].0, pairs[i].1)
  }

  function PairTest(column: Column, value: string): Record -> bool
  {
    r => MatchesPair(r, column, value)
  }

  function ConjunctionTest(columns: seq<Column>, pairs: seq<Pair>): Record -> bool
  {
    r => MatchesAll(columns, pairs, r)
  }

  /** What the filter loop leaves: the rows matching all known pairs, in load order. */
  function Filtered(columns: seq<Column>, records: seq<Record>, pairs: seq<Pair>): (r: seq<Record>)
    ensures forall x :: x in r <==> x in records && MatchesAll(columns, pairs, x)
    ensures forall x {:trigger multiset(r)[x]} :: MatchesAll(columns, pairs, x) ==> multiset(r)[x] == multiset(records)[x]
    ensures IsSubsequence(r, records)
  {
    SelectIsSubsequence(records, ConjunctionTest(columns, pairs));
    Select(records, ConjunctionTest(columns, pairs))
  }

  lemma MatchesAllExtend(columns: seq<Column>, pairs: seq<Pair>, i: nat, r: Record)
    requires i < |pairs|
    ensures MatchesAll(columns, pairs[..i + 1], r) ==
      (MatchesAll(columns, pairs[..i], r) &&
       (pairs[i].0 in columns ==> MatchesPair(r, pairs[i].0, pairs[i].1)))
  {
    assert pairs[..i + 1][i] == pairs[i];
    assert forall j :: 0 <= j < i ==> pairs[..i + 1][j] == pairs[..i][j];
  }

  /** The filter loop of `get_records`: one pass over the pairs, each known
      pair narrowing the rows kept so far. */
  method ApplyFilters(columns: seq<Column>, records: seq<Record>, pairs: seq<Pair>)
    returns (filtered: seq<Record>)
    ensures filtered == Filtered(columns, records, pairs)
  {
    filtered := records;
    SelectAll(records, ConjunctionTest(columns, pairs[..0]));
    for i := 0 to |pairs|
      invariant filtered == Select(records, ConjunctionTest(columns, pairs[..i]))
    {
      var (column, value) := pairs[i];
      forall r ensures MatchesAll(columns, pairs[..i + 1], r) ==
        (MatchesAll(columns, pairs[..i], r) && (column in columns ==> MatchesPair(r, column, value)))
      {
        MatchesAllExtend(columns, pairs, i, r);
      }
      if column in columns {
        SelectSelect(records, ConjunctionTest(columns, pairs[..i]), PairTest(column, value),
          ConjunctionTest(columns, pairs[..i + 1]));
        filtered := Select(filtered, PairTest(column, value));
      } else {
        SelectCongruent(records, ConjunctionTest(columns, pairs[..i]), ConjunctionTest(columns, pairs[..i + 1]));
      }
    }
    assert pairs[..|pairs|] == pairs;
  }

  /** Identical rows are separate rows: when both match, both are kept. */
  lemma DuplicateRowsKept(columns: seq<Column>, pairs: seq<Pair>, x: Record)
    requires MatchesAll(columns, pairs, x)
    ensures Filtered(columns, [x, x], pairs) == [x, x]
  {
    var r := Filtered(columns, [x, x], pairs);
    assert multiset(r)[x] == 2;
    assert |r| == 2;
    assert r[0] in r && r[1] in r;
  }

  /** Applying the same filters to their own output changes nothing. */
  lemma FilteredIdempotent(columns: seq<Column>, records: seq<Record>, pairs: seq<Pair>)
    ensures Filtered(columns, Filtered(columns, records, pairs), pairs) == Filtered(columns, records, pairs)
  {
    SelectIdempotent(records, ConjunctionTest(columns, pairs));
  }

  /** A pair naming an unknown column can be dropped without effect. */
  lemma UnknownPairIgnored(columns: seq<Column>, records: seq<Record>, pairs: seq<Pair>, i: nat)
    requires i < |pairs| && pairs[i].0 !in columns
    ensures Filtered(columns, records, pairs) == Filtered(columns, records, pairs[..i] + pairs[i + 1..])
  {
    var rest := pairs[..i] + pairs[i + 1..];
    forall r ensures MatchesAll(columns, pairs, r) == MatchesAll(columns, rest, r) {
      if MatchesAll(columns, rest, r) {
        forall j | 0 <= j < |pairs| && pairs[j].0 in columns
          ensures MatchesPair(r, pairs[j].0, pairs[j].1)
        {
          if j < i { assert rest[j] == pairs[j]; } else { assert rest[j - 1] == pairs[j]; }
        }
      }
      if MatchesAll(columns, pairs, r) {
        forall j | 0 <= j < |rest| && rest[j].0 in columns
          ensures MatchesPair(r, rest[j].0, rest[j].1)
        {
          if j < i { assert rest[j] == pairs[j]; } else { assert rest[j] == pairs[j + 1]; }
        }
      }
    }
    SelectCongruent(records, ConjunctionTest(columns, pairs), ConjunctionTest(columns, rest));
  }

  /** When no pair names a known column, every row passes. */
  lemma AllUnknownKeepsAll(columns: seq<Column>, records: seq<Record>, pairs: seq<Pair>)
    requires forall i :: 0 <= i < |pairs| ==> pairs[i].0 !in columns
    ensures Filtered(columns, records, pairs) == records
  {
    SelectAll(records, ConjunctionTest(columns, pairs));
  }
}
