/** Step 2 of the records query: the case-insensitive substring search across
    every field of a row. */
module Searching {
  import opened Wrappers
  import opened Text
  import opened Seqs
  import opened Table

  /** `any(str(value).lower().find(term) != -1 for value in record.values())`,
      for a term that is already lower-cased. */
  predicate AnyFieldContains(r: Record, term: string)
  {
    exists column | column in r :: Find(Lower(r[column]), term) != -1
  }

  function SearchTest(term: string): Record -> bool
  {
    r => AnyFieldContains(r, term)
  }

  /** `if search:` an absent or empty term keeps every row; otherwise the rows
      with some field whose lower-cased form contains the lower-cased term
      are kept, in their prior order. */
  function Searched(records: seq<Record>, search: Option<string>): (res: seq<Record>)
    ensures search.None? || search.value == "" ==> res == records
    ensures search.Some? && search.value != "" ==>
      forall x :: x in res <==> x in records && exists c :: c in x && Contains(Lower(x[c]), Lower(search.value))
    ensures search.Some? && search.value != "" ==>
      forall x {:trigger multiset(res)[x]} :: (exists c :: c in x && Contains(Lower(x[c]), Lower(search.value))) ==>
        multiset(res)[x] == multiset(records)[x]
    ensures IsSubsequence(res, records)
  {
    if search.Some? && search.value != "" then
      SelectIsSubsequence(records, SearchTest(Lower(search.value)));
      Select(records, SearchTest(Lower(search.value)))
    else
      SubsequenceReflexive(records);
      records
  }
}
