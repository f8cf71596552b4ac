/** The people page: the list of user documents narrowed, on the client,
    to those whose name or username contains the debounced search text,
    ignoring case, and the empty state shown when nothing is left. */
module CreatorSearch {
  import opened Common
  import opened Text

  /** A user document as the page sees it; `name` and `username` may be
      absent. */
  datatype Creator = Creator(id: string, name: Option<string>, username: Option<string>)

  /** The filter's test, for a query that is already lower-case: an absent
      name or username counts as "". */
  predicate Matches(c: Creator, query: string) {
    Contains(ToLower(c.name.GetOr("")), query) || Contains(ToLower(c.username.GetOr("")), query)
  }

  /** `documents.filter(...)`: the matching creators, in their order. */
  function FilterBy(docs: seq<Creator>, query: string): (r: seq<Creator>)
    ensures |r| <= |docs|
    ensures forall c :: c in r <==> c in docs && Matches(c, query)
    decreases |docs|
  {
    if |docs| == 0 then []
    else (if Matches(docs[0], query) then [docs[0]] else []) + FilterBy(docs[1..], query)
  }

  /** `filteredCreators`: nothing while there are no documents, every
      document for an empty search, else the documents matching the
      lower-cased search. */
  function FilteredCreators(documents: Option<seq<Creator>>, search: string): (r: seq<Creator>)
    ensures documents.None? ==> r == []
    ensures documents.Some? && search == "" ==> r == documents.value
    ensures documents.Some? && search != "" ==>
              forall c :: c in r <==> c in documents.value && Matches(c, ToLower(search))
  {
    match documents
    case None => []
    case Some(docs) => if search == "" then docs else FilterBy(docs, ToLower(search))
  }

  /** `showEmptyState`. */
  predicate ShowEmptyState(isLoading: bool, filtered: seq<Creator>) {
    !isLoading && |filtered| == 0
  }

  /** Filtering distributes over concatenation, so it keeps the relative
      order of the creators it keeps. */
  lemma {:induction false} FilterByAppend(a: seq<Creator>, b: seq<Creator>, query: string)
    ensures FilterBy(a + b, query) == FilterBy(a, query) + FilterBy(b, query)
    decreases |a|
  {
    if |a| == 0 {
      assert a + b == b;
    } else {
      assert (a + b)[0] == a[0];
      assert (a + b)[1..] == a[1..] + b;
      FilterByAppend(a[1..], b, query);
    }
  }

  /** When every creator matches, the filter returns the list unchanged. */
  lemma {:induction false} FilterByAllMatch(docs: seq<Creator>, query: string)
    requires forall i :: 0 <= i < |docs| ==> Matches(docs[i], query)
    ensures FilterBy(docs, query) == docs
    decreases |docs|
  {
    if |docs| > 0 {
      FilterByAllMatch(docs[1..], query);
      assert [docs[0]] + docs[1..] == docs;
    }
  }

  /** Filtering twice with the same query is filtering once. */
  lemma FilterByIdempotent(docs: seq<Creator>, query: string)
    ensures FilterBy(FilterBy(docs, query), query) == FilterBy(docs, query)
  {
    var r := FilterBy(docs, query);
    forall i | 0 <= i < |r|
      ensures Matches(r[i], query)
    {
      assert r[i] in r;
    }
    FilterByAllMatch(r, query);
  }

  /** The search ignores the case of the search text. */
  lemma SearchIgnoresCase(documents: Option<seq<Creator>>, search: string)
    ensures FilteredCreators(documents, search) == FilteredCreators(documents, ToLower(search))
  {
    ToLowerIdempotent(search);
  }

  /** The search ignores the case of names and usernames. */
  lemma SearchIgnoresNameCase(docs: seq<Creator>, search: string, i: int)
    requires search != "" && 0 <= i < |docs|
    requires docs[i].name.Some? && Contains(ToLower(docs[i].name.value), ToLower(search))
    ensures docs[i] in FilteredCreators(Some(docs), search)
  {
  }

  /** A non-empty search never matches an absent name or username: such a
      creator is found only through the other field. */
  lemma {:induction false} AbsentFieldsNeverMatch(docs: seq<Creator>, search: string, c: Creator)
    requires search != "" && c in docs
    ensures c.name.None? && c.username.None? ==> c !in FilteredCreators(Some(docs), search)
    ensures c.name.None? && c.username.Some? ==>
              (c in FilteredCreators(Some(docs), search) <==> Contains(ToLower(c.username.value), ToLower(search)))
    ensures c.username.None? && c.name.Some? ==>
              (c in FilteredCreators(Some(docs), search) <==> Contains(ToLower(c.name.value), ToLower(search)))
  {
    ToLowerIdempotent(search);
    EmptyContainsOnlyEmpty(ToLower(search));
    assert ToLower("") == "";
  }

  /** The empty state shows exactly when loading is over and the documents
      are missing, empty, or none of them matches. */
  lemma EmptyStateIff(isLoading: bool, documents: Option<seq<Creator>>, search: string)
    ensures ShowEmptyState(isLoading, FilteredCreators(documents, search)) <==>
              !isLoading &&
              (documents.None? ||
               (search == "" && documents.value == []) ||
               (search != "" && forall c :: c in documents.value ==> !Matches(c, ToLower(search))))
  {
    if documents.Some? && search != "" {
      var r := FilteredCreators(documents, search);
      if |r| > 0 {
        assert r[0] in r;
      }
    }
  }
}
