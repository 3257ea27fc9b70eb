/**
 The search page: the query is extended with filter clauses, one request
 goes to each selected source, and the settled outcomes are split into a
 Google list and an archive list, each failing on its own.
 */
module Search {
  import opened Wrappers
  import opened Raw
  import opened Js
  import Api
  import BookCard

  datatype Filters = Filters(author: string, year: string, subject: string, source: string)

  /** The page's initial filters: none set, both sources. */
  const InitialFilters := Filters("", "", "", "all")

  const SearchFailed := "Failed to search books. Please try again."

  // ---- Query composition -------------------------------------------------

  /** The clause a filter adds: nothing for an empty filter, otherwise
      the keyword, the value and the closing text. */
  function Clause(keyword: string, value: string, closing: string): (c: string)
    ensures c == "" <==> value == ""
    ensures value != "" ==> c == keyword + value + closing
  {
    if value == "" then "" else keyword + value + closing
  }

  function AuthorClause(f: Filters): string { Clause(" inauthor:\"", f.author, "\"") }
  function YearClause(f: Filters): string { Clause(" publishedDate:", f.year, "") }
  function SubjectClause(f: Filters): string { Clause(" subject:\"", f.subject, "\"") }

  /** The base query followed by the author, year and subject clauses, in
      that fixed order, each present exactly when its filter is non-empty;
      with no filter set the query is the base query. */
  function BuildSearchQuery(baseQuery: string, f: Filters): (q: string)
    ensures |q| >= |baseQuery| && q[..|baseQuery|] == baseQuery
    ensures q[|baseQuery|..] == AuthorClause(f) + YearClause(f) + SubjectClause(f)
    ensures f.author == "" && f.year == "" && f.subject == "" ==> q == baseQuery
  {
    var q1 := baseQuery + AuthorClause(f);
    var q2 := q1 + YearClause(f);
    var q3 := q2 + SubjectClause(f);
    assert q3 == baseQuery + (AuthorClause(f) + YearClause(f) + SubjectClause(f));
    q3
  }

  /** Setting one more filter only appends to the query: the query with a
      filter left empty is a prefix of the one with it set, when it is the
      last clause. */
  lemma SubjectFilterAppends(baseQuery: string, f: Filters, subject: string)
    requires subject != ""
    ensures var q := BuildSearchQuery(baseQuery, f.(subject := ""));
      BuildSearchQuery(baseQuery, f.(subject := subject)) == q + " subject:\"" + subject + "\""
  {
  }

  // ---- Requests ----------------------------------------------------------

  datatype Request =
    | VolumesRequest(volumes: Api.VolumesParams)
    | ArchiveRequest(archive: Api.AdvancedSearchParams)

  predicate IncludesGoogle(f: Filters) { f.source == "all" || f.source == "googlebooks" }
  predicate IncludesArchive(f: Filters) { f.source == "all" || f.source == "archive" }

  /** The requests `performSearch` issues for a non-blank query, in order: Google first (first
      20 results), then the archive (page 1 of 20), both with the built
      query. An unknown source tag issues none. */
  function Requests(query: string, f: Filters): (rs: seq<Request>)
    ensures |rs| == (if IncludesGoogle(f) then 1 else 0) + (if IncludesArchive(f) then 1 else 0)
    ensures f.source == "all" ==> |rs| == 2 && rs[0].VolumesRequest? && rs[1].ArchiveRequest?
    ensures f.source == "googlebooks" ==> |rs| == 1 && rs[0].VolumesRequest?
    ensures f.source == "archive" ==> |rs| == 1 && rs[0].ArchiveRequest?
    ensures forall r :: r in rs && r.VolumesRequest? ==>
      r.volumes == Api.GoogleSearchParams(BuildSearchQuery(query, f), 0, 20)
    ensures forall r :: r in rs && r.ArchiveRequest? ==>
      r.archive == Api.ArchiveSearchParams(BuildSearchQuery(query, f), 1, 20)
  {
    var q := BuildSearchQuery(query, f);
    (if IncludesGoogle(f) then [VolumesRequest(Api.GoogleSearchParams(q, 0, 20))] else [])
    + (if IncludesArchive(f) then [ArchiveRequest(Api.ArchiveSearchParams(q, 1, 20))] else [])
  }

  /** The requests `performSearch` issues for any query: none for a blank
      query, which returns before anything is sent. */
  function IssuedRequests(query: string, f: Filters): (rs: seq<Request>)
    ensures IsBlank(query) ==> rs == []
    ensures !IsBlank(query) ==> rs == Requests(query, f)
  {
    if IsBlank(query) then [] else Requests(query, f)
  }

  // ---- Outcomes ----------------------------------------------------------

  /** One entry of `Promise.allSettled`. */
  datatype Settled<+T> = Fulfilled(value: T) | Rejected

  /** `status === 'fulfilled' ? value.items || [] : []`. */
  function GoogleItems(outcome: Settled<VolumesResponse>): (r: seq<Volume>)
    ensures outcome.Rejected? || outcome.value.items.None? ==> r == []
    ensures outcome.Fulfilled? && outcome.value.items.Some? ==> r == outcome.value.items.value
  {
    if outcome.Fulfilled? then outcome.value.items.GetOr([]) else []
  }

  /** `status === 'fulfilled' ? value.response?.docs || [] : []`. */
  function ArchiveDocs(outcome: Settled<ArchiveSearchResponse>): (r: seq<ArchiveDoc>)
    ensures outcome.Rejected? || outcome.value.response.None? || outcome.value.response.value.docs.None? ==> r == []
    ensures outcome.Fulfilled? && outcome.value.response.Some? && outcome.value.response.value.docs.Some? ==>
      r == outcome.value.response.value.docs.value
  {
    if outcome.Fulfilled? && outcome.value.response.Some? then outcome.value.response.value.docs.GetOr([])
    else []
  }

  // ---- Page state --------------------------------------------------------

  datatype SearchState = SearchState(
    searchResults: seq<Volume>,
    archiveResults: seq<ArchiveDoc>,
    loading: bool,
    error: Option<string>)

  /** The state once `performSearch(query)` has settled, given the outcome
      of the Google request and of the archive request (an outcome whose
      request was not issued is not read). A blank query changes nothing.
      For an unknown source tag there is no `results[0]`: the Google list is
      cleared, reading the archive outcome throws, and the page shows the
      search error with the archive list left as it was. */
  function PerformSearch(s: SearchState, query: string, f: Filters,
                         google: Settled<VolumesResponse>,
                         archive: Settled<ArchiveSearchResponse>): (r: SearchState)
    ensures IsBlank(query) ==> r == s
    ensures !IsBlank(query) ==> !r.loading
    ensures !IsBlank(query) ==> (r.error.None? <==> IncludesGoogle(f) || IncludesArchive(f))
    ensures !IsBlank(query) && !IncludesGoogle(f) && !IncludesArchive(f) ==>
      r.error == Some(SearchFailed) && r.searchResults == [] && r.archiveResults == s.archiveResults
    ensures !IsBlank(query) && IncludesGoogle(f) ==> r.searchResults == GoogleItems(google)
    ensures !IsBlank(query) && IncludesArchive(f) ==> r.archiveResults == ArchiveDocs(archive)
    ensures !IsBlank(query) && f.source == "googlebooks" ==> r.archiveResults == []
    ensures !IsBlank(query) && f.source == "archive" ==> r.searchResults == []
  {
    TrimEmptyIffBlank(query);
    if Trim(query) == "" then s
    else if f.source == "all" then
      SearchState(GoogleItems(google), ArchiveDocs(archive), false, None)
    else if f.source == "googlebooks" then
      SearchState(GoogleItems(google), [], false, None)
    else if f.source == "archive" then
      SearchState([], ArchiveDocs(archive), false, None)
    else
      SearchState([], s.archiveResults, false, Some(SearchFailed))
  }

  /** `searchResults.length + archiveResults.length`: no deduplication,
      so the total is zero exactly when both lists are empty and is never
      below either list's length. */
  function TotalResults(s: SearchState): (n: nat)
    ensures n == 0 <==> s.searchResults == [] && s.archiveResults == []
    ensures n >= |s.searchResults| && n >= |s.archiveResults|
  {
    |s.searchResults| + |s.archiveResults|
  }

  /** A failed source costs only its own list: with both sources selected,
      the archive list does not depend on the Google outcome and the Google
      list does not depend on the archive outcome. */
  lemma FailureIsolation(s: SearchState, query: string, f: Filters,
                         g1: Settled<VolumesResponse>, g2: Settled<VolumesResponse>,
                         a1: Settled<ArchiveSearchResponse>, a2: Settled<ArchiveSearchResponse>)
    requires f.source == "all"
    ensures PerformSearch(s, query, f, g1, a1).archiveResults == PerformSearch(s, query, f, g2, a1).archiveResults
    ensures PerformSearch(s, query, f, g1, a1).searchResults == PerformSearch(s, query, f, g1, a2).searchResults
    ensures !IsBlank(query) ==>
      PerformSearch(s, query, f, Rejected, a1).searchResults == [] &&
      PerformSearch(s, query, f, g1, Rejected).archiveResults == []
  {
  }

  /** An outcome is read only when its request was issued: the state does
      not depend on the outcome of a source the filters leave out. */
  lemma UnrequestedOutcomeIgnored(s: SearchState, query: string, f: Filters,
                                  g1: Settled<VolumesResponse>, g2: Settled<VolumesResponse>,
                                  a1: Settled<ArchiveSearchResponse>, a2: Settled<ArchiveSearchResponse>)
    ensures (forall r :: r in Requests(query, f) ==> !r.VolumesRequest?) ==>
      PerformSearch(s, query, f, g1, a1) == PerformSearch(s, query, f, g2, a1)
    ensures (forall r :: r in Requests(query, f) ==> !r.ArchiveRequest?) ==>
      PerformSearch(s, query, f, g1, a1) == PerformSearch(s, query, f, g1, a2)
  {
    var rs := Requests(query, f);
    if IncludesGoogle(f) {
      assert rs[0] in rs && rs[0].VolumesRequest?;
    }
    if IncludesArchive(f) {
      assert rs[|rs| - 1] in rs && rs[|rs| - 1].ArchiveRequest?;
    }
  }

  /** After a search over a known source, the total counts every result of
      both outcomes, so a book found by both sources counts twice. */
  lemma TotalAfterSearch(s: SearchState, query: string, f: Filters,
                         google: Settled<VolumesResponse>, archive: Settled<ArchiveSearchResponse>)
    requires !IsBlank(query)
    ensures var r := PerformSearch(s, query, f, google, archive);
      && (f.source == "all" ==> TotalResults(r) == |GoogleItems(google)| + |ArchiveDocs(archive)|)
      && (f.source == "googlebooks" ==> TotalResults(r) == |GoogleItems(google)|)
      && (f.source == "archive" ==> TotalResults(r) == |ArchiveDocs(archive)|)
  {
  }

  /** Google failing while the archive returns six documents leaves an
      empty Google list, the six documents and a total of six. */
  lemma GoogleFailureKeepsArchive(s: SearchState, docs: seq<ArchiveDoc>)
    requires |docs| == 6
    ensures var r := PerformSearch(s, "fiction", InitialFilters, Rejected,
                                   Fulfilled(ArchiveSearchResponse(Some(ArchiveResults(Some(docs))))));
      r.searchResults == [] && r.archiveResults == docs && TotalResults(r) == 6 && r.error.None?
  {
    assert "fiction"[0] == 'f' && !IsWhiteSpace('f');
    assert !IsBlank("fiction");
  }

  // ---- Rendering the lists -----------------------------------------------

  /** The results are listed only while the page is neither loading nor
      showing an error. */
  predicate ShowsResults(s: SearchState) {
    !s.loading && s.error.None?
  }

  /** The cards the page renders: none while loading or showing an error;
      otherwise one Google card per Google result, then one archive card
      per archive document, in list order. */
  function ResultRecords(s: SearchState): (rs: seq<BookCard.Record>)
    ensures !ShowsResults(s) ==> rs == []
    ensures ShowsResults(s) ==> |rs| == TotalResults(s)
    ensures ShowsResults(s) ==> forall i :: 0 <= i < |s.searchResults| ==>
      rs[i] == BookCard.GoogleRecord(s.searchResults[i])
    ensures ShowsResults(s) ==> forall i :: 0 <= i < |s.archiveResults| ==>
      rs[|s.searchResults| + i] == BookCard.ArchiveRecord(s.archiveResults[i])
  {
    if !ShowsResults(s) then [] else
    seq(|s.searchResults|, i requires 0 <= i < |s.searchResults| => BookCard.GoogleRecord(s.searchResults[i]))
    + seq(|s.archiveResults|, i requires 0 <= i < |s.archiveResults| => BookCard.ArchiveRecord(s.archiveResults[i]))
  }

  /** Every Google card links to a Google detail route and every archive
      card to an archive one. */
  lemma ResultLinksMatchTheirList(s: SearchState, i: nat)
    requires i < |ResultRecords(s)|
    ensures var url := BookCard.CardUrl(ResultRecords(s)[i]);
      && (i < |s.searchResults| ==> url[..13] == "/book/google/")
      && (i >= |s.searchResults| ==> url[..14] == "/book/archive/")
  {
  }

  /** A search over an unknown source lists no cards, although the old
      archive results are kept in the state. */
  lemma UnknownSourceListsNothing(s: SearchState, query: string, f: Filters,
                                  google: Settled<VolumesResponse>, archive: Settled<ArchiveSearchResponse>)
    requires !IsBlank(query) && !IncludesGoogle(f) && !IncludesArchive(f)
    ensures var r := PerformSearch(s, query, f, google, archive);
      ResultRecords(r) == [] && r.archiveResults == s.archiveResults
  {
  }
}
