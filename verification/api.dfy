/** The request builders and field utilities of the service layer. */
module Api {
  import opened Wrappers
  import opened Raw
  import opened Js

  const ArchiveBase := "https://archive.org"

  const UnknownAuthor := "Unknown Author"
  const DefaultMaxLength: nat := 150
  const Ellipsis := "..."

  // ---- Request parameters ------------------------------------------------

  /** Query parameters of `GET /volumes`. */
  datatype VolumesParams = VolumesParams(
    q: string, startIndex: int, maxResults: int, printType: string, projection: string)

  /** Query parameters of `GET /advancedsearch.php`. */
  datatype AdvancedSearchParams = AdvancedSearchParams(
    q: string, fl: string, sort: string, page: int, rows: int, output: string)

  const MediatypeClause := " AND mediatype:texts"
  const ArchiveFields := "identifier,title,creator,description,date,subject,downloads,format,item_size"

  /** The volumes search sends the query unchanged, limited to books, with
      the full projection. */
  function GoogleSearchParams(query: string, startIndex: int, maxResults: int): (p: VolumesParams)
    ensures p.q == query && p.startIndex == startIndex && p.maxResults == maxResults
    ensures p.printType == "books" && p.projection == "full"
  {
    VolumesParams(query, startIndex, maxResults, "books", "full")
  }

  /** The archive search restricts the user's query to text items, sorted
      by download count, as JSON. */
  function ArchiveSearchParams(query: string, page: int, rows: int): (p: AdvancedSearchParams)
    ensures |p.q| == |query| + |MediatypeClause|
    ensures p.q[..|query|] == query && p.q[|query|..] == " AND mediatype:texts"
    ensures p.page == page && p.rows == rows
    ensures p.fl == ArchiveFields && p.sort == "downloads desc" && p.output == "json"
  {
    AdvancedSearchParams(query + MediatypeClause, ArchiveFields, "downloads desc", page, rows, "json")
  }

  /** Direct download location of one file of an archive item: the
      archive's download prefix, then the identifier and the filename
      separated by a slash. */
  function GetDownloadUrl(identifier: string, filename: string): (u: string)
    ensures |u| == 29 + |identifier| + 1 + |filename|
    ensures u[..29] == "https://archive.org/download/"
    ensures u[29..29 + |identifier|] == identifier && u[29 + |identifier|] == '/'
    ensures u[30 + |identifier|..] == filename
  {
    ArchiveBase + "/download/" + identifier + "/" + filename
  }

  /** Position of the first `ch` in `s`, or `|s|` when there is none. */
  function FirstIndexOf(s: string, ch: char): nat
    decreases |s|
  {
    if |s| == 0 then 0 else if s[0] == ch then 0 else 1 + FirstIndexOf(s[1..], ch)
  }

  lemma {:induction false} FirstIndexAfterPrefix(a: string, b: string, ch: char)
    requires ch !in a
    ensures FirstIndexOf(a + [ch] + b, ch) == |a|
    decreases |a|
  {
    if |a| > 0 {
      assert (a + [ch] + b)[1..] == a[1..] + [ch] + b;
      FirstIndexAfterPrefix(a[1..], b, ch);
    }
  }

  /** `a + "/" + b` splits back uniquely when `a` holds no slash. */
  lemma SplitAtFirstSlash(a: string, b: string, c: string, d: string)
    requires '/' !in a && '/' !in c
    requires a + "/" + b == c + "/" + d
    ensures a == c && b == d
  {
    var s := a + "/" + b;
    FirstIndexAfterPrefix(a, b, '/');
    FirstIndexAfterPrefix(c, d, '/');
    assert a == s[..|a|] && c == s[..|c|];
    assert b == s[|a| + 1..] && d == s[|c| + 1..];
  }

  /** The download URL has the fixed archive prefix, and for identifiers
      without a slash it determines both the identifier and the file name:
      two different files never share a URL. */
  lemma DownloadUrlInjective(i1: string, f1: string, i2: string, f2: string)
    requires '/' !in i1 && '/' !in i2
    ensures GetDownloadUrl(i1, f1)[..29] == "https://archive.org/download/"
    ensures GetDownloadUrl(i1, f1) == GetDownloadUrl(i2, f2) ==> i1 == i2 && f1 == f2
  {
    var prefix := ArchiveBase + "/download/";
    assert GetDownloadUrl(i1, f1) == prefix + (i1 + "/" + f1);
    assert GetDownloadUrl(i2, f2) == prefix + (i2 + "/" + f2);
    if GetDownloadUrl(i1, f1) == GetDownloadUrl(i2, f2) {
      assert i1 + "/" + f1 == GetDownloadUrl(i1, f1)[|prefix|..];
      assert i2 + "/" + f2 == GetDownloadUrl(i2, f2)[|prefix|..];
      SplitAtFirstSlash(i1, f1, i2, f2);
    }
  }

  // ---- Field utilities ---------------------------------------------------

  /** The four image sizes in the order the cover lookup prefers them. */
  function CoverCandidates(links: ImageLinks): seq<Option<string>> {
    [links.large, links.medium, links.small, links.thumbnail]
  }

  /** `large || medium || small || thumbnail` when the volume has image
      links, `null` otherwise. The chain yields the first truthy
      candidate; when none of the first three is truthy it yields
      `thumbnail` as it is, which may itself be missing or empty. */
  function GetGoogleBooksCover(book: Volume): (r: Option<string>)
    ensures (book.volumeInfo.None? || book.volumeInfo.value.imageLinks.None?) ==> r.None?
    ensures book.volumeInfo.Some? && book.volumeInfo.value.imageLinks.Some? ==>
      var c := CoverCandidates(book.volumeInfo.value.imageLinks.value);
      && (Truthy(r) ==> exists k :: 0 <= k < 4 && c[k] == r && forall j :: 0 <= j < k ==> !Truthy(c[j]))
      && (!Truthy(r) ==> r == c[3] && forall j :: 0 <= j < 4 ==> !Truthy(c[j]))
  {
    if book.volumeInfo.Some? && book.volumeInfo.value.imageLinks.Some? then
      var links := book.volumeInfo.value.imageLinks.value;
      assert CoverCandidates(links)[0] == links.large;
      assert CoverCandidates(links)[1] == links.medium;
      assert CoverCandidates(links)[2] == links.small;
      assert CoverCandidates(links)[3] == links.thumbnail;
      if Truthy(links.large) then links.large
      else if Truthy(links.medium) then links.medium
      else if Truthy(links.small) then links.small
      else links.thumbnail
    else
      None
  }

  /** `!authors` holds for a missing value and for the empty string. */
  predicate MissingAuthors(authors: Field) {
    authors.Absent? || authors == Str("")
  }

  /** The display form of an author field: the placeholder when it is
      missing or empty, the elements joined by ", " for a list, and a
      non-empty string unchanged. The result is empty only for an empty
      list or a list holding one empty name. */
  function FormatAuthors(authors: Field): (r: string)
    ensures MissingAuthors(authors) ==> r == UnknownAuthor
    ensures authors.Str? && authors.text != "" ==> r == authors.text
    ensures authors.List? ==> r == Join(authors.items, ", ")
    ensures r == "" <==>
      authors.List? && (|authors.items| == 0 || (|authors.items| == 1 && authors.items[0] == ""))
  {
    if MissingAuthors(authors) then UnknownAuthor
    else if authors.List? then
      JoinEmptyIff(authors.items, ", ");
      Join(authors.items, ", ")
    else authors.text
  }

  /** A one-name list displays as that name; a list of n names displays
      all of them with n - 1 separators. */
  lemma FormatAuthorsOfList(xs: seq<string>)
    ensures |xs| == 1 ==> FormatAuthors(List(xs)) == xs[0]
    ensures |xs| > 0 ==> |FormatAuthors(List(xs))| == TotalLength(xs) + 2 * (|xs| - 1)
  {
  }

  /** A text cut to `maxLength` characters followed by "..." when longer;
      missing or empty text gives "". No word boundaries are respected. */
  function TruncateText(text: Option<string>, maxLength: nat): (r: string)
    ensures !Truthy(text) ==> r == ""
    ensures Truthy(text) && |text.value| <= maxLength ==> r == text.value
    ensures Truthy(text) && |text.value| > maxLength ==>
      |r| == maxLength + 3 && r[..maxLength] == text.value[..maxLength] && r[maxLength..] == Ellipsis
    ensures |r| <= maxLength + 3
  {
    if !Truthy(text) then ""
    else if |text.value| <= maxLength then text.value
    else text.value[..maxLength] + Ellipsis
  }

  /** Truncating an already truncated text with the same bound changes
      nothing. */
  lemma TruncateTextIdempotent(text: Option<string>, maxLength: nat)
    ensures TruncateText(Some(TruncateText(text, maxLength)), maxLength) == TruncateText(text, maxLength)
  {
  }

  /** What `formatFileSize` produces: the text "N/A", or a rendering of a
      non-zero byte count whose floating-point formatting is not part of
      this model. */
  datatype SizeText = NotAvailable | Formatted(bytes: int)

  /** A missing size and a size of 0 are both falsy and give "N/A"; every
      other size is formatted. */
  function FormatFileSize(bytes: Option<int>): (r: SizeText)
    ensures r == NotAvailable <==> bytes.None? || bytes.value == 0
    ensures r.Formatted? ==> bytes == Some(r.bytes)
  {
    if bytes.None? || bytes.value == 0 then NotAvailable else Formatted(bytes.value)
  }
}
