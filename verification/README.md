# Bookflix normalisation layer, modelled in Dafny

Bookflix is a browser front-end over two book sources: the Google Books
volumes API and the Internet Archive. This project models the pure layer
that turns the raw answers of the two sources into uniform records. It
covers:

- the field utilities of the service layer: `formatAuthors`,
  `truncateText`, `getGoogleBooksCover`, `getDownloadUrl`, the zero/absent
  guard of `formatFileSize`, and the request parameters of the two
  searches;
- the detail view's `getBookData` for both sources, the archive download
  offers (`getDownloadUrls`) and the Google download offers
  (`getGoogleBooksDownloadUrls`);
- the list card's `getBookData` for both sources and its link;
- the search page's `buildSearchQuery`, the request selection and result
  partition of `performSearch`, `totalResults`, and the order in which
  the two result lists become cards.

The JavaScript built-ins the layer relies on are modelled in module `Js`:
string truthiness and `||` defaults, `Array.prototype.join`,
`toUpperCase`, `split('.').pop()`, `trim`, and how `undefined` prints in
a template literal. The raw JSON shapes are the datatypes of module
`Raw`. A property that varies between a bare string, a list of strings
and nothing is `Raw.Field`. Optional properties are `Option`s. A
`Promise.allSettled` entry is `Search.Settled`.

Files: `wrappers.dfy` (Option), `js.dfy`, `raw.dfy`, `api.dfy`
(services/api.js), `book_details.dfy` (pages/BookDetails.jsx),
`book_card.dfy` (components/BookCard.jsx), `search.dfy`
(pages/Search.jsx).

Notable behaviour of the code, which the model keeps:

- `formatFileSize(0)` gives "N/A", because 0 is falsy. It does not give
  "0 Bytes".
- The detail view reads archive fields as `field?.[0]`. For a list that
  is the first element. For a bare string it is the first character, so
  a string title "Moby Dick" displays as "M"
  (`BookDetails.StringFieldReadsAsOneCharacter`).
- An archive result without an identifier is not rejected. Its card
  links to `/book/archive/undefined`, the same route as an item whose
  identifier is the text "undefined"
  (`BookCard.MissingKeyLinksToUndefined`).
- A filename with no dot uses its whole name as the format, so a file
  named `pdf` is offered as a PDF (`BookDetails.FileFormatOf`).
- `formatAuthors([])` is "". The author text is empty exactly for an
  empty list or a list holding one empty name.
- `performSearch` does not discard stale responses: whichever search
  settles last sets the lists.
- For a source filter other than 'all', 'googlebooks' or 'archive', no
  request is issued. Reading `results[0]` then throws. The page shows
  the search error, the Google list is cleared and the archive list keeps
  its old value. No cards are listed while the error shows
  (`Search.UnknownSourceListsNothing`). The page's controls cannot reach
  this path: the source select offers only those three values, and the
  filter reset sets the source back to 'all'.
- A bare-string page count reads as its first character too, so "320"
  shows as "3 pages".
- A file whose extension is "mob" followed by a dotless i (U+0131) is
  offered as MOBI, because that letter upper-cases to "I"
  (`BookDetails.DotlessIExtensionIsMobi`).

## Model

| member | source | states |
|---|---|---|
| `Api.GoogleSearchParams` | src/services/api.js:16-27 | the volumes search sends the query unchanged with the given start index and page size, books only, full projection |
| `Api.ArchiveSearchParams` | src/services/api.js:81-93 | the archive query is the user query followed by exactly " AND mediatype:texts"; the field list, the sort by downloads and JSON output are fixed |
| `Api.GetDownloadUrl` | src/services/api.js:110-112 | the download URL is "https://archive.org/download/", the identifier, a slash and the filename, each at its fixed place |
| `Api.DownloadUrlInjective` | src/services/api.js:110-112 | the download URL starts with "https://archive.org/download/"; for identifiers without a slash, two different identifier/filename pairs never give the same URL |
| `Api.SplitAtFirstSlash` | src/services/api.js:111 | a `identifier/filename` path splits back into its two parts when the identifier holds no slash |
| `Api.GetGoogleBooksCover` | src/services/api.js:117-125 | without volume info or image links there is no cover; otherwise the result is the first truthy of large, medium, small, thumbnail, and when none of them is truthy it is the thumbnail as given |
| `Api.FormatAuthors` | src/services/api.js:127-133 | a missing or empty author value gives "Unknown Author", a non-empty string is unchanged, a list is joined with ", "; the result is empty exactly for an empty list or a list with one empty name |
| `Api.FormatAuthorsOfList` | src/services/api.js:129-131 | a one-name list displays as that name; n names display with n - 1 two-character separators and nothing else added |
| `Api.TruncateText` | src/services/api.js:135-139 | missing or empty text gives ""; text within the bound is unchanged; longer text gives exactly its first maxLength characters then "...", so its length is maxLength + 3 |
| `Api.TruncateTextIdempotent` | src/services/api.js:135-139 | truncating a truncated text again with the same bound changes nothing |
| `Api.FormatFileSize` | src/services/api.js:141-142 | the size text is "N/A" exactly when the byte count is missing or 0; any other count goes to the formatting branch |
| `Js.ArrayJoin` | src/services/api.js:130 | the left-to-right accumulation of `Array.prototype.join` gives the reference join: the elements with the separator between neighbours |
| `Js.JoinLength` | src/services/api.js:130 | a join of n elements is as long as the elements together plus n - 1 separators; the join of no elements is "" |
| `Js.JoinEmptyIff` | src/services/api.js:130 | with a non-empty separator, the join is empty exactly for no elements or one empty element |
| `Js.OrElse` | src/pages/BookDetails.jsx:63 | `s || d` returns a truthy value as it is and the default for a missing or empty value, so it is never empty when the default is not |
| `Js.Interpolate` | src/components/BookCard.jsx:40-41 | a present key prints as itself and a missing one as "undefined", so only the text "undefined" prints like a missing key |
| `Js.InterpolateCollisions` | src/components/BookCard.jsx:40-41 | two keys print alike exactly when they are equal or each is missing or the text "undefined" |
| `Js.LastSegment` | src/pages/BookDetails.jsx:103 | `split('.').pop()` is the dot-free suffix of the name that is either the whole name or directly preceded by a dot |
| `Js.LastSegmentWithoutSeparator` | src/pages/BookDetails.jsx:103 | a name without a dot is its own last segment |
| `Js.LastSegmentAfterSeparator` | src/pages/BookDetails.jsx:103 | whatever comes before the last dot, the last segment is the text after it |
| `Js.UpperChar` | src/pages/BookDetails.jsx:103 | upper-casing turns an ASCII lower-case letter into its capital, dotless i into "I" and long s into "S", and leaves every other character it models alone |
| `Js.ToUpperCase` | src/pages/BookDetails.jsx:103 | upper-casing keeps the length and upper-cases each character in place |
| `Js.TrimStart` | src/pages/Search.jsx:34 | the leading part that `trim` drops is all white space, and what remains does not start with white space |
| `Js.TrimEnd` | src/pages/Search.jsx:34 | the trailing part that `trim` drops is all white space, and what remains does not end with white space |
| `Js.Trim` | src/pages/Search.jsx:34 | `trim` gives a contiguous piece of the query with only white space before and after it, and the piece neither starts nor ends with white space |
| `Js.TrimEmptyIffBlank` | src/pages/Search.jsx:34 | `query.trim()` is empty, so the search is skipped, exactly when every character of the query is ECMAScript white space |
| `Raw.RouteSource` | src/pages/BookDetails.jsx:51 | a source tag selects the archive exactly when it is 'archive'; every other tag selects Google Books |
| `BookDetails.ElementZero` | src/pages/BookDetails.jsx:63-71 | `field?.[0]` is nothing for a missing field, the first element of a non-empty list, and the one-character prefix of a non-empty string |
| `BookDetails.StringFieldReadsAsOneCharacter` | src/pages/BookDetails.jsx:63 | a bare-string field longer than one character does not read as itself but as one character |
| `BookDetails.ArchiveTitleReading` | src/pages/BookDetails.jsx:63 | a list title shows its first element, a bare-string title its first character, and a missing or empty one "Unknown Title" |
| `BookDetails.Subjects` | src/pages/BookDetails.jsx:52-60 | subjects are [] for a missing or empty subject, [s] for a bare string s, and the list unchanged for a list |
| `BookDetails.SubjectsNormalForm` | src/pages/BookDetails.jsx:52-60 | the subject list is a normal form: reading it again as a list gives it back, and every subject comes from the raw value |
| `BookDetails.FileFormatOf` | src/pages/BookDetails.jsx:103 | the format is the upper-cased text after the last dot, or the whole upper-cased name when there is no dot |
| `BookDetails.FileFormat` | src/pages/BookDetails.jsx:103 | the format is the upper case of the dot-free suffix of the filename that is the whole name or directly follows a dot |
| `BookDetails.DotlessIExtensionIsMobi` | src/pages/BookDetails.jsx:103-104 | a filename ending ".mob" plus a dotless i has the format "MOBI" and is offered |
| `BookDetails.OfferFor` | src/pages/BookDetails.jsx:106-111 | an archive offer carries the file's name, its format, its download URL under the route identifier, and as size text `formatFileSize` of that file's own byte count, which is "N/A" exactly for a missing or zero size; it is a valid offer exactly when the format is allowed |
| `BookDetails.ArchiveOffers` | src/pages/BookDetails.jsx:101-111 | there are no more offers than files; every offer's format is in PDF, EPUB, MOBI, TXT and is its filename's format; its URL is the download URL of the route identifier and that filename |
| `BookDetails.ArchiveOffersMembership` | src/pages/BookDetails.jsx:101-105 | a file of the map has its offer among the offers if and only if its format is allowed |
| `BookDetails.ArchiveOffersFromFiles` | src/pages/BookDetails.jsx:106-111 | every offer is the offer built from some file of the map |
| `BookDetails.ArchiveOffersAsFlatMap` | src/pages/BookDetails.jsx:101-111 | the offers are the file map flat-mapped through the per-file step, which yields one offer for an allowed file and none otherwise |
| `BookDetails.ArchiveOffersAppend` | src/pages/BookDetails.jsx:101-111 | the offers of two runs of files are the offers of the first run followed by those of the second, so file-map order is kept |
| `BookDetails.ArchiveOffersSingle` | src/pages/BookDetails.jsx:102-111 | a single file gives exactly one offer when its format is allowed and none otherwise |
| `BookDetails.GetDownloadUrls` | src/pages/BookDetails.jsx:96-112 | without a file map there are no offers; every offer has an allowed format and the archive download URL of its file |
| `BookDetails.DownloadStem` | src/pages/BookDetails.jsx:125 | the offer file name stem is the volume title when that is truthy and "book" otherwise, so it is never empty |
| `BookDetails.GetGoogleBooksDownloadUrls` | src/pages/BookDetails.jsx:114-139 | no access info gives no offers; otherwise at most two; a PDF offer exists iff the PDF link is truthy, an EPUB offer iff the EPUB link is; each offer carries its format's link, is named stem + ".pdf" or stem + ".epub", has no size, and PDF comes before EPUB |
| `BookDetails.ArchiveDetail` | src/pages/BookDetails.jsx:51-74 | title, description and language are element 0 of the raw field when that is truthy and the defaults otherwise, so never empty; the author text, date, publisher and isbn come from their fields, and pages is element 0 of its field as page text; no cover; subjects normalised; offers from the file map |
| `BookDetails.GoogleDetail` | src/pages/BookDetails.jsx:75-93 | missing volume info reads as {}; a truthy title, description or language is shown as it is and otherwise the default; subjects are the categories or []; isbn is the first identifier; date, publisher and links pass through; cover and offers come from the volume |
| `BookDetails.GetBookData` | src/pages/BookDetails.jsx:48-93 | there is no record exactly when an archive item has no metadata; otherwise the record is the archive normalisation of the metadata or the Google normalisation of the volume, with non-empty title, description and language |
| `BookCard.CardDescription` | src/components/BookCard.jsx:19 | a card has a description exactly when the raw one is truthy; it is then the default truncation, never empty and at most 153 characters |
| `BookCard.ArchiveCard` | src/components/BookCard.jsx:11-20 | the archive card shows a truthy title as it is and "Unknown Title" otherwise, has the identifier as key, no cover, and a download count that defaults to 0 |
| `BookCard.GoogleCard` | src/components/BookCard.jsx:21-35 | the Google card shows a truthy title as it is and "Unknown Title" otherwise, has the volume id as key, no download count and the looked-up cover; with no volume info it shows "Unknown Title", "Unknown Author" and no description |
| `BookCard.GetBookData` | src/components/BookCard.jsx:10-36 | an archive record gives the archive card of its document and a Google record the Google card of its volume; every card has a non-empty title and the raw identifier or volume id as key; only archive cards have a download count, and they have no cover |
| `BookCard.CardUrl` | src/components/BookCard.jsx:38-41 | an archive card links to "/book/archive/" plus its printed identifier, a Google card to "/book/google/" plus its printed volume id |
| `BookCard.GoogleCardAgreesWithDetail` | src/components/BookCard.jsx:25-28 | the card and the detail view of one volume show the same title, author text and cover |
| `BookCard.BookUrl` | src/components/BookCard.jsx:39-41 | the link is "/book/", the source's route segment, "/", then the key as printed |
| `BookCard.CardUrlDispatchesToOwnSource` | src/components/BookCard.jsx:39-41 | the segment in a card's link makes the detail view load the card's own source |
| `BookCard.BookUrlSeparatesSources` | src/components/BookCard.jsx:39-41 | links of different sources never coincide, and within a source equal links mean equal printed keys |
| `BookCard.MissingKeyLinksToUndefined` | src/components/BookCard.jsx:17 | an archive result without identifier links to "/book/archive/undefined" |
| `BookCard.CardTruncatesDetailDescription` | src/components/BookCard.jsx:31 | a Google card shows the truncation of the same text that the detail view shows in full |
| `Search.Clause` | src/pages/Search.jsx:75-85 | a filter contributes nothing when empty and otherwise its keyword, its value and its closing text |
| `Search.BuildSearchQuery` | src/pages/Search.jsx:72-88 | the base query is a prefix of the result, the rest is the author, year and subject clauses in that order, and with no filter set the base query comes back unchanged |
| `Search.SubjectFilterAppends` | src/pages/Search.jsx:83-85 | setting the subject filter appends exactly ` subject:"…"` to the query built without it |
| `Search.Requests` | src/pages/Search.jsx:40-48 | for a non-blank query, 'all' issues the Google request then the archive request, 'googlebooks' and 'archive' one each, other tags none; both carry the built query with their fixed paging |
| `Search.IssuedRequests` | src/pages/Search.jsx:33-48 | a blank query issues no request, because `performSearch` returns before sending any; a non-blank query issues the requests above |
| `Search.GoogleItems` | src/pages/Search.jsx:54 | a rejected Google outcome, or one without items, gives []; otherwise the items |
| `Search.ArchiveDocs` | src/pages/Search.jsx:55 | a rejected archive outcome, or one without response.docs, gives []; otherwise the docs |
| `Search.PerformSearch` | src/pages/Search.jsx:33-70 | a blank query changes nothing; otherwise loading ends, each selected source's list comes from its own outcome, the other list is cleared, and an unknown source sets the error |
| `Search.FailureIsolation` | src/pages/Search.jsx:52-55 | with both sources, each list ignores the other source's outcome, and a rejected source gives only its own list [] |
| `Search.UnrequestedOutcomeIgnored` | src/pages/Search.jsx:42-62 | the state does not depend on the outcome of a source whose request was not issued |
| `Search.TotalAfterSearch` | src/pages/Search.jsx:107 | after a search the total is the plain sum of the selected outcomes' lengths, with no deduplication |
| `Search.GoogleFailureKeepsArchive` | src/pages/Search.jsx:52-55 | Google failing while the archive returns six documents gives an empty Google list, the six documents and a total of six |
| `Search.TotalResults` | src/pages/Search.jsx:107 | the total is zero exactly when both lists are empty and is at least the length of each |
| `Search.ResultRecords` | src/pages/Search.jsx:282-325 | no cards while loading or showing an error; otherwise one card per result, the Google results in order, then the archive results in order |
| `Search.ResultLinksMatchTheirList` | src/pages/Search.jsx:282-325 | every listed Google result's card links under "/book/google/" and every listed archive result's under "/book/archive/" |
| `Search.UnknownSourceListsNothing` | src/pages/Search.jsx:33-70 | after a search over an unknown source no cards are listed, although the old archive results stay in the state |

## Left out

- HTTP calls (`searchBooks`, `getBookDetails`, `searchBySubject`, `searchByAuthor`, `getBookMetadata`) are network I/O. Their answers enter the model as `Settled` outcomes or loaded payloads. `downloadFile` uses fetch, Blob and the DOM and is not modelled.
- Api.FormatFileSize: only the "N/A" guard is modelled. The non-zero branch uses floating-point `Math.log`, `Math.pow` and `Math.round`, so its text stays the opaque `Formatted(bytes)`.
- The card year, `new Date(d).getFullYear()`, depends on host date parsing. It is kept as the uninterpreted `YearOf(d)`.
- Api.TruncateText: lengths are counted in Unicode scalar values. JavaScript counts UTF-16 code units, so text outside the Basic Multilingual Plane is measured and cut differently.
- ElementZero: a bare string's element 0 is its first Unicode scalar value. JavaScript's `s[0]` is one UTF-16 code unit, so a bare-string field that starts outside the Basic Multilingual Plane reads as a lone surrogate in the code.
- UpperChar: only the characters whose upper case is a single ASCII letter are mapped (a-z, dotless i, long s). Other non-ASCII letters keep their case here, while JavaScript maps them to non-ASCII capitals or to several letters (ß to "SS", the ligature ﬁ to "FI"). None of those results spells PDF, EPUB, MOBI or TXT, so which files are offered is unaffected. A format that is not offered would print differently.
- Js.ToUpperCase: keeps the length of the string, which JavaScript does not for characters such as ß. This inherits the UpperChar gap above.
- Js.Interpolate, Js.InterpolateCollisions, BookCard.BookUrl: a `null` identifier or id counts as missing and prints as "undefined". JavaScript prints it as "null", so the code links such a result to `/book/archive/null` or `/book/google/null`, and in the code a null key and the text "null" print alike. Null only differs from a missing value in this template literal: everywhere else both are falsy.
- Property values other than missing, a string, or a list of strings are not modelled. This covers numbers and objects in archive metadata, where the `typeof` test of `subject` sends them to [], and list-valued titles or descriptions in archive search documents.
- Only the settled state of `performSearch` is modelled. The `loading` flag while requests are pending is not, and neither is the order in which concurrent or stale responses arrive, because the code does no sequencing.
- The detail view's `metadata` state can outlive a change of route. The model normalises the payload of the current load only.
- The archive file map is taken as `Object.entries` gives it, an ordered list of name/data pairs. The key ordering rules of `Object.entries` are not modelled.
- Rendering is presentation only and is not modelled beyond which cards the result area lists, in what order, and where they link: JSX, HTML descriptions, the 10-subject slice, sorting options the page never applies, and the Home, Header, App, ComingSoon, ErrorMessage and LoadingSpinner components.
