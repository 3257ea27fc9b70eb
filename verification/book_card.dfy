/**
 The list view's normalisation: one search result from either source
 becomes a card, and the card links to the detail route of its source.
 */
module BookCard {
  import opened Wrappers
  import opened Raw
  import opened Js
  import Api
  import BookDetails

  /** The card's year: `new Date(date).getFullYear()` of a truthy date,
      kept uninterpreted, or `null` without a date. */
  datatype Year = NoYear | YearOf(date: string)

  datatype Card = Card(
    title: string,
    author: string,
    year: Year,
    coverUrl: Option<string>,
    key: Option<string>,
    downloads: Option<int>,
    description: Option<string>,
    pageCount: Option<int>,
    categories: Option<seq<string>>)

  /** A search result as the card receives it; the variant stands for the
      `source` prop ('archive', or 'googlebooks' by default). */
  datatype Record = ArchiveRecord(doc: ArchiveDoc) | GoogleRecord(volume: Volume)

  function SourceOf(book: Record): Source {
    if book.ArchiveRecord? then Archive else Google
  }

  function YearOfDate(date: Option<string>): Year {
    if Truthy(date) then YearOf(date.value) else NoYear
  }

  /** `d ? truncateText(d) : null`: a truthy description is shortened to
      the default bound, anything else gives no description. */
  function CardDescription(d: Option<string>): (r: Option<string>)
    ensures r.None? <==> !Truthy(d)
    ensures r.Some? ==> r.value == Api.TruncateText(d, Api.DefaultMaxLength)
    ensures r.Some? ==> r.value != "" && |r.value| <= 153
  {
    if Truthy(d) then Some(Api.TruncateText(d, Api.DefaultMaxLength)) else None
  }

  /** The archive card: a non-empty title, no cover, the identifier as key
      and a download count that defaults to 0. */
  function ArchiveCard(doc: ArchiveDoc): (c: Card)
    ensures c.title != ""
    ensures Truthy(doc.title) ==> Some(c.title) == doc.title
    ensures !Truthy(doc.title) ==> c.title == BookDetails.UnknownTitle
    ensures c.author == Api.FormatAuthors(doc.creator)
    ensures c.coverUrl.None? && c.key == doc.identifier
    ensures c.downloads == Some(doc.downloads.GetOr(0))
    ensures c.description == CardDescription(doc.description)
    ensures c.year == YearOfDate(doc.date)
    ensures c.pageCount.None? && c.categories.None?
  {
    Card(
      title := OrElse(doc.title, BookDetails.UnknownTitle),
      author := Api.FormatAuthors(doc.creator),
      year := YearOfDate(doc.date),
      coverUrl := None,
      key := doc.identifier,
      downloads := Some(if doc.downloads.Some? && doc.downloads.value != 0 then doc.downloads.value else 0),
      description := CardDescription(doc.description),
      pageCount := None,
      categories := None)
  }

  /** The Google card: `volumeInfo` defaults to `{}`, the key is the
      volume id, there is no download count and the cover comes from the
      image links. */
  function GoogleCard(book: Volume): (c: Card)
    ensures var info := book.volumeInfo.GetOr(EmptyVolumeInfo);
      && c.title != ""
      && (Truthy(info.title) ==> Some(c.title) == info.title)
      && (!Truthy(info.title) ==> c.title == BookDetails.UnknownTitle)
      && c.author == Api.FormatAuthors(info.authors)
      && c.description == CardDescription(info.description)
      && c.year == YearOfDate(info.publishedDate)
      && c.pageCount == info.pageCount && c.categories == info.categories
    ensures c.key == book.id && c.downloads.None?
    ensures c.coverUrl == Api.GetGoogleBooksCover(book)
    ensures book.volumeInfo.None? ==>
      c.title == BookDetails.UnknownTitle && c.author == Api.UnknownAuthor && c.description.None?
  {
    var info := book.volumeInfo.GetOr(EmptyVolumeInfo);
    Card(
      title := OrElse(info.title, BookDetails.UnknownTitle),
      author := Api.FormatAuthors(info.authors),
      year := YearOfDate(info.publishedDate),
      coverUrl := Api.GetGoogleBooksCover(book),
      key := book.id,
      downloads := None,
      description := CardDescription(info.description),
      pageCount := info.pageCount,
      categories := info.categories)
  }

  /** The card of either source: never an empty title, the raw
      identifier or id as key, and a download count exactly for
      archive cards, which never have a cover. */
  function GetBookData(book: Record): (c: Card)
    ensures c.title != ""
    ensures book.ArchiveRecord? ==> c.key == book.doc.identifier && c.coverUrl.None?
    ensures book.GoogleRecord? ==> c.key == book.volume.id
    ensures c.downloads.Some? <==> book.ArchiveRecord?
    ensures book.ArchiveRecord? ==> c == ArchiveCard(book.doc)
    ensures book.GoogleRecord? ==> c == GoogleCard(book.volume)
  {
    match book
    case ArchiveRecord(doc) => ArchiveCard(doc)
    case GoogleRecord(volume) => GoogleCard(volume)
  }

  /** The detail route's `:source` segment for each source. */
  function RouteSegment(source: Source): string {
    if source == Archive then "archive" else "google"
  }

  /** `/book/archive/${key}` for the archive, `/book/google/${key}`
      otherwise; a missing key prints as "undefined". */
  function BookUrl(source: Source, key: Option<string>): (u: string)
    ensures u == "/book/" + RouteSegment(source) + "/" + Interpolate(key)
  {
    if source == Archive then "/book/archive/" + Interpolate(key) else "/book/google/" + Interpolate(key)
  }

  /** The card's link: the archive identifier under `/book/archive/`, the
      Google volume id under `/book/google/`, each printed as a template
      literal prints it. */
  function CardUrl(book: Record): (u: string)
    ensures book.ArchiveRecord? ==> u == "/book/archive/" + Interpolate(book.doc.identifier)
    ensures book.GoogleRecord? ==> u == "/book/google/" + Interpolate(book.volume.id)
  {
    BookUrl(SourceOf(book), GetBookData(book).key)
  }

  /** A card's link names its own source: the detail view, testing the
      segment against 'archive', loads the same source the card came from. */
  lemma CardUrlDispatchesToOwnSource(book: Record)
    ensures RouteSource(RouteSegment(SourceOf(book))) == SourceOf(book)
    ensures CardUrl(book) == "/book/" + RouteSegment(SourceOf(book)) + "/" + Interpolate(GetBookData(book).key)
  {
  }

  /** Links of the two sources never collide, whatever the keys; within
      one source the link determines the printed key. */
  lemma BookUrlSeparatesSources(s1: Source, k1: Option<string>, s2: Source, k2: Option<string>)
    ensures BookUrl(s1, k1) == BookUrl(s2, k2) ==> s1 == s2 && Interpolate(k1) == Interpolate(k2)
  {
    var u1, u2 := BookUrl(s1, k1), BookUrl(s2, k2);
    if u1 == u2 {
      assert u1[6] == RouteSegment(s1)[0] && u2[6] == RouteSegment(s2)[0];
      var n := |"/book/" + RouteSegment(s1) + "/"|;
      assert u1[n..] == Interpolate(k1);
      assert u2[n..] == Interpolate(k2);
    }
  }

  /** An archive result without an identifier links to the same route as
      an item whose identifier is the text "undefined". */
  lemma MissingKeyLinksToUndefined()
    ensures BookUrl(Archive, None) == BookUrl(Archive, Some("undefined")) == "/book/archive/undefined"
  {
  }

  /** A Google card and the detail view of the same volume show the same
      title, author text and cover. */
  lemma GoogleCardAgreesWithDetail(book: Volume)
    ensures GoogleCard(book).title == BookDetails.GoogleDetail(book).title
    ensures GoogleCard(book).author == BookDetails.GoogleDetail(book).author
    ensures GoogleCard(book).coverUrl == BookDetails.GoogleDetail(book).coverUrl
  {
  }

  /** The card shows the truncation of the very text the detail view
      shows untruncated, whenever the volume has a description. */
  lemma CardTruncatesDetailDescription(book: Volume)
    ensures var c := GoogleCard(book);
      c.description.Some? ==>
        && c.description.value == Api.TruncateText(Some(BookDetails.GoogleDetail(book).description), Api.DefaultMaxLength)
        && Some(BookDetails.GoogleDetail(book).description) == book.volumeInfo.value.description
  {
  }
}
