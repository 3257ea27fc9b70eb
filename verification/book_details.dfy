/**
 The detail view's normalisation: one raw item from either source becomes
 a detail record, and the item's download offers are derived from the
 archive file map or the Google access info.
 */
module BookDetails {
  import opened Wrappers
  import opened Raw
  import opened Js
  import Api

  const UnknownTitle := "Unknown Title"
  const NoDescription := "No description available."
  const UnknownLanguage := "Unknown"

  /** Archive items give a page count as text, Google volumes as a number. */
  datatype Pages = PageText(text: string) | PageCount(count: int)

  datatype Offer = Offer(format: string, url: string, filename: string, size: Option<Api.SizeText>)

  datatype Detail = Detail(
    title: string,
    author: string,
    description: string,
    publishDate: Option<string>,
    subjects: seq<string>,
    language: string,
    pages: Option<Pages>,
    publisher: Option<string>,
    isbn: Option<string>,
    coverUrl: Option<string>,
    downloadUrls: seq<Offer>,
    previewLink: Option<string>,
    infoLink: Option<string>)

  /** What the view loaded: the archive `/metadata` body, or the Google
      volume. The view picks the loader and the normaliser by the same
      `source === 'archive'` test, so the two always agree. */
  datatype Loaded = ArchiveLoaded(item: ArchiveItem) | GoogleLoaded(volume: Volume)

  // ---- Field access ------------------------------------------------------

  /** `f?.[0]`: element 0 of whatever is there. For a list that is its
      first element; for a bare string it is the string's first
      character; missing values and empty strings or lists give nothing. */
  function ElementZero(f: Field): (r: Option<string>)
    ensures f.Absent? ==> r.None?
    ensures f.List? ==> (r.Some? <==> |f.items| > 0) && (r.Some? ==> r.value == f.items[0])
    ensures f.Str? ==> (r.Some? <==> f.text != "") && (r.Some? ==> r.value == f.text[..1])
  {
    match f
    case Absent => None
    case Str(s) => if |s| > 0 then Some([s[0]]) else None
    case List(xs) => if |xs| > 0 then Some(xs[0]) else None
  }

  /** A bare-string title is cut down to its first character: a
      non-empty string field always reads as exactly one character. */
  lemma StringFieldReadsAsOneCharacter(s: string)
    requires |s| > 1
    ensures ElementZero(Str(s)).Some?
    ensures |ElementZero(Str(s)).value| == 1 && ElementZero(Str(s)).value != s
  {
  }

  /** The subject list: empty for a missing or empty value, the one
      string for a bare string, the list itself for a list. */
  function Subjects(f: Field): (r: seq<string>)
    ensures f.List? ==> r == f.items
    ensures f.Str? ==> r == (if f.text == "" then [] else [f.text])
    ensures f.Absent? ==> r == []
  {
    match f
    case Absent => []
    case Str(s) => if s == "" then [] else [s]
    case List(xs) => xs
  }

  /** How a title field reads: a list gives its first element, a bare
      string its first character, and an empty or missing one the
      default title. */
  lemma ArchiveTitleReading(id: string, item: ArchiveItem, m: ArchiveMetadata)
    ensures m.title.List? && |m.title.items| > 0 && m.title.items[0] != "" ==>
      ArchiveDetail(id, item, m).title == m.title.items[0]
    ensures m.title.Str? && m.title.text != "" ==>
      ArchiveDetail(id, item, m).title == [m.title.text[0]]
    ensures m.title.Absent? || m.title == Str("") || m.title == List([]) ==>
      ArchiveDetail(id, item, m).title == UnknownTitle
  {
  }

  /** Subjects are normalised once: reading the normalised list again as a
      field gives it back, and every subject comes from the raw value. */
  lemma SubjectsNormalForm(f: Field)
    ensures Subjects(List(Subjects(f))) == Subjects(f)
    ensures forall x :: x in Subjects(f) ==> (f.Str? && x == f.text) || (f.List? && x in f.items)
  {
  }

  // ---- Archive offers ----------------------------------------------------

  const DownloadableFormats: seq<string> := ["PDF", "EPUB", "MOBI", "TXT"]

  /** `filename.split('.').pop()?.toUpperCase()`: the upper case of the
      dot-free suffix of the name that is either the whole name or
      directly preceded by a dot. */
  function FileFormat(filename: string): (r: string)
    ensures |r| <= |filename|
    ensures var ext := filename[|filename| - |r|..];
      && '.' !in ext && r == ToUpperCase(ext)
      && (|r| < |filename| ==> filename[|filename| - |r| - 1] == '.')
  {
    ToUpperCase(LastSegment(filename, '.'))
  }

  predicate Downloadable(filename: string) {
    FileFormat(filename) in DownloadableFormats
  }

  /** The format is the upper-cased text after the last dot, or the whole
      upper-cased name when there is no dot. */
  lemma FileFormatOf(p: string, ext: string)
    requires '.' !in ext
    ensures FileFormat(p + "." + ext) == ToUpperCase(ext)
    ensures '.' !in p ==> FileFormat(p) == ToUpperCase(p)
  {
    LastSegmentAfterSeparator(p, ext, '.');
    if '.' !in p {
      LastSegmentWithoutSeparator(p, '.');
    }
  }

  /** A dotless i upper-cases to 'I', so a file whose extension is
      "mob" followed by U+0131 is offered as MOBI. */
  lemma DotlessIExtensionIsMobi(p: string)
    ensures FileFormat(p + ".mob\U{0131}") == "MOBI"
    ensures Downloadable(p + ".mob\U{0131}")
  {
    var ext := "mob\U{0131}";
    var name := p + "." + ext;
    assert p + ".mob\U{0131}" == name;
    LastSegmentAfterSeparator(p, ext, '.');
    var up := ToUpperCase(ext);
    assert up[0] == 'M' && up[1] == 'O' && up[2] == 'B' && up[3] == 'I';
    assert up == "MOBI";
    assert FileFormat(name) == up;
  }

  /** The offer the view builds for one file of the map: the file's own
      name, its format, its download URL under the item identifier, and
      its size text, which is "N/A" exactly for a missing or zero size.
      It is a valid offer exactly when the file's format is allowed. */
  function OfferFor(id: string, e: FileEntry): (o: Offer)
    ensures o.filename == e.filename && o.format == FileFormat(e.filename)
    ensures o.url == Api.GetDownloadUrl(id, e.filename)
    ensures o.size == Some(Api.FormatFileSize(e.data.size))
    ensures o.size.Some? && (o.size.value == Api.NotAvailable <==> e.data.size.None? || e.data.size.value == 0)
    ensures ValidArchiveOffer(id, o) <==> Downloadable(e.filename)
  {
    Offer(FileFormat(e.filename), Api.GetDownloadUrl(id, e.filename), e.filename,
          Some(Api.FormatFileSize(e.data.size)))
  }

  /** An archive offer names an allowed format, the format of its own
      file, and the download URL of that file under the item identifier. */
  predicate ValidArchiveOffer(id: string, o: Offer) {
    && o.format in DownloadableFormats
    && o.format == FileFormat(o.filename)
    && o.url == Api.GetDownloadUrl(id, o.filename)
  }

  /** The offers one file contributes: its offer when allowed, else none. */
  function OffersOf(id: string, e: FileEntry): seq<Offer> {
    if Downloadable(e.filename) then [OfferFor(id, e)] else []
  }

  /** `Object.entries(files).filter(allowed).map(toOffer)`: one offer per
      file whose format is allowed, nothing for any other file. */
  function ArchiveOffers(id: string, entries: seq<FileEntry>): (r: seq<Offer>)
    ensures |r| <= |entries|
    ensures forall o :: o in r ==> ValidArchiveOffer(id, o)
    decreases |entries|
  {
    if |entries| == 0 then [] else OffersOf(id, entries[0]) + ArchiveOffers(id, entries[1..])
  }

  /** A file of the map has its offer among the offers if and only if
      its format is allowed. */
  lemma {:induction false} ArchiveOffersMembership(id: string, entries: seq<FileEntry>, e: FileEntry)
    requires e in entries
    ensures OfferFor(id, e) in ArchiveOffers(id, entries) <==> Downloadable(e.filename)
    decreases |entries|
  {
    if e != entries[0] {
      assert e in entries[1..];
      ArchiveOffersMembership(id, entries[1..], e);
    }
  }

  /** Every offer is the offer built from some file of the map. */
  lemma {:induction false} ArchiveOffersFromFiles(id: string, entries: seq<FileEntry>)
    ensures forall o :: o in ArchiveOffers(id, entries) ==> exists e :: e in entries && o == OfferFor(id, e)
    decreases |entries|
  {
    if |entries| > 0 {
      var rest := ArchiveOffers(id, entries[1..]);
      assert ArchiveOffers(id, entries) == OffersOf(id, entries[0]) + rest;
      ArchiveOffersFromFiles(id, entries[1..]);
      forall o | o in ArchiveOffers(id, entries)
        ensures exists e :: e in entries && o == OfferFor(id, e)
      {
        if o in rest {
          var e :| e in entries[1..] && o == OfferFor(id, e);
          assert e in entries;
        } else {
          assert o in OffersOf(id, entries[0]);
          assert entries[0] in entries && o == OfferFor(id, entries[0]);
        }
      }
    }
  }

  /** `xs.flatMap(f)`: the pieces of all elements, in element order. */
  function FlatMap<A, B>(f: A -> seq<B>, xs: seq<A>): seq<B> {
    if |xs| == 0 then [] else f(xs[0]) + FlatMap(f, xs[1..])
  }

  lemma {:induction false} FlatMapAppend<A, B>(f: A -> seq<B>, a: seq<A>, b: seq<A>)
    ensures FlatMap(f, a + b) == FlatMap(f, a) + FlatMap(f, b)
    decreases |a|
  {
    if |a| == 0 {
      assert a + b == b;
    } else {
      assert (a + b)[0] == a[0] && (a + b)[1..] == a[1..] + b;
      FlatMapAppend(f, a[1..], b);
    }
  }

  /** The archive offers are the file map flat-mapped through `OffersOf`. */
  lemma {:induction false} ArchiveOffersAsFlatMap(id: string, entries: seq<FileEntry>)
    ensures ArchiveOffers(id, entries) == FlatMap(e => OffersOf(id, e), entries)
    decreases |entries|
  {
    if |entries| > 0 {
      ArchiveOffersAsFlatMap(id, entries[1..]);
    }
  }

  /** The offers keep the file-map order: the offers of a concatenation
      are the offers of the first part followed by those of the second. */
  lemma ArchiveOffersAppend(id: string, a: seq<FileEntry>, b: seq<FileEntry>)
    ensures ArchiveOffers(id, a + b) == ArchiveOffers(id, a) + ArchiveOffers(id, b)
  {
    ArchiveOffersAsFlatMap(id, a + b);
    ArchiveOffersAsFlatMap(id, a);
    ArchiveOffersAsFlatMap(id, b);
    FlatMapAppend(e => OffersOf(id, e), a, b);
  }

  /** A single file gives one offer when allowed and none otherwise. */
  lemma ArchiveOffersSingle(id: string, e: FileEntry)
    ensures ArchiveOffers(id, [e]) == if Downloadable(e.filename) then [OfferFor(id, e)] else []
    ensures |ArchiveOffers(id, [e])| <= 1
  {
  }

  /** The archive offers of the loaded item: none without a file map. */
  function GetDownloadUrls(id: string, item: ArchiveItem): (r: seq<Offer>)
    ensures item.files.None? ==> r == []
    ensures forall o :: o in r ==>
      o.format in DownloadableFormats && o.url == Api.GetDownloadUrl(id, o.filename)
    ensures item.files.Some? ==> r == ArchiveOffers(id, item.files.value)
  {
    if item.files.None? then [] else ArchiveOffers(id, item.files.value)
  }

  // ---- Google offers -----------------------------------------------------

  /** The download link of one format, when the access info exposes one. */
  function FormatLink(access: Option<FormatAccess>): Option<string> {
    if access.Some? then access.value.downloadLink else None
  }

  /** The file name stem: the volume title when it is truthy, or "book". */
  function DownloadStem(book: Volume): (r: string)
    ensures r != ""
    ensures var t := if book.volumeInfo.Some? then book.volumeInfo.value.title else None;
      && (Truthy(t) ==> r == t.value)
      && (!Truthy(t) ==> r == "book")
  {
    OrElse(if book.volumeInfo.Some? then book.volumeInfo.value.title else None, "book")
  }

  /** At most one PDF offer followed by at most one EPUB offer, each
      present exactly when its download link is truthy, named after the
      title with the matching extension. Nothing without access info. */
  function GetGoogleBooksDownloadUrls(book: Volume): (r: seq<Offer>)
    ensures book.accessInfo.None? ==> r == []
    ensures |r| <= 2
    ensures forall o :: o in r ==>
      && o.size.None?
      && ((o.format == "PDF" && o.filename == DownloadStem(book) + ".pdf") ||
          (o.format == "EPUB" && o.filename == DownloadStem(book) + ".epub"))
    ensures book.accessInfo.Some? ==>
      var pdf := FormatLink(book.accessInfo.value.pdf);
      var epub := FormatLink(book.accessInfo.value.epub);
      && ((exists i :: 0 <= i < |r| && r[i].format == "PDF") <==> Truthy(pdf))
      && ((exists i :: 0 <= i < |r| && r[i].format == "EPUB") <==> Truthy(epub))
      && (forall o :: o in r && o.format == "PDF" ==> Some(o.url) == pdf)
      && (forall o :: o in r && o.format == "EPUB" ==> Some(o.url) == epub)
    ensures |r| == 2 ==> r[0].format == "PDF" && r[1].format == "EPUB"
  {
    if book.accessInfo.None? then []
    else
      var access := book.accessInfo.value;
      var pdf := FormatLink(access.pdf);
      var epub := FormatLink(access.epub);
      var pdfOffers := if Truthy(pdf) then [Offer("PDF", pdf.value, DownloadStem(book) + ".pdf", None)] else [];
      var epubOffers := if Truthy(epub) then [Offer("EPUB", epub.value, DownloadStem(book) + ".epub", None)] else [];
      var offers := pdfOffers + epubOffers;
      assert Truthy(pdf) ==> offers[0].format == "PDF";
      assert Truthy(epub) ==> offers[|offers| - 1].format == "EPUB";
      offers
  }

  // ---- Normalisation -----------------------------------------------------

  /** The archive detail record: title, description and language are
      never empty, there is never a cover, subjects are always a list, and
      the offers come from the file map under the route's identifier. */
  function ArchiveDetail(id: string, item: ArchiveItem, m: ArchiveMetadata): (d: Detail)
    ensures d.title != "" && d.description != "" && d.language != ""
    ensures Truthy(ElementZero(m.title)) ==> Some(d.title) == ElementZero(m.title)
    ensures !Truthy(ElementZero(m.title)) ==> d.title == UnknownTitle
    ensures Truthy(ElementZero(m.description)) ==> Some(d.description) == ElementZero(m.description)
    ensures !Truthy(ElementZero(m.description)) ==> d.description == NoDescription
    ensures Truthy(ElementZero(m.language)) ==> Some(d.language) == ElementZero(m.language)
    ensures !Truthy(ElementZero(m.language)) ==> d.language == UnknownLanguage
    ensures d.publisher == ElementZero(m.publisher) && d.isbn == ElementZero(m.isbn)
    ensures var p := ElementZero(m.pages); d.pages == if p.Some? then Some(PageText(p.value)) else None
    ensures d.author == Api.FormatAuthors(m.creator)
    ensures d.subjects == Subjects(m.subject)
    ensures d.publishDate == ElementZero(m.date)
    ensures d.coverUrl.None? && d.previewLink.None? && d.infoLink.None?
    ensures d.downloadUrls == GetDownloadUrls(id, item)
  {
    var pages := ElementZero(m.pages);
    Detail(
      title := OrElse(ElementZero(m.title), UnknownTitle),
      author := Api.FormatAuthors(m.creator),
      description := OrElse(ElementZero(m.description), NoDescription),
      publishDate := ElementZero(m.date),
      subjects := Subjects(m.subject),
      language := OrElse(ElementZero(m.language), UnknownLanguage),
      pages := if pages.Some? then Some(PageText(pages.value)) else None,
      publisher := ElementZero(m.publisher),
      isbn := ElementZero(m.isbn),
      coverUrl := None,
      downloadUrls := GetDownloadUrls(id, item),
      previewLink := None,
      infoLink := None)
  }

  /** `industryIdentifiers?.[0]?.identifier`. */
  function FirstIdentifier(ids: Option<seq<IndustryIdentifier>>): Option<string> {
    if ids.Some? && |ids.value| > 0 then ids.value[0].identifier else None
  }

  /** The Google detail record: a missing `volumeInfo` reads as `{}`;
      title, description and language are never empty; subjects are the
      categories or none; the cover and offers come from the volume. */
  function GoogleDetail(book: Volume): (d: Detail)
    ensures d.title != "" && d.description != "" && d.language != ""
    ensures var info := book.volumeInfo.GetOr(EmptyVolumeInfo);
      && (Truthy(info.title) ==> Some(d.title) == info.title)
      && (!Truthy(info.title) ==> d.title == UnknownTitle)
      && (Truthy(info.description) ==> Some(d.description) == info.description)
      && (!Truthy(info.description) ==> d.description == NoDescription)
      && (Truthy(info.language) ==> Some(d.language) == info.language)
      && (!Truthy(info.language) ==> d.language == UnknownLanguage)
      && d.publishDate == info.publishedDate && d.publisher == info.publisher
      && d.previewLink == info.previewLink && d.infoLink == info.infoLink
      && d.author == Api.FormatAuthors(info.authors)
      && d.subjects == info.categories.GetOr([])
      && d.isbn == FirstIdentifier(info.industryIdentifiers)
      && d.pages == (if info.pageCount.Some? then Some(PageCount(info.pageCount.value)) else None)
    ensures book.volumeInfo.None? ==>
      d.title == UnknownTitle && d.author == Api.UnknownAuthor && d.subjects == [] && d.coverUrl.None?
    ensures d.coverUrl == Api.GetGoogleBooksCover(book)
    ensures d.downloadUrls == GetGoogleBooksDownloadUrls(book)
  {
    var info := book.volumeInfo.GetOr(EmptyVolumeInfo);
    Detail(
      title := OrElse(info.title, UnknownTitle),
      author := Api.FormatAuthors(info.authors),
      description := OrElse(info.description, NoDescription),
      publishDate := info.publishedDate,
      subjects := info.categories.GetOr([]),
      language := OrElse(info.language, UnknownLanguage),
      pages := if info.pageCount.Some? then Some(PageCount(info.pageCount.value)) else None,
      publisher := info.publisher,
      isbn := FirstIdentifier(info.industryIdentifiers),
      coverUrl := Api.GetGoogleBooksCover(book),
      downloadUrls := GetGoogleBooksDownloadUrls(book),
      previewLink := info.previewLink,
      infoLink := info.infoLink)
  }

  /** `getBookData`: nothing when an archive item has no `metadata` (the
      view then shows "Book not found"), otherwise the source's record. */
  function GetBookData(id: string, loaded: Loaded): (r: Option<Detail>)
    ensures r.None? <==> loaded.ArchiveLoaded? && loaded.item.metadata.None?
    ensures r.Some? ==> r.value.title != "" && r.value.description != "" && r.value.language != ""
    ensures loaded.ArchiveLoaded? && r.Some? ==> r.value.coverUrl.None?
    ensures loaded.ArchiveLoaded? && loaded.item.metadata.Some? ==>
      r == Some(ArchiveDetail(id, loaded.item, loaded.item.metadata.value))
    ensures loaded.GoogleLoaded? ==> r == Some(GoogleDetail(loaded.volume))
  {
    match loaded
    case ArchiveLoaded(item) =>
      if item.metadata.None? then None else Some(ArchiveDetail(id, item, item.metadata.value))
    case GoogleLoaded(volume) => Some(GoogleDetail(volume))
  }
}
