/**
 The raw JSON shapes the two book sources return, as far as the
 normalisation layer reads them. Every property may be missing; a
 missing property and a `null` one are both `None` (or `Absent`).
 */
module Raw {
  import opened Wrappers

  /** An archive metadata property whose shape varies between items:
      missing, a bare string, or a list of strings. */
  datatype Field = Absent | Str(text: string) | List(items: seq<string>)

  // ---- Google Books volumes ----------------------------------------------

  datatype ImageLinks = ImageLinks(
    thumbnail: Option<string>,
    small: Option<string>,
    medium: Option<string>,
    large: Option<string>)

  datatype IndustryIdentifier = IndustryIdentifier(identifier: Option<string>)

  datatype VolumeInfo = VolumeInfo(
    title: Option<string>,
    authors: Field,
    publisher: Option<string>,
    publishedDate: Option<string>,
    description: Option<string>,
    industryIdentifiers: Option<seq<IndustryIdentifier>>,
    pageCount: Option<int>,
    categories: Option<seq<string>>,
    language: Option<string>,
    imageLinks: Option<ImageLinks>,
    previewLink: Option<string>,
    infoLink: Option<string>)

  /** The object literal `{}` read as a `volumeInfo`: every property missing. */
  const EmptyVolumeInfo: VolumeInfo :=
    VolumeInfo(None, Absent, None, None, None, None, None, None, None, None, None, None)

  /** `accessInfo.pdf` / `accessInfo.epub`. */
  datatype FormatAccess = FormatAccess(downloadLink: Option<string>)

  datatype AccessInfo = AccessInfo(pdf: Option<FormatAccess>, epub: Option<FormatAccess>)

  datatype Volume = Volume(
    id: Option<string>,
    volumeInfo: Option<VolumeInfo>,
    accessInfo: Option<AccessInfo>)

  /** Body of `GET /volumes`. */
  datatype VolumesResponse = VolumesResponse(items: Option<seq<Volume>>)

  // ---- Internet Archive --------------------------------------------------

  /** One document of an advanced-search response. */
  datatype ArchiveDoc = ArchiveDoc(
    identifier: Option<string>,
    title: Option<string>,
    creator: Field,
    description: Option<string>,
    date: Option<string>,
    downloads: Option<int>)

  datatype ArchiveResults = ArchiveResults(docs: Option<seq<ArchiveDoc>>)

  /** Body of `GET /advancedsearch.php`. */
  datatype ArchiveSearchResponse = ArchiveSearchResponse(response: Option<ArchiveResults>)

  /** The `metadata` object of an item. */
  datatype ArchiveMetadata = ArchiveMetadata(
    title: Field,
    creator: Field,
    description: Field,
    date: Field,
    subject: Field,
    language: Field,
    pages: Field,
    publisher: Field,
    isbn: Field)

  datatype FileData = FileData(size: Option<int>)

  /** One `[filename, fileData]` pair of `Object.entries(files)`. */
  datatype FileEntry = FileEntry(filename: string, data: FileData)

  /** Body of `GET /metadata/{identifier}`; `files` is read as an object
      keyed by file name and is given here in `Object.entries` order. */
  datatype ArchiveItem = ArchiveItem(
    metadata: Option<ArchiveMetadata>,
    files: Option<seq<FileEntry>>)

  // ---- Source tags -------------------------------------------------------

  datatype Source = Archive | Google

  /** Both the card and the detail view test `source === 'archive'` and
      treat every other tag as Google Books. */
  function RouteSource(tag: string): (s: Source)
    ensures s == Archive <==> tag == "archive"
  {
    if tag == "archive" then Archive else Google
  }
}
