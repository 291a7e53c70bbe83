/**
  `get_epub_metadata` and `get_epub_opf_xml`: locate the package document through
  `META-INF/container.xml` and assemble the metadata record from the discoverers.
 */
module Collector {
  import opened Wrappers
  import opened Xml
  import opened Archive
  import opened Discover
  import opened Cover
  import opened Toc

  /** The fixed location of the container descriptor in every EPUB archive. */
  const ContainerPath: string := "META-INF/container.xml"

  /** Whether a key is in the returned dictionary at all, apart from its value. */
  datatype Field<+T> = Absent | Present(value: T)

  /** The dictionary `get_epub_metadata` returns: eight keys always, the two cover keys
      only when the cover was asked for, `toc` only when the table of contents was. */
  datatype Metadata = Metadata(
    epubVersion: Option<string>,
    title: Option<string>,
    language: Option<string>,
    authors: seq<Option<string>>,
    publisher: Option<string>,
    publicationDate: Option<string>,
    identifiers: seq<Option<string>>,
    subject: Option<string>,
    cover: Field<CoverImage>,
    toc: Field<Option<seq<Entry>>>)

  /** The `full-path` of the container's first `rootfile` element. */
  function RootfilePath(container: Document): (r: Result<string, Error>)
    ensures var rootfiles := ElementsByTagName(container, "rootfile");
      forall p :: r == Success(p) <==> |rootfiles| > 0 && HasAttr(rootfiles[0], "full-path", p)
    ensures r.Failure? ==> r.error == (if |ElementsByTagName(container, "rootfile")| == 0 then NoRootfile else NoFullPath)
  {
    var rootfiles := ElementsByTagName(container, "rootfile");
    if |rootfiles| == 0 then Failure(NoRootfile)
    else match Attr(rootfiles[0], "full-path")
      case Some(p) => Success(p)
      case None => Failure(NoFullPath)
  }

  /** The package document's path inside the archive; a file that is not a zip archive is
      rejected before anything is read from it. */
  function PackagePath(f: EpubFile, libs: Libs): (r: Result<string, Error>)
    ensures !f.isZip ==> r == Failure(UnknownFile)
    ensures f.isZip ==>
      var container := ReadXml(f.entries, libs, ContainerPath);
      && (container.Failure? ==> r == Failure(container.error))
      && (container.Success? ==> r == RootfilePath(container.value))
  {
    if !f.isZip then Failure(UnknownFile)
    else
      var container :- ReadXml(f.entries, libs, ContainerPath);
      RootfilePath(container)
  }

  /** The parsed package document. */
  function Package(f: EpubFile, libs: Libs): (r: Result<Document, Error>)
    ensures r.Success? ==>
      PackagePath(f, libs).Success? && ReadXml(f.entries, libs, PackagePath(f, libs).value) == r
    ensures PackagePath(f, libs).Failure? ==> r == Failure(PackagePath(f, libs).error)
    // once the path is known, the outcome is that of reading and parsing that entry
    ensures PackagePath(f, libs).Success? ==> r == ReadXml(f.entries, libs, PackagePath(f, libs).value)
  {
    var path :- PackagePath(f, libs);
    ReadXml(f.entries, libs, path)
  }

  /** `get_epub_opf_xml(f)`: the raw bytes of the package document. */
  function GetEpubOpfXml(f: EpubFile, libs: Libs): (r: Result<Bytes, Error>)
    ensures !f.isZip ==> r == Failure(UnknownFile)
    ensures r.Success? <==> PackagePath(f, libs).Success? && PackagePath(f, libs).value in f.entries
    ensures r.Success? ==> r.value == f.entries[PackagePath(f, libs).value]
    // the container's errors pass through; a missing package entry is the read's KeyError
    ensures PackagePath(f, libs).Failure? ==> r == Failure(PackagePath(f, libs).error)
    ensures PackagePath(f, libs).Success? && PackagePath(f, libs).value !in f.entries ==>
      r == Failure(MissingEntry(PackagePath(f, libs).value))
  {
    var path :- PackagePath(f, libs);
    Read(f.entries, path)
  }

  /** `get_epub_metadata(f, read_cover_image, read_toc)`. */
  function GetEpubMetadata(f: EpubFile, libs: Libs, readCoverImage: bool, readToc: bool): (r: Result<Metadata, Error>)
    ensures !f.isZip ==> r == Failure(UnknownFile)
    // the optional keys follow the caller's flags
    ensures r.Success? ==> (r.value.cover.Present? <==> readCoverImage) && (r.value.toc.Present? <==> readToc)
    // the eight discovered fields are always there, read from the package document
    ensures r.Success? ==> Package(f, libs).Success?
    ensures r.Success? ==>
      var opf := Package(f, libs).value;
      && r.value.epubVersion == DiscoverEpubVersion(opf)
      && r.value.title == DiscoverTitle(opf)
      && r.value.language == DiscoverLanguage(opf)
      && r.value.authors == DiscoverAuthors(opf)
      && r.value.publisher == DiscoverPublisher(opf)
      && r.value.publicationDate == DiscoverPublicationDate(opf)
      && r.value.identifiers == DiscoverIdentifiers(opf)
      && r.value.subject == DiscoverSubject(opf)
    ensures r.Success? && readCoverImage ==>
      DiscoverCoverImage(f.entries, libs, Package(f, libs).value, PackagePath(f, libs).value) == Success(r.value.cover.value)
    ensures r.Success? && readToc ==>
      DiscoverToc(f.entries, libs, Package(f, libs).value, PackagePath(f, libs).value) == Success(r.value.toc.value)
    // with both flags off only the container and the package document can fail
    ensures !readCoverImage && !readToc ==> (r.Success? <==> Package(f, libs).Success?)
    ensures Package(f, libs).Failure? ==> r == Failure(Package(f, libs).error)
    // once the package document is read, the cover is discovered first and the table of
    // contents second; the call fails exactly when a requested one fails, with its error
    ensures Package(f, libs).Success? ==>
      var opf := Package(f, libs).value;
      var opfPath := PackagePath(f, libs).value;
      var cover := DiscoverCoverImage(f.entries, libs, opf, opfPath);
      var toc := DiscoverToc(f.entries, libs, opf, opfPath);
      && (readCoverImage && cover.Failure? ==> r == Failure(cover.error))
      && ((!readCoverImage || cover.Success?) && readToc && toc.Failure? ==> r == Failure(toc.error))
      && ((!readCoverImage || cover.Success?) && (!readToc || toc.Success?) ==> r.Success?)
    // whatever succeeds here also lets `get_epub_opf_xml` succeed
    ensures r.Success? ==> GetEpubOpfXml(f, libs).Success?
  {
    var opfPath :- PackagePath(f, libs);
    var opf :- ReadXml(f.entries, libs, opfPath);
    var cover :- if readCoverImage then
        var c :- DiscoverCoverImage(f.entries, libs, opf, opfPath);
        Success(Present(c))
      else Success(Absent);
    var toc :- if readToc then
        var t :- DiscoverToc(f.entries, libs, opf, opfPath);
        Success(Present(t))
      else Success(Absent);
    Success(Metadata(
      DiscoverEpubVersion(opf),
      DiscoverTitle(opf),
      DiscoverLanguage(opf),
      DiscoverAuthors(opf),
      DiscoverPublisher(opf),
      DiscoverPublicationDate(opf),
      DiscoverIdentifiers(opf),
      DiscoverSubject(opf),
      cover,
      toc))
  }

  /** Asking for the cover or the table of contents only adds keys: the eight fields do not
      change, and a call that succeeds with the flags on also succeeds with them off. */
  lemma FlagsOnlyAddKeys(f: EpubFile, libs: Libs, readCoverImage: bool, readToc: bool)
    ensures var full := GetEpubMetadata(f, libs, readCoverImage, readToc);
      full.Success? ==>
        GetEpubMetadata(f, libs, false, false) == Success(full.value.(cover := Absent, toc := Absent))
  {
  }
}
