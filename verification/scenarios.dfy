/** Concrete documents and the results the collector gives for them. */
module Scenarios {
  import opened Wrappers
  import opened Seqs
  import opened Text
  import opened Xml
  import opened Archive
  import opened PosixPath
  import opened Query
  import opened Discover
  import opened Cover
  import opened Toc
  import opened Collector

  const Title: Node := Element("dc:title", map[], [Text("Pro Git")])
  const Uuid: Node := Element("dc:identifier", map["id" := "uuid"], [Text("bf50c6e1-eb0a-4a1c-a2cd-ea8809ae086a")])
  const Isbn: Node := Element("dc:identifier", map["opf:scheme" := "ISBN"], [Text("9781430218333")])
  const Subject: Node := Element("dc:subject", map[], [Text("Software Development")])
  const MetadataEl: Node := Element("metadata", map[], [Title, Uuid, Isbn, Subject])
  const PackageEl: Node := Element("package", map["version" := "2.0"], [MetadataEl])

  /** A package document shaped like the Pro Git sample. */
  const ProGitOpf: Document := Document([PackageEl])

  /** An element whose children are all character data is its own pre-order walk. */
  lemma LeafElements(e: Node)
    requires e.Element? && forall i :: 0 <= i < |e.children| ==> e.children[i].Text?
    ensures Elements([e]) == [e]
  {
    TextOnlyElements(e.children);
  }

  lemma {:induction false} TextOnlyElements(nodes: seq<Node>)
    requires forall i :: 0 <= i < |nodes| ==> nodes[i].Text?
    ensures Elements(nodes) == []
    decreases |nodes|
  {
    if |nodes| > 0 {
      TextOnlyElements(nodes[1..]);
    }
  }

  lemma ProGitElements()
    ensures Elements(ProGitOpf.top) == [PackageEl, MetadataEl, Title, Uuid, Isbn, Subject]
  {
    LeafElements(Title);
    LeafElements(Uuid);
    LeafElements(Isbn);
    LeafElements(Subject);
    ElementsAppend([Title], [Uuid, Isbn, Subject]);
    ElementsAppend([Uuid], [Isbn, Subject]);
    ElementsAppend([Isbn], [Subject]);
    assert Elements([MetadataEl]) == [MetadataEl] + Elements([Title, Uuid, Isbn, Subject]);
  }

  /** Selects from a list of elements one at a time. */
  function Pick(e: Node, name: string): seq<Node> {
    if HasTag(e, name) then [e] else []
  }

  lemma WithTagCons(e: Node, rest: seq<Node>, name: string)
    ensures WithTag([e] + rest, name) == Pick(e, name) + WithTag(rest, name)
  {
    assert ([e] + rest)[1..] == rest;
  }

  lemma WithTagOne(f: Node, name: string)
    ensures WithTag([f], name) == Pick(f, name)
  {
    assert [f][1..] == [];
    assert Pick(f, name) + [] == Pick(f, name);
  }

  lemma WithTagThree(d: Node, e: Node, f: Node, name: string)
    ensures WithTag([d, e, f], name) == Pick(d, name) + (Pick(e, name) + Pick(f, name))
  {
    assert [d, e, f] == [d] + [e, f];
    assert [e, f] == [e] + [f];
    WithTagCons(d, [e, f], name);
    WithTagCons(e, [f], name);
    WithTagOne(f, name);
  }

  /** Selecting from six elements, one at a time. */
  lemma WithTagSix(a: Node, b: Node, c: Node, d: Node, e: Node, f: Node, name: string)
    ensures WithTag([a, b, c, d, e, f], name) ==
      Pick(a, name) + (Pick(b, name) + (Pick(c, name) + WithTag([d, e, f], name)))
  {
    assert [a, b, c, d, e, f] == [a] + [b, c, d, e, f];
    assert [b, c, d, e, f] == [b] + [c, d, e, f];
    assert [c, d, e, f] == [c] + [d, e, f];
    WithTagCons(a, [b, c, d, e, f], name);
    WithTagCons(b, [c, d, e, f], name);
    WithTagCons(c, [d, e, f], name);
  }

  lemma ProGitByTag(name: string)
    ensures ElementsByTagName(ProGitOpf, name) ==
      Pick(PackageEl, name) + (Pick(MetadataEl, name) + (Pick(Title, name) + (Pick(Uuid, name) + (Pick(Isbn, name) + Pick(Subject, name)))))
  {
    ProGitElements();
    WithTagSix(PackageEl, MetadataEl, Title, Uuid, Isbn, Subject, name);
    WithTagThree(Uuid, Isbn, Subject, name);
  }

  lemma ProGitPackageTag()
    ensures ElementsByTagName(ProGitOpf, "package") == [PackageEl]
  {
    ProGitByTag("package");
  }

  lemma ProGitTitleTags()
    ensures ElementsByTagName(ProGitOpf, "title") == []
    ensures ElementsByTagName(ProGitOpf, "dc:title") == [Title]
  {
    ProGitByTag("title");
    ProGitByTag("dc:title");
  }

  lemma ProGitIdentifierTags()
    ensures ElementsByTagName(ProGitOpf, "identifier") == []
    ensures ElementsByTagName(ProGitOpf, "dc:identifier") == [Uuid, Isbn]
  {
    ProGitByTag("identifier");
    ProGitByTag("dc:identifier");
  }

  lemma ProGitSubjectTags()
    ensures ElementsByTagName(ProGitOpf, "subject") == []
    ensures ElementsByTagName(ProGitOpf, "dc:subject") == [Subject]
  {
    ProGitByTag("subject");
    ProGitByTag("dc:subject");
  }

  lemma IdentifiersHaveText()
    ensures Filter([Uuid, Isbn], HasFirstChild) == [Uuid, Isbn]
  {
    assert [Uuid, Isbn][1..] == [Isbn];
    assert HasFirstChild(Uuid) && HasFirstChild(Isbn);
  }

  lemma IdentifierValues()
    ensures Map([Uuid, Isbn], FirstChildValue) == [Some("bf50c6e1-eb0a-4a1c-a2cd-ea8809ae086a"), Some("9781430218333")]
  {
    assert FirstChildValue(Uuid) == Some("bf50c6e1-eb0a-4a1c-a2cd-ea8809ae086a");
    assert FirstChildValue(Isbn) == Some("9781430218333");
  }

  /** Both identifiers come back, in document order, through the `dc:` fallback. */
  lemma ProGitIdentifiers()
    ensures DiscoverIdentifiers(ProGitOpf) == [Some("bf50c6e1-eb0a-4a1c-a2cd-ea8809ae086a"), Some("9781430218333")]
  {
    ProGitIdentifierTags();
    assert "dc:" + "identifier" == "dc:identifier";
    DcAllFromPrefixed(ProGitOpf, "identifier", [Uuid, Isbn]);
    IdentifiersHaveText();
    IdentifierValues();
  }

  lemma ProGitVersion()
    ensures DiscoverEpubVersion(ProGitOpf) == Some("2.0")
  {
    ProGitPackageTag();
  }

  /** The title exists only with the `dc:` prefix, so the fallback supplies it. */
  lemma ProGitTitle()
    ensures DiscoverTitle(ProGitOpf) == Some("Pro Git")
  {
    ProGitTitleTags();
    assert "dc:" + "title" == "dc:title";
    DcFirstFromPrefixed(ProGitOpf, "title");
  }

  lemma ProGitSubject()
    ensures DiscoverSubject(ProGitOpf) == Some("Software Development")
  {
    ProGitSubjectTags();
    assert "dc:" + "subject" == "dc:subject";
    DcFirstFromPrefixed(ProGitOpf, "subject");
  }

  const RootfileEl: Node := Element("rootfile", map["full-path" := "content.opf", "media-type" := "application/oebps-package+xml"], [])
  const RootfilesEl: Node := Element("rootfiles", map[], [RootfileEl])
  const ContainerEl: Node := Element("container", map["version" := "1.0"], [RootfilesEl])

  /** A container descriptor that names `content.opf` as the package document. */
  const ContainerDoc: Document := Document([ContainerEl])

  /** A stand-in parser that knows the two sample files by their (one-byte) contents. */
  function ParseSample(b: Bytes): Option<Document> {
    if b == [1] then Some(ContainerDoc)
    else if b == [2] then Some(ProGitOpf)
    else None
  }

  const SampleLibs: Libs := Libs(ParseSample, (b: Bytes) => b)

  const ProGitFile: EpubFile := EpubFile(true, map[ContainerPath := [1], "content.opf" := [2]])

  lemma ContainerElements()
    ensures Elements(ContainerDoc.top) == [ContainerEl, RootfilesEl, RootfileEl]
  {
    LeafElements(RootfileEl);
    assert Elements([RootfilesEl]) == [RootfilesEl, RootfileEl];
  }

  lemma ContainerRootfiles()
    ensures ElementsByTagName(ContainerDoc, "rootfile") == [RootfileEl]
  {
    ContainerElements();
    WithTagThree(ContainerEl, RootfilesEl, RootfileEl, "rootfile");
    assert Pick(ContainerEl, "rootfile") == [] && Pick(RootfilesEl, "rootfile") == [];
    assert Pick(RootfileEl, "rootfile") == [RootfileEl];
  }

  lemma ContainerRootfile()
    ensures RootfilePath(ContainerDoc) == Success("content.opf")
  {
    ContainerRootfiles();
    assert Attr(RootfileEl, "full-path") == Some("content.opf");
  }

  /** The whole pipeline on the Pro Git-shaped archive, without cover and table of contents. */
  lemma ProGitMetadata()
    ensures GetEpubMetadata(ProGitFile, SampleLibs, false, false).Success?
    ensures var m := GetEpubMetadata(ProGitFile, SampleLibs, false, false).value;
      && m.epubVersion == Some("2.0")
      && m.title == Some("Pro Git")
      && m.identifiers == [Some("bf50c6e1-eb0a-4a1c-a2cd-ea8809ae086a"), Some("9781430218333")]
      && m.subject == Some("Software Development")
      && m.cover == Absent && m.toc == Absent
  {
    ContainerRootfile();
    assert PackagePath(ProGitFile, SampleLibs) == Success("content.opf");
    assert Package(ProGitFile, SampleLibs) == Success(ProGitOpf);
    ProGitVersion();
    ProGitTitle();
    ProGitSubject();
    ProGitIdentifiers();
  }

  const EmptyTitle: Node := Element("title", map[], [Text("")])

  /** A first-only value of `''` is falsy, yet kept when no `dc:` element can replace it. */
  lemma EmptyTitleIsKept()
    ensures DiscoverTitle(Document([EmptyTitle])) == Some("")
  {
    LeafElements(EmptyTitle);
    assert ElementsByTagName(Document([EmptyTitle]), "title") == [EmptyTitle];
    assert ElementsByTagName(Document([EmptyTitle]), "dc:title") == [];
  }

  const InnerPackage: Node := Element("package", map["version" := "3.0"], [])
  const OuterPackage: Node := Element("package", map[], [InnerPackage])

  /** Only the first `package` element in document order is asked for its version. */
  lemma VersionFromFirstPackageOnly()
    ensures DiscoverEpubVersion(Document([OuterPackage])) == None
  {
    LeafElements(InnerPackage);
    assert Elements([OuterPackage]) == [OuterPackage, InnerPackage];
    assert ElementsByTagName(Document([OuterPackage]), "package")[0] == OuterPackage;
  }

  const XhtmlCover: Node := Element("item", map["id" := "cover", "href" := "cover.xhtml"], [])
  const JpgCover: Node := Element("item", map["id" := "cover", "href" := "images/c.jpg"], [])
  const CoverManifest: Node := Element("manifest", map[], [XhtmlCover, JpgCover])

  lemma CoverManifestElements()
    ensures Elements([CoverManifest]) == [CoverManifest, XhtmlCover, JpgCover]
  {
    LeafElements(XhtmlCover);
    LeafElements(JpgCover);
    ElementsAppend([XhtmlCover], [JpgCover]);
  }

  lemma CoverManifestItems()
    ensures ElementsByTagName(Document([CoverManifest]), "item") == [XhtmlCover, JpgCover]
  {
    CoverManifestElements();
    WithTagThree(CoverManifest, XhtmlCover, JpgCover, "item");
    assert Pick(CoverManifest, "item") == [];
    assert Pick(XhtmlCover, "item") == [XhtmlCover] && Pick(JpgCover, "item") == [JpgCover];
  }

  lemma XhtmlSeparators()
    ensures RFind("cover.xhtml", '/') == -1
    ensures RFind("cover.xhtml", '.') == 5
  {
    assert '/' !in "cover.xhtml";
    assert "cover.xhtml"[5] == '.';
  }

  lemma SplitXhtml()
    ensures Splitext("cover.xhtml") == Split("cover", ".xhtml")
  {
    XhtmlSeparators();
    assert "cover.xhtml"[..5] == "cover";
    assert "cover.xhtml"[5..] == ".xhtml";
    assert "cover.xhtml"[0] != '.';
  }

  lemma JpgSeparators()
    ensures RFind("images/c.jpg", '/') == 6
    ensures RFind("images/c.jpg", '.') == 8
  {
    assert "images/c.jpg"[6] == '/';
    assert "images/c.jpg"[8] == '.';
  }

  lemma SplitJpg()
    ensures Splitext("images/c.jpg") == Split("images/c", ".jpg")
  {
    JpgSeparators();
    assert "images/c.jpg"[..8] == "images/c";
    assert "images/c.jpg"[8..] == ".jpg";
    assert "images/c.jpg"[7] != '.';
  }

  /** `find_tag` stops at the first matching item ... */
  lemma FirstCoverItem()
    ensures FindTag(Document([CoverManifest]), "item", "id", "cover") == Some(XhtmlCover)
  {
    CoverManifestItems();
    assert HasAttr(XhtmlCover, "id", "cover");
  }

  lemma XhtmlExtension()
    ensures "href" in XhtmlCover.attrs && Splitext(XhtmlCover.attrs["href"]).ext == ".xhtml"
  {
    assert XhtmlCover.attrs["href"] == "cover.xhtml";
    SplitXhtml();
  }

  lemma XhtmlIsNotImage()
    ensures !IsImageElement(XhtmlCover, "id", "cover")
  {
    XhtmlExtension();
    assert ".xhtml" !in ImageExtensions;
  }

  lemma JpgExtension()
    ensures "href" in JpgCover.attrs && Splitext(JpgCover.attrs["href"]).ext == ".jpg"
  {
    assert JpgCover.attrs["href"] == "images/c.jpg";
    SplitJpg();
  }

  lemma JpgIsImage()
    ensures IsImageElement(JpgCover, "id", "cover")
  {
    JpgExtension();
    assert ".jpg" in ImageExtensions;
    assert HasAttr(JpgCover, "id", "cover");
  }

  /** ... while `find_img_tag` passes over an item whose `href` is not an image and takes
      the next one. */
  lemma CoverSkipsNonImageItem()
    ensures FindImgTag(Document([CoverManifest]), "item", "id", "cover") == Some(ImageRef("images/c.jpg", ".jpg"))
  {
    CoverManifestItems();
    XhtmlIsNotImage();
    JpgIsImage();
    SplitJpg();
    var els := ElementsByTagName(Document([CoverManifest]), "item");
    assert FirstImageAt(els, "id", "cover", 1);
    FindImgTagAt(Document([CoverManifest]), "item", "id", "cover", 1);
  }

  const IntroText: Node := Element("text", map[], [Text("Intro")])
  const IntroLabel: Node := Element("navLabel", map[], [IntroText])
  const IntroAText: Node := Element("text", map[], [Text("Intro A")])
  const IntroALabel: Node := Element("navLabel", map[], [IntroAText])
  const IntroAPoint: Node := Element("navPoint", map["id" := "p2"], [IntroALabel])
  const IntroPoint: Node := Element("navPoint", map["id" := "p1"], [IntroLabel, IntroAPoint])
  const NavMap: Node := Element("navMap", map[], [IntroPoint])

  /** An NCX with a navigation point "Intro" that holds a nested point "Intro A". */
  const NcxDoc: Document := Document([NavMap])

  const NcxItemEl: Node := Element("item", map["id" := "ncx", "href" := "toc.ncx", "media-type" := "application/x-dtbncx+xml"], [])

  /** A package document whose manifest lists only an NCX. */
  const NcxOpf: Document := Document([Element("manifest", map[], [NcxItemEl])])

  lemma IntroAPointElements()
    ensures Elements([IntroAPoint]) == [IntroAPoint, IntroALabel, IntroAText]
  {
    LeafElements(IntroAText);
    assert Elements([IntroALabel]) == [IntroALabel, IntroAText];
  }

  lemma IntroPointElements()
    ensures Elements([IntroPoint]) == [IntroPoint, IntroLabel, IntroText, IntroAPoint, IntroALabel, IntroAText]
  {
    LeafElements(IntroText);
    assert Elements([IntroLabel]) == [IntroLabel, IntroText];
    IntroAPointElements();
    ElementsAppend([IntroLabel], [IntroAPoint]);
    assert Elements([IntroPoint]) == [IntroPoint] + Elements([IntroLabel, IntroAPoint]);
  }

  lemma NcxElements()
    ensures Elements(NcxDoc.top) == [NavMap, IntroPoint, IntroLabel, IntroText, IntroAPoint, IntroALabel, IntroAText]
  {
    IntroPointElements();
    assert Elements([NavMap]) == [NavMap] + Elements([IntroPoint]);
  }

  lemma NcxTexts()
    ensures ElementsByTagName(NcxDoc, "text") == [IntroText, IntroAText]
  {
    NcxElements();
    var rest := [IntroPoint, IntroLabel, IntroText, IntroAPoint, IntroALabel, IntroAText];
    assert [NavMap, IntroPoint, IntroLabel, IntroText, IntroAPoint, IntroALabel, IntroAText] == [NavMap] + rest;
    WithTagCons(NavMap, rest, "text");
    WithTagSix(IntroPoint, IntroLabel, IntroText, IntroAPoint, IntroALabel, IntroAText, "text");
    WithTagThree(IntroAPoint, IntroALabel, IntroAText, "text");
    assert Pick(NavMap, "text") == [] && Pick(IntroPoint, "text") == [] && Pick(IntroLabel, "text") == [];
    assert Pick(IntroAPoint, "text") == [] && Pick(IntroALabel, "text") == [];
    assert Pick(IntroText, "text") == [IntroText] && Pick(IntroAText, "text") == [IntroAText];
  }

  lemma NcxOpfItems()
    ensures FindTag(NcxOpf, "item", "properties", "nav") == None
    ensures FindTag(NcxOpf, "item", "id", "ncx") == Some(NcxItemEl)
  {
    LeafElements(NcxItemEl);
    assert Elements(NcxOpf.top) == [NcxOpf.top[0], NcxItemEl];
    assert ElementsByTagName(NcxOpf, "item") == [NcxItemEl];
  }

  const NcxLibs: Libs := Libs((b: Bytes) => if b == [3] then Some(NcxDoc) else None, (b: Bytes) => b)

  const NcxEntriesMap: map<string, Bytes> := map["toc.ncx" := [3]]

  lemma NcxTextsHaveText()
    ensures Filter([IntroText, IntroAText], HasFirstChild) == [IntroText, IntroAText]
  {
    assert [IntroText, IntroAText][1..] == [IntroAText];
    assert HasFirstChild(IntroText) && HasFirstChild(IntroAText);
  }

  lemma NcxEntriesOfSample()
    ensures NcxEntries(NcxDoc) == [Some("Intro"), Some("Intro A")]
  {
    NcxTexts();
    NcxTextsHaveText();
    assert FirstChildValue(IntroText) == Some("Intro") && FirstChildValue(IntroAText) == Some("Intro A");
  }

  lemma NcxOpfHrefs()
    ensures NavHref(NcxOpf) == None
    ensures NcxHref(NcxOpf) == Some("toc.ncx")
  {
    NcxOpfItems();
  }

  lemma NcxRead()
    ensures ReadXml(NcxEntriesMap, NcxLibs, "toc.ncx") == Success(NcxDoc)
  {
    assert "toc.ncx" in NcxEntriesMap;
    assert NcxLibs.parseXml(NcxEntriesMap["toc.ncx"]) == Some(NcxDoc);
  }

  /** The NCX document sits next to the package document at the archive root. */
  lemma NcxPath()
    ensures Resolve("content.opf", "toc.ncx") == "toc.ncx"
  {
    assert "toc.ncx"[..1] != "/" by { assert "toc.ncx"[..1][0] == 't'; }
    ResolveAtRoot("content.opf", "toc.ncx");
  }

  /** Without a navigation document the NCX titles are the table of contents, nested
      points flattened in document order. */
  lemma NcxTableOfContents()
    ensures DiscoverToc(NcxEntriesMap, NcxLibs, NcxOpf, "content.opf") == Success(Some([Some("Intro"), Some("Intro A")]))
  {
    NcxOpfHrefs();
    NcxPath();
    NcxRead();
    NcxEntriesOfSample();
  }
}
