/**
  `_discover_toc`: the table of contents as a flat list of titles, from the EPUB 3
  navigation document (section 2.2 of EPUB Content Documents 3.0) or, failing that, from
  the NCX declared as in section 2.4.1 of Open Packaging Format 2.0.1.
 */
module Toc {
  import opened Wrappers
  import opened Seqs
  import opened Text
  import opened Xml
  import opened Archive
  import opened Query
  import opened PosixPath

  /** A table-of-contents entry: the first-child node value of its element. */
  type Entry = Option<string>

  /** An anchor the navigation document contributes: it has a first child and an `href`
      that contains `.html` or `.xhtml` (links into the content files, not CFI links). */
  predicate IsChapterLink(a: Node) {
    HasFirstChild(a) && "href" in a.attrs && (Contains(a.attrs["href"], ".html") || Contains(a.attrs["href"], ".xhtml"))
  }

  /** The titles of the navigation document's chapter links, in document order. */
  function NavEntries(nav: Document): (r: seq<Entry>)
    ensures |r| <= |ElementsByTagName(nav, "a")|
    ensures forall i :: 0 <= i < |r| ==>
      exists a :: a in ElementsByTagName(nav, "a") && IsChapterLink(a) && r[i] == FirstChildValue(a)
    ensures forall a :: a in ElementsByTagName(nav, "a") && IsChapterLink(a) ==> FirstChildValue(a) in r
  {
    var anchors := ElementsByTagName(nav, "a");
    var links := Filter(anchors, IsChapterLink);
    assert forall i :: 0 <= i < |links| ==> links[i] in anchors && IsChapterLink(links[i]);
    MapFilter(anchors, IsChapterLink, FirstChildValue);
    Map(links, FirstChildValue)
  }

  /** Chapter links of a navigation document made of two consecutive forests are those of
      the first forest followed by those of the second. */
  lemma NavEntriesAppend(a: seq<Node>, b: seq<Node>)
    ensures NavEntries(Document(a + b)) == NavEntries(Document(a)) + NavEntries(Document(b))
  {
    ElementsAppend(a, b);
    WithTagAppend(Elements(a), Elements(b), "a");
    FilterAppend(WithTag(Elements(a), "a"), WithTag(Elements(b), "a"), IsChapterLink);
    MapAppend(Filter(WithTag(Elements(a), "a"), IsChapterLink), Filter(WithTag(Elements(b), "a"), IsChapterLink), FirstChildValue);
  }

  /** The chapter links of a single node: its own title when it is a chapter link, then
      those of its descendants in document order. Together with `NavEntriesAppend` this
      fixes every entry, its multiplicity and its position. */
  lemma NavEntriesOne(e: Node)
    ensures NavEntries(Document([e])) ==
      (if HasTag(e, "a") && IsChapterLink(e) then [FirstChildValue(e)] else []) +
      (if e.Element? then NavEntries(Document(e.children)) else [])
  {
    if e.Element? {
      WithTagOfOne(e, "a");
      MapFilterPrepend(e, HasTag(e, "a"), WithTag(Elements(e.children), "a"), IsChapterLink, FirstChildValue);
    } else {
      ElementsOne(e);
    }
  }

  /** The NCX titles: the first-child values of all `text` elements, in document order. */
  function NcxEntries(ncx: Document): (r: seq<Entry>)
    ensures forall i :: 0 <= i < |r| ==>
      exists e :: e in ElementsByTagName(ncx, "text") && HasFirstChild(e) && r[i] == FirstChildValue(e)
    ensures forall e :: e in ElementsByTagName(ncx, "text") && HasFirstChild(e) ==> FirstChildValue(e) in r
    ensures |r| == 0 <==> forall e :: e in ElementsByTagName(ncx, "text") ==> !HasFirstChild(e)
  {
    ChildValuesEmpty(ncx, "text");
    ChildValues(ncx, "text")
  }

  /** The NCX titles of a single node: its own title when it is a `text` element with a
      first child, then those of its descendants in document order. */
  lemma NcxEntriesOne(e: Node)
    ensures NcxEntries(Document([e])) ==
      (if HasTag(e, "text") && HasFirstChild(e) then [FirstChildValue(e)] else []) +
      (if e.Element? then NcxEntries(Document(e.children)) else [])
  {
    ChildValuesOne(e, "text");
  }

  /** The `href` of the first manifest item with `properties="nav"` (exactly `nav`). */
  function NavHref(opf: Document): (r: Option<string>)
    ensures r.Some? ==> FindTag(opf, "item", "properties", "nav").Some?
    ensures FindTag(opf, "item", "properties", "nav").Some? ==>
      r == Attr(FindTag(opf, "item", "properties", "nav").value, "href")
  {
    match FindTag(opf, "item", "properties", "nav")
    case Some(tag) => Attr(tag, "href")
    case None => None
  }

  /** The NCX manifest item: the first item with id `ncx`, or only if there is none, the
      first with id `ncxtoc`. */
  function NcxItem(opf: Document): (r: Option<Node>)
    ensures FindTag(opf, "item", "id", "ncx").Some? ==> r == FindTag(opf, "item", "id", "ncx")
    ensures r.Some? ==> HasTag(r.value, "item") && (HasAttr(r.value, "id", "ncx") || HasAttr(r.value, "id", "ncxtoc"))
    ensures r.None? <==> FindTag(opf, "item", "id", "ncx").None? && FindTag(opf, "item", "id", "ncxtoc").None?
    ensures FindTag(opf, "item", "id", "ncx").None? ==> r == FindTag(opf, "item", "id", "ncxtoc")
  {
    var byNcx := FindTag(opf, "item", "id", "ncx");
    if byNcx.Some? then byNcx else FindTag(opf, "item", "id", "ncxtoc")
  }

  /** The `href` of the NCX item; an `ncx` item without `href` does not fall back. */
  function NcxHref(opf: Document): (r: Option<string>)
    ensures r.Some? ==> NcxItem(opf).Some? && HasAttr(NcxItem(opf).value, "href", r.value)
    ensures NcxItem(opf).Some? && "href" in NcxItem(opf).value.attrs ==> r.Some?
  {
    match NcxItem(opf)
    case Some(tag) => Attr(tag, "href")
    case None => None
  }

  /** The navigation-document strategy: `None` when there is no `nav` item or it yields no
      entry, so that the NCX is tried next. */
  function NavToc(entries: map<string, Bytes>, libs: Libs, opf: Document, opfPath: string): (r: Result<Option<seq<Entry>>, Error>)
    ensures NavHref(opf).None? ==> r == Success(None)
    ensures r.Success? && r.value.Some? ==> |r.value.value| > 0
    ensures NavHref(opf).Some? ==>
      var nav := ReadXml(entries, libs, Resolve(opfPath, NavHref(opf).value));
      && (nav.Failure? ==> r == Failure(nav.error))
      && (nav.Success? && |NavEntries(nav.value)| > 0 ==> r == Success(Some(NavEntries(nav.value))))
      && (nav.Success? && |NavEntries(nav.value)| == 0 ==> r == Success(None))
  {
    match NavHref(opf)
    case None => Success(None)
    case Some(href) =>
      var nav :- ReadXml(entries, libs, Resolve(opfPath, href));
      var found := NavEntries(nav);
      if |found| > 0 then Success(Some(found)) else Success(None)
  }

  /** `_discover_toc(zf, opf, opfPath)`: the navigation document's chapter titles when there
      are any, else the NCX's titles, else `None`. A manifest `href` that names a missing or
      malformed document is an error. */
  function DiscoverToc(entries: map<string, Bytes>, libs: Libs, opf: Document, opfPath: string): (r: Result<Option<seq<Entry>>, Error>)
    // the navigation document wins whenever it yields an entry
    ensures NavToc(entries, libs, opf, opfPath).Success? && NavToc(entries, libs, opf, opfPath).value.Some? ==>
      r == NavToc(entries, libs, opf, opfPath)
    // an unreadable navigation document is fatal, even when an NCX exists
    ensures NavToc(entries, libs, opf, opfPath).Failure? ==> r == NavToc(entries, libs, opf, opfPath)
    // otherwise the NCX decides
    ensures NavToc(entries, libs, opf, opfPath) == Success(None) ==>
      match NcxHref(opf)
      case None => r == Success(None)
      case Some(href) =>
        var ncx := ReadXml(entries, libs, Resolve(opfPath, href));
        (ncx.Failure? ==> r == Failure(ncx.error)) && (ncx.Success? ==> r == Success(Some(NcxEntries(ncx.value))))
    // no table of contents only when neither source applies
    ensures r == Success(None) ==> NcxHref(opf).None?
    // an empty list can only come from an NCX without titles
    ensures r.Success? && r.value.Some? && |r.value.value| == 0 ==> NcxHref(opf).Some?
  {
    var nav :- NavToc(entries, libs, opf, opfPath);
    if nav.Some? then Success(nav)
    else
      match NcxHref(opf)
      case None => Success(None)
      case Some(href) =>
        var ncx :- ReadXml(entries, libs, Resolve(opfPath, href));
        Success(Some(NcxEntries(ncx)))
  }
}
