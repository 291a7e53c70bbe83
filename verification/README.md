# epub-meta collector in Dafny

This project models `epub_meta/collector.py` of the epub-meta library. The collector reads
an EPUB archive and returns a metadata dictionary. It finds the package document (the
"OPF") through `META-INF/container.xml` and reads the EPUB version from it. It also reads
seven Dublin Core fields: title, language, authors, publisher, publication date,
identifiers and subject. On request it adds the cover image and a flat table of contents.
`get_epub_opf_xml` returns the package document's raw bytes instead.

The model is pure and functional:

- `Xml` is the part of the DOM that the collector uses. Elements carry a tag, attributes
  and children, and text nodes carry data. `getElementsByTagName` with a literal tag name is
  a pre-order walk filtered by that tag; minidom's `*` wildcard is not modelled.
  `firstChild` and `nodeValue` follow minidom, so an element's `nodeValue` is `None`.
  Comment, CDATA and processing-instruction nodes are folded into `Text`: minidom gives
  each of them a `nodeValue` that is not `None`, their character data, and that is all
  the collector reads from a child node.
- `PosixPath` covers `os.path.splitext`, `dirname` and `join` with POSIX semantics.
- `Archive` represents the zip file as a map from entry names to bytes, plus an `isZip`
  flag. The XML parser and base64 encoder are passed in as functions (`Libs`). Each
  Python exception that can escape is a constructor of `Error`:
  - `UnknownFile`: `EPubException('Unknown file')`.
  - `MissingEntry`: the zip's `KeyError`.
  - `MalformedXml`: the parser's error.
  - `NoRootfile`: `IndexError` on `rootfile`.
  - `NoFullPath`: `KeyError` on `full-path`.
- `Query` covers `find_tag` and `find_img_tag`.
- `Discover` covers the version and Dublin Core discoverers.
- `Cover` covers `_discover_cover_image`.
- `Toc` covers `_discover_toc`.
- `Collector` covers the two public entry points.
- `Scenarios` works through concrete documents shaped like the Pro Git sample.

Python values map to Dafny types as follows:

- A `str` or `None` becomes `Option<string>`.
- A list comprehension of node values becomes `seq<Option<string>>`. An entry can be
  `None` when the first child is an element.
- A dictionary key that the flags leave out becomes `Field.Absent`.

The model follows the code as written. The test suite (tests.py:173-235) expects
behaviour that `collector.py` does not have: TOC entries that are dictionaries with
`title`, `src`, `level` and `index`, and a `file_size_in_bytes` field. `collector.py` has
neither. It also does no whitespace trimming, no author fallback and no de-duplication.
Its TOC is a flat list of first-child node values, and an NCX without `text` elements
gives the empty list `[]`, not `None`.

## Model

| member | source | states |
|---|---|---|
| Seqs.Filter | epub_meta/collector.py:51 | the filtered list keeps exactly the elements that pass the test: each result entry is in the input and passes, and every passing input entry is in the result |
| Seqs.FilterAppend | epub_meta/collector.py:51 | filtering a concatenation is the concatenation of the two filtered parts |
| Seqs.FilterEmpty | epub_meta/collector.py:51 | a filter yields nothing exactly when no element passes the test |
| Seqs.FirstIndex | epub_meta/collector.py:19-21 | returns the index of the first element that passes the test, or None only when none passes |
| Seqs.FirstSome | epub_meta/collector.py:113-117 | tries keys in order and returns the first Some; returns None only when every key gives None |
| Seqs.FirstSomeOfTwo | epub_meta/collector.py:114-117 | two fallbacks: the first result when it is a Some, else the second |
| Seqs.FirstSomeOfThree | epub_meta/collector.py:108-117 | three fallbacks tried in order, each only when all earlier ones gave None |
| Text.Contains | epub_meta/collector.py:148 | Python's substring `in`: true exactly when the substring occurs at some position |
| Text.RFind | epub_meta/collector.py:30 | `str.rfind` of one character: -1 exactly when the character is absent, otherwise its last position |
| Text.RStrip | epub_meta/collector.py:122 | `str.rstrip` of one character: a prefix of the input that does not end with the character, whose removed tail is made only of that character |
| Xml.Elements | epub_meta/collector.py:19 | the document-order walk contains only elements |
| Xml.ElementsPreOrder | epub_meta/collector.py:19 | the walk is depth-first pre-order: each element is followed at once by the walk of its own children, so it comes before all of its descendants |
| Xml.ElementsComplete | epub_meta/collector.py:19 | an element is in the walk exactly when it occurs somewhere in the forest, so getElementsByTagName misses nothing at any depth |
| Xml.ElementsAppend | epub_meta/collector.py:19 | the walk of two consecutive forests is the walk of the first followed by the walk of the second |
| Xml.WithTagAppend | epub_meta/collector.py:19 | selecting by tag distributes over concatenation |
| Xml.ElementsOne | epub_meta/collector.py:19 | the walk of a single node is the node itself when it is an element, followed by the walk of its children |
| Xml.ElementsByTagName | epub_meta/collector.py:19 | every result is an element with that tag from the document, and every such element is in the result |
| Xml.FirstChild | epub_meta/collector.py:47-48 | `firstChild`: None exactly for a node without children, otherwise the child at position 0 |
| Xml.Attr | epub_meta/collector.py:20 | `attributes[attr].value`: Some exactly when the node is an element with that attribute, and then its value; None where Python raises KeyError |
| Xml.NodeValue | epub_meta/collector.py:49 | `nodeValue`: `Some` of a text node's own data, and None exactly for an element |
| Xml.ChildValues | epub_meta/collector.py:51 | the list comprehension over elements that have a first child: no longer than the element list, each entry is the first-child value of such an element, and every such element at any depth contributes its value (one entry per element, in document order, follows from ChildValuesOne and ChildValuesAppend) |
| Xml.ChildValuesOne | epub_meta/collector.py:51 | the comprehension over one node is its own first-child value, when it is a tagged element with a first child, followed by the comprehension over its children; with ChildValuesAppend this fixes every entry, its multiplicity and its position |
| Seqs.MapFilter | epub_meta/collector.py:51 | a filtered comprehension has an entry for every element that passes the filter, and each entry comes from such an element |
| Xml.ChildValuesAppend | epub_meta/collector.py:51 | the comprehension over two consecutive forests is the concatenation of the two comprehensions |
| PosixPath.Splitext | epub_meta/collector.py:30 | the root followed by the extension is the whole path |
| PosixPath.SplitextExtension | epub_meta/collector.py:30 | the extension is non-empty exactly when the last component has a dot with a non-dot character before it, and then it starts at the last such dot |
| PosixPath.Dirname | epub_meta/collector.py:122 | a prefix of the path; empty exactly when the path has no `/`; otherwise everything up to the last `/`, with only the trailing slashes dropped, and none dropped when the head is all slashes |
| PosixPath.Join | epub_meta/collector.py:124 | ends with the second path; an absolute second path replaces the first; otherwise starts with the first path, and a `/` is added between them exactly when the first is non-empty and does not already end with one |
| PosixPath.DirnameAtRoot | epub_meta/collector.py:122 | the directory of `/name` is `/` |
| PosixPath.DirnameOfChild | epub_meta/collector.py:122 | the directory of `dir/name` is `dir` |
| PosixPath.ResolveAtRoot | epub_meta/collector.py:122-124 | a relative href in a package document at the archive root is read unchanged |
| PosixPath.ResolveInDirectory | epub_meta/collector.py:122-124 | a relative href in `dir/name` is read from `dir/href` |
| Archive.Read | epub_meta/collector.py:182 | `zf.read`: the entry's bytes, or MissingEntry naming the path |
| Archive.ReadXml | epub_meta/collector.py:182-183 | read then parse: succeeds exactly when the entry exists and parses; otherwise MissingEntry or MalformedXml |
| Query.FindTag | epub_meta/collector.py:17-21 | None exactly when no element of the tag has the attribute value; otherwise the first such element in document order |
| Query.FindImgTag | epub_meta/collector.py:24-33 | None exactly when no matching element has an `href` with an image extension; otherwise the first that does, with its href and its splitext extension, one of the five image extensions |
| Query.FindImgTagAt | epub_meta/collector.py:26-32 | when element i is the first to pass every test, find_img_tag returns its href and that path's splitext extension |
| Discover.DiscoverEpubVersion | epub_meta/collector.py:36-40 | the `version` of the first `package` element, None when there is no package element or it lacks the attribute |
| Discover.Lead | epub_meta/collector.py:47 | the first child of the first element with the tag; None exactly when there is no such element or it has no children, with no fallback to a later element |
| Discover.Attempt | epub_meta/collector.py:45-53 | one first-only `try` block: the first tagged element's first-child value when that element and child exist; otherwise (IndexError, or no child) the value is left as it was |
| Discover.DiscoverDcFirst | epub_meta/collector.py:43-65 | a truthy unprefixed value wins; a falsy one gives way to the `dc:` element's first child; with no `dc:` child the unprefixed value is kept, `''` included; any value comes from an element of one of the two tags |
| Discover.DiscoverDcAll | epub_meta/collector.py:43-65 | the unprefixed list when it is non-empty, else the `dc:` list; empty exactly when no element of either tag has a first child |
| Xml.ChildValuesEmpty | epub_meta/collector.py:51 | the comprehension is empty exactly when no element of the tag has a first child |
| Discover.DcFirstFromPrefixed | epub_meta/collector.py:54-60 | with no unprefixed element, a first-only field is the first-child value of the first `dc:` element |
| Discover.DcAllFromPrefixed | epub_meta/collector.py:54-62 | with no unprefixed element, a list field is the comprehension over the `dc:` elements |
| Cover.MetaCoverId | epub_meta/collector.py:107-111 | the non-empty `content` of the first `meta name="cover"`, or None when that element is missing, lacks `content`, or has it empty |
| Cover.CoverCandidates | epub_meta/collector.py:108-117 | the ids tried in order: the meta-named id (only when there is one), then `cover-image`, then `cover`, and nothing else |
| Cover.FindCoverPath | epub_meta/collector.py:105-117 | the result of the first candidate id that finds an image item; None only when none does |
| Cover.FindCoverPathChain | epub_meta/collector.py:108-117 | the candidate list agrees with the source's chain of `if not filepath` fallbacks, case by case |
| Cover.DiscoverCoverImage | epub_meta/collector.py:96-127 | (None, None) when no image is found; otherwise the base64 of the entry at the href resolved against the OPF's directory, with the extension; MissingEntry when that entry is absent; content and extension are both None or both set |
| Toc.NavEntries | epub_meta/collector.py:143-149 | each entry is the first-child value of an anchor that has a first child and an href containing `.html` or `.xhtml`, and every such anchor contributes its value |
| Toc.NavEntriesOne | epub_meta/collector.py:144-149 | the chapter links of one node are its own title, when it is a chapter-link anchor, followed by those of its children; with NavEntriesAppend this fixes every entry, its multiplicity and its position |
| Toc.NavEntriesAppend | epub_meta/collector.py:144-149 | the nav entries of two consecutive forests are concatenated in document order |
| Toc.NavHref | epub_meta/collector.py:134-136 | the `href` of the first `properties="nav"` item |
| Toc.NcxItem | epub_meta/collector.py:155-157 | the first item with id `ncx`, and only when there is none, the first item with id `ncxtoc` |
| Toc.NcxEntries | epub_meta/collector.py:166 | each NCX title is the first-child value of a `text` element that has a first child, every such element contributes its value, and the list is empty exactly when no `text` element has a child |
| Toc.NcxEntriesOne | epub_meta/collector.py:166 | the NCX titles of one node are its own title, when it is a `text` element with a first child, followed by those of its children, so titles come one per element in document order |
| Toc.NcxHref | epub_meta/collector.py:158-159 | the `href` of the NCX item; an `ncx` item without `href` does not fall back to `ncxtoc` |
| Toc.NavToc | epub_meta/collector.py:133-151 | no nav item gives None; an unreadable nav document is an error; an empty entry list gives None, so the NCX is tried |
| Toc.DiscoverToc | epub_meta/collector.py:130-168 | the nav entries when there are any; a nav read failure is fatal; otherwise the NCX `text` values, or None when there is no NCX href; an empty list comes only from an NCX |
| Collector.RootfilePath | epub_meta/collector.py:185 | the `full-path` of the first `rootfile`; NoRootfile when there is none, NoFullPath when the attribute is missing |
| Collector.PackagePath | epub_meta/collector.py:177-185 | UnknownFile for a non-zip file; otherwise a container read or parse error, or the rootfile path |
| Collector.Package | epub_meta/collector.py:185-189 | earlier failures are passed on unchanged; once the rootfile path is known, the result is exactly that of reading and parsing that entry |
| Collector.GetEpubOpfXml | epub_meta/collector.py:213-226 | UnknownFile for a non-zip file; container errors pass through unchanged; succeeds exactly when the rootfile path names an entry, and then returns its bytes; MissingEntry of that path otherwise |
| Collector.GetEpubMetadata | epub_meta/collector.py:171-210 | UnknownFile for a non-zip file; package errors pass through; once the package is read, a requested cover failure is raised first, then a requested TOC failure, and otherwise the call succeeds; cover and toc keys are present exactly when requested; the eight fields are the discoverers' results on the package document; success implies `get_epub_opf_xml` succeeds |
| Collector.FlagsOnlyAddKeys | epub_meta/collector.py:202-208 | asking for the cover or the TOC only adds keys: the same call without them succeeds and agrees on every other field |
| Scenarios.ProGitIdentifiers | epub_meta/tests/tests.py:129-130 | the two `dc:identifier` values of the Pro Git package come out in document order |
| Scenarios.ProGitVersion | epub_meta/tests/tests.py:32-33 | the Pro Git-shaped package reports EPUB version `2.0` |
| Scenarios.ProGitTitle | epub_meta/tests/tests.py:49-50 | the Pro Git-shaped package's title is `Pro Git`, found through the `dc:` fallback |
| Scenarios.ProGitSubject | epub_meta/tests/tests.py:145-146 | the Pro Git-shaped package's subject is `Software Development` |
| Scenarios.ContainerRootfile | epub_meta/collector.py:184-185 | the sample container names `content.opf` |
| Scenarios.ProGitMetadata | epub_meta/collector.py:171-200 | the whole pipeline on a Pro Git-shaped archive without cover or TOC gives the expected fields and no optional keys |
| Scenarios.EmptyTitleIsKept | epub_meta/collector.py:54-65 | a falsy `''` title survives when there is no `dc:title` to replace it |
| Scenarios.VersionFromFirstPackageOnly | epub_meta/collector.py:38 | only the first `package` in document order is consulted, even when a nested one has a version |
| Scenarios.SplitXhtml | epub_meta/collector.py:30 | `splitext("cover.xhtml")` is `("cover", ".xhtml")` |
| Scenarios.SplitJpg | epub_meta/collector.py:30 | `splitext("images/c.jpg")` is `("images/c", ".jpg")` |
| Scenarios.FirstCoverItem | epub_meta/collector.py:17-21 | find_tag returns the first `id="cover"` item even when it is not an image |
| Scenarios.CoverSkipsNonImageItem | epub_meta/collector.py:24-33 | find_img_tag passes over an xhtml item with the right id and returns the later jpg item |
| Scenarios.NcxEntriesOfSample | epub_meta/collector.py:165-166 | the NCX `text` values come out in document order across nesting levels |
| Scenarios.NcxTableOfContents | epub_meta/collector.py:130-168 | a package with an `ncx` item and no nav item gets its TOC from the NCX |

## Left out

- Zip decoding, XML parsing and base64 encoding are opaque. Zip decoding is replaced by
  the map of entries. Parsing and base64 are function parameters (`Libs`).
- `zipfile.is_zipfile` is reduced to the `isZip` flag. Errors raised by the `ZipFile`
  constructor on a file that passes the test are not modelled.
- `zf.read` fails only with `MissingEntry`, the `KeyError` for an absent member. Its other
  failures (a corrupt or encrypted member, a bad CRC) are not modelled, since the archive
  is already decoded into the map of entries.
- The Python defaults `read_cover_image=True, read_toc=True` (collector.py:171) are not
  modelled. `GetEpubMetadata` takes both flags explicitly, so the default call is
  `GetEpubMetadata(f, libs, true, true)`.
- The `odict` class (collector.py:9-14) is replaced by the `Metadata` datatype. Attribute
  access on it is field access.
- `runner.py` and `setup.py` are command-line and packaging code and are not modelled.
- Xml.ElementsByTagName: minidom's `*` wildcard, which selects every element, is not
  modelled; the tag is always compared literally, because every call in collector.py
  passes a literal tag name (`package`, `meta`, `item`, `rootfile`, `a`, `text` and the
  Dublin Core names).
- Query.FindTag and Query.FindImgTag inherit this: a `*` tag name finds nothing in the
  model, where the Python helpers would search every element.
- `os.path` is modelled for POSIX only. The Windows `ntpath` variants are not modelled.
- `__discover_dc` takes a `first_only` flag, whose two settings return different Python
  types. It is modelled as two functions, `DiscoverDcFirst` and `DiscoverDcAll`.
- Features the code lacks are not modelled:
  - TOC entries with `level`, `index` and `src`
  - `file_size_in_bytes`
  - whitespace trimming
  - author fallback pages
  - author de-duplication

  The test suite expects the first two (tests.py:173-235). `collector.py` implements
  none of them.
- The discoverers DiscoverTitle, DiscoverLanguage, DiscoverAuthors, DiscoverPublisher,
  DiscoverPublicationDate, DiscoverIdentifiers and DiscoverSubject (collector.py:68-94)
  are one-line wrappers. Their contracts are those of `DiscoverDcFirst` and
  `DiscoverDcAll` for the fixed names.
