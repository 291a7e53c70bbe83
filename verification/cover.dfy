/** `_discover_cover_image`: three strategies for the cover's manifest item, then a read. */
module Cover {
  import opened Wrappers
  import opened Seqs
  import opened Xml
  import opened Archive
  import opened Query
  import opened PosixPath

  /** The `(content, extension)` pair: base64 of the image bytes and its extension, or
      `(None, None)` when no strategy finds an image. */
  datatype CoverImage = CoverImage(content: Option<Bytes>, extension: Option<string>)

  /** The item id named by `<meta name="cover" content="...">`: the `content` of the FIRST
      such meta element, when present and not empty. */
  function MetaCoverId(opf: Document): (r: Option<string>)
    ensures r.Some? <==>
      FindTag(opf, "meta", "name", "cover").Some? &&
      "content" in FindTag(opf, "meta", "name", "cover").value.attrs &&
      FindTag(opf, "meta", "name", "cover").value.attrs["content"] != ""
    ensures r.Some? ==> HasAttr(FindTag(opf, "meta", "name", "cover").value, "content", r.value)
  {
    match FindTag(opf, "meta", "name", "cover")
    case None => None
    case Some(tag) =>
      match Attr(tag, "content")
      case Some(id) => if id != "" then Some(id) else None
      case None => None
  }

  /** The item ids tried for the cover, in priority order. */
  function CoverCandidates(opf: Document): (r: seq<string>)
    ensures |r| >= 2 && r[|r| - 2..] == ["cover-image", "cover"]
    ensures MetaCoverId(opf).Some? <==> |r| == 3
    ensures MetaCoverId(opf).Some? ==> r[0] == MetaCoverId(opf).value
    ensures MetaCoverId(opf).None? ==> |r| == 2
  {
    match MetaCoverId(opf)
    case Some(id) => [id, "cover-image", "cover"]
    case None => ["cover-image", "cover"]
  }

  /** The three strategies, first success wins: the meta-named id, then `cover-image`,
      then `cover`. */
  function FindCoverPath(opf: Document): (r: Option<ImageRef>)
    ensures var ids := CoverCandidates(opf);
      r.None? <==> forall k :: 0 <= k < |ids| ==> ItemImage(opf)(ids[k]).None?
    ensures var ids := CoverCandidates(opf);
      r.Some? ==> exists k :: 0 <= k < |ids| && r == ItemImage(opf)(ids[k])
                              && forall j :: 0 <= j < k ==> ItemImage(opf)(ids[j]).None?
  {
    FirstSome(CoverCandidates(opf), ItemImage(opf))
  }

  /** The image lookup by manifest item id that every strategy performs:
      `find_img_tag(opf, 'item', 'id', id)`. */
  function ItemImage(opf: Document): (r: string -> Option<ImageRef>) {
    (id: string) => FindImgTag(opf, "item", "id", id)
  }

  /** The candidate list is the source's chain of `if not filepath:` fallbacks. */
  lemma FindCoverPathChain(opf: Document)
    ensures var byMeta := match MetaCoverId(opf)
              case Some(id) => FindImgTag(opf, "item", "id", id)
              case None => None;
      && (byMeta.Some? ==> FindCoverPath(opf) == byMeta)
      && (byMeta.None? && FindImgTag(opf, "item", "id", "cover-image").Some? ==>
            FindCoverPath(opf) == FindImgTag(opf, "item", "id", "cover-image"))
      && (byMeta.None? && FindImgTag(opf, "item", "id", "cover-image").None? ==>
            FindCoverPath(opf) == FindImgTag(opf, "item", "id", "cover"))
  {
    match MetaCoverId(opf)
    case Some(id) => FirstSomeOfThree(id, "cover-image", "cover", ItemImage(opf));
    case None => FirstSomeOfTwo("cover-image", "cover", ItemImage(opf));
  }

  /** `_discover_cover_image(zf, opf, opfPath)`: the cover found by `FindCoverPath`, read
      relative to the package document's directory and base64-encoded. A cover that is
      named but missing from the archive is an error. */
  function DiscoverCoverImage(entries: map<string, Bytes>, libs: Libs, opf: Document, opfPath: string): (r: Result<CoverImage, Error>)
    ensures FindCoverPath(opf).None? ==> r == Success(CoverImage(None, None))
    ensures FindCoverPath(opf).Some? ==>
      var img := FindCoverPath(opf).value;
      var full := Resolve(opfPath, img.path);
      && (full in entries ==> r == Success(CoverImage(Some(libs.base64(entries[full])), Some(img.ext))))
      && (full !in entries ==> r == Failure(MissingEntry(full)))
    ensures r.Success? ==> (r.value.content.None? <==> r.value.extension.None?)
    ensures r.Success? && r.value.extension.Some? ==> r.value.extension.value in ImageExtensions
  {
    match FindCoverPath(opf)
    case None => Success(CoverImage(None, None))
    case Some(img) =>
      var bytes :- Read(entries, Resolve(opfPath, img.path));
      Success(CoverImage(Some(libs.base64(bytes)), Some(img.ext)))
  }
}
