/** `find_tag` and `find_img_tag`: first-match searches over `getElementsByTagName`. */
module Query {
  import opened Wrappers
  import opened Seqs
  import opened Text
  import opened Xml
  import opened PosixPath

  /** The extensions `find_img_tag` accepts, compared literally (case-sensitive, with the dot). */
  const ImageExtensions: seq<string> := [".gif", ".jpg", ".jpeg", ".png", ".svg"]

  /** The `(filepath, file_extension)` pair `find_img_tag` returns when it finds an image. */
  datatype ImageRef = ImageRef(path: string, ext: string)

  /** Position `i` of `els` holds the first element whose `attr` equals `value`. */
  ghost predicate FirstWithAttrAt(els: seq<Node>, attr: string, value: string, i: int) {
    0 <= i < |els| && HasAttr(els[i], attr, value) && forall j :: 0 <= j < i ==> !HasAttr(els[j], attr, value)
  }

  /** `find_tag(doc, tagName, attr, value)`: the first `tagName` element, in document
      order, whose attribute `attr` is exactly `value`. */
  function FindTag(doc: Document, tagName: string, attr: string, value: string): (r: Option<Node>)
    ensures var els := ElementsByTagName(doc, tagName);
      r.None? <==> forall i :: 0 <= i < |els| ==> !HasAttr(els[i], attr, value)
    ensures var els := ElementsByTagName(doc, tagName);
      r.Some? ==> HasTag(r.value, tagName) && exists i :: FirstWithAttrAt(els, attr, value, i) && els[i] == r.value
  {
    var els := ElementsByTagName(doc, tagName);
    match FirstIndex(els, (e: Node) => HasAttr(e, attr, value))
    case None => None
    case Some(i) =>
      assert FirstWithAttrAt(els, attr, value, i);
      Some(els[i])
  }

  /** `e` passes every test of `find_img_tag`: `attr` is `value`, and it has an `href`
      whose `splitext` extension is one of `ImageExtensions`. */
  predicate IsImageElement(e: Node, attr: string, value: string) {
    HasAttr(e, attr, value) && "href" in e.attrs && Splitext(e.attrs["href"]).ext in ImageExtensions
  }

  ghost predicate FirstImageAt(els: seq<Node>, attr: string, value: string, i: int) {
    0 <= i < |els| && IsImageElement(els[i], attr, value)
    && forall j :: 0 <= j < i ==> !IsImageElement(els[j], attr, value)
  }

  /** `find_img_tag(doc, tagName, attr, value)`: like `FindTag`, but an element that
      matches `attr` without an image `href` is skipped and the search goes on. */
  function FindImgTag(doc: Document, tagName: string, attr: string, value: string): (r: Option<ImageRef>)
    ensures var els := ElementsByTagName(doc, tagName);
      r.None? <==> forall i :: 0 <= i < |els| ==> !IsImageElement(els[i], attr, value)
    ensures var els := ElementsByTagName(doc, tagName);
      r.Some? ==> exists i :: FirstImageAt(els, attr, value, i) && els[i].attrs["href"] == r.value.path
    ensures r.Some? ==> r.value.ext in ImageExtensions && r.value.ext == Splitext(r.value.path).ext
    ensures r.Some? ==> EndsWith(r.value.path, r.value.ext) && r.value.path != ""
  {
    var els := ElementsByTagName(doc, tagName);
    match FirstIndex(els, (e: Node) => IsImageElement(e, attr, value))
    case None => None
    case Some(i) =>
      assert FirstImageAt(els, attr, value, i);
      var path := els[i].attrs["href"];
      var split := Splitext(path);
      assert split.ext in ImageExtensions;
      assert |split.ext| > 0;
      assert path == split.root + split.ext;
      assert path[|path| - |split.ext|..] == split.ext;
      Some(ImageRef(path, split.ext))
  }

  /** The first image element decides: whenever element `i` passes every test and none
      before it does, `find_img_tag` returns its `href` and that path's extension. */
  lemma FindImgTagAt(doc: Document, tagName: string, attr: string, value: string, i: nat)
    requires FirstImageAt(ElementsByTagName(doc, tagName), attr, value, i)
    ensures var path := ElementsByTagName(doc, tagName)[i].attrs["href"];
      FindImgTag(doc, tagName, attr, value) == Some(ImageRef(path, Splitext(path).ext))
  {
    var els := ElementsByTagName(doc, tagName);
    var r := FindImgTag(doc, tagName, attr, value);
    assert r.Some?;
    var j :| FirstImageAt(els, attr, value, j) && els[j].attrs["href"] == r.value.path;
    assert j == i;
  }
}
