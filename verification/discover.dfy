/**
  The field discoverers of the package document: the `version` attribute, and the Dublin
  Core elements of section 2.2 of Open Packaging Format 2.0.1 looked up first without and
  then with the `dc:` prefix.
 */
module Discover {
  import opened Wrappers
  import opened Seqs
  import opened Xml

  /** Python truthiness of a `str` or `None` value: `None` and `''` are falsy. */
  predicate Truthy(v: Option<string>) {
    v.Some? && v.value != ""
  }

  /** `_discover_epub_version`: the `version` attribute of the first `package` element;
      `None` when there is no `package` element (IndexError) or it has no `version`
      (KeyError). */
  function DiscoverEpubVersion(opf: Document): (r: Option<string>)
    ensures var packages := ElementsByTagName(opf, "package");
      forall v :: r == Some(v) <==> |packages| > 0 && HasAttr(packages[0], "version", v)
  {
    var packages := ElementsByTagName(opf, "package");
    if |packages| == 0 then None else Attr(packages[0], "version")
  }

  /** The first child of the first `tag` element; `None` when there is no such element
      or it has no children. */
  function Lead(opf: Document, tag: string): (r: Option<Node>)
    ensures r.Some? ==> exists e :: e in ElementsByTagName(opf, tag) && FirstChild(e) == r
    // only the first element counts: no fallback to a later element that has a child
    ensures var els := ElementsByTagName(opf, tag);
      r.Some? <==> |els| > 0 && HasFirstChild(els[0])
    ensures var els := ElementsByTagName(opf, tag);
      r.Some? ==> r.value == els[0].children[0]
  {
    var els := ElementsByTagName(opf, tag);
    if |els| == 0 then None else FirstChild(els[0])
  }

  /** The value one first-only `try` block leaves behind, starting from `value`: the
      node value of `Lead(opf, tag)` if it exists, else `value` untouched. */
  function Attempt(opf: Document, tag: string, value: Option<string>): (r: Option<string>)
    // the first element's first child, when both exist, replaces the value
    ensures var els := ElementsByTagName(opf, tag);
      |els| > 0 && HasFirstChild(els[0]) ==> r == FirstChildValue(els[0])
    // an IndexError, or a first element without children, leaves it untouched
    ensures var els := ElementsByTagName(opf, tag);
      !(|els| > 0 && HasFirstChild(els[0])) ==> r == value
  {
    match Lead(opf, tag)
    case Some(c) => NodeValue(c)
    case None => value
  }

  /** `__discover_dc(opf, name, first_only=True)`. */
  function DiscoverDcFirst(opf: Document, name: string): (r: Option<string>)
    // a truthy unqualified value is returned unchanged, whatever the `dc:` elements hold
    ensures Lead(opf, name).Some? && Truthy(NodeValue(Lead(opf, name).value)) ==>
      r == NodeValue(Lead(opf, name).value)
    // a falsy unqualified value gives way to the first `dc:` element's first child
    ensures !Truthy(Attempt(opf, name, None)) && Lead(opf, "dc:" + name).Some? ==>
      r == NodeValue(Lead(opf, "dc:" + name).value)
    // ... and survives, `''` included, when there is no such child
    ensures Lead(opf, "dc:" + name).None? ==> r == Attempt(opf, name, None)
    // no value at all unless one of the two tags has an element with a first child
    ensures r.Some? ==> Lead(opf, name).Some? || Lead(opf, "dc:" + name).Some?
    ensures r.Some? ==> exists e :: (e in ElementsByTagName(opf, name) || e in ElementsByTagName(opf, "dc:" + name))
                                    && FirstChildValue(e) == r
  {
    var plain := Attempt(opf, name, None);
    if Truthy(plain) then plain else Attempt(opf, "dc:" + name, plain)
  }

  /** `__discover_dc(opf, name, first_only=False)`: the first-child values of all `name`
      elements; when there are none, those of all `dc:name` elements. Always a list. */
  function DiscoverDcAll(opf: Document, name: string): (r: seq<Option<string>>)
    ensures |ChildValues(opf, name)| > 0 ==> r == ChildValues(opf, name)
    ensures |ChildValues(opf, name)| == 0 ==> r == ChildValues(opf, "dc:" + name)
    ensures |r| == 0 <==>
      (forall e :: e in ElementsByTagName(opf, name) ==> !HasFirstChild(e)) &&
      (forall e :: e in ElementsByTagName(opf, "dc:" + name) ==> !HasFirstChild(e))
  {
    ChildValuesEmpty(opf, name);
    ChildValuesEmpty(opf, "dc:" + name);
    var plain := ChildValues(opf, name);
    if |plain| > 0 then plain else ChildValues(opf, "dc:" + name)
  }

  /** With no unprefixed element, a first-only field is the first `dc:` element's first
      child value. */
  lemma DcFirstFromPrefixed(opf: Document, name: string)
    requires ElementsByTagName(opf, name) == []
    requires ElementsByTagName(opf, "dc:" + name) != []
    ensures DiscoverDcFirst(opf, name) == FirstChildValue(ElementsByTagName(opf, "dc:" + name)[0])
  {
  }

  /** With no unprefixed element, a list field is the `dc:` elements' comprehension. */
  lemma DcAllFromPrefixed(opf: Document, name: string, els: seq<Node>)
    requires ElementsByTagName(opf, name) == []
    requires ElementsByTagName(opf, "dc:" + name) == els
    ensures DiscoverDcAll(opf, name) == Map(Filter(els, HasFirstChild), FirstChildValue)
  {
    assert ChildValues(opf, name) == [];
  }

  function DiscoverTitle(opf: Document): Option<string> {
    DiscoverDcFirst(opf, "title")
  }

  function DiscoverLanguage(opf: Document): Option<string> {
    DiscoverDcFirst(opf, "language")
  }

  function DiscoverAuthors(opf: Document): seq<Option<string>> {
    DiscoverDcAll(opf, "creator")
  }

  function DiscoverPublisher(opf: Document): Option<string> {
    DiscoverDcFirst(opf, "publisher")
  }

  function DiscoverPublicationDate(opf: Document): Option<string> {
    DiscoverDcFirst(opf, "date")
  }

  /** ISBN-10, ISBN-13, UUIDs and the like, in document order. */
  function DiscoverIdentifiers(opf: Document): seq<Option<string>> {
    DiscoverDcAll(opf, "identifier")
  }

  function DiscoverSubject(opf: Document): Option<string> {
    DiscoverDcFirst(opf, "subject")
  }
}
