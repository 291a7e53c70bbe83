/**
  An already-parsed XML document, as the DOM parser hands it to the collector, and the
  DOM queries the collector uses: `getElementsByTagName`, `attributes`, `firstChild`
  and `nodeValue`.
 */
module Xml {
  import opened Wrappers
  import opened Seqs

  /** A DOM node: an element (qualified tag name, attributes by qualified name, child
      nodes in document order) or character data. */
  datatype Node =
    | Element(tag: string, attrs: map<string, string>, children: seq<Node>)
    | Text(data: string)

  /** A parsed document: the top-level nodes of the document node. */
  datatype Document = Document(top: seq<Node>)

  /** Every element of the forest `nodes`, in document (depth-first pre-order) order. */
  function Elements(nodes: seq<Node>): (r: seq<Node>)
    ensures forall i :: 0 <= i < |r| ==> r[i].Element?
    decreases nodes
  {
    if |nodes| == 0 then []
    else
      var head := match nodes[0]
        case Element(_, _, cs) => [nodes[0]] + Elements(cs)
        case Text(_) => [];
      head + Elements(nodes[1..])
  }

  /** `e` occurs somewhere in the forest `nodes`, at any depth. */
  ghost predicate Within(e: Node, nodes: seq<Node>)
    decreases nodes
  {
    exists i :: 0 <= i < |nodes| && (nodes[i] == e || (nodes[i].Element? && Within(e, nodes[i].children)))
  }

  /** The pre-order walk visits every element of the forest and nothing else. */
  lemma {:induction false} ElementsComplete(e: Node, nodes: seq<Node>)
    ensures e in Elements(nodes) <==> e.Element? && Within(e, nodes)
    decreases nodes
  {
    if |nodes| == 0 {
    } else {
      var n := nodes[0];
      ElementsComplete(e, nodes[1..]);
      if n.Element? {
        ElementsComplete(e, n.children);
      }
      // the witnesses of Within for `nodes[1..]` are those of `nodes` shifted by one
      assert Within(e, nodes) <==> (n == e || (n.Element? && Within(e, n.children)) || Within(e, nodes[1..])) by {
        if Within(e, nodes) {
          var i :| 0 <= i < |nodes| && (nodes[i] == e || (nodes[i].Element? && Within(e, nodes[i].children)));
          if i > 0 {
            assert nodes[1..][i - 1] == nodes[i];
          }
        }
        if Within(e, nodes[1..]) {
          var i :| 0 <= i < |nodes[1..]| && (nodes[1..][i] == e || (nodes[1..][i].Element? && Within(e, nodes[1..][i].children)));
          assert nodes[i + 1] == nodes[1..][i];
        }
      }
    }
  }

  /** Position `i` of the walk `w` holds an element that is followed at once by the walk
      of its own children. */
  ghost predicate ChildrenFollow(w: seq<Node>, i: int) {
    && 0 <= i < |w|
    && w[i].Element?
    && var sub := Elements(w[i].children);
    && i + 1 + |sub| <= |w|
    && w[i + 1..i + 1 + |sub|] == sub
  }

  /** The walk is pre-order: every element is followed at once by the walk of its own
      children, so it comes before all of its descendants. */
  lemma {:induction false} ElementsPreOrder(nodes: seq<Node>, i: int)
    requires 0 <= i < |Elements(nodes)|
    ensures ChildrenFollow(Elements(nodes), i)
    decreases nodes
  {
    var n := nodes[0];
    var rest := Elements(nodes[1..]);
    if n.Text? {
      assert Elements(nodes) == rest;
      ElementsPreOrder(nodes[1..], i);
    } else {
      var head := [n] + Elements(n.children);
      assert Elements(nodes) == head + rest;
      if i < |head| {
        PreOrderInElement(n, i);
        FollowLeft(head, rest, i);
      } else {
        assert ChildrenFollow(rest, i - |head|) by {
          ElementsPreOrder(nodes[1..], i - |head|);
        }
        FollowRight(head, rest, i - |head|);
      }
    }
  }

  /** The same within the walk of one element: the element, then its children's walk. */
  lemma {:induction false} PreOrderInElement(n: Node, i: int)
    requires n.Element? && 0 <= i < 1 + |Elements(n.children)|
    ensures ChildrenFollow([n] + Elements(n.children), i)
    decreases n
  {
    if i == 0 {
      FollowFirst(n);
    } else {
      ElementsPreOrder(n.children, i - 1);
      FollowCons(n, Elements(n.children), i - 1);
    }
  }

  /** How `ChildrenFollow` survives the three ways `Elements` assembles a walk. */
  lemma FollowFirst(n: Node)
    requires n.Element?
    ensures ChildrenFollow([n] + Elements(n.children), 0)
  {
  }

  lemma FollowCons(n: Node, w: seq<Node>, i: int)
    requires ChildrenFollow(w, i)
    ensures ChildrenFollow([n] + w, i + 1)
  {
  }

  lemma FollowLeft(a: seq<Node>, b: seq<Node>, i: int)
    requires ChildrenFollow(a, i)
    ensures ChildrenFollow(a + b, i)
  {
  }

  lemma FollowRight(a: seq<Node>, b: seq<Node>, i: int)
    requires ChildrenFollow(b, i)
    ensures ChildrenFollow(a + b, |a| + i)
  {
  }

  /** The walk of a single node: the node itself when it is an element, then the walk of
      its children. */
  lemma ElementsOne(e: Node)
    ensures Elements([e]) == if e.Element? then [e] + Elements(e.children) else []
  {
  }

  /** The walk of two forests side by side is the walk of the first, then of the second. */
  lemma {:induction false} ElementsAppend(a: seq<Node>, b: seq<Node>)
    ensures Elements(a + b) == Elements(a) + Elements(b)
    decreases |a|
  {
    if |a| == 0 {
      assert a + b == b;
    } else {
      assert (a + b)[0] == a[0];
      assert (a + b)[1..] == a[1..] + b;
      ElementsAppend(a[1..], b);
    }
  }

  predicate HasTag(n: Node, name: string) {
    n.Element? && n.tag == name
  }

  /** `n` is an element whose attribute `attr` is present and equal to `value`. */
  predicate HasAttr(n: Node, attr: string, value: string) {
    n.Element? && attr in n.attrs && n.attrs[attr] == value
  }

  /** `n.attributes[attr].value`, or `None` where the lookup raises `KeyError`. */
  function Attr(n: Node, attr: string): (r: Option<string>)
    ensures r.Some? <==> n.Element? && attr in n.attrs
    ensures r.Some? ==> HasAttr(n, attr, r.value)
  {
    if n.Element? && attr in n.attrs then Some(n.attrs[attr]) else None
  }

  /** The elements of `els` named `name`, in their order. */
  function WithTag(els: seq<Node>, name: string): (r: seq<Node>)
    ensures |r| <= |els|
    ensures forall i :: 0 <= i < |r| ==> HasTag(r[i], name) && r[i] in els
    ensures forall i :: 0 <= i < |els| && HasTag(els[i], name) ==> els[i] in r
    decreases |els|
  {
    if |els| == 0 then []
    else (if HasTag(els[0], name) then [els[0]] else []) + WithTag(els[1..], name)
  }

  lemma {:induction false} WithTagAppend(a: seq<Node>, b: seq<Node>, name: string)
    ensures WithTag(a + b, name) == WithTag(a, name) + WithTag(b, name)
    decreases |a|
  {
    if |a| == 0 {
      assert a + b == b;
    } else {
      assert (a + b)[0] == a[0];
      assert (a + b)[1..] == a[1..] + b;
      WithTagAppend(a[1..], b, name);
    }
  }

  /** The document's `getElementsByTagName(name)`: the elements named `name`, in document order. */
  function ElementsByTagName(doc: Document, name: string): (r: seq<Node>)
    ensures forall i :: 0 <= i < |r| ==> HasTag(r[i], name) && r[i] in Elements(doc.top)
    ensures forall i :: 0 <= i < |Elements(doc.top)| && HasTag(Elements(doc.top)[i], name) ==> Elements(doc.top)[i] in r
  {
    WithTag(Elements(doc.top), name)
  }

  /** `n.firstChild`: the first child node, `None` for a childless node. */
  function FirstChild(n: Node): (r: Option<Node>)
    ensures r.Some? <==> n.Element? && |n.children| > 0
    ensures r.Some? ==> r.value == n.children[0]
  {
    if n.Element? && |n.children| > 0 then Some(n.children[0]) else None
  }

  /** `node.nodeValue`: the character data of a text node; `None` for an element. */
  function NodeValue(n: Node): (r: Option<string>)
    ensures r.Some? <==> n.Text?
    ensures n.Text? ==> r == Some(n.data)
  {
    match n
    case Text(data) => Some(data)
    case Element(_, _, _) => None
  }

  predicate HasFirstChild(n: Node) {
    FirstChild(n).Some?
  }

  /** `n.firstChild.nodeValue` for a node that has a first child. */
  function FirstChildValue(n: Node): (r: Option<string>) {
    match FirstChild(n)
    case Some(c) => NodeValue(c)
    case None => None
  }

  /** `[n.firstChild.nodeValue for n in doc.getElementsByTagName(name) if n.firstChild]`. */
  function ChildValues(doc: Document, name: string): (r: seq<Option<string>>)
    ensures |r| <= |ElementsByTagName(doc, name)|
    ensures forall i :: 0 <= i < |r| ==>
      exists e :: e in ElementsByTagName(doc, name) && HasFirstChild(e) && r[i] == FirstChildValue(e)
    ensures forall e :: e in ElementsByTagName(doc, name) && HasFirstChild(e) ==> FirstChildValue(e) in r
  {
    var withChild := Filter(ElementsByTagName(doc, name), HasFirstChild);
    assert forall i :: 0 <= i < |withChild| ==> withChild[i] in ElementsByTagName(doc, name) && HasFirstChild(withChild[i]);
    MapFilter(ElementsByTagName(doc, name), HasFirstChild, FirstChildValue);
    Map(withChild, FirstChildValue)
  }

  /** No value comes out of a tag exactly when none of its elements has a first child. */
  lemma ChildValuesEmpty(doc: Document, tag: string)
    ensures |ChildValues(doc, tag)| == 0 <==> forall e :: e in ElementsByTagName(doc, tag) ==> !HasFirstChild(e)
  {
    var els := ElementsByTagName(doc, tag);
    FilterEmpty(els, HasFirstChild);
    assert (forall e :: e in els ==> !HasFirstChild(e)) <==> (forall i :: 0 <= i < |els| ==> !HasFirstChild(els[i]));
  }

  /** The values of a single node: its own first-child value when it is a `name` element
      with a first child, then the values of its descendants in document order. Together
      with `ChildValuesAppend` this fixes every entry, its multiplicity and its position. */
  lemma ChildValuesOne(e: Node, name: string)
    ensures ChildValues(Document([e]), name) ==
      (if HasTag(e, name) && HasFirstChild(e) then [FirstChildValue(e)] else []) +
      (if e.Element? then ChildValues(Document(e.children), name) else [])
  {
    if e.Element? {
      WithTagOfOne(e, name);
      MapFilterPrepend(e, HasTag(e, name), WithTag(Elements(e.children), name), HasFirstChild, FirstChildValue);
    } else {
      ElementsOne(e);
    }
  }

  /** Selecting by tag in the walk of a single element. */
  lemma WithTagOfOne(e: Node, name: string)
    requires e.Element?
    ensures WithTag(Elements([e]), name) == (if HasTag(e, name) then [e] else []) + WithTag(Elements(e.children), name)
  {
    ElementsOne(e);
    assert WithTag([e], name) == if HasTag(e, name) then [e] else [];
    WithTagAppend([e], Elements(e.children), name);
  }

  /** The values of a document made of two consecutive forests are the values of the first
      forest followed by those of the second: one entry per element, in document order. */
  lemma ChildValuesAppend(a: seq<Node>, b: seq<Node>, name: string)
    ensures ChildValues(Document(a + b), name) == ChildValues(Document(a), name) + ChildValues(Document(b), name)
  {
    ElementsAppend(a, b);
    WithTagAppend(Elements(a), Elements(b), name);
    FilterAppend(WithTag(Elements(a), name), WithTag(Elements(b), name), HasFirstChild);
    MapAppend(Filter(WithTag(Elements(a), name), HasFirstChild), Filter(WithTag(Elements(b), name), HasFirstChild), FirstChildValue);
  }
}
