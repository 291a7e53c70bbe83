/**
  The three `os.path` functions the collector uses, with the POSIX semantics of
  Python's `posixpath` (separator `/`, extension separator `.`).
 */
module PosixPath {
  import opened Text

  /** The pair `(root, ext)` that `os.path.splitext` returns. */
  datatype Split = Split(root: string, ext: string)

  /** Index `d` starts the extension of `p`: it holds the last dot of the last path
      component, and that component has a character other than a dot before it. */
  ghost predicate ExtensionAt(p: string, d: int) {
    && 0 <= d < |p|
    && p[d] == '.'
    && (forall k :: d < k < |p| ==> p[k] != '.' && p[k] != '/')
    && exists k :: 0 <= k < d && p[k] != '.' && forall m :: k <= m < d ==> p[m] != '/'
  }

  /** `os.path.splitext(p)`: the extension is everything from the last dot of the last
      component, unless that component is only dots before it (`.bashrc`, `..`). */
  function Splitext(p: string): (r: Split)
    ensures r.root + r.ext == p
  {
    var sepIndex := RFind(p, '/');
    var dotIndex := RFind(p, '.');
    if dotIndex > sepIndex && exists k :: sepIndex < k < dotIndex && p[k] != '.' then
      Split(p[..dotIndex], p[dotIndex..])
    else
      Split(p, "")
  }

  /** The extension `Splitext` splits off is exactly the one `ExtensionAt` describes: there
      is one precisely when some index starts an extension, and then the root ends there. */
  lemma SplitextExtension(p: string)
    ensures Splitext(p).ext != "" <==> exists d :: ExtensionAt(p, d)
    ensures Splitext(p).ext != "" ==> ExtensionAt(p, |Splitext(p).root|)
  {
    var sepIndex := RFind(p, '/');
    var dotIndex := RFind(p, '.');
    if dotIndex > sepIndex && exists k :: sepIndex < k < dotIndex && p[k] != '.' {
      assert ExtensionAt(p, dotIndex);
    }
  }

  /** `os.path.dirname(p)`: everything before the last `/`, without trailing slashes
      unless the head is made of slashes only. */
  function Dirname(p: string): (r: string)
    ensures StartsWith(p, r)
    ensures '/' !in p ==> r == ""
    ensures '/' in p ==> r != ""
    // only the slashes that end the head are dropped
    ensures '/' in p ==> |r| <= RFind(p, '/') + 1 && AllChar(p[|r|..RFind(p, '/') + 1], '/')
    // nothing is dropped from a head made of slashes only; any other result ends in a name
    ensures AllChar(r, '/') ==> r == p[..RFind(p, '/') + 1]
    ensures !AllChar(r, '/') ==> r[|r| - 1] != '/'
  {
    var head := p[..RFind(p, '/') + 1];
    if head != "" && !AllChar(head, '/') then RStrip(head, '/') else head
  }

  /** `os.path.join(a, b)`: an absolute `b` replaces `a`; otherwise `b` is appended to
      `a` with exactly one separator between them when `a` is not empty. */
  function Join(a: string, b: string): (r: string)
    ensures EndsWith(r, b)
    ensures StartsWith(b, "/") ==> r == b
    ensures !StartsWith(b, "/") ==> StartsWith(r, a) && |r| <= |a| + 1 + |b|
    ensures !StartsWith(b, "/") && a != "" ==> EndsWith(r[..|r| - |b|], "/")
    // the separator is added only when `a` does not already end with one
    ensures !StartsWith(b, "/") ==> |r| == |a| + |b| + (if a == "" || EndsWith(a, "/") then 0 else 1)
  {
    if StartsWith(b, "/") then b
    else if a == "" || EndsWith(a, "/") then a + b
    else a + "/" + b
  }

  /** The archive path of `href`, a link written relative to the document at `docPath`:
      `os.path.join(os.path.dirname(docPath), href)`. */
  function Resolve(docPath: string, href: string): (r: string) {
    Join(Dirname(docPath), href)
  }

  /** The directory of `dir/name` is `dir`. */
  lemma DirnameOfChild(dir: string, name: string)
    requires dir != "" && dir[|dir| - 1] != '/'
    requires '/' !in name
    ensures Dirname(dir + "/" + name) == dir
  {
    var p := dir + "/" + name;
    assert p[|dir|] == '/';
    assert forall k :: |dir| < k < |p| ==> p[k] == name[k - |dir| - 1];
    var i := RFind(p, '/');
    assert i == |dir|;
    var head := p[..i + 1];
    assert head == dir + "/";
    assert head[|dir| - 1] != '/';
    var r := RStrip(head, '/');
    assert |r| == |dir|;
  }

  /** The directory of a name directly under the root is the root itself. */
  lemma DirnameAtRoot(name: string)
    requires '/' !in name
    ensures Dirname("/" + name) == "/"
  {
  }

  /** A relative link in a package document at the archive root is read as written. */
  lemma ResolveAtRoot(docPath: string, href: string)
    requires '/' !in docPath
    requires !StartsWith(href, "/")
    ensures Resolve(docPath, href) == href
  {
  }

  /** A relative link in a package document `dir/name` is read from `dir/href`. */
  lemma ResolveInDirectory(dir: string, name: string, href: string)
    requires dir != "" && dir[|dir| - 1] != '/'
    requires '/' !in name
    requires !StartsWith(href, "/")
    ensures Resolve(dir + "/" + name, href) == dir + "/" + href
  {
    DirnameOfChild(dir, name);
  }
}
