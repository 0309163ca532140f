/** Short runs of the parser and the tree, stated for every choice of
    directory and file name rather than for fixed strings. */
module Scenarios {
  import opened Wrappers
  import opened Paths
  import opened Nodes
  import opened Trees
  import opened LineParse

  /** Parses `line` and inserts the result; lines that fail to parse and
      insertions that panic leave the tree unchanged. */
  function AddLine(t: Tree, line: string): Tree {
    match ParseLine(line)
    case None => t
    case Some(n) =>
      match Insert(t, n)
      case Some(t') => t'
      case None => t
  }

  /** A plain component: non-empty, without a separator, and not ".". */
  predicate Plain(c: string) {
    c != "" && c != "." && Sep !in c
  }

  /** A one-component line is a node at depth 1 named after the line. */
  lemma {:induction false} ParseOneComponent(dir: string)
    requires Plain(dir)
    ensures ParseLine(dir).Some?
    ensures var n := ParseLine(dir).value;
      n.depth == 1 && n.name == dir && n.path == dir && n.children == []
  {
    SplitNoSep(dir);
    assert Components(dir) == Some([dir]);
  }

  /** A two-component line is a node at depth 2 named after its second
      component, with the line as its path. */
  lemma {:induction false} ParseTwoComponents(dir: string, file: string)
    requires Plain(dir) && Plain(file)
    ensures ParseLine(dir + "/" + file).Some?
    ensures var n := ParseLine(dir + "/" + file).value;
      n.depth == 2 && n.name == file && n.path == dir + "/" + file && n.children == []
  {
    SplitPair(dir, file);
    assert Components(dir + "/" + file) == Some([dir, file]);
    assert Join([dir, file]) == dir + [Sep] + file;
  }

  /** A directory line with a trailing "/" is one node at depth 1, not two
      components. */
  lemma {:induction false} TrailingSlashLine(dir: string)
    requires Plain(dir)
    ensures ParseLine(dir + "/").Some?
    ensures var n := ParseLine(dir + "/").value;
      n.depth == 1 && n.name == dir && n.path == dir
      && (n.kind == Directory <==> '.' !in dir)
  {
    SplitPair(dir, "");
    assert dir + "/" == dir + [Sep] + "";
    assert Components(dir + "/") == Some([dir]);
  }

  /** A file listed before its directory is dropped: the tree keeps only
      the synthetic root. */
  lemma {:induction false} OrphanIsDropped(dir: string, file: string)
    requires Plain(dir) && Plain(file)
    ensures AddLine(New(), dir + "/" + file) == Tree(Some(NewRoot()))
  {
    ParseTwoComponents(dir, file);
    var n := ParseLine(dir + "/" + file).value;
    SplitPair(dir, file);
    InsertDropsOrphan(NewRoot(), n);
  }

  /** A one-component line inserted into an empty tree becomes the
      root's only child. */
  lemma {:induction false} FirstLineUnderRoot(dir: string)
    requires Plain(dir)
    ensures ParseLine(dir).Some?
    ensures AddLine(New(), dir) == Tree(Some(NewRoot().(children := [ParseLine(dir).value])))
  {
    ParseOneComponent(dir);
    var d := ParseLine(dir).value;
    assert InsertAt(NewRoot(), d) == Attached(NewRoot().(children := [d]));
  }

  /** With the directory listed first, the file lands under it. */
  lemma {:induction false} ParentThenChild(dir: string, file: string)
    requires Plain(dir) && Plain(file)
    ensures ParseLine(dir).Some? && ParseLine(dir + "/" + file).Some?
    ensures var d := ParseLine(dir).value;
      var f := ParseLine(dir + "/" + file).value;
      AddLine(AddLine(New(), dir), dir + "/" + file)
        == Tree(Some(NewRoot().(children := [d.(children := [f])])))
  {
    FirstLineUnderRoot(dir);
    ParseOneComponent(dir);
    ParseTwoComponents(dir, file);
    SplitPair(dir, file);
    var d := ParseLine(dir).value;
    var f := ParseLine(dir + "/" + file).value;
    var root1 := NewRoot().(children := [d]);
    assert Split(f.path)[root1.depth] == dir;
    InsertEntersFirstMatch(root1, f, 0);
    assert InsertAt(d, f) == Attached(d.(children := [f]));
    var root2 := InsertAt(root1, f).node;
    assert root2.children == [d.(children := [f])];
    assert root2 == NewRoot().(children := [d.(children := [f])]);
  }

  /** The lookup by the file's name then finds it, with its full path at
      depth 2. */
  lemma {:induction false} ParentThenChildFound(dir: string, file: string)
    requires Plain(dir) && Plain(file)
    requires file != dir && file != "root"
    ensures ParseLine(dir + "/" + file).Some?
    ensures var f := ParseLine(dir + "/" + file).value;
      && FindByName(AddLine(AddLine(New(), dir), dir + "/" + file), file) == Some(f)
      && f.path == dir + "/" + file && f.depth == 2
  {
    ParentThenChild(dir, file);
    ParseOneComponent(dir);
    ParseTwoComponents(dir, file);
    var d := ParseLine(dir).value;
    var f := ParseLine(dir + "/" + file).value;
    var d' := d.(children := [f]);
    assert FindNode(f, file) == Some(f);
    assert FindForest([f], file) == Some(f);
    assert FindNode(d', file) == Some(f);
    assert FindForest([d'], file) == Some(f);
    assert FindNode(NewRoot().(children := [d']), file) == Some(f);
  }

  /** Inserting the same line twice yields two sibling nodes of the same
      name; there is no de-duplication. */
  lemma {:induction false} DuplicatesAreKept(dir: string)
    requires Plain(dir)
    ensures ParseLine(dir).Some?
    ensures var d := ParseLine(dir).value;
      AddLine(AddLine(New(), dir), dir) == Tree(Some(NewRoot().(children := [d, d])))
  {
    ParseOneComponent(dir);
    var d := ParseLine(dir).value;
    var t1 := AddLine(New(), dir);
    assert InsertAt(NewRoot(), d) == Attached(NewRoot().(children := [d]));
    assert t1 == Tree(Some(NewRoot().(children := [d])));
    assert InsertAt(t1.root.value, d) == Attached(NewRoot().(children := [d, d]));
  }
}
