/** The path tree (`Tree` in `src/node.rs`): an optional synthetic root,
    descent-matching insertion and pre-order lookup by name. The Rust code
    mutates the tree in place; here every operation returns the new value. */
module Trees {
  import opened Wrappers
  import opened Paths
  import opened Nodes

  datatype Tree = Tree(root: Option<Node>)

  /** An empty tree: no root until the first insertion. */
  function New(): (t: Tree)
    ensures t.root.None?
  {
    Tree(None)
  }

  /** The root an insertion works on: the existing one, or a fresh
      synthetic root when the tree is still empty. */
  function RootOf(t: Tree): (r: Node)
    ensures t.root.Some? ==> r == t.root.value
    ensures t.root.None? ==> r == NewRoot()
  {
    match t.root
    case Some(root) => root
    case None => NewRoot()
  }

  /** A tree as insertions leave it: empty, or a well-formed tree under a
      root labelled like `NewRoot()`. */
  predicate ValidTree(t: Tree) {
    t.root.None? || (SameLabel(t.root.value, NewRoot()) && WellFormed(t.root.value))
  }

  // ---------------------------------------------------------------------
  // Insertion

  /** What one descent step ends in. `Attached` carries the cursor with the
      node placed somewhere below it; `Dropped` means no child matched the
      next path component, so nothing changes; `OutOfBounds` is the panic
      of indexing the split path past its end. */
  datatype Outcome = Attached(node: Node) | Dropped | OutOfBounds

  /** The index of the first node in `children` whose name is `name`. */
  function FirstMatch(children: seq<Node>, name: string): (i: Option<nat>)
    ensures i.Some? ==> i.value < |children| && children[i.value].name == name
    ensures i.Some? ==> forall j :: 0 <= j < i.value ==> children[j].name != name
    ensures i.None? <==> forall j :: 0 <= j < |children| ==> children[j].name != name
  {
    if |children| == 0 then None
    else if children[0].name == name then Some(0)
    else match FirstMatch(children[1..], name)
      case None => None
      case Some(k) => Some(k + 1)
  }

  /** `insert_recursive(cursor, child)`. A node one level below the cursor
      is appended to its children. Otherwise the component of `child.path`
      at index `cursor.depth` selects the first child of that name, and the
      insertion continues there; with no such child it is dropped. */
  function InsertAt(cursor: Node, child: Node): (o: Outcome)
    ensures o.Attached? ==> SameLabel(o.node, cursor)
    ensures child.depth == cursor.depth + 1 ==>
      o.Attached? && o.node.children == cursor.children + [child]
    ensures o.OutOfBounds? ==> child.depth != cursor.depth + 1
    ensures child.depth != cursor.depth + 1 && |Split(child.path)| <= cursor.depth ==>
      o.OutOfBounds?
    decreases cursor
  {
    if child.depth == cursor.depth + 1 then
      Attached(cursor.(children := cursor.children + [child]))
    else
      var parts := Split(child.path);
      if |parts| <= cursor.depth then OutOfBounds
      else
        match FirstMatch(cursor.children, parts[cursor.depth])
        case None => Dropped
        case Some(i) =>
          match InsertAt(cursor.children[i], child)
          case Attached(c) => Attached(cursor.(children := cursor.children[i := c]))
          case Dropped => Dropped
          case OutOfBounds => OutOfBounds
  }

  /** With no child named after the next component the node is dropped. */
  lemma InsertDropsOrphan(cursor: Node, child: Node)
    requires child.depth != cursor.depth + 1
    requires cursor.depth < |Split(child.path)|
    requires forall j :: 0 <= j < |cursor.children| ==>
      cursor.children[j].name != Split(child.path)[cursor.depth]
    ensures InsertAt(cursor, child) == Dropped
  {
  }

  /** The descent enters the first child, in list order, named after the
      next component: the outcome is that child's outcome, and on success
      only that child is replaced; earlier and later siblings are kept. */
  lemma InsertEntersFirstMatch(cursor: Node, child: Node, i: nat)
    requires child.depth != cursor.depth + 1
    requires cursor.depth < |Split(child.path)|
    requires i < |cursor.children|
    requires cursor.children[i].name == Split(child.path)[cursor.depth]
    requires forall j :: 0 <= j < i ==>
      cursor.children[j].name != Split(child.path)[cursor.depth]
    ensures InsertAt(cursor, child).Attached? <==> InsertAt(cursor.children[i], child).Attached?
    ensures InsertAt(cursor, child) == Dropped <==> InsertAt(cursor.children[i], child) == Dropped
    ensures InsertAt(cursor, child).Attached? ==>
      var r := InsertAt(cursor, child).node;
      && |r.children| == |cursor.children|
      && r.children[i] == InsertAt(cursor.children[i], child).node
      && forall j :: 0 <= j < |r.children| && j != i ==> r.children[j] == cursor.children[j]
  {
  }

  /** Insertion keeps every child exactly one level below its parent,
      provided the inserted subtree is itself well formed: appending only
      happens when the depths differ by one. */
  lemma {:induction false} InsertPreservesWellFormed(cursor: Node, child: Node)
    requires WellFormed(cursor) && WellFormed(child)
    ensures InsertAt(cursor, child).Attached? ==> WellFormed(InsertAt(cursor, child).node)
    decreases cursor
  {
    var o := InsertAt(cursor, child);
    if o.Attached? && child.depth != cursor.depth + 1 {
      var parts := Split(child.path);
      var i := FirstMatch(cursor.children, parts[cursor.depth]).value;
      var c := cursor.children[i];
      InsertPreservesWellFormed(c, child);
      var r := o.node;
      assert r.children == cursor.children[i := InsertAt(c, child).node];
      forall j | 0 <= j < |r.children|
        ensures r.children[j].depth == r.depth + 1 && WellFormed(r.children[j])
      {
        if j == i {
          assert SameLabel(r.children[j], c);
        }
      }
    }
  }

  /** A successful insertion adds exactly the names of the inserted
      subtree and loses none: for a childless node, exactly one node. */
  lemma {:induction false} InsertAddsSubtreeNames(cursor: Node, child: Node)
    ensures InsertAt(cursor, child).Attached? ==>
      NameBag(InsertAt(cursor, child).node) == NameBag(cursor) + NameBag(child)
    decreases cursor
  {
    var o := InsertAt(cursor, child);
    if o.Attached? {
      var r := o.node;
      if child.depth == cursor.depth + 1 {
        NameBagForestAppend(cursor.children, child);
      } else {
        var parts := Split(child.path);
        var i := FirstMatch(cursor.children, parts[cursor.depth]).value;
        var c := cursor.children[i];
        InsertAddsSubtreeNames(c, child);
        var c' := InsertAt(c, child).node;
        assert r.children == cursor.children[i := c'];
        NameBagForestGrow(cursor.children, i, c', NameBag(child));
      }
    }
  }

  /** A successful insertion leaves the inserted node reachable: it occurs
      in the pre-order of the result. */
  lemma {:induction false} InsertPlacesChild(cursor: Node, child: Node)
    ensures InsertAt(cursor, child).Attached? ==> child in PreOrder(InsertAt(cursor, child).node)
    decreases cursor
  {
    var o := InsertAt(cursor, child);
    if o.Attached? {
      var r := o.node;
      if child.depth == cursor.depth + 1 {
        var k := |cursor.children|;
        assert r.children[k] == child;
        PreOrderForestContains(r.children, k, child);
      } else {
        var parts := Split(child.path);
        var i := FirstMatch(cursor.children, parts[cursor.depth]).value;
        var c := cursor.children[i];
        InsertPlacesChild(c, child);
        assert r.children[i] == InsertAt(c, child).node;
        PreOrderForestContains(r.children, i, child);
      }
    }
  }

  /** The component index never runs past the end of the split path when
      the inserted node's path has as many components as its depth and the
      cursor sits above it in a well-formed tree. */
  lemma {:induction false} InsertStaysInBounds(cursor: Node, child: Node)
    requires WellFormed(cursor)
    requires cursor.depth < child.depth
    requires |Split(child.path)| == child.depth
    ensures !InsertAt(cursor, child).OutOfBounds?
    decreases cursor
  {
    if child.depth != cursor.depth + 1 {
      var parts := Split(child.path);
      match FirstMatch(cursor.children, parts[cursor.depth])
      case None =>
      case Some(i) =>
        InsertStaysInBounds(cursor.children[i], child);
    }
  }

  // ---------------------------------------------------------------------
  // Tree-level insertion

  /** `Tree::insert`: create the synthetic root on first use, then insert
      below it. A dropped node leaves the tree as it was (but with its
      root); `None` stands for the panic of an out-of-range component. */
  function Insert(t: Tree, child: Node): (r: Option<Tree>)
    ensures r.Some? ==> r.value.root.Some? && SameLabel(r.value.root.value, RootOf(t))
    ensures r.None? <==> InsertAt(RootOf(t), child).OutOfBounds?
    ensures InsertAt(RootOf(t), child).Attached? ==>
      r == Some(Tree(Some(InsertAt(RootOf(t), child).node)))
    ensures InsertAt(RootOf(t), child) == Dropped ==> r == Some(Tree(Some(RootOf(t))))
  {
    var root := RootOf(t);
    match InsertAt(root, child)
    case Attached(n) => Some(Tree(Some(n)))
    case Dropped => Some(Tree(Some(root)))
    case OutOfBounds => None
  }

  /** Inserting into an empty tree is inserting under `NewRoot()`; the
      result, if any, has a Directory root at depth 0. */
  lemma InsertIntoEmptyTree(child: Node)
    ensures Insert(New(), child) == Insert(Tree(Some(NewRoot())), child)
    ensures Insert(New(), child).Some? ==>
      var root := Insert(New(), child).value.root.value;
      root.kind == Directory && root.depth == 0 && root.name == "root" && root.path == "/"
  {
  }

  /** Insertion keeps a valid tree valid and leaves it non-empty. */
  lemma InsertKeepsTreeValid(t: Tree, child: Node)
    requires ValidTree(t) && WellFormed(child)
    ensures Insert(t, child).Some? ==>
      ValidTree(Insert(t, child).value) && Insert(t, child).value.root.Some?
  {
    InsertPreservesWellFormed(RootOf(t), child);
  }

  /** Insertion adds zero or one subtree: a dropped node leaves the root
      as it was, and an attached one adds exactly the names of the inserted
      subtree and is reachable from the root. */
  lemma InsertAddsAtMostOneSubtree(t: Tree, child: Node)
    ensures InsertAt(RootOf(t), child) == Dropped ==>
      Insert(t, child) == Some(Tree(Some(RootOf(t))))
    ensures InsertAt(RootOf(t), child).Attached? ==>
      && Insert(t, child).Some?
      && var root := Insert(t, child).value.root.value;
      && NameBag(root) == NameBag(RootOf(t)) + NameBag(child)
      && child in PreOrder(root)
  {
    InsertAddsSubtreeNames(RootOf(t), child);
    InsertPlacesChild(RootOf(t), child);
  }

  /** A node whose path has one component per level of depth, inserted
      into a valid tree, never makes the insertion panic. */
  lemma InsertConsistentNeverPanics(t: Tree, child: Node)
    requires ValidTree(t)
    requires child.depth >= 1 && |Split(child.path)| == child.depth
    ensures Insert(t, child).Some?
  {
    InsertStaysInBounds(RootOf(t), child);
  }

  // ---------------------------------------------------------------------
  // Lookup by name

  /** Reference for lookups: the first node of `s` named `name`. */
  function FirstNamed(s: seq<Node>, name: string): (r: Option<Node>)
    ensures r.Some? ==> r.value.name == name && exists i :: (0 <= i < |s| && s[i] == r.value
      && forall j :: 0 <= j < i ==> s[j].name != name)
    ensures r.None? <==> forall i :: 0 <= i < |s| ==> s[i].name != name
  {
    if |s| == 0 then None
    else if s[0].name == name then Some(s[0])
    else
      var r := FirstNamed(s[1..], name);
      assert forall i :: 1 <= i < |s| ==> s[i] == s[1..][i - 1];
      r
  }

  /** The first match of a concatenation is the first match of its front
      part if there is one, else that of its back part. */
  lemma {:induction false} FirstNamedAppend(a: seq<Node>, b: seq<Node>, name: string)
    ensures FirstNamed(a + b, name) ==
      if FirstNamed(a, name).Some? then FirstNamed(a, name) else FirstNamed(b, name)
  {
    if |a| > 0 {
      assert (a + b)[0] == a[0];
      assert (a + b)[1..] == a[1..] + b;
      FirstNamedAppend(a[1..], b, name);
    } else {
      assert a + b == b;
    }
  }

  /** `find_by_name_recursive`: the node itself if its name matches, else
      the first hit among its children's subtrees, tried in list order. */
  function FindNode(n: Node, name: string): (r: Option<Node>)
    ensures r.Some? ==> r.value.name == name
    decreases n
  {
    if n.name == name then Some(n) else FindForest(n.children, name)
  }

  /** The search loop over a list of sibling subtrees. */
  function FindForest(ns: seq<Node>, name: string): (r: Option<Node>)
    ensures r.Some? ==> r.value.name == name
    decreases ns
  {
    if |ns| == 0 then None
    else
      match FindNode(ns[0], name)
      case Some(m) => Some(m)
      case None => FindForest(ns[1..], name)
  }

  /** The search returns the first node in pre-order named `name`. */
  lemma {:induction false} FindNodeIsFirstInPreOrder(n: Node, name: string)
    ensures FindNode(n, name) == FirstNamed(PreOrder(n), name)
    decreases n
  {
    FindForestIsFirstInPreOrder(n.children, name);
    FirstNamedAppend([n], PreOrderForest(n.children), name);
  }

  lemma {:induction false} FindForestIsFirstInPreOrder(ns: seq<Node>, name: string)
    ensures FindForest(ns, name) == FirstNamed(PreOrderForest(ns), name)
    decreases ns
  {
    if |ns| > 0 {
      FindNodeIsFirstInPreOrder(ns[0], name);
      FindForestIsFirstInPreOrder(ns[1..], name);
      FirstNamedAppend(PreOrder(ns[0]), PreOrderForest(ns[1..]), name);
    }
  }

  /** Every node of the tree, in pre-order; none for an empty tree. */
  function AllNodes(t: Tree): (s: seq<Node>)
    ensures t.root.Some? ==> |s| >= 1 && s[0] == t.root.value
    ensures t.root.None? ==> s == []
  {
    if t.root.Some? then PreOrder(t.root.value) else []
  }

  /** `Tree::find_by_name`: nothing in an empty tree, else the pre-order
      search from the root. */
  function FindByName(t: Tree, name: string): (r: Option<Node>)
    ensures t.root.None? ==> r.None?
    ensures r.Some? ==> r.value.name == name
  {
    match t.root
    case None => None
    case Some(root) => FindNode(root, name)
  }

  /** A hit is the first node of the tree, in pre-order, named `name`;
      there is no hit exactly when no node of the tree has that name. */
  lemma FindByNameIsFirstMatch(t: Tree, name: string)
    ensures FindByName(t, name) == FirstNamed(AllNodes(t), name)
    ensures FindByName(t, name).Some? ==> exists i :: (0 <= i < |AllNodes(t)|
      && AllNodes(t)[i] == FindByName(t, name).value
      && forall j :: 0 <= j < i ==> AllNodes(t)[j].name != name)
    ensures FindByName(t, name).None? <==>
      forall i :: 0 <= i < |AllNodes(t)| ==> AllNodes(t)[i].name != name
  {
    if t.root.Some? {
      FindNodeIsFirstInPreOrder(t.root.value, name);
    }
  }
}
