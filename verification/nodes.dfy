/** The vertex of the path tree (`NodeType`, `NodeData` and `Node` in
    `src/node.rs`) with its three constructors, and the pre-order visit
    order that the name lookup follows. The console dump visits nodes in
    the same order but does not descend below File nodes. */
module Nodes {

  /** Whether a node stands for a file or a directory; the tag carries no
      payload and no structural decision depends on it. */
  datatype NodeKind = File | Directory

  /** The untrimmed input line a node was built from and its length. */
  datatype NodeData = NodeData(defaultPath: string, length: nat)

  /** A tree vertex. `children` is kept in insertion order and owned
      outright, so the value is a finite tree. */
  datatype Node = Node(
    kind: NodeKind,
    data: NodeData,
    depth: nat,
    path: string,
    name: string,
    children: seq<Node>)

  /** True when `a` and `b` agree on every field except `children`. */
  predicate SameLabel(a: Node, b: Node) {
    a.(children := b.children) == b
  }

  /** The synthetic root a tree creates on first insertion. */
  function NewRoot(): (r: Node)
    ensures r.kind == Directory && r.depth == 0
    ensures r.path == "/" && r.name == "root"
    ensures r.data == NodeData("/", 1)
    ensures r.children == []
  {
    Node(Directory, NodeData("/", 1), 0, "/", "root", [])
  }

  /** A file node with the given fields and no children. */
  function NewFile(data: NodeData, depth: nat, path: string, name: string): (r: Node)
    ensures r.kind == File
    ensures r.data == data && r.depth == depth && r.path == path && r.name == name
    ensures r.children == []
  {
    Node(File, data, depth, path, name, [])
  }

  /** A directory node with the given fields and no children. */
  function NewDirectory(data: NodeData, depth: nat, path: string, name: string): (r: Node)
    ensures r.kind == Directory
    ensures r.data == data && r.depth == depth && r.path == path && r.name == name
    ensures r.children == []
  {
    Node(Directory, data, depth, path, name, [])
  }

  /** Every child sits exactly one level below its parent, all the way
      down. */
  predicate WellFormed(n: Node) {
    forall i :: 0 <= i < |n.children| ==>
      n.children[i].depth == n.depth + 1 && WellFormed(n.children[i])
  }

  /** Pre-order: the node, then each child's whole subtree in list order. */
  function PreOrder(n: Node): (s: seq<Node>)
    ensures |s| >= 1 && s[0] == n
  {
    [n] + PreOrderForest(n.children)
  }

  /** The concatenated pre-orders of a list of sibling subtrees. */
  function PreOrderForest(ns: seq<Node>): seq<Node> {
    if |ns| == 0 then [] else PreOrder(ns[0]) + PreOrderForest(ns[1..])
  }

  /** The multiset of names of all nodes of a subtree. */
  function NameBag(n: Node): multiset<string> {
    multiset{n.name} + NameBagForest(n.children)
  }

  /** The multiset of names of all nodes of a list of sibling subtrees. */
  function NameBagForest(ns: seq<Node>): multiset<string> {
    if |ns| == 0 then multiset{} else NameBag(ns[0]) + NameBagForest(ns[1..])
  }

  /** A child appended to a list of siblings adds its subtree's names. */
  lemma {:induction false} NameBagForestAppend(ns: seq<Node>, x: Node)
    ensures NameBagForest(ns + [x]) == NameBagForest(ns) + NameBag(x)
  {
    if |ns| == 0 {
      assert ns + [x] == [x];
      assert [x][1..] == [];
    } else {
      assert (ns + [x])[0] == ns[0];
      assert (ns + [x])[1..] == ns[1..] + [x];
      NameBagForestAppend(ns[1..], x);
    }
  }

  /** Replacing one sibling by a subtree with `extra` more names adds
      exactly `extra` to the names of the siblings. */
  lemma {:induction false} NameBagForestGrow(ns: seq<Node>, i: nat, x: Node, extra: multiset<string>)
    requires i < |ns|
    requires NameBag(x) == NameBag(ns[i]) + extra
    ensures NameBagForest(ns[i := x]) == NameBagForest(ns) + extra
  {
    var ys := ns[i := x];
    if i == 0 {
      assert ys[1..] == ns[1..];
    } else {
      var tail := ns[1..];
      assert ys[0] == ns[0];
      assert ys[1..] == tail[i - 1 := x];
      assert tail[i - 1] == ns[i];
      NameBagForestGrow(tail, i - 1, x, extra);
    }
  }

  /** Every node of the `i`-th sibling's subtree is in the forest's
      pre-order. */
  lemma {:induction false} PreOrderForestContains(ns: seq<Node>, i: nat, m: Node)
    requires i < |ns|
    requires m in PreOrder(ns[i])
    ensures m in PreOrderForest(ns)
  {
    if i > 0 {
      PreOrderForestContains(ns[1..], i - 1, m);
    }
  }
}
