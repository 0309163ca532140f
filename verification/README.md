# rust-tree path tree, modelled in Dafny

This project models the core of `rust-tree`. The program reads slash-separated
paths, one per line, and builds a tree of file and directory nodes. It descends
from a synthetic root by matching each path component against child names. It
also looks nodes up by name with a pre-order depth-first search.

The Rust code changes the tree in place. Here the tree is an inductive value
(`Nodes.Node`, with an ordered `seq<Node>` of children), and every operation
is a pure function that returns the new value.

Files and modules:

- `wrappers.dfy` (`Wrappers`): `Option`, standing for Rust's `Option` and for
  "this call panics".
- `paths.dfy` (`Paths`): Rust's `str::split("/")` and `join("/")`. They are
  inverses of each other on the lists `split` can produce.
- `nodes.dfy` (`Nodes`): `NodeType`, `NodeData` and `Node` from
  `src/node.rs` and the three constructors. Also the well-formedness
  invariant (each child sits one level below its parent), the pre-order visit
  sequence and the multiset of names of a subtree.
- `trees.dfy` (`Trees`): `Tree`, `Tree::new`, `Tree::insert` with
  `insert_recursive`, and `Tree::find_by_name` with `find_by_name_recursive`.
  One descent step ends in an `Outcome`:
  - `Attached` (the node was placed),
  - `Dropped` (no child matched the next component, so the tree is unchanged),
  - `OutOfBounds` (the panic of `path[node.depth()]`).

  At tree level, `Insert` returns `None` for that panic.
- `lineparse.dfy` (`LineParse`): the block of `main` that turns one input
  line into a node (`src/main.rs:36-70`), as `ParseLine(line): Option<Node>`.
  It returns `None` exactly where the Rust code panics. It also has a
  reference description on the raw line: strip one leading `./`, then one
  trailing `/`.
- `scenarios.dfy` (`Scenarios`): short runs, stated for all plain component
  names. They cover an orphan being dropped, a parent followed by a child,
  duplicates being kept, and a trailing slash.

Behaviours of the code worth knowing, which the model reproduces:

- The line `/` does not fail. It splits to `["", ""]`, then drops the trailing
  `""`, which gives a directory at depth 1 with empty name and empty path. Only
  `""`, `"."` and `"./"` panic (`LineParse.ParseLineFailsExactly`).
- `depth` counts every remaining component, empty ones included: `a//b` has
  depth 3.
- Listing `src/node.rs` before `src` drops the file (`Scenarios.OrphanIsDropped`).
  Insertion needs every ancestor to be listed first.
- Insertion reports a drop to nobody. The model's `Outcome` makes the drop
  visible for stating properties, but `Trees.Insert` returns the tree with
  its root, otherwise unchanged, as the code does. On an empty tree the
  synthetic root created by the first insertion stays even when the node is
  dropped.
- A File node can hold children: the kind only decides how a node is
  printed, and insertion descends by name alone.

## Model

| member | source | states |
|---|---|---|
| Paths.Split | src/main.rs:37 | splitting yields at least one piece, one more than the separators in the string, and no piece holds a separator |
| Paths.Join | src/main.rs:60 | joining separator-free pieces puts exactly one separator between neighbours; `JoinSplit` and `SplitJoin` prove it inverse to `Split` |
| Paths.JoinSplit | src/main.rs:60 | joining the pieces of a split with "/" gives back the original string |
| Paths.SplitJoin | src/node.rs:284-286 | re-splitting a path joined from separator-free components gives back exactly those components |
| Nodes.NewRoot | src/node.rs:49-61 | the synthetic root is a Directory at depth 0 with path "/", name "root", line data ("/", 1) and no children |
| Nodes.NewFile | src/node.rs:63-72 | a file node keeps the given data, depth, path and name and starts with no children |
| Nodes.NewDirectory | src/node.rs:74-83 | a directory node keeps the given data, depth, path and name and starts with no children |
| Trees.New | src/node.rs:209-213 | a new tree has no root |
| Trees.FirstMatch | src/node.rs:289-290 | finds the first child in list order with the given name; none exactly when no child has it |
| Trees.InsertAt | src/node.rs:279-298 | a depth one below the cursor appends the node after the existing children; a too-short split path panics; the cursor's own fields never change |
| Trees.InsertDropsOrphan | src/node.rs:289-297 | when no child is named after the next path component, the node is dropped |
| Trees.InsertEntersFirstMatch | src/node.rs:284-295 | the descent goes into the first matching child; its outcome is that child's, and every other sibling is kept as it was |
| Trees.InsertPreservesWellFormed | src/node.rs:280-281 | insertion keeps every child exactly one level below its parent |
| Trees.InsertAddsSubtreeNames | src/node.rs:279-298 | a successful insertion adds exactly the inserted subtree's names and loses none |
| Trees.InsertPlacesChild | src/node.rs:280-292 | after a successful insertion the inserted node appears in the pre-order of the result |
| Trees.InsertStaysInBounds | src/node.rs:285-286 | if the path has one component per level of depth and the cursor is above the node in a well-formed tree, indexing never goes out of range |
| Trees.Insert | src/node.rs:226-236 | the root, existing or freshly created, is replaced by the descent's result when the node is attached and kept as it was when the node is dropped; the insertion panics exactly when the descent does |
| Trees.InsertIntoEmptyTree | src/node.rs:230-234 | inserting into an empty tree is inserting under `NewRoot()`, and the result's root is a Directory at depth 0 |
| Trees.InsertKeepsTreeValid | src/node.rs:226-236 | insertion keeps a tree valid (root labelled as the synthetic root, well formed) and leaves it non-empty |
| Trees.InsertAddsAtMostOneSubtree | src/node.rs:226-236 | a dropped node leaves the root unchanged; an attached node adds exactly the inserted subtree's names to the root and is reachable from it |
| Trees.InsertConsistentNeverPanics | src/node.rs:285-286 | a node whose path has one component per level of depth never makes insertion into a valid tree panic |
| Trees.FindNode | src/node.rs:257-262 | a node found by the search carries the queried name |
| Trees.FindForest | src/node.rs:264-276 | a node found among the siblings carries the queried name |
| Trees.FindNodeIsFirstInPreOrder | src/node.rs:257-277 | the search returns the first node in pre-order (node, then each child's whole subtree in order) with the name |
| Trees.FindForestIsFirstInPreOrder | src/node.rs:264-276 | the search over siblings returns the first match in the concatenated pre-orders |
| Trees.FindByName | src/node.rs:238-247 | an empty tree finds nothing; a hit carries the queried name |
| Trees.FindByNameIsFirstMatch | src/node.rs:238-247 | a hit is the first tree node in pre-order with the name; there is no hit exactly when no node has the name |
| LineParse.DropLeadingDot | src/main.rs:39-42 | one leading "." component is removed, and only that one |
| LineParse.DropTrailingEmpty | src/main.rs:44-47 | one trailing empty component is removed, and only that one |
| LineParse.Components | src/main.rs:37-59 | the remaining components are non-empty as a list and free of separators |
| LineParse.ParseLine | src/main.rs:36-70 | the node has no children and records the untrimmed line and its length; it is a File exactly when its name contains '.'; the path re-splits into `depth` components, the last being the name |
| LineParse.ParseLineFailsExactly | src/main.rs:40-59 | parsing panics exactly for the lines "", "." and "./" |
| LineParse.DotComponent | src/main.rs:39-42 | the first component is "." exactly when the line is "." or begins with "./"; dropping it drops that prefix |
| LineParse.TrailingEmptyJoin | src/main.rs:44-60 | dropping a trailing empty component drops the trailing "/" of the joined path |
| LineParse.ParsePathIsTrimmedLine | src/main.rs:39-60 | the path is the line with one leading "./" and then one trailing "/" removed; the depth is one more than the separators left |
| LineParse.ShapeFollowsPath | src/main.rs:54-70 | two successful parses with equal paths agree on depth, name and kind |
| LineParse.DotPrefixIsIgnored | src/main.rs:39-42 | prefixing "./" leaves depth, name, path and kind unchanged (or both fail), unless the line already starts with a "." component |
| LineParse.TrailingSepIsIgnored | src/main.rs:44-47 | appending "/" to a non-empty line without one leaves depth, name, path and kind unchanged (or both fail) |
| LineParse.ParsedLineInsertsSafely | src/main.rs:54-72 | a parsed line inserted into a valid tree never panics, and the tree stays valid |
| Scenarios.ParseOneComponent | src/main.rs:36-70 | a line with one plain component is a node at depth 1 whose name and path are the line |
| Scenarios.ParseTwoComponents | src/main.rs:36-70 | a line `dir/file` is a node at depth 2 named `file` whose path is the line |
| Scenarios.TrailingSlashLine | src/main.rs:44-47 | `dir/` is one node at depth 1 named `dir`, a Directory unless the name contains '.' |
| Scenarios.OrphanIsDropped | src/node.rs:289-297 | `dir/file` inserted into an empty tree is dropped, leaving only the synthetic root |
| Scenarios.FirstLineUnderRoot | src/node.rs:226-235 | a one-component line inserted into an empty tree becomes the only child of a fresh root |
| Scenarios.ParentThenChild | src/node.rs:279-298 | inserting `dir` and then `dir/file` gives root → dir → file |
| Scenarios.ParentThenChildFound | src/node.rs:238-277 | in that tree, looking up `file` finds the file node with path `dir/file` at depth 2 |
| Scenarios.DuplicatesAreKept | src/node.rs:280-281 | inserting the same line twice gives two sibling nodes of the same name |

## Left out

- `Node::display` and `Tree::display` (src/node.rs:160-179, 215-224) are console output and are not modelled. They visit nodes in the order of `Nodes.PreOrder`, except that they do not descend below File nodes (src/node.rs:163-167), whereas the lookup descends into every node's children.
- All `println!` calls, including the diagnostics inside `insert_recursive` and `find_by_name_recursive` and the `node.display()` at src/node.rs:293. They are output only and do not change the tree.
- `read_file` and the driver loop of `main` (src/main.rs:15-31, 72-89) do file I/O and `expect` panics. `Scenarios.AddLine` is only a convenience for stating the scenarios.
- `Tree::find_by_path` and `Tree::find_by_depth` (src/node.rs:249-255) are stubs that always return `None`, so there is nothing to state about them.
- `From<Node> for Option<Box<Node>>` (src/node.rs:26-30) is a boxing convenience.
- The accessors `depth()`, `name()` and `path()` are the datatype's field selectors.
- The `u64` widths: `depth` and `length` are `nat`. The `depth() + 1` at src/node.rs:280 cannot overflow in the model.
- Byte length: `length` is the number of characters of the line. Rust's `len()` counts UTF-8 bytes.
- A panic in the Rust code ends the process. Here it is `None` from `ParseLine` or `Insert`, or `OutOfBounds` from `InsertAt`.
