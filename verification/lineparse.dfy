/** Turning one input line into a node descriptor: the block inside the
    driver loop of `src/main.rs` (lines 36-70), extracted as a pure
    function. Where the Rust code panics on an empty component list the
    model returns `None`. */
module LineParse {
  import opened Wrappers
  import opened Paths
  import opened Nodes
  import opened Trees

  /** `split.remove(0)` when the first component is exactly ".". */
  function DropLeadingDot(parts: seq<string>): (r: seq<string>)
    ensures |parts| > 0 && parts[0] == "." ==> parts == ["."] + r
    ensures !(|parts| > 0 && parts[0] == ".") ==> r == parts
  {
    if |parts| > 0 && parts[0] == "." then parts[1..] else parts
  }

  /** `split.remove(split.len() - 1)` when the last component is empty. */
  function DropTrailingEmpty(parts: seq<string>): (r: seq<string>)
    ensures |parts| > 0 && parts[|parts| - 1] == "" ==> parts == r + [""]
    ensures !(|parts| > 0 && parts[|parts| - 1] == "") ==> r == parts
  {
    if |parts| > 0 && parts[|parts| - 1] == "" then parts[..|parts| - 1] else parts
  }

  /** The components of `line` after dropping one leading "." component
      and then one trailing "" component. `None` where the Rust code
      panics: reading the last element of an empty list, or computing
      `depth - 1` for depth 0. */
  function Components(line: string): (r: Option<seq<string>>)
    ensures r.Some? ==> |r.value| >= 1 && NoSep(r.value)
  {
    var parts := Split(line);
    var afterDot := DropLeadingDot(parts);
    if |afterDot| == 0 then None
    else
      var trimmed := DropTrailingEmpty(afterDot);
      if |trimmed| == 0 then None
      else
        assert forall i :: 0 <= i < |trimmed| ==> trimmed[i] in parts;
        Some(trimmed)
  }

  /** The node descriptor built from one line: `depth` is the number of
      components, `name` the last one, `path` their join, and the node is
      a file exactly when its name contains a dot. */
  function ParseLine(line: string): (r: Option<Node>)
    ensures r.Some? ==> r.value.children == []
    ensures r.Some? ==> r.value.data == NodeData(line, |line|)
    ensures r.Some? ==> (r.value.kind == File <==> '.' in r.value.name)
    ensures r.Some? ==>
      && r.value.depth >= 1
      && |Split(r.value.path)| == r.value.depth
      && Split(r.value.path)[r.value.depth - 1] == r.value.name
  {
    match Components(line)
    case None => None
    case Some(parts) =>
      var depth := |parts|;
      var name := parts[depth - 1];
      var path := Join(parts);
      var data := NodeData(line, |line|);
      SplitJoin(parts);
      Some(if '.' in name then NewFile(data, depth, path, name)
           else NewDirectory(data, depth, path, name))
  }

  // ---------------------------------------------------------------------
  // Reference description on the raw line

  /** True when `s` begins with "./". */
  predicate HasDotPrefix(s: string) {
    |s| >= 2 && s[0] == '.' && s[1] == Sep
  }

  /** True when `s` ends with the separator. */
  predicate HasTrailingSep(s: string) {
    |s| >= 1 && s[|s| - 1] == Sep
  }

  /** `s` with one leading "./" removed, if present. */
  function StripDotPrefix(s: string): (r: string)
    ensures HasDotPrefix(s) ==> s == "./" + r
    ensures !HasDotPrefix(s) ==> r == s
  {
    if HasDotPrefix(s) then s[2..] else s
  }

  /** `s` with one trailing separator removed, if present. */
  function StripTrailingSep(s: string): (r: string)
    ensures HasTrailingSep(s) ==> s == r + "/"
    ensures !HasTrailingSep(s) ==> r == s
  {
    if HasTrailingSep(s) then s[..|s| - 1] else s
  }

  /** How the three failing lines split. */
  lemma {:induction false} SplitOfFailingLines()
    ensures Split("") == [""]
    ensures Split(".") == ["."]
    ensures Split("./") == [".", ""]
  {
    SplitNoSep(".");
    SplitHead(".", "");
    assert "./" == "." + [Sep] + "";
  }

  /** The components run out exactly when the split line is [""], ["."]
      or [".", ""]. */
  lemma {:induction false} ComponentsFailExactly(line: string)
    ensures Components(line).None? <==>
      Split(line) == [""] || Split(line) == ["."] || Split(line) == [".", ""]
  {
  }

  /** The only lines that make the Rust code panic are "", "." and "./". */
  lemma {:induction false} ParseLineFailsExactly(line: string)
    ensures ParseLine(line).None? <==> line == "" || line == "." || line == "./"
  {
    ComponentsFailExactly(line);
    SplitOfFailingLines();
    JoinSplit(line);
    var parts := Split(line);
    if parts == [".", ""] {
      assert Join(parts) == "." + [Sep] + Join([""]);
    }
  }

  /** The last character of a join is that of its last piece. */
  lemma {:induction false} JoinEndsWithLast(parts: seq<string>)
    requires |parts| >= 1 && |parts[|parts| - 1]| >= 1
    ensures |Join(parts)| >= 1
    ensures Join(parts)[|Join(parts)| - 1] == parts[|parts| - 1][|parts[|parts| - 1]| - 1]
  {
    if |parts| > 1 {
      var k := |parts| - 1;
      assert parts == parts[..k] + [parts[k]];
      JoinSnoc(parts[..k], parts[k]);
    }
  }

  /** A leading "." component is there exactly when the line begins with
      "./" or is ".", and removing it removes that prefix. */
  lemma {:induction false} DotComponent(line: string)
    ensures Split(line)[0] == "." <==> HasDotPrefix(line) || line == "."
    ensures HasDotPrefix(line) ==> Split(line)[1..] == Split(StripDotPrefix(line))
  {
  }

  /** Dropping a trailing empty component drops the trailing separator
      of the join. */
  lemma {:induction false} TrailingEmptyJoin(parts: seq<string>)
    requires NoSep(parts)
    requires |DropTrailingEmpty(parts)| >= 1
    ensures Join(DropTrailingEmpty(parts)) == StripTrailingSep(Join(parts))
  {
    var k := |parts| - 1;
    var last := parts[k];
    if last == "" {
      JoinSnoc(parts[..k], last);
    } else {
      JoinEndsWithLast(parts);
      assert Sep !in last;
      assert last[|last| - 1] in last;
    }
  }

  /** The parsed path is the line with one leading "./" and then one
      trailing "/" removed; the depth is one more than the number of
      separators left in it. */
  lemma {:induction false} ParsePathIsTrimmedLine(line: string)
    requires ParseLine(line).Some?
    ensures ParseLine(line).value.path == StripTrailingSep(StripDotPrefix(line))
    ensures ParseLine(line).value.depth == multiset(StripTrailingSep(StripDotPrefix(line)))[Sep] + 1
  {
    var rem := StripDotPrefix(line);
    DotComponent(line);
    ParseLineFailsExactly(line);
    var afterDot := DropLeadingDot(Split(line));
    assert afterDot == Split(rem);
    JoinSplit(rem);
    TrailingEmptyJoin(afterDot);
  }

  /** Two parse results describe the same tree position: both failed, or
      both succeeded with equal depth, name, path and kind. */
  predicate SameShape(a: Option<Node>, b: Option<Node>) {
    || (a.None? && b.None?)
    || (a.Some? && b.Some? && a.value.depth == b.value.depth && a.value.name == b.value.name
        && a.value.path == b.value.path && a.value.kind == b.value.kind)
  }

  /** A parse that succeeds is determined, up to its line data, by its
      path. */
  lemma {:induction false} ShapeFollowsPath(a: string, b: string)
    requires ParseLine(a).Some? && ParseLine(b).Some?
    requires ParseLine(a).value.path == ParseLine(b).value.path
    ensures SameShape(ParseLine(a), ParseLine(b))
  {
  }

  /** Prefixing "./" changes nothing about the node, unless the line
      already begins with a "." component. */
  lemma {:induction false} DotPrefixIsIgnored(s: string)
    requires s != "." && !HasDotPrefix(s)
    ensures SameShape(ParseLine("./" + s), ParseLine(s))
  {
    var d := "./" + s;
    assert HasDotPrefix(d) && d[2..] == s;
    ParseLineFailsExactly(d);
    ParseLineFailsExactly(s);
    if s != "" {
      assert d != "" && d != "." && d != "./";
      assert s != "./";
      ParsePathIsTrimmedLine(d);
      ParsePathIsTrimmedLine(s);
      ShapeFollowsPath(d, s);
    } else {
      assert d == "./";
    }
  }

  /** On the raw line, one appended "/" is trimmed again. */
  lemma {:induction false} TrimIgnoresTrailingSep(s: string)
    requires s != "" && s != "." && !HasTrailingSep(s)
    ensures StripTrailingSep(StripDotPrefix(s + "/")) == StripTrailingSep(StripDotPrefix(s))
  {
  }

  /** Appending "/" changes nothing about the node, for a non-empty line
      that does not already end with one. */
  lemma {:induction false} TrailingSepIsIgnored(s: string)
    requires s != "" && !HasTrailingSep(s)
    ensures SameShape(ParseLine(s + "/"), ParseLine(s))
  {
    var d := s + "/";
    ParseLineFailsExactly(d);
    ParseLineFailsExactly(s);
    if s != "." {
      assert d != "" && d != "." && d != "./";
      assert s != "./";
      ParsePathIsTrimmedLine(d);
      ParsePathIsTrimmedLine(s);
      TrimIgnoresTrailingSep(s);
      ShapeFollowsPath(d, s);
    } else {
      assert d == "./";
    }
  }

  /** A parsed line, inserted into a valid tree, never makes the insertion
      panic, and the tree stays valid. */
  lemma {:induction false} ParsedLineInsertsSafely(t: Tree, line: string)
    requires ValidTree(t)
    requires ParseLine(line).Some?
    ensures Insert(t, ParseLine(line).value).Some?
    ensures ValidTree(Insert(t, ParseLine(line).value).value)
  {
    var n := ParseLine(line).value;
    InsertConsistentNeverPanics(t, n);
    InsertKeepsTreeValid(t, n);
  }
}
