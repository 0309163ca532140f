/** Rust's `str::split("/")` and `[&str]::join("/")` on strings, as used by
    `src/main.rs` to break an input line into components and by
    `Tree::insert_recursive` in `src/node.rs` to pick the component that
    selects the next child. */
module Paths {

  /** The path separator. */
  const Sep: char := '/'

  /** True when no component contains the separator. */
  predicate NoSep(parts: seq<string>) {
    forall i :: 0 <= i < |parts| ==> Sep !in parts[i]
  }

  /** `s.split("/")`: the maximal separator-free pieces of `s`, in order.
      Like Rust's iterator it always yields at least one piece (the empty
      string yields `[""]`), and there is one piece more than there are
      separators in `s`. */
  function Split(s: string): (parts: seq<string>)
    ensures |parts| == multiset(s)[Sep] + 1
    ensures NoSep(parts)
  {
    if |s| == 0 then [""]
    else
      assert s == [s[0]] + s[1..];
      var rest := Split(s[1..]);
      if s[0] == Sep then [""] + rest
      else [[s[0]] + rest[0]] + rest[1..]
  }

  /** `parts.join("/")`: the pieces with one separator between neighbours;
      joining no pieces gives the empty string. */
  function Join(parts: seq<string>): (s: string)
    ensures |parts| >= 1 && NoSep(parts) ==> multiset(s)[Sep] == |parts| - 1
  {
    if |parts| == 0 then ""
    else if |parts| == 1 then parts[0]
    else parts[0] + [Sep] + Join(parts[1..])
  }

  /** Joining a list whose first piece is extended by `c` in front is the
      same as extending the join by `c` in front. */
  lemma {:induction false} JoinConsChar(c: char, parts: seq<string>)
    requires |parts| >= 1
    ensures Join([[c] + parts[0]] + parts[1..]) == [c] + Join(parts)
  {
  }

  /** Splitting and joining back gives the original string. */
  lemma {:induction false} JoinSplit(s: string)
    ensures Join(Split(s)) == s
  {
    if |s| == 0 {
    } else {
      var rest := Split(s[1..]);
      JoinSplit(s[1..]);
      if s[0] == Sep {
        assert ([""] + rest)[1..] == rest;
        assert s == [Sep] + s[1..];
      } else {
        JoinConsChar(s[0], rest);
        assert s == [s[0]] + s[1..];
      }
    }
  }

  /** A string without a separator splits into itself. */
  lemma {:induction false} SplitNoSep(a: string)
    requires Sep !in a
    ensures Split(a) == [a]
  {
    if |a| > 0 {
      assert Sep !in a[1..] by {
        forall k | 0 <= k < |a[1..]| ensures a[1..][k] != Sep {
          assert a[1..][k] == a[k + 1];
        }
      }
      SplitNoSep(a[1..]);
      assert [a[0]] + a[1..] == a;
    }
  }

  /** A separator-free head followed by a separator splits off as the
      first piece. */
  lemma {:induction false} SplitHead(a: string, rest: string)
    requires Sep !in a
    ensures Split(a + [Sep] + rest) == [a] + Split(rest)
  {
    if |a| == 0 {
      assert a + [Sep] + rest == [Sep] + rest;
      assert ([Sep] + rest)[1..] == rest;
    } else {
      var s := a + [Sep] + rest;
      assert s[0] == a[0];
      assert s[1..] == a[1..] + [Sep] + rest;
      assert Sep !in a[1..] by {
        forall k | 0 <= k < |a[1..]| ensures a[1..][k] != Sep {
          assert a[1..][k] == a[k + 1];
        }
      }
      SplitHead(a[1..], rest);
      assert [a[0]] + a[1..] == a;
    }
  }

  /** Joining separator-free pieces and splitting again gives the pieces
      back: `split` inverts `join` on the lists it can produce. */
  lemma {:induction false} SplitJoin(parts: seq<string>)
    requires |parts| >= 1
    requires NoSep(parts)
    ensures Split(Join(parts)) == parts
  {
    if |parts| == 1 {
      SplitNoSep(parts[0]);
    } else {
      assert NoSep(parts[1..]) by {
        forall i | 0 <= i < |parts[1..]| ensures Sep !in parts[1..][i] {
          assert parts[1..][i] == parts[i + 1];
        }
      }
      SplitJoin(parts[1..]);
      assert Sep !in parts[0];
      SplitHead(parts[0], Join(parts[1..]));
      assert [parts[0]] + parts[1..] == parts;
    }
  }

  /** Appending one piece at the end of a non-empty list appends a
      separator and that piece to the join. */
  lemma {:induction false} JoinSnoc(parts: seq<string>, x: string)
    requires |parts| >= 1
    ensures Join(parts + [x]) == Join(parts) + [Sep] + x
  {
    if |parts| == 1 {
      assert (parts + [x])[1..] == [x];
    } else {
      assert (parts + [x])[1..] == parts[1..] + [x];
      JoinSnoc(parts[1..], x);
    }
  }

  /** A two-component path splits into its two components. */
  lemma SplitPair(a: string, b: string)
    requires Sep !in a && Sep !in b
    ensures Split(a + [Sep] + b) == [a, b]
  {
    SplitHead(a, b);
    SplitNoSep(b);
  }
}
