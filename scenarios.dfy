/**
 * The behaviour the test helpers are relied on for, on small concrete
 * trees: the exact and the superset form of `assertDirectory`, and the
 * default that hides dot-entries.
 */
module Scenarios {
  import opened FileTree
  import opened DirectoryCheck

  /** A root `r` holding a directory `a` with a file `b`, and a file `c`. */
  function NestedTree(): Node
  {
    Dir([Child("r", Dir([Child("a", Dir([Child("b", File)])), Child("c", File)]))])
  }

  /** A root `r` holding the files `a` and `b`. */
  function FlatTree(): Node
  {
    Dir([Child("r", Dir([Child("a", File), Child("b", File)]))])
  }

  /** A root `r` holding only the hidden file `.x`. */
  function HiddenTree(): Node
  {
    Dir([Child("r", Dir([Child(".x", File)]))])
  }

  lemma NestedShown(r: Path, includeHidden: bool)
    ensures ShownAt(NestedTree(), ["r"], r, includeHidden) <==> r == ["a"] || r == ["a", "b"] || r == ["c"]
  {
    var sub := Dir([Child("b", File)]);
    var top := Dir([Child("a", sub), Child("c", File)]);
    assert Lookup(NestedTree(), ["r"]) == Some(top);
    if r != [] {
      LookupFirst(top.children, r);
      LookupFirst(top.children[1..], r);
      if r[0] == "a" && r[1..] != [] {
        LookupFirst(sub.children, r[1..]);
        if r[1..][0] == "b" && r[1..][1..] != [] {
          assert Lookup(File, r[1..][1..]) == None;
        }
        assert r[1..][1..] == [] ==> r == [r[0], r[1]];
      }
      if r[0] == "c" && r[1..] != [] {
        assert Lookup(File, r[1..]) == None;
      }
      assert r[1..] == [] ==> r == [r[0]];
    }
  }

  lemma FlatShown(r: Path, includeHidden: bool)
    ensures ShownAt(FlatTree(), ["r"], r, includeHidden) <==> r == ["a"] || r == ["b"]
  {
    var top := Dir([Child("a", File), Child("b", File)]);
    assert Lookup(FlatTree(), ["r"]) == Some(top);
    if r != [] {
      LookupFirst(top.children, r);
      LookupFirst(top.children[1..], r);
      if r[1..] != [] {
        assert Lookup(File, r[1..]) == None;
      }
      assert r[1..] == [] ==> r == [r[0]];
    }
  }

  lemma HiddenShown(r: Path, includeHidden: bool)
    ensures ShownAt(HiddenTree(), ["r"], r, includeHidden) <==> includeHidden && r == [".x"]
  {
    var top := Dir([Child(".x", File)]);
    assert Lookup(HiddenTree(), ["r"]) == Some(top);
    if r != [] {
      LookupFirst(top.children, r);
      if r[1..] != [] {
        assert Lookup(File, r[1..]) == None;
      }
      assert r[1..] == [] ==> r == [r[0]];
      assert r == [".x"] ==> Hidden(r[0]);
    }
  }

  /** The exact form reports precisely the expected-but-not-shown and the shown-but-not-expected paths. */
  lemma Reports(fs: Node, root: Path, contents: seq<Path>, includeHidden: bool, missing: set<Path>, extra: set<Path>)
    requires forall r :: r in missing <==> r in contents && !ShownAt(fs, root, r, includeHidden)
    requires forall r :: r in extra <==> ShownAt(fs, root, r, includeHidden) && r !in contents
    requires missing != {} || extra != {}
    ensures AssertDirectory(fs, root, contents, includeHidden, false) == Mismatch(missing, extra)
  {
    ExactPolicy(fs, root, contents, includeHidden);
    FailureReport(fs, root, contents, includeHidden, false);
    var v := AssertDirectory(fs, root, contents, includeHidden, false);
    if missing != {} {
      var r :| r in missing;
      assert r in contents && !ShownAt(fs, root, r, includeHidden);
    } else {
      var r :| r in extra;
      assert ShownAt(fs, root, r, includeHidden) && r !in contents;
    }
    assert v.Mismatch?;
    assert v.missing == missing;
    assert v.extra == extra;
  }

  /** `{a, a/b, c}` expected of `{a, a/b, c}`: the exact form passes. */
  lemma ExactMatchPasses()
    ensures AssertDirectory(NestedTree(), ["r"], [["a"], ["a", "b"], ["c"]], false, false) == Pass
  {
    forall r ensures ShownAt(NestedTree(), ["r"], r, false) <==> r == ["a"] || r == ["a", "b"] || r == ["c"] {
      NestedShown(r, false);
    }
    ExactPolicy(NestedTree(), ["r"], [["a"], ["a", "b"], ["c"]], false);
  }

  /** `{a, c}` expected of `{a, a/b, c}`: `a/b` is reported as extra. */
  lemma ExactMatchReportsExtra()
    ensures AssertDirectory(NestedTree(), ["r"], [["a"], ["c"]], false, false) == Mismatch({}, {["a", "b"]})
  {
    forall r ensures ShownAt(NestedTree(), ["r"], r, false) <==> r == ["a"] || r == ["a", "b"] || r == ["c"] {
      NestedShown(r, false);
    }
    Reports(NestedTree(), ["r"], [["a"], ["c"]], false, {}, {["a", "b"]});
  }

  /** `{a, a/b, c, d}` expected of `{a, a/b, c}`: `d` is reported as missing. */
  lemma ExactMatchReportsMissing()
    ensures AssertDirectory(NestedTree(), ["r"], [["a"], ["a", "b"], ["c"], ["d"]], false, false) == Mismatch({["d"]}, {})
  {
    forall r ensures ShownAt(NestedTree(), ["r"], r, false) <==> r == ["a"] || r == ["a", "b"] || r == ["c"] {
      NestedShown(r, false);
    }
    Reports(NestedTree(), ["r"], [["a"], ["a", "b"], ["c"], ["d"]], false, {["d"]}, {});
  }

  /** With `{a, b}` on disk and `{a}` expected, the superset form passes and the exact form reports `b` as extra. */
  lemma AllowExtraExamples()
    ensures AssertDirectory(FlatTree(), ["r"], [["a"]], false, true) == Pass
    ensures AssertDirectory(FlatTree(), ["r"], [["a"]], false, false) == Mismatch({}, {["b"]})
  {
    forall r ensures ShownAt(FlatTree(), ["r"], r, false) <==> r == ["a"] || r == ["b"] {
      FlatShown(r, false);
    }
    SupersetPolicy(FlatTree(), ["r"], [["a"]], false);
    Reports(FlatTree(), ["r"], [["a"]], false, {}, {["b"]});
  }

  /**
   * Only `.x` on disk and nothing expected: the call with the default
   * arguments skips hidden entries and passes; with hidden entries included
   * `.x` is reported as extra.
   */
  lemma HiddenDefaultExamples()
    ensures AssertDirectory(HiddenTree(), ["r"], []) == Pass
    ensures AssertDirectory(HiddenTree(), ["r"], [], true, false) == Mismatch({}, {[".x"]})
  {
    forall r ensures !ShownAt(HiddenTree(), ["r"], r, false) {
      HiddenShown(r, false);
    }
    forall r ensures ShownAt(HiddenTree(), ["r"], r, true) <==> r == [".x"] {
      HiddenShown(r, true);
    }
    ExactPolicy(HiddenTree(), ["r"], [], false);
    Reports(HiddenTree(), ["r"], [], true, {}, {[".x"]});
  }
}
