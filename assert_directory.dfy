/**
 * `assertDirectory`: collect every file and directory below a root with
 * `walk`, compare the collection with the expected relative paths by set
 * difference, and report what is missing and what is extra relative to the
 * root.
 */
module DirectoryCheck {
  import opened FileTree
  import opened Walk
  import WalkFacts

  /** Length of the longest common prefix of two component paths. */
  function CommonPrefixLength(a: Path, b: Path): (n: nat)
    ensures n <= |a| && n <= |b| && a[..n] == b[..n]
    ensures n < |a| && n < |b| ==> a[n] != b[n]
  {
    if a == [] || b == [] || a[0] != b[0] then 0
    else
      var m := CommonPrefixLength(a[1..], b[1..]);
      assert a[..m + 1] == [a[0]] + a[1..][..m];
      assert b[..m + 1] == [b[0]] + b[1..][..m];
      1 + m
  }

  /** `k` parent-directory components. */
  function Ups(k: nat): (r: Path)
    ensures |r| == k && forall i :: 0 <= i < k ==> r[i] == ".."
  {
    if k == 0 then [] else [".."] + Ups(k - 1)
  }

  /**
   * `os.path.relpath(p, start)` on normalised component paths: climb out of
   * `start` to the common prefix, then descend along `p`. The empty path
   * stands for ".".
   */
  function RelPath(p: Path, start: Path): Path
  {
    var n := CommonPrefixLength(p, start);
    Ups(|start| - n) + p[n..]
  }

  /** Relative rendering undoes joining onto the start... */
  lemma RelPathOfJoin(start: Path, r: Path)
    ensures RelPath(start + r, start) == r
  {
    assert (start + r)[|start|..] == r;
  }

  /** ...and joining undoes relative rendering of a path below the start. */
  lemma JoinOfRelPath(p: Path, start: Path)
    requires IsPrefix(start, p)
    ensures start + RelPath(p, start) == p
  {
    assert p == start + p[|start|..];
    RelPathOfJoin(start, p[|start|..]);
  }

  /** `relpaths(paths, base)`: each path rendered relative to `base` (the order of the list is not modelled). */
  function RelPaths(paths: set<Path>, base: Path): set<Path>
  {
    set p | p in paths :: RelPath(p, base)
  }

  predicate AllBelow(paths: set<Path>, base: Path)
  {
    forall p :: p in paths ==> IsPrefix(base, p)
  }

  /** A relative path is rendered exactly when its join onto `base` is present. */
  lemma RelPathsMembers(paths: set<Path>, base: Path)
    requires AllBelow(paths, base)
    ensures forall r :: r in RelPaths(paths, base) <==> base + r in paths
  {
    forall r ensures r in RelPaths(paths, base) <==> base + r in paths {
      RelPathOfJoin(base, r);
      if r in RelPaths(paths, base) {
        var p :| p in paths && RelPath(p, base) == r;
        JoinOfRelPath(p, base);
      }
    }
  }

  /** Taking one path out of the set takes exactly its rendering out of the result. */
  lemma RelPathsRemove(paths: set<Path>, base: Path, p: Path)
    requires AllBelow(paths, base) && p in paths
    ensures RelPaths(paths, base) == RelPaths(paths - {p}, base) + {RelPath(p, base)}
    ensures RelPath(p, base) !in RelPaths(paths - {p}, base)
  {
    var rest := paths - {p};
    var rp := RelPath(p, base);
    RelPathsMembers(paths, base);
    RelPathsMembers(rest, base);
    JoinOfRelPath(p, base);
    forall r ensures r in RelPaths(paths, base) <==> r in RelPaths(rest, base) || r == rp {
      if base + r == p {
        AppendCancel(base, r, rp);
      }
    }
  }

  /**
   * On paths below `base` the rendering is one-to-one: a relative path is
   * rendered exactly when its join onto `base` is present, and the number of
   * paths is preserved.
   */
  lemma {:induction false} RelPathsOneToOne(paths: set<Path>, base: Path)
    requires AllBelow(paths, base)
    ensures forall r :: r in RelPaths(paths, base) <==> base + r in paths
    ensures |RelPaths(paths, base)| == |paths|
    decreases |paths|
  {
    RelPathsMembers(paths, base);
    if paths != {} {
      var p :| p in paths;
      RelPathsOneToOne(paths - {p}, base);
      RelPathsRemove(paths, base, p);
    } else {
      assert RelPaths(paths, base) == {};
    }
  }

  /** The outcome of `assertDirectory`: success, or the failure it raises with its path sets. */
  datatype Verdict =
    | Pass
      /** With extra entries allowed: only the missing paths are reported. */
    | Missing(missing: set<Path>)
      /** Without: both the missing and the extra paths are reported. */
    | Mismatch(missing: set<Path>, extra: set<Path>)

  /** Every file and directory collected by `walk` from `root`; nothing when `root` is absent or a file. */
  function ActualSet(fs: Node, root: Path, includeHidden: bool): set<Path>
  {
    match Lookup(fs, root)
    case None => {}
    case Some(t) => Collected(WalkLevels(t, root, includeHidden))
  }

  /** The expected relative paths joined onto `root`. */
  function ExpectedSet(root: Path, contents: seq<Path>): set<Path>
  {
    set i | i in contents :: root + i
  }

  /** `assertDirectory(path, contents, include_hidden, allow_extra)` on the file system `fs`. */
  function AssertDirectory(fs: Node, root: Path, contents: seq<Path>, includeHidden: bool := false, allowExtra: bool := false): (v: Verdict)
    ensures allowExtra ==> !v.Mismatch? && (v == Pass <==> ExpectedSet(root, contents) <= ActualSet(fs, root, includeHidden))
    ensures !allowExtra ==> !v.Missing? && (v == Pass <==> ActualSet(fs, root, includeHidden) == ExpectedSet(root, contents))
  {
    var actual := ActualSet(fs, root, includeHidden);
    var expected := ExpectedSet(root, contents);
    if allowExtra then
      var missing := expected - actual;
      if missing != {} then Missing(RelPaths(missing, root))
      else assert forall x :: x in expected ==> x !in missing; Pass
    else if actual != expected then
      Mismatch(RelPaths(expected - actual, root), RelPaths(actual - expected, root))
    else Pass
  }

  /** `r`, relative to `root`, names an entry that `walk` reports. */
  predicate ShownAt(fs: Node, root: Path, r: Path, includeHidden: bool)
  {
    Exists(fs, root) && Shown(Lookup(fs, root).value, r, includeHidden)
  }

  /** The actual set holds exactly the joins onto `root` of the entries shown below it. */
  lemma ActualSetExact(fs: Node, root: Path, includeHidden: bool, x: Path)
    ensures x in ActualSet(fs, root, includeHidden) <==>
            IsPrefix(root, x) && ShownAt(fs, root, x[|root|..], includeHidden)
  {
    if Exists(fs, root) {
      WalkFacts.WalkExact(Lookup(fs, root).value, root, includeHidden, x);
    }
  }

  /** Joined onto `root`, a relative path is actual exactly when it is shown, and every actual path lies below `root`. */
  lemma ActualRelative(fs: Node, root: Path, includeHidden: bool)
    ensures forall r :: root + r in ActualSet(fs, root, includeHidden) <==> ShownAt(fs, root, r, includeHidden)
    ensures AllBelow(ActualSet(fs, root, includeHidden), root)
  {
    var actual := ActualSet(fs, root, includeHidden);
    forall r ensures root + r in actual <==> ShownAt(fs, root, r, includeHidden) {
      ActualSetExact(fs, root, includeHidden, root + r);
      assert (root + r)[|root|..] == r;
    }
    forall x | x in actual ensures IsPrefix(root, x) {
      ActualSetExact(fs, root, includeHidden, x);
    }
  }

  /** Joined onto `root`, a relative path is expected exactly when it is among the contents. */
  lemma ExpectedRelative(root: Path, contents: seq<Path>)
    ensures forall r :: root + r in ExpectedSet(root, contents) <==> r in contents
    ensures AllBelow(ExpectedSet(root, contents), root)
  {
    forall r ensures root + r in ExpectedSet(root, contents) <==> r in contents {
      if root + r in ExpectedSet(root, contents) {
        var i :| i in contents && root + i == root + r;
        assert i == (root + i)[|root|..];
      }
    }
  }

  /**
   * Without extra entries allowed, the check passes exactly when the expected
   * relative paths are the entries shown below `root`, no more and no fewer.
   */
  lemma ExactPolicy(fs: Node, root: Path, contents: seq<Path>, includeHidden: bool)
    ensures AssertDirectory(fs, root, contents, includeHidden, false) == Pass <==>
            forall r :: r in contents <==> ShownAt(fs, root, r, includeHidden)
  {
    var actual := ActualSet(fs, root, includeHidden);
    var expected := ExpectedSet(root, contents);
    ActualRelative(fs, root, includeHidden);
    ExpectedRelative(root, contents);
    if forall r :: r in contents <==> ShownAt(fs, root, r, includeHidden) {
      forall x ensures x in actual <==> x in expected {
        if x in actual || x in expected {
          assert x == root + x[|root|..];
        }
      }
    }
  }

  /** With extra entries allowed, the check passes exactly when every expected relative path is shown. */
  lemma SupersetPolicy(fs: Node, root: Path, contents: seq<Path>, includeHidden: bool)
    ensures AssertDirectory(fs, root, contents, includeHidden, true) == Pass <==>
            forall r :: r in contents ==> ShownAt(fs, root, r, includeHidden)
  {
    ActualRelative(fs, root, includeHidden);
    ExpectedRelative(root, contents);
    var actual := ActualSet(fs, root, includeHidden);
    var expected := ExpectedSet(root, contents);
    if forall r :: r in contents ==> ShownAt(fs, root, r, includeHidden) {
      forall x | x in expected ensures x in actual {
        assert x == root + x[|root|..];
      }
    }
  }

  /**
   * A failure reports, relative to `root`, as missing exactly the expected
   * paths that are not shown and, when extra entries are not allowed, as
   * extra exactly the shown entries that are not expected; at least one of
   * the reported sets is non-empty.
   */
  lemma FailureReport(fs: Node, root: Path, contents: seq<Path>, includeHidden: bool, allowExtra: bool)
    ensures var v := AssertDirectory(fs, root, contents, includeHidden, allowExtra);
      && (v.Missing? || v.Mismatch? ==>
            forall r :: r in v.missing <==> r in contents && !ShownAt(fs, root, r, includeHidden))
      && (v.Mismatch? ==>
            forall r :: r in v.extra <==> ShownAt(fs, root, r, includeHidden) && r !in contents)
      && (v.Missing? ==> v.missing != {})
      && (v.Mismatch? ==> v.missing != {} || v.extra != {})
  {
    var actual := ActualSet(fs, root, includeHidden);
    var expected := ExpectedSet(root, contents);
    ActualRelative(fs, root, includeHidden);
    ExpectedRelative(root, contents);
    RelPathsOneToOne(expected - actual, root);
    RelPathsOneToOne(actual - expected, root);
    if actual != expected {
      assert expected - actual != {} || actual - expected != {};
    }
  }
}
