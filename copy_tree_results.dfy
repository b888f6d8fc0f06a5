/**
 * Consequences of the copy's outcome: what a fresh destination holds,
 * copying into the source itself, running the copy twice, copying a
 * directory onto itself, and the calls that raise before anything is
 * written.
 */
module CopyTreeResults {
  import opened FileTree
  import opened Manifest
  import opened FsOps
  import opened CopyTree
  import opened CopyTreeFacts
  import opened DirectoryCheck

  /** Nothing lies below a path that does not exist. */
  lemma AbsentBelow(t: Node, p: Path, q: Path)
    requires KindAt(t, p) == None
    ensures KindAt(t, p + q) == None
  {
    LookupAppend(t, p, q);
  }

  /** What `r` reaches below `p` is what `p + r` reaches from the top. */
  lemma ShownAtKind(t: Node, p: Path, r: Path, includeHidden: bool)
    requires KindAt(t, p) == Some(true)
    ensures ShownAt(t, p, r, includeHidden) <==> r != [] && KindAt(t, p + r) != None && (includeHidden || NoHidden(r))
  {
    LookupAppend(t, p, r);
  }

  /**
   * Copying into a destination that does not exist yet succeeds, and the
   * destination then shows exactly the entries the source showed, under the
   * same hidden-entry rule.
   */
  lemma FreshCopyMirrors(t: Node, src: Path, dst: Path, ignoreHidden: bool, r: Path)
    requires WellFormed(t) && IsDirAt(t, src) && KindAt(t, dst) == None && NoFileOnPath(t, dst)
    ensures CopyTreeSpec(t, src, dst, ignoreHidden).ok
    ensures ShownAt(CopyTreeSpec(t, src, dst, ignoreHidden).fs, dst, r, !ignoreHidden) <==>
            ShownAt(t, src, r, !ignoreHidden)
  {
    var items := ToCopy(t, src, ignoreHidden).value;
    forall i | 0 <= i < |items| ensures KindAt(t, dst + items[i].path) == None {
      AbsentBelow(t, dst, items[i].path);
    }
    CopyTreeOutcome(t, src, dst, ignoreHidden);
    var fs := CopyTreeSpec(t, src, dst, ignoreHidden).fs;
    ShownAtKind(fs, dst, r, !ignoreHidden);
    ShownAtKind(t, src, r, !ignoreHidden);
    AbsentBelow(t, dst, r);
    if r != [] {
      if KindAt(t, src + r) != None && (ignoreHidden ==> NoHidden(r)) {
        ManifestExact(t, src, ignoreHidden, r, KindAt(t, src + r).value);
      }
      if KindAt(fs, dst + r) != None {
        assert (dst + r)[|dst|..] == r;
        ManifestExact(t, src, ignoreHidden, r, KindAt(fs, dst + r).value);
      }
    }
  }

  /**
   * With the default arguments, which ignore hidden entries, nothing hidden
   * reaches a fresh destination:
   * no path below it has a component starting with a dot, so a hidden
   * directory of the source and everything below it are left behind.
   */
  lemma FreshCopyExcludesHidden(t: Node, src: Path, dst: Path, r: Path)
    requires WellFormed(t) && IsDirAt(t, src) && KindAt(t, dst) == None && NoFileOnPath(t, dst)
    requires KindAt(CopyTreeSpec(t, src, dst).fs, dst + r) != None
    ensures NoHidden(r)
  {
    var items := ToCopy(t, src, true).value;
    forall i | 0 <= i < |items| ensures KindAt(t, dst + items[i].path) == None {
      AbsentBelow(t, dst, items[i].path);
    }
    CopyTreeOutcome(t, src, dst, true);
    AbsentBelow(t, dst, r);
    if r != [] {
      var fs := CopyTreeSpec(t, src, dst, true).fs;
      assert (dst + r)[|dst|..] == r;
      ManifestExact(t, src, true, r, KindAt(fs, dst + r).value);
    }
  }

  /**
   * After a copy into a fresh destination, `assertDirectory` on the
   * destination passes exactly when it passes on the source, for any
   * expected contents, in both its exact and its superset form.
   */
  lemma FreshCopyPassesSameChecks(t: Node, src: Path, dst: Path, ignoreHidden: bool,
                                  contents: seq<Path>, allowExtra: bool)
    requires WellFormed(t) && IsDirAt(t, src) && KindAt(t, dst) == None && NoFileOnPath(t, dst)
    ensures AssertDirectory(CopyTreeSpec(t, src, dst, ignoreHidden).fs, dst, contents, !ignoreHidden, allowExtra) == Pass <==>
            AssertDirectory(t, src, contents, !ignoreHidden, allowExtra) == Pass
  {
    var fs := CopyTreeSpec(t, src, dst, ignoreHidden).fs;
    var includeHidden := !ignoreHidden;
    forall r ensures ShownAt(fs, dst, r, includeHidden) <==> ShownAt(t, src, r, includeHidden) {
      FreshCopyMirrors(t, src, dst, ignoreHidden, r);
    }
    if allowExtra {
      SupersetPolicy(fs, dst, contents, includeHidden);
      SupersetPolicy(t, src, contents, includeHidden);
    } else {
      ExactPolicy(fs, dst, contents, includeHidden);
      ExactPolicy(t, src, contents, includeHidden);
    }
  }

  /**
   * Copying a directory into a new entry of itself succeeds: the list is
   * taken before anything is written, so the new entry ends up holding
   * exactly what the source showed before the copy, and not itself.
   */
  lemma CopyIntoSource(t: Node, src: Path, name: string, ignoreHidden: bool, r: Path)
    requires WellFormed(t) && IsDirAt(t, src) && KindAt(t, src + [name]) == None
    ensures CopyTreeSpec(t, src, src + [name], ignoreHidden).ok
    ensures ShownAt(CopyTreeSpec(t, src, src + [name], ignoreHidden).fs, src + [name], r, !ignoreHidden) <==>
            ShownAt(t, src, r, !ignoreHidden)
  {
    var dst := src + [name];
    forall k | 0 <= k <= |dst| ensures KindAt(t, dst[..k]) != Some(false) {
      if k <= |src| {
        DirPrefixes(t, src, k);
        assert dst[..k] == src[..k];
      } else {
        assert dst[..k] == dst;
      }
    }
    FreshCopyMirrors(t, src, dst, ignoreHidden, r);
  }

  // ---------------------------------------------------------------------
  // Running the copy twice

  lemma ValidAppend(p: Path, q: Path)
    requires ValidPath(p) && ValidPath(q)
    ensures ValidPath(p + q)
  {
    assert forall k :: |p| <= k < |p + q| ==> (p + q)[k] == q[k - |p|];
  }

  /** The replay keeps the tree well-formed when every path it writes has valid names. */
  lemma {:induction false} ReplayWellFormed(st: Progress, items: seq<Item>, src: Path, dst: Path)
    requires NonEmptyPaths(items) && WellFormed(st.fs) && ValidPath(dst)
    requires forall i :: 0 <= i < |items| ==> ValidPath(items[i].path)
    ensures WellFormed(Replay(st, items, src, dst).fs)
    decreases |items|
  {
    if items != [] {
      var init := items[..|items| - 1];
      var it := items[|items| - 1];
      assert forall i :: 0 <= i < |init| ==> init[i] == items[i];
      ReplayWellFormed(st, init, src, dst);
      var before := Replay(st, init, src, dst);
      ValidAppend(dst, it.path);
      if before.ok {
        if it.isDir {
          if MakeDirs(before.fs, dst + it.path).Some? {
            MakeDirsWellFormed(before.fs, dst + it.path);
          }
        } else {
          var from := src + it.path;
          var to := dst + it.path;
          var target := if KindAt(before.fs, to) == Some(true) then to + [Last(from)] else to;
          assert Last(from) == it.path[|it.path| - 1];
          ValidAppend(to, [Last(from)]);
          if Copy2(before.fs, from, to).Some? {
            WriteFileWellFormed(before.fs, target);
          }
        }
      }
    }
  }

  /** The copy keeps a well-formed tree well-formed. */
  lemma CopyTreeWellFormed(t: Node, src: Path, dst: Path, ignoreHidden: bool)
    requires WellFormed(t) && ValidPath(dst)
    ensures WellFormed(CopyTreeSpec(t, src, dst, ignoreHidden).fs)
  {
    if ToCopy(t, src, ignoreHidden).Some? && MakeDirs(t, dst).Some? {
      var items := ToCopy(t, src, ignoreHidden).value;
      MakeDirsWellFormed(t, dst);
      ToCopyNonEmpty(t, src, ignoreHidden);
      forall i | 0 <= i < |items| ensures ValidPath(items[i].path) {
        ManifestValid(t, src, ignoreHidden, items[i]);
      }
      ReplayWellFormed(Progress(true, MakeDirs(t, dst).value, {}), items, src, dst);
    }
  }

  /** An ancestor of `src + q` is an ancestor of `src` or lies below it. */
  lemma PrefixOfJoin(src: Path, q: Path, p: Path)
    ensures IsPrefix(p, src + q) ==> IsPrefix(p, src) || IsPrefix(src, p)
    ensures IsPrefix(src + q, p) ==> IsPrefix(src, p)
  {
    if IsPrefix(p, src + q) && |p| <= |src| {
      assert p == (src + q)[..|p|] == src[..|p|];
    }
    if IsPrefix(p, src + q) && |p| > |src| {
      assert p[..|src|] == (src + q)[..|p|][..|src|] == src;
    }
    if IsPrefix(src + q, p) {
      assert p[..|src|] == p[..|src + q|][..|src|] == src;
    }
  }

  /** Below `src`, unrelated to `dst`, the first copy changed nothing, so listing `src` again gives the same items. */
  lemma SameListing(t: Node, src: Path, dst: Path, ignoreHidden: bool, q: Path, isDir: bool)
    requires WellFormed(t) && IsDirAt(t, src) && NoFileOnPath(t, dst) && ValidPath(dst)
    requires !IsPrefix(src, dst) && !IsPrefix(dst, src)
    requires Compatible(t, ToCopy(t, src, ignoreHidden).value, dst)
    ensures ToCopy(CopyTreeSpec(t, src, dst, ignoreHidden).fs, src, ignoreHidden).Some?
    ensures Item(q, isDir) in ToCopy(CopyTreeSpec(t, src, dst, ignoreHidden).fs, src, ignoreHidden).value <==>
            Item(q, isDir) in ToCopy(t, src, ignoreHidden).value
  {
    CopyTreeOutcome(t, src, dst, ignoreHidden);
    CopyTreeWellFormed(t, src, dst, ignoreHidden);
    var fs := CopyTreeSpec(t, src, dst, ignoreHidden).fs;
    assert KindAt(t, src) == Some(true);
    assert KindAt(fs, src) == Some(true);
    var w := src + q;
    PrefixOfJoin(src, q, dst);
    assert KindAt(fs, w) == KindAt(t, w);
    ManifestExact(fs, src, ignoreHidden, q, isDir);
    ManifestExact(t, src, ignoreHidden, q, isDir);
  }

  /** After the first copy the second one is ready: `dst` is a directory and every listed destination already has its kind. */
  lemma SecondCopyReady(t: Node, src: Path, dst: Path, ignoreHidden: bool)
    requires WellFormed(t) && IsDirAt(t, src) && NoFileOnPath(t, dst) && ValidPath(dst)
    requires !IsPrefix(src, dst) && !IsPrefix(dst, src)
    requires Compatible(t, ToCopy(t, src, ignoreHidden).value, dst)
    ensures WellFormed(CopyTreeSpec(t, src, dst, ignoreHidden).fs)
    ensures IsDirAt(CopyTreeSpec(t, src, dst, ignoreHidden).fs, src)
    ensures NoFileOnPath(CopyTreeSpec(t, src, dst, ignoreHidden).fs, dst)
    ensures KindAt(CopyTreeSpec(t, src, dst, ignoreHidden).fs, dst) == Some(true)
    ensures forall it :: it in ToCopy(CopyTreeSpec(t, src, dst, ignoreHidden).fs, src, ignoreHidden).value ==>
              KindAt(CopyTreeSpec(t, src, dst, ignoreHidden).fs, dst + it.path) == Some(it.isDir)
  {
    CopyTreeOutcome(t, src, dst, ignoreHidden);
    CopyTreeWellFormed(t, src, dst, ignoreHidden);
    var fs := CopyTreeSpec(t, src, dst, ignoreHidden).fs;
    assert KindAt(fs, src) == Some(true);
    forall k | 0 <= k <= |dst| ensures KindAt(fs, dst[..k]) != Some(false) {
      DirPrefixes(fs, dst, k);
    }
    forall it | it in ToCopy(fs, src, ignoreHidden).value ensures KindAt(fs, dst + it.path) == Some(it.isDir) {
      SameListing(t, src, dst, ignoreHidden, it.path, it.isDir);
    }
  }

  /** Where `dst` and every listed destination already exist, a path that does not exist is none of them. */
  lemma NothingNew(fs: Node, dst: Path, items: seq<Item>, w: Path, isDir: bool)
    requires KindAt(fs, dst) == Some(true)
    requires forall it :: it in items ==> KindAt(fs, dst + it.path) == Some(it.isDir)
    requires KindAt(fs, w) == None
    ensures !IsPrefix(w, dst)
    ensures !(IsPrefix(dst, w) && Item(w[|dst|..], isDir) in items)
  {
    if IsPrefix(w, dst) {
      DirPrefixes(fs, dst, |w|);
    }
    if IsPrefix(dst, w) {
      assert dst + w[|dst|..] == w;
    }
  }

  /**
   * Copying again between the same unrelated source and destination
   * succeeds and changes the kind of no path: the second run leaves the
   * entries as the first run left them.
   */
  lemma CopyTreeIdempotent(t: Node, src: Path, dst: Path, ignoreHidden: bool)
    requires WellFormed(t) && IsDirAt(t, src) && NoFileOnPath(t, dst) && ValidPath(dst)
    requires !IsPrefix(src, dst) && !IsPrefix(dst, src)
    requires Compatible(t, ToCopy(t, src, ignoreHidden).value, dst)
    ensures CopyTreeSpec(CopyTreeSpec(t, src, dst, ignoreHidden).fs, src, dst, ignoreHidden).ok
    ensures forall w :: KindAt(CopyTreeSpec(CopyTreeSpec(t, src, dst, ignoreHidden).fs, src, dst, ignoreHidden).fs, w) ==
                        KindAt(CopyTreeSpec(t, src, dst, ignoreHidden).fs, w)
  {
    SecondCopyReady(t, src, dst, ignoreHidden);
    var fs := CopyTreeSpec(t, src, dst, ignoreHidden).fs;
    var again := ToCopy(fs, src, ignoreHidden).value;
    assert Compatible(fs, again, dst) by {
      forall i | 0 <= i < |again| ensures KindAt(fs, dst + again[i].path) == Some(again[i].isDir) {
        assert again[i] in again;
      }
    }
    CopyTreeOutcome(fs, src, dst, ignoreHidden);
    var fs2 := CopyTreeSpec(fs, src, dst, ignoreHidden).fs;
    forall w ensures KindAt(fs2, w) == KindAt(fs, w) {
      if KindAt(fs, w) == None && KindAt(fs2, w) != None {
        NothingNew(fs, dst, again, w, KindAt(fs2, w).value);
      }
    }
  }

  // ---------------------------------------------------------------------
  // Calls that raise

  /**
   * Listing a source that is not a directory raises, and so does
   * `os.makedirs(dst)` across a file; both happen before anything is
   * written.
   */
  lemma CopyTreeErrors(t: Node, src: Path, dst: Path, ignoreHidden: bool)
    ensures !IsDirAt(t, src) ==> CopyTreeSpec(t, src, dst, ignoreHidden) == Progress(false, t, {})
    ensures IsDirAt(t, src) && !NoFileOnPath(t, dst) ==> CopyTreeSpec(t, src, dst, ignoreHidden) == Progress(false, t, {})
  {
    MakeDirsSucceeds(t, dst);
  }

  /** Creating a directory that already exists changes no kind. */
  lemma MakeDirsExisting(t: Node, p: Path)
    requires KindAt(t, p) == Some(true)
    ensures MakeDirs(t, p).Some?
    ensures forall w :: KindAt(MakeDirs(t, p).value, w) == KindAt(t, w)
  {
    forall j | 0 <= j <= |p| ensures KindAt(t, p[..j]) != Some(false) {
      DirPrefixes(t, p, j);
    }
    MakeDirsSucceeds(t, p);
    forall w ensures KindAt(MakeDirs(t, p).value, w) == KindAt(t, w) {
      MakeDirsEffect(t, p, w);
      if IsPrefix(w, p) {
        DirPrefixes(t, p, |w|);
      }
    }
  }

  /** `shutil.copy2` of a file onto itself raises. */
  lemma CopyOntoItself(fs: Node, p: Path)
    requires p != [] && KindAt(fs, p) == Some(false)
    ensures Copy2(fs, p, p) == None
  {
  }

  /** Replaying an item of `src` onto `src` itself, where every kind is as in `t`, changes no kind unless it raises. */
  lemma SelfStep(t: Node, st: Progress, it: Item, src: Path)
    requires it.path != [] && KindAt(t, src + it.path) == Some(it.isDir)
    requires forall w :: KindAt(st.fs, w) == KindAt(t, w)
    ensures Step(st, it, src, src).ok ==> forall w :: KindAt(Step(st, it, src, src).fs, w) == KindAt(t, w)
  {
    if it.isDir && it.path !in st.seen {
      MakeDirsExisting(st.fs, src + it.path);
    } else if !it.isDir {
      CopyOntoItself(st.fs, src + it.path);
    }
  }

  /**
   * Copying a directory onto itself: the directories it lists already
   * exist, so creating them changes no kind; until a call raises, every path
   * keeps its kind.
   */
  lemma {:induction false} SelfCopyPrefix(t: Node, src: Path, ignoreHidden: bool, k: nat)
    requires WellFormed(t) && IsDirAt(t, src) && k <= |ToCopy(t, src, ignoreHidden).value|
    ensures MakeDirs(t, src).Some?
    ensures NonEmptyPaths(ToCopy(t, src, ignoreHidden).value[..k])
    ensures var st := Replay(Progress(true, MakeDirs(t, src).value, {}), ToCopy(t, src, ignoreHidden).value[..k], src, src);
            st.ok ==> forall w :: KindAt(st.fs, w) == KindAt(t, w)
  {
    var items := ToCopy(t, src, ignoreHidden).value;
    ToCopyNonEmpty(t, src, ignoreHidden);
    assert KindAt(t, src) == Some(true);
    MakeDirsExisting(t, src);
    var start := Progress(true, MakeDirs(t, src).value, {});
    if k == 0 {
      assert items[..k] == [];
    } else {
      SelfCopyPrefix(t, src, ignoreHidden, k - 1);
      var before := Replay(start, items[..k - 1], src, src);
      var it := items[k - 1];
      if before.ok {
        assert it in items;
        ManifestExact(t, src, ignoreHidden, it.path, it.isDir);
        SelfStep(t, before, it, src);
      }
      ReplaySnoc(start, items, k - 1, src, src, before, if before.ok then Step(before, it, src, src) else before);
    }
  }

  /**
   * Copying a directory onto itself raises at its first file:
   * `shutil.copy2` refuses to copy a file onto itself.
   */
  lemma SelfCopyFails(t: Node, src: Path, ignoreHidden: bool, q: Path)
    requires WellFormed(t) && IsDirAt(t, src)
    requires q != [] && KindAt(t, src + q) == Some(false) && (ignoreHidden ==> NoHidden(q))
    ensures !CopyTreeSpec(t, src, src, ignoreHidden).ok
  {
    var items := ToCopy(t, src, ignoreHidden).value;
    ManifestExact(t, src, ignoreHidden, q, false);
    var f :| 0 <= f < |items| && items[f] == Item(q, false);
    SelfCopyPrefix(t, src, ignoreHidden, f);
    ToCopyNonEmpty(t, src, ignoreHidden);
    var start := Progress(true, MakeDirs(t, src).value, {});
    var before := Replay(start, items[..f], src, src);
    if before.ok {
      CopyOntoItself(before.fs, src + q);
    }
    ReplaySnoc(start, items, f, src, src, before, if before.ok then Step(before, items[f], src, src) else before);
    ReplayStops(start, items, f + 1, src, src);
  }
}
