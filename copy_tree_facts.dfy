/**
 * What `copytree` achieves. The replay is tracked path by path: after a
 * prefix of the list, every path has the kind the last item naming it
 * gave it, or the kind it had before the loop.
 */
module CopyTreeFacts {
  import opened FileTree
  import opened Manifest
  import opened ManifestOrder
  import opened FsOps
  import opened CopyTree

  /** The kind at `w` once the items `done` have each set their destination path. */
  function KindAfter(t1: Node, done: seq<Item>, dst: Path, w: Path): Option<bool>
    decreases |done|
  {
    if done == [] then KindAt(t1, w)
    else if dst + done[|done| - 1].path == w then Some(done[|done| - 1].isDir)
    else KindAfter(t1, done[..|done| - 1], dst, w)
  }

  /** No path appears in `items` with both kinds. */
  predicate Consistent(items: seq<Item>)
  {
    forall i, j :: 0 <= i < |items| && 0 <= j < |items| && items[i].path == items[j].path ==>
      items[i].isDir == items[j].isDir
  }

  /**
   * What the replay needs from the tree `t1` it starts on: `dst` is a
   * directory distinct from `src`, the list is in parents-first order and
   * consistent, each destination is free or already of the item's kind, and
   * each file item's source is a file.
   */
  predicate Ready(t1: Node, items: seq<Item>, src: Path, dst: Path)
  {
    src != dst && KindAt(t1, dst) == Some(true) &&
    ParentsFirst(items, []) && Consistent(items) && NonEmptyPaths(items) &&
    (forall i :: 0 <= i < |items| ==>
      (KindAt(t1, dst + items[i].path) == None || KindAt(t1, dst + items[i].path) == Some(items[i].isDir))) &&
    (forall i :: 0 <= i < |items| && !items[i].isDir ==> KindAt(t1, src + items[i].path) == Some(false))
  }

  /** Every prefix of a directory is a directory. */
  lemma DirPrefixes(t: Node, p: Path, k: nat)
    requires KindAt(t, p) == Some(true) && k <= |p|
    ensures KindAt(t, p[..k]) == Some(true)
  {
    if k < |p| {
      AncestorIsDir(t, p, k);
    } else {
      assert p[..k] == p;
    }
  }

  /** The kind after a replayed prefix comes from one item of it, or from `t1`. */
  lemma {:induction false} KindAfterCases(t1: Node, done: seq<Item>, dst: Path, w: Path) returns (j: int)
    ensures -1 <= j < |done|
    ensures j == -1 ==> KindAfter(t1, done, dst, w) == KindAt(t1, w)
    ensures j >= 0 ==> dst + done[j].path == w && KindAfter(t1, done, dst, w) == Some(done[j].isDir)
    decreases |done|
  {
    if done == [] {
      j := -1;
    } else if dst + done[|done| - 1].path == w {
      j := |done| - 1;
    } else {
      j := KindAfterCases(t1, done[..|done| - 1], dst, w);
    }
  }

  /** A replayed item's destination has that item's kind. */
  lemma {:induction false} KindAfterHit(t1: Node, done: seq<Item>, dst: Path, j: nat)
    requires Consistent(done) && j < |done|
    ensures KindAfter(t1, done, dst, dst + done[j].path) == Some(done[j].isDir)
    decreases |done|
  {
    var n := |done| - 1;
    if dst + done[n].path == dst + done[j].path {
      AppendCancel(dst, done[n].path, done[j].path);
    } else {
      var init := done[..n];
      assert Consistent(init) by {
        forall a, b | 0 <= a < n && 0 <= b < n && init[a].path == init[b].path
          ensures init[a].isDir == init[b].isDir
        {
          assert init[a] == done[a] && init[b] == done[b];
        }
      }
      assert init[j] == done[j];
      KindAfterHit(t1, init, dst, j);
    }
  }

  lemma PrefixReady(t1: Node, items: seq<Item>, src: Path, dst: Path, k: nat)
    requires Ready(t1, items, src, dst) && k <= |items|
    ensures Consistent(items[..k]) && NonEmptyPaths(items[..k])
  {
    var p := items[..k];
    forall a, b | 0 <= a < k && 0 <= b < k && p[a].path == p[b].path ensures p[a].isDir == p[b].isDir {
      assert p[a] == items[a] && p[b] == items[b];
    }
  }

  /** Before item `k` is replayed, the directory that holds its destination exists. */
  lemma ParentReady(t1: Node, items: seq<Item>, src: Path, dst: Path, k: nat, fs: Node)
    requires Ready(t1, items, src, dst) && k < |items|
    requires forall w :: KindAt(fs, w) == KindAfter(t1, items[..k], dst, w)
    ensures KindAt(fs, Parent(dst + items[k].path)) == Some(true)
  {
    var q := items[k].path;
    assert Parent(dst + q) == dst + Parent(q);
    PrefixReady(t1, items, src, dst, k);
    if |q| == 1 {
      assert dst + Parent(q) == dst;
      var j := KindAfterCases(t1, items[..k], dst, dst);
      if j >= 0 {
        assert dst + items[..k][j].path == dst + [];
        AppendCancel(dst, items[..k][j].path, []);
      }
    } else {
      assert Item(Parent(q), true) in items[..k];
      var j :| 0 <= j < k && items[..k][j] == Item(Parent(q), true);
      KindAfterHit(t1, items[..k], dst, j);
    }
  }

  /** Before item `k` is replayed, its destination is free or already of its kind. */
  lemma TargetReady(t1: Node, items: seq<Item>, src: Path, dst: Path, k: nat, fs: Node)
    requires Ready(t1, items, src, dst) && k < |items|
    requires forall w :: KindAt(fs, w) == KindAfter(t1, items[..k], dst, w)
    ensures KindAt(fs, dst + items[k].path) == None || KindAt(fs, dst + items[k].path) == Some(items[k].isDir)
  {
    var j := KindAfterCases(t1, items[..k], dst, dst + items[k].path);
    if j >= 0 {
      assert items[..k][j] == items[j];
      AppendCancel(dst, items[j].path, items[k].path);
    }
  }

  /** Before item `k` is replayed, the source of a file item is a file. */
  lemma SourceReady(t1: Node, items: seq<Item>, src: Path, dst: Path, k: nat, fs: Node)
    requires Ready(t1, items, src, dst) && k < |items| && !items[k].isDir
    requires forall w :: KindAt(fs, w) == KindAfter(t1, items[..k], dst, w)
    ensures KindAt(fs, src + items[k].path) == Some(false)
  {
    var j := KindAfterCases(t1, items[..k], dst, src + items[k].path);
    if j >= 0 {
      assert items[..k][j] == items[j];
    }
  }

  lemma DirPathsSnoc(items: seq<Item>, it: Item)
    ensures DirPaths(items + [it]) == DirPaths(items) + if it.isDir then {it.path} else {}
  {
    var s := items + [it];
    assert forall i :: 0 <= i < |items| ==> s[i] == items[i];
    assert s[|items|] == it;
  }

  /** When the parent of `w0` is a directory and `w0` is not a file, no prefix of `w0` is a file. */
  lemma NoFilePrefix(fs: Node, w0: Path)
    requires w0 != [] && KindAt(fs, Parent(w0)) == Some(true) && KindAt(fs, w0) != Some(false)
    ensures forall k :: 0 <= k <= |w0| ==> KindAt(fs, w0[..k]) != Some(false)
  {
    forall k | 0 <= k <= |w0| ensures KindAt(fs, w0[..k]) != Some(false) {
      if k < |w0| {
        DirPrefixes(fs, Parent(w0), k);
        assert Parent(w0)[..k] == w0[..k];
      } else {
        assert w0[..k] == w0;
      }
    }
  }

  /** The directory item `it`, replayed on `fs` where it is ready, leaves exactly `dst + it.path` changed. */
  lemma DirStep(fs: Node, it: Item, dst: Path, w: Path)
    requires it.path != [] && it.isDir
    requires KindAt(fs, Parent(dst + it.path)) == Some(true)
    requires KindAt(fs, dst + it.path) != Some(false)
    ensures MakeDirs(fs, dst + it.path).Some?
    ensures KindAt(MakeDirs(fs, dst + it.path).value, w) == if w == dst + it.path then Some(true) else KindAt(fs, w)
  {
    var w0 := dst + it.path;
    NoFilePrefix(fs, w0);
    MakeDirsSucceeds(fs, w0);
    MakeDirsEffect(fs, w0, w);
    if IsPrefix(w, w0) && w != w0 {
      var p := Parent(w0);
      DirPrefixes(fs, p, |w|);
      assert p[..|w|] == w;
    }
  }

  /** The file item `it`, replayed on `fs` where it is ready, leaves exactly `dst + it.path` changed. */
  lemma FileStep(fs: Node, it: Item, src: Path, dst: Path, w: Path)
    requires it.path != [] && !it.isDir && src != dst
    requires KindAt(fs, Parent(dst + it.path)) == Some(true)
    requires KindAt(fs, dst + it.path) != Some(true)
    requires KindAt(fs, src + it.path) == Some(false)
    ensures Copy2(fs, src + it.path, dst + it.path).Some?
    ensures KindAt(Copy2(fs, src + it.path, dst + it.path).value, w) ==
            if w == dst + it.path then Some(false) else KindAt(fs, w)
  {
    if src + it.path == dst + it.path {
      AppendCancelRight(src, dst, it.path);
    }
    WriteFileSucceeds(fs, dst + it.path);
    WriteFileEffect(fs, dst + it.path, w);
  }

  lemma KindAfterSnoc(t1: Node, init: seq<Item>, it: Item, dst: Path, w: Path)
    ensures KindAfter(t1, init + [it], dst, w) ==
            if dst + it.path == w then Some(it.isDir) else KindAfter(t1, init, dst, w)
  {
    assert (init + [it])[..|init|] == init;
  }

  /** Creating a directory whose parent exists moves the kinds from `init` to `init + [it]`. */
  lemma DirStepKinds(t1: Node, init: seq<Item>, it: Item, dst: Path, fs: Node)
    requires it.path != [] && it.isDir
    requires KindAt(fs, Parent(dst + it.path)) == Some(true)
    requires KindAt(fs, dst + it.path) != Some(false)
    requires forall w :: KindAt(fs, w) == KindAfter(t1, init, dst, w)
    ensures MakeDirs(fs, dst + it.path).Some?
    ensures forall w :: KindAt(MakeDirs(fs, dst + it.path).value, w) == KindAfter(t1, init + [it], dst, w)
  {
    DirStep(fs, it, dst, []);
    forall w ensures KindAt(MakeDirs(fs, dst + it.path).value, w) == KindAfter(t1, init + [it], dst, w) {
      DirStep(fs, it, dst, w);
      KindAfterSnoc(t1, init, it, dst, w);
    }
  }

  /** Copying a file into an existing directory moves the kinds from `init` to `init + [it]`. */
  lemma FileStepKinds(t1: Node, init: seq<Item>, it: Item, src: Path, dst: Path, fs: Node)
    requires it.path != [] && !it.isDir && src != dst
    requires KindAt(fs, Parent(dst + it.path)) == Some(true)
    requires KindAt(fs, dst + it.path) != Some(true)
    requires KindAt(fs, src + it.path) == Some(false)
    requires forall w :: KindAt(fs, w) == KindAfter(t1, init, dst, w)
    ensures Copy2(fs, src + it.path, dst + it.path).Some?
    ensures forall w :: KindAt(Copy2(fs, src + it.path, dst + it.path).value, w) == KindAfter(t1, init + [it], dst, w)
  {
    FileStep(fs, it, src, dst, []);
    forall w ensures KindAt(Copy2(fs, src + it.path, dst + it.path).value, w) == KindAfter(t1, init + [it], dst, w) {
      FileStep(fs, it, src, dst, w);
      KindAfterSnoc(t1, init, it, dst, w);
    }
  }

  /** A directory already in `seen_dirs` is skipped; its destination is already a directory. */
  lemma SeenStepKinds(t1: Node, init: seq<Item>, it: Item, dst: Path, fs: Node)
    requires Consistent(init) && it.isDir && it.path in DirPaths(init)
    requires forall w :: KindAt(fs, w) == KindAfter(t1, init, dst, w)
    ensures forall w :: KindAt(fs, w) == KindAfter(t1, init + [it], dst, w)
  {
    var j :| 0 <= j < |init| && init[j].isDir && init[j].path == it.path;
    KindAfterHit(t1, init, dst, j);
    forall w ensures KindAt(fs, w) == KindAfter(t1, init + [it], dst, w) {
      KindAfterSnoc(t1, init, it, dst, w);
    }
  }

  /** One step of the replay, from the kinds after `init` to those after `init + [it]`. */
  lemma StepKinds(t1: Node, init: seq<Item>, it: Item, src: Path, dst: Path, st: Progress)
    requires it.path != [] && src != dst && Consistent(init)
    requires st.ok && st.seen == DirPaths(init)
    requires forall w :: KindAt(st.fs, w) == KindAfter(t1, init, dst, w)
    requires KindAt(st.fs, Parent(dst + it.path)) == Some(true)
    requires KindAt(st.fs, dst + it.path) == None || KindAt(st.fs, dst + it.path) == Some(it.isDir)
    requires !it.isDir ==> KindAt(st.fs, src + it.path) == Some(false)
    ensures Step(st, it, src, dst).ok
    ensures Step(st, it, src, dst).seen == DirPaths(init + [it])
    ensures forall w :: KindAt(Step(st, it, src, dst).fs, w) == KindAfter(t1, init + [it], dst, w)
  {
    DirPathsSnoc(init, it);
    if it.isDir {
      if it.path in st.seen {
        SeenStepKinds(t1, init, it, dst, st.fs);
      } else {
        DirStepKinds(t1, init, it, dst, st.fs);
      }
    } else {
      FileStepKinds(t1, init, it, src, dst, st.fs);
    }
  }

  /** One step of the replay keeps the invariant below. */
  lemma StepKeeps(t1: Node, items: seq<Item>, src: Path, dst: Path, k: nat, st: Progress)
    requires Ready(t1, items, src, dst) && k < |items|
    requires st.ok && st.seen == DirPaths(items[..k])
    requires forall w :: KindAt(st.fs, w) == KindAfter(t1, items[..k], dst, w)
    ensures Step(st, items[k], src, dst).ok
    ensures Step(st, items[k], src, dst).seen == DirPaths(items[..k + 1])
    ensures forall w :: KindAt(Step(st, items[k], src, dst).fs, w) == KindAfter(t1, items[..k + 1], dst, w)
  {
    var it := items[k];
    var init := items[..k];
    PrefixReady(t1, items, src, dst, k);
    ParentReady(t1, items, src, dst, k, st.fs);
    TargetReady(t1, items, src, dst, k, st.fs);
    if !it.isDir {
      SourceReady(t1, items, src, dst, k, st.fs);
    }
    StepKinds(t1, init, it, src, dst, st);
    TakeSnoc(items, k);
  }

  lemma TakeSnoc(items: seq<Item>, k: nat)
    requires k < |items|
    ensures items[..k + 1] == items[..k] + [items[k]]
  {
  }

  /**
   * The replay invariant: after the first `k` items nothing has raised,
   * `seen_dirs` holds their directory paths, and every path has the kind
   * the last of them naming it gave it, or its kind in `t1`.
   */
  lemma {:induction false} ReplayPrefix(t1: Node, items: seq<Item>, src: Path, dst: Path, k: nat)
    requires Ready(t1, items, src, dst) && k <= |items|
    ensures NonEmptyPaths(items[..k])
    ensures Replay(Progress(true, t1, {}), items[..k], src, dst).ok
    ensures Replay(Progress(true, t1, {}), items[..k], src, dst).seen == DirPaths(items[..k])
    ensures forall w :: KindAt(Replay(Progress(true, t1, {}), items[..k], src, dst).fs, w) == KindAfter(t1, items[..k], dst, w)
  {
    PrefixReady(t1, items, src, dst, k);
    if k > 0 {
      ReplayPrefix(t1, items, src, dst, k - 1);
      var st := Replay(Progress(true, t1, {}), items[..k - 1], src, dst);
      assert items[..k][..k - 1] == items[..k - 1] && items[..k][k - 1] == items[k - 1];
      assert Replay(Progress(true, t1, {}), items[..k], src, dst) == Step(st, items[k - 1], src, dst);
      StepKeeps(t1, items, src, dst, k - 1, st);
    }
  }

  // ---------------------------------------------------------------------
  // The whole copy

  /** Each listed entry's destination is free or already of the entry's kind. */
  predicate Compatible(t: Node, items: seq<Item>, dst: Path)
  {
    forall i :: 0 <= i < |items| ==>
      KindAt(t, dst + items[i].path) == None || KindAt(t, dst + items[i].path) == Some(items[i].isDir)
  }

  /** No prefix of `p`, `p` included, is a file: what `os.makedirs(p, exist_ok=True)` needs. */
  predicate NoFileOnPath(t: Node, p: Path)
  {
    forall k :: 0 <= k <= |p| ==> KindAt(t, p[..k]) != Some(false)
  }

  /**
   * The manifest of a directory lists exactly the entries strictly below it,
   * each with its kind, leaving out those with a hidden component when
   * hidden entries are ignored.
   */
  lemma ManifestExact(t: Node, src: Path, ignoreHidden: bool, q: Path, isDir: bool)
    requires WellFormed(t) && ToCopy(t, src, ignoreHidden).Some?
    ensures Item(q, isDir) in ToCopy(t, src, ignoreHidden).value <==>
            q != [] && KindAt(t, src + q) == Some(isDir) && (!ignoreHidden || NoHidden(q))
  {
    var n := Lookup(t, src).value;
    LookupWellFormed(t, src);
    AccumulateExact(n.children, [], ignoreHidden, q, isDir);
    assert q[0..] == q;
    LookupAppend(t, src, q);
  }

  /** Manifest paths are made of valid names. */
  lemma ManifestValid(t: Node, src: Path, ignoreHidden: bool, it: Item)
    requires WellFormed(t) && ToCopy(t, src, ignoreHidden).Some? && it in ToCopy(t, src, ignoreHidden).value
    ensures ValidPath(it.path)
  {
    var n := Lookup(t, src).value;
    ManifestExact(t, src, ignoreHidden, it.path, it.isDir);
    LookupWellFormed(t, src);
    LookupAppend(t, src, it.path);
    LookupWellFormed(n, it.path);
  }

  lemma ManifestConsistent(t: Node, src: Path, ignoreHidden: bool)
    requires WellFormed(t) && ToCopy(t, src, ignoreHidden).Some?
    ensures Consistent(ToCopy(t, src, ignoreHidden).value)
  {
    var items := ToCopy(t, src, ignoreHidden).value;
    forall i, j | 0 <= i < |items| && 0 <= j < |items| && items[i].path == items[j].path
      ensures items[i].isDir == items[j].isDir
    {
      ManifestExact(t, src, ignoreHidden, items[i].path, items[i].isDir);
      ManifestExact(t, src, ignoreHidden, items[j].path, items[j].isDir);
    }
  }

  /** After `os.makedirs(dst)` the replay of the manifest is ready to run. */
  lemma ReadyAfterMakeDirs(t: Node, src: Path, dst: Path, ignoreHidden: bool)
    requires WellFormed(t) && IsDirAt(t, src) && src != dst && NoFileOnPath(t, dst)
    requires Compatible(t, ToCopy(t, src, ignoreHidden).value, dst)
    ensures MakeDirs(t, dst).Some?
    ensures Ready(MakeDirs(t, dst).value, ToCopy(t, src, ignoreHidden).value, src, dst)
  {
    MakeDirsSucceeds(t, dst);
    var t1 := MakeDirs(t, dst).value;
    var items := ToCopy(t, src, ignoreHidden).value;
    MakeDirsEffect(t, dst, dst);
    AccumulateParentsFirst(Lookup(t, src).value.children, [], ignoreHidden);
    ManifestConsistent(t, src, ignoreHidden);
    ToCopyNonEmpty(t, src, ignoreHidden);
    forall i | 0 <= i < |items|
      ensures KindAt(t1, dst + items[i].path) == None || KindAt(t1, dst + items[i].path) == Some(items[i].isDir)
    {
      MakeDirsEffect(t, dst, dst + items[i].path);
    }
    forall i | 0 <= i < |items| && !items[i].isDir
      ensures KindAt(t1, src + items[i].path) == Some(false)
    {
      var w := src + items[i].path;
      ManifestExact(t, src, ignoreHidden, items[i].path, false);
      MakeDirsEffect(t, dst, w);
    }
  }

  /** The replay's final kinds, in terms of the tree right after `os.makedirs(dst)`. */
  lemma FinalKinds(t: Node, src: Path, dst: Path, ignoreHidden: bool)
    requires WellFormed(t) && IsDirAt(t, src) && src != dst && NoFileOnPath(t, dst)
    requires Compatible(t, ToCopy(t, src, ignoreHidden).value, dst)
    ensures MakeDirs(t, dst).Some?
    ensures Ready(MakeDirs(t, dst).value, ToCopy(t, src, ignoreHidden).value, src, dst)
    ensures CopyTreeSpec(t, src, dst, ignoreHidden).ok
    ensures CopyTreeSpec(t, src, dst, ignoreHidden).seen == DirPaths(ToCopy(t, src, ignoreHidden).value)
    ensures forall w :: KindAt(CopyTreeSpec(t, src, dst, ignoreHidden).fs, w) ==
                        KindAfter(MakeDirs(t, dst).value, ToCopy(t, src, ignoreHidden).value, dst, w)
  {
    var items := ToCopy(t, src, ignoreHidden).value;
    ReadyAfterMakeDirs(t, src, dst, ignoreHidden);
    var t1 := MakeDirs(t, dst).value;
    ReplayPrefix(t1, items, src, dst, |items|);
    assert items[..|items|] == items;
  }

  /** An existing path keeps its kind through the replay. */
  lemma KeptKind(t: Node, t1: Node, items: seq<Item>, src: Path, dst: Path, w: Path)
    requires NoFileOnPath(t, dst) && MakeDirs(t, dst) == Some(t1) && Compatible(t, items, dst)
    requires KindAt(t, w) != None
    ensures KindAfter(t1, items, dst, w) == KindAt(t, w)
  {
    var j := KindAfterCases(t1, items, dst, w);
    MakeDirsEffect(t, dst, w);
    if j == -1 && IsPrefix(w, dst) {
      assert dst[..|w|] == w;
    }
  }

  /** A path the replay creates is an ancestor of `dst` or a listed entry under it. */
  lemma NewKind(t: Node, t1: Node, items: seq<Item>, src: Path, dst: Path, w: Path)
    requires MakeDirs(t, dst) == Some(t1)
    requires KindAt(t, w) == None && KindAfter(t1, items, dst, w) != None
    ensures IsPrefix(w, dst) || (IsPrefix(dst, w) && Item(w[|dst|..], KindAfter(t1, items, dst, w).value) in items)
  {
    var j := KindAfterCases(t1, items, dst, w);
    MakeDirsEffect(t, dst, w);
    if j >= 0 {
      assert w[|dst|..] == items[j].path;
      assert items[j] in items;
    }
  }

  /** `dst` itself is a directory after the replay. */
  lemma DstKind(t1: Node, items: seq<Item>, src: Path, dst: Path)
    requires Ready(t1, items, src, dst)
    ensures KindAfter(t1, items, dst, dst) == Some(true)
  {
    var d := KindAfterCases(t1, items, dst, dst);
  }

  /**
   * A copy whose source is a directory, whose destination path crosses no
   * file and whose listed destinations are free or of the same kind,
   * succeeds. Afterwards `dst` is a directory, `seen_dirs` holds the
   * manifest's directories, every listed entry exists under `dst` with its
   * kind, nothing that existed changed kind, and every new path is an
   * ancestor of `dst` or a listed entry under `dst`.
   */
  lemma CopyTreeOutcome(t: Node, src: Path, dst: Path, ignoreHidden: bool)
    requires WellFormed(t) && IsDirAt(t, src) && src != dst && NoFileOnPath(t, dst)
    requires Compatible(t, ToCopy(t, src, ignoreHidden).value, dst)
    ensures CopyTreeSpec(t, src, dst, ignoreHidden).ok
    ensures KindAt(CopyTreeSpec(t, src, dst, ignoreHidden).fs, dst) == Some(true)
    ensures CopyTreeSpec(t, src, dst, ignoreHidden).seen == DirPaths(ToCopy(t, src, ignoreHidden).value)
    ensures forall it :: it in ToCopy(t, src, ignoreHidden).value ==>
              KindAt(CopyTreeSpec(t, src, dst, ignoreHidden).fs, dst + it.path) == Some(it.isDir)
    ensures forall w :: KindAt(t, w) != None ==> KindAt(CopyTreeSpec(t, src, dst, ignoreHidden).fs, w) == KindAt(t, w)
    ensures forall w :: KindAt(t, w) == None && KindAt(CopyTreeSpec(t, src, dst, ignoreHidden).fs, w) != None ==>
              IsPrefix(w, dst) ||
              (IsPrefix(dst, w) && Item(w[|dst|..], KindAt(CopyTreeSpec(t, src, dst, ignoreHidden).fs, w).value) in ToCopy(t, src, ignoreHidden).value)
  {
    var items := ToCopy(t, src, ignoreHidden).value;
    FinalKinds(t, src, dst, ignoreHidden);
    var t1 := MakeDirs(t, dst).value;
    var fs := CopyTreeSpec(t, src, dst, ignoreHidden).fs;
    DstKind(t1, items, src, dst);
    forall it | it in items ensures KindAt(fs, dst + it.path) == Some(it.isDir) {
      var i :| 0 <= i < |items| && items[i] == it;
      KindAfterHit(t1, items, dst, i);
    }
    forall w | KindAt(t, w) != None ensures KindAt(fs, w) == KindAt(t, w) {
      KeptKind(t, t1, items, src, dst, w);
    }
    forall w | KindAt(t, w) == None && KindAt(fs, w) != None
      ensures IsPrefix(w, dst) || (IsPrefix(dst, w) && Item(w[|dst|..], KindAt(fs, w).value) in items)
    {
      NewKind(t, t1, items, src, dst, w);
    }
  }

  // ---------------------------------------------------------------------
  // `seen_dirs`

  /**
   * `seen_dirs` only grows, and once the loop has gone through every item
   * it holds exactly the directory paths among them.
   */
  lemma {:induction false} ReplaySeen(st: Progress, items: seq<Item>, src: Path, dst: Path)
    requires NonEmptyPaths(items)
    ensures st.seen <= Replay(st, items, src, dst).seen
    ensures Replay(st, items, src, dst).ok ==> Replay(st, items, src, dst).seen == st.seen + DirPaths(items)
    decreases |items|
  {
    if items != [] {
      var init := items[..|items| - 1];
      var it := items[|items| - 1];
      assert items == init + [it];
      ReplaySeen(st, init, src, dst);
      DirPathsSnoc(init, it);
    } else {
      assert DirPaths(items) == {};
    }
  }

  /** When `copytree` returns normally, `seen_dirs` is the set of directory paths of the manifest. */
  lemma CopyTreeSeen(t: Node, src: Path, dst: Path, ignoreHidden: bool)
    requires CopyTreeSpec(t, src, dst, ignoreHidden).ok
    ensures CopyTreeSpec(t, src, dst, ignoreHidden).seen == DirPaths(ToCopy(t, src, ignoreHidden).value)
  {
    ToCopyNonEmpty(t, src, ignoreHidden);
    ReplaySeen(Progress(true, MakeDirs(t, dst).value, {}), ToCopy(t, src, ignoreHidden).value, src, dst);
  }
}
