/**
 * `copytree(src, dst, ignore_hidden)` from the test helpers: list the
 * source tree first, create `dst`, then replay the list, creating each
 * directory once (remembered in `seen_dirs`) and copying each file with
 * `shutil.copy2`.
 */
module CopyTree {
  import opened FileTree
  import opened Manifest
  import opened ManifestOrder
  import opened FsOps

  /** What the replay loop has reached: whether no call raised so far, the tree, and `seen_dirs`. */
  datatype Progress = Progress(ok: bool, fs: Node, seen: set<Path>)

  predicate NonEmptyPaths(items: seq<Item>)
  {
    forall i :: 0 <= i < |items| ==> items[i].path != []
  }

  /** The directory paths among `items`: what `seen_dirs` holds once they are replayed. */
  function DirPaths(items: seq<Item>): set<Path>
  {
    set i | 0 <= i < |items| && items[i].isDir :: items[i].path
  }

  /** One iteration of the replay loop. */
  function Step(st: Progress, it: Item, src: Path, dst: Path): Progress
    requires it.path != []
  {
    if it.isDir then
      if it.path in st.seen then st
      else
        var seen := st.seen + {it.path};
        match MakeDirs(st.fs, dst + it.path)
        case None => Progress(false, st.fs, seen)
        case Some(t) => Progress(true, t, seen)
    else
      match Copy2(st.fs, src + it.path, dst + it.path)
      case None => Progress(false, st.fs, st.seen)
      case Some(t) => Progress(true, t, st.seen)
  }

  /** The replay loop over `items`, stopping at the first call that raises. */
  function Replay(st: Progress, items: seq<Item>, src: Path, dst: Path): Progress
    requires NonEmptyPaths(items)
    decreases |items|
  {
    if items == [] then st
    else
      var before := Replay(st, items[..|items| - 1], src, dst);
      if before.ok then Step(before, items[|items| - 1], src, dst) else before
  }

  /** `list(accumulate(''))`, taken before anything is written; `None` when `src` is not a directory. */
  function ToCopy(t: Node, src: Path, ignoreHidden: bool): Option<seq<Item>>
  {
    match Lookup(t, src)
    case Some(Dir(cs)) => Some(Accumulate(cs, [], ignoreHidden))
    case _ => None
  }

  lemma ToCopyNonEmpty(t: Node, src: Path, ignoreHidden: bool)
    requires ToCopy(t, src, ignoreHidden).Some?
    ensures NonEmptyPaths(ToCopy(t, src, ignoreHidden).value)
  {
    var items := ToCopy(t, src, ignoreHidden).value;
    AccumulateParentsFirst(Lookup(t, src).value.children, [], ignoreHidden);
    assert forall i :: 0 <= i < |items| ==> Below([], items[i].path);
  }

  /** `copytree(src, dst, ignore_hidden)`: the outcome, the final tree and `seen_dirs`. */
  function CopyTreeSpec(t: Node, src: Path, dst: Path, ignoreHidden: bool := true): Progress
  {
    match ToCopy(t, src, ignoreHidden)
    case None => Progress(false, t, {})
    case Some(items) =>
      match MakeDirs(t, dst)
      case None => Progress(false, t, {})
      case Some(t1) =>
        ToCopyNonEmpty(t, src, ignoreHidden);
        Replay(Progress(true, t1, {}), items, src, dst)
  }

  /** `made` lists each path of `seen` exactly once. */
  ghost predicate CreatedOnce(made: seq<Path>, seen: set<Path>)
  {
    && (forall i, j :: 0 <= i < j < |made| ==> made[i] != made[j])
    && (forall p :: p in made <==> p in seen)
  }

  lemma CreatedOnceSnoc(made: seq<Path>, seen: set<Path>, p: Path)
    requires CreatedOnce(made, seen) && p !in seen
    ensures CreatedOnce(made + [p], seen + {p})
  {
    var m := made + [p];
    forall i, j | 0 <= i < j < |m| ensures m[i] != m[j] {
      if j == |made| {
        assert m[i] == made[i] && made[i] in made;
      } else {
        assert m[i] == made[i] && m[j] == made[j];
      }
    }
  }

  /** A file system whose tree the operations below update in place. */
  class FileSystem {
    var root: Node

    constructor (t: Node)
      ensures root == t
    {
      root := t;
    }

    /** `os.makedirs(p, exist_ok=True)`; `ok` is false when it raises, and then nothing changes. */
    method MakeDirs(p: Path) returns (ok: bool)
      modifies this
      ensures ok == FsOps.MakeDirs(old(root), p).Some?
      ensures root == if ok then FsOps.MakeDirs(old(root), p).value else old(root)
    {
      var r := FsOps.MakeDirs(root, p);
      ok := r.Some?;
      if ok {
        root := r.value;
      }
    }

    /** `shutil.copy2(from, to)`; `ok` is false when it raises, and then nothing changes. */
    method Copy2(from: Path, to: Path) returns (ok: bool)
      requires from != [] && to != []
      modifies this
      ensures ok == FsOps.Copy2(old(root), from, to).Some?
      ensures root == if ok then FsOps.Copy2(old(root), from, to).value else old(root)
    {
      var r := FsOps.Copy2(root, from, to);
      ok := r.Some?;
      if ok {
        root := r.value;
      }
    }

    /**
     * One pass of the replay loop over the item `it`, given `seen_dirs` so far.
     * `called` tells whether the pass handed `it.path` to `os.makedirs`.
     */
    method ReplayItem(it: Item, src: Path, dst: Path, seen: set<Path>) returns (ok: bool, seen': set<Path>, ghost called: bool)
      requires it.path != []
      modifies this
      ensures Progress(ok, root, seen') == Step(Progress(true, old(root), seen), it, src, dst)
      ensures called <==> it.isDir && it.path !in seen
    {
      ok, seen', called := true, seen, false;
      if it.isDir {
        if it.path !in seen {
          seen' := seen + {it.path};
          called := true;
          ok := MakeDirs(dst + it.path);
        }
      } else {
        ok := Copy2(src + it.path, dst + it.path);
      }
    }

    /**
     * The replay loop of `copytree` over `toCopy`, from an empty `seen_dirs`.
     * `made` lists the paths handed to `os.makedirs` inside the loop: each
     * directory is created at most once.
     */
    method ReplayAll(toCopy: seq<Item>, src: Path, dst: Path) returns (ok: bool, seen: set<Path>, ghost made: seq<Path>)
      requires NonEmptyPaths(toCopy)
      modifies this
      ensures Progress(ok, root, seen) == Replay(Progress(true, old(root), {}), toCopy, src, dst)
      ensures forall i, j :: 0 <= i < j < |made| ==> made[i] != made[j]
      ensures forall p :: p in made <==> p in seen
    {
      ok, seen, made := true, {}, [];
      ghost var start := Progress(true, root, {});
      var k := 0;
      while k < |toCopy|
        invariant k <= |toCopy|
        invariant Replay(start, toCopy[..k], src, dst) == Progress(true, root, seen)
        invariant CreatedOnce(made, seen)
      {
        var it := toCopy[k];
        ghost var before := Progress(true, root, seen);
        ghost var called;
        ghost var seenBefore := seen;
        ok, seen, called := ReplayItem(it, src, dst, seen);
        if called {
          CreatedOnceSnoc(made, seenBefore, it.path);
          made := made + [it.path];
        }
        ReplaySnoc(start, toCopy, k, src, dst, before, Progress(ok, root, seen));
        if !ok {
          ReplayStops(start, toCopy, k + 1, src, dst);
          return;
        }
        k := k + 1;
      }
      assert toCopy[..k] == toCopy;
    }

    /**
     * `copytree(src, dst, ignore_hidden)`: list the source, create `dst`,
     * then replay the list. `made` is as for `ReplayAll`.
     */
    method CopyTree(src: Path, dst: Path, ignoreHidden: bool := true) returns (ok: bool, seen: set<Path>, ghost made: seq<Path>)
      modifies this
      ensures Progress(ok, root, seen) == CopyTreeSpec(old(root), src, dst, ignoreHidden)
      ensures forall i, j :: 0 <= i < j < |made| ==> made[i] != made[j]
      ensures forall p :: p in made <==> p in seen
    {
      seen, made := {}, [];
      var listing := ToCopy(root, src, ignoreHidden);
      if listing.None? {
        return false, seen, made;
      }
      var toCopy := listing.value;
      ToCopyNonEmpty(root, src, ignoreHidden);
      ok := MakeDirs(dst);
      if !ok {
        return;
      }
      ok, seen, made := ReplayAll(toCopy, src, dst);
    }
  }

  /** Replaying one more item is one more step, unless a call has already raised. */
  lemma ReplaySnoc(st: Progress, items: seq<Item>, k: nat, src: Path, dst: Path, before: Progress, after: Progress)
    requires NonEmptyPaths(items) && k < |items|
    requires NonEmptyPaths(items[..k]) && Replay(st, items[..k], src, dst) == before
    requires after == if before.ok then Step(before, items[k], src, dst) else before
    ensures NonEmptyPaths(items[..k + 1]) && Replay(st, items[..k + 1], src, dst) == after
  {
    assert items[..k + 1][..k] == items[..k];
  }

  /** Once a call has raised, the rest of the list is not replayed. */
  lemma {:induction false} ReplayStops(st: Progress, items: seq<Item>, k: nat, src: Path, dst: Path)
    requires NonEmptyPaths(items) && k <= |items|
    requires !Replay(st, items[..k], src, dst).ok
    ensures Replay(st, items, src, dst) == Replay(st, items[..k], src, dst)
    decreases |items| - k
  {
    if k < |items| {
      assert items[..k + 1][..k] == items[..k];
      ReplayStops(st, items, k + 1, src, dst);
    } else {
      assert items[..k] == items;
    }
  }
}
