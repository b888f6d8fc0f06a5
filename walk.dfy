/**
 * `walk(top, include_hidden)`: a top-down traversal that yields, for each
 * directory it visits, the directory and the names of its subdirectories and
 * files; unless hidden names are included it prunes them from both lists in
 * place before the traversal descends, so a hidden directory is never entered.
 */
module Walk {
  import opened FileTree
  import opened Listing

  datatype Level = Level(base: Path, dirs: seq<string>, files: seq<string>)

  /** Names of the subdirectories, in listing order. */
  function DirNames(cs: seq<Child>): seq<string>
  {
    if cs == [] then []
    else (if cs[0].node.Dir? then [cs[0].name] else []) + DirNames(cs[1..])
  }

  /** Names of the other entries, in listing order. */
  function FileNames(cs: seq<Child>): seq<string>
  {
    if cs == [] then []
    else (if cs[0].node.Dir? then [] else [cs[0].name]) + FileNames(cs[1..])
  }

  /** What `walk` leaves of a listing: hidden names go unless they are included. */
  function Pruned(names: seq<string>, includeHidden: bool): seq<string>
  {
    if includeHidden then names else Kept(names, Hidden)
  }

  /** The levels yielded from the directory `t` found at `base`; a file yields none. */
  function WalkLevels(t: Node, base: Path, includeHidden: bool): seq<Level>
    decreases t, 0
  {
    match t
    case File => []
    case Dir(cs) =>
      var dirs := Pruned(DirNames(cs), includeHidden);
      [Level(base, dirs, Pruned(FileNames(cs), includeHidden))] + Descend(cs, dirs, base, includeHidden)
  }

  /** The traversal goes on into each remaining subdirectory name, in order. */
  function Descend(cs: seq<Child>, names: seq<string>, base: Path, includeHidden: bool): seq<Level>
    decreases cs, |names|
  {
    if names == [] then []
    else
      var n := names[|names| - 1];
      var i := Find(cs, n);
      Descend(cs, names[..|names| - 1], base, includeHidden) +
      (if i < |cs| then WalkLevels(cs[i].node, base + [n], includeHidden) else [])
  }

  /** The entries a level contributes: each file and each subdirectory joined to the level's base. */
  function LevelEntries(lv: Level): set<Path>
  {
    set f | f in lv.files + lv.dirs :: lv.base + [f]
  }

  function Collected(levels: seq<Level>): set<Path>
  {
    if levels == [] then {} else LevelEntries(levels[0]) + Collected(levels[1..])
  }

  /** The body of `walk` at one level: prune both listings in place unless hidden names are included. */
  method PruneLevel(dirs: MutableList<string>, files: MutableList<string>, includeHidden: bool)
    requires dirs != files
    modifies dirs, files
    ensures dirs.items == Pruned(old(dirs.items), includeHidden)
    ensures files.items == Pruned(old(files.items), includeHidden)
  {
    if !includeHidden {
      RemoveInPlace(dirs, Hidden);
      RemoveInPlace(files, Hidden);
    }
  }

  /**
   * `walk` over the directory `t` found at `base`: each level lists the
   * directory, prunes the two name lists in place, and the traversal then
   * descends into the names left in the pruned list.
   */
  method Walk(t: Node, base: Path, includeHidden: bool) returns (levels: seq<Level>)
    ensures levels == WalkLevels(t, base, includeHidden)
    decreases t, 1
  {
    match t
    case File =>
      levels := [];
    case Dir(cs) =>
      var dirs := new MutableList(DirNames(cs));
      var files := new MutableList(FileNames(cs));
      PruneLevel(dirs, files, includeHidden);
      var below := DescendInto(cs, dirs.items, base, includeHidden);
      levels := [Level(base, dirs.items, files.items)] + below;
  }

  /** The descent of `walk`: into each name left in the pruned list of subdirectories, in order. */
  method DescendInto(cs: seq<Child>, names: seq<string>, base: Path, includeHidden: bool)
    returns (levels: seq<Level>)
    ensures levels == Descend(cs, names, base, includeHidden)
    decreases cs, 0
  {
    levels := [];
    var k := 0;
    while k < |names|
      invariant k <= |names|
      invariant levels == Descend(cs, names[..k], base, includeHidden)
    {
      var n := names[k];
      var i := Find(cs, n);
      assert names[..k + 1][..k] == names[..k];
      if i < |cs| {
        var sub := Walk(cs[i].node, base + [n], includeHidden);
        levels := levels + sub;
      }
      k := k + 1;
    }
    assert names[..k] == names;
  }
}

module WalkFacts {
  import opened FileTree
  import opened Listing
  import opened Walk

  lemma {:induction false} CollectedAppend(a: seq<Level>, b: seq<Level>)
    ensures Collected(a + b) == Collected(a) + Collected(b)
  {
    if a != [] {
      assert (a + b)[0] == a[0] && (a + b)[1..] == a[1..] + b;
      CollectedAppend(a[1..], b);
    } else {
      assert a + b == b;
    }
  }

  /** Every listed name is a subdirectory name or a file name, and the subdirectory names are those found as directories. */
  lemma {:induction false} NamesSplit(cs: seq<Child>, n: string)
    ensures (n in DirNames(cs) || n in FileNames(cs)) <==> Find(cs, n) < |cs|
    ensures Find(cs, n) < |cs| && cs[Find(cs, n)].node.Dir? ==> n in DirNames(cs)
  {
    if cs != [] {
      NamesSplit(cs[1..], n);
      if cs[0].name != n {
        assert Find(cs, n) == 1 + Find(cs[1..], n);
      }
    }
  }

  /**
   * The traversal is exact: what the levels yielded from the directory `t`
   * at `base` collect is every entry at any depth below it, files and
   * directories alike, with hidden names and everything under a hidden
   * directory left out unless they are included.
   */
  lemma {:induction false} WalkExact(t: Node, base: Path, includeHidden: bool, x: Path)
    ensures x in Collected(WalkLevels(t, base, includeHidden)) <==>
            IsPrefix(base, x) && Shown(t, x[|base|..], includeHidden)
    decreases t, 1
  {
    match t
    case File =>
    case Dir(cs) =>
      var dirs := Pruned(DirNames(cs), includeHidden);
      var lv := Level(base, dirs, Pruned(FileNames(cs), includeHidden));
      CollectedAppend([lv], Descend(cs, dirs, base, includeHidden));
      assert Collected([lv]) == LevelEntries(lv);
      DescendExact(cs, dirs, base, includeHidden, x);
      FirstLevelExact(cs, base, includeHidden, x);
      DeeperExact(cs, base, includeHidden, x);
  }

  /** A level's entries are the paths one step below its base, by a listed name. */
  lemma LevelMember(lv: Level, x: Path)
    ensures x in LevelEntries(lv) <==>
            IsPrefix(lv.base, x) && |x| == |lv.base| + 1 && x[|lv.base|] in lv.files + lv.dirs
  {
    var base := lv.base;
    if IsPrefix(base, x) && |x| == |base| + 1 {
      assert x == base + [x[|base|]];
    }
    if x in LevelEntries(lv) {
      var f :| f in lv.files + lv.dirs && x == base + [f];
      assert x[..|base|] == base && x[|base|] == f;
    }
  }

  /** The first level yields exactly the entries one step below `base`. */
  lemma FirstLevelExact(cs: seq<Child>, base: Path, includeHidden: bool, x: Path)
    ensures x in LevelEntries(Level(base, Pruned(DirNames(cs), includeHidden), Pruned(FileNames(cs), includeHidden))) <==>
            IsPrefix(base, x) && |x| == |base| + 1 && Shown(Dir(cs), x[|base|..], includeHidden)
  {
    var dirs, files := Pruned(DirNames(cs), includeHidden), Pruned(FileNames(cs), includeHidden);
    LevelMember(Level(base, dirs, files), x);
    if IsPrefix(base, x) && |x| == |base| + 1 {
      var n := x[|base|];
      KeptMembers(DirNames(cs), Hidden);
      KeptMembers(FileNames(cs), Hidden);
      NamesSplit(cs, n);
      assert x[|base|..] == [n];
      assert n in files + dirs <==>
        (n in FileNames(cs) || n in DirNames(cs)) && (includeHidden || !Hidden(n));
      assert NoHidden([n]) <==> !Hidden(n);
      LookupSingle(cs, n);
    }
  }

  /** The descent yields exactly the entries more than one step below `base`. */
  lemma DeeperExact(cs: seq<Child>, base: Path, includeHidden: bool, x: Path)
    ensures (IsPrefix(base, x) && |x| > |base| + 1 && x[|base|] in Pruned(DirNames(cs), includeHidden) &&
             BelowEntry(cs, x[|base|], base, includeHidden, x)) <==>
            IsPrefix(base, x) && |x| > |base| + 1 && Shown(Dir(cs), x[|base|..], includeHidden)
  {
    if IsPrefix(base, x) && |x| > |base| + 1 {
      var r, n, rest := x[|base|..], x[|base|], x[|base| + 1..];
      assert r[0] == n && r[1..] == rest;
      assert r == [n] + rest;
      KeptMembers(DirNames(cs), Hidden);
      NamesSplit(cs, n);
      NoHiddenAppend([n], rest);
      assert NoHidden([n]) <==> !Hidden(n);
      var i := Find(cs, n);
      assert Lookup(Dir(cs), r) == if i < |cs| then Lookup(cs[i].node, rest) else None;
    }
  }

  /** The levels below one subdirectory name collect what lies below that entry. */
  predicate BelowEntry(cs: seq<Child>, n: string, base: Path, includeHidden: bool, x: Path)
  {
    && IsPrefix(base, x) && |x| > |base| + 1 && x[|base|] == n
    && Find(cs, n) < |cs|
    && Shown(cs[Find(cs, n)].node, x[|base| + 1..], includeHidden)
  }

  lemma {:induction false} DescendExact(cs: seq<Child>, names: seq<string>, base: Path, includeHidden: bool, x: Path)
    ensures x in Collected(Descend(cs, names, base, includeHidden)) <==>
            IsPrefix(base, x) && |x| > |base| + 1 && x[|base|] in names &&
            BelowEntry(cs, x[|base|], base, includeHidden, x)
    decreases cs, 0, |names|
  {
    if names != [] {
      var init, n := names[..|names| - 1], names[|names| - 1];
      var i := Find(cs, n);
      var here := if i < |cs| then WalkLevels(cs[i].node, base + [n], includeHidden) else [];
      assert Descend(cs, names, base, includeHidden) == Descend(cs, init, base, includeHidden) + here;
      LastSplit(names);
      CollectedAppend(Descend(cs, init, base, includeHidden), here);
      var inInit := x in Collected(Descend(cs, init, base, includeHidden));
      var inHere := x in Collected(here);
      DescendExact(cs, init, base, includeHidden, x);
      DescendOne(cs, n, base, includeHidden, x);
      if IsPrefix(base, x) && |x| > |base| + 1 {
        var m := x[|base|];
        assert m in names <==> m in init || m == n;
      }
    }
  }

  lemma LastSplit(names: seq<string>)
    requires names != []
    ensures names == names[..|names| - 1] + [names[|names| - 1]]
  {
  }

  lemma {:induction false} DescendOne(cs: seq<Child>, n: string, base: Path, includeHidden: bool, x: Path)
    ensures var i := Find(cs, n);
      x in Collected(if i < |cs| then WalkLevels(cs[i].node, base + [n], includeHidden) else []) <==>
      BelowEntry(cs, n, base, includeHidden, x)
    decreases cs, 0, 0
  {
    var i := Find(cs, n);
    if i < |cs| {
      WalkExact(cs[i].node, base + [n], includeHidden, x);
      PrefixChild(base, n, x);
    }
  }
}
