/**
 * The first phase of `copytree`: the recursive enumeration (`accumulate`) of
 * the source into an ordered manifest of (relative path, is-directory) pairs.
 */
module Manifest {
  import opened FileTree

  datatype Item = Item(path: Path, isDir: bool)

  /**
   * `accumulate(base)` over the listing `cs` of the directory at `base`:
   * the entries in listing order, each with everything below it.
   */
  function Accumulate(cs: seq<Child>, base: Path, ignoreHidden: bool): seq<Item>
    decreases cs
  {
    if cs == [] then []
    else Entry(cs[0], base, ignoreHidden) + Accumulate(cs[1..], base, ignoreHidden)
  }

  /**
   * What one listed entry contributes: nothing when it is hidden and
   * `ignoreHidden` holds, else the entry itself and, for a directory, its
   * contents after it.
   */
  function Entry(c: Child, base: Path, ignoreHidden: bool): seq<Item>
    decreases c
  {
    if ignoreHidden && Hidden(c.name) then []
    else
      var cur := base + [c.name];
      match c.node
      case Dir(sub) => [Item(cur, true)] + Accumulate(sub, cur, ignoreHidden)
      case File => [Item(cur, false)]
  }

  /** The entry at `r` below `t` (possibly `t` itself) has kind `isDir` and is not pruned. */
  predicate ListedFrom(t: Node, r: Path, isDir: bool, ignoreHidden: bool)
  {
    Exists(t, r) && Lookup(t, r).value.Dir? == isDir && (!ignoreHidden || NoHidden(r))
  }

  /** The entry `r` strictly below `t` has kind `isDir` and the enumeration does not prune it. */
  predicate Listed(t: Node, r: Path, isDir: bool, ignoreHidden: bool)
  {
    r != [] && ListedFrom(t, r, isDir, ignoreHidden)
  }

  /**
   * Completeness and soundness of the manifest: an item is in it exactly when
   * its path lies below `base` and names an entry of the listed directory of
   * that kind, with no hidden component when `ignoreHidden` holds.
   */
  lemma {:induction false} AccumulateExact(cs: seq<Child>, base: Path, ignoreHidden: bool, p: Path, isDir: bool)
    requires WellFormed(Dir(cs))
    ensures Item(p, isDir) in Accumulate(cs, base, ignoreHidden) <==>
            IsPrefix(base, p) && Listed(Dir(cs), p[|base|..], isDir, ignoreHidden)
    decreases cs
  {
    if cs != [] {
      var c, rest := cs[0], cs[1..];
      WellFormedTail(cs);
      AccumulateExact(rest, base, ignoreHidden, p, isDir);
      EntryExact(c, base, ignoreHidden, p, isDir);
      PrefixChild(base, c.name, p);
      if IsPrefix(base, p) && |p| > |base| {
        var r, n, below := p[|base|..], p[|base|], p[|base| + 1..];
        assert r[0] == n && r[1..] == below;
        LookupFirst(cs, r);
        if n == c.name {
          assert Find(rest, n) == |rest|;
          assert r == [n] + below;
          NoHiddenAppend([n], below);
        }
      }
    }
  }

  /** What one entry contributes is the entry itself (kind included) and what lies below it, unless pruned. */
  lemma {:induction false} EntryExact(c: Child, base: Path, ignoreHidden: bool, p: Path, isDir: bool)
    requires WellFormed(c.node)
    ensures Item(p, isDir) in Entry(c, base, ignoreHidden) <==>
            && IsPrefix(base + [c.name], p)
            && (!ignoreHidden || !Hidden(c.name))
            && ListedFrom(c.node, p[|base| + 1..], isDir, ignoreHidden)
    decreases c
  {
    var cur := base + [c.name];
    if !(ignoreHidden && Hidden(c.name)) && IsPrefix(cur, p) {
      var r := p[|cur|..];
      if r == [] {
        assert p == cur;
      }
      if c.node.Dir? {
        AccumulateExact(c.node.children, cur, ignoreHidden, p, isDir);
      }
    } else if c.node.Dir? && !(ignoreHidden && Hidden(c.name)) {
      AccumulateExact(c.node.children, cur, ignoreHidden, p, isDir);
    }
  }
}

module ManifestPruning {
  import opened FileTree
  import opened Manifest
  import ManifestOrder

  /**
   * With `ignoreHidden`, no item has a hidden component below `base`: a
   * hidden entry is skipped and so is everything below a hidden directory.
   * No well-formedness is needed for this.
   */
  lemma {:induction false} AccumulateSkipsHidden(cs: seq<Child>, base: Path)
    ensures forall it :: it in Accumulate(cs, base, true) ==>
      |base| <= |it.path| && NoHidden(it.path[|base|..])
    decreases cs
  {
    if cs != [] {
      EntrySkipsHidden(cs[0], base);
      AccumulateSkipsHidden(cs[1..], base);
    }
  }

  lemma {:induction false} EntrySkipsHidden(c: Child, base: Path)
    ensures forall it :: it in Entry(c, base, true) ==>
      |base| <= |it.path| && NoHidden(it.path[|base|..])
    decreases c
  {
    if !Hidden(c.name) {
      var cur := base + [c.name];
      assert cur[|base|..] == [c.name];
      if c.node.Dir? {
        AccumulateSkipsHidden(c.node.children, cur);
        forall it | it in Accumulate(c.node.children, cur, true)
          ensures |base| <= |it.path| && NoHidden(it.path[|base|..])
        {
          // The item lies below `cur`: its path is `base`, the visible name, then a visible rest.
          ManifestOrder.AccumulateUnder(c.node.children, cur, true);
          assert it.path[..|cur|] == cur;
          assert it.path[|base|..] == [c.name] + it.path[|cur|..];
          NoHiddenAppend([c.name], it.path[|cur|..]);
        }
      }
    }
  }
}
