/**
 * The file-system writes `copytree` performs, as functions from the tree
 * before to the tree after (`None` when the call raises): creating a
 * directory with its missing ancestors, and copying one file.
 */
module FsOps {
  import opened FileTree

  /** Whether `p` names a directory (`Some(true)`), a file (`Some(false)`) or nothing. */
  function KindAt(t: Node, p: Path): Option<bool>
  {
    match Lookup(t, p)
    case None => None
    case Some(n) => Some(n.Dir?)
  }

  function Last(p: Path): string
    requires p != []
  {
    p[|p| - 1]
  }

  /** Nested new directories along `p`. */
  function Chain(p: Path): Node
  {
    if p == [] then Dir([]) else Dir([Child(p[0], Chain(p[1..]))])
  }

  /**
   * `os.makedirs(p, exist_ok=True)` below the directory `t`: create the
   * missing directories along `p`; raises when a component of `p`, `p`
   * itself included, is a file.
   */
  function MakeDirs(t: Node, p: Path): Option<Node>
    decreases p
  {
    match t
    case File => None
    case Dir(cs) =>
      if p == [] then Some(t)
      else
        var i := Find(cs, p[0]);
        if i == |cs| then Some(Dir(cs + [Child(p[0], Chain(p[1..]))]))
        else
          match MakeDirs(cs[i].node, p[1..])
          case None => None
          case Some(n) => Some(Dir(cs[i := Child(p[0], n)]))
  }

  /**
   * Opening `p` for writing and writing a file there: raises unless the parent
   * of `p` is a directory; raises when `p` is a directory; an existing file is
   * overwritten (contents are not modelled).
   */
  function WriteFile(t: Node, p: Path): Option<Node>
    requires p != []
    decreases p
  {
    match t
    case File => None
    case Dir(cs) =>
      var i := Find(cs, p[0]);
      if |p| == 1 then
        if i == |cs| then Some(Dir(cs + [Child(p[0], File)]))
        else if cs[i].node.File? then Some(t)
        else None
      else if i == |cs| then None
      else
        match WriteFile(cs[i].node, p[1..])
        case None => None
        case Some(n) => Some(Dir(cs[i := Child(p[0], n)]))
  }

  /**
   * `shutil.copy2(from, to)`: into a directory `to` the copy goes under the
   * source's base name; copying a path onto itself raises; the source must be
   * a file; then the target is written.
   */
  function Copy2(t: Node, from: Path, to: Path): Option<Node>
    requires from != [] && to != []
  {
    var target := if KindAt(t, to) == Some(true) then to + [Last(from)] else to;
    if target == from then None
    else if KindAt(t, from) != Some(false) then None
    else WriteFile(t, target)
  }

  // ---------------------------------------------------------------------
  // How a lookup walks down one level

  lemma KindAtStep(cs: seq<Child>, w: Path)
    requires w != []
    ensures KindAt(Dir(cs), w) ==
            if Find(cs, w[0]) < |cs| then KindAt(cs[Find(cs, w[0])].node, w[1..]) else None
  {
  }

  lemma FindAppend(cs: seq<Child>, c: Child, n: string)
    ensures Find(cs, n) < |cs| ==> Find(cs + [c], n) == Find(cs, n)
    ensures Find(cs, n) == |cs| ==> Find(cs + [c], n) == if c.name == n then |cs| else |cs| + 1
  {
    if cs != [] {
      assert (cs + [c])[1..] == cs[1..] + [c];
      FindAppend(cs[1..], c, n);
    }
  }

  lemma FindReplace(cs: seq<Child>, i: nat, c: Child, n: string)
    requires i < |cs| && c.name == cs[i].name
    ensures Find(cs[i := c], n) == Find(cs, n)
  {
    if cs != [] && i > 0 {
      assert cs[i := c][1..] == cs[1..][i - 1 := c];
      FindReplace(cs[1..], i - 1, c, n);
    }
  }

  /** The chain holds a directory exactly at each prefix of its path. */
  lemma {:induction false} ChainKinds(p: Path, w: Path)
    ensures KindAt(Chain(p), w) == if IsPrefix(w, p) then Some(true) else None
    decreases p
  {
    if w != [] {
      if p == [] {
        assert KindAt(Chain(p), w) == None;
      } else {
        KindAtStep([Child(p[0], Chain(p[1..]))], w);
        if w[0] == p[0] {
          ChainKinds(p[1..], w[1..]);
          assert IsPrefix(w, p) <==> IsPrefix(w[1..], p[1..]) by {
            assert w == [w[0]] + w[1..] && p == [p[0]] + p[1..];
          }
        }
      }
    }
  }

  // ---------------------------------------------------------------------
  // The effect of creating directories

  /**
   * A successful `os.makedirs(p)` makes every prefix of `p` a directory and
   * changes nothing else: every other path keeps its kind or its absence.
   */
  lemma {:induction false} MakeDirsEffect(t: Node, p: Path, w: Path)
    requires MakeDirs(t, p).Some?
    ensures KindAt(MakeDirs(t, p).value, w) == if IsPrefix(w, p) then Some(true) else KindAt(t, w)
    decreases p
  {
    var t' := MakeDirs(t, p).value;
    if w != [] && p != [] {
      var cs := t.children;
      var i := Find(cs, p[0]);
      KindAtStep(cs, w);
      KindAtStep(t'.children, w);
      assert IsPrefix(w, p) <==> w[0] == p[0] && IsPrefix(w[1..], p[1..]) by {
        assert w == [w[0]] + w[1..] && p == [p[0]] + p[1..];
      }
      if i == |cs| {
        var c := Child(p[0], Chain(p[1..]));
        FindAppend(cs, c, w[0]);
        if w[0] == p[0] {
          ChainKinds(p[1..], w[1..]);
        } else if Find(cs, w[0]) < |cs| {
          assert (cs + [c])[Find(cs, w[0])] == cs[Find(cs, w[0])];
        }
      } else {
        var n := MakeDirs(cs[i].node, p[1..]).value;
        FindReplace(cs, i, Child(p[0], n), w[0]);
        if w[0] == p[0] {
          MakeDirsEffect(cs[i].node, p[1..], w[1..]);
        }
      }
    }
  }

  /** `os.makedirs(p, exist_ok=True)` succeeds exactly when no prefix of `p`, `p` included, is a file. */
  lemma {:induction false} MakeDirsSucceeds(t: Node, p: Path)
    ensures MakeDirs(t, p).Some? <==> forall k :: 0 <= k <= |p| ==> KindAt(t, p[..k]) != Some(false)
    decreases p
  {
    assert p[..0] == [];
    if t.Dir? && p != [] {
      var cs := t.children;
      var i := Find(cs, p[0]);
      if i < |cs| {
        MakeDirsSucceeds(cs[i].node, p[1..]);
        forall k | 1 <= k <= |p| ensures KindAt(t, p[..k]) == KindAt(cs[i].node, p[1..][..k - 1]) {
          assert p[..k][0] == p[0] && p[..k][1..] == p[1..][..k - 1];
          KindAtStep(cs, p[..k]);
        }
        if forall k :: 0 <= k <= |p| - 1 ==> KindAt(cs[i].node, p[1..][..k]) != Some(false) {
          forall k | 0 <= k <= |p| ensures KindAt(t, p[..k]) != Some(false) {
            if k >= 1 {
              assert KindAt(cs[i].node, p[1..][..k - 1]) != Some(false);
            }
          }
        } else {
          var k :| 0 <= k <= |p| - 1 && KindAt(cs[i].node, p[1..][..k]) == Some(false);
          assert KindAt(t, p[..k + 1]) == Some(false);
        }
      } else {
        forall k | 1 <= k <= |p| ensures KindAt(t, p[..k]) == None {
          assert p[..k][0] == p[0];
          KindAtStep(cs, p[..k]);
        }
      }
    }
  }

  // ---------------------------------------------------------------------
  // The effect of writing a file

  /** A successful write makes `p` a file and changes nothing else. */
  lemma {:induction false} WriteFileEffect(t: Node, p: Path, w: Path)
    requires p != [] && WriteFile(t, p).Some?
    ensures KindAt(WriteFile(t, p).value, w) == if w == p then Some(false) else KindAt(t, w)
    decreases p
  {
    var t' := WriteFile(t, p).value;
    if w != [] {
      var cs := t.children;
      var i := Find(cs, p[0]);
      KindAtStep(cs, w);
      KindAtStep(t'.children, w);
      assert w == p <==> w[0] == p[0] && w[1..] == p[1..] by {
        assert w == [w[0]] + w[1..] && p == [p[0]] + p[1..];
      }
      if |p| == 1 {
        assert p[1..] == [];
        if i == |cs| {
          var c := Child(p[0], File);
          FindAppend(cs, c, w[0]);
          if w[0] != p[0] && Find(cs, w[0]) < |cs| {
            assert (cs + [c])[Find(cs, w[0])] == cs[Find(cs, w[0])];
          }
        }
      } else {
        var n := WriteFile(cs[i].node, p[1..]).value;
        FindReplace(cs, i, Child(p[0], n), w[0]);
        if w[0] == p[0] {
          WriteFileEffect(cs[i].node, p[1..], w[1..]);
        }
      }
    }
  }

  /** A write succeeds exactly when the parent of `p` is a directory and `p` is not. */
  lemma {:induction false} WriteFileSucceeds(t: Node, p: Path)
    requires p != []
    ensures WriteFile(t, p).Some? <==> KindAt(t, Parent(p)) == Some(true) && KindAt(t, p) != Some(true)
    decreases p
  {
    if t.Dir? {
      var cs := t.children;
      var i := Find(cs, p[0]);
      KindAtStep(cs, p);
      if |p| == 1 {
        assert Parent(p) == [] && p[1..] == [];
      } else {
        assert Parent(p)[0] == p[0] && Parent(p)[1..] == Parent(p[1..]);
        KindAtStep(cs, Parent(p));
        if i < |cs| {
          WriteFileSucceeds(cs[i].node, p[1..]);
        }
      }
    } else {
      if |p| > 1 {
        assert Parent(p) != [];
      }
    }
  }

  // ---------------------------------------------------------------------
  // Well-formedness is kept

  lemma {:induction false} ChainWellFormed(p: Path)
    requires ValidPath(p)
    ensures WellFormed(Chain(p))
    decreases p
  {
    if p != [] {
      assert ValidPath(p[1..]) by {
        forall k | 0 <= k < |p[1..]| ensures ValidName(p[1..][k]) { assert p[1..][k] == p[k + 1]; }
      }
      ChainWellFormed(p[1..]);
    }
  }

  lemma {:induction false} MakeDirsWellFormed(t: Node, p: Path)
    requires WellFormed(t) && ValidPath(p) && MakeDirs(t, p).Some?
    ensures WellFormed(MakeDirs(t, p).value)
    decreases p
  {
    if p != [] {
      var cs := t.children;
      var i := Find(cs, p[0]);
      assert ValidPath(p[1..]) by {
        forall k | 0 <= k < |p[1..]| ensures ValidName(p[1..][k]) { assert p[1..][k] == p[k + 1]; }
      }
      if i == |cs| {
        ChainWellFormed(p[1..]);
        var cs' := cs + [Child(p[0], Chain(p[1..]))];
        assert forall j :: 0 <= j < |cs| ==> cs'[j] == cs[j];
      } else {
        MakeDirsWellFormed(cs[i].node, p[1..]);
      }
    }
  }

  lemma {:induction false} WriteFileWellFormed(t: Node, p: Path)
    requires p != [] && WellFormed(t) && ValidPath(p) && WriteFile(t, p).Some?
    ensures WellFormed(WriteFile(t, p).value)
    decreases p
  {
    var cs := t.children;
    var i := Find(cs, p[0]);
    if |p| == 1 {
      if i == |cs| {
        var cs' := cs + [Child(p[0], File)];
        assert forall j :: 0 <= j < |cs| ==> cs'[j] == cs[j];
      }
    } else {
      assert ValidPath(p[1..]) by {
        forall k | 0 <= k < |p[1..]| ensures ValidName(p[1..][k]) { assert p[1..][k] == p[k + 1]; }
      }
      WriteFileWellFormed(cs[i].node, p[1..]);
    }
  }
}
