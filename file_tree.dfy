/**
 * The file-system tree that every other module works over.
 *
 * A directory lists its entries in the order the directory listing returns
 * them; a file is a leaf (its bytes, times and permission bits are not
 * modelled). Paths are sequences of components, so joining is concatenation
 * and a path is normalised by construction.
 */
module FileTree {

  type Path = seq<string>

  datatype Option<T> = None | Some(value: T)

  datatype Node = File | Dir(children: seq<Child>)

  datatype Child = Child(name: string, node: Node)

  /** The hidden-name test of the source: the first character is a dot. */
  predicate Hidden(name: string)
  {
    |name| > 0 && name[0] == '.'
  }

  /** No component of `p` is hidden. */
  predicate NoHidden(p: Path)
  {
    forall k :: 0 <= k < |p| ==> !Hidden(p[k])
  }

  /**
   * A name a directory listing can return: never empty, never `.` or `..`,
   * and without a path separator.
   */
  predicate ValidName(n: string)
  {
    n != "" && n != "." && n != ".." && '/' !in n
  }

  predicate ValidPath(p: Path)
  {
    forall k :: 0 <= k < |p| ==> ValidName(p[k])
  }

  predicate DistinctNames(cs: seq<Child>)
  {
    forall i, j :: 0 <= i < j < |cs| ==> cs[i].name != cs[j].name
  }

  /** What every real directory satisfies: entry names are non-empty and distinct. */
  predicate WellFormed(t: Node)
  {
    match t
    case File => true
    case Dir(cs) =>
      DistinctNames(cs) &&
      forall i :: 0 <= i < |cs| ==> ValidName(cs[i].name) && WellFormed(cs[i].node)
  }

  predicate IsPrefix(a: Path, b: Path)
  {
    |a| <= |b| && b[..|a|] == a
  }

  /** The directory that holds `p`. */
  function Parent(p: Path): Path
    requires p != []
  {
    p[..|p| - 1]
  }

  /** Position of the entry called `n`, or `|cs|` when there is none. */
  function Find(cs: seq<Child>, n: string): (i: nat)
    ensures i <= |cs|
    ensures i < |cs| ==> cs[i].name == n
    ensures forall j :: 0 <= j < i ==> cs[j].name != n
  {
    if cs == [] then 0
    else if cs[0].name == n then 0
    else 1 + Find(cs[1..], n)
  }

  /** The node reached from `t` by following `p`, if any. */
  function Lookup(t: Node, p: Path): Option<Node>
    decreases p
  {
    if p == [] then Some(t)
    else match t
      case File => None
      case Dir(cs) =>
        var i := Find(cs, p[0]);
        if i < |cs| then Lookup(cs[i].node, p[1..]) else None
  }

  predicate Exists(t: Node, p: Path)
  {
    Lookup(t, p).Some?
  }

  predicate IsDirAt(t: Node, p: Path)
  {
    Lookup(t, p).Some? && Lookup(t, p).value.Dir?
  }

  predicate IsFileAt(t: Node, p: Path)
  {
    Lookup(t, p).Some? && Lookup(t, p).value.File?
  }

  /** `r` names an entry strictly below `t` that a traversal shows. */
  predicate Shown(t: Node, r: Path, includeHidden: bool)
  {
    r != [] && Exists(t, r) && (includeHidden || NoHidden(r))
  }

  /** Following `p + q` is following `p`, then `q` from where `p` led. */
  lemma {:induction false} LookupAppend(t: Node, p: Path, q: Path)
    ensures Lookup(t, p + q) ==
            match Lookup(t, p)
            case None => None
            case Some(n) => Lookup(n, q)
    decreases p
  {
    if p != [] {
      assert (p + q)[0] == p[0];
      assert (p + q)[1..] == p[1..] + q;
      match t
      case File =>
      case Dir(cs) =>
        var i := Find(cs, p[0]);
        if i < |cs| {
          LookupAppend(cs[i].node, p[1..], q);
        }
    } else {
      assert p + q == q;
    }
  }

  /** Every proper ancestor of an existing entry is a directory. */
  lemma AncestorIsDir(t: Node, p: Path, k: nat)
    requires Exists(t, p) && k < |p|
    ensures IsDirAt(t, p[..k])
  {
    assert p == p[..k] + p[k..];
    LookupAppend(t, p[..k], p[k..]);
  }

  /** What a lookup reaches in a well-formed tree is well-formed, and the path followed has valid names. */
  lemma {:induction false} LookupWellFormed(t: Node, p: Path)
    requires WellFormed(t) && Exists(t, p)
    ensures WellFormed(Lookup(t, p).value) && ValidPath(p)
    decreases p
  {
    if p != [] {
      var cs := t.children;
      var i := Find(cs, p[0]);
      LookupWellFormed(cs[i].node, p[1..]);
      assert forall k :: 1 <= k < |p| ==> p[k] == p[1..][k - 1];
    }
  }

  /** Looking up in a directory decides on its first entry, then the rest. */
  lemma LookupFirst(cs: seq<Child>, r: Path)
    requires cs != [] && r != []
    ensures Lookup(Dir(cs), r) ==
            if r[0] == cs[0].name then Lookup(cs[0].node, r[1..])
            else Lookup(Dir(cs[1..]), r)
  {
    if r[0] != cs[0].name {
      var i := Find(cs[1..], r[0]);
      assert Find(cs, r[0]) == 1 + i;
    }
  }

  /** A one-component path names an entry exactly when the directory lists that name. */
  lemma LookupSingle(cs: seq<Child>, n: string)
    ensures Lookup(Dir(cs), [n]) ==
            if Find(cs, n) < |cs| then Some(cs[Find(cs, n)].node) else None
  {
    var p := [n];
    assert p[0] == n && p[1..] == [];
    var i := Find(cs, n);
    if i < |cs| {
      assert Lookup(Dir(cs), p) == Lookup(cs[i].node, p[1..]);
    }
  }

  /** `x` lies under `base + [n]` exactly when it lies under `base` with `n` next. */
  lemma PrefixChild(base: Path, n: string, x: Path)
    ensures IsPrefix(base + [n], x) <==> IsPrefix(base, x) && |x| > |base| && x[|base|] == n
    ensures IsPrefix(base + [n], x) ==> x[|base| + 1..] == x[|base + [n]|..]
  {
    if IsPrefix(base, x) && |x| > |base| && x[|base|] == n {
      assert x[..|base| + 1] == x[..|base|] + [n];
    }
    if IsPrefix(base + [n], x) {
      assert x[..|base|] == x[..|base| + 1][..|base|];
      assert x[|base|] == x[..|base| + 1][|base|];
    }
  }

  /** The entries after the first of a well-formed directory form a well-formed directory. */
  lemma WellFormedTail(cs: seq<Child>)
    requires cs != [] && WellFormed(Dir(cs))
    ensures WellFormed(Dir(cs[1..])) && WellFormed(cs[0].node)
    ensures forall i :: 1 <= i < |cs| ==> cs[i].name != cs[0].name
  {
    var rest := cs[1..];
    forall i | 0 <= i < |rest| ensures ValidName(rest[i].name) && WellFormed(rest[i].node) {
      assert rest[i] == cs[i + 1];
    }
  }

  /** Joining onto the same path, or the same path onto two, is one-to-one. */
  lemma AppendCancel(a: Path, x: Path, y: Path)
    requires a + x == a + y
    ensures x == y
  {
    assert x == (a + x)[|a|..];
    assert y == (a + y)[|a|..];
  }

  lemma AppendCancelRight(a: Path, b: Path, x: Path)
    requires a + x == b + x
    ensures a == b
  {
    assert a == (a + x)[..|a|];
    assert b == (b + x)[..|b|];
  }

  lemma NoHiddenAppend(p: Path, q: Path)
    ensures NoHidden(p + q) <==> NoHidden(p) && NoHidden(q)
  {
    if NoHidden(p) && NoHidden(q) {
      forall k | 0 <= k < |p + q| ensures !Hidden((p + q)[k]) {
        if k >= |p| { assert (p + q)[k] == q[k - |p|]; }
      }
    }
    if NoHidden(p + q) {
      forall k | 0 <= k < |p| ensures !Hidden(p[k]) {
        assert (p + q)[k] == p[k];
      }
      forall k | 0 <= k < |q| ensures !Hidden(q[k]) {
        assert (p + q)[|p| + k] == q[k];
      }
    }
  }
}
