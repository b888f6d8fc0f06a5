/**
 * The order of the manifest: a pre-order in which every directory comes
 * before what lies below it, which is what lets the replay create each
 * parent before its entries.
 */
module ManifestOrder {
  import opened FileTree
  import opened Manifest

  function Names(cs: seq<Child>): (ns: seq<string>)
    ensures |ns| == |cs| && forall i :: 0 <= i < |cs| ==> ns[i] == cs[i].name
  {
    if cs == [] then [] else [cs[0].name] + Names(cs[1..])
  }

  /** `p` lies strictly below `anc`. */
  predicate Below(anc: Path, p: Path)
  {
    IsPrefix(anc, p) && |anc| < |p|
  }

  /**
   * Every item lies strictly below `base`, and one more than one level below
   * `base` is preceded by the directory item of its parent.
   */
  predicate ParentsFirst(items: seq<Item>, base: Path)
  {
    forall k :: 0 <= k < |items| ==>
      && Below(base, items[k].path)
      && (|items[k].path| == |base| + 1 || Item(Parent(items[k].path), true) in items[..k])
  }

  /** No item is a strict ancestor of an item that comes before it. */
  predicate AncestorsFirst(items: seq<Item>)
  {
    forall j, k :: 0 <= j < k < |items| ==> !Below(items[k].path, items[j].path)
  }

  lemma ParentsFirstAppend(a: seq<Item>, b: seq<Item>, base: Path)
    requires ParentsFirst(a, base) && ParentsFirst(b, base)
    ensures ParentsFirst(a + b, base)
  {
    var ab := a + b;
    forall k | 0 <= k < |ab|
      ensures Below(base, ab[k].path)
      ensures |ab[k].path| == |base| + 1 || Item(Parent(ab[k].path), true) in ab[..k]
    {
      if k < |a| {
        assert ab[k] == a[k] && ab[..k] == a[..k];
      } else {
        assert ab[k] == b[k - |a|] && ab[..k] == a + b[..k - |a|];
      }
    }
  }

  /** Pre-order: a directory's item precedes the items of its entries. */
  lemma {:induction false} AccumulateParentsFirst(cs: seq<Child>, base: Path, ignoreHidden: bool)
    ensures ParentsFirst(Accumulate(cs, base, ignoreHidden), base)
    decreases cs
  {
    if cs != [] {
      EntryParentsFirst(cs[0], base, ignoreHidden);
      AccumulateParentsFirst(cs[1..], base, ignoreHidden);
      ParentsFirstAppend(Entry(cs[0], base, ignoreHidden), Accumulate(cs[1..], base, ignoreHidden), base);
    }
  }

  /** Lying below `base/n` is lying below `base`, under `n`, more than one level down. */
  lemma BelowChild(base: Path, n: string, p: Path)
    requires Below(base + [n], p)
    ensures Below(base, p) && p[|base|] == n && |p| > |base| + 1
  {
    var cur := base + [n];
    assert p[..|cur|] == cur;
    assert p[..|base|] == p[..|cur|][..|base|];
    assert p[|base|] == p[..|cur|][|base|];
  }

  lemma {:induction false} EntryParentsFirst(c: Child, base: Path, ignoreHidden: bool)
    ensures ParentsFirst(Entry(c, base, ignoreHidden), base)
    decreases c
  {
    if !(ignoreHidden && Hidden(c.name)) && c.node.Dir? {
      var cur := base + [c.name];
      var sub := Accumulate(c.node.children, cur, ignoreHidden);
      AccumulateParentsFirst(c.node.children, cur, ignoreHidden);
      var e := [Item(cur, true)] + sub;
      assert Entry(c, base, ignoreHidden) == e;
      forall k | 0 <= k < |e|
        ensures Below(base, e[k].path)
        ensures |e[k].path| == |base| + 1 || Item(Parent(e[k].path), true) in e[..k]
      {
        if k > 0 {
          var p := sub[k - 1].path;
          assert e[k] == sub[k - 1];
          assert e[..k] == [Item(cur, true)] + sub[..k - 1];
          BelowChild(base, c.name, p);
          if |p| == |cur| + 1 {
            assert Parent(p) == cur;
          }
        }
      }
    }
  }

  lemma EntryUnder(c: Child, base: Path, ignoreHidden: bool)
    ensures forall it :: it in Entry(c, base, ignoreHidden) ==>
      Below(base, it.path) && it.path[|base|] == c.name
  {
    var cur := base + [c.name];
    if !(ignoreHidden && Hidden(c.name)) && c.node.Dir? {
      var sub := Accumulate(c.node.children, cur, ignoreHidden);
      AccumulateParentsFirst(c.node.children, cur, ignoreHidden);
      assert Entry(c, base, ignoreHidden) == [Item(cur, true)] + sub;
      forall it | it in sub ensures Below(base, it.path) && it.path[|base|] == c.name {
        var k :| 0 <= k < |sub| && sub[k] == it;
        BelowChild(base, c.name, it.path);
      }
    }
    assert cur[..|base|] == base;
  }

  /** Every item lies strictly below `base`, under one of the listed names. */
  lemma {:induction false} AccumulateUnder(cs: seq<Child>, base: Path, ignoreHidden: bool)
    ensures forall it :: it in Accumulate(cs, base, ignoreHidden) ==>
      Below(base, it.path) && it.path[|base|] in Names(cs)
    decreases cs
  {
    if cs != [] {
      AccumulateUnder(cs[1..], base, ignoreHidden);
      EntryUnder(cs[0], base, ignoreHidden);
      assert Names(cs) == [cs[0].name] + Names(cs[1..]);
    }
  }

  lemma AncestorsFirstAppend(a: seq<Item>, b: seq<Item>)
    requires AncestorsFirst(a) && AncestorsFirst(b)
    requires forall x, y :: x in a && y in b ==> !Below(y.path, x.path)
    ensures AncestorsFirst(a + b)
  {
    var ab := a + b;
    forall j, k | 0 <= j < k < |ab| ensures !Below(ab[k].path, ab[j].path) {
      if k < |a| {
        assert ab[j] == a[j] && ab[k] == a[k];
      } else if j >= |a| {
        assert ab[j] == b[j - |a|] && ab[k] == b[k - |a|];
      } else {
        assert ab[j] == a[j] && a[j] in a;
        assert ab[k] == b[k - |a|] && b[k - |a|] in b;
      }
    }
  }

  /**
   * With distinct names in every directory, a directory's item precedes the
   * items of all its descendants, not only its children.
   */
  lemma {:induction false} AccumulateAncestorsFirst(cs: seq<Child>, base: Path, ignoreHidden: bool)
    requires WellFormed(Dir(cs))
    ensures AncestorsFirst(Accumulate(cs, base, ignoreHidden))
    decreases cs
  {
    if cs != [] {
      var c, rest := cs[0], cs[1..];
      WellFormedTail(cs);
      var a, b := Entry(c, base, ignoreHidden), Accumulate(rest, base, ignoreHidden);
      EntryAncestorsFirst(c, base, ignoreHidden);
      AccumulateAncestorsFirst(rest, base, ignoreHidden);
      AccumulateUnder(rest, base, ignoreHidden);
      EntryUnder(c, base, ignoreHidden);
      assert c.name !in Names(rest) by {
        forall i | 0 <= i < |rest| ensures Names(rest)[i] != c.name {
          assert rest[i] == cs[i + 1];
        }
      }
      assert forall x, y :: x in a && y in b ==> !Below(y.path, x.path);
      AncestorsFirstAppend(a, b);
    }
  }

  lemma {:induction false} EntryAncestorsFirst(c: Child, base: Path, ignoreHidden: bool)
    requires WellFormed(c.node)
    ensures AncestorsFirst(Entry(c, base, ignoreHidden))
    decreases c
  {
    if !(ignoreHidden && Hidden(c.name)) && c.node.Dir? {
      var cur := base + [c.name];
      var sub := Accumulate(c.node.children, cur, ignoreHidden);
      AccumulateAncestorsFirst(c.node.children, cur, ignoreHidden);
      AccumulateParentsFirst(c.node.children, cur, ignoreHidden);
      forall x, y | x in [Item(cur, true)] && y in sub ensures !Below(y.path, x.path) {
        var k :| 0 <= k < |sub| && sub[k] == y;
      }
      AncestorsFirstAppend([Item(cur, true)], sub);
    }
  }
}
