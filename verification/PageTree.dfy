/**
 The shape of a page-table tree, apart from how an entry is encoded: a table is a sequence of
 optional links, and is named by the path of indices that leads to it from the root.
 */
module PageTree {
  import opened Basics

  /** The tables, by frame address. */
  type Tables = map<nat, seq<Option<nat>>>

  /** Where entry `i` of the table at `t` leads. */
  function Child(tree: Tables, t: nat, i: nat): Option<nat> {
    if t in tree && i < |tree[t]| then tree[t][i] else None
  }

  /** Where a path of indices leads: to a table or, for a full path, to the mapped physical page. */
  function Descend(tree: Tables, root: nat, path: seq<nat>): Option<nat> {
    if path == [] then Some(root)
    else
      var t := Descend(tree, root, path[..|path| - 1]);
      if t.None? then None else Child(tree, t.value, path[|path| - 1])
  }

  /** `q`, shorter than a full path, leads to the table `t`. */
  predicate LeadsTo(levels: nat, tree: Tables, root: nat, q: seq<nat>, t: nat) {
    |q| < levels && Descend(tree, root, q) == Some(t)
  }

  ghost predicate IsTable(levels: nat, tree: Tables, root: nat, t: nat) {
    exists q :: LeadsTo(levels, tree, root, q, t)
  }

  /** No table is reached along two different paths. */
  ghost predicate NoSharing(levels: nat, tree: Tables, root: nat) {
    forall t: nat, q, r :: LeadsTo(levels, tree, root, q, t) && LeadsTo(levels, tree, root, r, t) ==> q == r
  }

  function Link(tree: Tables, t: nat, i: nat, c: Option<nat>): Tables
    requires t in tree && i < |tree[t]|
  {
    tree[t := tree[t][i := c]]
  }

  /** `q` goes through entry `i` of the table at path `p`. */
  predicate Through(p: seq<nat>, i: nat, q: seq<nat>) {
    |p| < |q| && q[..|p|] == p && q[|p|] == i
  }

  lemma ThroughPrefix(p: seq<nat>, i: nat, q: seq<nat>)
    requires q != []
    ensures Through(p, i, q) <==> Through(p, i, q[..|q| - 1]) || (q[..|q| - 1] == p && q[|q| - 1] == i)
  {
    var q' := q[..|q| - 1];
    if |p| < |q'| {
      assert q'[..|p|] == q[..|p|];
    }
  }

  /** Setting entry `i` of the table at path `p` moves only the paths through that entry. */
  lemma {:induction false} LinkIsLocal(levels: nat, tree: Tables, root: nat, p: seq<nat>, t: nat, i: nat,
                                       c: Option<nat>, q: seq<nat>)
    requires NoSharing(levels, tree, root) && LeadsTo(levels, tree, root, p, t)
    requires t in tree && i < |tree[t]|
    requires |q| <= levels && !Through(p, i, q)
    ensures Descend(Link(tree, t, i, c), root, q) == Descend(tree, root, q)
    decreases |q|
  {
    if q != [] {
      var q', j := q[..|q| - 1], q[|q| - 1];
      ThroughPrefix(p, i, q);
      LinkIsLocal(levels, tree, root, p, t, i, c, q');
      assert LeadsTo(levels, tree, root, q', t) ==> p == q';
    }
  }

  /** Nothing lies below an absent entry, nor below a table whose entries are all absent. */
  lemma {:induction false} NothingBelow(tree: Tables, root: nat, p: seq<nat>, q: seq<nat>)
    requires |p| < |q| && q[..|p|] == p
    requires var t := Descend(tree, root, p); t.None? || forall i :: Child(tree, t.value, i).None?
    ensures Descend(tree, root, q).None?
    decreases |q|
  {
    var q' := q[..|q| - 1];
    if |p| == |q'| {
      assert q' == p;
    } else {
      assert q'[..|p|] == p;
      NothingBelow(tree, root, p, q');
    }
  }

  /** Changing a frame that is not a table changes no path. */
  lemma {:induction false} OtherFrameInvisible(levels: nat, tree: Tables, root: nat, f: nat,
                                               z: seq<Option<nat>>, q: seq<nat>)
    requires !IsTable(levels, tree, root, f) && |q| <= levels
    ensures Descend(tree[f := z], root, q) == Descend(tree, root, q)
    decreases |q|
  {
    if q != [] {
      var q' := q[..|q| - 1];
      OtherFrameInvisible(levels, tree, root, f, z, q');
      assert !LeadsTo(levels, tree, root, q', f);
    }
  }

  /** What stands in frames that are no tables of a tree does not matter to it. */
  lemma {:induction false} OtherFramesInvisible(levels: nat, tree: Tables, tree': Tables, root: nat, q: seq<nat>)
    requires forall t: nat | IsTable(levels, tree, root, t) :: t in tree && t in tree' && tree'[t] == tree[t]
    requires |q| <= levels
    ensures Descend(tree', root, q) == Descend(tree, root, q)
    decreases |q|
  {
    if q != [] {
      var q' := q[..|q| - 1];
      OtherFramesInvisible(levels, tree, tree', root, q');
      var t := Descend(tree, root, q');
      if t.Some? {
        assert LeadsTo(levels, tree, root, q', t.value);
      }
    }
  }

  lemma SamePathsSameTables(levels: nat, tree: Tables, tree': Tables, root: nat)
    requires NoSharing(levels, tree, root)
    requires forall q | |q| < levels :: Descend(tree', root, q) == Descend(tree, root, q)
    ensures NoSharing(levels, tree', root)
    ensures forall f: nat :: IsTable(levels, tree', root, f) <==> IsTable(levels, tree, root, f)
  {
    assert forall q, f: nat :: LeadsTo(levels, tree', root, q, f) <==> LeadsTo(levels, tree, root, q, f);
  }

  /** Linking a table without links under an absent entry opens that one path and no other. */
  lemma HangPaths(levels: nat, tree: Tables, root: nat, p: seq<nat>, t: nat, i: nat, f: nat)
    requires NoSharing(levels, tree, root) && LeadsTo(levels, tree, root, p, t) && |p| + 1 < levels
    requires t in tree && i < |tree[t]| && tree[t][i].None? && f != t
    requires forall j :: Child(tree, f, j).None?
    ensures var tree' := Link(tree, t, i, Some(f));
            && Descend(tree, root, p + [i]).None?
            && Descend(tree', root, p + [i]) == Some(f)
            && forall q | |q| <= levels && q != p + [i] :: Descend(tree', root, q) == Descend(tree, root, q)
  {
    var tree' := Link(tree, t, i, Some(f));
    var here := p + [i];
    assert here[..|here| - 1] == p;
    LinkIsLocal(levels, tree, root, p, t, i, Some(f), p);
    forall q | |q| <= levels && q != here ensures Descend(tree', root, q) == Descend(tree, root, q) {
      if Through(p, i, q) {
        assert q[..|here|] == here;
        NothingBelow(tree, root, here, q);
        assert forall j: nat :: Child(tree', f, j) == Child(tree, f, j);
        NothingBelow(tree', root, here, q);
      } else {
        LinkIsLocal(levels, tree, root, p, t, i, Some(f), q);
      }
    }
  }

  /** ... so a frame that was no table becomes one, and no table is shared. */
  lemma HangTable(levels: nat, tree: Tables, root: nat, p: seq<nat>, t: nat, i: nat, f: nat)
    requires NoSharing(levels, tree, root) && LeadsTo(levels, tree, root, p, t) && |p| + 1 < levels
    requires t in tree && i < |tree[t]| && tree[t][i].None?
    requires !IsTable(levels, tree, root, f) && forall j :: Child(tree, f, j).None?
    ensures var tree' := Link(tree, t, i, Some(f));
            && NoSharing(levels, tree', root)
            && LeadsTo(levels, tree', root, p + [i], f)
            && (forall g: nat :: IsTable(levels, tree', root, g) <==> g == f || IsTable(levels, tree, root, g))
            && (forall q | |q| == levels :: Descend(tree', root, q) == Descend(tree, root, q))
  {
    var tree' := Link(tree, t, i, Some(f));
    HangPaths(levels, tree, root, p, t, i, f);
    assert LeadsTo(levels, tree', root, p + [i], f);
    assert forall q, g: nat :: LeadsTo(levels, tree', root, q, g) <==>
                               (q == p + [i] && g == f) || LeadsTo(levels, tree, root, q, g);
  }

  /** Setting an entry of a last-level table changes that one translation and no table. */
  lemma SetLeaf(levels: nat, tree: Tables, root: nat, path: seq<nat>, t: nat, c: Option<nat>)
    requires NoSharing(levels, tree, root) && levels > 0 && |path| == levels
    requires LeadsTo(levels, tree, root, path[..levels - 1], t) && t in tree && path[levels - 1] < |tree[t]|
    ensures var tree' := Link(tree, t, path[levels - 1], c);
            && NoSharing(levels, tree', root)
            && (forall g: nat :: IsTable(levels, tree', root, g) <==> IsTable(levels, tree, root, g))
            && (forall q | |q| == levels ::
                  Descend(tree', root, q) == if q == path then c else Descend(tree, root, q))
  {
    var p, i := path[..levels - 1], path[levels - 1];
    var tree' := Link(tree, t, i, c);
    forall q | |q| <= levels && q != path ensures Descend(tree', root, q) == Descend(tree, root, q) {
      assert Through(p, i, q) ==> q == path;
      LinkIsLocal(levels, tree, root, p, t, i, c, q);
    }
    SamePathsSameTables(levels, tree, tree', root);
    assert Descend(tree', root, p) == Some(t);
  }
}
