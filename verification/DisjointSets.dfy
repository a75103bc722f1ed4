/** The `parent` dictionary of the scheduler, with path halving (schedule_domain.py:48-60). */
module DisjointSets {

  type Name = string

  /** `root` sends every element to the end of its parent chain; `rank` grows along the chain. */
  ghost predicate Represents(parent: map<Name, Name>, root: map<Name, Name>, rank: map<Name, nat>, top: nat) {
    && parent.Keys == root.Keys == rank.Keys
    && forall x {:trigger Placed(parent, root, rank, top, x)} :: x in parent ==> Placed(parent, root, rank, top, x)
  }

  ghost predicate Placed(parent: map<Name, Name>, root: map<Name, Name>, rank: map<Name, nat>, top: nat, x: Name)
    requires parent.Keys == root.Keys == rank.Keys && x in parent
  {
    && rank[x] <= top
    && parent[x] in parent
    && (parent[x] != x ==> rank[x] < rank[parent[x]])
    && root[x] in parent && parent[root[x]] == root[x]
    && root[parent[x]] == root[x]
    && (parent[x] == x ==> root[x] == x)
  }

  /** n steps up the parent chain. */
  ghost function Climb(parent: map<Name, Name>, x: Name, n: nat): Name
    decreases n
  {
    if n == 0 || x !in parent then x else Climb(parent, parent[x], n - 1)
  }

  /** The parent chain of every element really ends, after at most `top` steps, in its root. */
  lemma {:induction false} ChainEndsInRoot(
    parent: map<Name, Name>, root: map<Name, Name>, rank: map<Name, nat>, top: nat, x: Name)
    requires Represents(parent, root, rank, top) && x in parent
    ensures rank[x] <= top && root[x] in parent && parent[root[x]] == root[x]
    ensures exists n: nat :: n <= top - rank[x] && Climb(parent, x, n) == root[x]
    decreases top - rank[x]
  {
    assert Placed(parent, root, rank, top, x);
    if parent[x] == x {
      assert Climb(parent, x, 0) == root[x];
    } else {
      ChainEndsInRoot(parent, root, rank, top, parent[x]);
      var n: nat :| n <= top - rank[parent[x]] && Climb(parent, parent[x], n) == root[x];
      assert Climb(parent, x, n + 1) == root[x];
    }
  }

  lemma HalvingKeepsRoots(parent: map<Name, Name>, root: map<Name, Name>, rank: map<Name, nat>, top: nat, x: Name)
    requires Represents(parent, root, rank, top) && x in parent && parent[x] != x
    ensures parent[x] in parent && parent[parent[x]] in parent
    ensures Represents(parent[x := parent[parent[x]]], root, rank, top)
    ensures rank[x] < rank[parent[parent[x]]] <= top && root[parent[parent[x]]] == root[x]
  {
    assert Placed(parent, root, rank, top, x);
    assert Placed(parent, root, rank, top, parent[x]);
    var gp := parent[parent[x]];
    assert Placed(parent, root, rank, top, gp);
    var parent' := parent[x := gp];
    forall y | y in parent' ensures Placed(parent', root, rank, top, y) {
      assert Placed(parent, root, rank, top, y);
    }
  }

  function Merged(root: map<Name, Name>, from: Name, to: Name): map<Name, Name> {
    map x | x in root :: if root[x] == from then to else root[x]
  }

  ghost function Lifted(rank: map<Name, nat>, ra: Name, rb: Name): map<Name, nat>
    requires ra in rank && rb in rank
  {
    if ra != rb && rank[rb] <= rank[ra] then rank[rb := rank[ra] + 1] else rank
  }

  lemma LinkMergesRoots(
    parent: map<Name, Name>, root: map<Name, Name>, rank: map<Name, nat>, top: nat, ra: Name, rb: Name)
    requires Represents(parent, root, rank, top) && ra in parent && rb in parent
    requires parent[ra] == ra && parent[rb] == rb
    ensures Represents(parent[ra := rb], Merged(root, ra, rb), Lifted(rank, ra, rb), top + 1)
  {
    var parent', root', rank' := parent[ra := rb], Merged(root, ra, rb), Lifted(rank, ra, rb);
    assert parent'.Keys == root'.Keys == rank'.Keys == parent.Keys;
    assert Placed(parent, root, rank, top, ra) && Placed(parent, root, rank, top, rb);
    forall y | y in parent' ensures Placed(parent', root', rank', top + 1, y) {
      assert Placed(parent, root, rank, top, y);
    }
  }

  class Forest {
    var parent: map<Name, Name>
    ghost var root: map<Name, Name>
    ghost var rank: map<Name, nat>
    ghost var top: nat

    ghost predicate Valid()
      reads this
    {
      Represents(parent, root, rank, top)
    }

    constructor (names: set<Name>)
      ensures Valid()
      ensures parent == root == map x | x in names :: x
    {
      parent := map x | x in names :: x;
      root := map x | x in names :: x;
      rank := map x | x in names :: 0;
      top := 0;
    }

    /** Path halving: rewrites parents on the way up and changes nobody's root. */
    method Find(x: Name) returns (r: Name)
      requires Valid() && x in parent
      modifies this`parent
      ensures Valid() && parent.Keys == old(parent.Keys)
      ensures r in parent && r == root[x] && parent[r] == r
    {
      r := x;
      assert Placed(parent, root, rank, top, r);
      while parent[r] != r
        invariant Valid() && parent.Keys == old(parent.Keys)
        invariant r in parent && root[r] == root[x] && rank[r] <= top
        decreases top - rank[r]
      {
        HalvingKeepsRoots(parent, root, rank, top, r);
        parent := parent[r := parent[parent[r]]];
        r := parent[r];
      }
      assert Placed(parent, root, rank, top, r);
    }

    /** `parent[find(a)] = find(b)`: everyone under the root of a moves under the root of b. */
    method Link(a: Name, b: Name)
      requires Valid() && a in parent && b in parent
      modifies this
      ensures Valid() && parent.Keys == old(parent.Keys)
      ensures root == Merged(old(root), old(root[a]), old(root[b]))
    {
      assert Placed(parent, root, rank, top, a);
      var rb := Find(b);
      var ra := Find(a);
      assert Placed(parent, root, rank, top, b);
      LinkMergesRoots(parent, root, rank, top, ra, rb);
      rank, top := Lifted(rank, ra, rb), top + 1;
      parent, root := parent[ra := rb], Merged(root, ra, rb);
    }
  }
}
