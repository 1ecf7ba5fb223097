/** Path reconstruction: follow parent links from the goal back to the
    `None` sentinel, then reverse. */
module Reconstruct {
  import opened Wrappers
  import opened Grid

  /** `path[::-1]`. */
  function Reverse<T>(s: seq<T>): (r: seq<T>)
    ensures |r| == |s|
    ensures forall i :: 0 <= i < |s| ==> r[i] == s[|s| - 1 - i]
  {
    if s == [] then [] else Reverse(s[1..]) + [s[0]]
  }

  /** Every link leads to a key of the map, and to a cell of strictly
      smaller depth; so following links from any key ends at a sentinel. */
  ghost predicate IsForest(parent: map<Cell, Option<Cell>>, depth: map<Cell, nat>)
  {
    forall c {:trigger parent[c]} :: c in parent ==>
      c in depth &&
      (parent[c].Some? ==> parent[c].value in parent && parent[c].value in depth &&
                            depth[parent[c].value] < depth[c])
  }

  /** `p` is the chain of parent links ending at `goal`: it starts at a
      cell whose parent is the sentinel, and each later cell's parent is
      the cell before it. */
  ghost predicate IsParentChain(parent: map<Cell, Option<Cell>>, p: seq<Cell>, goal: Cell)
  {
    && |p| > 0
    && p[|p| - 1] == goal
    && (forall i :: 0 <= i < |p| ==> p[i] in parent)
    && parent[p[0]] == None
    && (forall i :: 0 < i < |p| ==> parent[p[i]] == Some(p[i - 1]))
  }

  method ReconstructPath(goal: Cell, parent: map<Cell, Option<Cell>>, ghost depth: map<Cell, nat>)
    returns (path: seq<Cell>)
    requires goal in parent
    requires IsForest(parent, depth)
    ensures IsParentChain(parent, path, goal)
    ensures NoRepeats(path)
  {
    var trail: seq<Cell> := [];
    var current: Option<Cell> := Some(goal);
    while current.Some?
      invariant current.Some? ==> current.value in parent
      invariant |trail| == 0 ==> current == Some(goal)
      invariant forall i :: 0 <= i < |trail| ==> trail[i] in parent
      invariant |trail| > 0 ==> trail[0] == goal && parent[trail[|trail| - 1]] == current
      invariant forall i :: 0 < i < |trail| ==> parent[trail[i - 1]] == Some(trail[i])
      invariant forall i, j :: 0 <= i < j < |trail| ==> depth[trail[j]] < depth[trail[i]]
      invariant current.Some? ==>
        forall i :: 0 <= i < |trail| ==> depth[current.value] < depth[trail[i]]
      decreases if current.Some? then depth[current.value] + 1 else 0
    {
      trail := trail + [current.value];
      current := parent[current.value];
    }
    path := Reverse(trail);
    assert forall i, j :: 0 <= i < j < |path| ==> depth[path[i]] < depth[path[j]];
  }

  /** The chain ending at a given cell is unique: the reconstruction's
      contract determines its result. */
  lemma {:induction false} ParentChainIsUnique(parent: map<Cell, Option<Cell>>, p: seq<Cell>, q: seq<Cell>, goal: Cell)
    requires IsParentChain(parent, p, goal) && IsParentChain(parent, q, goal)
    ensures p == q
    decreases |p|
  {
    assert (|p| == 1) == (parent[goal] == None) by {
      if |p| > 1 {
        assert parent[p[|p| - 1]] == Some(p[|p| - 2]);
      }
    }
    assert (|q| == 1) == (parent[goal] == None) by {
      if |q| > 1 {
        assert parent[q[|q| - 1]] == Some(q[|q| - 2]);
      }
    }
    if |p| > 1 {
      var p', q' := p[..|p| - 1], q[..|q| - 1];
      assert parent[goal] == Some(p[|p| - 2]) == Some(q[|q| - 2]);
      assert IsParentChain(parent, p', p[|p| - 2]);
      assert IsParentChain(parent, q', p[|p| - 2]);
      ParentChainIsUnique(parent, p', q', p[|p| - 2]);
      assert p == p' + [goal] && q == q' + [goal];
    }
  }

  /** Depths fall by at least one along every link, so a chain has at
      most one cell more than the depth of its last cell. */
  lemma {:induction false} ChainLengthBound(parent: map<Cell, Option<Cell>>, depth: map<Cell, nat>,
                                            p: seq<Cell>, goal: Cell)
    requires IsForest(parent, depth) && IsParentChain(parent, p, goal)
    ensures goal in depth && |p| <= depth[goal] + 1
    decreases |p|
  {
    if |p| > 1 {
      var p' := p[..|p| - 1];
      assert parent[goal] == Some(p[|p| - 2]);
      assert IsParentChain(parent, p', p[|p| - 2]);
      ChainLengthBound(parent, depth, p', p[|p| - 2]);
    }
  }

}
