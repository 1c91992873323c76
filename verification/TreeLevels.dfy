/** Levels of a visible tree: how deep a node is, which nodes stand at the two ends of every level,
    and which are next to each other on one. */
module TreeLevels {
  import opened Collections
  import opened TreeTraversal

  ghost function Depth(t: Tree, v: nat): nat
    requires t.Valid() && t.Node(v)
    decreases t.Size() - v
  {
    if v < t.parent[v] < t.Size() then 1 + Depth(t, t.parent[v]) else 0
  }

  lemma {:induction false} DepthOfChild(t: Tree, w: nat, c: nat)
    requires t.Valid() && t.Node(w) && c in t.children[w]
    ensures t.Node(c) && Depth(t, c) == Depth(t, w) + 1
  {
    assert t.Tiled(w);
  }

  /** A node under c is deeper than c, unless it is c. */
  lemma {:induction false} DepthUnder(t: Tree, v: nat, c: nat)
    requires t.Valid() && t.Node(c) && t.Under(v, c)
    ensures Depth(t, v) >= Depth(t, c) && (Depth(t, v) == Depth(t, c) <==> v == c)
    decreases c - v
  {
    if v != c {
      t.ParentUnder(v, c);
      DepthUnder(t, t.parent[v], c);
    }
  }

  /** Between v and c above it there is a node of every depth. */
  lemma {:induction false} AncestorAt(t: Tree, v: nat, c: nat, depth: nat) returns (y: nat)
    requires t.Valid() && t.Node(c) && t.Under(v, c) && Depth(t, c) <= depth <= Depth(t, v)
    ensures v <= y <= c && t.first[c] <= y && Depth(t, y) == depth
    decreases c - v
  {
    if Depth(t, v) == depth {
      y := v;
    } else {
      assert v != c;
      t.ParentUnder(v, c);
      y := AncestorAt(t, t.parent[v], c, depth);
    }
  }

  /** The child of w under which v lies. */
  ghost function Branch(t: Tree, v: nat, w: nat): (b: nat)
    requires t.Valid() && t.Node(w) && t.Under(v, w) && v != w
    ensures b in t.children[w] && b < w && t.parent[b] == w && t.Under(v, b)
    decreases w - v
  {
    t.ParentUnder(v, w);
    if t.parent[v] == w then v
    else
      var b := Branch(t, t.parent[v], w);
      t.SubtreeWithin(t.parent[v], b);
      BranchBelow(t, v, t.parent[v], b);
      b
  }

  lemma {:induction false} BranchBelow(t: Tree, v: nat, p: nat, b: nat)
    requires t.Valid() && t.Node(b) && t.Node(p) && v in t.children[p] && t.first[b] <= t.first[p] && p <= b
    ensures t.Under(v, b)
  {
    var i :| 0 <= i < |t.children[p]| && t.children[p][i] == v;
    t.ChildWithin(p, i);
  }

  lemma {:induction false} BranchIs(t: Tree, v: nat, w: nat, b: nat)
    requires t.Valid() && t.Node(w) && b in t.children[w] && t.Under(v, b)
    ensures b < w && t.Under(v, w) && Branch(t, v, w) == b
  {
    var i :| 0 <= i < |t.children[w]| && t.children[w][i] == b;
    t.ChildWithin(w, i);
    var b' := Branch(t, v, w);
    if b' < b {
      t.SiblingsOrdered(b', b, w);
    } else if b < b' {
      t.SiblingsOrdered(b, b', w);
    }
  }

  ghost predicate Below(t: Tree, v: nat, w: nat)
    requires t.Valid()
  {
    t.Node(w) && t.first[w] <= v < w
  }

  /** u and v stand on one level, v to the right of u, and nothing is between them. */
  ghost predicate Neighbours(t: Tree, u: nat, v: nat)
    requires t.Valid()
  {
    u < v < t.Size() && Depth(t, u) == Depth(t, v) && forall x :: u < x < v ==> Depth(t, x) != Depth(t, u)
  }

  /** Consecutive children of one node are neighbours on their level. */
  lemma {:induction false} ChildrenAreNeighbours(t: Tree, w: nat, i: nat)
    requires t.Valid() && t.Node(w) && i + 1 < |t.children[w]|
    ensures Neighbours(t, t.children[w][i], t.children[w][i + 1])
  {
    var u, v := t.children[w][i], t.children[w][i + 1];
    assert t.Tiled(w);
    DepthOfChild(t, w, u);
    DepthOfChild(t, w, v);
    forall x | u < x < v
      ensures Depth(t, x) != Depth(t, u)
    {
      DepthUnder(t, x, v);
    }
  }

  /** Neighbours lie under different children of some node. */
  ghost predicate Parted(t: Tree, w: nat, u: nat, v: nat)
    requires t.Valid()
  {
    t.Node(w) && t.Under(u, w) && t.Under(v, w) && u != w && v != w && Branch(t, u, w) < Branch(t, v, w)
  }

  lemma {:induction false} Meet(t: Tree, u: nat, v: nat, b: nat) returns (w: nat)
    requires t.Valid() && t.first[t.Size() - 1] == 0 && t.Node(b) && t.Under(v, b) && u < t.first[b]
    ensures Parted(t, w, u, v)
    decreases t.Size() - b
  {
    t.ParentUnder(b, t.Size() - 1);
    w := t.parent[b];
    BranchIs(t, v, w, b);
    if t.first[w] <= u {
      var a := Branch(t, u, w);
      if b < a {
        t.SiblingsOrdered(b, a, w);
      }
    } else {
      w := Meet(t, u, v, w);
    }
  }

  lemma {:induction false} SameLevelParted(t: Tree, u: nat, v: nat) returns (w: nat)
    requires t.Valid() && t.first[t.Size() - 1] == 0 && u < v < t.Size() && Depth(t, u) == Depth(t, v)
    ensures Parted(t, w, u, v)
  {
    if t.first[v] <= u {
      DepthUnder(t, u, v);
    }
    w := Meet(t, u, v, v);
  }

  // ---------------------------------------------------------------------------------
  // The ends of all levels of a forest

  /** The i-th entries are the first and last node on the i-th level of the nodes from lo to last,
      and there are no other levels. */
  ghost predicate Ends(t: Tree, left: seq<nat>, right: seq<nat>, lo: nat, last: nat, base: nat)
    requires t.Valid()
  {
    && |left| == |right| && last < t.Size()
    && (forall i :: 0 <= i < |left| ==>
        OnLevel(t, left[i], lo, last, base + i) && OnLevel(t, right[i], lo, last, base + i))
    && (forall x :: lo <= x <= last ==> WithinEnds(t, left, right, x, base))
  }

  ghost predicate OnLevel(t: Tree, x: nat, lo: nat, last: nat, depth: nat)
    requires t.Valid() && last < t.Size()
  {
    lo <= x <= last && Depth(t, x) == depth
  }

  ghost predicate WithinEnds(t: Tree, left: seq<nat>, right: seq<nat>, x: nat, base: nat)
    requires t.Valid() && t.Node(x) && |left| == |right|
  {
    var i: int := Depth(t, x) - base;
    0 <= i < |left| && left[i] <= x <= right[i]
  }

  /** A chain going on in another one where it ends first. */
  ghost function Longer(a: seq<nat>, b: seq<nat>): (c: seq<nat>)
    ensures |c| == if |a| < |b| then |b| else |a|
    ensures forall i :: 0 <= i < |c| ==> c[i] == if i < |a| then a[i] else b[i]
  {
    if |a| < |b| then a + b[|a|..] else a
  }

  /** A node on top of the forest of its children. */
  lemma {:induction false} EndsOnTop(t: Tree, v: nat, left: seq<nat>, right: seq<nat>)
    requires t.Valid() && t.Node(v)
    requires if t.children[v] == [] then
               left == right == []
             else
               && t.children[v][|t.children[v]| - 1] == v - 1
               && Ends(t, left, right, t.first[v], v - 1, Depth(t, v) + 1)
    ensures Ends(t, [v] + left, [v] + right, t.first[v], v, Depth(t, v))
  {
    var l, r, base := [v] + left, [v] + right, Depth(t, v);
    assert |left| == |right| && t.first[v] <= v && (t.children[v] == [] ==> t.first[v] == v);
    hide Depth, Ends, OnLevel, WithinEnds, Tree.Valid;
    forall i | 0 <= i < |l|
      ensures OnLevel(t, l[i], t.first[v], v, base + i) && OnLevel(t, r[i], t.first[v], v, base + i)
    {
      LevelOnTop(t, v, left, right, i);
    }
    forall x | t.first[v] <= x <= v
      ensures WithinEnds(t, l, r, x, base)
    {
      WithinOnTop(t, v, left, right, x);
    }
    AreEnds(t, l, r, t.first[v], v, base);
  }

  lemma {:induction false} LevelOnTop(t: Tree, v: nat, left: seq<nat>, right: seq<nat>, i: nat)
    requires t.Valid() && t.Node(v) && |left| == |right| && i <= |left|
    requires left != [] ==> v > 0 && Ends(t, left, right, t.first[v], v - 1, Depth(t, v) + 1)
    ensures OnLevel(t, ([v] + left)[i], t.first[v], v, Depth(t, v) + i) &&
            OnLevel(t, ([v] + right)[i], t.first[v], v, Depth(t, v) + i)
  {
    hide Depth, Ends;
    if i > 0 {
      EndsAt(t, left, right, t.first[v], v - 1, Depth(t, v) + 1, i - 1);
    }
  }

  lemma {:induction false} WithinOnTop(t: Tree, v: nat, left: seq<nat>, right: seq<nat>, x: nat)
    requires t.Valid() && t.Node(v) && |left| == |right| && t.first[v] <= x <= v
    requires x < v ==> Ends(t, left, right, t.first[v], v - 1, Depth(t, v) + 1)
    ensures WithinEnds(t, [v] + left, [v] + right, x, Depth(t, v))
  {
    hide Depth, Ends;
    if x < v {
      BetweenEnds(t, left, right, t.first[v], v - 1, Depth(t, v) + 1, x);
    }
  }

  lemma {:induction false} AreEnds(t: Tree, left: seq<nat>, right: seq<nat>, lo: nat, last: nat, base: nat)
    requires t.Valid() && |left| == |right| && last < t.Size()
    requires forall i :: 0 <= i < |left| ==>
               OnLevel(t, left[i], lo, last, base + i) && OnLevel(t, right[i], lo, last, base + i)
    requires forall x :: lo <= x <= last ==> WithinEnds(t, left, right, x, base)
    ensures Ends(t, left, right, lo, last, base)
  {
    hide WithinEnds, OnLevel;
  }

  /** Two forests side by side: the left ends of the left one where it has the level, else of the
      right one, and the other way round. */
  lemma {:induction false} EndsJoin(t: Tree, left: seq<nat>, right: seq<nat>, lo: nat, last: nat, own: seq<nat>,
                                    ownRight: seq<nat>, v: nat, base: nat)
    requires t.Valid() && lo <= last < v < t.Size() && Ends(t, left, right, lo, last, base) &&
             Ends(t, own, ownRight, last + 1, v, base)
    ensures Ends(t, Longer(left, own), Longer(ownRight, right), lo, v, base)
  {
    var l, r := Longer(left, own), Longer(ownRight, right);
    forall i | 0 <= i < |l|
      ensures OnLevel(t, l[i], lo, v, base + i) && OnLevel(t, r[i], lo, v, base + i)
    {
      if i < |left| {
        assert OnLevel(t, left[i], lo, last, base + i) && OnLevel(t, right[i], lo, last, base + i);
      }
      if i < |own| {
        assert OnLevel(t, own[i], last + 1, v, base + i) && OnLevel(t, ownRight[i], last + 1, v, base + i);
      }
    }
    hide Depth;
    forall x | lo <= x <= v
      ensures WithinEnds(t, l, r, x, base)
    {
      if x <= last {
        assert WithinEnds(t, left, right, x, base);
        var i := Depth(t, x) - base;
        assert i < |ownRight| ==> OnLevel(t, ownRight[i], last + 1, v, base + i);
      } else {
        assert WithinEnds(t, own, ownRight, x, base);
        var i := Depth(t, x) - base;
        assert i < |left| ==> OnLevel(t, left[i], lo, last, base + i);
      }
    }
  }

  lemma {:induction false} EndsAt(t: Tree, left: seq<nat>, right: seq<nat>, lo: nat, last: nat, base: nat, i: nat)
    requires t.Valid() && Ends(t, left, right, lo, last, base) && i < |left|
    ensures |left| == |right| && lo <= left[i] <= last < t.Size() && lo <= right[i] <= last
    ensures Depth(t, left[i]) == base + i && Depth(t, right[i]) == base + i
  {
    assert OnLevel(t, left[i], lo, last, base + i) && OnLevel(t, right[i], lo, last, base + i);
  }

  lemma {:induction false} BetweenEnds(t: Tree, left: seq<nat>, right: seq<nat>, lo: nat, last: nat, base: nat, x: nat)
    requires t.Valid() && Ends(t, left, right, lo, last, base) && lo <= x <= last
    ensures |left| == |right| && t.Node(x)
    ensures var i: int := Depth(t, x) - base;
            && 0 <= i < |left| && lo <= left[i] <= x <= right[i] <= last < t.Size()
            && Depth(t, left[i]) == Depth(t, right[i]) == Depth(t, x)
  {
    assert WithinEnds(t, left, right, x, base);
    EndsAt(t, left, right, lo, last, base, Depth(t, x) - base);
  }

  /** Neighbours across the border of two forests are the right end of the left one and the left
      end of the right one. */
  lemma {:induction false} AcrossBorder(t: Tree, left: seq<nat>, right: seq<nat>, lo: nat, last: nat, own: seq<nat>,
                                        ownRight: seq<nat>, e: nat, base: nat,
                     u: nat, v: nat)
    requires t.Valid() && Ends(t, left, right, lo, last, base) && Ends(t, own, ownRight, last + 1, e, base)
    requires lo <= u <= last < v <= e && Neighbours(t, u, v)
    ensures var i: int := Depth(t, u) - base; 0 <= i < |right| && i < |own| && u == right[i] && v == own[i]
  {
    hide Depth, Ends;
    BetweenEnds(t, left, right, lo, last, base, u);
    BetweenEnds(t, own, ownRight, last + 1, e, base, v);
  }

  // ---------------------------------------------------------------------------------
  // Children that cannot be seen from either side

  /** The subtree of the i-th child of w ends above the level on which u stands to its left
      and v to its right. */
  ghost predicate HiddenBy(t: Tree, w: nat, i: nat, u: nat, v: nat)
    requires t.Valid() && t.Node(w) && i < |t.children[w]|
  {
    var c := t.children[w][i];
    && t.first[w] <= u < t.first[c] && c < v < w && Depth(t, u) == Depth(t, v)
    && forall x :: t.first[c] <= x <= c ==> Depth(t, x) < Depth(t, u)
  }

  /** No level ends in the subtree of a hidden child. */
  lemma {:induction false} HiddenIsInside(t: Tree, w: nat, i: nat, u: nat, v: nat, left: seq<nat>, right: seq<nat>,
                                          last: nat, j: nat)
    requires t.Valid() && t.Node(w) && i < |t.children[w]| && HiddenBy(t, w, i, u, v)
    requires Ends(t, left, right, t.first[w], last, Depth(t, w) + 1) && v <= last < w && last in t.children[w] &&
             j < |left|
    ensures !t.Under(left[j], t.children[w][i]) && !t.Under(right[j], t.children[w][i])
  {
    hide Ends, Depth;
    var c, base := t.children[w][i], Depth(t, w) + 1;
    EndsAt(t, left, right, t.first[w], last, base, j);
    t.ChildWithin(w, i);
    if t.Under(left[j], c) {
      var y := LeftOfHidden(t, w, i, u, v, base + j);
      BetweenEnds(t, left, right, t.first[w], last, base, y);
    }
    if t.Under(right[j], c) {
      var y := RightOfHidden(t, w, i, u, v, base + j);
      var b := Branch(t, y, w);
      if last < b {
        t.SiblingsOrdered(last, b, w);
      }
      BetweenEnds(t, left, right, t.first[w], last, base, y);
    }
  }

  lemma {:induction false} LeftOfHidden(t: Tree, w: nat, i: nat, u: nat, v: nat, depth: nat) returns (y: nat)
    requires t.Valid() && t.Node(w) && i < |t.children[w]| && HiddenBy(t, w, i, u, v)
    requires Depth(t, w) < depth <= Depth(t, u)
    ensures t.first[w] <= y < t.first[t.children[w][i]] && Depth(t, y) == depth
  {
    var c, a := t.children[w][i], Branch(t, u, w);
    DepthOfChild(t, w, a);
    y := AncestorAt(t, u, a, depth);
    if c <= a {
      if c < a {
        t.SiblingsOrdered(c, a, w);
      }
      assert false;
    }
    t.SiblingsOrdered(a, c, w);
    t.SubtreeWithin(a, w);
  }

  lemma {:induction false} RightOfHidden(t: Tree, w: nat, i: nat, u: nat, v: nat, depth: nat) returns (y: nat)
    requires t.Valid() && t.Node(w) && i < |t.children[w]| && HiddenBy(t, w, i, u, v)
    requires Depth(t, w) < depth <= Depth(t, u)
    ensures t.children[w][i] < y < w && t.first[w] <= y && Depth(t, y) == depth && Branch(t, y, w) == Branch(t, v, w)
  {
    var b := Branch(t, v, w);
    DepthOfChild(t, w, b);
    y := AncestorAt(t, v, b, depth);
    BranchIs(t, y, w, b);
  }

  /** Children between the one whose subtree has the right end of a level and a further child e
      that reaches this level are hidden. */
  lemma {:induction false} HiddenBetween(t: Tree, w: nat, i: nat, left: seq<nat>, right: seq<nat>, last: nat, j: nat,
                                         a: nat, e: nat, v: nat)
    requires t.Valid() && t.Node(w) && i < |t.children[w]|
    requires Ends(t, left, right, t.first[w], last, Depth(t, w) + 1) && j < |right|
    requires a in t.children[w] && t.Under(right[j], a) && e in t.children[w] && t.Under(v, e) &&
             Depth(t, v) == Depth(t, w) + 1 + j
    requires a < t.children[w][i] <= last && t.children[w][i] < e
    ensures HiddenBy(t, w, i, right[j], v)
  {
    var c, base := t.children[w][i], Depth(t, w) + 1;
    EndsAt(t, left, right, t.first[w], last, base, j);
    hide Depth, Ends;
    t.SiblingsOrdered(a, c, w);
    t.SiblingsOrdered(c, e, w);
    t.ChildWithin(w, t.index[e]);
    DepthOfChild(t, w, c);
    forall x | t.first[c] <= x <= c
      ensures Depth(t, x) < Depth(t, right[j])
    {
      RightOfEnd(t, w, c, left, right, last, j, x);
    }
  }

  /** Subtrees right of the right end of a level do not reach the level. */
  lemma {:induction false} RightOfEnd(t: Tree, w: nat, c: nat, left: seq<nat>, right: seq<nat>, last: nat, j: nat,
                                      x: nat)
    requires t.Valid() && t.Node(w) && c in t.children[w] && t.Under(x, c) && c <= last
    requires Ends(t, left, right, t.first[w], last, Depth(t, w) + 1) && j < |right| && right[j] < t.first[c]
    ensures Depth(t, x) < Depth(t, w) + 1 + j
  {
    hide Depth, Ends;
    DepthOfChild(t, w, c);
    if Depth(t, x) >= Depth(t, w) + 1 + j {
      var y := AncestorAt(t, x, c, Depth(t, w) + 1 + j);
      SubtreeBelow(t, w, c);
      BetweenEnds(t, left, right, t.first[w], last, Depth(t, w) + 1, y);
    }
  }

  lemma {:induction false} SubtreeBelow(t: Tree, w: nat, c: nat)
    requires t.Valid() && t.Node(w) && c in t.children[w]
    ensures t.first[w] <= t.first[c]
  {
    var i :| 0 <= i < |t.children[w]| && t.children[w][i] == c;
    t.ChildWithin(w, i);
  }
}
