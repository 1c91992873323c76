/** Where nodes stand on their level while the tidy tree is being laid out: the running sums along
    threaded contours are real positions, shifts that are still pending belong to hidden subtrees,
    and what has been apart once stays apart. */
module TidyLevels {
  import opened Collections
  import opened TreeTraversal
  import opened TreeLevels
  import opened LazyShifts
  import opened TidyRecords

  // ---------------------------------------------------------------------------------
  // Positions below a node

  /** The modifiers of all nodes strictly between v and w. */
  ghost function Above(t: Tree, h: seq<Hier>, v: nat, w: nat): real
    requires t.Valid() && |h| == t.Size() && Below(t, v, w)
    decreases w - v
  {
    t.ParentUnder(v, w);
    if t.parent[v] == w then 0.0 else h[t.parent[v]].modifier + Above(t, h, t.parent[v], w)
  }

  /** Where v stands relative to w, as far as shifts have been carried out. */
  ghost function Bare(t: Tree, h: seq<Hier>, v: nat, w: nat): real
    requires t.Valid() && |h| == t.Size() && Below(t, v, w)
  {
    h[v].prelim + Above(t, h, v, w)
  }

  /** Where v will stand once the shifts noted for the children of w are carried out. */
  ghost function Rel(t: Tree, h: seq<Hier>, v: nat, w: nat): real
    requires t.Valid() && |h| == t.Size() && Below(t, v, w)
  {
    Bare(t, h, v, w) + PendingAt(t, h, w, Branch(t, v, w))
  }

  ghost function PendingAt(t: Tree, h: seq<Hier>, w: nat, c: nat): real
    requires t.Valid() && t.Node(w) && |h| == t.Size() && c in t.children[w]
  {
    ParentIndex(t, w, c);
    Pending(SiblingsOf(t, h, w), t.index[c])
  }

  lemma {:induction false} PlaceOfChild(t: Tree, h: seq<Hier>, w: nat, c: nat)
    requires t.Valid() && t.Node(w) && |h| == t.Size() && c in t.children[w]
    ensures t.index[c] < |t.children[w]| && PlaceOf(t, h, w, t.index[c]) == h[c].prelim + PendingAt(t, h, w, c)
  {
    ParentIndex(t, w, c);
  }

  /** A position relative to w is one relative to the child above, moved by that child's modifier. */
  lemma {:induction false} AboveBranch(t: Tree, h: seq<Hier>, v: nat, b: nat, w: nat)
    requires t.Valid() && |h| == t.Size() && t.Node(w) && b in t.children[w] && Below(t, v, b)
    ensures Below(t, v, w) && Above(t, h, v, w) == Above(t, h, v, b) + h[b].modifier
    decreases b - v
  {
    BranchIs(t, v, w, b);
    t.ParentUnder(v, b);
    ParentOfChild(t, w, b);
    if t.parent[v] == b {
      BranchIs(t, b, w, b);
      assert Above(t, h, b, w) == 0.0;
    } else {
      AboveBranch(t, h, t.parent[v], b, w);
    }
  }

  lemma {:induction false} AboveChild(t: Tree, h: seq<Hier>, b: nat, w: nat)
    requires t.Valid() && |h| == t.Size() && t.Node(w) && b in t.children[w]
    ensures Below(t, b, w) && Above(t, h, b, w) == 0.0 && Branch(t, b, w) == b
  {
    BranchIs(t, b, w, b);
    ParentOfChild(t, w, b);
  }

  /** Positions depend on the modifiers of inner nodes only. */
  lemma {:induction false} AboveSame(t: Tree, h: seq<Hier>, h': seq<Hier>, v: nat, w: nat)
    requires t.Valid() && |h| == |h'| == t.Size() && Below(t, v, w)
    requires forall x :: v < x < w && t.children[x] != [] ==> h'[x].modifier == h[x].modifier
    ensures Above(t, h', v, w) == Above(t, h, v, w)
    decreases w - v
  {
    t.ParentUnder(v, w);
    if t.parent[v] != w {
      AboveSame(t, h, h', t.parent[v], w);
    }
  }

  /** Placing e moves a node of its parent's subtrees by as much as the sibling the node is under. */
  lemma {:induction false} BareMoves(t: Tree, h: seq<Hier>, h': seq<Hier>, e: nat, v: nat)
    requires t.Valid() && t.Node(e) && t.Node(t.parent[e]) && e in t.children[t.parent[e]] && PlacedFrame(t, h, h', e)
    requires Below(t, v, t.parent[e]) && |h| == t.Size()
    ensures var b := Branch(t, v, t.parent[e]);
            |h'| == t.Size() && Bare(t, h', v, t.parent[e]) - Bare(t, h, v, t.parent[e]) == h'[b].prelim - h[b].prelim
  {
    var w := t.parent[e];
    var b := Branch(t, v, w);
    if v == b {
      AboveChild(t, h, b, w);
      AboveChild(t, h', b, w);
    } else {
      AboveBranch(t, h, v, b, w);
      AboveBranch(t, h', v, b, w);
      t.ParentUnder(v, b);
      if b < e {
        t.SiblingsOrdered(b, e, w);
      } else if e < b {
        t.SiblingsOrdered(e, b, w);
      }
      InnerBranch(t, v, b);
      AboveSame(t, h, h', v, b);
    }
  }

  lemma {:induction false} InnerBranch(t: Tree, v: nat, b: nat)
    requires t.Valid() && Below(t, v, b)
    ensures t.children[b] != []
  {
  }

  /** The siblings up to e have at most spread. */
  lemma {:induction false} SpreadBetween(t: Tree, h: seq<Hier>, h': seq<Hier>, e: nat, i: nat, j: nat)
    requires t.Valid() && t.Node(e) && t.Node(t.parent[e]) && |h| == |h'| == t.Size() && SpreadFrame(t, h, h', e)
    requires i <= j < |t.children[t.parent[e]]| && j <= t.index[e]
    ensures var w := t.parent[e];
            PlaceOf(t, h', w, j) - PlaceOf(t, h', w, i) >= PlaceOf(t, h, w, j) - PlaceOf(t, h, w, i)
    decreases j - i
  {
    if i < j {
      SpreadBetween(t, h, h', e, i, j - 1);
      SpreadAt(t, h, h', e, j - 1);
    }
  }

  /** Nodes under different siblings are not brought closer together. */
  lemma {:induction false} RelSpread(t: Tree, h: seq<Hier>, h': seq<Hier>, e: nat, u: nat, v: nat)
    requires t.Valid() && t.Node(e) && t.Node(t.parent[e]) && e in t.children[t.parent[e]]
    requires |h| == |h'| == t.Size() && PlacedFrame(t, h, h', e) && SpreadFrame(t, h, h', e)
    requires Parted(t, t.parent[e], u, v) && Branch(t, v, t.parent[e]) <= e
    ensures var w := t.parent[e]; Rel(t, h', v, w) - Rel(t, h', u, w) >= Rel(t, h, v, w) - Rel(t, h, u, w)
  {
    var w := t.parent[e];
    var a, b := Branch(t, u, w), Branch(t, v, w);
    BareMoves(t, h, h', e, u);
    BareMoves(t, h, h', e, v);
    hide Bare, SpreadFrame, PlacedFrame, PlaceOf, PendingAt;
    t.SiblingsOrdered(a, b, w);
    if b < e {
      t.SiblingsOrdered(b, e, w);
    } else {
      ParentIndex(t, w, e);
    }
    PlaceOfChild(t, h, w, a);
    PlaceOfChild(t, h', w, a);
    PlaceOfChild(t, h, w, b);
    PlaceOfChild(t, h', w, b);
    SpreadBetween(t, h, h', e, t.index[a], t.index[b]);
  }

  // ---------------------------------------------------------------------------------
  // Sums along contours

  ghost predicate Inside(h: seq<Hier>, c: seq<nat>) { forall i :: 0 <= i < |c| ==> c[i] < |h| }

  /** The sum of the modifiers of the first n nodes of a contour. */
  ghost function Mods(h: seq<Hier>, c: seq<nat>, n: nat): real
    requires n <= |c| && Inside(h, c)
  {
    if n == 0 then 0.0 else Mods(h, c, n - 1) + h[c[n - 1]].modifier
  }

  lemma {:induction false} ModsSame(h: seq<Hier>, h': seq<Hier>, c: seq<nat>, c': seq<nat>, n: nat)
    requires n <= |c| && n <= |c'|
    requires Inside(h, c) && Inside(h', c')
    requires forall i :: 0 <= i < n ==> c'[i] == c[i] && h'[c[i]].modifier == h[c[i]].modifier
    ensures Mods(h', c', n) == Mods(h, c, n)
  {
    if n > 0 {
      ModsSame(h, h', c, c', n - 1);
    }
  }

  lemma {:induction false} ModsMoved(h: seq<Hier>, h': seq<Hier>, c: seq<nat>, n: nat, amount: real)
    requires 0 < n <= |c| && |h| == |h'| && Inside(h, c)
    requires h'[c[0]].modifier == h[c[0]].modifier + amount
    requires forall i :: 0 < i < n ==> h'[c[i]].modifier == h[c[i]].modifier
    ensures Mods(h', c, n) == Mods(h, c, n) + amount
  {
    if n > 1 {
      ModsMoved(h, h', c, n - 1, amount);
    } else {
      assert Mods(h, c, 0) == Mods(h', c, 0) == 0.0;
    }
  }

  lemma {:induction false} ModsCons(h: seq<Hier>, v: nat, c: seq<nat>, n: nat)
    requires v < |h| && n <= |c| && Inside(h, c)
    ensures Mods(h, [v] + c, n + 1) == h[v].modifier + Mods(h, c, n)
  {
    if n > 0 {
      ModsCons(h, v, c, n - 1);
    } else {
      assert Mods(h, [v] + c, 0) == 0.0;
    }
  }

  /** After a thread has made up for the difference in sums, the sums go on as on the other contour. */
  lemma {:induction false} ModsLonger(h: seq<Hier>, h': seq<Hier>, a: seq<nat>, b: seq<nat>, n: nat)
    requires |a| <= n <= |b| && |h| == |h'|
    requires Inside(h, a) && Inside(h, b)
    requires Mods(h', a, |a|) == Mods(h, b, |a|) && forall i :: |a| <= i < |b| ==> h'[b[i]].modifier == h[b[i]].modifier
    ensures Mods(h', Longer(a, b), n) == Mods(h, b, n)
  {
    if n == |a| {
      ModsSame(h', h', a, Longer(a, b), n);
    } else {
      ModsLonger(h, h', a, b, n - 1);
    }
  }

  /** Every node of contour c, at its prelim plus the sum of the modifiers before it, is where the
      modifiers of the nodes above it put it. */
  ghost predicate Sums(t: Tree, h: seq<Hier>, c: seq<nat>, w: nat)
    requires t.Valid()
  {
    && |h| == t.Size() && (forall i :: 0 <= i < |c| ==> Below(t, c[i], w))
    && forall i :: 0 <= i < |c| ==> h[c[i]].prelim + Mods(h, c, i) == Bare(t, h, c[i], w)
  }

  lemma {:induction false} SumsAt(t: Tree, h: seq<Hier>, c: seq<nat>, w: nat, i: nat)
    requires t.Valid() && Sums(t, h, c, w) && i < |c|
    ensures |h| == t.Size() && Inside(h, c) && Below(t, c[i], w)
    ensures h[c[i]].prelim + Mods(h, c, i) == Bare(t, h, c[i], w)
  {
  }

  /** e moves with its subtree; nothing else changes place, and no modifier changes. */
  ghost predicate Pushed(t: Tree, h: seq<Hier>, h': seq<Hier>, e: nat)
    requires t.Valid() && t.Node(e) && t.Node(t.parent[e])
  {
    && PlacedFrame(t, h, h', e) && SameThreads(h, h')
    && h'[e].prelim - h[e].prelim == h'[e].modifier - h[e].modifier
    && forall x :: 0 <= x < |h| && x != e ==> h'[x].modifier == h[x].modifier
  }

  /** A contour left of e stays, a contour of e's own moves with it. */
  lemma {:induction false} SumsPushed(t: Tree, h: seq<Hier>, h': seq<Hier>, e: nat, c: seq<nat>)
    requires t.Valid() && t.Node(e) && t.Node(t.parent[e]) && e in t.children[t.parent[e]]
    requires Pushed(t, h, h', e) && Sums(t, h, c, t.parent[e]) && c != []
    requires (forall i :: 0 <= i < |c| ==> c[i] < t.first[e]) ||
             (c[0] == e && forall i :: 0 < i < |c| ==> t.first[e] <= c[i] < e)
    ensures Sums(t, h', c, t.parent[e])
    ensures forall n :: 0 < n <= |c| ==>
              Mods(h', c, n) == Mods(h, c, n) + if c[0] == e then h'[e].modifier - h[e].modifier else 0.0
  {
    var w, amount := t.parent[e], h'[e].modifier - h[e].modifier;
    forall n | 0 < n <= |c|
      ensures Mods(h', c, n) == Mods(h, c, n) + if c[0] == e then amount else 0.0
    {
      if c[0] == e {
        ModsMoved(h, h', c, n, amount);
      } else {
        ModsSame(h, h', c, c, n);
      }
    }
    hide Bare, Mods;
    forall i | 0 <= i < |c|
      ensures h'[c[i]].prelim + Mods(h', c, i) == Bare(t, h', c[i], w)
    {
      SumsAt(t, h, c, w, i);
      PushedAt(t, h, h', e, c, i);
    }
  }

  lemma {:induction false} PushedAt(t: Tree, h: seq<Hier>, h': seq<Hier>, e: nat, c: seq<nat>, i: nat)
    requires t.Valid() && t.Node(e) && t.Node(t.parent[e]) && e in t.children[t.parent[e]]
    requires Pushed(t, h, h', e) && Sums(t, h, c, t.parent[e]) && i < |c|
    requires (forall i :: 0 <= i < |c| ==> c[i] < t.first[e]) ||
             (c[0] == e && forall i :: 0 < i < |c| ==> t.first[e] <= c[i] < e)
    ensures |h'| == |h| &&
            h'[c[i]].prelim + Mods(h', c, i) - h[c[i]].prelim - Mods(h, c, i) == Bare(t, h', c[i], t.parent[e]) -
              Bare(t, h, c[i], t.parent[e])
  {
    var w := t.parent[e];
    BareMoves(t, h, h', e, c[i]);
    hide Bare;
    var b := Branch(t, c[i], w);
    if c[0] == e {
      BranchIs(t, c[i], w, e);
      if i > 0 {
        ModsMoved(h, h', c, i, h'[e].modifier - h[e].modifier);
      } else {
        assert Mods(h, c, 0) == Mods(h', c, 0) == 0.0;
      }
    } else {
      ModsSame(h, h', c, c, i);
    }
  }

  // ---------------------------------------------------------------------------------
  // Shifts that are still pending

  /** Whoever has something pending among w's children is hidden behind nodes up to `last`, or behind
      nodes up to e that are no deeper than `depth`. */
  ghost predicate Veiled(t: Tree, h: seq<Hier>, w: nat, last: nat, e: nat, depth: nat)
    requires t.Valid() && t.Node(w) && |h| == t.Size()
  {
    forall i :: 0 <= i < |t.children[w]| && Pending(SiblingsOf(t, h, w), i) != 0.0 ==> Hidden(t, w, i, last, e, depth)
  }

  ghost predicate Hidden(t: Tree, w: nat, i: nat, last: nat, e: nat, depth: nat)
    requires t.Valid() && t.Node(w) && i < |t.children[w]|
  {
    exists u: nat, v: nat :: HiddenBy(t, w, i, u, v) && (v <= last || (v <= e && Depth(t, v) <= depth))
  }

  lemma {:induction false} HiddenMore(t: Tree, w: nat, i: nat, last: nat, e: nat, depth: nat, last': nat, e': nat,
                                      depth': nat)
    requires t.Valid() && t.Node(w) && i < |t.children[w]| && Hidden(t, w, i, last, e, depth)
    requires last <= last' && ((e <= e' && depth <= depth') || e <= last')
    ensures Hidden(t, w, i, last', e', depth')
  {
    hide Depth;
    var u: nat, v: nat :| HiddenBy(t, w, i, u, v) && (v <= last || (v <= e && Depth(t, v) <= depth));
  }

  lemma {:induction false} VeiledMore(t: Tree, h: seq<Hier>, w: nat, last: nat, e: nat, depth: nat, last': nat, e': nat,
                                      depth': nat)
    requires t.Valid() && t.Node(w) && |h| == t.Size() && Veiled(t, h, w, last, e, depth)
    requires last <= last' && ((e <= e' && depth <= depth') || e <= last')
    ensures Veiled(t, h, w, last', e', depth')
  {
    hide Hidden;
    forall i | 0 <= i < |t.children[w]| && Pending(SiblingsOf(t, h, w), i) != 0.0
      ensures Hidden(t, w, i, last', e', depth')
    {
      HiddenMore(t, w, i, last, e, depth, last', e', depth');
    }
  }

  /** The depth of the d-th level below w, counted from 0. */
  ghost function Level(t: Tree, w: nat, d: nat): nat
    requires t.Valid() && t.Node(w)
  {
    Depth(t, w) + 1 + d
  }

  /** Nothing is pending for the end of a level that is deep enough. */
  lemma {:induction false} EndIsFinal(t: Tree, h: seq<Hier>, w: nat, left: seq<nat>, right: seq<nat>, last: nat, e: nat,
                                      depth: nat, j: nat, x: nat)
    requires t.Valid() && t.Node(w) && |h| == t.Size() && Veiled(t, h, w, last, e, depth)
    requires Ends(t, left, right, t.first[w], last, Depth(t, w) + 1) && last < w && last in t.children[w] && j < |left|
    requires |left| == |right| && depth <= Level(t, w, j) && (x == left[j] || x == right[j])
    ensures Below(t, x, w) && PendingAt(t, h, w, Branch(t, x, w)) == 0.0 && Rel(t, h, x, w) == Bare(t, h, x, w)
  {
    EndsAt(t, left, right, t.first[w], last, Depth(t, w) + 1, j);
    var b := Branch(t, x, w);
    ParentIndex(t, w, b);
    var i := t.index[b];
    hide Depth, Ends, Pending, Bare;
    if Pending(SiblingsOf(t, h, w), i) != 0.0 {
      assert Hidden(t, w, i, last, e, depth);
      var u: nat, v: nat :| HiddenBy(t, w, i, u, v) && (v <= last || (v <= e && Depth(t, v) <= depth));
      if v <= last {
        HiddenIsInside(t, w, i, u, v, left, right, last, j);
      }
      assert false;
    }
  }

  /** Nothing is pending for e, the last child placed. */
  lemma {:induction false} LastIsFinal(t: Tree, h: seq<Hier>, w: nat, last: nat, e: nat, depth: nat, x: nat)
    requires t.Valid() && t.Node(w) && |h| == t.Size() && Veiled(t, h, w, last, e, depth)
    requires e in t.children[w] && last <= e && t.Under(x, e)
    ensures Below(t, x, w) && PendingAt(t, h, w, Branch(t, x, w)) == 0.0 && Rel(t, h, x, w) == Bare(t, h, x, w)
  {
    BranchIs(t, x, w, e);
    ParentIndex(t, w, e);
    hide Depth, Pending, Bare;
    LastNotHidden(t, w, last, e, depth);
  }

  lemma {:induction false} LastNotHidden(t: Tree, w: nat, last: nat, e: nat, depth: nat)
    requires t.Valid() && t.Node(w) && e in t.children[w] && last <= e
    ensures t.index[e] < |t.children[w]| && !Hidden(t, w, t.index[e], last, e, depth)
  {
    ParentIndex(t, w, e);
    hide Depth;
  }

  /** Noting a move leaves something pending only strictly between the two siblings. */
  lemma {:induction false} MoveBetween(t: Tree, h: seq<Hier>, h': seq<Hier>, w: nat, left: nat, e: nat, shift: real,
                                       i: nat)
    requires t.Valid() && w < |h| == t.Size() && left in t.children[w] && e in t.children[w] && left < e
    requires forall x :: 0 <= x < t.Size() ==> h[x].i == t.index[x]
    requires h[left].i < h[e].i && MovedTo(h, h', left, e, shift) && i < |t.children[w]|
    ensures |h'| == |h|
    ensures Pending(SiblingsOf(t, h', w), i) != Pending(SiblingsOf(t, h, w), i) ==> left < t.children[w][i] < e
  {
    t.SiblingsOrdered(left, e, w);
    var s, m := SiblingsOf(t, h, w), Move(t.index[left], t.index[e], shift);
    NotedSiblings(t, h, h', w, left, e, shift);
    NotedPending(s, m, i);
    TimesNext(m.Step(), 0);
    hide Times, Pending, Noted, MovedTo, SiblingsOf;
    if t.index[left] < i < t.index[e] {
      t.ChildrenOrdered(w, t.index[left], i);
      t.ChildrenOrdered(w, i, t.index[e]);
      t.ChildWithin(w, i);
      t.ChildWithin(w, t.index[e]);
    }
  }

  // ---------------------------------------------------------------------------------
  // Comparing e's subtree with the forest of its left siblings, level by level

  /** The contours of the forest that ends with sibling `last`, and of e's subtree right of it. */
  ghost predicate Facing(t: Tree, e: nat, left: seq<nat>, right: seq<nat>, own: seq<nat>, ownRight: seq<nat>, last: nat)
    requires t.Valid()
  {
    && t.Node(e) && t.Node(t.parent[e]) && e in t.children[t.parent[e]] && last in t.children[t.parent[e]] &&
       t.first[e] == last + 1
    && Ends(t, left, right, t.first[t.parent[e]], last, Depth(t, t.parent[e]) + 1)
    && Ends(t, own, ownRight, t.first[e], e, Depth(t, t.parent[e]) + 1)
  }

  lemma {:induction false} FacingAt(t: Tree, e: nat, left: seq<nat>, right: seq<nat>, own: seq<nat>, ownRight: seq<nat>,
                                    last: nat, j: nat)
    requires t.Valid() && Facing(t, e, left, right, own, ownRight, last)
    ensures |left| == |right| && |own| == |ownRight| && e < t.parent[e] < t.Size() &&
            t.first[t.parent[e]] <= last < t.first[e] <= e
    ensures var base := Depth(t, t.parent[e]) + 1;
            && (j < |left| ==> t.first[t.parent[e]] <= left[j] <= last && t.first[t.parent[e]] <= right[j] <= last &&
                               Depth(t, left[j]) == Depth(t, right[j]) == base + j)
            && (j < |own| ==> t.first[e] <= own[j] <= e && t.first[e] <= ownRight[j] <= e &&
                              Depth(t, own[j]) == Depth(t, ownRight[j]) == base + j && (own[j] == e <==> j == 0) &&
                                (ownRight[j] == e <==> j == 0))
    ensures j < |left| && j < |own| ==> Parted(t, t.parent[e], right[j], own[j]) && Branch(t, own[j], t.parent[e]) == e
  {
    var w := t.parent[e];
    var base := Depth(t, w) + 1;
    ChildFirst(t, w, e);
    ChildFirst(t, w, last);
    DepthOfChild(t, w, e);
    if j < |left| {
      EndsAt(t, left, right, t.first[w], last, base, j);
    }
    if j < |own| {
      EndsAt(t, own, ownRight, t.first[e], e, base, j);
      DepthUnder(t, own[j], e);
      DepthUnder(t, ownRight[j], e);
    }
    if j < |left| && j < |own| {
      BranchIs(t, own[j], w, e);
      BranchBefore(t, w, right[j], last);
    }
  }

  /** A node of the forest up to `last` is under `last` or a sibling left of it. */
  lemma {:induction false} BranchBefore(t: Tree, w: nat, x: nat, last: nat)
    requires t.Valid() && t.Node(w) && last in t.children[w] && t.first[w] <= x <= last
    ensures Below(t, x, w) && Branch(t, x, w) <= last
  {
    ChildFirst(t, w, last);
    var b := Branch(t, x, w);
    if last < b {
      t.SiblingsOrdered(last, b, w);
    }
  }

  /** The separation the layout asks for between u and its right neighbour v: the one way for
      siblings, the other way round where contours are compared. */
  ghost function Gap(t: Tree, separation: (nat, nat) -> real, u: nat, v: nat): real
    requires t.Valid() && t.Node(u) && t.Node(v)
  {
    if t.parent[u] == t.parent[v] then separation(v, u) else separation(u, v)
  }

  /** On the levels up to d, e's subtree keeps its separation from the forest. */
  ghost predicate ApartTo(t: Tree, h: seq<Hier>, separation: (nat, nat) -> real, right: seq<nat>, own: seq<nat>, w: nat,
                          d: nat)
    requires t.Valid() && |h| == t.Size()
  {
    forall j :: 0 <= j <= d && j < |right| && j < |own| ==>
      Parted(t, w, right[j], own[j]) &&
        Rel(t, h, own[j], w) - Rel(t, h, right[j], w) >= Gap(t, separation, right[j], own[j])
  }

  /** On level j, e's subtree is just as far from the forest as it has to be. */
  ghost predicate Met(t: Tree, h: seq<Hier>, separation: (nat, nat) -> real, right: seq<nat>, own: seq<nat>, w: nat,
                      j: nat)
    requires t.Valid() && |h| == t.Size()
  {
    && j < |right| && j < |own| && Parted(t, w, right[j], own[j])
    && Rel(t, h, own[j], w) - Rel(t, h, right[j], w) == Gap(t, separation, right[j], own[j])
  }

  /** So it is on one of the levels up to d. */
  ghost predicate Meets(t: Tree, h: seq<Hier>, separation: (nat, nat) -> real, right: seq<nat>, own: seq<nat>, w: nat,
                        d: nat)
    requires t.Valid() && |h| == t.Size()
  {
    exists j: nat :: j <= d && Met(t, h, separation, right, own, w, j)
  }

  /** On levels below the first, nodes compared are no siblings. */
  lemma {:induction false} NoSiblings(t: Tree, e: nat, left: seq<nat>, right: seq<nat>, own: seq<nat>,
                                      ownRight: seq<nat>, last: nat, j: nat)
    requires t.Valid() && Facing(t, e, left, right, own, ownRight, last) && 0 < j < |right| && j < |own|
    ensures own[j] < |t.parent| && right[j] < |t.parent| && t.parent[right[j]] != t.parent[own[j]]
  {
    FacingAt(t, e, left, right, own, ownRight, last, j);
    t.ParentUnder(own[j], e);
    var a := Branch(t, right[j], t.parent[e]);
    BranchBefore(t, t.parent[e], right[j], last);
    if right[j] == a {
      DepthOfChild(t, t.parent[e], a);
    } else {
      t.ParentUnder(right[j], a);
    }
  }

  /** Who is charged for a conflict with node s. */
  ghost function Charge(t: Tree, h: seq<Hier>, s: nat, w: nat, default: nat): nat
    requires t.Valid() && |h| == t.Size() && t.Node(s) && t.Node(h[s].ancestor)
  {
    if t.parent[h[s].ancestor] == w then h[s].ancestor else default
  }

  /** Under every node of the right contour's deeper levels lies the child of w that is charged for it. */
  ghost predicate Charged(t: Tree, h: seq<Hier>, right: seq<nat>, w: nat, default: nat)
    requires t.Valid() && |h| == t.Size() && t.Node(w)
  {
    forall j :: 0 < j < |right| ==>
      t.Node(right[j]) && t.Node(h[right[j]].ancestor) &&
      var c := Charge(t, h, right[j], w, default); c in t.children[w] && t.Under(right[j], c)
  }

  /** The outcome of one level of apportion: out is marked as e's, and if s is too close, e moves
      right by shift at the expense of the sibling that s is under. */
  ghost predicate Levelled(t: Tree, h: seq<Hier>, h': seq<Hier>, out: nat, s: nat, e: nat, default: nat, shift: real)
    requires t.Valid() && |h| == t.Size() && t.Node(out) && t.Node(s) && t.Node(e) && t.Node(t.parent[e]) &&
             t.Node(h[s].ancestor)
  {
    var g := h[out := h[out].(ancestor := e)];
    var left := Charge(t, h, s, t.parent[e], default);
    shift >= 0.0 && t.Node(left) && h[left].i < h[e].i &&
      if shift > 0.0 then MovedTo(g, h', left, e, shift) else h' == g
  }

  /** One level of apportion pushes e and notes a move of its siblings. */
  lemma {:induction false} LevelPushes(t: Tree, h: seq<Hier>, h': seq<Hier>, out: nat, s: nat, e: nat, default: nat,
                                       shift: real)
    requires t.Valid() && |h| == t.Size() && t.Node(out) && t.Node(s) && t.Node(e) && t.Node(t.parent[e]) &&
             t.Node(h[s].ancestor)
    requires forall x :: 0 <= x < t.Size() ==> h[x].i == t.index[x]
    requires e in t.children[t.parent[e]] && t.Under(out, e) && t.first[t.parent[e]] <= s < t.first[e]
    requires var left := Charge(t, h, s, t.parent[e], default); left in t.children[t.parent[e]] && left < e
    requires Levelled(t, h, h', out, s, e, default, shift)
    ensures Pushed(t, h, h', e) && SpreadFrame(t, h, h', e) && h'[e].modifier == h[e].modifier + shift
    ensures forall x :: 0 <= x < |h| ==> h'[x].ancestor == if x == out then e else h[x].ancestor
  {
    var w, left, g := t.parent[e], Charge(t, h, s, t.parent[e], default), h[out := h[out].(ancestor := e)];
    ChildFirst(t, w, left);
    ChildFirst(t, w, e);
    FrameStart(t, h, e);
    FrameAncestor(t, h, h, e, out);
    SpreadSame(t, h, h, g, e);
    if shift > 0.0 {
      hide SpreadFrame;
      t.SiblingsOrdered(left, e, w);
      FrameMove(t, h, g, h', e, left, shift);
      SpreadMove(t, h, g, h', e, left, shift);
    }
  }

  /** What holds when the levels up to d have been compared. */
  ghost predicate Comparing(t: Tree, h: seq<Hier>, separation: (nat, nat) -> real, e: nat, default: nat,
                            left: seq<nat>, right: seq<nat>, own: seq<nat>, ownRight: seq<nat>, last: nat, d: nat)
    requires t.Valid()
  {
    && Facing(t, e, left, right, own, ownRight, last) && |h| == t.Size() && d < |left| && d < |own|
    && (forall x :: 0 <= x < t.Size() ==> h[x].i == t.index[x])
    && AllSums(t, h, t.parent[e], left, right, own, ownRight)
    && Charged(t, h, right, t.parent[e], default)
    && Veiled(t, h, t.parent[e], last, e, Level(t, t.parent[e], d))
    && ApartTo(t, h, separation, right, own, t.parent[e], d)
    && Meets(t, h, separation, right, own, t.parent[e], d)
    && Marked(h, ownRight, e, d)
  }

  ghost predicate AllSums(t: Tree, h: seq<Hier>, w: nat, left: seq<nat>, right: seq<nat>, own: seq<nat>,
                          ownRight: seq<nat>)
    requires t.Valid()
  {
    Sums(t, h, left, w) && Sums(t, h, right, w) && Sums(t, h, own, w) && Sums(t, h, ownRight, w)
  }

  ghost predicate Marked(h: seq<Hier>, ownRight: seq<nat>, e: nat, d: nat) {
    forall j :: 0 < j <= d && j < |ownRight| ==> ownRight[j] < |h| && h[ownRight[j]].ancestor == e
  }

  lemma {:induction false} ChargedLeft(t: Tree, h: seq<Hier>, e: nat, default: nat, left: seq<nat>, right: seq<nat>,
                                       own: seq<nat>, ownRight: seq<nat>, last: nat, j: nat)
    requires t.Valid() && Facing(t, e, left, right, own, ownRight, last) && |h| == t.Size() && 0 < j < |right|
    requires Charged(t, h, right, t.parent[e], default)
    ensures t.Node(right[j]) && t.first[t.parent[e]] <= right[j] <= last && t.Node(h[right[j]].ancestor)
    ensures var c := Charge(t, h, right[j], t.parent[e], default);
            c in t.children[t.parent[e]] && t.Under(right[j], c) && c < e
  {
    FacingAt(t, e, left, right, own, ownRight, last, j);
    var c := Charge(t, h, right[j], t.parent[e], default);
    if e < c {
      t.SiblingsOrdered(e, c, t.parent[e]);
    }
  }

  /** A contour of the forest keeps its sums. */
  lemma {:induction false} SumsStay(t: Tree, h: seq<Hier>, h': seq<Hier>, e: nat, c: seq<nat>, last: nat)
    requires t.Valid() && t.Node(e) && t.Node(t.parent[e]) && e in t.children[t.parent[e]] && last < t.first[e]
    requires Pushed(t, h, h', e) && Sums(t, h, c, t.parent[e]) && c != [] && forall i :: 0 <= i < |c| ==> c[i] <= last
    ensures Sums(t, h', c, t.parent[e]) && Grown(h, h', c, 0.0)
  {
    ChildFirst(t, t.parent[e], e);
    SumsPushed(t, h, h', e, c);
  }

  /** The sums on a contour of e's grow by what e has moved. */
  lemma {:induction false} SumsFollow(t: Tree, h: seq<Hier>, h': seq<Hier>, e: nat, c: seq<nat>)
    requires t.Valid() && t.Node(e) && t.Node(t.parent[e]) && e in t.children[t.parent[e]]
    requires Pushed(t, h, h', e) && Sums(t, h, c, t.parent[e]) && c != [] && c[0] == e && forall i :: 0 < i < |c| ==>
               t.first[e] <= c[i] < e
    ensures Sums(t, h', c, t.parent[e]) && Grown(h, h', c, h'[e].modifier - h[e].modifier)
  {
    SumsPushed(t, h, h', e, c);
  }

  ghost predicate Grown(h: seq<Hier>, h': seq<Hier>, c: seq<nat>, amount: real) {
    && |h'| == |h| && Inside(h, c)
    && forall n :: 0 < n <= |c| ==> Mods(h', c, n) == Mods(h, c, n) + amount
  }

  ghost predicate Before(c: seq<nat>, last: nat) { forall i :: 0 <= i < |c| ==> c[i] <= last }

  ghost predicate Topped(t: Tree, c: seq<nat>, e: nat)
    requires t.Valid() && t.Node(e)
  {
    c != [] && c[0] == e && forall i :: 0 < i < |c| ==> t.first[e] <= c[i] < e
  }

  /** The contours' sums move along with e. */
  lemma {:induction false} AllSumsPushed(t: Tree, h: seq<Hier>, h': seq<Hier>, e: nat, left: seq<nat>, right: seq<nat>,
                                         own: seq<nat>, ownRight: seq<nat>, last: nat)
    requires t.Valid() && Facing(t, e, left, right, own, ownRight, last) && left != [] && own != []
    requires Pushed(t, h, h', e) && AllSums(t, h, t.parent[e], left, right, own, ownRight)
    ensures AllSums(t, h', t.parent[e], left, right, own, ownRight)
    ensures var amount := h'[e].modifier - h[e].modifier;
            Grown(h, h', left, 0.0) && Grown(h, h', right, 0.0) && Grown(h, h', own, amount) &&
              Grown(h, h', ownRight, amount)
  {
    FacingSides(t, e, left, right, own, ownRight, last);
    hide Pushed, Facing, Sums, Grown;
    SumsStay(t, h, h', e, left, last);
    SumsStay(t, h, h', e, right, last);
    SumsFollow(t, h, h', e, own);
    SumsFollow(t, h, h', e, ownRight);
  }

  lemma {:induction false} FacingSides(t: Tree, e: nat, left: seq<nat>, right: seq<nat>, own: seq<nat>,
                                       ownRight: seq<nat>, last: nat)
    requires t.Valid() && Facing(t, e, left, right, own, ownRight, last) && left != [] && own != []
    ensures t.Node(e) && t.Node(t.parent[e]) && e in t.children[t.parent[e]] && last < t.first[e] && |left| == |right|
    ensures Before(left, last) && Before(right, last) && Topped(t, own, e) && Topped(t, ownRight, e)
  {
    FacingAt(t, e, left, right, own, ownRight, last, 0);
    hide Depth;
    forall j | 0 <= j < |left|
      ensures left[j] <= last && right[j] <= last
    {
      FacingAt(t, e, left, right, own, ownRight, last, j);
    }
    forall j | 0 < j < |own|
      ensures t.first[e] <= own[j] < e && t.first[e] <= ownRight[j] < e
    {
      FacingAt(t, e, left, right, own, ownRight, last, j);
    }
  }

  /** Only siblings that end above the level compared get something pending. */
  lemma {:induction false} VeiledNext(t: Tree, h: seq<Hier>, h': seq<Hier>, e: nat, default: nat, left: seq<nat>,
                                      right: seq<nat>, own: seq<nat>, ownRight: seq<nat>,
                   last: nat, d: nat, shift: real)
    requires t.Valid() && Facing(t, e, left, right, own, ownRight, last) && |h| == t.Size() && 0 < d < |left| &&
             d < |own|
    requires forall x :: 0 <= x < t.Size() ==> h[x].i == t.index[x]
    requires Charged(t, h, right, t.parent[e], default) && t.Node(ownRight[d]) && t.Node(right[d]) &&
             t.Node(h[right[d]].ancestor)
    requires Veiled(t, h, t.parent[e], last, e, Level(t, t.parent[e], d - 1))
    requires Levelled(t, h, h', ownRight[d], right[d], e, default, shift)
    ensures |h'| == t.Size() && Veiled(t, h', t.parent[e], last, e, Level(t, t.parent[e], d))
  {
    var w, g := t.parent[e], h[ownRight[d] := h[ownRight[d]].(ancestor := e)];
    var base, c := Depth(t, w) + 1, Charge(t, h, right[d], w, default);
    ChargedLeft(t, h, e, default, left, right, own, ownRight, last, d);
    FacingAt(t, e, left, right, own, ownRight, last, d);
    assert SiblingsOf(t, g, w) == SiblingsOf(t, h, w);
    hide Depth, Ends, Pending, SiblingsOf, Hidden, MovedTo;
    forall i | 0 <= i < |t.children[w]| && Pending(SiblingsOf(t, h', w), i) != 0.0
      ensures Hidden(t, w, i, last, e, Level(t, w, d))
    {
      if Pending(SiblingsOf(t, h, w), i) != 0.0 {
        HiddenMore(t, w, i, last, e, Level(t, w, d - 1), last, e, Level(t, w, d));
      } else {
        MoveBetween(t, g, h', w, c, e, shift, i);
        BetweenIsHidden(t, e, left, right, own, ownRight, last, d, c, i);
      }
    }
  }

  lemma {:induction false} BetweenIsHidden(t: Tree, e: nat, left: seq<nat>, right: seq<nat>, own: seq<nat>,
                                           ownRight: seq<nat>, last: nat, d: nat, c: nat, i: nat)
    requires t.Valid() && Facing(t, e, left, right, own, ownRight, last) && d < |left| && d < |own| && |left| == |right|
    requires c in t.children[t.parent[e]] && t.Under(right[d], c) && i < |t.children[t.parent[e]]| &&
             c < t.children[t.parent[e]][i] < e
    ensures Hidden(t, t.parent[e], i, last, e, Level(t, t.parent[e], d))
  {
    var w, x := t.parent[e], t.children[t.parent[e]][i];
    FacingAt(t, e, left, right, own, ownRight, last, d);
    t.SiblingsOrdered(x, e, w);
    hide Depth, Ends;
    HiddenBetween(t, w, i, left, right, last, d, c, e, own[d]);
  }

  /** What has been apart stays apart when e is pushed. */
  lemma {:induction false} ApartKept(t: Tree, h: seq<Hier>, h': seq<Hier>, separation: (nat, nat) -> real, e: nat,
                  left: seq<nat>, right: seq<nat>, own: seq<nat>, ownRight: seq<nat>, last: nat, d: nat)
    requires t.Valid() && Facing(t, e, left, right, own, ownRight, last) && |h| == |h'| == t.Size()
    requires PlacedFrame(t, h, h', e) && SpreadFrame(t, h, h', e) &&
             ApartTo(t, h, separation, right, own, t.parent[e], d)
    ensures ApartTo(t, h', separation, right, own, t.parent[e], d)
  {
    hide PlacedFrame, SpreadFrame, Rel, Gap, Parted;
    forall j | 0 <= j <= d && j < |right| && j < |own|
      ensures Parted(t, t.parent[e], right[j], own[j])
      ensures Rel(t, h', own[j], t.parent[e]) - Rel(t, h', right[j], t.parent[e]) >=
              Gap(t, separation, right[j], own[j])
    {
      FacingAt(t, e, left, right, own, ownRight, last, j);
      RelSpread(t, h, h', e, right[j], own[j]);
    }
  }

  /** Where the right end of the level just compared stands. */
  lemma {:induction false} RightEndPlace(t: Tree, h: seq<Hier>, e: nat, left: seq<nat>, right: seq<nat>, own: seq<nat>,
                                         ownRight: seq<nat>, last: nat, d: nat)
    requires t.Valid() && Facing(t, e, left, right, own, ownRight, last) && |h| == t.Size() && d < |left| == |right|
    requires Veiled(t, h, t.parent[e], last, e, Level(t, t.parent[e], d))
    ensures Below(t, right[d], t.parent[e]) && Rel(t, h, right[d], t.parent[e]) == Bare(t, h, right[d], t.parent[e])
  {
    hide Depth, Ends, Rel, Bare, Veiled, Parted;
    FacingAt(t, e, left, right, own, ownRight, last, d);
    EndIsFinal(t, h, t.parent[e], left, right, last, e, Level(t, t.parent[e], d), d, right[d]);
  }

  /** Where the left end of e's subtree stands on that level. */
  lemma {:induction false} LeftEndPlace(t: Tree, h: seq<Hier>, e: nat, left: seq<nat>, right: seq<nat>, own: seq<nat>,
                                        ownRight: seq<nat>, last: nat, d: nat)
    requires t.Valid() && Facing(t, e, left, right, own, ownRight, last) && |h| == t.Size() && d < |own|
    requires Veiled(t, h, t.parent[e], last, e, Level(t, t.parent[e], d))
    ensures Below(t, own[d], t.parent[e]) && Rel(t, h, own[d], t.parent[e]) == Bare(t, h, own[d], t.parent[e])
  {
    hide Depth, Ends, Rel, Bare, Veiled, Parted;
    FacingAt(t, e, left, right, own, ownRight, last, d);
    LastIsFinal(t, h, t.parent[e], last, e, Level(t, t.parent[e], d), own[d]);
  }

  lemma {:induction false} ApartNextLevel(t: Tree, h: seq<Hier>, h': seq<Hier>, separation: (nat, nat) -> real, e: nat,
                       left: seq<nat>, right: seq<nat>, own: seq<nat>, ownRight: seq<nat>, last: nat, d: nat,
                       shift: real)
    requires t.Valid() && Facing(t, e, left, right, own, ownRight, last) && 0 < d < |left| && d < |own|
    requires AllSums(t, h, t.parent[e], left, right, own, ownRight)
    requires Pushed(t, h, h', e) && SpreadFrame(t, h, h', e) && h'[e].modifier == h[e].modifier + shift
    requires Veiled(t, h', t.parent[e], last, e, Level(t, t.parent[e], d))
    requires ApartTo(t, h, separation, right, own, t.parent[e], d - 1)
    requires |right| == |left|
    requires shift >= h[right[d]].prelim + Mods(h, right, d) - h[own[d]].prelim - Mods(h, own, d) +
             separation(right[d], own[d])
    ensures AllSums(t, h', t.parent[e], left, right, own, ownRight)
    ensures ApartTo(t, h', separation, right, own, t.parent[e], d)
  {
    hide Facing, Pushed, SpreadFrame, PlacedFrame, Sums, Veiled, Mods, Rel, Bare, Depth, Level, Parted, Grown, ApartTo;
    FacingAt(t, e, left, right, own, ownRight, last, d);
    AllSumsPushed(t, h, h', e, left, right, own, ownRight, last);
    PushedFrame(t, h, h', e);
    ApartKept(t, h, h', separation, e, left, right, own, ownRight, last, d - 1);
    RightEndPlace(t, h', e, left, right, own, ownRight, last, d);
    LeftEndPlace(t, h', e, left, right, own, ownRight, last, d);
    SumsAt(t, h', right, t.parent[e], d);
    SumsAt(t, h', own, t.parent[e], d);
    NoSiblings(t, e, left, right, own, ownRight, last, d);
    GrownAt(h, h', right, 0.0, d);
    GrownAt(h, h', own, shift, d);
    ApartOneMore(t, h', separation, right, own, t.parent[e], d);
  }

  lemma {:induction false} ApartOneMore(t: Tree, h: seq<Hier>, separation: (nat, nat) -> real, right: seq<nat>,
                                        own: seq<nat>, w: nat, d: nat)
    requires t.Valid() && |h| == t.Size() && 0 < d < |right| && d < |own| &&
             ApartTo(t, h, separation, right, own, w, d - 1)
    requires Parted(t, w, right[d], own[d]) && t.Node(right[d]) && t.Node(own[d])
    requires Rel(t, h, own[d], w) - Rel(t, h, right[d], w) >= Gap(t, separation, right[d], own[d])
    ensures ApartTo(t, h, separation, right, own, w, d)
  {
    hide Rel, Gap, Parted;
  }

  lemma {:induction false} PushedFrame(t: Tree, h: seq<Hier>, h': seq<Hier>, e: nat)
    requires t.Valid() && t.Node(e) && t.Node(t.parent[e]) && Pushed(t, h, h', e)
    ensures |h| == |h'| == t.Size() && PlacedFrame(t, h, h', e)
    ensures forall x :: 0 <= x < |h| ==> (x != e ==> h'[x].prelim == h[x].prelim) && h'[x].i == h[x].i
  {
  }

  lemma {:induction false} GrownAt(h: seq<Hier>, h': seq<Hier>, c: seq<nat>, amount: real, n: nat)
    requires Grown(h, h', c, amount) && 0 < n <= |c|
    ensures |h'| == |h| && Inside(h, c) && Mods(h', c, n) == Mods(h, c, n) + amount
  {
  }

  /** If e moves it meets the forest on the level just compared, else where it did before. */
  lemma {:induction false} MeetsNext(t: Tree, h: seq<Hier>, h': seq<Hier>, separation: (nat, nat) -> real, e: nat,
                      left: seq<nat>, right: seq<nat>, own: seq<nat>, ownRight: seq<nat>, last: nat, d: nat,
                      shift: real)
    requires t.Valid() && Facing(t, e, left, right, own, ownRight, last) && 0 < d < |left| && d < |own|
    requires AllSums(t, h, t.parent[e], left, right, own, ownRight)
    requires Pushed(t, h, h', e) && SpreadFrame(t, h, h', e) && h'[e].modifier == h[e].modifier + shift
    requires Veiled(t, h', t.parent[e], last, e, Level(t, t.parent[e], d))
    requires Meets(t, h, separation, right, own, t.parent[e], d - 1)
    requires |right| == |left|
    requires shift > 0.0 ==>
               shift == h[right[d]].prelim + Mods(h, right, d) - h[own[d]].prelim - Mods(h, own, d) +
                        separation(right[d], own[d])
    requires shift <= 0.0 ==> NothingMoved(t, h, h')
    ensures |h'| == t.Size() && Meets(t, h', separation, right, own, t.parent[e], d)
  {
    hide Facing, Pushed, SpreadFrame, PlacedFrame, Sums, Veiled, Mods, Rel, Bare, Depth, Level, Parted, Grown;
    FacingAt(t, e, left, right, own, ownRight, last, d);
    PushedFrame(t, h, h', e);
    if shift > 0.0 {
      AllSumsPushed(t, h, h', e, left, right, own, ownRight, last);
      RightEndPlace(t, h', e, left, right, own, ownRight, last, d);
      LeftEndPlace(t, h', e, left, right, own, ownRight, last, d);
      SumsAt(t, h', right, t.parent[e], d);
      SumsAt(t, h', own, t.parent[e], d);
      NoSiblings(t, e, left, right, own, ownRight, last, d);
      GrownAt(h, h', right, 0.0, d);
      GrownAt(h, h', own, shift, d);
      assert Met(t, h', separation, right, own, t.parent[e], d);
    } else {
      var j: nat :| j <= d - 1 && Met(t, h, separation, right, own, t.parent[e], j);
      StillMet(t, h, h', separation, right, own, t.parent[e], j);
    }
  }

  ghost predicate NothingMoved(t: Tree, h: seq<Hier>, h': seq<Hier>) {
    |h'| == |h| && forall x :: 0 <= x < |h| ==>
      && h'[x].prelim == h[x].prelim && h'[x].change == h[x].change && h'[x].shift == h[x].shift
      && h'[x].modifier == h[x].modifier
  }

  lemma {:induction false} StillMet(t: Tree, h: seq<Hier>, h': seq<Hier>, separation: (nat, nat) -> real,
                                    right: seq<nat>, own: seq<nat>, w: nat, j: nat)
    requires t.Valid() && |h| == t.Size() && NothingMoved(t, h, h') && Met(t, h, separation, right, own, w, j)
    ensures |h'| == t.Size() && Met(t, h', separation, right, own, w, j)
  {
    assert Below(t, own[j], w) && Below(t, right[j], w);
    SameRel(t, h, h', own[j], w);
    SameRel(t, h, h', right[j], w);
  }

  /** One more level has been compared. */
  lemma {:induction false} ComparingNext(t: Tree, h: seq<Hier>, h': seq<Hier>, separation: (nat, nat) -> real, e: nat,
                                         default: nat,
                      left: seq<nat>, right: seq<nat>, own: seq<nat>, ownRight: seq<nat>, last: nat, d: nat,
                      shift: real)
    requires t.Valid() && 0 < d < |left| == |right| && d < |own| == |ownRight|
    requires Comparing(t, h, separation, e, default, left, right, own, ownRight, last, d - 1)
    requires t.Node(ownRight[d]) && t.Node(right[d]) && t.Node(h[right[d]].ancestor)
    requires Levelled(t, h, h', ownRight[d], right[d], e, default, shift)
    requires Inside(h, right) && Inside(h, own)
    requires var missing := h[right[d]].prelim + Mods(h, right, d) - h[own[d]].prelim - Mods(h, own, d) +
                            separation(right[d], own[d]);
             shift == if missing > 0.0 then missing else 0.0
    ensures Comparing(t, h', separation, e, default, left, right, own, ownRight, last, d)
    ensures |h'| == |h| && Pushed(t, h, h', e) && SpreadFrame(t, h, h', e)
    ensures Grown(h, h', left, 0.0) && Grown(h, h', right, 0.0) && Grown(h, h', own, shift) &&
            Grown(h, h', ownRight, shift)
  {
    hide AllSums, Sums, Veiled, Mods, Rel, Depth, Level, Parted, Grown, SpreadFrame, ApartTo, Facing, Levelled, Charged,
         Marked, Pushed, Meets;
    ChargedLeft(t, h, e, default, left, right, own, ownRight, last, d);
    FacingAt(t, e, left, right, own, ownRight, last, d);
    LevelPushes(t, h, h', ownRight[d], right[d], e, default, shift);
    PushedFrame(t, h, h', e);
    VeiledNext(t, h, h', e, default, left, right, own, ownRight, last, d, shift);
    AllSumsPushed(t, h, h', e, left, right, own, ownRight, last);
    ApartNextLevel(t, h, h', separation, e, left, right, own, ownRight, last, d, shift);
    if shift <= 0.0 {
      OnlyMarked(t, h, h', ownRight[d], right[d], e, default, shift);
    }
    MeetsNext(t, h, h', separation, e, left, right, own, ownRight, last, d, shift);
    ChargedNext(t, h, h', e, default, left, right, own, ownRight, last, d);
  }

  lemma OnlyMarked(t: Tree, h: seq<Hier>, h': seq<Hier>, out: nat, s: nat, e: nat, default: nat, shift: real)
    requires t.Valid() && |h| == t.Size() && t.Node(out) && t.Node(s) && t.Node(e) && t.Node(t.parent[e]) &&
             t.Node(h[s].ancestor)
    requires Levelled(t, h, h', out, s, e, default, shift) && shift <= 0.0
    ensures NothingMoved(t, h, h')
  {
  }

  /** Marking a node of e's subtree changes nothing for the nodes of the forest. */
  lemma {:induction false} ChargedNext(t: Tree, h: seq<Hier>, h': seq<Hier>, e: nat, default: nat,
                    left: seq<nat>, right: seq<nat>, own: seq<nat>, ownRight: seq<nat>, last: nat, d: nat)
    requires t.Valid() && Facing(t, e, left, right, own, ownRight, last) && |h| == |h'| == t.Size() &&
             0 < d < |own| == |ownRight|
    requires Charged(t, h, right, t.parent[e], default) && Marked(h, ownRight, e, d - 1)
    requires forall x :: 0 <= x < |h| ==> h'[x].ancestor == if x == ownRight[d] then e else h[x].ancestor
    ensures Charged(t, h', right, t.parent[e], default) && Marked(h', ownRight, e, d)
  {
    hide Depth, Ends;
    FacingAt(t, e, left, right, own, ownRight, last, d);
    forall j | 0 <= j < |right|
      ensures right[j] < t.first[e]
    {
      FacingAt(t, e, left, right, own, ownRight, last, j);
    }
    forall j | 0 <= j < |ownRight|
      ensures ownRight[j] < |h|
    {
      FacingAt(t, e, left, right, own, ownRight, last, j);
    }
  }

  // ---------------------------------------------------------------------------------
  // The forest of w's children up to `last`

  /** What is known of the forest besides its contours: they are the ends of its levels, the sums
      along them are positions, the right sibling is charged for every node on the right one, and
      whoever has shifts pending is hidden. */
  ghost predicate Settled(t: Tree, h: seq<Hier>, w: nat, last: nat, left: seq<nat>, right: seq<nat>, default: nat)
    requires t.Valid()
  {
    && |h| == t.Size() && t.Node(w) && last in t.children[w]
    && Ends(t, left, right, t.first[w], last, Depth(t, w) + 1)
    && Sums(t, h, left, w) && Sums(t, h, right, w)
    && Charged(t, h, right, w, default) && Veiled(t, h, w, last, last, 0)
  }

  /** Records that agree under v's branch put v in the same place. */
  lemma {:induction false} BareFrame(t: Tree, h: seq<Hier>, h': seq<Hier>, v: nat, w: nat)
    requires t.Valid() && |h| == |h'| == t.Size() && Below(t, v, w)
    requires var b := Branch(t, v, w);
             forall x :: v <= x <= b ==> h'[x].prelim == h[x].prelim && h'[x].modifier == h[x].modifier
    ensures Bare(t, h', v, w) == Bare(t, h, v, w)
  {
    var b := Branch(t, v, w);
    if v == b {
      AboveChild(t, h, b, w);
      AboveChild(t, h', b, w);
    } else {
      AboveBranch(t, h, v, b, w);
      AboveBranch(t, h', v, b, w);
      AboveSame(t, h, h', v, b);
    }
  }

  /** Nothing is noted or carried out among the children of w. */
  ghost predicate SameNotes(t: Tree, h: seq<Hier>, h': seq<Hier>, w: nat)
    requires t.Valid() && t.Node(w) && |h| == |h'| == t.Size()
  {
    forall c :: c in t.children[w] ==> c < |h| && h'[c].change == h[c].change && h'[c].shift == h[c].shift
  }

  lemma {:induction false} SamePending(t: Tree, h: seq<Hier>, h': seq<Hier>, w: nat, i: nat)
    requires t.Valid() && t.Node(w) && |h| == |h'| == t.Size() && SameNotes(t, h, h', w) && i < |t.children[w]|
    ensures Pending(SiblingsOf(t, h', w), i) == Pending(SiblingsOf(t, h, w), i)
  {
    PendingSame(SiblingsOf(t, h, w), SiblingsOf(t, h', w), i);
  }

  lemma {:induction false} RelFrame(t: Tree, h: seq<Hier>, h': seq<Hier>, v: nat, w: nat)
    requires t.Valid() && |h| == |h'| == t.Size() && Below(t, v, w) && SameNotes(t, h, h', w)
    requires var b := Branch(t, v, w);
             forall x :: v <= x <= b ==> h'[x].prelim == h[x].prelim && h'[x].modifier == h[x].modifier
    ensures Rel(t, h', v, w) == Rel(t, h, v, w)
  {
    BareFrame(t, h, h', v, w);
    ParentIndex(t, w, Branch(t, v, w));
    SamePending(t, h, h', w, t.index[Branch(t, v, w)]);
  }

  lemma {:induction false} SumsFrame(t: Tree, h: seq<Hier>, h': seq<Hier>, c: seq<nat>, w: nat, last: nat)
    requires t.Valid() && |h| == |h'| == t.Size() && Sums(t, h, c, w) && t.Node(w) && last in t.children[w]
    requires forall i :: 0 <= i < |c| ==> c[i] <= last
    requires forall x :: t.first[w] <= x <= last ==> h'[x].prelim == h[x].prelim && h'[x].modifier == h[x].modifier
    ensures Sums(t, h', c, w)
  {
    hide Bare, Mods;
    forall i | 0 <= i < |c|
      ensures h'[c[i]].prelim + Mods(h', c, i) == Bare(t, h', c[i], w)
    {
      SumsAt(t, h, c, w, i);
      BranchBefore(t, w, c[i], last);
      ModsSame(h, h', c, c, i);
      BareFrame(t, h, h', c[i], w);
    }
  }

  /** Records that agree on the forest, and on the notes of all children, keep it settled. */
  lemma {:induction false} SettledFrame(t: Tree, h: seq<Hier>, h': seq<Hier>, w: nat, last: nat, left: seq<nat>,
                                        right: seq<nat>, default: nat)
    requires t.Valid() && Settled(t, h, w, last, left, right, default) && |h'| == |h| && SameNotes(t, h, h', w)
    requires forall x :: t.first[w] <= x <= last ==>
               h'[x].prelim == h[x].prelim && h'[x].modifier == h[x].modifier && h'[x].ancestor == h[x].ancestor
    ensures Settled(t, h', w, last, left, right, default)
  {
    hide Depth, Sums, SameNotes, Hidden;
    forall j | 0 <= j < |left|
      ensures t.first[w] <= left[j] <= last && t.first[w] <= right[j] <= last
    {
      EndsAt(t, left, right, t.first[w], last, Depth(t, w) + 1, j);
    }
    SumsFrame(t, h, h', left, w, last);
    SumsFrame(t, h, h', right, w, last);
    forall i | 0 <= i < |t.children[w]| && Pending(SiblingsOf(t, h', w), i) != 0.0
      ensures Hidden(t, w, i, last, last, 0)
    {
      SamePending(t, h, h', w, i);
    }
    hide Ends;
  }

  // ---------------------------------------------------------------------------------
  // e between its children, beside its left sibling

  /** Carrying out the shifts of e's children puts the nodes below e where they were meant to be. */
  lemma {:induction false} BareExecuted(t: Tree, h: seq<Hier>, h1: seq<Hier>, e: nat, v: nat)
    requires t.Valid() && t.Node(e) && |h| == t.Size() && Positioned(t, h, h1, e) && Below(t, v, e)
    requires forall i :: 0 <= i < |t.children[e]| ==> h1[t.children[e][i]].prelim == PlaceOf(t, h, e, i)
    ensures |h1| == t.Size() && Bare(t, h1, v, e) == Rel(t, h, v, e)
  {
    hide PlaceOf, PendingAt, Positioned;
    var b := Branch(t, v, e);
    ExecutedChild(t, h, h1, e, b);
    if v == b {
      AboveChild(t, h, b, e);
      AboveChild(t, h1, b, e);
    } else {
      AboveBranch(t, h, v, b, e);
      AboveBranch(t, h1, v, b, e);
      AboveSame(t, h, h1, v, b);
    }
  }

  /** A child with its subtree moves by what is pending for it. */
  lemma {:induction false} ExecutedChild(t: Tree, h: seq<Hier>, h1: seq<Hier>, e: nat, b: nat)
    requires t.Valid() && t.Node(e) && |h| == t.Size() && Positioned(t, h, h1, e) && b in t.children[e]
    requires forall i :: 0 <= i < |t.children[e]| ==> h1[t.children[e][i]].prelim == PlaceOf(t, h, e, i)
    ensures |h1| == t.Size() && b < e
    ensures var n := PendingAt(t, h, e, b); h1[b].prelim == h[b].prelim + n && h1[b].modifier == h[b].modifier + n
    ensures forall x :: t.first[b] <= x < b ==> h1[x] == h[x]
  {
    hide PlaceOf, PendingAt, Centred;
    ChildFirst(t, e, b);
    PlaceOfChild(t, h, e, b);
    ParentIndex(t, e, b);
    forall x | t.first[b] <= x < b
      ensures h1[x] == h[x]
    {
      if x in t.children[e] {
        BranchIs(t, x, e, b);
        BranchIs(t, x, e, x);
      }
    }
  }

  /** The sums along the contours of e's children survive. */
  lemma {:induction false} ExecutedSums(t: Tree, h: seq<Hier>, h1: seq<Hier>, e: nat, last: nat, left: seq<nat>,
                                        right: seq<nat>, default: nat, c: seq<nat>)
    requires t.Valid() && Settled(t, h, e, last, left, right, default) && Positioned(t, h, h1, e) &&
             (c == left || c == right)
    requires forall i :: 0 <= i < |t.children[e]| ==> h1[t.children[e][i]].prelim == PlaceOf(t, h, e, i)
    ensures Sums(t, h1, c, e)
  {
    assert |left| == |right|;
    hide Depth, Ends, Mods, Rel, Bare, PlaceOf, Veiled, Sums;
    forall i | 0 <= i < |c|
      ensures Below(t, c[i], e) && h1[c[i]].prelim == h[c[i]].prelim && h1[c[i]].modifier == h[c[i]].modifier
      ensures Bare(t, h1, c[i], e) == Bare(t, h, c[i], e)
    {
      SumsAt(t, h, c, e, i);
      ExecutedEnd(t, h, h1, e, last, left, right, default, i, c[i]);
    }
    ExecutedChain(t, h, h1, e, c);
  }

  lemma {:induction false} ExecutedChain(t: Tree, h: seq<Hier>, h1: seq<Hier>, e: nat, c: seq<nat>)
    requires t.Valid() && |h1| == |h| == t.Size() && Sums(t, h, c, e)
    requires forall i :: 0 <= i < |c| ==>
               && Below(t, c[i], e) && h1[c[i]].prelim == h[c[i]].prelim && h1[c[i]].modifier == h[c[i]].modifier
               && Bare(t, h1, c[i], e) == Bare(t, h, c[i], e)
    ensures Sums(t, h1, c, e)
  {
    hide Bare, Mods;
    forall i | 0 <= i < |c|
      ensures h1[c[i]].prelim + Mods(h1, c, i) == Bare(t, h1, c[i], e)
    {
      ModsSame(h, h1, c, c, i);
    }
  }

  /** The ends of levels have nothing pending. */
  lemma {:induction false} ExecutedEnd(t: Tree, h: seq<Hier>, h1: seq<Hier>, e: nat, last: nat, left: seq<nat>,
                                       right: seq<nat>, default: nat, i: nat, x: nat)
    requires t.Valid() && Settled(t, h, e, last, left, right, default) && Positioned(t, h, h1, e)
    requires i < |left| == |right| && (x == left[i] || x == right[i]) && Below(t, x, e)
    requires forall j :: 0 <= j < |t.children[e]| ==> h1[t.children[e][j]].prelim == PlaceOf(t, h, e, j)
    ensures h1[x].prelim == h[x].prelim && h1[x].modifier == h[x].modifier && Bare(t, h1, x, e) == Bare(t, h, x, e)
  {
    hide Depth, Ends, Bare, Rel, PlaceOf, Sums, Veiled, Charged;
    ChildFirst(t, e, last);
    EndIsFinal(t, h, e, left, right, last, last, 0, i, x);
    BareExecuted(t, h, h1, e, x);
    if x in t.children[e] {
      AboveChild(t, h, x, e);
      PlaceOfChild(t, h, e, x);
      ParentIndex(t, e, x);
    } else {
      assert h1[x] == h[x];
    }
  }

  /** A contour with e on top, relative to e's parent. */
  lemma {:induction false} OwnOnTop(t: Tree, h: seq<Hier>, c: seq<nat>, e: nat, w: nat)
    requires t.Valid() && |h| == t.Size() && t.Node(w) && e in t.children[w] && e < |h| && Sums(t, h, c, e)
    ensures Sums(t, h, [e] + c, w)
  {
    hide Mods, Above, Sums, Bare;
    ChainOnTop(t, h, c, e, w);
    forall i | 0 <= i < |c| + 1
      ensures Below(t, ([e] + c)[i], w) && h[([e] + c)[i]].prelim + Mods(h, [e] + c, i) == Bare(t, h, ([e] + c)[i], w)
    {
      OnTopAt(t, h, c, e, w, i);
    }
    SumsHold(t, h, [e] + c, w);
  }

  lemma {:induction false} ChainOnTop(t: Tree, h: seq<Hier>, c: seq<nat>, e: nat, w: nat)
    requires t.Valid() && |h| == t.Size() && t.Node(w) && e in t.children[w] && e < |h| && Sums(t, h, c, e)
    ensures Inside(h, [e] + c) && Inside(h, c)
  {
  }

  lemma {:induction false} OnTopAt(t: Tree, h: seq<Hier>, c: seq<nat>, e: nat, w: nat, i: nat)
    requires t.Valid() && |h| == t.Size() && t.Node(w) && e in t.children[w] && e < |h| && Sums(t, h, c, e) && i <= |c|
    requires Inside(h, [e] + c)
    ensures Below(t, ([e] + c)[i], w) && h[([e] + c)[i]].prelim + Mods(h, [e] + c, i) == Bare(t, h, ([e] + c)[i], w)
  {
    hide Mods, Bare, Sums;
    if i == 0 {
      BareOfChild(t, h, e, w);
      ModsNone(h, [e] + c);
    } else {
      SumsAt(t, h, c, e, i - 1);
      BareOnTop(t, h, c[i - 1], e, w);
      ModsCons(h, e, c, i - 1);
    }
  }

  lemma {:induction false} BareOfChild(t: Tree, h: seq<Hier>, e: nat, w: nat)
    requires t.Valid() && |h| == t.Size() && t.Node(w) && e in t.children[w] && e < |h|
    ensures Below(t, e, w) && Bare(t, h, e, w) == h[e].prelim
  {
    AboveChild(t, h, e, w);
  }

  lemma {:induction false} BareOnTop(t: Tree, h: seq<Hier>, v: nat, e: nat, w: nat)
    requires t.Valid() && |h| == t.Size() && t.Node(w) && e in t.children[w] && e < |h| && Below(t, v, e)
    ensures Below(t, v, w) && Bare(t, h, v, w) == Bare(t, h, v, e) + h[e].modifier
  {
    AboveBranch(t, h, v, e, w);
  }

  lemma {:induction false} ModsNone(h: seq<Hier>, c: seq<nat>)
    requires Inside(h, c)
    ensures Mods(h, c, 0) == 0.0
  {
  }

  /** Before the first comparison, e stands beside its left sibling. */
  lemma {:induction false} ComparingStart(t: Tree, h: seq<Hier>, h1: seq<Hier>, separation: (nat, nat) -> real, e: nat,
                                          default: nat,
                       left: seq<nat>, right: seq<nat>, own: seq<nat>, ownRight: seq<nat>, last: nat)
    requires t.Valid() && Walked(t, h, e) && e + 1 < t.Size() && t.index[e] > 0
    requires t.Node(t.parent[e]) && e in t.children[t.parent[e]]
    requires t.index[e] < |t.children[t.parent[e]]| && last == t.children[t.parent[e]][t.index[e] - 1]
    requires Positioned(t, h, h1, e) && |h1| == t.Size() && Beside(t, h, h1, separation, e)
    requires Settled(t, h, t.parent[e], last, left, right, default)
    requires Ends(t, own, ownRight, t.first[e], e, Depth(t, t.parent[e]) + 1) && Sums(t, h1, own, t.parent[e]) &&
             Sums(t, h1, ownRight, t.parent[e])
    ensures Comparing(t, h1, separation, e, default, left, right, own, ownRight, last, 0)
  {
    hide Depth, Level, Ends, Sums, Charged, Veiled, PlaceOf, Bare, Rel, Beside, Centred, Mods;
    var w := t.parent[e];
    ChildFirst(t, w, e);
    ParentIndex(t, w, e);
    LastBefore(t, w, t.index[e]);
    IndicesSame(t, h, h1, e);
    PositionedSettled(t, h, h1, e, w, last, left, right, default);
    VeiledMore(t, h1, w, last, last, 0, last, e, Level(t, w, 0));
    assert Facing(t, e, left, right, own, ownRight, last);
    TopsApart(t, h, h1, separation, e, left, right, own, ownRight, last);
  }

  lemma {:induction false} LastBefore(t: Tree, w: nat, i: nat)
    requires t.Valid() && t.Node(w) && 0 < i < |t.children[w]|
    ensures t.children[w][i - 1] in t.children[w] && t.first[t.children[w][i]] == t.children[w][i - 1] + 1
  {
    assert t.Tiled(w);
  }

  lemma {:induction false} IndicesSame(t: Tree, h: seq<Hier>, h1: seq<Hier>, e: nat)
    requires t.Valid() && Walked(t, h, e) && t.Node(e) && Positioned(t, h, h1, e)
    ensures |h1| == t.Size() && forall x :: 0 <= x < t.Size() ==> h1[x].i == t.index[x]
  {
  }

  /** Positioning e does not touch the forest of its left siblings. */
  lemma {:induction false} PositionedSettled(t: Tree, h: seq<Hier>, h1: seq<Hier>, e: nat, w: nat, last: nat,
                                             left: seq<nat>, right: seq<nat>, default: nat)
    requires t.Valid() && t.Node(e) && t.Node(w) && e in t.children[w] && Positioned(t, h, h1, e) && last < t.first[e]
    requires Settled(t, h, w, last, left, right, default)
    ensures Settled(t, h1, w, last, left, right, default)
  {
    hide Settled, Centred;
    PositionedNotes(t, h, h1, e, w);
    forall x | t.first[w] <= x <= last
      ensures h1[x] == h[x]
    {
      if x in t.children[e] {
        ChildFirst(t, e, x);
      }
    }
    SettledFrame(t, h, h1, w, last, left, right, default);
  }

  lemma {:induction false} PositionedNotes(t: Tree, h: seq<Hier>, h1: seq<Hier>, e: nat, w: nat)
    requires t.Valid() && t.Node(e) && t.Node(w) && e != w && Positioned(t, h, h1, e)
    ensures |h| == |h1| == t.Size() && SameNotes(t, h, h1, w)
  {
    hide Centred;
    forall c | c in t.children[w]
      ensures c < |h| && h1[c].change == h[c].change && h1[c].shift == h[c].shift
    {
      if c != e {
        ChildrenKeepPlace(t, h, h1, e, w, c);
      }
    }
  }

  /** e and its left sibling are apart. */
  lemma {:induction false} TopsApart(t: Tree, h: seq<Hier>, h1: seq<Hier>, separation: (nat, nat) -> real, e: nat,
                  left: seq<nat>, right: seq<nat>, own: seq<nat>, ownRight: seq<nat>, last: nat)
    requires t.Valid() && Walked(t, h, e) && Facing(t, e, left, right, own, ownRight, last) && t.index[e] > 0
    requires t.index[e] < |t.children[t.parent[e]]| && last == t.children[t.parent[e]][t.index[e] - 1]
    requires Positioned(t, h, h1, e) && |h| == |h1| == t.Size() && Beside(t, h, h1, separation, e)
    ensures left != [] && own != [] && ApartTo(t, h1, separation, right, own, t.parent[e], 0)
    ensures Meets(t, h1, separation, right, own, t.parent[e], 0)
  {
    var w := t.parent[e];
    TopsAre(t, e, left, right, own, ownRight, last);
    hide Facing, Walked, Positioned, PlaceOf, Rel, Beside, ApartTo, Parted;
    JoinedApart(t, h, h1, separation, e);
    ChildIndex(t, w, t.index[e] - 1);
    RelOfChild(t, h1, w, e);
    RelOfChild(t, h1, w, last);
    ApartAtTop(t, h1, separation, right, own, w);
    assert Met(t, h1, separation, right, own, w, 0);
  }

  lemma {:induction false} ApartAtTop(t: Tree, h: seq<Hier>, separation: (nat, nat) -> real, right: seq<nat>,
                                      own: seq<nat>, w: nat)
    requires t.Valid() && |h| == t.Size() && right != [] && own != [] && Parted(t, w, right[0], own[0])
    requires Rel(t, h, own[0], w) - Rel(t, h, right[0], w) >= Gap(t, separation, right[0], own[0])
    ensures ApartTo(t, h, separation, right, own, w, 0)
  {
    hide Rel, Gap, Parted;
  }

  lemma {:induction false} RelOfChild(t: Tree, h: seq<Hier>, w: nat, c: nat)
    requires t.Valid() && t.Node(w) && |h| == t.Size() && c in t.children[w]
    ensures Below(t, c, w) && Branch(t, c, w) == c && t.index[c] < |t.children[w]|
    ensures Rel(t, h, c, w) == PlaceOf(t, h, w, t.index[c])
  {
    AboveChild(t, h, c, w);
    PlaceOfChild(t, h, w, c);
  }

  lemma {:induction false} ChildIndex(t: Tree, w: nat, i: nat)
    requires t.Valid() && t.Node(w) && i < |t.children[w]|
    ensures t.children[w][i] < w && t.index[t.children[w][i]] == i && t.parent[t.children[w][i]] == w
  {
    assert t.Tiled(w);
  }

  lemma {:induction false} TopsAre(t: Tree, e: nat, left: seq<nat>, right: seq<nat>, own: seq<nat>, ownRight: seq<nat>,
                                   last: nat)
    requires t.Valid() && Facing(t, e, left, right, own, ownRight, last)
    ensures |left| == |right| > 0 && |own| == |ownRight| > 0 && right[0] == last && own[0] == e
    ensures t.Node(e) && t.Node(t.parent[e]) && e in t.children[t.parent[e]] && Parted(t, t.parent[e], last, e)
  {
    var w := t.parent[e];
    ChildFirst(t, w, e);
    ChildFirst(t, w, last);
    DepthOfChild(t, w, e);
    DepthOfChild(t, w, last);
    hide Depth, Ends;
    BetweenEnds(t, left, right, t.first[w], last, Depth(t, w) + 1, last);
    BetweenEnds(t, own, ownRight, t.first[e], e, Depth(t, w) + 1, e);
    FacingAt(t, e, left, right, own, ownRight, last, 0);
  }

  // ---------------------------------------------------------------------------------
  // Joining e's subtree to the forest

  /** The thread that continues the shorter of the contours on the longer one. */
  ghost predicate Rethreaded(t: Tree, h: seq<Hier>, h': seq<Hier>, left: seq<nat>, right: seq<nat>, own: seq<nat>,
                             ownRight: seq<nat>)
    requires t.Valid() && |h| == t.Size() && |left| == |right| > 0 && |own| == |ownRight| > 0
  {
    if |own| < |left| then Continued(t, h, h', ownRight, right)
    else if |left| < |own| then Continued(t, h, h', left, own)
    else h' == h
  }

  /** The leaf at the end of contour a is threaded to the next level of contour b. */
  ghost predicate Continued(t: Tree, h: seq<Hier>, h': seq<Hier>, a: seq<nat>, b: seq<nat>)
    requires t.Valid() && |h| == t.Size() && 0 < |a| < |b|
  {
    && Inside(h, a) && Inside(h, b)
    && var x := a[|a| - 1];
       t.children[x] == [] && h' == Threaded(h, x, Some(b[|a|]), Mods(h, b, |a|) - Mods(h, a, |a|))
  }

  /** Modifiers of leaves place nothing. */
  lemma {:induction false} ThreadMovesNothing(t: Tree, h: seq<Hier>, h': seq<Hier>, x: nat, next: Option<nat>,
                                              gap: real, v: nat, w: nat)
    requires t.Valid() && |h| == t.Size() && x < |h| && t.children[x] == [] && h' == Threaded(h, x, next, gap) &&
             Below(t, v, w)
    ensures |h'| == |h| && Bare(t, h', v, w) == Bare(t, h, v, w)
  {
    AboveSame(t, h, h', v, w);
  }

  /** The sums go on from one contour to the other. */
  lemma {:induction false} ContinuedSums(t: Tree, h: seq<Hier>, h': seq<Hier>, a: seq<nat>, b: seq<nat>, w: nat)
    requires t.Valid() && |h| == t.Size() && 0 < |a| < |b| && Continued(t, h, h', a, b) && Sums(t, h, a, w) &&
             Sums(t, h, b, w)
    requires forall i :: 0 <= i < |a| - 1 ==> a[i] != a[|a| - 1]
    requires forall i :: |a| <= i < |b| ==> b[i] != a[|a| - 1]
    ensures Sums(t, h', Longer(a, b), w)
  {
    hide Bare, Mods, Continued, Sums;
    var c := Longer(a, b);
    ContinuedMods(t, h, h', a, b);
    forall i | 0 <= i < |c|
      ensures Below(t, c[i], w) && h'[c[i]].prelim + Mods(h', c, i) == Bare(t, h', c[i], w)
    {
      if i < |a| {
        SumsAt(t, h, a, w, i);
        ModsSame(h, h', a, c, i);
      } else {
        SumsAt(t, h, b, w, i);
        ModsLonger(h, h', a, b, i);
      }
      ContinuedBare(t, h, h', a, b, c[i], w);
    }
    SumsHold(t, h', c, w);
  }

  lemma {:induction false} SumsHold(t: Tree, h: seq<Hier>, c: seq<nat>, w: nat)
    requires t.Valid() && |h| == t.Size() && Inside(h, c)
    requires forall i :: 0 <= i < |c| ==> Below(t, c[i], w) && h[c[i]].prelim + Mods(h, c, i) == Bare(t, h, c[i], w)
    ensures Sums(t, h, c, w)
  {
  }

  lemma {:induction false} ContinuedMods(t: Tree, h: seq<Hier>, h': seq<Hier>, a: seq<nat>, b: seq<nat>)
    requires t.Valid() && |h| == t.Size() && 0 < |a| < |b| && Continued(t, h, h', a, b)
    requires forall i :: 0 <= i < |a| - 1 ==> a[i] != a[|a| - 1]
    ensures |h'| == |h| && Inside(h, a) && Inside(h, b) && Inside(h, Longer(a, b)) &&
            Mods(h', a, |a|) == Mods(h, b, |a|)
    ensures forall y :: 0 <= y < |h| && y != a[|a| - 1] ==> h'[y].modifier == h[y].modifier
  {
    ModsSame(h, h', a, a, |a| - 1);
  }

  lemma {:induction false} ContinuedBare(t: Tree, h: seq<Hier>, h': seq<Hier>, a: seq<nat>, b: seq<nat>, v: nat, w: nat)
    requires t.Valid() && |h| == t.Size() && 0 < |a| < |b| && Continued(t, h, h', a, b) && Below(t, v, w)
    ensures |h'| == |h| && h'[v].prelim == h[v].prelim && Bare(t, h', v, w) == Bare(t, h, v, w)
  {
    hide Bare, Mods;
    ThreadMovesNothing(t, h, h', a[|a| - 1], Some(b[|a|]), Mods(h, b, |a|) - Mods(h, a, |a|), v, w);
  }

  /** Contours that the threaded leaf is not on keep their sums. */
  lemma {:induction false} ElsewhereSums(t: Tree, h: seq<Hier>, h': seq<Hier>, c: seq<nat>, x: nat, next: Option<nat>,
                                         gap: real, w: nat)
    requires t.Valid() && |h| == t.Size() && x < |h| && t.children[x] == [] && h' == Threaded(h, x, next, gap)
    requires Sums(t, h, c, w) && x !in c
    ensures Sums(t, h', c, w)
  {
    hide Bare, Mods;
    forall i | 0 <= i < |c|
      ensures h'[c[i]].prelim + Mods(h', c, i) == Bare(t, h', c[i], w)
    {
      SumsAt(t, h, c, w, i);
      ModsSame(h, h', c, c, i);
      ThreadMovesNothing(t, h, h', x, next, gap, c[i], w);
    }
  }

  /** The contours of the joined forest have their sums. */
  lemma {:induction false} JoinedSums(t: Tree, h: seq<Hier>, h': seq<Hier>, e: nat, left: seq<nat>, right: seq<nat>,
                                      own: seq<nat>, ownRight: seq<nat>, last: nat)
    requires t.Valid() && Facing(t, e, left, right, own, ownRight, last) && |h| == t.Size() && |left| == |right| > 0 &&
             |own| == |ownRight| > 0
    requires AllSums(t, h, t.parent[e], left, right, own, ownRight) && Rethreaded(t, h, h', left, right, own, ownRight)
    ensures Sums(t, h', Longer(left, own), t.parent[e]) && Sums(t, h', Longer(ownRight, right), t.parent[e])
  {
    hide Sums, Mods, Bare, Facing, Below, Inside;
    FacingSides(t, e, left, right, own, ownRight, last);
    Distinct(t, e, left, right, own, ownRight, last);
    if |own| < |left| {
      OneSideSums(t, h, h', ownRight, right, left, t.parent[e]);
    } else if |left| < |own| {
      OneSideSums(t, h, h', left, own, ownRight, t.parent[e]);
    }
  }

  /** Contour a goes on in b, and the contour on the other side stays as it is. */
  lemma {:induction false} OneSideSums(t: Tree, h: seq<Hier>, h': seq<Hier>, a: seq<nat>, b: seq<nat>, other: seq<nat>,
                                       w: nat)
    requires t.Valid() && |h| == t.Size() && 0 < |a| < |b| && Continued(t, h, h', a, b)
    requires Sums(t, h, a, w) && Sums(t, h, b, w) && Sums(t, h, other, w)
    requires forall i :: 0 <= i < |a| - 1 ==> a[i] != a[|a| - 1]
    requires forall i :: |a| <= i < |b| ==> b[i] != a[|a| - 1]
    requires a[|a| - 1] !in other
    ensures Sums(t, h', Longer(a, b), w) && Sums(t, h', other, w)
  {
    hide Sums, Mods, Bare, Below;
    ContinuedSums(t, h, h', a, b, w);
    ElsewhereSums(t, h, h', other, a[|a| - 1], Some(b[|a|]), Mods(h, b, |a|) - Mods(h, a, |a|), w);
  }

  /** A contour has one node on every level. */
  lemma {:induction false} Distinct(t: Tree, e: nat, left: seq<nat>, right: seq<nat>, own: seq<nat>, ownRight: seq<nat>,
                                    last: nat)
    requires t.Valid() && Facing(t, e, left, right, own, ownRight, last)
    ensures forall i, j :: 0 <= i < j < |left| ==> left[i] != left[j]
    ensures forall i, j :: 0 <= i < j < |ownRight| ==> ownRight[i] != ownRight[j]
  {
    hide Depth, Ends;
    forall i, j | 0 <= i < j < |left|
      ensures left[i] != left[j]
    {
      FacingAt(t, e, left, right, own, ownRight, last, i);
      FacingAt(t, e, left, right, own, ownRight, last, j);
    }
    forall i, j | 0 <= i < j < |ownRight|
      ensures ownRight[i] != ownRight[j]
    {
      FacingAt(t, e, left, right, own, ownRight, last, i);
      FacingAt(t, e, left, right, own, ownRight, last, j);
    }
  }

  /** What threading leaves alone. */
  lemma {:induction false} RethreadedFrame(t: Tree, h: seq<Hier>, h': seq<Hier>, left: seq<nat>, right: seq<nat>,
                                           own: seq<nat>, ownRight: seq<nat>)
    requires t.Valid() && |h| == t.Size() && |left| == |right| > 0 && |own| == |ownRight| > 0
    requires Rethreaded(t, h, h', left, right, own, ownRight)
    ensures |h'| == |h|
    ensures forall x :: 0 <= x < |h| ==>
              && h'[x].prelim == h[x].prelim && h'[x].ancestor == h[x].ancestor && h'[x].i == h[x].i
              && h'[x].change == h[x].change && h'[x].shift == h[x].shift &&
                 (t.children[x] != [] ==> h'[x].modifier == h[x].modifier)
  {
  }

  lemma {:induction false} SameRel(t: Tree, h: seq<Hier>, h': seq<Hier>, v: nat, w: nat)
    requires t.Valid() && |h'| == |h| == t.Size() && Below(t, v, w)
    requires forall x :: 0 <= x < |h| ==>
               && h'[x].prelim == h[x].prelim && h'[x].change == h[x].change && h'[x].shift == h[x].shift
               && (t.children[x] != [] ==> h'[x].modifier == h[x].modifier)
    ensures Rel(t, h', v, w) == Rel(t, h, v, w)
  {
    AboveSame(t, h, h', v, w);
    ParentIndex(t, w, Branch(t, v, w));
    SamePending(t, h, h', w, t.index[Branch(t, v, w)]);
  }

  /** On every level e's subtree and the forest left of it keep their separation. */
  ghost predicate ForestApart(t: Tree, h: seq<Hier>, separation: (nat, nat) -> real, e: nat)
    requires t.Valid() && |h| == t.Size() && t.Node(e) && t.Node(t.parent[e])
  {
    forall u: nat, v: nat :: Neighbours(t, u, v) && t.first[t.parent[e]] <= u < t.first[e] <= v <= e ==>
      LevelKept(t, h, separation, t.parent[e], u, v)
  }

  ghost predicate LevelKept(t: Tree, h: seq<Hier>, separation: (nat, nat) -> real, w: nat, u: nat, v: nat)
    requires t.Valid() && |h| == t.Size()
  {
    Below(t, u, w) && Below(t, v, w) && Rel(t, h, v, w) - Rel(t, h, u, w) >= Gap(t, separation, u, v)
  }

  /** When all common levels have been compared, the two are apart on every level. */
  /** e's subtree meets the forest left of it on some level. */
  ghost predicate ForestMet(t: Tree, h: seq<Hier>, separation: (nat, nat) -> real, e: nat)
    requires t.Valid() && |h| == t.Size() && t.Node(e) && t.Node(t.parent[e])
  {
    exists u: nat, v: nat :: Neighbours(t, u, v) && t.first[t.parent[e]] <= u < t.first[e] <= v <= e &&
      LevelMet(t, h, separation, t.parent[e], u, v)
  }

  ghost predicate LevelMet(t: Tree, h: seq<Hier>, separation: (nat, nat) -> real, w: nat, u: nat, v: nat)
    requires t.Valid() && |h| == t.Size()
  {
    Below(t, u, w) && Below(t, v, w) && Rel(t, h, v, w) - Rel(t, h, u, w) == Gap(t, separation, u, v)
  }

  /** The ends compared on a level are neighbours. */
  lemma {:induction false} FacingNeighbours(t: Tree, e: nat, left: seq<nat>, right: seq<nat>, own: seq<nat>,
                                            ownRight: seq<nat>, last: nat, j: nat)
    requires t.Valid() && Facing(t, e, left, right, own, ownRight, last) && j < |right| && j < |own|
    ensures Neighbours(t, right[j], own[j]) && t.first[t.parent[e]] <= right[j] < t.first[e] <= own[j] <= e
  {
    hide Depth, Ends, Parted;
    FacingAt(t, e, left, right, own, ownRight, last, j);
    var w := t.parent[e];
    forall x | right[j] < x < own[j]
      ensures Depth(t, x) != Depth(t, right[j])
    {
      if Depth(t, x) == Depth(t, right[j]) {
        if x <= last {
          LevelWithin(t, left, right, t.first[w], last, Depth(t, w) + 1, x);
        } else {
          LevelWithin(t, own, ownRight, t.first[e], e, Depth(t, w) + 1, x);
        }
      }
    }
  }

  lemma {:induction false} LevelWithin(t: Tree, left: seq<nat>, right: seq<nat>, lo: nat, last: nat, base: nat, x: nat)
    requires t.Valid() && Ends(t, left, right, lo, last, base) && lo <= x <= last
    ensures var i: int := Depth(t, x) - base; 0 <= i < |left| == |right| && left[i] <= x <= right[i]
  {
    hide Depth;
    assert WithinEnds(t, left, right, x, base);
  }

  lemma {:induction false} SomeLevelMet(t: Tree, h: seq<Hier>, h': seq<Hier>, separation: (nat, nat) -> real, e: nat,
                                        default: nat,
                       left: seq<nat>, right: seq<nat>, own: seq<nat>, ownRight: seq<nat>, last: nat, d: nat)
    requires t.Valid() && Comparing(t, h, separation, e, default, left, right, own, ownRight, last, d)
    requires |left| == |right| && |own| == |ownRight|
    requires Rethreaded(t, h, h', left, right, own, ownRight)
    ensures |h'| == t.Size() && ForestMet(t, h', separation, e)
  {
    hide Facing, AllSums, Charged, Veiled, Marked, ApartTo, Rel, Gap, Rethreaded, Neighbours, Depth;
    FacingEnds(t, e, left, right, own, ownRight, last);
    var w := t.parent[e];
    RethreadedFrame(t, h, h', left, right, own, ownRight);
    var j: nat :| j <= d && Met(t, h, separation, right, own, w, j);
    FacingAt(t, e, left, right, own, ownRight, last, j);
    FacingNeighbours(t, e, left, right, own, ownRight, last, j);
    SameRel(t, h, h', right[j], w);
    SameRel(t, h, h', own[j], w);
    assert LevelMet(t, h', separation, w, right[j], own[j]);
  }

  lemma {:induction false} AllLevelsApart(t: Tree, h: seq<Hier>, h': seq<Hier>, separation: (nat, nat) -> real, e: nat,
                                          default: nat,
                       left: seq<nat>, right: seq<nat>, own: seq<nat>, ownRight: seq<nat>, last: nat, d: nat)
    requires t.Valid() && Comparing(t, h, separation, e, default, left, right, own, ownRight, last, d)
    requires |left| == |right| && |own| == |ownRight| && (d + 1 == |left| || d + 1 == |own|)
    requires Rethreaded(t, h, h', left, right, own, ownRight)
    ensures |h'| == t.Size() && ForestApart(t, h', separation, e)
  {
    hide Facing, AllSums, Charged, Veiled, Marked, ApartTo, Rel, Gap, Rethreaded, Neighbours;
    FacingEnds(t, e, left, right, own, ownRight, last);
    var w := t.parent[e];
    RethreadedFrame(t, h, h', left, right, own, ownRight);
    forall u: nat, v: nat | Neighbours(t, u, v) && t.first[w] <= u < t.first[e] <= v <= e
      ensures LevelKept(t, h', separation, w, u, v)
    {
      LevelCompared(t, h, separation, e, default, left, right, own, ownRight, last, d, u, v);
      SameRel(t, h, h', u, w);
      SameRel(t, h, h', v, w);
    }
  }

  lemma {:induction false} LevelCompared(t: Tree, h: seq<Hier>, separation: (nat, nat) -> real, e: nat, default: nat,
                      left: seq<nat>, right: seq<nat>, own: seq<nat>, ownRight: seq<nat>, last: nat, d: nat, u: nat,
                      v: nat)
    requires t.Valid() && Comparing(t, h, separation, e, default, left, right, own, ownRight, last, d)
    requires |left| == |right| && |own| == |ownRight| && (d + 1 == |left| || d + 1 == |own|)
    requires Neighbours(t, u, v) && t.first[t.parent[e]] <= u < t.first[e] <= v <= e
    ensures |h| == t.Size() && LevelKept(t, h, separation, t.parent[e], u, v)
  {
    hide Depth, Ends, Rel, Gap, AllSums, Charged, Veiled, Marked, Neighbours;
    AcrossBorder(t, left, right, t.first[t.parent[e]], last, own, ownRight, e, Depth(t, t.parent[e]) + 1, u, v);
    var j: nat := Depth(t, u) - Depth(t, t.parent[e]) - 1;
    assert Parted(t, t.parent[e], right[j], own[j]);
  }

  /** Who is charged for the nodes of the joined right contour. */
  lemma {:induction false} ChargedJoined(t: Tree, h: seq<Hier>, h': seq<Hier>, e: nat, default: nat, default': nat,
                      left: seq<nat>, right: seq<nat>, own: seq<nat>, ownRight: seq<nat>, last: nat, d: nat)
    requires t.Valid() && Facing(t, e, left, right, own, ownRight, last) && |h| == |h'| == t.Size()
    requires |left| == |right| && |own| == |ownRight| && (d + 1 == |left| <= |own| || d + 1 == |own| <= |left|)
    requires Charged(t, h, right, t.parent[e], default) && Marked(h, ownRight, e, d)
    requires forall s :: t.first[e] <= s <= e ==> Blamable(t, h, s)
    requires |left| > 0 && |own| > 0 && Rethreaded(t, h, h', left, right, own, ownRight)
    requires default' == if |left| < |own| then e else default
    ensures Charged(t, h', Longer(ownRight, right), t.parent[e], default')
  {
    RethreadedFrame(t, h, h', left, right, own, ownRight);
    hide Depth, Ends, Rethreaded, Facing, Charged, Marked;
    ChargedForest(t, h, h', e, default, default', left, right, own, ownRight, last);
    ChargedOwn(t, h, h', e, default', left, right, own, ownRight, last, d);
    ChargedBoth(t, h', t.parent[e], default', ownRight, right);
  }

  ghost predicate ChargedAt(t: Tree, h: seq<Hier>, x: nat, w: nat, default: nat)
    requires t.Valid() && |h| == t.Size() && t.Node(w)
  {
    t.Node(x) && t.Node(h[x].ancestor) && var c := Charge(t, h, x, w, default); c in t.children[w] && t.Under(x, c)
  }

  lemma {:induction false} ChargedBoth(t: Tree, h: seq<Hier>, w: nat, default: nat, ownRight: seq<nat>, right: seq<nat>)
    requires t.Valid() && |h| == t.Size() && t.Node(w)
    requires forall j :: 0 < j < |ownRight| ==> ChargedAt(t, h, ownRight[j], w, default)
    requires forall j :: |ownRight| <= j < |right| && j > 0 ==> ChargedAt(t, h, right[j], w, default)
    ensures Charged(t, h, Longer(ownRight, right), w, default)
  {
    hide Charge;
  }

  lemma {:induction false} ChargedForest(t: Tree, h: seq<Hier>, h': seq<Hier>, e: nat, default: nat, default': nat,
                      left: seq<nat>, right: seq<nat>, own: seq<nat>, ownRight: seq<nat>, last: nat)
    requires t.Valid() && Facing(t, e, left, right, own, ownRight, last) && |h| == |h'| == t.Size() &&
             |own| == |ownRight| && |left| == |right|
    requires Charged(t, h, right, t.parent[e], default) && default' == if |left| < |own| then e else default
    requires forall x :: 0 <= x < |h| ==> h'[x].ancestor == h[x].ancestor
    ensures forall j :: |ownRight| <= j < |right| && j > 0 ==> ChargedAt(t, h', right[j], t.parent[e], default')
  {
    hide Depth, Ends;
  }

  lemma {:induction false} ChargedOwn(t: Tree, h: seq<Hier>, h': seq<Hier>, e: nat, default': nat,
                   left: seq<nat>, right: seq<nat>, own: seq<nat>, ownRight: seq<nat>, last: nat, d: nat)
    requires t.Valid() && Facing(t, e, left, right, own, ownRight, last) && |h| == |h'| == t.Size() &&
             |own| == |ownRight| && |left| == |right|
    requires Marked(h, ownRight, e, d) && (d + 1 >= |own| || default' == e)
    requires forall s :: t.first[e] <= s <= e ==> Blamable(t, h, s)
    requires forall x :: 0 <= x < |h| ==> h'[x].ancestor == h[x].ancestor
    ensures forall j :: 0 < j < |ownRight| ==> ChargedAt(t, h', ownRight[j], t.parent[e], default')
  {
    hide Depth, Ends;
    forall j | 0 < j < |ownRight|
      ensures ChargedAt(t, h', ownRight[j], t.parent[e], default')
    {
      FacingAt(t, e, left, right, own, ownRight, last, j);
      assert Blamable(t, h, ownRight[j]);
      ParentOfChild(t, t.parent[e], e);
    }
  }

  /** The forest with e's subtree in it is settled. */
  lemma {:induction false} SettledNext(t: Tree, h: seq<Hier>, h': seq<Hier>, separation: (nat, nat) -> real, e: nat,
                                       default: nat, default': nat,
                    left: seq<nat>, right: seq<nat>, own: seq<nat>, ownRight: seq<nat>, last: nat, d: nat)
    requires t.Valid() && Comparing(t, h, separation, e, default, left, right, own, ownRight, last, d)
    requires |left| == |right| && |own| == |ownRight| && (d + 1 == |left| <= |own| || d + 1 == |own| <= |left|)
    requires Rethreaded(t, h, h', left, right, own, ownRight)
    requires forall s :: t.first[e] <= s <= e ==> Blamable(t, h, s)
    requires default' == if |left| < |own| then e else default
    ensures Settled(t, h', t.parent[e], e, Longer(left, own), Longer(ownRight, right), default')
  {
    hide Depth, Facing, AllSums, Sums, Charged, Veiled, Marked, Rethreaded, Blamable, ApartTo, Settled, Longer;
    FacingEnds(t, e, left, right, own, ownRight, last);
    JoinedSums(t, h, h', e, left, right, own, ownRight, last);
    JoinedVeil(t, h, h', e, left, right, own, ownRight, last, Level(t, t.parent[e], d));
    ChargedJoined(t, h, h', e, default, default', left, right, own, ownRight, last, d);
    SettledFrom(t, h', t.parent[e], e, Longer(left, own), Longer(ownRight, right), default');
  }

  lemma {:induction false} JoinedVeil(t: Tree, h: seq<Hier>, h': seq<Hier>, e: nat, left: seq<nat>, right: seq<nat>,
                                      own: seq<nat>, ownRight: seq<nat>,
                   last: nat, depth: nat)
    requires t.Valid() && |h| == t.Size() && t.Node(e) && t.Node(t.parent[e]) && |left| == |right| > 0 &&
             |own| == |ownRight| > 0 && last <= e
    requires Rethreaded(t, h, h', left, right, own, ownRight) && Veiled(t, h, t.parent[e], last, e, depth)
    ensures |h'| == t.Size() && Veiled(t, h', t.parent[e], e, e, 0)
  {
    hide Veiled, Rethreaded;
    RethreadedFrame(t, h, h', left, right, own, ownRight);
    VeiledSame(t, h, h', t.parent[e], last, e, depth);
    VeiledMore(t, h', t.parent[e], last, e, depth, e, e, 0);
  }

  lemma {:induction false} FacingEnds(t: Tree, e: nat, left: seq<nat>, right: seq<nat>, own: seq<nat>,
                                      ownRight: seq<nat>, last: nat)
    requires t.Valid() && Facing(t, e, left, right, own, ownRight, last)
    ensures t.Node(e) && t.Node(t.parent[e]) && e in t.children[t.parent[e]] && last <= e
    ensures Ends(t, Longer(left, own), Longer(ownRight, right), t.first[t.parent[e]], e, Depth(t, t.parent[e]) + 1)
  {
    hide Depth, Ends, Parted;
    FacingAt(t, e, left, right, own, ownRight, last, 0);
    EndsJoin(t, left, right, t.first[t.parent[e]], last, own, ownRight, e, Depth(t, t.parent[e]) + 1);
  }

  lemma {:induction false} SettledFrom(t: Tree, h: seq<Hier>, w: nat, last: nat, left: seq<nat>, right: seq<nat>,
                                       default: nat)
    requires t.Valid() && |h| == t.Size() && t.Node(w) && last in t.children[w]
    requires Ends(t, left, right, t.first[w], last, Depth(t, w) + 1) && Sums(t, h, left, w) && Sums(t, h, right, w)
    requires Charged(t, h, right, w, default) && Veiled(t, h, w, last, last, 0)
    ensures Settled(t, h, w, last, left, right, default)
  {
  }

  lemma {:induction false} VeiledSame(t: Tree, h: seq<Hier>, h': seq<Hier>, w: nat, last: nat, e: nat, depth: nat)
    requires t.Valid() && t.Node(w) && |h| == |h'| == t.Size() && Veiled(t, h, w, last, e, depth)
    requires SameNotes(t, h, h', w)
    ensures Veiled(t, h', w, last, e, depth)
  {
    hide Hidden, SameNotes;
    forall i | 0 <= i < |t.children[w]| && Pending(SiblingsOf(t, h', w), i) != 0.0
      ensures Hidden(t, w, i, last, e, depth)
    {
      SamePending(t, h, h', w, i);
    }
  }

  /** A first child is a settled forest by itself. */
  lemma {:induction false} SettledFirst(t: Tree, h: seq<Hier>, h1: seq<Hier>, e: nat, own: seq<nat>, ownRight: seq<nat>)
    requires t.Valid() && Walked(t, h, e) && e + 1 < t.Size() && t.index[e] == 0 && Positioned(t, h, h1, e) &&
             |h1| == t.Size()
    requires t.Node(t.parent[e]) && e in t.children[t.parent[e]]
    requires Ends(t, own, ownRight, t.first[e], e, Depth(t, t.parent[e]) + 1) && Sums(t, h1, own, t.parent[e]) &&
             Sums(t, h1, ownRight, t.parent[e])
    ensures Settled(t, h1, t.parent[e], e, own, ownRight, e)
    ensures t.first[t.parent[e]] == t.first[e]
  {
    assert |own| == |ownRight|;
    hide Depth, Ends, Sums, Walked, Positioned, Veiled, Charged, Settled;
    FirstOfAll(t, e);
    FirstVeiled(t, h, h1, e);
    FirstCharged(t, h, h1, e, own, ownRight);
    SettledFrom(t, h1, t.parent[e], e, own, ownRight, e);
  }

  lemma {:induction false} FirstOfAll(t: Tree, e: nat)
    requires t.Valid() && t.Node(e) && t.Node(t.parent[e]) && e in t.children[t.parent[e]] && t.index[e] == 0
    ensures t.first[t.parent[e]] == t.first[e] && e < t.parent[e]
  {
    ParentIndex(t, t.parent[e], e);
    ChildFirst(t, t.parent[e], e);
    assert t.Tiled(t.parent[e]);
  }

  lemma {:induction false} FirstVeiled(t: Tree, h: seq<Hier>, h1: seq<Hier>, e: nat)
    requires t.Valid() && t.Node(e) && Walked(t, h, e) && Positioned(t, h, h1, e) && |h1| == t.Size() && t.index[e] == 0
    requires t.Node(t.parent[e]) && e in t.children[t.parent[e]]
    ensures Veiled(t, h1, t.parent[e], e, e, 0)
  {
    hide Walked, Positioned, Hidden;
    forall i | 0 <= i < |t.children[t.parent[e]]|
      ensures Pending(SiblingsOf(t, h1, t.parent[e]), i) == 0.0
    {
      NothingNoted(t, h, h1, e, i);
    }
  }

  lemma {:induction false} FirstCharged(t: Tree, h: seq<Hier>, h1: seq<Hier>, e: nat, own: seq<nat>, ownRight: seq<nat>)
    requires t.Valid() && Walked(t, h, e) && e + 1 < t.Size() && Positioned(t, h, h1, e) && |h1| == t.Size()
    requires t.Node(t.parent[e]) && e in t.children[t.parent[e]]
    requires |own| == |ownRight| && Ends(t, own, ownRight, t.first[e], e, Depth(t, t.parent[e]) + 1)
    ensures Charged(t, h1, ownRight, t.parent[e], e)
  {
    hide Depth, Ends, Walked, Positioned;
    forall j | 0 < j < |ownRight|
      ensures t.first[e] <= ownRight[j] <= e && Blamable(t, h1, ownRight[j])
    {
      EndsAt(t, own, ownRight, t.first[e], e, Depth(t, t.parent[e]) + 1, j);
      AncestorsSame(t, h, h1, e, ownRight[j]);
      WalkedBlamable(t, h, h1, e, ownRight[j]);
    }
  }

  lemma {:induction false} AncestorsSame(t: Tree, h: seq<Hier>, h1: seq<Hier>, e: nat, x: nat)
    requires t.Valid() && t.Node(e) && Positioned(t, h, h1, e) && x < t.Size()
    ensures |h| == |h1| == t.Size() && h1[x].ancestor == h[x].ancestor
  {
  }

  lemma {:induction false} NothingNoted(t: Tree, h: seq<Hier>, h1: seq<Hier>, e: nat, i: nat)
    requires t.Valid() && Walked(t, h, e) && Positioned(t, h, h1, e) && |h1| == t.Size() && t.index[e] == 0
    requires t.Node(t.parent[e]) && e in t.children[t.parent[e]] && i < |t.children[t.parent[e]]|
    ensures Pending(SiblingsOf(t, h1, t.parent[e]), i) == 0.0
  {
    var w := t.parent[e];
    ParentOfChild(t, w, e);
    ParentIndex(t, w, e);
    PositionedNotes(t, h, h1, e, w);
    forall j | i < j < |t.children[w]|
      ensures h1[t.children[w][j]].change == 0.0 && h1[t.children[w][j]].shift == 0.0
    {
      t.ChildrenOrdered(w, 0, j);
      assert Untouched(h[t.children[w][j]], t.children[w][j]);
    }
    PendingZero(SiblingsOf(t, h1, w), i);
  }

  // ---------------------------------------------------------------------------------
  // All levels of all finished subtrees

  /** Where v stands relative to w: its pending shifts are carried out when w is walked. */
  ghost function Placing(t: Tree, h: seq<Hier>, v: nat, w: nat, k: nat): real
    requires t.Valid() && |h| == t.Size() && Below(t, v, w)
  {
    if w < k then Bare(t, h, v, w) else Rel(t, h, v, w)
  }

  /** When the nodes below k have been walked, neighbours on a level keep their separation, if they
      are under different walked children of a node. */
  ghost predicate LevelApart(t: Tree, h: seq<Hier>, separation: (nat, nat) -> real, k: nat)
    requires t.Valid() && |h| == t.Size()
  {
    forall w: nat, u: nat, v: nat {:trigger Parted(t, w, u, v)} ::
      Parted(t, w, u, v) && Neighbours(t, u, v) && Branch(t, v, w) < k ==> KeptApart(t, h, separation, k, w, u, v)
  }

  ghost predicate KeptApart(t: Tree, h: seq<Hier>, separation: (nat, nat) -> real, k: nat, w: nat, u: nat, v: nat)
    requires t.Valid() && |h| == t.Size()
  {
    Below(t, u, w) && Below(t, v, w) && Placing(t, h, v, w, k) - Placing(t, h, u, w, k) >= Gap(t, separation, u, v)
  }

  /** Below nodes that were walked before, nothing moves any more. */
  lemma {:induction false} WalkedStays(t: Tree, h: seq<Hier>, h1: seq<Hier>, h2: seq<Hier>, h3: seq<Hier>, e: nat,
                                       ancestor: nat, v: nat, w: nat)
    requires t.Valid() && WalkStep(t, h, h1, h2, h3, e, ancestor) && Below(t, v, w) && w < e
    ensures |h3| == |h| && Bare(t, h3, v, w) == Bare(t, h, v, w)
  {
    forall x | v <= x < w
      ensures h3[x].prelim == h[x].prelim && (t.children[x] != [] ==> h3[x].modifier == h[x].modifier)
    {
      InnerStays(t, h, h1, h2, h3, e, ancestor, x, w);
    }
    AboveSame(t, h, h3, v, w);
  }

  lemma {:induction false} InnerStays(t: Tree, h: seq<Hier>, h1: seq<Hier>, h2: seq<Hier>, h3: seq<Hier>, e: nat,
                                      ancestor: nat, x: nat, w: nat)
    requires t.Valid() && WalkStep(t, h, h1, h2, h3, e, ancestor) && Below(t, x, w) && w < e
    ensures |h3| == |h| && h3[x].prelim == h[x].prelim && (t.children[x] != [] ==> h3[x].modifier == h[x].modifier)
  {
    t.ParentUnder(x, w);
    if x in t.children[e] {
      ParentOfChild(t, e, x);
    }
  }

  /** The nodes below e are where they were meant to be. */
  lemma {:induction false} SelfStays(t: Tree, h: seq<Hier>, h1: seq<Hier>, h2: seq<Hier>, h3: seq<Hier>,
                                     separation: (nat, nat) -> real, e: nat, ancestor: nat, v: nat)
    requires t.Valid() && WalkStep(t, h, h1, h2, h3, e, ancestor) && Beside(t, h, h1, separation, e) && Below(t, v, e)
    ensures |h3| == |h| && Bare(t, h3, v, e) == Rel(t, h, v, e)
  {
    hide Rel;
    BareExecuted(t, h, h1, e, v);
    AboveSame(t, h1, h3, v, e);
  }

  /** Under other nodes that wait, nothing changes. */
  lemma {:induction false} ElsewhereStays(t: Tree, h: seq<Hier>, h1: seq<Hier>, h2: seq<Hier>, h3: seq<Hier>, e: nat,
                                          ancestor: nat, v: nat, w: nat)
    requires t.Valid() && WalkStep(t, h, h1, h2, h3, e, ancestor) && SpreadFrame(t, h1, h2, e) &&
             t.first[t.Size() - 1] == 0
    requires Below(t, v, w) && e < w && w != t.parent[e] && Branch(t, v, w) <= e
    ensures |h3| == |h| && Rel(t, h3, v, w) == Rel(t, h, v, w)
  {
    hide Rel, Centred;
    var b := Branch(t, v, w);
    ElsewhereNotes(t, h, h1, h2, h3, e, ancestor, w);
    LeftOfStep(t, h, h1, h2, h3, e, ancestor);
    ElsewhereLeft(t, e, w, b);
    RelFrame(t, h, h3, v, w);
  }

  lemma {:induction false} ElsewhereLeft(t: Tree, e: nat, w: nat, b: nat)
    requires t.Valid() && t.Node(e) && e < w < t.Size() && w != t.parent[e] && b in t.children[w] && b <= e
    ensures t.Node(t.parent[e]) && b < t.first[t.parent[e]]
  {
    ChildFirst(t, w, b);
    var a := Branch(t, e, w);
    t.SiblingsOrdered(b, a, w);
    t.ParentUnder(e, a);
  }

  lemma {:induction false} ElsewhereNotes(t: Tree, h: seq<Hier>, h1: seq<Hier>, h2: seq<Hier>, h3: seq<Hier>, e: nat,
                                          ancestor: nat, w: nat)
    requires t.Valid() && WalkStep(t, h, h1, h2, h3, e, ancestor) && SpreadFrame(t, h1, h2, e)
    requires e < w < t.Size() && w != t.parent[e]
    ensures |h3| == |h| && SameNotes(t, h, h3, w)
  {
    hide Centred;
    PositionedNotes(t, h, h1, e, w);
    forall c | c in t.children[w]
      ensures c < |h| && h3[c].change == h[c].change && h3[c].shift == h[c].shift
    {
      ParentOfChild(t, w, c);
      if c in t.children[t.parent[e]] {
        ParentOfChild(t, t.parent[e], c);
      }
    }
  }

  /** Under e's left siblings, before e is placed. */
  lemma {:induction false} SiblingStays(t: Tree, h: seq<Hier>, h1: seq<Hier>, e: nat, v: nat)
    requires t.Valid() && t.Node(e) && Positioned(t, h, h1, e) && t.Node(t.parent[e]) && e in t.children[t.parent[e]]
    requires Below(t, v, t.parent[e]) && Branch(t, v, t.parent[e]) < e
    ensures |h1| == |h| == t.Size() && Rel(t, h1, v, t.parent[e]) == Rel(t, h, v, t.parent[e])
  {
    hide Rel, Centred;
    var w := t.parent[e];
    var b := Branch(t, v, w);
    ParentOfChild(t, w, e);
    PositionedNotes(t, h, h1, e, w);
    t.SiblingsOrdered(b, e, w);
    forall x | v <= x <= b
      ensures h1[x] == h[x]
    {
      if x in t.children[e] {
        ChildFirst(t, e, x);
      }
    }
    RelFrame(t, h, h1, v, w);
  }

  lemma {:induction false} DefaultMovesNothing(t: Tree, h2: seq<Hier>, h3: seq<Hier>, w: nat, ancestor: nat, v: nat)
    requires t.Valid() && |h2| == t.Size() && Below(t, v, w) && h3 == h2[w := h2[w].(defaultAncestor := Some(ancestor))]
    ensures |h3| == |h2| && Rel(t, h3, v, w) == Rel(t, h2, v, w)
  {
    hide Rel;
    SameRel(t, h2, h3, v, w);
  }

  /** Walking e keeps everything apart. */
  lemma {:induction false} LevelApartNext(t: Tree, h: seq<Hier>, h1: seq<Hier>, h2: seq<Hier>, h3: seq<Hier>,
                                          separation: (nat, nat) -> real, e: nat, ancestor: nat)
    requires t.Valid() && WalkStep(t, h, h1, h2, h3, e, ancestor) && SpreadFrame(t, h1, h2, e) &&
             t.first[t.Size() - 1] == 0
    requires Beside(t, h, h1, separation, e) && LevelApart(t, h, separation, e) && ForestApart(t, h2, separation, e)
    ensures |h3| == t.Size() && LevelApart(t, h3, separation, e + 1)
  {
    hide WalkStep, SpreadFrame, Beside, Neighbours, KeptApart, ForestApart;
    StepFacts(t, h, h1, h2, h3, e, ancestor);
    forall w: nat, u: nat, v: nat | Parted(t, w, u, v) && Neighbours(t, u, v) && Branch(t, v, w) < e + 1
      ensures KeptApart(t, h3, separation, e + 1, w, u, v)
    {
      if w == t.parent[e] {
        ParentKept(t, h, h1, h2, h3, separation, e, ancestor, u, v);
      } else {
        BeforeKept(t, h, h1, h2, h3, separation, e, ancestor, w, u, v);
      }
    }
  }

  lemma {:induction false} BeforeKept(t: Tree, h: seq<Hier>, h1: seq<Hier>, h2: seq<Hier>, h3: seq<Hier>,
                                      separation: (nat, nat) -> real, e: nat, ancestor: nat,
                   w: nat, u: nat, v: nat)
    requires t.Valid() && WalkStep(t, h, h1, h2, h3, e, ancestor) && SpreadFrame(t, h1, h2, e) &&
             t.first[t.Size() - 1] == 0
    requires Beside(t, h, h1, separation, e) && LevelApart(t, h, separation, e)
    requires Parted(t, w, u, v) && Neighbours(t, u, v) && Branch(t, v, w) <= e && w != t.parent[e]
    ensures |h3| == t.Size() && KeptApart(t, h3, separation, e + 1, w, u, v)
  {
    assert Branch(t, v, w) < e;
    assert KeptApart(t, h, separation, e, w, u, v);
    hide WalkStep, SpreadFrame, Beside, Neighbours, Bare, Rel, LevelApart, Gap;
    if w < e {
      WalkedStays(t, h, h1, h2, h3, e, ancestor, u, w);
      WalkedStays(t, h, h1, h2, h3, e, ancestor, v, w);
    } else if w == e {
      SelfStays(t, h, h1, h2, h3, separation, e, ancestor, u);
      SelfStays(t, h, h1, h2, h3, separation, e, ancestor, v);
    } else {
      ElsewhereStays(t, h, h1, h2, h3, e, ancestor, u, w);
      ElsewhereStays(t, h, h1, h2, h3, e, ancestor, v, w);
    }
  }

  lemma {:induction false} ParentKept(t: Tree, h: seq<Hier>, h1: seq<Hier>, h2: seq<Hier>, h3: seq<Hier>,
                                      separation: (nat, nat) -> real, e: nat, ancestor: nat,
                   u: nat, v: nat)
    requires t.Valid() && WalkStep(t, h, h1, h2, h3, e, ancestor) && SpreadFrame(t, h1, h2, e)
    requires LevelApart(t, h, separation, e) && |h2| == t.Size() && ForestApart(t, h2, separation, e)
    requires Parted(t, t.parent[e], u, v) && Neighbours(t, u, v) && Branch(t, v, t.parent[e]) <= e
    ensures |h3| == t.Size() && KeptApart(t, h3, separation, e + 1, t.parent[e], u, v)
  {
    var w := t.parent[e];
    ParentOfChild(t, w, e);
    DefaultMovesNothing(t, h2, h3, w, ancestor, u);
    DefaultMovesNothing(t, h2, h3, w, ancestor, v);
    if Branch(t, v, w) < e {
      assert KeptApart(t, h, separation, e, w, u, v);
      hide Rel, Gap, SpreadFrame, Positioned, PlacedFrame, LevelApart, ForestApart;
      SiblingStays(t, h, h1, e, u);
      SiblingStays(t, h, h1, e, v);
      RelSpread(t, h1, h2, e, u, v);
    } else {
      t.SiblingsOrdered(Branch(t, u, w), e, w);
      assert LevelKept(t, h2, separation, w, u, v);
      hide Rel, Gap, SpreadFrame, Positioned, PlacedFrame, LevelApart, ForestApart;
    }
  }

  // ---------------------------------------------------------------------------------
  // No farther apart than needed

  /** The subtree of w's last child, which is w - 1, meets those of its siblings at u and v. */
  ghost predicate ChildMet(t: Tree, h: seq<Hier>, separation: (nat, nat) -> real, k: nat, w: nat, u: nat, v: nat)
    requires t.Valid() && |h| == t.Size()
  {
    && Parted(t, w, u, v) && Neighbours(t, u, v) && Branch(t, v, w) == w - 1
    && Placing(t, h, v, w, k) - Placing(t, h, u, w, k) == Gap(t, separation, u, v)
  }

  ghost predicate FamilyMet(t: Tree, h: seq<Hier>, separation: (nat, nat) -> real, k: nat, w: nat)
    requires t.Valid() && |h| == t.Size()
  {
    exists u: nat, v: nat :: ChildMet(t, h, separation, k, w, u, v)
  }

  /** When the nodes below k have been walked, the last child of each node that has all its children walked meets
      its siblings. */
  ghost predicate LevelTight(t: Tree, h: seq<Hier>, separation: (nat, nat) -> real, k: nat)
    requires t.Valid() && |h| == t.Size()
  {
    forall w: nat :: w <= k && w < t.Size() && |t.children[w]| >= 2 ==> FamilyMet(t, h, separation, k, w)
  }

  /** Walking e leaves the families of walked nodes as they are, and closes the one of e if e is a last child. */
  lemma {:induction false} LevelTightNext(t: Tree, h: seq<Hier>, h1: seq<Hier>, h2: seq<Hier>, h3: seq<Hier>,
                                          separation: (nat, nat) -> real, e: nat, ancestor: nat)
    requires t.Valid() && WalkStep(t, h, h1, h2, h3, e, ancestor) && e + 1 < t.Size()
    requires Beside(t, h, h1, separation, e) && LevelTight(t, h, separation, e)
    requires t.index[e] > 0 ==> t.Node(e) && t.Node(t.parent[e]) && |h2| == t.Size() && ForestMet(t, h2, separation, e)
    ensures |h3| == t.Size() && LevelTight(t, h3, separation, e + 1)
  {
    hide WalkStep, Beside, Neighbours, FamilyMet, ForestMet;
    StepFacts(t, h, h1, h2, h3, e, ancestor);
    forall w: nat | w <= e + 1 && w < t.Size() && |t.children[w]| >= 2
      ensures FamilyMet(t, h3, separation, e + 1, w)
    {
      if w == e + 1 {
        YoungestChild(t, w);
        NewFamily(t, h2, h3, separation, e, ancestor);
      } else {
        OldFamily(t, h, h1, h2, h3, separation, e, ancestor, w);
      }
    }
  }

  lemma FamilyPair(t: Tree, h: seq<Hier>, separation: (nat, nat) -> real, k: nat, w: nat) returns (u: nat, v: nat)
    requires t.Valid() && |h| == t.Size() && LevelTight(t, h, separation, k)
    requires w <= k && w < t.Size() && |t.children[w]| >= 2
    ensures ChildMet(t, h, separation, k, w, u, v)
  {
    hide ChildMet;
    assert FamilyMet(t, h, separation, k, w);
    u, v :| ChildMet(t, h, separation, k, w, u, v);
  }

  lemma {:induction false} NoFamilyYet(t: Tree, h: seq<Hier>, separation: (nat, nat) -> real)
    requires t.Valid() && |h| == t.Size()
    ensures LevelTight(t, h, separation, 0)
  {
    if 0 < t.Size() && |t.children[0]| >= 2 {
      YoungestChild(t, 0);
    }
  }

  lemma {:induction false} YoungestChild(t: Tree, w: nat)
    requires t.Valid() && t.Node(w) && |t.children[w]| >= 2
    ensures w > 0 && t.Node(w - 1) && t.parent[w - 1] == w && w - 1 in t.children[w] && t.index[w - 1] > 0
  {
    assert t.Tiled(w);
    var last := t.children[w][|t.children[w]| - 1];
    assert last == w - 1 && t.index[last] == |t.children[w]| - 1;
  }

  lemma {:induction false} OldFamily(t: Tree, h: seq<Hier>, h1: seq<Hier>, h2: seq<Hier>, h3: seq<Hier>,
                                     separation: (nat, nat) -> real, e: nat, ancestor: nat, w: nat)
    requires t.Valid() && WalkStep(t, h, h1, h2, h3, e, ancestor) && Beside(t, h, h1, separation, e)
    requires |h| == t.Size() && w <= e && FamilyMet(t, h, separation, e, w)
    ensures |h3| == t.Size() && FamilyMet(t, h3, separation, e + 1, w)
  {
    hide WalkStep, Beside, Neighbours, Bare, Rel, Gap;
    var u: nat, v: nat :| ChildMet(t, h, separation, e, w, u, v);
    assert Below(t, u, w) && Below(t, v, w);
    if w < e {
      WalkedStays(t, h, h1, h2, h3, e, ancestor, u, w);
      WalkedStays(t, h, h1, h2, h3, e, ancestor, v, w);
    } else {
      SelfStays(t, h, h1, h2, h3, separation, e, ancestor, u);
      SelfStays(t, h, h1, h2, h3, separation, e, ancestor, v);
    }
    assert ChildMet(t, h3, separation, e + 1, w, u, v);
  }

  lemma {:induction false} NewFamily(t: Tree, h2: seq<Hier>, h3: seq<Hier>, separation: (nat, nat) -> real, e: nat,
                                     ancestor: nat)
    requires t.Valid() && t.Node(e) && t.Node(t.parent[e]) && e in t.children[t.parent[e]] && t.parent[e] == e + 1
    requires |h2| == |h3| == t.Size() && ForestMet(t, h2, separation, e)
    requires h3 == h2[t.parent[e] := h2[t.parent[e]].(defaultAncestor := Some(ancestor))]
    ensures FamilyMet(t, h3, separation, e + 1, e + 1)
  {
    hide Neighbours, Bare, Rel, Gap;
    var w := t.parent[e];
    var u: nat, v: nat :| Neighbours(t, u, v) && t.first[w] <= u < t.first[e] <= v <= e &&
      LevelMet(t, h2, separation, w, u, v);
    DefaultMovesNothing(t, h2, h3, w, ancestor, u);
    DefaultMovesNothing(t, h2, h3, w, ancestor, v);
    PartedAt(t, w, u, v, e);
    assert ChildMet(t, h3, separation, e + 1, w, u, v);
  }

  lemma {:induction false} PartedAt(t: Tree, w: nat, u: nat, v: nat, e: nat)
    requires t.Valid() && Below(t, u, w) && Below(t, v, w) && e in t.children[w] && u < t.first[e] <= v <= e
    ensures Parted(t, w, u, v) && Branch(t, v, w) == e
  {
    var b, c := Branch(t, u, w), Branch(t, v, w);
    if c < e {
      t.SiblingsOrdered(c, e, w);
    } else if c > e {
      t.SiblingsOrdered(e, c, w);
    }
    if b > e {
      t.SiblingsOrdered(e, b, w);
    }
  }

  // ---------------------------------------------------------------------------------
  // Final positions

  /** The modifier of v with those of all nodes above it. */
  ghost function TotalModifier(t: Tree, h: seq<Hier>, v: nat): real
    requires t.Valid() && v < |h| == t.Size()
    decreases |h| - v
  {
    if v < t.parent[v] < |h| && v + 1 < |h| then h[v].modifier + TotalModifier(t, h, t.parent[v]) else h[v].modifier
  }

  /** What is above v splits at any node w above it. */
  lemma {:induction false} TotalAbove(t: Tree, h: seq<Hier>, v: nat, w: nat)
    requires t.Valid() && |h| == t.Size() && Below(t, v, w)
    ensures t.Node(t.parent[v]) && TotalModifier(t, h, t.parent[v]) == Above(t, h, v, w) + TotalModifier(t, h, w)
    decreases w - v
  {
    t.ParentUnder(v, w);
    if t.parent[v] != w {
      TotalAbove(t, h, t.parent[v], w);
      t.ParentUnder(t.parent[v], w);
    }
  }

  /** The final positions of two nodes differ as their places relative to a node above both. */
  lemma {:induction false} FinalDifference(t: Tree, h: seq<Hier>, x: seq<real>, u: nat, v: nat, w: nat)
    requires t.Valid() && |h| == |x| == t.Size() && Below(t, u, w) && Below(t, v, w)
    requires forall y :: y in [u, v] ==> t.Node(t.parent[y]) && x[y] == h[y].prelim + TotalModifier(t, h, t.parent[y])
    ensures x[v] - x[u] == Bare(t, h, v, w) - Bare(t, h, u, w)
  {
    TotalAbove(t, h, u, w);
    TotalAbove(t, h, v, w);
    assert u in [u, v] && v in [u, v];
  }

  /** Pushes one after the other. */
  lemma {:induction false} PushedTwice(t: Tree, h0: seq<Hier>, h: seq<Hier>, h': seq<Hier>, e: nat)
    requires t.Valid() && t.Node(e) && t.Node(t.parent[e])
    requires Pushed(t, h0, h, e) && Pushed(t, h, h', e)
    ensures Pushed(t, h0, h', e)
  {
  }

  lemma {:induction false} SpreadTwice(t: Tree, h0: seq<Hier>, h: seq<Hier>, h': seq<Hier>, e: nat)
    requires t.Valid() && t.Node(e) && t.Node(t.parent[e]) && |h0| == |h| == |h'| == t.Size()
    requires SpreadFrame(t, h0, h, e) && SpreadFrame(t, h, h', e)
    ensures SpreadFrame(t, h0, h', e)
  {
    hide PlaceOf;
  }

  lemma {:induction false} NotPushed(t: Tree, h: seq<Hier>, e: nat)
    requires t.Valid() && t.Node(e) && t.Node(t.parent[e]) && |h| == t.Size()
    ensures Pushed(t, h, h, e) && SpreadFrame(t, h, h, e) && SameThreads(h, h)
  {
  }

  lemma {:induction false} PushedMore(t: Tree, h0: seq<Hier>, h: seq<Hier>, h': seq<Hier>, e: nat)
    requires t.Valid() && t.Node(e) && t.Node(t.parent[e]) && |h0| == |h| == t.Size()
    requires Pushed(t, h0, h, e) && SpreadFrame(t, h0, h, e) && Pushed(t, h, h', e) && |h'| == |h| &&
             SpreadFrame(t, h, h', e)
    ensures Pushed(t, h0, h', e) && SpreadFrame(t, h0, h', e) && SameThreads(h0, h')
  {
    PushedTwice(t, h0, h, h', e);
    SpreadTwice(t, h0, h, h', e);
    hide PlacedFrame, SpreadFrame, SameThreads;
  }

  /** The running sums of apportion are those along the four contours. */
  ghost predicate SumsAre(h: seq<Hier>, left: seq<nat>, right: seq<nat>, own: seq<nat>, ownRight: seq<nat>, n: nat,
                          outLeft: real, inRight: real, inLeft: real, outRight: real)
  {
    && Inside(h, left) && Inside(h, right) && Inside(h, own) && Inside(h, ownRight)
    && n <= |left| && n <= |right| && n <= |own| && n <= |ownRight|
    && outLeft == Mods(h, left, n) && inRight == Mods(h, right, n) && inLeft == Mods(h, own, n) &&
       outRight == Mods(h, ownRight, n)
  }

  lemma {:induction false} OneMod(h: seq<Hier>, left: seq<nat>, right: seq<nat>, own: seq<nat>, ownRight: seq<nat>)
    requires left != [] && right != [] && own != [] && ownRight != []
    requires Inside(h, left) && Inside(h, right) && Inside(h, own) && Inside(h, ownRight)
    ensures SumsAre(h, left, right, own, ownRight, 1, h[left[0]].modifier, h[right[0]].modifier, h[own[0]].modifier,
                    h[ownRight[0]].modifier)
  {
    ModsNone(h, left);
    ModsNone(h, right);
    ModsNone(h, own);
    ModsNone(h, ownRight);
  }

  lemma {:induction false} SumsNext(h: seq<Hier>, h': seq<Hier>, left: seq<nat>, right: seq<nat>, own: seq<nat>,
                                    ownRight: seq<nat>, d: nat,
                 outLeft: real, inRight: real, inLeft: real, outRight: real, shift: real)
    requires SumsAre(h, left, right, own, ownRight, d, outLeft, inRight, inLeft, outRight)
    requires 0 < d < |left| && d < |right| && d < |own| && d < |ownRight|
    requires Grown(h, h', left, 0.0) && Grown(h, h', right, 0.0) && Grown(h, h', own, shift) &&
             Grown(h, h', ownRight, shift)
    ensures |h'| == |h| && left[d] < |h| && right[d] < |h| && own[d] < |h| && ownRight[d] < |h|
    ensures SumsAre(h', left, right, own, ownRight, d + 1, outLeft + h'[left[d]].modifier, inRight +
                    h'[right[d]].modifier,
                    inLeft + shift + h'[own[d]].modifier, outRight + shift + h'[ownRight[d]].modifier)
  {
  }

  /** What a comparison is about. */
  lemma {:induction false} ComparingFacts(t: Tree, h: seq<Hier>, separation: (nat, nat) -> real, e: nat, default: nat,
                       left: seq<nat>, right: seq<nat>, own: seq<nat>, ownRight: seq<nat>, last: nat, d: nat)
    requires t.Valid() && Comparing(t, h, separation, e, default, left, right, own, ownRight, last, d)
    ensures |h| == t.Size() && t.Node(e) && t.Node(t.parent[e]) && e in t.children[t.parent[e]] && last < t.first[e]
    ensures |left| == |right| && |own| == |ownRight| && d < |left| && d < |own|
    ensures Inside(h, left) && Inside(h, right) && Inside(h, own) && Inside(h, ownRight)
  {
    hide Depth, Ends, Charged, Veiled, ApartTo, Marked;
    FacingAt(t, e, left, right, own, ownRight, last, 0);
  }

  lemma {:induction false} LevelFacts(t: Tree, h: seq<Hier>, separation: (nat, nat) -> real, e: nat, default: nat,
                   left: seq<nat>, right: seq<nat>, own: seq<nat>, ownRight: seq<nat>, last: nat, d: nat)
    requires t.Valid() && 0 < d < |left| == |right| && d < |own| == |ownRight|
    requires Comparing(t, h, separation, e, default, left, right, own, ownRight, last, d - 1)
    ensures |h| == t.Size() && t.Node(e) && t.Node(t.parent[e]) && t.Node(ownRight[d]) && t.Node(right[d]) &&
            t.Node(own[d])
    ensures right[d] < ownRight[d] && t.Node(h[right[d]].ancestor)
    ensures var left := Charge(t, h, right[d], t.parent[e], default); t.Node(left) && left < e && h[left].i < h[e].i
  {
    hide Depth, Ends, AllSums, Veiled, ApartTo, Marked;
    FacingAt(t, e, left, right, own, ownRight, last, d);
    ChargedLeft(t, h, e, default, left, right, own, ownRight, last, d);
    var c := Charge(t, h, right[d], t.parent[e], default);
    t.SiblingsOrdered(c, e, t.parent[e]);
  }

  /** Nodes of e's subtree can still be charged. */
  lemma {:induction false} PushedBlamable(t: Tree, h: seq<Hier>, h': seq<Hier>, e: nat)
    requires t.Valid() && t.Node(e) && t.Node(t.parent[e]) && e in t.children[t.parent[e]] && |h| == t.Size()
    requires Pushed(t, h, h', e) && forall s :: t.first[e] <= s <= e ==> Blamable(t, h, s)
    ensures |h'| == |h| && forall s :: t.first[e] <= s <= e ==> Blamable(t, h', s)
  {
    forall s | t.first[e] <= s <= e
      ensures Blamable(t, h', s)
    {
      assert Blamable(t, h, s);
    }
  }

  // ---------------------------------------------------------------------------------
  // All forests that are being built

  /** Every node whose children are being walked has a settled forest. */
  ghost predicate Settlements(t: Tree, h: seq<Hier>, k: nat, left: map<nat, seq<nat>>, right: map<nat, seq<nat>>)
    requires t.Valid() && |h| == t.Size()
  {
    forall w: nat, q: nat {:trigger WalkedUpTo(t, w, q, k)} :: k <= w < t.Size() && WalkedUpTo(t, w, q, k) ==>
      SettledFor(t, h, w, q, left, right)
  }

  ghost predicate SettledFor(t: Tree, h: seq<Hier>, w: nat, q: nat, left: map<nat, seq<nat>>, right: map<nat, seq<nat>>)
    requires t.Valid() && w < |h| == t.Size()
  {
    q < |t.children[w]| && w in left && w in right && SettledAt(t, h, w, t.children[w][q], left[w], right[w])
  }

  ghost predicate SettledAt(t: Tree, h: seq<Hier>, w: nat, last: nat, left: seq<nat>, right: seq<nat>)
    requires t.Valid() && w < |h|
  {
    h[w].defaultAncestor.Some? && Settled(t, h, w, last, left, right, h[w].defaultAncestor.value)
  }

  /** The contour of a subtree: its root, then the contour of its children's forest. */
  ghost function OwnContour(t: Tree, contour: map<nat, seq<nat>>, e: nat): seq<nat>
    requires t.Valid() && t.Node(e)
  {
    [e] + if t.children[e] == [] || e !in contour then [] else contour[e]
  }

  lemma {:induction false} LastChild(t: Tree, e: nat)
    requires t.Valid() && t.Node(e) && t.children[e] != []
    ensures t.children[e][|t.children[e]| - 1] == e - 1 && WalkedUpTo(t, e, |t.children[e]| - 1, e)
  {
    assert t.Tiled(e);
  }

  /** e's own contours, after its children have been given their shifts. */
  lemma {:induction false} OwnReady(t: Tree, h: seq<Hier>, h1: seq<Hier>, separation: (nat, nat) -> real, e: nat,
                                    left: map<nat, seq<nat>>, right: map<nat, seq<nat>>)
    requires t.Valid() && |h| == |h1| == t.Size() && Settlements(t, h, e, left, right)
    requires t.Node(e) && t.Node(t.parent[e]) && e in t.children[t.parent[e]] && Positioned(t, h, h1, e) &&
             Beside(t, h, h1, separation, e)
    ensures Ends(t, OwnContour(t, left, e), OwnContour(t, right, e), t.first[e], e, Depth(t, t.parent[e]) + 1)
    ensures Sums(t, h1, OwnContour(t, left, e), t.parent[e]) && Sums(t, h1, OwnContour(t, right, e), t.parent[e])
  {
    hide Depth, Ends, Sums, Positioned, Beside, PlaceOf, Settled, Settlements;
    DepthOfChild(t, t.parent[e], e);
    ParentOfChild(t, t.parent[e], e);
    if t.children[e] == [] {
      LeafReady(t, h1, e);
    } else {
      ForestBelow(t, h, e, left, right);
      BesideMeans(t, h, h1, separation, e);
      InnerReady(t, h, h1, e, left[e], right[e], h[e].defaultAncestor.value);
    }
  }

  lemma {:induction false} BesideMeans(t: Tree, h: seq<Hier>, h1: seq<Hier>, separation: (nat, nat) -> real, e: nat)
    requires t.Valid() && t.Node(e) && t.Node(t.parent[e]) && |h| == |h1| == t.Size() && Beside(t, h, h1, separation, e)
    ensures forall i :: 0 <= i < |t.children[e]| ==> h1[t.children[e][i]].prelim == PlaceOf(t, h, e, i)
  {
    hide PlaceOf;
  }

  lemma {:induction false} ForestBelow(t: Tree, h: seq<Hier>, e: nat, left: map<nat, seq<nat>>, right: map<nat,
                                       seq<nat>>)
    requires t.Valid() && t.Node(e) && |h| == t.Size() && Settlements(t, h, e, left, right) && t.children[e] != []
    ensures t.children[e][|t.children[e]| - 1] == e - 1 && e in left && e in right
    ensures SettledAt(t, h, e, e - 1, left[e], right[e])
  {
    hide Settled;
    LastChild(t, e);
    assert SettledFor(t, h, e, |t.children[e]| - 1, left, right);
  }

  lemma {:induction false} LeafReady(t: Tree, h: seq<Hier>, e: nat)
    requires t.Valid() && |h| == t.Size() && t.Node(e) && t.Node(t.parent[e]) && e in t.children[t.parent[e]] &&
             t.children[e] == []
    ensures Ends(t, [e] + [], [e] + [], t.first[e], e, Depth(t, e)) && Sums(t, h, [e] + [], t.parent[e])
  {
    hide Depth, Ends, Sums;
    EndsOnTop(t, e, [], []);
    NoSums(t, h, e);
    OwnOnTop(t, h, [], e, t.parent[e]);
  }

  lemma {:induction false} InnerReady(t: Tree, h: seq<Hier>, h1: seq<Hier>, e: nat, left: seq<nat>, right: seq<nat>,
                                      default: nat)
    requires t.Valid() && |h| == |h1| == t.Size() && t.Node(e) && t.Node(t.parent[e]) && e in t.children[t.parent[e]] &&
             Positioned(t, h, h1, e)
    requires t.children[e] != [] && t.children[e][|t.children[e]| - 1] == e - 1 &&
             Settled(t, h, e, e - 1, left, right, default)
    requires forall i :: 0 <= i < |t.children[e]| ==> h1[t.children[e][i]].prelim == PlaceOf(t, h, e, i)
    ensures Ends(t, [e] + left, [e] + right, t.first[e], e, Depth(t, e))
    ensures Sums(t, h1, [e] + left, t.parent[e]) && Sums(t, h1, [e] + right, t.parent[e])
  {
    hide Depth, Ends, Sums, Positioned, PlaceOf, Veiled, Charged;
    EndsOnTop(t, e, left, right);
    ExecutedSums(t, h, h1, e, e - 1, left, right, default, left);
    ExecutedSums(t, h, h1, e, e - 1, left, right, default, right);
    OwnOnTop(t, h1, left, e, t.parent[e]);
    OwnOnTop(t, h1, right, e, t.parent[e]);
  }

  lemma {:induction false} NoSums(t: Tree, h: seq<Hier>, w: nat)
    requires t.Valid() && |h| == t.Size()
    ensures Sums(t, h, [], w)
  {
  }

  /** The forest of e's left siblings can be compared with e's subtree. */
  lemma {:induction false} ReadyToCompare(t: Tree, h: seq<Hier>, h1: seq<Hier>, separation: (nat, nat) -> real, e: nat,
                                          default: nat,
                       left: map<nat, seq<nat>>, right: map<nat, seq<nat>>)
    requires t.Valid() && Walked(t, h, e) && e + 1 < t.Size() && t.index[e] > 0 && |h| == |h1| &&
             Settlements(t, h, e, left, right)
    requires t.Node(t.parent[e]) && e in t.children[t.parent[e]] && h[t.parent[e]].defaultAncestor == Some(default)
    requires Positioned(t, h, h1, e) && Beside(t, h, h1, separation, e)
    ensures var w := t.parent[e];
            && w in left && w in right && t.index[e] < |t.children[w]|
            && Comparing(t, h1, separation, e, default, left[w], right[w], OwnContour(t, left, e),
                         OwnContour(t, right, e),
                         t.children[w][t.index[e] - 1], 0)
  {
    var w, j := t.parent[e], t.index[e];
    ParentIndex(t, w, e);
    ChildFirst(t, w, e);
    t.ChildrenOrdered(w, j - 1, j);
    assert WalkedUpTo(t, w, j - 1, e);
    assert SettledFor(t, h, w, j - 1, left, right);
    hide Walked, Settled, Positioned, Beside, Ends, Depth, Sums, Comparing;
    OwnReady(t, h, h1, separation, e, left, right);
    ComparingStart(t, h, h1, separation, e, default, left[w], right[w], OwnContour(t, left, e), OwnContour(t, right, e),
                   t.children[w][j - 1]);
  }

  /** Left of a first child there is nothing. */
  lemma {:induction false} NothingLeft(t: Tree, h: seq<Hier>, separation: (nat, nat) -> real, e: nat)
    requires t.Valid() && |h| == t.Size() && t.Node(e) && t.Node(t.parent[e]) && t.first[t.parent[e]] == t.first[e]
    ensures ForestApart(t, h, separation, e)
  {
  }

  /** The forests after e has joined its left siblings. */
  lemma {:induction false} SettlementsNext(t: Tree, h: seq<Hier>, h1: seq<Hier>, h2: seq<Hier>, h3: seq<Hier>, e: nat,
                                           ancestor: nat,
                        left: map<nat, seq<nat>>, right: map<nat, seq<nat>>, newLeft: seq<nat>, newRight: seq<nat>)
    requires t.Valid() && WalkStep(t, h, h1, h2, h3, e, ancestor) && SpreadFrame(t, h1, h2, e) &&
             t.first[t.Size() - 1] == 0
    requires Settlements(t, h, e, left, right) && Settled(t, h2, t.parent[e], e, newLeft, newRight, ancestor)
    ensures |h3| == t.Size() && Settlements(t, h3, e + 1, left[t.parent[e] := newLeft], right[t.parent[e] := newRight])
  {
    hide WalkStep, SpreadFrame, Settled, Positioned, WalkedUpTo;
    StepFacts(t, h, h1, h2, h3, e, ancestor);
    var w, left', right' := t.parent[e], left[t.parent[e] := newLeft], right[t.parent[e] := newRight];
    forall w': nat, q: nat | e + 1 <= w' < t.Size() && WalkedUpTo(t, w', q, e + 1)
      ensures SettledFor(t, h3, w', q, left', right')
    {
      WalkedUpToIs(t, w', q, e + 1);
      if w' == w {
        LastWalkedIs(t, w, q, e);
        SettledFrame(t, h2, h3, w, e, newLeft, newRight, ancestor);
      } else {
        OtherSettled(t, h, h1, h2, h3, e, ancestor, left, right, w', q);
      }
    }
  }

  lemma {:induction false} WalkedUpToIs(t: Tree, w: nat, q: nat, k: nat)
    requires t.Valid() && t.Node(w) && WalkedUpTo(t, w, q, k)
    ensures q < |t.children[w]| && t.children[w][q] < k
  {
  }

  lemma {:induction false} OtherSettled(t: Tree, h: seq<Hier>, h1: seq<Hier>, h2: seq<Hier>, h3: seq<Hier>, e: nat,
                                        ancestor: nat,
                     left: map<nat, seq<nat>>, right: map<nat, seq<nat>>, w: nat, q: nat)
    requires t.Valid() && WalkStep(t, h, h1, h2, h3, e, ancestor) && SpreadFrame(t, h1, h2, e) &&
             t.first[t.Size() - 1] == 0
    requires Settlements(t, h, e, left, right) && e < w < t.Size() && w != t.parent[e] && WalkedUpTo(t, w, q, e + 1)
    ensures |h3| == t.Size() && q < |t.children[w]| && w in left && w in right
    ensures SettledAt(t, h3, w, t.children[w][q], left[w], right[w])
  {
    OtherForestApart(t, e, w, q);
    assert SettledFor(t, h, w, q, left, right);
    OtherDefault(t, h, h1, h2, h3, e, ancestor, w);
    LeftOfStep(t, h, h1, h2, h3, e, ancestor);
    ElsewhereNotes(t, h, h1, h2, h3, e, ancestor, w);
    hide WalkStep, SpreadFrame, Settled, SameNotes, Settlements;
    SettledFrame(t, h, h3, w, t.children[w][q], left[w], right[w], h[w].defaultAncestor.value);
  }

  lemma {:induction false} OtherDefault(t: Tree, h: seq<Hier>, h1: seq<Hier>, h2: seq<Hier>, h3: seq<Hier>, e: nat,
                                        ancestor: nat, w: nat)
    requires t.Valid() && WalkStep(t, h, h1, h2, h3, e, ancestor) && e < w < t.Size() && w != t.parent[e]
    ensures |h3| == |h| && h3[w].defaultAncestor == h[w].defaultAncestor
  {
    if w in t.children[e] {
      ParentOfChild(t, e, w);
    }
  }
}
