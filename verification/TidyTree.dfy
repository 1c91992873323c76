/** The tidy tree layout of modules "22da" and "ca29": a children-first walk that places every
    node relative to its left siblings and threads the contours of finished subtrees, and a
    parents-first walk that adds up the modifiers. */
module TidyTree {
  import opened Collections
  import opened TreeTraversal
  import opened TreeLevels
  import opened LazyShifts
  import opened TidyRecords
  import opened TidyLevels

  class Layout {
    const t: Tree
    const separation: (nat, nat) -> real
    var hier: seq<Hier>
    var x: seq<real>  // the layout's coordinate of each node
    ghost var leftContour: map<nat, seq<nat>>
    ghost var rightContour: map<nat, seq<nat>>

    constructor (t: Tree, separation: (nat, nat) -> real)
      ensures this.t == t && this.separation == separation && hier == []
    {
      this.t, this.separation, hier, x := t, separation, [], [];
      leftContour, rightContour := map[], map[];
    }

    /** The left sibling that takes the blame for a conflict with node s. */
    method Greatest(s: nat, e: nat, defaultAncestor: nat) returns (left: nat)
      requires t.Valid() && |hier| == t.Size() && t.Node(s) && t.Node(e) && t.Node(hier[s].ancestor)
      ensures left == if t.parent[hier[s].ancestor] == t.parent[e] then hier[s].ancestor else defaultAncestor
    {
      left := if t.parent[hier[s].ancestor] == t.parent[e] then hier[s].ancestor else defaultAncestor;
    }

    method MoveSubtree(left: nat, right: nat, shift: real)
      requires left < |hier| && right < |hier| && hier[left].i < hier[right].i
      modifies this`hier
      ensures MovedTo(old(hier), hier, left, right, shift)
    {
      var change := shift / (hier[right].i - hier[left].i) as real;
      hier := hier[right := hier[right].(change := hier[right].change - change)];
      hier := hier[right := hier[right].(shift := hier[right].shift + shift)];
      hier := hier[right := hier[right].(modifier := hier[right].modifier + shift)];
      hier := hier[right := hier[right].(prelim := hier[right].prelim + shift)];
      hier := hier[left := hier[left].(change := hier[left].change + change)];
    }

    /** One level of apportion: the outer node is marked as e's, and e moves right if the inner ones
        come too close. Then e's subtree is apart from the forest on the levels up to d. */
    method KeepApart(nodeOutRight: nat, nodeInRight: nat, nodeInLeft: nat, sumInRight: real, sumInLeft: real, e: nat,
                     ancestor: nat,
                     ghost left: seq<nat>, ghost right: seq<nat>, ghost own: seq<nat>, ghost ownRight: seq<nat>,
                     ghost last: nat, ghost d: nat)
      returns (shift: real)
      requires t.Valid() && 0 < d < |left| == |right| && d < |own| == |ownRight|
      requires Comparing(t, hier, separation, e, ancestor, left, right, own, ownRight, last, d - 1)
      requires nodeOutRight == ownRight[d] && nodeInRight == right[d] && nodeInLeft == own[d]
      requires Inside(hier, right) && Inside(hier, own) && Inside(hier, ownRight)
      requires sumInRight == Mods(hier, right, d) && sumInLeft == Mods(hier, own, d)
      modifies this`hier
      ensures Comparing(t, hier, separation, e, ancestor, left, right, own, ownRight, last, d)
      ensures |hier| == t.Size() && Pushed(t, old(hier), hier, e) && SpreadFrame(t, old(hier), hier, e)
      ensures var gap := old(hier)[nodeInRight].prelim + sumInRight - old(hier)[nodeInLeft].prelim - sumInLeft +
              separation(nodeInRight, nodeInLeft);
              shift == if gap > 0.0 then gap else 0.0
      ensures Grown(old(hier), hier, left, 0.0) && Grown(old(hier), hier, right, 0.0)
      ensures Grown(old(hier), hier, own, shift) && Grown(old(hier), hier, ownRight, shift)
    {
      hide Comparing, Pushed, SpreadFrame, Grown, Mods, MovedTo;
      ghost var h := hier;
      LevelFacts(t, h, separation, e, ancestor, left, right, own, ownRight, last, d);
      hier := hier[nodeOutRight := hier[nodeOutRight].(ancestor := e)];
      shift := hier[nodeInRight].prelim + sumInRight - hier[nodeInLeft].prelim - sumInLeft +
        separation(nodeInRight, nodeInLeft);
      if shift > 0.0 {
        Push(nodeInRight, e, ancestor, shift);
      } else {
        shift := 0.0;
      }
      ComparingNext(t, h, hier, separation, e, ancestor, left, right, own, ownRight, last, d, shift);
    }

    /** Apportion: compares the right contour of the left forest with the left contour of e,
        level by level, moves e right where they come too close, and threads the contours. Then
        e's subtree is apart from the forest on every level, and the joined forest is settled. */
    method Apportion(e: nat, leftSibling: nat, default: nat,
                     ghost left: seq<nat>, ghost right: seq<nat>, ghost own: seq<nat>, ghost ownRight: seq<nat>)
      returns (ancestor: nat)
      requires t.Valid() && Comparing(t, hier, separation, e, default, left, right, own, ownRight, leftSibling, 0)
      requires var w := t.parent[e]; Forest(t, hier, left, right, t.first[w], t.children[w][0], leftSibling)
      requires Forest(t, hier, own, ownRight, t.first[e], e, e)
      requires forall s :: t.first[e] <= s <= e ==> Blamable(t, hier, s)
      modifies this`hier
      ensures |hier| == t.Size() && PlacedFrame(t, old(hier), hier, e) && SpreadFrame(t, old(hier), hier, e)
      ensures ForestApart(t, hier, separation, e) && ForestMet(t, hier, separation, e)
      ensures ancestor == default || ancestor == e
      ensures Settled(t, hier, t.parent[e], e, Longer(left, own), Longer(ownRight, right), ancestor)
      ensures var w := t.parent[e];
              Forest(t, hier, Longer(left, own), Longer(ownRight, right), t.first[w], t.children[w][0], e)
    {
      hide Forest, PlacedFrame, SameThreads, Blamable, SpreadFrame, Pushed, Mods, Comparing, Grown, Settled,
           ForestApart, ForestMet, Longer, NextRight, NextLeft;
      ComparingFacts(t, hier, separation, e, default, left, right, own, ownRight, leftSibling, 0);
      ghost var w, h0 := t.parent[e], hier;
      ghost var lo, first := t.first[w], t.children[w][0];
      NotPushed(t, hier, e);
      ForestTop(t, hier, left, right, lo, first, leftSibling);
      ForestTop(t, hier, own, ownRight, t.first[e], e, e);
      ancestor := default;
      var nodeOutRight, nodeInLeft, nodeOutLeft, nodeInRight := e, e, t.children[t.parent[e]][0], leftSibling;
      var sumOutRight, sumInLeft, sumOutLeft, sumInRight :=
        hier[nodeOutRight].modifier, hier[nodeInLeft].modifier, hier[nodeOutLeft].modifier, hier[nodeInRight].modifier;
      var nextRight, nextLeft := NextRight(t, hier, nodeInRight), NextLeft(t, hier, nodeInLeft);
      ghost var d := 0;
      OneMod(hier, left, right, own, ownRight);
      ForestStep(t, h0, hier, left, right, lo, first, leftSibling, 0);
      ForestStep(t, h0, hier, own, ownRight, t.first[e], e, e, 0);
      while nextRight.Some? && nextLeft.Some?
        invariant d < |right| == |left| && d < |own| == |ownRight|
        invariant nodeOutRight == ownRight[d] && nodeInLeft == own[d] && nodeOutLeft == left[d] &&
                  nodeInRight == right[d]
        invariant Comparing(t, hier, separation, e, default, left, right, own, ownRight, leftSibling, d)
        invariant Pushed(t, h0, hier, e) && SameThreads(h0, hier) && |hier| == t.Size() && SpreadFrame(t, h0, hier, e)
        invariant SumsAre(hier, left, right, own, ownRight, d + 1, sumOutLeft, sumInRight, sumInLeft, sumOutRight)
        invariant nextRight == if d + 1 < |left| then Some(right[d + 1]) else None
        invariant nextLeft == if d + 1 < |own| then Some(own[d + 1]) else None
        decreases |right| - d
      {
        ForestStep(t, h0, hier, left, right, lo, first, leftSibling, d);
        ForestStep(t, h0, hier, own, ownRight, t.first[e], e, e, d);
        nodeInRight, nodeInLeft := nextRight.value, nextLeft.value;
        nodeOutRight, nodeOutLeft := NextRight(t, hier, nodeOutRight).value, NextLeft(t, hier, nodeOutLeft).value;
        d := d + 1;
        ghost var h := hier;
        var shift := KeepApart(nodeOutRight, nodeInRight, nodeInLeft, sumInRight, sumInLeft, e, ancestor, left, right,
                               own, ownRight, leftSibling, d);
        PushedMore(t, h0, h, hier, e);
        ForestStep(t, h0, hier, left, right, lo, first, leftSibling, d);
        ForestStep(t, h0, hier, own, ownRight, t.first[e], e, e, d);
        SumsNext(h, hier, left, right, own, ownRight, d, sumOutLeft, sumInRight, sumInLeft, sumOutRight, shift);
        sumInLeft := sumInLeft + shift;
        sumOutRight := sumOutRight + shift;
        sumInRight := sumInRight + hier[nodeInRight].modifier;
        sumInLeft := sumInLeft + hier[nodeInLeft].modifier;
        sumOutRight := sumOutRight + hier[nodeOutRight].modifier;
        sumOutLeft := sumOutLeft + hier[nodeOutLeft].modifier;
        nextRight, nextLeft := NextRight(t, hier, nodeInRight), NextLeft(t, hier, nodeInLeft);
      }
      PushedFrame(t, h0, hier, e);
      ghost var h1 := hier;
      ancestor := ThreadContours(e, leftSibling, ancestor, nextRight, nextLeft, nodeOutRight, nodeOutLeft,
        sumInRight - sumOutRight, sumInLeft - sumOutLeft, h0, left, right, own, ownRight);
      PushedBlamable(t, h0, h1, e);
      AllLevelsApart(t, h1, hier, separation, e, default, left, right, own, ownRight, leftSibling, d);
      SomeLevelMet(t, h1, hier, separation, e, default, left, right, own, ownRight, leftSibling, d);
      SettledNext(t, h1, hier, separation, e, default, ancestor, left, right, own, ownRight, leftSibling, d);
    }

    method SetThread(x: nat, next: Option<nat>, gap: real)
      requires x < |hier|
      modifies this`hier
      ensures hier == Threaded(old(hier), x, next, gap)
    {
      hier := hier[x := hier[x].(thread := next)];
      hier := hier[x := hier[x].(modifier := hier[x].modifier + gap)];
    }

    lemma ThreadedRight(h0: seq<Hier>, h1: seq<Hier>, h: seq<Hier>, gap: real,
                        left: seq<nat>, right: seq<nat>, leftSibling: nat, own: seq<nat>, ownRight: seq<nat>, e: nat)
      requires t.Valid() && |h0| == |h1| == t.Size() && t.Node(e) && t.Node(t.parent[e]) && e in t.children[t.parent[e]]
      requires PlacedFrame(t, h0, h1, e) && SameThreads(h0, h1) && leftSibling < t.first[e]
      requires Forest(t, h0, left, right, t.first[t.parent[e]], t.children[t.parent[e]][0], leftSibling)
      requires Forest(t, h0, own, ownRight, t.first[e], e, e) && |ownRight| < |right|
      requires var x := ownRight[|ownRight| - 1];
               h == Threaded(h1, x, Some(right[|ownRight|]), gap) && t.children[x] == []
      ensures PlacedFrame(t, h0, h, e)
      ensures Forest(t, h, left, ownRight + right[|ownRight|..], t.first[t.parent[e]], t.children[t.parent[e]][0], e)
    {
      var x, w := ownRight[|ownRight| - 1], t.parent[e];
      ChildFirst(t, w, e);
      ForestStep(t, h0, h0, own, ownRight, t.first[e], e, e, |own| - 1);
      ForestTop(t, h0, left, right, t.first[w], t.children[w][0], leftSibling);
      hide Forest, PlacedFrame, SameThreads;
      FrameThread(t, h0, h1, e, x, Some(right[|ownRight|]), h1[x].modifier + gap);
      OneThread(h0, h1, h, x);
      ThreadRight(t, h0, h, left, right, t.first[w], t.children[w][0], leftSibling, own, ownRight, t.first[e], e);
    }

    lemma ThreadedLeft(h0: seq<Hier>, h1: seq<Hier>, h: seq<Hier>, gap: real,
                       left: seq<nat>, right: seq<nat>, leftSibling: nat, own: seq<nat>, ownRight: seq<nat>, e: nat)
      requires t.Valid() && |h0| == |h1| == t.Size() && t.Node(e) && t.Node(t.parent[e]) && e in t.children[t.parent[e]]
      requires PlacedFrame(t, h0, h1, e) && SameThreads(h0, h1) && leftSibling < t.first[e]
      requires Forest(t, h0, left, right, t.first[t.parent[e]], t.children[t.parent[e]][0], leftSibling)
      requires Forest(t, h0, own, ownRight, t.first[e], e, e) && |left| < |own|
      requires var x := left[|left| - 1]; h == Threaded(h1, x, Some(own[|left|]), gap) && t.children[x] == []
      ensures PlacedFrame(t, h0, h, e)
      ensures Forest(t, h, left + own[|left|..], ownRight, t.first[t.parent[e]], t.children[t.parent[e]][0], e)
    {
      var x, w := left[|left| - 1], t.parent[e];
      ChildFirst(t, w, e);
      ForestTop(t, h0, left, right, t.first[w], t.children[w][0], leftSibling);
      ForestStep(t, h0, h0, left, right, t.first[w], t.children[w][0], leftSibling, |left| - 1);
      hide Forest, PlacedFrame, SameThreads;
      FrameThread(t, h0, h1, e, x, Some(own[|left|]), h1[x].modifier + gap);
      OneThread(h0, h1, h, x);
      ThreadLeft(t, h0, h, left, right, t.first[w], t.children[w][0], leftSibling, own, ownRight, t.first[e], e);
    }

    /** The deeper one of the left forest and e's subtree continues the other's contour, and the modifier
        of the leaf threaded makes up for the difference in sums. */
    method ThreadContours(e: nat, ghost leftSibling: nat, default: nat, nextRight: Option<nat>, nextLeft: Option<nat>,
                          nodeOutRight: nat, nodeOutLeft: nat, rightGap: real, leftGap: real, ghost h0: seq<Hier>,
                          ghost left: seq<nat>, ghost right: seq<nat>, ghost own: seq<nat>, ghost ownRight: seq<nat>)
      returns (ancestor: nat)
      requires t.Valid() && |h0| == |hier| == t.Size() && t.Node(e) && t.Node(t.parent[e]) &&
               e in t.children[t.parent[e]]
      requires PlacedFrame(t, h0, hier, e) && SameThreads(h0, hier) && leftSibling < t.first[e] &&
               SpreadFrame(t, h0, hier, e)
      requires Forest(t, h0, left, right, t.first[t.parent[e]], t.children[t.parent[e]][0], leftSibling)
      requires Forest(t, h0, own, ownRight, t.first[e], e, e)
      requires |left| == |right| > 0 && |own| == |ownRight| > 0
      requires Inside(hier, left) && Inside(hier, right) && Inside(hier, own) && Inside(hier, ownRight)
      requires var n := if |left| < |own| then |left| else |own|;
               && nodeOutRight == ownRight[n - 1] && nodeOutLeft == left[n - 1]
               && nextRight == (if n < |right| then Some(right[n]) else None)
               && nextLeft == (if n < |own| then Some(own[n]) else None)
               && rightGap == Mods(hier, right, n) - Mods(hier, ownRight, n) &&
                  leftGap == Mods(hier, own, n) - Mods(hier, left, n)
      modifies this`hier
      ensures PlacedFrame(t, h0, hier, e) && |hier| == t.Size() && SpreadFrame(t, h0, hier, e)
      ensures Rethreaded(t, old(hier), hier, left, right, own, ownRight)
      ensures ancestor == if |left| < |own| then e else default
      ensures Forest(t, hier, Longer(left, own), Longer(ownRight, right), t.first[t.parent[e]],
                     t.children[t.parent[e]][0], e)
    {
      hide Forest, PlacedFrame, SameThreads, SpreadFrame, Mods;
      ghost var w := t.parent[e];
      ghost var lo, first := t.first[w], t.children[w][0];
      ChildFirst(t, w, e);
      ForestTop(t, h0, left, right, lo, first, leftSibling);
      ForestTop(t, h0, own, ownRight, t.first[e], e, e);
      ghost var d: nat := (if |left| < |own| then |left| else |own|) - 1;
      ForestStep(t, h0, hier, left, right, lo, first, leftSibling, d);
      ForestStep(t, h0, hier, own, ownRight, t.first[e], e, e, d);
      ancestor := default;
      ghost var h1 := hier;
      if nextRight.Some? && NextRight(t, hier, nodeOutRight).None? {
        SetThread(nodeOutRight, nextRight, rightGap);
        ThreadedRight(h0, h1, hier, rightGap, left, right, leftSibling, own, ownRight, e);
        SpreadSame(t, h0, h1, hier, e);
      }
      if nextLeft.Some? && NextLeft(t, hier, nodeOutLeft).None? {
        SetThread(nodeOutLeft, nextLeft, leftGap);
        ancestor := e;
        ThreadedLeft(h0, h1, hier, leftGap, left, right, leftSibling, own, ownRight, e);
        SpreadSame(t, h0, h1, hier, e);
      } else if nextRight.None? {
        SameThreadsAt(h0, hier);
        NoThread(t, h0, hier, left, right, lo, first, leftSibling, own, ownRight, t.first[e], e);
      }
    }

    /** A conflict: e moves right, and the sibling under which s lies notes that the ones between follow. */
    method Push(s: nat, e: nat, default: nat, shift: real)
      requires t.Valid() && |hier| == t.Size() && t.Node(s) && t.Node(e) && t.Node(t.parent[e]) &&
               t.Node(hier[s].ancestor)
      requires var left := Charge(t, hier, s, t.parent[e], default); t.Node(left) && hier[left].i < hier[e].i
      modifies this`hier
      ensures MovedTo(old(hier), hier, Charge(t, old(hier), s, t.parent[e], default), e, shift)
    {
      var left := Greatest(s, e, default);
      MoveSubtree(left, e, shift);
    }

    /** executeShifts: one pass over e's children from right to left. */
    method ExecuteShifts(e: nat)
      requires t.Valid() && t.Node(e) && |hier| == t.Size() && t.children[e] != []
      modifies this`hier
      ensures ShiftsExecuted(t, old(hier), hier, e)
      ensures |hier| == t.Size() && forall x :: 0 <= x < |hier| && x !in t.children[e] ==> hier[x] == old(hier)[x]
    {
      hide Pending, ChangeFrom, SiblingsOf, PartlyExecuted, ShiftsExecuted;
      ghost var h0, s := hier, SiblingsOf(t, hier, e);
      var children := t.children[e];
      var i, n, change := |children|, 0.0, 0.0;
      SiblingAt(h0, e, 0);
      PendingStart(s);
      NothingExecuted(h0, e);
      while i > 0
        invariant 0 <= i <= |children| && |hier| == |h0| && PartlyExecuted(h0, hier, e, i)
        invariant change == ChangeFrom(s, i) && (i > 0 ==> n == Pending(s, i - 1))
      {
        i := i - 1;
        var o := children[i];
        PendingStep(s, i);
        SiblingAt(h0, e, i);
        PartlyNext(h0, hier, e, i);
        ghost var h := hier;
        hier := hier[o := hier[o].(prelim := hier[o].prelim + n)];
        hier := hier[o := hier[o].(modifier := hier[o].modifier + n)];
        assert hier == h[o := Shifted(h[o], n)];
        change := change + hier[o].change;
        n := n + hier[o].shift + change;
      }
      AllExecuted(h0, hier, e);
    }

    /** The children from the i-th on have been given their pending shifts. */
    ghost predicate PartlyExecuted(h0: seq<Hier>, h: seq<Hier>, e: nat, i: nat)
      requires t.Valid() && t.Node(e) && |h0| == t.Size() && i <= |t.children[e]|
    {
      && |h| == |h0|
      && (forall x :: 0 <= x < |h| && x !in t.children[e] ==> h[x] == h0[x])
      && (forall j :: 0 <= j < i ==> h[t.children[e][j]] == h0[t.children[e][j]])
      && (forall j :: i <= j < |t.children[e]| ==>
            h[t.children[e][j]] == Shifted(h0[t.children[e][j]], Pending(SiblingsOf(t, h0, e), j)))
    }

    lemma NothingExecuted(h0: seq<Hier>, e: nat)
      requires t.Valid() && t.Node(e) && |h0| == t.Size()
      ensures PartlyExecuted(h0, h0, e, |t.children[e]|)
    {
    }

    lemma {:induction false} PartlyNext(h0: seq<Hier>, h: seq<Hier>, e: nat, i: nat)
      requires t.Valid() && t.Node(e) && |h0| == t.Size() && i < |t.children[e]| && PartlyExecuted(h0, h, e, i + 1)
      ensures var o, n := t.children[e][i], Pending(SiblingsOf(t, h0, e), i);
              h[o] == h0[o] && PartlyExecuted(h0, h[o := Shifted(h[o], n)], e, i)
    {
      ChildrenDistinct(e);
      hide Pending, SiblingsOf, Tree.Valid;
    }

    lemma AllExecuted(h0: seq<Hier>, h: seq<Hier>, e: nat)
      requires t.Valid() && t.Node(e) && |h0| == t.Size() && PartlyExecuted(h0, h, e, 0)
      ensures ShiftsExecuted(t, h0, h, e)
      ensures |h| == |h0| && forall x :: 0 <= x < |h| && x !in t.children[e] ==> h[x] == h0[x]
    {
      hide Pending, SiblingsOf;
    }

    lemma SiblingAt(h: seq<Hier>, e: nat, i: nat)
      requires t.Valid() && t.Node(e) && |h| == t.Size() && i < |t.children[e]|
      ensures var r, s := h[t.children[e][i]], SiblingsOf(t, h, e);
              |s| == |t.children[e]| && s[i] == Sibling(r.prelim, r.modifier, r.change, r.shift)
    {
    }

    /** The children's records after the pass are the executed list of siblings. */
    lemma ExecutedSiblings(h: seq<Hier>, h': seq<Hier>, e: nat)
      requires t.Valid() && t.Node(e) && |h| == t.Size() && ShiftsExecuted(t, h, h', e)
      ensures SiblingsOf(t, h', e) == Executed(SiblingsOf(t, h, e))
    {
      hide Pending;
    }

    lemma ChildrenDistinct(e: nat)
      requires t.Valid() && t.Node(e)
      ensures forall i :: 0 <= i < |t.children[e]| ==> t.children[e][i] < e
      ensures forall i, j :: 0 <= i < j < |t.children[e]| ==> t.children[e][i] != t.children[e][j]
    {
      if t.children[e] != [] {
        assert t.Tiled(e);
        assert forall i :: 0 <= i < |t.children[e]| ==> t.index[t.children[e][i]] == i;
      }
    }

    /** First half of firstWalk: e between its children, or beside its left sibling. */
    method Position(e: nat, leftSibling: Option<nat>)
      requires t.Valid() && t.Node(e) && |hier| == t.Size() && Untouched(hier[e], e)
      requires leftSibling.Some? ==>
                 t.Node(leftSibling.value) && leftSibling.value < e && leftSibling.value !in t.children[e]
      requires t.Node(t.parent[e]) && t.index[e] < |t.children[t.parent[e]]|
      requires leftSibling == if t.index[e] > 0 then Some(t.children[t.parent[e]][t.index[e] - 1]) else None
      modifies this`hier
      ensures Positioned(t, old(hier), hier, e) && |hier| == t.Size() && Beside(t, old(hier), hier, separation, e)
    {
      hide Centred, Positioned, ShiftsExecuted, PlaceOf, Tree.Tiled;
      ghost var h := hier;
      var children := t.children[e];
      ChildrenApart(e);
      if children != [] {
        ExecuteShifts(e);
        var midpoint := (hier[children[0]].prelim + hier[children[|children| - 1]].prelim) / 2.0;
        ghost var h0 := hier;
        if leftSibling.Some? {
          hier := hier[e := hier[e].(prelim := hier[leftSibling.value].prelim + separation(e, leftSibling.value))];
          hier := hier[e := hier[e].(modifier := hier[e].prelim - midpoint)];
        } else {
          hier := hier[e := hier[e].(prelim := midpoint)];
        }
        PositionedInner(h, h0, hier, e);
        ExecutedPlaces(h, h0, hier, e);
      } else {
        if leftSibling.Some? {
          hier := hier[e := hier[e].(prelim := hier[leftSibling.value].prelim + separation(e, leftSibling.value))];
        }
        PositionedLeaf(h, hier, e);
      }
    }

    /** firstWalk: places e relative to its children and its left sibling, then against the
        whole left forest. */
    method FirstWalk(e: nat)
      requires t.Valid() && Walked(t, hier, e) && Contours(t, hier, e, leftContour, rightContour) && e + 1 < t.Size()
      requires Settlements(t, hier, e, leftContour, rightContour) && LevelApart(t, hier, separation, e)
      requires LevelTight(t, hier, separation, e)
      modifies this
      ensures Walked(t, hier, e + 1) && Contours(t, hier, e + 1, leftContour, rightContour)
      ensures Settlements(t, hier, e + 1, leftContour, rightContour) && LevelApart(t, hier, separation, e + 1)
      ensures LevelTight(t, hier, separation, e + 1)
    {
      hide LevelTight, ForestMet;
      hide LevelApart, ForestApart, Settlements, Settled, Comparing, Beside, SpreadFrame, Centred, Forest, Untouched,
           DefaultOk, Positioned,
           PlacedFrame, WalkStep, Contours, WalkedUpTo, Blamable, Walked, OwnContour, Longer, Ends, Sums, Depth;
      WalkedFacts(hier, e);
      ghost var h, w := hier, t.parent[e];
      ghost var own, ownRight := OwnContour(t, leftContour, e), OwnContour(t, rightContour, e);
      OwnForest(h, e, leftContour, rightContour);
      var siblings := t.children[t.parent[e]];
      var leftSibling := if hier[e].i > 0 then Some(siblings[hier[e].i - 1]) else None;
      Position(e, leftSibling);
      ghost var h1 := hier;
      PositionedThreads(h, h1, e);
      ForestFrame(t, h, h1, own, ownRight, t.first[e], e, e);
      var default := if hier[t.parent[e]].defaultAncestor.Some? then hier[t.parent[e]].defaultAncestor.value
        else siblings[0];
      var ancestor := default;
      if leftSibling.Some? {
        LeftForest(h, h1, e, leftContour, rightContour);
        DefaultIsSet(h, e);
        ReadyToCompare(t, h, h1, separation, e, default, leftContour, rightContour);
        forall s | t.first[e] <= s <= e
          ensures Blamable(t, h1, s)
        {
          WalkedBlamable(t, h, h1, e, s);
        }
        ancestor := Apportion(e, leftSibling.value, default, leftContour[w], rightContour[w], own, ownRight);
        own, ownRight := Longer(leftContour[w], own), Longer(ownRight, rightContour[w]);
      } else {
        FrameStart(t, h1, e);
        FirstChildForest(h1, e, own, ownRight);
        FirstDefault(h, e);
        OwnReady(t, h, h1, separation, e, leftContour, rightContour);
        SettledFirst(t, h, h1, e, own, ownRight);
        NothingLeft(t, h1, separation, e);
      }
      ghost var h2 := hier;
      PlacedSize(h1, h2, e);
      hier := hier[t.parent[e] := hier[t.parent[e]].(defaultAncestor := Some(ancestor))];
      StepDone(h, h1, h2, hier, e, ancestor);
      WalkedNext(t, h, h1, h2, hier, e, ancestor);
      LevelApartNext(t, h, h1, h2, hier, separation, e, ancestor);
      LevelTightNext(t, h, h1, h2, hier, separation, e, ancestor);
      ContoursNext(h, h1, h2, hier, e, ancestor, leftContour, rightContour, own, ownRight);
      SettlementsNext(t, h, h1, h2, hier, e, ancestor, leftContour, rightContour, own, ownRight);
      leftContour, rightContour := leftContour[w := own], rightContour[w := ownRight];
    }

    lemma WalkedFacts(h: seq<Hier>, e: nat)
      requires t.Valid() && Walked(t, h, e) && e + 1 < t.Size()
      ensures |h| == t.Size() && t.first[t.Size() - 1] == 0 && forall x :: 0 <= x < t.Size() ==> h[x].i == t.index[x]
      ensures Untouched(h[e], e) && t.first[e] <= e
      ensures e < t.parent[e] < t.Size() && e in t.children[t.parent[e]]
      ensures t.index[e] < |t.children[t.parent[e]]| && t.children[t.parent[e]][t.index[e]] == e
      ensures t.index[e] > 0 ==>
                var leftSibling := t.children[t.parent[e]][t.index[e] - 1];
                leftSibling < t.first[e] && leftSibling < e && leftSibling !in t.children[e]
    {
      ChildOfParent(t, e);
      if t.index[e] > 0 {
        var leftSibling := t.children[t.parent[e]][t.index[e] - 1];
        t.ChildrenOrdered(t.parent[e], t.index[e] - 1, t.index[e]);
        if leftSibling in t.children[e] {
          ChildFirst(t, e, leftSibling);
        }
      }
    }

    /** For a first child the default ancestor is still unset. */
    lemma FirstDefault(h: seq<Hier>, e: nat)
      requires t.Valid() && Walked(t, h, e) && e + 1 < t.Size() && t.index[e] == 0
      ensures t.Node(t.parent[e]) && h[t.parent[e]].defaultAncestor == None
    {
      ChildOfParent(t, e);
      var w := t.parent[e];
      assert DefaultOk(t, h, w, e);
      if h[w].defaultAncestor.Some? {
        t.SiblingsOrdered(h[w].defaultAncestor.value, e, w);
      }
    }

    lemma PlacedSize(h1: seq<Hier>, h2: seq<Hier>, e: nat)
      requires t.Valid() && t.Node(e) && t.Node(t.parent[e]) && PlacedFrame(t, h1, h2, e)
      ensures |h2| == t.Size()
    {
    }

    /** The contours of e's finished subtree. */
    lemma OwnForest(h: seq<Hier>, e: nat, left: map<nat, seq<nat>>, right: map<nat, seq<nat>>)
      requires t.Valid() && Walked(t, h, e) && Contours(t, h, e, left, right)
      ensures Forest(t, h, OwnContour(t, left, e), OwnContour(t, right, e), t.first[e], e, e)
    {
      if t.children[e] == [] {
        RootOnTop(t, h, e, [], []);
      } else {
        LastChild(t, e);
        RootOnTop(t, h, e, left[e], right[e]);
      }
    }

    lemma ChildrenApart(e: nat)
      requires t.Valid() && t.Node(e)
      ensures e !in t.children[e] && forall i :: 0 <= i < |t.children[e]| ==> t.children[e][i] < e
    {
    }

    lemma PositionedInner(h: seq<Hier>, h0: seq<Hier>, h1: seq<Hier>, e: nat)
      requires t.Valid() && t.Node(e) && |h| == t.Size() && t.children[e] != [] && ShiftsExecuted(t, h, h0, e)
      requires h[e].modifier == 0.0 && |h1| == |h|
      requires var c := t.children[e]; var midpoint := (h0[c[0]].prelim + h0[c[|c| - 1]].prelim) / 2.0;
               && h1 == h0[e := h0[e].(prelim := h1[e].prelim, modifier := h1[e].modifier)]
               && h1[e].prelim - h1[e].modifier == midpoint
      ensures Positioned(t, h, h1, e)
    {
      var c := t.children[e];
      ChildrenApart(e);
      assert Centred(t, h1, e);
      forall x | 0 <= x < |h| && x in c
        ensures h1[x] == h[x].(prelim := h1[x].prelim, modifier := h1[x].modifier)
        ensures h1[x].prelim - h1[x].modifier == h[x].prelim - h[x].modifier
      {
        var i :| 0 <= i < |c| && c[i] == x;
        assert h0[c[i]] == Shifted(h[c[i]], Pending(SiblingsOf(t, h, e), i));
      }
    }

    lemma ExecutedPlaces(h: seq<Hier>, h0: seq<Hier>, h1: seq<Hier>, e: nat)
      requires t.Valid() && t.Node(e) && |h| == t.Size() && ShiftsExecuted(t, h, h0, e) && |h1| == |h0|
      requires forall x :: 0 <= x < e ==> h1[x] == h0[x]
      ensures forall i :: 0 <= i < |t.children[e]| ==> h1[t.children[e][i]].prelim == PlaceOf(t, h, e, i)
    {
      ChildrenApart(e);
      hide Pending, SiblingsOf;
    }

    lemma PositionedLeaf(h: seq<Hier>, h1: seq<Hier>, e: nat)
      requires t.Valid() && t.Node(e) && |h| == t.Size() && t.children[e] == []
      requires |h1| == |h| && h1 == h[e := h[e].(prelim := h1[e].prelim)]
      ensures Positioned(t, h, h1, e)
    {
    }

    lemma PositionedThreads(h: seq<Hier>, h1: seq<Hier>, e: nat)
      requires t.Valid() && t.Node(e) && Positioned(t, h, h1, e)
      ensures |h1| == |h| == t.Size() && forall x :: 0 <= x < |h| ==>
                h1[x].thread == h[x].thread && h1[x].ancestor == h[x].ancestor && h1[x].i == h[x].i &&
                  h1[x].defaultAncestor == h[x].defaultAncestor
    {
    }

    /** Before e is apportioned, the forest of its left siblings has its contours. */
    lemma LeftForest(h: seq<Hier>, h1: seq<Hier>, e: nat, left: map<nat, seq<nat>>, right: map<nat, seq<nat>>)
      requires t.Valid() && Walked(t, h, e) && Contours(t, h, e, left, right) && e + 1 < t.Size()
      requires t.index[e] > 0 && |h1| == |h| && forall x :: 0 <= x < |h| ==> h1[x].thread == h[x].thread
      ensures t.Node(t.parent[e]) && t.index[e] < |t.children[t.parent[e]]|
      ensures var w, leftSibling := t.parent[e], t.children[t.parent[e]][t.index[e] - 1];
              && w in left && w in right && leftSibling < t.first[e]
              && Forest(t, h1, left[w], right[w], t.first[w], t.children[w][0], leftSibling)
    {
      ChildOfParent(t, e);
      var w, j := t.parent[e], t.index[e];
      t.ChildrenOrdered(w, j - 1, j);
      assert WalkedUpTo(t, w, j - 1, e);
      hide Forest;
      ForestFrame(t, h, h1, left[w], right[w], t.first[w], t.children[w][0], t.children[w][j - 1]);
    }

    /** From the second child on, a walked child is recorded as the default ancestor. */
    lemma DefaultIsSet(h: seq<Hier>, e: nat)
      requires t.Valid() && Walked(t, h, e) && e + 1 < t.Size() && t.index[e] > 0
      ensures t.Node(t.parent[e])
      ensures var d := h[t.parent[e]].defaultAncestor; d.Some? && d.value < e && d.value in t.children[t.parent[e]]
    {
      ChildOfParent(t, e);
      t.ChildrenOrdered(t.parent[e], 0, t.index[e]);
      assert DefaultOk(t, h, t.parent[e], e);
    }

    /** The first child alone is the forest walked so far. */
    lemma FirstChildForest(h: seq<Hier>, e: nat, own: seq<nat>, ownRight: seq<nat>)
      requires t.Valid() && e + 1 < t.Size() == |h| && t.first[t.Size() - 1] == 0 && t.index[e] == 0
      requires Forest(t, h, own, ownRight, t.first[e], e, e)
      ensures t.Node(t.parent[e]) && t.children[t.parent[e]] != [] && t.children[t.parent[e]][0] == e
      ensures Forest(t, h, own, ownRight, t.first[t.parent[e]], t.children[t.parent[e]][0], e)
    {
      ChildOfParent(t, e);
    }

    lemma StepDone(h: seq<Hier>, h1: seq<Hier>, h2: seq<Hier>, h3: seq<Hier>, e: nat, ancestor: nat)
      requires t.Valid() && Walked(t, h, e) && e + 1 < t.Size() && t.Node(t.parent[e]) && e in t.children[t.parent[e]]
      requires Positioned(t, h, h1, e) && PlacedFrame(t, h1, h2, e)
      requires ancestor <= e && ancestor in t.children[t.parent[e]]
      requires |h2| == t.Size() && h3 == h2[t.parent[e] := h2[t.parent[e]].(defaultAncestor := Some(ancestor))]
      ensures WalkStep(t, h, h1, h2, h3, e, ancestor)
    {
    }

    /** The contours after e has joined its left siblings' forest. */
    lemma ContoursNext(h: seq<Hier>, h1: seq<Hier>, h2: seq<Hier>, h3: seq<Hier>, e: nat, ancestor: nat,
                       left: map<nat, seq<nat>>, right: map<nat, seq<nat>>, newLeft: seq<nat>, newRight: seq<nat>)
      requires t.Valid() && Walked(t, h, e) && Contours(t, h, e, left, right) && WalkStep(t, h, h1, h2, h3, e, ancestor)
      requires var w := t.parent[e]; Forest(t, h2, newLeft, newRight, t.first[w], t.children[w][0], e)
      ensures |h3| == t.Size() && Contours(t, h3, e + 1, left[t.parent[e] := newLeft], right[t.parent[e] := newRight])
    {
      hide Forest, Walked;
      var w, left', right' := t.parent[e], left[t.parent[e] := newLeft], right[t.parent[e] := newRight];
      forall w', q | e + 1 <= w' < t.Size() && 0 <= q && WalkedUpTo(t, w', q, e + 1)
        ensures w' in left' && w' in right' &&
                Forest(t, h3, left'[w'], right'[w'], t.first[w'], t.children[w'][0], t.children[w'][q])
      {
        if w' == w {
          LastWalkedIs(t, w, q, e);
          assert forall x :: 0 <= x < |h3| ==> h3[x].thread == h2[x].thread;
          ForestFrame(t, h2, h3, newLeft, newRight, t.first[w], t.children[w][0], e);
        } else {
          OtherContour(h, h1, h2, h3, e, ancestor, left, right, w', q);
        }
      }
    }

    /** Contours of other nodes are not touched. */
    lemma OtherContour(h: seq<Hier>, h1: seq<Hier>, h2: seq<Hier>, h3: seq<Hier>, e: nat, ancestor: nat,
                       left: map<nat, seq<nat>>, right: map<nat, seq<nat>>, w: nat, q: nat)
      requires t.Valid() && Walked(t, h, e) && Contours(t, h, e, left, right) && WalkStep(t, h, h1, h2, h3, e, ancestor)
      requires e < w < t.Size() && w != t.parent[e] && WalkedUpTo(t, w, q, e + 1)
      ensures |h3| == t.Size() && w in left && w in right
      ensures Forest(t, h3, left[w], right[w], t.first[w], t.children[w][0], t.children[w][q])
    {
      hide Forest;
      OtherForestApart(t, e, w, q);
      assert WalkedUpTo(t, w, q, e);
      LeftOfStep(t, h, h1, h2, h3, e, ancestor);
      ForestFrame(t, h, h3, left[w], right[w], t.first[w], t.children[w][0], t.children[w][q]);
    }

    /** init: a fresh record for every visible node. */
    method Init()
      requires t.Valid() && t.Size() > 1 && t.first[t.Size() - 1] == 0
      modifies this`hier
      ensures Walked(t, hier, 0) && Contours(t, hier, 0, leftContour, rightContour)
      ensures Settlements(t, hier, 0, leftContour, rightContour) && LevelApart(t, hier, separation, 0)
      ensures LevelTight(t, hier, separation, 0)
    {
      hier := seq(t.Size(), v requires 0 <= v < t.Size() => Hier(None, v, 0.0, 0.0, 0.0, 0.0, t.index[v], None));
      NoFamilyYet(t, hier, separation);
    }

    /** secondWalk: the final position of e, and the modifier for the nodes below it. */
    method SecondWalk(e: nat)
      requires t.Valid() && t.Node(e) && t.Node(t.parent[e]) && |hier| == |x| == t.Size()
      modifies this`hier, this`x
      ensures x == old(x)[e := old(hier)[e].prelim + old(hier)[t.parent[e]].modifier]
      ensures hier == old(hier)[e := old(hier)[e].(modifier := old(hier)[e].modifier + old(hier)[t.parent[e]].modifier)]
    {
      x := x[e := hier[e].prelim + hier[t.parent[e]].modifier];
      hier := hier[e := hier[e].(modifier := hier[e].modifier + hier[t.parent[e]].modifier)];
    }

    /** On some level, a node under the last child of w stands just as far from its left neighbour, which is under
        another child, as it has to. */
    ghost predicate NoLooser(w: nat)
      requires t.Valid() && 0 < w < t.Size() && |x| == t.Size()
      reads this`x
    {
      exists u: nat, v: nat :: Neighbours(t, u, v) && t.Under(u, w) && !t.Under(u, w - 1) && t.Under(v, w - 1) &&
        x[v] - x[u] == Gap(t, separation, u, v)
    }

    /** The layout of the nodes below the virtual root: every visible inner node is midway between
        its first and last child, on every level all neighbours keep their separation, the subtree of
        a last child is no farther from the others than it has to be, and the top node is at 0. */
    method Run()
      requires t.Valid() && t.Size() > 1 && t.first[t.Size() - 1] == 0 && |t.children[t.Size() - 1]| == 1
      modifies this
      ensures |x| == t.Size()
      ensures forall v :: 0 <= v < t.Size() - 1 && t.children[v] != [] ==> Midway(v)
      ensures forall u: nat, v: nat :: Neighbours(t, u, v) ==> x[v] - x[u] >= Gap(t, separation, u, v)
      ensures forall v, i, j {:trigger t.children[v][i], t.children[v][j]} ::
                0 <= v < t.Size() - 1 && 0 <= i && j == i + 1 < |t.children[v]| ==>
                  x[t.children[v][j]] - x[t.children[v][i]] >= separation(t.children[v][j], t.children[v][i])
      ensures forall w :: 0 < w < t.Size() - 1 && |t.children[w]| >= 2 ==> NoLooser(w)
      ensures x[t.Size() - 2] == 0.0
    {
      hide NoLooser, LevelTight;
      hide Walked, Contours, Settlements, LevelApart, TotalModifier, Centred, Neighbours, Gap, Midway;
      var root := t.Size() - 1;
      TopUnderRoot();
      var top := t.children[root][0];
      Init();
      var after := EachAfter(t, top);
      WalkAll(after, root);
      ghost var h := hier;
      hier := hier[root := hier[root].(modifier := -hier[top].prelim)];
      ghost var h0 := hier;
      RootModifier(h, h0, root);
      x := seq(t.Size(), _ => 0.0);
      var before := EachBefore(t, top);
      PlaceNodes(before, h0, top);
      TopAtZero(h0, x[top]);
      Finished(h, h0);
      forall w | 0 < w < t.Size() - 1 && |t.children[w]| >= 2
        ensures NoLooser(w)
      {
        FinallyMet(h, h0, w);
      }
    }

    /** What the positions are in the end. */
    lemma {:induction false} Finished(h: seq<Hier>, h0: seq<Hier>)
      requires t.Valid() && t.Size() > 1 && t.first[t.Size() - 1] == 0 && |t.children[t.Size() - 1]| == 1
      requires |h| == |h0| == |x| == t.Size() && h0 == h[t.Size() - 1 := h0[t.Size() - 1]]
      requires forall v :: 0 <= v < t.Size() - 1 ==>
                 t.Node(t.parent[v]) && x[v] == h0[v].prelim + TotalModifier(t, h0, t.parent[v])
      requires LevelApart(t, h, separation, t.Size() - 1)
      requires forall v :: 0 <= v < t.Size() - 1 && t.children[v] != [] ==> Centred(t, h0, v)
      ensures forall v :: 0 <= v < t.Size() - 1 && t.children[v] != [] ==> Midway(v)
      ensures forall u: nat, v: nat :: Neighbours(t, u, v) ==> x[v] - x[u] >= Gap(t, separation, u, v)
      ensures forall v, i, j {:trigger t.children[v][i], t.children[v][j]} ::
                0 <= v < t.Size() - 1 && 0 <= i && j == i + 1 < |t.children[v]| ==>
                  x[t.children[v][j]] - x[t.children[v][i]] >= separation(t.children[v][j], t.children[v][i])
    {
      hide LevelApart, TotalModifier, Centred, Depth, Gap, Midway;
      forall v | 0 <= v < t.Size() - 1 && t.children[v] != []
        ensures Midway(v)
      {
        MidwayFrom(h0, v);
      }
      forall u: nat, v: nat | Neighbours(t, u, v)
        ensures x[v] - x[u] >= Gap(t, separation, u, v)
      {
        FinallyApart(h, h0, u, v);
      }
      forall v, i, j | 0 <= v < t.Size() - 1 && 0 <= i && j == i + 1 < |t.children[v]|
        ensures x[t.children[v][j]] - x[t.children[v][i]] >= separation(t.children[v][j], t.children[v][i])
      {
        SiblingsApart(v, i);
      }
    }

    /** Neighbours on a level keep their separation at the end. */
    lemma {:induction false} FinallyApart(h: seq<Hier>, h0: seq<Hier>, u: nat, v: nat)
      requires t.Valid() && t.Size() > 1 && t.first[t.Size() - 1] == 0 && |t.children[t.Size() - 1]| == 1
      requires |h| == |h0| == |x| == t.Size() && h0 == h[t.Size() - 1 := h0[t.Size() - 1]]
      requires forall v :: 0 <= v < t.Size() - 1 ==>
                 t.Node(t.parent[v]) && x[v] == h0[v].prelim + TotalModifier(t, h0, t.parent[v])
      requires LevelApart(t, h, separation, t.Size() - 1) && Neighbours(t, u, v)
      ensures v < t.Size() && x[v] - x[u] >= Gap(t, separation, u, v)
    {
      var w := SameLevelParted(t, u, v);
      NotUnderRoot(w, u, v);
      assert KeptApart(t, h, separation, t.Size() - 1, w, u, v);
      hide LevelApart, Neighbours, Depth, TotalModifier, Above;
      AboveSame(t, h, h0, u, w);
      AboveSame(t, h, h0, v, w);
      FinalDifference(t, h0, x, u, v, w);
    }

    lemma {:induction false} FinallyMet(h: seq<Hier>, h0: seq<Hier>, w: nat)
      requires t.Valid() && t.Size() > 1 && t.first[t.Size() - 1] == 0
      requires |h| == |h0| == |x| == t.Size() && h0 == h[t.Size() - 1 := h0[t.Size() - 1]]
      requires forall v :: 0 <= v < t.Size() - 1 ==>
                 t.Node(t.parent[v]) && x[v] == h0[v].prelim + TotalModifier(t, h0, t.parent[v])
      requires LevelTight(t, h, separation, t.Size() - 1) && 0 < w < t.Size() - 1 && |t.children[w]| >= 2
      ensures NoLooser(w)
    {
      hide Neighbours, Depth, TotalModifier, Above, NoLooser, LevelTight;
      var u, v := FamilyPair(t, h, separation, t.Size() - 1, w);
      AboveSame(t, h, h0, u, w);
      AboveSame(t, h, h0, v, w);
      FinalDifference(t, h0, x, u, v, w);
      PairMeets(w, u, v);
    }

    lemma {:induction false} PairMeets(w: nat, u: nat, v: nat)
      requires t.Valid() && 0 < w < t.Size() == |x| && Parted(t, w, u, v) && Neighbours(t, u, v)
      requires Branch(t, v, w) == w - 1 && x[v] - x[u] == Gap(t, separation, u, v)
      ensures NoLooser(w)
    {
      hide Neighbours, Gap;
      t.SiblingsOrdered(Branch(t, u, w), w - 1, w);
    }

    /** If no two neighbours may come closer than `least`, no two nodes of a level are closer, and they
        stand in the order of the tree. */
    lemma {:induction false} LevelInOrder(u: nat, v: nat, least: real)
      requires t.Valid() && |x| == t.Size() && u < v < t.Size() && Depth(t, u) == Depth(t, v) && least >= 0.0
      requires forall a: nat, b: nat :: Neighbours(t, a, b) ==> x[b] - x[a] >= Gap(t, separation, a, b) >= least
      ensures x[v] - x[u] >= least
      decreases v - u
    {
      if y :| u < y < v && Depth(t, y) == Depth(t, u) {
        LevelInOrder(u, y, least);
        LevelInOrder(y, v, least);
      } else {
        assert Neighbours(t, u, v);
      }
    }

    /** The root has one child only. */
    lemma NotUnderRoot(w: nat, u: nat, v: nat)
      requires t.Valid() && t.Size() > 1 && t.first[t.Size() - 1] == 0 && |t.children[t.Size() - 1]| == 1
      requires Parted(t, w, u, v)
      ensures w < t.Size() - 1
    {
    }

    lemma SiblingsApart(v: nat, i: nat)
      requires t.Valid() && v + 1 < t.Size() == |x| && i + 1 < |t.children[v]|
      requires forall u: nat, v: nat :: Neighbours(t, u, v) ==> x[v] - x[u] >= Gap(t, separation, u, v)
      ensures var a, b := t.children[v][i], t.children[v][i + 1];
              a < |x| && b < |x| && x[b] - x[a] >= separation(b, a)
    {
      ChildrenAreNeighbours(t, v, i);
      ParentOfChild(t, v, t.children[v][i]);
      ParentOfChild(t, v, t.children[v][i + 1]);
    }

    lemma TopUnderRoot()
      requires t.Valid() && t.Size() > 1 && t.first[t.Size() - 1] == 0 && |t.children[t.Size() - 1]| == 1
      ensures t.children[t.Size() - 1][0] == t.Size() - 2 && t.parent[t.Size() - 2] == t.Size() - 1
      ensures t.first[t.Size() - 2] == 0 && t.Node(t.Size() - 2)
    {
      assert t.Tiled(t.Size() - 1);
    }

    lemma {:induction false} TopAtZero(h0: seq<Hier>, position: real)
      requires t.Valid() && t.Size() > 1 && |h0| == t.Size()
      requires h0[t.Size() - 1].modifier == -h0[t.Size() - 2].prelim
      requires position == h0[t.Size() - 2].prelim + TotalModifier(t, h0, t.Size() - 1)
      ensures position == 0.0
    {
    }

    /** firstWalk over all nodes below the root, children first. */
    method WalkAll(after: seq<nat>, root: nat)
      requires t.Valid() && t.Size() > 1 && root == t.Size() - 1 && t.first[root] == 0
      requires |after| == root && forall k :: 0 <= k < root ==> after[k] == k
      requires Walked(t, hier, 0) && Contours(t, hier, 0, leftContour, rightContour)
      requires Settlements(t, hier, 0, leftContour, rightContour) && LevelApart(t, hier, separation, 0)
      requires LevelTight(t, hier, separation, 0)
      modifies this
      ensures Walked(t, hier, root) && |hier| == t.Size() && LevelApart(t, hier, separation, root)
      ensures LevelTight(t, hier, separation, root)
    {
      hide Contours, Settlements, LevelApart, LevelTight, Tree.Valid;
      for k := 0 to |after|
        invariant Walked(t, hier, k) && |hier| == t.Size() && Contours(t, hier, k, leftContour, rightContour)
        invariant Settlements(t, hier, k, leftContour, rightContour) && LevelApart(t, hier, separation, k)
        invariant LevelTight(t, hier, separation, k)
      {
        FirstWalk(after[k]);
      }
    }

    ghost predicate Midway(v: nat)
      requires t.Valid() && t.Node(v) && t.children[v] != [] && |x| == t.Size()
      reads this`x
    {
      var c := t.children[v];
      x[v] == (x[c[0]] + x[c[|c| - 1]]) / 2.0
    }

    /** secondWalk over all nodes, parents first. */
    method PlaceNodes(order: seq<nat>, ghost h0: seq<Hier>, top: nat)
      requires t.Valid() && t.Size() > 1 && t.first[t.Size() - 1] == 0 && top == t.Size() - 2
      requires hier == h0 && |h0| == |x| == t.Size() && t.parent[top] == t.Size() - 1
      requires forall v: nat :: v in order <==> v <= top
      requires ParentsFirst(t, top, order)
      modifies this`hier, this`x
      ensures |x| == t.Size() && forall v :: 0 <= v <= top ==>
                t.Node(t.parent[v]) && x[v] == h0[v].prelim + TotalModifier(t, h0, t.parent[v])
    {
      hide ParentsFirst, PartlyPlaced;
      NonePlaced(h0, top);
      assert order[..0] == [];
      for k := 0 to |order|
        invariant PartlyPlaced(h0, hier, x, order[..k], top)
      {
        var e := order[k];
        OrderFacts(order, k, top);
        ChildOfParent(t, e);
        assert order[..k + 1] == order[..k] + [e];
        SizesPlaced(h0, hier, x, order[..k], top);
        PlacedNext(h0, hier, x, order[..k], top, e);
        SecondWalk(e);
      }
      assert order[..|order|] == order;
      AllPlaced(h0, hier, x, order, top);
    }

    /** The nodes done have their places and the sums of all modifiers above; the others are untouched. */
    ghost predicate PartlyPlaced(h0: seq<Hier>, h: seq<Hier>, x: seq<real>, done: seq<nat>, top: nat)
      requires t.Valid() && |h0| == t.Size()
    {
      && |h| == |x| == t.Size()
      && (forall v :: 0 <= v < t.Size() ==> h[v].prelim == h0[v].prelim)
      && (forall v :: 0 <= v < t.Size() && v !in done ==> h[v] == h0[v])
      && (forall v :: v in done ==>
            && v <= top && v < t.Size() && t.Node(t.parent[v])
            && h[v].modifier == TotalModifier(t, h0, v) && x[v] == h0[v].prelim + TotalModifier(t, h0, t.parent[v]))
    }

    lemma {:induction false} NonePlaced(h0: seq<Hier>, top: nat)
      requires t.Valid() && |h0| == |x| == t.Size()
      ensures PartlyPlaced(h0, h0, x, [], top)
    {
    }

    lemma {:induction false} SizesPlaced(h0: seq<Hier>, h: seq<Hier>, x: seq<real>, done: seq<nat>, top: nat)
      requires t.Valid() && |h0| == t.Size() && PartlyPlaced(h0, h, x, done, top)
      ensures |h| == |x| == t.Size()
    {
    }

    lemma {:induction false} AllPlaced(h0: seq<Hier>, h: seq<Hier>, x: seq<real>, done: seq<nat>, top: nat)
      requires t.Valid() && |h0| == t.Size() && PartlyPlaced(h0, h, x, done, top) && forall v: nat :: v in done <==>
               v <= top
      ensures |x| == t.Size() && forall v: nat :: v <= top ==>
                v < t.Size() && t.Node(t.parent[v]) && x[v] == h0[v].prelim + TotalModifier(t, h0, t.parent[v])
    {
      hide PartlyPlaced, TotalModifier;
      SizesPlaced(h0, h, x, done, top);
      PlacedAt(h0, h, x, done, top, top);
      assert top < t.Size();
      forall v: nat | v <= top
        ensures v < t.Size() && t.Node(t.parent[v]) && x[v] == h0[v].prelim + TotalModifier(t, h0, t.parent[v])
      {
        PlacedAt(h0, h, x, done, top, v);
      }
    }

    lemma {:induction false} PlacedAt(h0: seq<Hier>, h: seq<Hier>, x: seq<real>, done: seq<nat>, top: nat, v: nat)
      requires t.Valid() && |h0| == t.Size() && PartlyPlaced(h0, h, x, done, top) && v in done
      ensures v < t.Size() == |x| && t.Node(t.parent[v]) && x[v] == h0[v].prelim + TotalModifier(t, h0, t.parent[v])
    {
      hide TotalModifier;
    }

    /** The second walk on a node whose parent is done, or is the root that is never walked on. */
    lemma {:induction false} PlacedNext(h0: seq<Hier>, h: seq<Hier>, x: seq<real>, done: seq<nat>, top: nat, e: nat)
      requires t.Valid() && t.Size() > 1 && t.first[t.Size() - 1] == 0 && |h0| == |h| == |x| == t.Size() &&
               top == t.Size() - 2
      requires PartlyPlaced(h0, h, x, done, top) && e <= top && e !in done && t.Node(t.parent[e]) && t.parent[e] > e
      requires if e == top then t.parent[e] == t.Size() - 1 else t.parent[e] in done
      ensures var m := h[t.parent[e]].modifier;
              PartlyPlaced(h0, h[e := h[e].(modifier := h[e].modifier + m)], x[e := h[e].prelim + m], done + [e], top)
    {
      TotalStep(h0, e);
      assert TotalModifier(t, h0, t.Size() - 1) == h0[t.Size() - 1].modifier;
      assert t.Size() - 1 !in done;
      assert h[t.parent[e]].modifier == TotalModifier(t, h0, t.parent[e]) && h[e] == h0[e];
      hide TotalModifier;
      forall v | v in done + [e]
        ensures v <= top && v < t.Size() && t.Node(t.parent[v]) && (v in done || v == e)
      {
      }
    }

    lemma OrderFacts(order: seq<nat>, k: nat, top: nat)
      requires t.Valid() && t.Node(top) && ParentsFirst(t, top, order) && k < |order|
      ensures order[k] <= top && order[k] !in order[..k] && (order[k] != top ==> t.parent[order[k]] in order[..k])
    {
    }

    lemma RootModifier(h: seq<Hier>, h0: seq<Hier>, root: nat)
      requires t.Valid() && t.Size() > 1 && root == t.Size() - 1 && Walked(t, h, root)
      requires |h0| == |h| && h0 == h[root := h[root].(modifier := h0[root].modifier)]
      ensures forall v :: 0 <= v < root && t.children[v] != [] ==> Centred(t, h0, v)
    {
      forall v | 0 <= v < root && t.children[v] != []
        ensures Centred(t, h0, v)
      {
        assert Centred(t, h, v);
      }
    }

    /** The sum of the modifiers above v and its children's parent differ by v's own. */
    lemma {:induction false} TotalStep(h0: seq<Hier>, v: nat)
      requires t.Valid() && v + 1 < t.Size() == |h0| && t.first[t.Size() - 1] == 0
      ensures t.Node(t.parent[v]) && TotalModifier(t, h0, v) == h0[v].modifier + TotalModifier(t, h0, t.parent[v])
    {
      ChildOfParent(t, v);
    }

    lemma {:induction false} MidwayFrom(h0: seq<Hier>, v: nat)
      requires t.Valid() && v + 1 < t.Size() == |h0| == |x| && t.children[v] != [] && t.first[t.Size() - 1] == 0
      requires forall u :: 0 <= u < t.Size() - 1 ==>
                 t.Node(t.parent[u]) && x[u] == h0[u].prelim + TotalModifier(t, h0, t.parent[u])
      requires Centred(t, h0, v)
      ensures Midway(v)
    {
      hide Tree.Valid, TotalModifier;
      var c := t.children[v];
      TotalStep(h0, v);
      ParentOfChild(t, v, c[0]);
      ParentOfChild(t, v, c[|c| - 1]);
    }
  }
}
