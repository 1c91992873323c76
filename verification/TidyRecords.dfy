/** The records of the tidy tree layout (module "22da"), the threaded contours of a forest, and what
    one step of the children-first walk changes. */
module TidyRecords {
  import opened Collections
  import opened TreeTraversal
  import opened LazyShifts

  /** The hierNode record of a node. */
  datatype Hier = Hier(defaultAncestor: Option<nat>, ancestor: nat, prelim: real, modifier: real,
                       change: real, shift: real, i: nat, thread: Option<nat>)

  /** Next node on the right contour below v: its last child, or its thread. */
  function NextRight(t: Tree, h: seq<Hier>, v: nat): Option<nat>
    requires v < |h| == t.Size()
  {
    var c := t.children[v];
    if c != [] then Some(c[|c| - 1]) else h[v].thread
  }

  /** Next node on the left contour below v: its first child, or its thread. */
  function NextLeft(t: Tree, h: seq<Hier>, v: nat): Option<nat>
    requires v < |h| == t.Size()
  {
    var c := t.children[v];
    if c != [] then Some(c[0]) else h[v].thread
  }

  /** The nodes of c follow each other to the right contour's end, all within [lo, hi]. */
  ghost predicate RightContour(t: Tree, h: seq<Hier>, c: seq<nat>, lo: nat, hi: nat)
    requires |h| == t.Size()
  {
    && |c| > 0 && hi < |h| && (forall i :: 0 <= i < |c| ==> lo <= c[i] <= hi)
    && (forall i, j :: 0 <= i && j == i + 1 < |c| ==> NextRight(t, h, c[i]) == Some(c[j]))
    && NextRight(t, h, c[|c| - 1]) == None
  }

  ghost predicate LeftContour(t: Tree, h: seq<Hier>, c: seq<nat>, lo: nat, hi: nat)
    requires |h| == t.Size()
  {
    && |c| > 0 && hi < |h| && (forall i :: 0 <= i < |c| ==> lo <= c[i] <= hi)
    && (forall i, j :: 0 <= i && j == i + 1 < |c| ==> NextLeft(t, h, c[i]) == Some(c[j]))
    && NextLeft(t, h, c[|c| - 1]) == None
  }

  /** Both contours of a forest: from its first root on the left and its last root on the right,
      down to the same, greatest level. */
  ghost predicate Forest(t: Tree, h: seq<Hier>, left: seq<nat>, right: seq<nat>, lo: nat, first: nat, last: nat)
    requires |h| == t.Size()
  {
    && LeftContour(t, h, left, lo, last) && RightContour(t, h, right, lo, last)
    && |left| == |right| && left[0] == first && right[0] == last
  }

  /** Contours depend on the threads of their nodes only. */
  lemma ForestFrame(t: Tree, h: seq<Hier>, h': seq<Hier>, left: seq<nat>, right: seq<nat>, lo: nat, first: nat,
                    last: nat)
    requires |h| == |h'| == t.Size() && Forest(t, h, left, right, lo, first, last)
    requires forall x :: lo <= x <= last ==> h'[x].thread == h[x].thread
    ensures Forest(t, h', left, right, lo, first, last)
  {
  }

  /** A finished subtree is a forest of one root, its contours start with the root. */
  lemma RootOnTop(t: Tree, h: seq<Hier>, v: nat, left: seq<nat>, right: seq<nat>)
    requires t.Valid() && |h| == t.Size() && t.Node(v)
    requires if t.children[v] == [] then
               h[v].thread == None && left == right == []
             else
               && Forest(t, h, left, right, t.first[v], t.children[v][0], v - 1)
               && t.children[v][|t.children[v]| - 1] == v - 1
    ensures Forest(t, h, [v] + left, [v] + right, t.first[v], v, v)
  {
    var l, r := [v] + left, [v] + right;
    forall i, j | 0 <= i && j == i + 1 < |l|
      ensures NextLeft(t, h, l[i]) == Some(l[j]) && NextRight(t, h, r[i]) == Some(r[j])
    {
      NextOnTop(t, h, v, left, right, i);
    }
    if t.children[v] != [] {
      assert l[|l| - 1] == left[|left| - 1] && r[|r| - 1] == right[|right| - 1];
      assert forall i :: 0 < i < |l| ==> l[i] == left[i - 1] && r[i] == right[i - 1];
    }
  }

  lemma NextOnTop(t: Tree, h: seq<Hier>, v: nat, left: seq<nat>, right: seq<nat>, i: nat)
    requires t.Valid() && |h| == t.Size() && t.Node(v) && t.children[v] != [] && i < |left|
    requires Forest(t, h, left, right, t.first[v], t.children[v][0], v - 1) &&
             t.children[v][|t.children[v]| - 1] == v - 1
    ensures |left| == |right| && ([v] + left)[i] < |h| && ([v] + right)[i] < |h|
    ensures NextLeft(t, h, ([v] + left)[i]) == Some(left[i]) && NextRight(t, h, ([v] + right)[i]) == Some(right[i])
  {
    if i > 0 {
      assert NextLeft(t, h, left[i - 1]) == Some(left[i]);
      assert NextRight(t, h, right[i - 1]) == Some(right[i]);
    }
  }

  /** Threading when the new subtree is shallower: its right contour goes on in the forest. */
  lemma ThreadRight(t: Tree, h: seq<Hier>, h': seq<Hier>, left: seq<nat>, right: seq<nat>, lo: nat, first: nat,
                    last: nat,
                    own: seq<nat>, ownRight: seq<nat>, ownLo: nat, v: nat)
    requires |h| == |h'| == t.Size() && Forest(t, h, left, right, lo, first, last) &&
             Forest(t, h, own, ownRight, ownLo, v, v)
    requires lo <= last < ownLo && |right| > |ownRight|
    requires forall x :: lo <= x <= v && x != ownRight[|ownRight| - 1] ==> h'[x].thread == h[x].thread
    requires h'[ownRight[|ownRight| - 1]].thread == Some(right[|ownRight|])
    ensures Forest(t, h', left, ownRight + right[|ownRight|..], lo, first, v)
  {
    var c := ownRight + right[|ownRight|..];
    forall i, j | 0 <= i && j == i + 1 < |c|
      ensures NextRight(t, h', c[i]) == Some(c[j])
    {
      if j < |ownRight| {
        assert NextRight(t, h, ownRight[i]) == Some(ownRight[j]);
      } else if i >= |ownRight| {
        assert NextRight(t, h, right[i]) == Some(right[j]);
      }
    }
    forall i, j | 0 <= i && j == i + 1 < |left|
      ensures NextLeft(t, h', left[i]) == Some(left[j])
    {
      assert NextLeft(t, h, left[i]) == Some(left[j]);
    }
  }

  /** Threading when the new subtree is deeper: the forest's left contour goes on in it. */
  lemma ThreadLeft(t: Tree, h: seq<Hier>, h': seq<Hier>, left: seq<nat>, right: seq<nat>, lo: nat, first: nat,
                   last: nat,
                   own: seq<nat>, ownRight: seq<nat>, ownLo: nat, v: nat)
    requires |h| == |h'| == t.Size() && Forest(t, h, left, right, lo, first, last) &&
             Forest(t, h, own, ownRight, ownLo, v, v)
    requires lo <= last < ownLo && |left| < |own|
    requires forall x :: lo <= x <= v && x != left[|left| - 1] ==> h'[x].thread == h[x].thread
    requires h'[left[|left| - 1]].thread == Some(own[|left|])
    ensures Forest(t, h', left + own[|left|..], ownRight, lo, first, v)
  {
    var c := left + own[|left|..];
    forall i, j | 0 <= i && j == i + 1 < |c|
      ensures NextLeft(t, h', c[i]) == Some(c[j])
    {
      if j < |left| {
        assert NextLeft(t, h, left[i]) == Some(left[j]);
      } else if i >= |left| {
        assert NextLeft(t, h, own[i]) == Some(own[j]);
      }
    }
    forall i, j | 0 <= i && j == i + 1 < |ownRight|
      ensures NextRight(t, h', ownRight[i]) == Some(ownRight[j])
    {
      assert NextRight(t, h, ownRight[i]) == Some(ownRight[j]);
    }
  }

  /** Equal depth: no thread is needed. */
  lemma NoThread(t: Tree, h: seq<Hier>, h': seq<Hier>, left: seq<nat>, right: seq<nat>, lo: nat, first: nat, last: nat,
                 own: seq<nat>, ownRight: seq<nat>, ownLo: nat, v: nat)
    requires |h| == |h'| == t.Size() && Forest(t, h, left, right, lo, first, last) &&
             Forest(t, h, own, ownRight, ownLo, v, v)
    requires lo <= last < ownLo && |left| == |own|
    requires forall x :: lo <= x <= v ==> h'[x].thread == h[x].thread
    ensures Forest(t, h', left, ownRight, lo, first, v)
  {
    forall i, j | 0 <= i && j == i + 1 < |left|
      ensures NextLeft(t, h', left[i]) == Some(left[j]) && NextRight(t, h', ownRight[i]) == Some(ownRight[j])
    {
      assert NextLeft(t, h, left[i]) == Some(left[j]) && NextRight(t, h, ownRight[i]) == Some(ownRight[j]);
    }
  }

  /** What placing node e against its left siblings may change: e itself, the changes noted at
      its siblings, the ancestors of nodes under e, and, of nodes without children, the modifier. */
  ghost predicate PlacedFrame(t: Tree, h0: seq<Hier>, h: seq<Hier>, e: nat)
    requires t.Valid() && t.Node(e) && t.Node(t.parent[e])
  {
    && |h| == |h0| == t.Size()
    && (forall x :: 0 <= x < |h| ==> h[x].i == h0[x].i && h[x].defaultAncestor == h0[x].defaultAncestor)
    && (forall x :: 0 <= x < |h| && x != e ==> h[x].prelim == h0[x].prelim)
    && (forall x :: 0 <= x < |h| && x != e && t.children[x] != [] ==> h[x].modifier == h0[x].modifier)
    && (t.children[e] != [] ==> h[e].prelim - h[e].modifier == h0[e].prelim - h0[e].modifier)
    && (forall x :: 0 <= x < |h| && (x < t.first[t.parent[e]] || e < x) ==> h[x] == h0[x])
    && (forall x :: 0 <= x < |h| ==> h[x].ancestor == h0[x].ancestor || (t.first[e] <= x <= e && h[x].ancestor == e))
  }

  /** A node's thread is set, and its modifier makes up for the difference in sums. */
  ghost function Threaded(h: seq<Hier>, x: nat, next: Option<nat>, gap: real): seq<Hier>
    requires x < |h|
  {
    h[x := h[x].(thread := next, modifier := h[x].modifier + gap)]
  }

  ghost predicate SameThreads(h0: seq<Hier>, h: seq<Hier>) {
    |h| == |h0| && forall x :: 0 <= x < |h| ==> h[x].thread == h0[x].thread
  }

  /** The d-th nodes of a forest's contours lead to the next ones, or end both contours. */
  lemma ForestStep(t: Tree, h0: seq<Hier>, h: seq<Hier>, left: seq<nat>, right: seq<nat>, lo: nat, first: nat,
                   last: nat, d: nat)
    requires |h0| == t.Size() && SameThreads(h0, h) && Forest(t, h0, left, right, lo, first, last) && d < |left|
    ensures |left| == |right| && last < |h| && lo <= left[d] <= last && lo <= right[d] <= last
    ensures NextLeft(t, h, left[d]) == if d + 1 < |left| then Some(left[d + 1]) else None
    ensures NextRight(t, h, right[d]) == if d + 1 < |left| then Some(right[d + 1]) else None
  {
    assert d + 1 < |left| ==>
             NextLeft(t, h0, left[d]) == Some(left[d + 1]) && NextRight(t, h0, right[d]) == Some(right[d + 1]);
  }

  lemma ForestTop(t: Tree, h: seq<Hier>, left: seq<nat>, right: seq<nat>, lo: nat, first: nat, last: nat)
    requires |h| == t.Size() && Forest(t, h, left, right, lo, first, last)
    ensures |left| == |right| > 0 && left[0] == first && right[0] == last
    ensures lo <= first <= last < |h|
  {
  }

  lemma FrameStart(t: Tree, h: seq<Hier>, e: nat)
    requires t.Valid() && t.Node(e) && t.Node(t.parent[e]) && |h| == t.Size()
    ensures PlacedFrame(t, h, h, e) && SameThreads(h, h) && SpreadFrame(t, h, h, e)
  {
  }

  lemma SameThreadsAt(h0: seq<Hier>, h: seq<Hier>)
    requires SameThreads(h0, h)
    ensures |h| == |h0| && forall x :: 0 <= x < |h| ==> h[x].thread == h0[x].thread
  {
  }

  lemma OneThread(h0: seq<Hier>, h: seq<Hier>, h': seq<Hier>, x: nat)
    requires SameThreads(h0, h) && x < |h| && |h'| == |h| && h' == h[x := h'[x]]
    ensures forall y :: 0 <= y < |h'| && y != x ==> h'[y].thread == h0[y].thread
  {
  }

  ghost function SiblingsOf(t: Tree, h: seq<Hier>, e: nat): (s: seq<Sibling>)
    requires t.Valid() && e < |h| == t.Size()
  {
    seq(|t.children[e]|, i requires 0 <= i < |t.children[e]| =>
      var r := h[t.children[e][i]]; Sibling(r.prelim, r.modifier, r.change, r.shift))
  }

  /** Where the i-th child of w will be, relative to w, once the pending shifts are executed. */
  ghost function PlaceOf(t: Tree, h: seq<Hier>, w: nat, i: nat): real
    requires t.Valid() && w < |h| == t.Size() && i < |t.children[w]|
  {
    h[t.children[w][i]].prelim + Pending(SiblingsOf(t, h, w), i)
  }

  /** Placing e never brings two neighbours up to e closer together. */
  ghost predicate SpreadFrame(t: Tree, h0: seq<Hier>, h: seq<Hier>, e: nat)
    requires t.Valid() && t.Node(e) && t.Node(t.parent[e]) && |h| == |h0| == t.Size()
  {
    var w := t.parent[e];
    && (forall x :: 0 <= x < |h| && x !in t.children[w] ==> h[x].change == h0[x].change && h[x].shift == h0[x].shift)
    && (forall i, j {:trigger PlaceOf(t, h, w, i), PlaceOf(t, h, w, j)} ::
        0 <= i && j == i + 1 < |t.children[w]| && j <= t.index[e] ==>
          PlaceOf(t, h, w, j) - PlaceOf(t, h, w, i) >= PlaceOf(t, h0, w, j) - PlaceOf(t, h0, w, i))
  }

  /** Records that agree on prelim, change and shift put the children in the same places. */
  lemma PlaceSame(t: Tree, h: seq<Hier>, h': seq<Hier>, w: nat, i: nat)
    requires t.Valid() && w < |h| == |h'| == t.Size() && i < |t.children[w]|
    requires h'[t.children[w][i]].prelim == h[t.children[w][i]].prelim
    requires forall j :: i < j < |t.children[w]| ==>
               h'[t.children[w][j]].change == h[t.children[w][j]].change &&
                 h'[t.children[w][j]].shift == h[t.children[w][j]].shift
    ensures PlaceOf(t, h', w, i) == PlaceOf(t, h, w, i)
  {
    PendingSame(SiblingsOf(t, h, w), SiblingsOf(t, h', w), i);
  }

  lemma SpreadSame(t: Tree, h0: seq<Hier>, h: seq<Hier>, h': seq<Hier>, e: nat)
    requires t.Valid() && t.Node(e) && t.Node(t.parent[e]) && |h| == |h'| == |h0| == t.Size() &&
             SpreadFrame(t, h0, h, e)
    requires forall x :: 0 <= x < |h| ==>
               h'[x].prelim == h[x].prelim && h'[x].change == h[x].change && h'[x].shift == h[x].shift
    ensures SpreadFrame(t, h0, h', e)
  {
    var w := t.parent[e];
    forall i | 0 <= i < |t.children[w]|
      ensures PlaceOf(t, h', w, i) == PlaceOf(t, h, w, i)
    {
      PlaceSame(t, h, h', w, i);
    }
  }

  lemma SpreadMove(t: Tree, h0: seq<Hier>, h: seq<Hier>, h': seq<Hier>, e: nat, left: nat, shift: real)
    requires t.Valid() && t.Node(e) && t.Node(t.parent[e]) && |h| == |h0| == t.Size() && SpreadFrame(t, h0, h, e)
    requires forall x :: 0 <= x < t.Size() ==> h[x].i == t.index[x]
    requires left in t.children[t.parent[e]] && e in t.children[t.parent[e]] && t.index[left] < t.index[e] &&
             shift > 0.0
    requires MovedTo(h, h', left, e, shift)
    ensures SpreadFrame(t, h0, h', e)
  {
    var w := t.parent[e];
    hide Tree.Valid, PlaceOf;
    forall i, j | 0 <= i && j == i + 1 < |t.children[w]| && j <= t.index[e]
      ensures PlaceOf(t, h', w, j) - PlaceOf(t, h', w, i) >= PlaceOf(t, h, w, j) - PlaceOf(t, h, w, i)
    {
      SpreadMoveAt(t, h, h', e, left, shift, i);
    }
  }

  lemma SpreadMoveAt(t: Tree, h: seq<Hier>, h': seq<Hier>, e: nat, left: nat, shift: real, i: nat)
    requires t.Valid() && t.Node(e) && t.Node(t.parent[e]) && |h| == t.Size()
    requires forall x :: 0 <= x < t.Size() ==> h[x].i == t.index[x]
    requires left in t.children[t.parent[e]] && e in t.children[t.parent[e]] && t.index[left] < t.index[e] &&
             shift > 0.0
    requires MovedTo(h, h', left, e, shift) && i + 1 < |t.children[t.parent[e]]| && i + 1 <= t.index[e]
    ensures var w := t.parent[e];
            PlaceOf(t, h', w, i + 1) - PlaceOf(t, h', w, i) >= PlaceOf(t, h, w, i + 1) - PlaceOf(t, h, w, i)
  {
    var w := t.parent[e];
    ParentIndex(t, w, left);
    ParentIndex(t, w, e);
    var m := Move(t.index[left], t.index[e], shift);
    NotedSiblings(t, h, h', w, left, e, shift);
    PlaceIsExecuted(t, h, w, i);
    PlaceIsExecuted(t, h, w, i + 1);
    PlaceIsExecuted(t, h', w, i);
    PlaceIsExecuted(t, h', w, i + 1);
    hide Noted, Pending, MovedTo, LazyShifts.Executed, PlaceOf, Tree.Valid;
    NeighboursSpread(SiblingsOf(t, h, w), m, i);
  }

  lemma ParentIndex(t: Tree, w: nat, c: nat)
    requires t.Valid() && t.Node(w) && c in t.children[w]
    ensures t.index[c] < |t.children[w]| && t.children[w][t.index[c]] == c
  {
    assert t.Tiled(w);
    var i :| 0 <= i < |t.children[w]| && t.children[w][i] == c;
  }

  lemma PlaceIsExecuted(t: Tree, h: seq<Hier>, w: nat, i: nat)
    requires t.Valid() && w < |h| == t.Size() && i < |t.children[w]|
    ensures PlaceOf(t, h, w, i) == LazyShifts.Executed(SiblingsOf(t, h, w))[i].prelim
  {
  }

  /** moveSubtree on the records is a noted move on the list of siblings. */
  lemma NotedSiblings(t: Tree, h: seq<Hier>, h': seq<Hier>, w: nat, left: nat, e: nat, shift: real)
    requires t.Valid() && w < |h| == t.Size() && left in t.children[w] && e in t.children[w] &&
             t.index[left] < t.index[e] < |t.children[w]|
    requires forall x :: 0 <= x < t.Size() ==> h[x].i == t.index[x]
    requires t.children[w][t.index[e]] == e && t.children[w][t.index[left]] == left
    requires MovedTo(h, h', left, e, shift)
    ensures |h'| == |h|
    ensures SiblingsOf(t, h', w) == Noted(SiblingsOf(t, h, w), Move(t.index[left], t.index[e], shift))
  {
    assert t.Tiled(w);
    var s, s' := SiblingsOf(t, h, w), Noted(SiblingsOf(t, h, w), Move(t.index[left], t.index[e], shift));
    forall i | 0 <= i < |s|
      ensures SiblingsOf(t, h', w)[i] == s'[i]
    {
      assert t.index[t.children[w][i]] == i;
    }
  }

  lemma FrameAncestor(t: Tree, h0: seq<Hier>, h: seq<Hier>, e: nat, x: nat)
    requires t.Valid() && t.Node(e) && t.Node(t.parent[e]) && PlacedFrame(t, h0, h, e)
    requires t.first[t.parent[e]] <= t.first[e] <= x <= e
    ensures PlacedFrame(t, h0, h[x := h[x].(ancestor := e)], e)
    ensures SameThreads(h0, h) ==> SameThreads(h0, h[x := h[x].(ancestor := e)])
  {
  }

  /** The effect of moveSubtree on the records. */
  ghost predicate MovedTo(h: seq<Hier>, h': seq<Hier>, left: nat, right: nat, shift: real)
    requires left < |h| && right < |h| && h[left].i < h[right].i
  {
    var n := shift / (h[right].i - h[left].i) as real;
    && |h'| == |h|
    && (forall x :: 0 <= x < |h| && x != left && x != right ==> h'[x] == h[x])
    && h'[left] == h[left].(change := h[left].change + n)
    && h'[right] == h[right].(change := h[right].change - n, shift := h[right].shift + shift,
                              modifier := h[right].modifier + shift, prelim := h[right].prelim + shift)
  }

  lemma FrameMove(t: Tree, h0: seq<Hier>, h: seq<Hier>, h': seq<Hier>, e: nat, left: nat, shift: real)
    requires t.Valid() && t.Node(e) && t.Node(t.parent[e]) && PlacedFrame(t, h0, h, e)
    requires t.first[t.parent[e]] <= left < e && h[left].i < h[e].i && MovedTo(h, h', left, e, shift)
    ensures PlacedFrame(t, h0, h', e)
    ensures SameThreads(h0, h) ==> SameThreads(h0, h')
  {
  }

  lemma FrameThread(t: Tree, h0: seq<Hier>, h: seq<Hier>, e: nat, x: nat, next: Option<nat>, modifier: real)
    requires t.Valid() && t.Node(e) && t.Node(t.parent[e]) && PlacedFrame(t, h0, h, e)
    requires t.first[t.parent[e]] <= x <= e && t.children[x] == []
    ensures PlacedFrame(t, h0, h[x := h[x].(thread := next, modifier := modifier)], e)
  {
  }

  // ---------------------------------------------------------------------------------
  // What the children-first walk keeps

  /** An expanded inner node sits midway between its first and last child, relative to them. */
  ghost predicate Centred(t: Tree, h: seq<Hier>, v: nat)
    requires t.Valid() && v < |h| == t.Size() && t.children[v] != []
  {
    var c := t.children[v];
    h[v].prelim - h[v].modifier == (h[c[0]].prelim + h[c[|c| - 1]].prelim) / 2.0
  }

  ghost predicate Untouched(r: Hier, v: nat) {
    r.ancestor == v && r.prelim == r.modifier == r.change == r.shift == 0.0 && r.thread == None
  }

  /** The default ancestor of w is unset until its first child is walked, then one of the walked children. */
  ghost predicate DefaultOk(t: Tree, h: seq<Hier>, w: nat, k: nat)
    requires t.Valid() && w < |h| == t.Size()
  {
    match h[w].defaultAncestor
    case None => t.children[w] != [] ==> t.children[w][0] >= k
    case Some(x) => x < k && x in t.children[w]
  }

  /** q is the last child of w among the nodes below k. */
  ghost predicate WalkedUpTo(t: Tree, w: nat, q: nat, k: nat)
    requires t.Valid() && t.Node(w)
  {
    q < |t.children[w]| && t.children[w][q] < k && (q + 1 < |t.children[w]| ==> t.children[w][q + 1] >= k)
  }

  /** The records when the nodes below k have been walked. */
  ghost predicate Walked(t: Tree, h: seq<Hier>, k: nat)
    requires t.Valid()
  {
    && |h| == t.Size() && k < t.Size() && t.first[t.Size() - 1] == 0
    && (forall v :: 0 <= v < t.Size() ==> h[v].i == t.index[v])
    && (forall v :: k <= v < t.Size() ==> Untouched(h[v], v) && DefaultOk(t, h, v, k))
    && (forall v :: 0 <= v < k ==> h[v].ancestor < k && t.Under(v, h[v].ancestor))
    && (forall v {:trigger Centred(t, h, v)} :: 0 <= v < k && t.children[v] != [] ==> Centred(t, h, v))
  }

  /** Every node whose children are being walked has the contours of their forest. */
  ghost predicate Contours(t: Tree, h: seq<Hier>, k: nat, left: map<nat, seq<nat>>, right: map<nat, seq<nat>>)
    requires t.Valid() && |h| == t.Size()
  {
    forall w, q {:trigger WalkedUpTo(t, w, q, k)} :: k <= w < t.Size() && 0 <= q && WalkedUpTo(t, w, q, k) ==>
      w in left && w in right && Forest(t, h, left[w], right[w], t.first[w], t.children[w][0], t.children[w][q])
  }

  ghost function Shifted(r: Hier, amount: real): Hier {
    r.(prelim := r.prelim + amount, modifier := r.modifier + amount)
  }

  /** The records after the pending shifts of e's children have been executed. */
  ghost predicate ShiftsExecuted(t: Tree, h: seq<Hier>, h': seq<Hier>, e: nat)
    requires t.Valid() && e < |h| == t.Size()
  {
    && |h'| == |h|
    && (forall x :: 0 <= x < |h| && x !in t.children[e] ==> h'[x] == h[x])
    && (forall j :: 0 <= j < |t.children[e]| ==>
          h'[t.children[e][j]] == Shifted(h[t.children[e][j]], Pending(SiblingsOf(t, h, e), j)))
  }

  /** e has its place relative to its children and its left sibling. */
  ghost predicate Positioned(t: Tree, h: seq<Hier>, h1: seq<Hier>, e: nat)
    requires t.Valid() && t.Node(e)
  {
    && |h| == |h1| == t.Size()
    && (forall x :: 0 <= x < |h| && x != e && x !in t.children[e] ==> h1[x] == h[x])
    && (forall x :: 0 <= x < |h| && x in t.children[e] ==>
          && h1[x] == h[x].(prelim := h1[x].prelim, modifier := h1[x].modifier)
          && h1[x].prelim - h1[x].modifier == h[x].prelim - h[x].modifier)
    && h1[e] == h[e].(prelim := h1[e].prelim, modifier := h1[e].modifier)
    && (t.children[e] != [] ==> Centred(t, h1, e))
  }

  /** Every node but the root is a child of its parent. */
  lemma ChildOfParent(t: Tree, x: nat)
    requires t.Valid() && x < t.Size() - 1 && t.first[t.Size() - 1] == 0
    ensures x < t.parent[x] < t.Size() && t.first[t.parent[x]] <= t.first[x] && x in t.children[t.parent[x]]
    ensures t.index[x] < |t.children[t.parent[x]]| && t.children[t.parent[x]][t.index[x]] == x
  {
    t.ParentUnder(x, t.Size() - 1);
    var w := t.parent[x];
    assert t.Tiled(w);
    var i :| 0 <= i < |t.children[w]| && t.children[w][i] == x;
    t.ChildWithin(w, i);
  }

  lemma ParentOfChild(t: Tree, w: nat, c: nat)
    requires t.Valid() && t.Node(w) && c in t.children[w]
    ensures t.parent[c] == w && c < w
  {
    assert t.Tiled(w);
  }

  /** The midpoints of walked nodes survive the walk of e. */
  lemma CentredSurvives(t: Tree, h: seq<Hier>, h1: seq<Hier>, h2: seq<Hier>, e: nat, v: nat)
    requires t.Valid() && |h| == t.Size() && t.Node(e) && t.Node(t.parent[e]) && v < t.Size() && t.children[v] != [] &&
             v <= e
    requires Positioned(t, h, h1, e) && PlacedFrame(t, h1, h2, e)
    requires v < e ==> Centred(t, h, v)
    ensures Centred(t, h2, v)
  {
    var c := t.children[v];
    ParentOfChild(t, v, c[0]);
    ParentOfChild(t, v, c[|c| - 1]);
    if v < e {
      assert c[0] !in t.children[e] by {
        if c[0] in t.children[e] { ParentOfChild(t, e, c[0]); }
      }
      assert c[|c| - 1] !in t.children[e] by {
        if c[|c| - 1] in t.children[e] { ParentOfChild(t, e, c[|c| - 1]); }
      }
    }
  }

  /** The records after e has been positioned and placed, and its parent told the default ancestor. */
  ghost predicate WalkStep(t: Tree, h: seq<Hier>, h1: seq<Hier>, h2: seq<Hier>, h3: seq<Hier>, e: nat, ancestor: nat)
    requires t.Valid()
  {
    && e + 1 < t.Size() == |h| && t.Node(t.parent[e]) && e in t.children[t.parent[e]]
    && Positioned(t, h, h1, e) && PlacedFrame(t, h1, h2, e)
    && ancestor <= e && ancestor in t.children[t.parent[e]]
    && h3 == h2[t.parent[e] := h2[t.parent[e]].(defaultAncestor := Some(ancestor))]
  }

  lemma WaitingNext(t: Tree, h: seq<Hier>, h1: seq<Hier>, h2: seq<Hier>, h3: seq<Hier>, e: nat, ancestor: nat, v: nat)
    requires t.Valid() && WalkStep(t, h, h1, h2, h3, e, ancestor) && e < v < t.Size()
    requires Untouched(h[v], v) && DefaultOk(t, h, v, e)
    ensures Untouched(h3[v], v) && DefaultOk(t, h3, v, e + 1)
  {
    var w := t.parent[e];
    ParentOfChild(t, w, e);
    assert v !in t.children[e];
    assert h1[v] == h[v] && h2[v] == h1[v];
    if v != w {
      assert h3[v] == h[v];
      if t.children[v] != [] && t.children[v][0] == e {
        ParentOfChild(t, v, e);
      }
    }
  }

  lemma AncestorNext(t: Tree, h: seq<Hier>, h1: seq<Hier>, h2: seq<Hier>, h3: seq<Hier>, e: nat, ancestor: nat, v: nat)
    requires t.Valid() && WalkStep(t, h, h1, h2, h3, e, ancestor) && v <= e
    requires if v == e then h[v].ancestor == e else h[v].ancestor < e && t.Under(v, h[v].ancestor)
    ensures h3[v].ancestor < e + 1 && t.Under(v, h3[v].ancestor)
  {
    assert h1[v].ancestor == h[v].ancestor;
  }

  lemma CentredNext(t: Tree, h: seq<Hier>, h1: seq<Hier>, h2: seq<Hier>, h3: seq<Hier>, e: nat, ancestor: nat, v: nat)
    requires t.Valid() && WalkStep(t, h, h1, h2, h3, e, ancestor) && v <= e && t.children[v] != []
    requires v < e ==> Centred(t, h, v)
    ensures Centred(t, h3, v)
  {
    CentredSurvives(t, h, h1, h2, e, v);
    ParentOfChild(t, v, t.children[v][0]);
    ParentOfChild(t, v, t.children[v][|t.children[v]| - 1]);
  }

  lemma IndexNext(t: Tree, h: seq<Hier>, h1: seq<Hier>, h2: seq<Hier>, h3: seq<Hier>, e: nat, ancestor: nat, v: nat)
    requires t.Valid() && WalkStep(t, h, h1, h2, h3, e, ancestor) && v < t.Size()
    ensures |h3| == |h| && h3[v].i == h[v].i
  {
    assert h1[v].i == h[v].i;
  }

  /** The walk of e keeps the records in order. */
  lemma WalkedNext(t: Tree, h: seq<Hier>, h1: seq<Hier>, h2: seq<Hier>, h3: seq<Hier>, e: nat, ancestor: nat)
    requires t.Valid() && Walked(t, h, e) && WalkStep(t, h, h1, h2, h3, e, ancestor)
    ensures Walked(t, h3, e + 1)
  {
    IndexNext(t, h, h1, h2, h3, e, ancestor, e);
    assert e + 1 < t.Size() == |h|;
    assert Untouched(h[e], e);
    hide WalkStep, Untouched, DefaultOk, Centred;
    forall v | 0 <= v < t.Size()
      ensures h3[v].i == t.index[v]
    {
      IndexNext(t, h, h1, h2, h3, e, ancestor, v);
    }
    forall v | e + 1 <= v < t.Size()
      ensures Untouched(h3[v], v) && DefaultOk(t, h3, v, e + 1)
    {
      WaitingNext(t, h, h1, h2, h3, e, ancestor, v);
    }
    forall v | 0 <= v < e + 1
      ensures h3[v].ancestor < e + 1 && t.Under(v, h3[v].ancestor)
    {
      AncestorNext(t, h, h1, h2, h3, e, ancestor, v);
    }
    forall v | 0 <= v < e + 1 && t.children[v] != []
      ensures Centred(t, h3, v)
    {
      CentredNext(t, h, h1, h2, h3, e, ancestor, v);
    }
  }

  /** e's children have been given their pending shifts, and e stands beside its left sibling. */
  ghost predicate Beside(t: Tree, h: seq<Hier>, h1: seq<Hier>, separation: (nat, nat) -> real, e: nat)
    requires t.Valid() && t.Node(e) && t.Node(t.parent[e]) && |h| == |h1| == t.Size()
  {
    var w, j := t.parent[e], t.index[e];
    && (forall i :: 0 <= i < |t.children[e]| ==> h1[t.children[e][i]].prelim == PlaceOf(t, h, e, i))
    && (0 < j < |t.children[w]| ==>
          t.children[w][j - 1] < |h| &&
            h1[e].prelim == h1[t.children[w][j - 1]].prelim + separation(e, t.children[w][j - 1]))
  }

  /** The records a child list of w keeps through the walk of e. */
  lemma ChildrenKeepPlace(t: Tree, h: seq<Hier>, h1: seq<Hier>, e: nat, w: nat, c: nat)
    requires t.Valid() && t.Node(e) && t.Node(w) && Positioned(t, h, h1, e) && w != e && c in t.children[w] && c != e
    ensures h1[c] == h[c]
  {
    ParentOfChild(t, w, c);
    if c in t.children[e] {
      ParentOfChild(t, e, c);
    }
  }

  lemma SpreadAt(t: Tree, h0: seq<Hier>, h: seq<Hier>, e: nat, i: nat)
    requires t.Valid() && t.Node(e) && t.Node(t.parent[e]) && |h| == |h0| == t.Size() && SpreadFrame(t, h0, h, e)
    requires i + 1 < |t.children[t.parent[e]]| && i + 1 <= t.index[e]
    ensures var w := t.parent[e];
            PlaceOf(t, h, w, i + 1) - PlaceOf(t, h, w, i) >= PlaceOf(t, h0, w, i + 1) - PlaceOf(t, h0, w, i)
  {
    hide PlaceOf;
  }

  lemma JoinedApart(t: Tree, h: seq<Hier>, h1: seq<Hier>, separation: (nat, nat) -> real, e: nat)
    requires t.Valid() && Walked(t, h, e) && Positioned(t, h, h1, e) && t.Node(e) && t.Node(t.parent[e]) &&
             |h| == |h1| == t.Size()
    requires Beside(t, h, h1, separation, e) && e in t.children[t.parent[e]] && t.index[e] > 0
    ensures var w, j := t.parent[e], t.index[e];
            j < |t.children[w]| && t.children[w][j] == e &&
            PlaceOf(t, h1, w, j) - PlaceOf(t, h1, w, j - 1) == separation(e, t.children[w][j - 1])
  {
    var w, j := t.parent[e], t.index[e];
    ParentIndex(t, w, e);
    hide Walked, PlaceOf, Positioned, Tree.Valid;
    ZeroFrom(t, h, h1, e, j - 1);
    ZeroFrom(t, h, h1, e, j);
  }

  lemma StepFacts(t: Tree, h: seq<Hier>, h1: seq<Hier>, h2: seq<Hier>, h3: seq<Hier>, e: nat, ancestor: nat)
    requires t.Valid() && WalkStep(t, h, h1, h2, h3, e, ancestor)
    ensures |h| == |h1| == |h2| == |h3| == t.Size() && t.Node(e) && t.Node(t.parent[e]) && e in t.children[t.parent[e]]
    ensures Positioned(t, h, h1, e) && h3 == h2[t.parent[e] := h2[t.parent[e]].(defaultAncestor := Some(ancestor))]
  {
  }

  /** Nothing is noted yet at e and right of it. */
  lemma ZeroFrom(t: Tree, h: seq<Hier>, h1: seq<Hier>, e: nat, i: nat)
    requires t.Valid() && Walked(t, h, e) && Positioned(t, h, h1, e) && t.Node(t.parent[e]) &&
             e in t.children[t.parent[e]]
    requires i <= t.index[e] <= i + 1 && i < |t.children[t.parent[e]]|
    ensures PlaceOf(t, h1, t.parent[e], i) == h1[t.children[t.parent[e]][i]].prelim
  {
    var w := t.parent[e];
    ParentOfChild(t, w, e);
    ParentIndex(t, w, e);
    forall j | i < j < |t.children[w]|
      ensures h1[t.children[w][j]].change == 0.0 && h1[t.children[w][j]].shift == 0.0
    {
      var c := t.children[w][j];
      if j > t.index[e] {
        t.ChildrenOrdered(w, t.index[e], j);
        ChildrenKeepPlace(t, h, h1, e, w, c);
      }
      assert Untouched(h[c], c);
    }
    PendingZero(SiblingsOf(t, h1, w), i);
  }

  /** Nodes of a forest that belongs to another node being walked lie left of e's siblings. */
  lemma OtherForestApart(t: Tree, e: nat, w: nat, q: nat)
    requires t.Valid() && e + 1 < t.Size() && t.first[t.Size() - 1] == 0
    requires e < w < t.Size() && w != t.parent[e] && WalkedUpTo(t, w, q, e + 1)
    ensures WalkedUpTo(t, w, q, e)
    ensures t.Node(t.parent[e]) && t.children[w][q] < t.first[t.parent[e]]
  {
    ChildOfParent(t, e);
    ParentOfChild(t, w, t.children[w][q]);
    assert t.Tiled(w);
    if q + 1 < |t.children[w]| {
      ParentOfChild(t, w, t.children[w][q + 1]);
    }
    t.ChildWithin(w, q);
    var i := t.ChildAbove(e, w, |t.children[w]| - 1);
    var x := t.children[w][i];
    ParentOfChild(t, w, x);
    if i <= q {
      if i < q {
        t.ChildrenOrdered(w, i, q);
        t.ChildWithin(w, q);
      }
      assert false;
    }
    t.ChildrenOrdered(w, q, i);
    t.ParentUnder(e, x);
  }

  /** Node s can be charged for a conflict: its ancestor field names a node above it. */
  ghost predicate Blamable(t: Tree, h: seq<Hier>, s: nat)
    requires t.Valid() && s < |h| == t.Size()
  {
    var a := h[s].ancestor;
    t.Node(a) && t.Under(s, a) && t.Node(t.parent[a]) && a in t.children[t.parent[a]]
  }

  /** Every walked node can be charged for a conflict. */
  lemma WalkedBlamable(t: Tree, h: seq<Hier>, h1: seq<Hier>, e: nat, s: nat)
    requires t.Valid() && Walked(t, h, e) && e + 1 < t.Size() && |h1| == |h| && s <= e &&
             h1[s].ancestor == h[s].ancestor
    ensures Blamable(t, h1, s)
  {
    ChildOfParent(t, h[s].ancestor);
  }

  lemma ChildFirst(t: Tree, w: nat, c: nat)
    requires t.Valid() && t.Node(w) && c in t.children[w]
    ensures t.first[w] <= t.first[c] <= c < w && t.parent[c] == w
  {
    var i :| 0 <= i < |t.children[w]| && t.children[w][i] == c;
    assert t.Tiled(w);
    t.ChildWithin(w, i);
  }

  /** A step leaves the records left of the parent's subtree alone. */
  lemma LeftOfStep(t: Tree, h: seq<Hier>, h1: seq<Hier>, h2: seq<Hier>, h3: seq<Hier>, e: nat, ancestor: nat)
    requires t.Valid() && |h| == t.Size() && WalkStep(t, h, h1, h2, h3, e, ancestor) && t.first[t.Size() - 1] == 0
    ensures |h3| == |h| && forall x :: 0 <= x < t.first[t.parent[e]] ==> h3[x] == h[x]
  {
    ChildOfParent(t, e);
    forall x | 0 <= x < t.first[t.parent[e]]
      ensures h3[x] == h[x]
    {
      assert x !in t.children[e] by {
        if x in t.children[e] {
          ChildFirst(t, e, x);
        }
      }
      assert h1[x] == h[x] && h2[x] == h1[x];
    }
  }

  lemma LastWalkedIs(t: Tree, w: nat, q: nat, e: nat)
    requires t.Valid() && t.Node(w) && e in t.children[w] && WalkedUpTo(t, w, q, e + 1)
    ensures t.children[w][q] == e
  {
    var i :| 0 <= i < |t.children[w]| && t.children[w][i] == e;
    if q < i - 1 {
      t.ChildrenOrdered(w, q + 1, i);
    } else if i < q {
      t.ChildrenOrdered(w, i, q);
    }
  }
}
