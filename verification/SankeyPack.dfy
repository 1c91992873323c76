/** The collision resolver of the sankey layout, function `x` of module "81ac", on one layer:
    a forward push, and a backward push when the last node sticks out. Positions and sizes are
    those across the flow (y and dy when it is horizontal, x and dx when it is vertical). */
module SankeyPack {

  /** Where node i may start at the earliest if all nodes before it are packed. */
  ghost function Floor(size: seq<real>, gap: real, i: nat): real
    requires i <= |size|
  {
    if i == 0 then 0.0 else Floor(size, gap, i - 1) + size[i - 1] + gap
  }

  lemma {:induction false} FloorNonNegative(size: seq<real>, gap: real, i: nat)
    requires i <= |size| && gap >= 0.0 && forall k :: 0 <= k < |size| ==> size[k] >= 0.0
    ensures Floor(size, gap, i) >= 0.0
  {
    if i > 0 {
      FloorNonNegative(size, gap, i - 1);
    }
  }

  /** Node j does not start before the end of the node before it plus the gap. */
  ghost predicate Clear(pos: seq<real>, size: seq<real>, gap: real, j: nat)
    requires |pos| == |size| && 0 < j < |pos|
  {
    pos[j] >= pos[j - 1] + size[j - 1] + gap
  }

  ghost predicate Apart(pos: seq<real>, size: seq<real>, gap: real)
    requires |pos| == |size|
  {
    forall j {:trigger Clear(pos, size, gap, j)} :: 0 < j < |pos| ==> Clear(pos, size, gap, j)
  }

  ghost predicate Inside(pos: seq<real>, size: seq<real>, extent: real)
    requires |pos| == |size|
  {
    forall i :: 0 <= i < |pos| ==> 0.0 <= pos[i] && pos[i] + size[i] <= extent
  }

  /** Nodes and gaps have room in the extent. */
  ghost predicate Fits(size: seq<real>, gap: real, extent: real) {
    && (forall i :: 0 <= i < |size| ==> size[i] >= 0.0)
    && (size != [] ==> Floor(size, gap, |size| - 1) + size[|size| - 1] <= extent)
  }

  ghost predicate AboveFloor(pos: seq<real>, size: seq<real>, gap: real)
    requires |pos| == |size|
  {
    forall i :: 0 <= i < |pos| ==> pos[i] >= Floor(size, gap, i)
  }

  /** The first nodes are apart and above their floors. */
  ghost predicate Pushed(pos: seq<real>, size: seq<real>, gap: real, h: nat)
    requires |pos| == |size| && h <= |pos|
  {
    && (forall j {:trigger Clear(pos, size, gap, j)} :: 0 < j < h ==> Clear(pos, size, gap, j))
    && (forall i :: 0 <= i < h ==> pos[i] >= Floor(size, gap, i))
  }

  lemma PushedNext(pos: seq<real>, size: seq<real>, gap: real, h: nat, x: real)
    requires |pos| == |size| && h < |pos| && Pushed(pos, size, gap, h)
    requires x >= if h == 0 then 0.0 else pos[h - 1] + size[h - 1] + gap
    ensures Pushed(pos[h := x], size, gap, h + 1)
  {
    var after := pos[h := x];
    forall j | 0 < j < h + 1
      ensures Clear(after, size, gap, j)
    {
      assert j < h ==> Clear(pos, size, gap, j);
    }
    assert h > 0 ==> pos[h - 1] >= Floor(size, gap, h - 1);
  }

  /** Positions a gap apart, from 0 on, and none above where its node was. */
  ghost predicate Lower(pos0: seq<real>, size: seq<real>, gap: real, pos: seq<real>)
    requires |pos0| == |size|
  {
    && |pos| == |size| && Apart(pos, size, gap) && (pos != [] ==> pos[0] >= 0.0)
    && forall i :: 0 <= i < |pos| ==> pos[i] >= pos0[i]
  }

  /** Every node is pushed to the first place that is free, and no farther. */
  ghost predicate LeastLower(pos0: seq<real>, size: seq<real>, gap: real, pos: seq<real>)
    requires |pos0| == |size|
  {
    && Lower(pos0, size, gap, pos)
    && forall other :: Lower(pos0, size, gap, other) ==> forall i :: 0 <= i < |pos| ==> pos[i] <= other[i]
  }

  ghost predicate LeastTo(pos0: seq<real>, size: seq<real>, gap: real, pos: seq<real>, h: nat)
    requires |pos0| == |size| == |pos| && h <= |pos|
  {
    && (forall i :: 0 <= i < h ==> pos[i] >= pos0[i]) && (h > 0 ==> pos[0] >= 0.0)
    && forall other :: Lower(pos0, size, gap, other) ==> forall i :: 0 <= i < h ==> pos[i] <= other[i]
  }

  lemma {:induction false} LeastNext(pos0: seq<real>, size: seq<real>, gap: real, pos: seq<real>, h: nat, x: real)
    requires |pos0| == |size| == |pos| && h < |pos| && LeastTo(pos0, size, gap, pos, h)
    requires var end := if h == 0 then 0.0 else pos[h - 1] + size[h - 1] + gap;
             x == if pos0[h] < end then end else pos0[h]
    ensures LeastTo(pos0, size, gap, pos[h := x], h + 1)
  {
    forall other | Lower(pos0, size, gap, other)
      ensures forall i :: 0 <= i < h + 1 ==> pos[h := x][i] <= other[i]
    {
      assert h > 0 ==> Clear(other, size, gap, h);
    }
  }

  /** Positions a gap apart, none below where its node was, the last one ending inside the extent. */
  ghost predicate Higher(pos0: seq<real>, size: seq<real>, gap: real, extent: real, pos: seq<real>)
    requires |pos0| == |size|
  {
    && |pos| == |size| && Apart(pos, size, gap)
    && (pos != [] ==> pos[|pos| - 1] + size[|pos| - 1] <= extent)
    && forall i :: 0 <= i < |pos| ==> pos[i] <= pos0[i]
  }

  /** Every node is pulled back to the last place that is free, and no farther. */
  ghost predicate GreatestHigher(pos0: seq<real>, size: seq<real>, gap: real, extent: real, pos: seq<real>)
    requires |pos0| == |size|
  {
    && Higher(pos0, size, gap, extent, pos)
    && forall other :: Higher(pos0, size, gap, extent, other) ==> forall i :: 0 <= i < |pos| ==> other[i] <= pos[i]
  }

  ghost predicate GreatestFrom(pos0: seq<real>, size: seq<real>, gap: real, extent: real, pos: seq<real>, h: nat)
    requires |pos0| == |size| == |pos| && h <= |pos|
  {
    && (forall i :: h <= i < |pos| ==> pos[i] <= pos0[i])
    && forall other :: Higher(pos0, size, gap, extent, other) ==> forall i :: h <= i < |pos| ==> other[i] <= pos[i]
  }

  lemma {:induction false} GreatestNext(pos0: seq<real>, size: seq<real>, gap: real, extent: real, pos: seq<real>,
                                        h: nat, x: real)
    requires |pos0| == |size| == |pos| && h < |pos| && GreatestFrom(pos0, size, gap, extent, pos, h + 1)
    requires var edge := if h == |pos| - 1 then extent else pos[h + 1] - gap;
             x == if pos0[h] + size[h] > edge then edge - size[h] else pos0[h]
    ensures GreatestFrom(pos0, size, gap, extent, pos[h := x], h)
  {
    forall other | Higher(pos0, size, gap, extent, other)
      ensures forall i :: h <= i < |pos| ==> other[i] <= pos[h := x][i]
    {
      assert h < |pos| - 1 ==> Clear(other, size, gap, h + 1);
    }
  }

  /** What the resolver does: it pushes on to the first free places, and what sticks out then back again. */
  ghost predicate Settled(pos0: seq<real>, size: seq<real>, gap: real, extent: real, pos: seq<real>)
    requires |pos0| == |size|
  {
    exists pushed :: LeastLower(pos0, size, gap, pushed) && GreatestHigher(pushed, size, gap, extent, pos)
  }

  /** Forward push: every node starts at or below the end of the one before it plus the gap. */
  method PushForward(pos0: seq<real>, size: seq<real>, gap: real) returns (pos: seq<real>, end: real)
    requires |pos0| == |size|
    ensures |pos| == |size| && Apart(pos, size, gap) && AboveFloor(pos, size, gap)
    ensures end == if pos == [] then 0.0 else pos[|pos| - 1] + size[|pos| - 1] + gap
    ensures Apart(pos0, size, gap) && (pos0 != [] ==> pos0[0] >= 0.0) ==> pos == pos0
    ensures LeastLower(pos0, size, gap, pos)
  {
    pos, end := pos0, 0.0;
    ghost var packed := Apart(pos0, size, gap) && (pos0 != [] ==> pos0[0] >= 0.0);
    for h := 0 to |size|
      invariant |pos| == |size| && Pushed(pos, size, gap, h) && (forall k :: h <= k < |size| ==> pos[k] == pos0[k])
      invariant end == if h == 0 then 0.0 else pos[h - 1] + size[h - 1] + gap
      invariant packed ==> pos == pos0
      invariant LeastTo(pos0, size, gap, pos, h)
    {
      hide Pushed, LeastTo;
      assert packed && h > 0 ==> Clear(pos0, size, gap, h);
      var overlap := end - pos[h];
      PushedNext(pos, size, gap, h, if overlap > 0.0 then pos[h] + overlap else pos[h]);
      LeastNext(pos0, size, gap, pos, h, if overlap > 0.0 then pos[h] + overlap else pos[h]);
      assert pos[h := pos[h]] == pos;
      if overlap > 0.0 {
        pos := pos[h := pos[h] + overlap];
      }
      end := pos[h] + size[h] + gap;
    }
  }

  /** Backward push: a last node that sticks out is pulled to the edge, and the ones before it make
      room; nobody falls below its floor. */
  method PushBackward(pos0: seq<real>, size: seq<real>, gap: real, extent: real, end: real) returns (pos: seq<real>)
    requires |pos0| == |size| && Apart(pos0, size, gap)
    requires end == if pos0 == [] then 0.0 else pos0[|pos0| - 1] + size[|pos0| - 1] + gap
    ensures |pos| == |size| && Apart(pos, size, gap)
    ensures AboveFloor(pos0, size, gap) && Fits(size, gap, extent) ==> AboveFloor(pos, size, gap)
    ensures pos0 != [] ==> pos[|pos| - 1] + size[|pos| - 1] <= extent
    ensures pos0 != [] && end - gap <= extent ==> pos == pos0
    ensures GreatestHigher(pos0, size, gap, extent, pos)
  {
    pos := pos0;
    var overlap := end - gap - extent;
    if pos != [] && overlap > 0.0 {
      var last := |pos| - 1;
      ghost var floors := AboveFloor(pos0, size, gap) && Fits(size, gap, extent);
      GreatestNext(pos0, size, gap, extent, pos, last, pos[last] - overlap);
      pos := pos[last := pos[last] - overlap];
      var edge, h := pos[last], last;
      while h > 0
        invariant 0 <= h <= last && |pos| == |size| && edge == pos[h]
        invariant forall k :: 0 <= k < h ==> pos[k] == pos0[k]
        invariant forall j {:trigger Clear(pos, size, gap, j)} :: h < j < |pos| ==> Clear(pos, size, gap, j)
        invariant pos[last] + size[last] == extent
        invariant floors ==> forall i :: 0 <= i < |pos| ==> pos[i] >= Floor(size, gap, i)
        invariant GreatestFrom(pos0, size, gap, extent, pos, h)
      {
        hide GreatestFrom;
        h := h - 1;
        ghost var before := pos;
        overlap := pos[h] + size[h] + gap - edge;
        GreatestNext(pos0, size, gap, extent, pos, h, if overlap > 0.0 then pos[h] - overlap else pos[h]);
        assert pos[h := pos[h]] == pos;
        if overlap > 0.0 {
          pos := pos[h := pos[h] - overlap];
        }
        edge := pos[h];
        forall j | h < j < |pos|
          ensures Clear(pos, size, gap, j)
        {
          assert h + 1 < j ==> Clear(before, size, gap, j);
        }
      }
    }
  }

  /** A layer that is apart, above its floors and ends inside the extent lies inside it. */
  lemma {:induction false} InsideExtent(pos: seq<real>, size: seq<real>, gap: real, extent: real, i: nat)
    requires |pos| == |size| && gap >= 0.0 && Fits(size, gap, extent) && Apart(pos, size, gap) &&
             AboveFloor(pos, size, gap)
    requires pos != [] ==> pos[|pos| - 1] + size[|pos| - 1] <= extent
    requires i < |pos|
    ensures 0.0 <= pos[i] && pos[i] + size[i] <= extent
    decreases |pos| - i
  {
    FloorNonNegative(size, gap, i);
    if i + 1 < |pos| {
      InsideExtent(pos, size, gap, extent, i + 1);
      assert Clear(pos, size, gap, i + 1);
    }
  }

  /** Nodes and gaps that fill the extent leave no choice: every node is at its floor. */
  lemma {:induction false} FilledAtFloor(pos: seq<real>, size: seq<real>, gap: real, extent: real, i: nat)
    requires |pos| == |size| > 0 && Apart(pos, size, gap) && Inside(pos, size, extent)
    requires Floor(size, gap, |size| - 1) + size[|size| - 1] == extent && i < |pos|
    ensures pos[i] == Floor(size, gap, i)
  {
    NotBelowFloor(pos, size, gap, extent, i);
    NotAboveFloor(pos, size, gap, extent, i);
  }

  lemma {:induction false} NotBelowFloor(pos: seq<real>, size: seq<real>, gap: real, extent: real, i: nat)
    requires |pos| == |size| > 0 && Apart(pos, size, gap) && Inside(pos, size, extent) && i < |pos|
    ensures pos[i] >= Floor(size, gap, i)
  {
    if i > 0 {
      NotBelowFloor(pos, size, gap, extent, i - 1);
      assert Clear(pos, size, gap, i);
    }
  }

  lemma {:induction false} NotAboveFloor(pos: seq<real>, size: seq<real>, gap: real, extent: real, i: nat)
    requires |pos| == |size| > 0 && Apart(pos, size, gap) && Inside(pos, size, extent)
    requires Floor(size, gap, |size| - 1) + size[|size| - 1] == extent && i < |pos|
    ensures pos[i] <= Floor(size, gap, i)
    decreases |pos| - i
  {
    if i + 1 < |pos| {
      NotAboveFloor(pos, size, gap, extent, i + 1);
      assert Clear(pos, size, gap, i + 1);
    }
  }

  /** The resolver on the nodes of one layer, in order of position. */
  method Resolve(pos0: seq<real>, size: seq<real>, gap: real, extent: real) returns (pos: seq<real>)
    requires |pos0| == |size| && gap >= 0.0
    ensures |pos| == |size| && Apart(pos, size, gap)
    ensures Fits(size, gap, extent) ==> Inside(pos, size, extent)
    ensures Apart(pos0, size, gap) && Inside(pos0, size, extent) ==> pos == pos0
    ensures Settled(pos0, size, gap, extent, pos)
  {
    hide LeastLower, GreatestHigher;
    var pushed, end := PushForward(pos0, size, gap);
    pos := PushBackward(pushed, size, gap, extent, end);
    if Fits(size, gap, extent) {
      forall i | 0 <= i < |pos|
        ensures 0.0 <= pos[i] && pos[i] + size[i] <= extent
      {
        InsideExtent(pos, size, gap, extent, i);
      }
    }
  }
}
