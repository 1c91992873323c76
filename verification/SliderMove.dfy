/** Moving a zoom window or one of its handles, module "ef6a". */
module SliderMove {
  import opened Collections
  import opened RealSums

  /** A handle by its index, or the whole window. */
  datatype Grip = Handle(index: nat) | All

  function Abs(x: real): real { if x >= 0.0 then x else -x }

  /** Into the bounds, as far as there are any; the upper one wins. */
  function Clamp(x: real, low: Option<real>, high: Option<real>): real {
    var atLeast := if low.Some? then Max(low.value, x) else x;
    if high.Some? then Min(high.value, atLeast) else atLeast
  }

  /** On which side the other handle lies; where both coincide, as their indices go. */
  datatype Side = Above | Below {
    /** So far towards that side. */
    function Towards(distance: real): real { if Above? then distance else -distance }
  }

  function SideOf(handle: real, other: real, index: nat): Side {
    if handle > other then Below else if handle < other then Above else if index == 1 then Below else Above
  }

  /** The least span asked for, cut down to the extent. */
  function LeastSpan(minSpan: Option<real>, extent: (real, real)): Option<real> {
    if minSpan.Some? then Some(Clamp(minSpan.value, Some(0.0), Some(extent.1 - extent.0))) else None
  }

  /** The greatest span asked for, not below the least. */
  function GreatestSpan(minSpan: Option<real>, maxSpan: Option<real>, extent: (real, real)): Option<real> {
    if maxSpan.None? then None
    else Some(Max(maxSpan.value, if minSpan.Some? then LeastSpan(minSpan, extent).value else 0.0))
  }

  /** The width a window keeps when it is dragged as a whole. */
  function Width(t0: real, t1: real, extent: (real, real), minSpan: Option<real>, maxSpan: Option<real>): real {
    Clamp(Clamp(Abs(t1 - t0), Some(0.0), Some(extent.1 - extent.0)), LeastSpan(minSpan, extent),
          GreatestSpan(minSpan, maxSpan, extent))
  }

  ghost predicate Within(x: real, extent: (real, real)) {
    extent.0 <= x <= extent.1
  }

  function IntoExtent(x: real, extent: (real, real)): real { Clamp(x, Some(extent.0), Some(extent.1)) }

  /** Where a handle may go: in the extent, with room for the least span on the side of the other one. */
  ghost predicate Allowed(x: real, side: Side, least: real, extent: (real, real)) {
    if side.Below? then extent.0 + least <= x <= extent.1 else extent.0 <= x <= extent.1 - least
  }

  function Bounded(x: real, side: Side, least: real, extent: (real, real)): real {
    if side.Below? then Clamp(x, Some(extent.0 + least), Some(extent.1))
      else Clamp(x, Some(extent.0), Some(extent.1 - least))
  }

  /** The handle goes as near to the target as it may. */
  lemma BoundedIsNearest(x: real, side: Side, least: real, extent: (real, real), z: real)
    requires 0.0 <= least <= extent.1 - extent.0 && Allowed(z, side, least, extent)
    ensures Allowed(Bounded(x, side, least, extent), side, least, extent)
    ensures Abs(Bounded(x, side, least, extent) - x) <= Abs(z - x)
  {
  }

  ghost function Span(least: Option<real>): real { if least.Some? then least.value else 0.0 }

  /** The other handle stays where it is, or comes as near as the greatest span wants it, on its own side. */
  ghost predicate Pulled(h: real, k0: real, greatest: Option<real>, k: real) {
    && (greatest.Some? && k0 - h > greatest.value ==> k == h + greatest.value)
    && (greatest.Some? && h - k0 > greatest.value ==> k == h - greatest.value)
    && ((greatest.Some? ==> -greatest.value <= k0 - h <= greatest.value) ==> k == k0)
  }

  /** What a move leaves of two handles: h was moved by delta, k is the other one. */
  ghost predicate MovedFrom(h0: real, k0: real, o: nat, delta: real, extent: (real, real), least: Option<real>,
                            greatest: Option<real>, h: real, k: real) {
    var side := SideOf(h0, k0, o);
    && h == Bounded(h0 + delta, side, Span(least), extent)
    && (least.Some? ==> side.Towards(k - h) >= least.value)
    && (greatest.Some? ==> Abs(k - h) <= greatest.value)
    && (least.None? ==>
        (side.Towards(k - h) >= 0.0 <==>
         side.Towards(k0 - IntoExtent(h0 + delta, extent)) >= 0.0 || greatest == Some(0.0)))
    && (side.Towards(k0 - h) >= Span(least) && (greatest.Some? ==> Abs(k0 - h) <= greatest.value) ==> k == k0)
    && (least.Some? && side.Towards(k0 - h) <= least.value ==> k == h + side.Towards(least.value))
    && (greatest.Some? && side.Towards(k0 - h) > greatest.value ==> k == h + side.Towards(greatest.value))
    && (least.None? ==> Pulled(h, k0, greatest, k))
  }

  /** The handle moved, then the other one pushed or pulled along; least and greatest are normalised. */
  method MoveHandle(ends: array<real>, o: nat, delta: real, extent: (real, real), least: Option<real>,
                    greatest: Option<real>)
    requires ends.Length == 2 && o < 2 && extent.0 <= extent.1
    requires least.Some? ==> 0.0 <= least.value <= extent.1 - extent.0
    requires greatest.Some? ==> 0.0 <= greatest.value && (least.Some? ==> least.value <= greatest.value)
    modifies ends
    ensures Within(ends[0], extent) && Within(ends[1], extent)
    ensures MovedFrom(IntoExtent(old(ends[o]), extent), IntoExtent(old(ends[1 - o]), extent), o, delta, extent, least,
                      greatest, ends[o], ends[1 - o])
  {
    hide MovedFrom, Clamp, Side.Towards, SideOf, Bounded, Abs, IntoExtent, Within;
    InExtent(ends[0], extent);
    InExtent(ends[1], extent);
    ends[0] := IntoExtent(ends[0], extent);
    ends[1] := IntoExtent(ends[1], extent);
    ghost var h0, k0 := ends[o], ends[1 - o];
    var side := SideOf(ends[o], ends[1 - o], o);
    ends[o] := ends[o] + delta;
    ends[o] := Bounded(ends[o], side, if least.Some? then least.value else 0.0, extent);
    if least.Some? && (SideOf(ends[o], ends[1 - o], o) != side || Abs(ends[o] - ends[1 - o]) < least.value) {
      ends[1 - o] := ends[o] + side.Towards(least.value);
    }
    ghost var k1 := ends[1 - o];
    if greatest.Some? && Abs(ends[o] - ends[1 - o]) > greatest.value {
      ends[1 - o] := ends[o] + SideOf(ends[o], ends[1 - o], o).Towards(greatest.value);
    }
    Moving(h0, k0, o, delta, extent, least, greatest, ends[o], k1, ends[1 - o]);
    MovingWithin(h0, k0, o, delta, extent, least, greatest, ends[o], k1, ends[1 - o]);
  }

  lemma InExtent(x: real, extent: (real, real))
    requires extent.0 <= extent.1
    ensures Within(IntoExtent(x, extent), extent)
  {
  }

  lemma Moving(h0: real, k0: real, o: nat, delta: real, extent: (real, real), least: Option<real>,
               greatest: Option<real>, h: real, k1: real, k: real)
    requires Within(h0, extent) && Within(k0, extent)
    requires least.Some? ==> 0.0 <= least.value <= extent.1 - extent.0
    requires greatest.Some? ==> 0.0 <= greatest.value && (least.Some? ==> least.value <= greatest.value)
    requires h == Bounded(h0 + delta, SideOf(h0, k0, o), Span(least), extent)
    requires k1 == if least.Some? && (SideOf(h, k0, o) != SideOf(h0, k0, o) || Abs(h - k0) < least.value)
             then h + SideOf(h0, k0, o).Towards(least.value) else k0
    requires k == if greatest.Some? && Abs(h - k1) > greatest.value then h + SideOf(h, k1, o).Towards(greatest.value)
             else k1
    ensures MovedFrom(h0, k0, o, delta, extent, least, greatest, h, k)
  {
    if least.None? {
      PulledAlong(h, k0, o, greatest, k);
    }
    hide Pulled;
  }

  lemma PulledAlong(h: real, k0: real, o: nat, greatest: Option<real>, k: real)
    requires greatest.Some? ==> 0.0 <= greatest.value
    requires k == if greatest.Some? && Abs(h - k0) > greatest.value then h + SideOf(h, k0, o).Towards(greatest.value)
             else k0
    ensures Pulled(h, k0, greatest, k)
  {
  }

  lemma MovingWithin(h0: real, k0: real, o: nat, delta: real, extent: (real, real), least: Option<real>,
                     greatest: Option<real>, h: real, k1: real, k: real)
    requires Within(h0, extent) && Within(k0, extent)
    requires least.Some? ==> 0.0 <= least.value <= extent.1 - extent.0
    requires greatest.Some? ==> 0.0 <= greatest.value && (least.Some? ==> least.value <= greatest.value)
    requires h == Bounded(h0 + delta, SideOf(h0, k0, o), Span(least), extent)
    requires k1 == if least.Some? && (SideOf(h, k0, o) != SideOf(h0, k0, o) || Abs(h - k0) < least.value)
             then h + SideOf(h0, k0, o).Towards(least.value) else k0
    requires k == if greatest.Some? && Abs(h - k1) > greatest.value then h + SideOf(h, k1, o).Towards(greatest.value)
             else k1
    ensures Within(h, extent) && Within(k, extent)
  {
  }

  lemma SpansFit(t0: real, t1: real, extent: (real, real), minSpan: Option<real>, maxSpan: Option<real>)
    requires extent.0 <= extent.1
    ensures var least, greatest := LeastSpan(minSpan, extent), GreatestSpan(minSpan, maxSpan, extent);
            && (least.Some? ==> 0.0 <= least.value <= extent.1 - extent.0)
            && (greatest.Some? ==> 0.0 <= greatest.value && (least.Some? ==> least.value <= greatest.value))
    ensures 0.0 <= Width(t0, t1, extent, minSpan, maxSpan) <= extent.1 - extent.0
  {
  }

  /** What a move of the window or a handle leaves. */
  ghost predicate Slid(t: (real, real), delta: real, extent: (real, real), grip: Grip, minSpan: Option<real>,
                       maxSpan: Option<real>, r: (real, real)) {
    var least, greatest := LeastSpan(minSpan, extent), GreatestSpan(minSpan, maxSpan, extent);
    match grip
    case Handle(o) =>
      && (least.Some? ==> Abs(r.1 - r.0) >= least.value)
      && (greatest.Some? ==> Abs(r.1 - r.0) <= greatest.value)
      && (o == 0 ==> MovedFrom(IntoExtent(t.0, extent), IntoExtent(t.1, extent), 0, delta, extent, least, greatest, r.0,
                               r.1))
      && (o == 1 ==> MovedFrom(IntoExtent(t.1, extent), IntoExtent(t.0, extent), 1, delta, extent, least, greatest, r.1,
                               r.0))
    case All =>
      var width := Width(t.0, t.1, extent, minSpan, maxSpan);
      && Abs(r.1 - r.0) == width
      && (Within(t.0, extent) && Within(t.1, extent) && Abs(t.1 - t.0) == width && Within(t.0 + delta, extent) &&
          Within(t.1 + delta, extent) ==>
            r == (t.0 + delta, t.1 + delta))
      && MovedFrom(IntoExtent(t.0, extent), IntoExtent(t.1, extent), 0, delta, extent, Some(width), Some(width), r.0,
                   r.1)
  }

  /** The width a window of two handles r ends with, for the bounds as they are asked for: at least minSpan,
      or the whole extent if that is smaller; at most maxSpan, unless the least span or 0 is greater. */
  ghost predicate SpanBounds(extent: (real, real), minSpan: Option<real>, maxSpan: Option<real>, r: (real, real)) {
    var length := extent.1 - extent.0;
    && (minSpan.Some? && minSpan.value <= length ==> r.1 - r.0 >= minSpan.value || r.0 - r.1 >= minSpan.value)
    && (minSpan.Some? && minSpan.value > length ==> r.1 - r.0 == length || r.0 - r.1 == length)
    && (maxSpan.Some? && maxSpan.value >= 0.0 &&
        (minSpan.Some? ==> minSpan.value <= maxSpan.value || length <= maxSpan.value) ==>
          -maxSpan.value <= r.1 - r.0 <= maxSpan.value)
    && (maxSpan.Some? && maxSpan.value < 0.0 && (minSpan.Some? ==> minSpan.value <= 0.0) ==> r.0 == r.1)
    && (maxSpan.Some? && minSpan.Some? && maxSpan.value < minSpan.value && 0.0 <= minSpan.value <= length ==>
          r.1 - r.0 == minSpan.value || r.0 - r.1 == minSpan.value)
  }

  /** A window t in the extent that is dragged as a whole keeps its width if that meets the bounds asked for;
      if not, it takes the bound it does not meet. */
  ghost predicate DragKeepsWidth(t: (real, real), extent: (real, real), minSpan: Option<real>, maxSpan: Option<real>,
                                 r: (real, real)) {
    var length, width := extent.1 - extent.0, if t.0 <= t.1 then t.1 - t.0 else t.0 - t.1;
    && ((minSpan.Some? ==> minSpan.value <= width || length <= width) && (maxSpan.Some? ==> width <= maxSpan.value) ==>
          r.1 - r.0 == t.1 - t.0)
    && (minSpan.Some? && width < minSpan.value <= length ==>
          r.1 - r.0 == if t.0 <= t.1 then minSpan.value else -minSpan.value)
    && (maxSpan.Some? && 0.0 <= maxSpan.value < width && (minSpan.Some? ==> minSpan.value <= maxSpan.value) ==>
          r.1 - r.0 == if t.0 <= t.1 then maxSpan.value else -maxSpan.value)
  }

  /** The bounds after they have been put right. */
  lemma {:induction false} SpansAre(extent: (real, real), minSpan: Option<real>, maxSpan: Option<real>)
    requires extent.0 <= extent.1
    ensures var least, length := LeastSpan(minSpan, extent), extent.1 - extent.0;
            && (minSpan.None? ==> least.None?)
            && (minSpan.Some? ==>
                least == Some(if minSpan.value < 0.0 then 0.0
                              else if minSpan.value > length then length else minSpan.value))
    ensures var least, greatest := LeastSpan(minSpan, extent), GreatestSpan(minSpan, maxSpan, extent);
            && (maxSpan.None? ==> greatest.None?)
            && (maxSpan.Some? && least.Some? && maxSpan.value < least.value ==> greatest == least)
            && (maxSpan.Some? && least.None? && maxSpan.value < 0.0 ==> greatest == Some(0.0))
            && (maxSpan.Some? && maxSpan.value >= (if least.Some? then least.value else 0.0) ==> greatest == maxSpan)
  {
  }

  /** The width of a window that is dragged as a whole. */
  lemma {:induction false} WidthIs(t: (real, real), extent: (real, real), minSpan: Option<real>, maxSpan: Option<real>)
    requires extent.0 <= extent.1
    ensures var least, greatest := LeastSpan(minSpan, extent), GreatestSpan(minSpan, maxSpan, extent);
            var length, w := extent.1 - extent.0, if t.0 <= t.1 then t.1 - t.0 else t.0 - t.1;
            var v := if w > length then length else w;
            var width := Width(t.0, t.1, extent, minSpan, maxSpan);
            && (least.Some? && v < least.value ==> width == least.value)
            && (greatest.Some? && v > greatest.value ==> width == greatest.value)
            && ((least.Some? ==> least.value <= v) && (greatest.Some? ==> v <= greatest.value) ==> width == v)
  {
    SpansAre(extent, minSpan, maxSpan);
    hide LeastSpan, GreatestSpan;
  }

  lemma {:induction false} SpansMean(t: (real, real), delta: real, extent: (real, real), grip: Grip,
                                     minSpan: Option<real>, maxSpan: Option<real>, r: (real, real))
    requires extent.0 <= extent.1 && Within(r.0, extent) && Within(r.1, extent)
    requires (grip.Handle? ==> grip.index < 2) && Slid(t, delta, extent, grip, minSpan, maxSpan, r)
    ensures SpanBounds(extent, minSpan, maxSpan, r)
    ensures grip.All? && Within(t.0, extent) && Within(t.1, extent) ==>
              DragKeepsWidth(t, extent, minSpan, maxSpan, r)
  {
    if grip.All? && Within(t.0, extent) && Within(t.1, extent) {
      DragWidth(t, delta, extent, minSpan, maxSpan, r);
    }
    hide MovedFrom, SpanBounds, DragKeepsWidth, LeastSpan, GreatestSpan, Width, IntoExtent;
    SpansAre(extent, minSpan, maxSpan);
    WidthIs(t, extent, minSpan, maxSpan);
    WidthInBounds(extent, minSpan, maxSpan, LeastSpan(minSpan, extent), GreatestSpan(minSpan, maxSpan, extent), r);
  }

  lemma {:induction false} WidthInBounds(extent: (real, real), minSpan: Option<real>, maxSpan: Option<real>,
                                         least: Option<real>, greatest: Option<real>, r: (real, real))
    requires Within(r.0, extent) && Within(r.1, extent)
    requires least.Some? ==> Abs(r.1 - r.0) >= least.value
    requires greatest.Some? ==> Abs(r.1 - r.0) <= greatest.value
    requires var length := extent.1 - extent.0;
             && (minSpan.None? ==> least.None?)
             && (minSpan.Some? ==>
                 least == Some(if minSpan.value < 0.0 then 0.0
                               else if minSpan.value > length then length else minSpan.value))
    requires && (maxSpan.None? ==> greatest.None?)
             && (maxSpan.Some? && least.Some? && maxSpan.value < least.value ==> greatest == least)
             && (maxSpan.Some? && least.None? && maxSpan.value < 0.0 ==> greatest == Some(0.0))
             && (maxSpan.Some? && maxSpan.value >= (if least.Some? then least.value else 0.0) ==> greatest == maxSpan)
    ensures SpanBounds(extent, minSpan, maxSpan, r)
  {
  }

  lemma {:induction false} DragWidth(t: (real, real), delta: real, extent: (real, real), minSpan: Option<real>,
                                     maxSpan: Option<real>, r: (real, real))
    requires extent.0 <= extent.1 && Within(t.0, extent) && Within(t.1, extent)
    requires Slid(t, delta, extent, All, minSpan, maxSpan, r)
    ensures DragKeepsWidth(t, extent, minSpan, maxSpan, r)
  {
  }

  /** Moves the window, or one of its handles, by delta. */
  method SliderMove(ends: array<real>, delta: Option<real>, extent: (real, real), grip: Grip, minSpan: Option<real>,
                    maxSpan: Option<real>)
    requires ends.Length == 2 && (grip.Handle? ==> grip.index < 2) && extent.0 <= extent.1
    modifies ends
    ensures Within(ends[0], extent) && Within(ends[1], extent)
    ensures Slid((old(ends[0]), old(ends[1])), if delta.Some? then delta.value else 0.0, extent, grip, minSpan, maxSpan,
                 (ends[0], ends[1]))
    ensures SpanBounds(extent, minSpan, maxSpan, (ends[0], ends[1]))
    ensures grip.All? && Within(old(ends[0]), extent) && Within(old(ends[1]), extent) ==>
              DragKeepsWidth((old(ends[0]), old(ends[1])), extent, minSpan, maxSpan, (ends[0], ends[1]))
  {
    hide MovedFrom, Width, LeastSpan, GreatestSpan, Slid, SpanBounds, DragKeepsWidth;
    var e := if delta.Some? then delta.value else 0.0;
    var least, greatest := LeastSpan(minSpan, extent), GreatestSpan(minSpan, maxSpan, extent);
    ghost var t := (ends[0], ends[1]);
    SpansFit(ends[0], ends[1], extent, minSpan, maxSpan);
    var o := 0;
    if grip.All? {
      var width := Width(ends[0], ends[1], extent, minSpan, maxSpan);
      least, greatest := Some(width), Some(width);
    } else {
      o := grip.index;
    }
    MoveHandle(ends, o, e, extent, least, greatest);
    if grip.All? {
      SlidAll(t, e, extent, minSpan, maxSpan, (ends[0], ends[1]));
    } else {
      SlidHandle(t, e, extent, o, minSpan, maxSpan, (ends[0], ends[1]));
    }
    SpansMean(t, e, extent, grip, minSpan, maxSpan, (ends[0], ends[1]));
  }

  lemma SlidAll(t: (real, real), delta: real, extent: (real, real), minSpan: Option<real>, maxSpan: Option<real>,
                r: (real, real))
    requires var width := Width(t.0, t.1, extent, minSpan, maxSpan);
             extent.0 <= extent.1 && 0.0 <= width &&
               MovedFrom(IntoExtent(t.0, extent), IntoExtent(t.1, extent), 0, delta, extent, Some(width), Some(width),
                         r.0, r.1)
    ensures Slid(t, delta, extent, All, minSpan, maxSpan, r)
  {
    hide Width, LeastSpan, GreatestSpan;
  }

  lemma SlidHandle(t: (real, real), delta: real, extent: (real, real), o: nat, minSpan: Option<real>,
                   maxSpan: Option<real>, r: (real, real))
    requires o < 2
    requires var least, greatest := LeastSpan(minSpan, extent), GreatestSpan(minSpan, maxSpan, extent);
             if o == 0 then MovedFrom(IntoExtent(t.0, extent), IntoExtent(t.1, extent), 0, delta, extent, least,
                                      greatest, r.0, r.1)
             else MovedFrom(IntoExtent(t.1, extent), IntoExtent(t.0, extent), 1, delta, extent, least, greatest, r.1,
                            r.0)
    ensures Slid(t, delta, extent, Handle(o), minSpan, maxSpan, r)
  {
    hide LeastSpan, GreatestSpan, IntoExtent, Bounded;
  }

  /** Where a handle h below the other one k comes to, for bounds in their order: at the target as far as the
      extent and the least span allow; and the other one is where it was unless the bounds move it. */
  ghost predicate LowerMoved(h: real, k: real, delta: real, extent: (real, real), least: real, greatest: Option<real>,
                             h': real, k': real) {
    && h' == (if h + delta < extent.0 then extent.0
              else if h + delta > extent.1 - least then extent.1 - least else h + delta)
    && (k - h' < least ==> k' == h' + least)
    && (greatest.Some? && k - h' > greatest.value ==> k' == h' + greatest.value)
    && (k - h' >= least && (greatest.Some? ==> k - h' <= greatest.value) ==> k' == k)
  }

  /** Where it comes to if it is above the other one. */
  ghost predicate UpperMoved(h: real, k: real, delta: real, extent: (real, real), least: real, greatest: Option<real>,
                             h': real, k': real) {
    && h' == (if h + delta > extent.1 then extent.1
              else if h + delta < extent.0 + least then extent.0 + least else h + delta)
    && (h' - k < least ==> k' == h' - least)
    && (greatest.Some? && h' - k > greatest.value ==> k' == h' - greatest.value)
    && (h' - k >= least && (greatest.Some? ==> h' - k <= greatest.value) ==> k' == k)
  }

  /** Where it comes to without a least span: it may pass the other one. */
  ghost predicate FreelyMoved(h: real, k: real, delta: real, extent: (real, real), greatest: Option<real>, h': real,
                              k': real) {
    && h' == (if h + delta < extent.0 then extent.0 else if h + delta > extent.1 then extent.1 else h + delta)
    && (greatest.Some? && k - h' > greatest.value ==> k' == h' + greatest.value)
    && (greatest.Some? && h' - k > greatest.value ==> k' == h' - greatest.value)
    && ((greatest.Some? ==> -greatest.value <= k - h' <= greatest.value) ==> k' == k)
  }

  /** A handle of a window in the extent, with bounds that make sense, is moved so. */
  lemma {:induction false} HandleMoved(t: (real, real), delta: real, extent: (real, real), least: real,
                                       maxSpan: Option<real>, r: (real, real))
    requires Within(t.0, extent) && Within(t.1, extent) && t.0 <= t.1 && 0.0 <= least <= extent.1 - extent.0
    requires maxSpan.Some? ==> least <= maxSpan.value
    ensures Slid(t, delta, extent, Handle(0), Some(least), maxSpan, r) ==>
              LowerMoved(t.0, t.1, delta, extent, least, maxSpan, r.0, r.1)
    ensures Slid(t, delta, extent, Handle(1), Some(least), maxSpan, r) ==>
              UpperMoved(t.1, t.0, delta, extent, least, maxSpan, r.1, r.0)
    ensures Slid(t, delta, extent, Handle(0), None, maxSpan, r) ==>
              FreelyMoved(t.0, t.1, delta, extent, maxSpan, r.0, r.1)
    ensures Slid(t, delta, extent, Handle(1), None, maxSpan, r) ==>
              FreelyMoved(t.1, t.0, delta, extent, maxSpan, r.1, r.0)
  {
    hide MovedFrom, LeastSpan, GreatestSpan, LowerMoved, UpperMoved, FreelyMoved;
    SpansAre(extent, Some(least), maxSpan);
    SpansAre(extent, None, maxSpan);
    AlreadyInExtent(t.0, extent);
    AlreadyInExtent(t.1, extent);
    hide IntoExtent, Within;
    if Slid(t, delta, extent, Handle(0), Some(least), maxSpan, r) {
      LowerHandle(t.0, t.1, delta, extent, least, maxSpan, r.0, r.1);
    }
    if Slid(t, delta, extent, Handle(1), Some(least), maxSpan, r) {
      UpperHandle(t.1, t.0, delta, extent, least, maxSpan, r.1, r.0);
    }
    if Slid(t, delta, extent, Handle(0), None, maxSpan, r) {
      FreeHandle(t.0, t.1, 0, delta, extent, maxSpan, r.0, r.1);
    }
    if Slid(t, delta, extent, Handle(1), None, maxSpan, r) {
      FreeHandle(t.1, t.0, 1, delta, extent, maxSpan, r.1, r.0);
    }
  }

  lemma AlreadyInExtent(x: real, extent: (real, real))
    requires Within(x, extent)
    ensures IntoExtent(x, extent) == x
  {
  }

  lemma {:induction false} LowerHandle(h: real, k: real, delta: real, extent: (real, real), least: real,
                                       greatest: Option<real>, h': real, k': real)
    requires h <= k && 0.0 <= least <= extent.1 - extent.0
    requires MovedFrom(h, k, 0, delta, extent, Some(least), greatest, h', k')
    ensures LowerMoved(h, k, delta, extent, least, greatest, h', k')
  {
  }

  lemma {:induction false} UpperHandle(h: real, k: real, delta: real, extent: (real, real), least: real,
                                       greatest: Option<real>, h': real, k': real)
    requires k <= h && 0.0 <= least <= extent.1 - extent.0
    requires MovedFrom(h, k, 1, delta, extent, Some(least), greatest, h', k')
    ensures UpperMoved(h, k, delta, extent, least, greatest, h', k')
  {
  }

  lemma {:induction false} FreeHandle(h: real, k: real, o: nat, delta: real, extent: (real, real),
                                      greatest: Option<real>, h': real, k': real)
    requires extent.0 <= extent.1 && MovedFrom(h, k, o, delta, extent, None, greatest, h', k')
    ensures FreelyMoved(h, k, delta, extent, greatest, h', k')
  {
  }

  /** A window that is dragged as a whole comes as near to the target as the extent allows. */
  lemma {:induction false} WindowMoved(t: (real, real), delta: real, extent: (real, real), minSpan: Option<real>,
                                       maxSpan: Option<real>, r: (real, real))
    requires Within(t.0, extent) && Within(t.1, extent) && t.0 <= t.1
    requires Slid(t, delta, extent, All, minSpan, maxSpan, r)
    ensures r.0 <= r.1
    ensures r.0 == if t.0 + delta < extent.0 then extent.0
                   else if t.0 + delta > extent.1 - (r.1 - r.0) then extent.1 - (r.1 - r.0) else t.0 + delta
  {
    var width := Width(t.0, t.1, extent, minSpan, maxSpan);
    SpansFit(t.0, t.1, extent, minSpan, maxSpan);
    AlreadyInExtent(t.0, extent);
    AlreadyInExtent(t.1, extent);
    hide Width, LeastSpan, GreatestSpan, IntoExtent, Within;
    LowerHandle(t.0, t.1, delta, extent, width, Some(width), r.0, r.1);
  }

  /** A handle that is outside the extent counts as at its end. */
  lemma {:induction false} StartsInExtent(t: (real, real), t': (real, real), delta: real, extent: (real, real),
                                          o: nat, minSpan: Option<real>, maxSpan: Option<real>, r: (real, real))
    requires extent.0 <= extent.1 && Slid(t, delta, extent, Handle(o), minSpan, maxSpan, r)
    requires t'.0 == if t.0 < extent.0 then extent.0 else if t.0 > extent.1 then extent.1 else t.0
    requires t'.1 == if t.1 < extent.0 then extent.0 else if t.1 > extent.1 then extent.1 else t.1
    ensures Slid(t', delta, extent, Handle(o), minSpan, maxSpan, r)
  {
    hide MovedFrom, LeastSpan, GreatestSpan;
  }

  /** With a least span the handles never swap, wherever in order they start; without one they do just
      if the handle, kept in the extent before and after the move, goes beyond the other one, unless a greatest span of
      0 puts them together. */
  lemma NeverSwapped(t: (real, real), delta: real, extent: (real, real), minSpan: Option<real>, maxSpan: Option<real>,
                     r: (real, real))
    requires extent.0 <= extent.1 && t.0 <= t.1
    requires Slid(t, delta, extent, Handle(0), minSpan, maxSpan, r)
    ensures minSpan.Some? ==> r.0 <= r.1
    ensures minSpan.None? ==>
              (r.0 <= r.1 <==>
               IntoExtent(IntoExtent(t.0, extent) + delta, extent) <= IntoExtent(t.1, extent) ||
                 GreatestSpan(minSpan, maxSpan, extent) == Some(0.0))
  {
    hide GreatestSpan;
  }

  /** The same for the upper handle. */
  lemma NeverSwappedUpper(t: (real, real), delta: real, extent: (real, real), minSpan: Option<real>,
                          maxSpan: Option<real>, r: (real, real))
    requires extent.0 <= extent.1 && t.0 <= t.1
    requires Slid(t, delta, extent, Handle(1), minSpan, maxSpan, r)
    ensures minSpan.Some? ==> r.0 <= r.1
    ensures minSpan.None? ==>
              (r.0 <= r.1 <==>
               IntoExtent(IntoExtent(t.1, extent) + delta, extent) >= IntoExtent(t.0, extent) ||
                 GreatestSpan(minSpan, maxSpan, extent) == Some(0.0))
  {
    hide GreatestSpan;
  }

  /** A window that meets its bounds is not changed by a move of nothing. */
  lemma NothingMoved(t: (real, real), extent: (real, real), o: nat, minSpan: Option<real>, maxSpan: Option<real>,
                     r: (real, real))
    requires o < 2 && Within(t.0, extent) && Within(t.1, extent) && t.0 <= t.1
    requires LeastSpan(minSpan, extent).Some? ==> t.1 - t.0 >= LeastSpan(minSpan, extent).value
    requires GreatestSpan(minSpan, maxSpan, extent).Some? ==> t.1 - t.0 <= GreatestSpan(minSpan, maxSpan, extent).value
    requires Slid(t, 0.0, extent, Handle(o), minSpan, maxSpan, r)
    ensures r == t
  {
  }
}
