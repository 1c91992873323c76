/** The undo stack of zoom ranges, module "6fda": sparse snapshots over a base layer that is filled in
    late. Ranges of the components are those of queryComponents; they change through the history only. */
module ZoomHistory {
  import opened Collections

  type Id = string

  datatype Range = Range(start: real, end: real)

  type Snapshot = map<Id, Range>

  /** The range a stack of snapshots gives an id: the topmost one recorded. */
  ghost function Lookup(stack: seq<Snapshot>, id: Id): Option<Range> {
    if stack == [] then None
    else if id in stack[|stack| - 1] then Some(stack[|stack| - 1][id])
    else Lookup(stack[..|stack| - 1], id)
  }

  /** The components' ranges after a zoom to a snapshot; ids of no component do nothing. */
  function Zoomed(ranges: Snapshot, snapshot: Snapshot): (r: Snapshot)
    ensures r.Keys == ranges.Keys
    ensures forall id :: id in r ==> r[id] == if id in snapshot then snapshot[id] else ranges[id]
  {
    map id | id in ranges :: if id in snapshot then snapshot[id] else ranges[id]
  }

  /** The stack records the changes between the states: ranges[k] is in force with k snapshots pushed. */
  ghost predicate Records(stack: seq<Snapshot>, ranges: seq<Snapshot>) {
    && |stack| == |ranges| >= 1
    && (forall k :: 0 <= k < |ranges| ==> ranges[k].Keys == ranges[0].Keys)
    && (forall id :: id in stack[0] ==> id in ranges[0] && stack[0][id] == ranges[0][id])
    && (forall k, l :: 0 <= k && l == k + 1 < |ranges| ==> ranges[l] == Zoomed(ranges[k], stack[l]))
  }

  /** Each component pushed has a range in the base layer. */
  ghost predicate Based(stack: seq<Snapshot>, ranges: seq<Snapshot>)
    requires |stack| == |ranges| >= 1
  {
    forall k, id :: 0 < k < |stack| && id in stack[k] && id in ranges[0] ==> id in stack[0]
  }

  /** What the stack yields is in force. */
  lemma {:induction false} LookupInForce(stack: seq<Snapshot>, ranges: seq<Snapshot>, k: nat, id: Id)
    requires Records(stack, ranges) && k < |stack| && id in ranges[0]
    ensures Lookup(stack[..k + 1], id).Some? ==> Lookup(stack[..k + 1], id).value == ranges[k][id]
    ensures id in stack[0] ==> Lookup(stack[..k + 1], id).Some?
  {
    assert stack[..k + 1][..k] == stack[..k];
    if k > 0 && id !in stack[k] {
      LookupInForce(stack, ranges, k - 1, id);
      assert ranges[k] == Zoomed(ranges[k - 1], stack[k]);
    } else if k > 0 {
      assert ranges[k] == Zoomed(ranges[k - 1], stack[k]);
    }
  }

  /** A range that was never pushed has never changed. */
  lemma {:induction false} NeverPushed(stack: seq<Snapshot>, ranges: seq<Snapshot>, k: nat, id: Id)
    requires Records(stack, ranges) && k < |stack| && id in ranges[0] && Lookup(stack[..k + 1], id).None?
    ensures ranges[k][id] == ranges[0][id]
  {
    if k > 0 {
      assert stack[..k + 1][..k] == stack[..k];
      NeverPushed(stack, ranges, k - 1, id);
      assert ranges[k] == Zoomed(ranges[k - 1], stack[k]);
    }
  }

  class History {
    var stack: seq<Snapshot>
    /** The ranges of the components now. */
    var current: Snapshot
    /** The ranges in force with so many snapshots pushed. */
    ghost var ranges: seq<Snapshot>

    ghost predicate Valid()
      reads this
    {
      Records(stack, ranges) && Based(stack, ranges) && current == ranges[|ranges| - 1]
    }

    constructor (components: Snapshot)
      ensures Valid() && current == components && ranges == [components]
    {
      stack, current, ranges := [map[]], components, [components];
    }

    /** The topmost range of an id, from the top of the stack down. */
    method Find(id: Id) returns (found: Option<Range>)
      ensures found == Lookup(stack, id)
    {
      var a := |stack|;
      assert stack[..a] == stack;
      while a > 0
        invariant 0 <= a <= |stack| && Lookup(stack, id) == Lookup(stack[..a], id)
      {
        assert stack[..a][..a - 1] == stack[..a - 1];
        a := a - 1;
        if id in stack[a] {
          return Some(stack[a][id]);
        }
      }
      found := None;
    }

    /** Records the range of a component in the base layer if no layer has one. */
    method FillBase(id: Id)
      requires Valid()
      modifies this`stack
      ensures Valid() && |stack| == |old(stack)| && (id in current ==> id in stack[0])
      ensures stack == old(stack)[0 := stack[0]] && forall other :: other in old(stack)[0] ==> other in stack[0]
    {
      hide Records, Based;
      Sized(stack, ranges);
      var found := Find(id);
      assert stack[..|stack|] == stack;
      if id in current {
        CurrentComponent(stack, ranges, id);
        if found.None? {
          NeverPushed(stack, ranges, |stack| - 1, id);
          BaseFilled(stack, ranges, id);
          stack := stack[0 := stack[0][id := current[id]]];
        } else {
          FoundInBase(stack, ranges, |stack|, id);
        }
      }
    }

    /** Pushes a snapshot. A component met for the first time gets its range in the base layer, below
        all that was pushed before; that changes nothing for the states recorded. */
    method Push(snapshot: Snapshot)
      requires Valid()
      modifies this`stack
      ensures |stack| == |ranges| + 1 && stack[|ranges|] == snapshot
      ensures Records(stack[..|ranges|], ranges) && Based(stack[..|ranges|], ranges)
      ensures forall k :: 1 <= k < |ranges| ==> stack[k] == old(stack)[k]
      ensures forall id :: id in snapshot && id in current ==> id in stack[0]
    {
      var ids := snapshot.Keys;
      while ids != {}
        invariant Valid() && ids <= snapshot.Keys && |stack| == |old(stack)|
        invariant forall k :: 1 <= k < |stack| ==> stack[k] == old(stack)[k]
        invariant forall id :: id in snapshot && id !in ids && id in current ==> id in stack[0]
        decreases ids
      {
        var id :| id in ids;
        ids := ids - {id};
        FillBase(id);
      }
      stack := stack + [snapshot];
      assert stack[..|ranges|] == stack[..|stack| - 1];
    }

    /** The stack without its topmost snapshot yields, for each of the snapshot's ids, what the stack
        below it has. The base layer stays. */
    method Pop() returns (below: Snapshot)
      requires Valid()
      modifies this`stack, this`ranges
      ensures |old(stack)| == 1 ==> stack == old(stack) && ranges == old(ranges)
      ensures |old(stack)| > 1 ==> stack == old(stack)[..|old(stack)| - 1] && ranges == old(ranges)[..|old(ranges)| - 1]
      ensures Records(stack, ranges) && Based(stack, ranges)
      ensures below.Keys <= old(stack)[|old(stack)| - 1].Keys
      ensures forall id :: id in old(stack)[|old(stack)| - 1] && id in current ==>
                id in below && below[id] == ranges[|ranges| - 1][id]
    {
      hide Records, Based;
      assert |stack| == |ranges| >= 1 by { Sized(stack, ranges); }
      TopBased(stack, ranges);
      var head := stack[|stack| - 1];
      if |stack| > 1 {
        Shorter(stack, ranges);
        stack, ranges := stack[..|stack| - 1], ranges[..|ranges| - 1];
      }
      below := map[];
      var ids := head.Keys;
      while ids != {}
        invariant ids <= head.Keys && below.Keys <= head.Keys
        invariant forall id :: id in head && id !in ids && id in current ==>
                    id in below && below[id] == ranges[|ranges| - 1][id]
        modifies {}
        decreases ids
      {
        var id :| id in ids;
        ids := ids - {id};
        var found := Find(id);
        assert stack[..|stack|] == stack;
        if id in current {
          LookupInForce(stack, ranges, |stack| - 1, id);
        }
        if found.Some? {
          below := below[id := found.value];
        }
      }
    }

    /** Zooming to a snapshot: pushed before the components take it over. */
    method Zoom(snapshot: Snapshot)
      requires Valid()
      modifies this
      ensures Valid() && ranges == old(ranges) + [current] && current == Zoomed(old(current), snapshot)
    {
      hide Records, Based;
      Push(snapshot);
      Longer(stack[..|ranges|], ranges, snapshot);
      assert stack == stack[..|ranges|] + [snapshot];
      current := Zoomed(current, snapshot);
      ranges := ranges + [current];
    }

    /** Going back one zoom brings back all ranges in force before it; at the base nothing changes. */
    method Back()
      requires Valid()
      modifies this
      ensures Valid()
      ensures |old(ranges)| > 1 ==>
                ranges == old(ranges)[..|old(ranges)| - 1] && current == old(ranges)[|old(ranges)| - 2]
      ensures |old(ranges)| == 1 ==> ranges == old(ranges) && current == old(current)
    {
      hide Records, Based;
      assert |stack| == |ranges| >= 1 by { Sized(stack, ranges); }
      if |stack| > 1 {
        Shorter(stack, ranges);
      }
      var below := Pop();
      current := Zoomed(current, below);
      assert current == ranges[|ranges| - 1];
    }

    /** Forgets all snapshots; the ranges stay. */
    method Clear()
      requires Valid()
      modifies this`stack, this`ranges
      ensures Valid() && |stack| == 1 && ranges == [current]
    {
      stack, ranges := [map[]], [current];
    }
  }

  lemma Shorter(stack: seq<Snapshot>, ranges: seq<Snapshot>)
    requires Records(stack, ranges) && Based(stack, ranges) && |stack| > 1
    ensures Records(stack[..|stack| - 1], ranges[..|ranges| - 1]) && Based(stack[..|stack| - 1], ranges[..|ranges| - 1])
    ensures ranges[|ranges| - 1] == Zoomed(ranges[|ranges| - 2], stack[|stack| - 1])
  {
    var k, l := |stack| - 2, |stack| - 1;
    assert ranges[l] == Zoomed(ranges[k], stack[l]);
  }

  lemma Longer(stack: seq<Snapshot>, ranges: seq<Snapshot>, snapshot: Snapshot)
    requires Records(stack, ranges) && Based(stack, ranges)
    requires forall id :: id in snapshot && id in ranges[|ranges| - 1] ==> id in stack[0]
    ensures Records(stack + [snapshot], ranges + [Zoomed(ranges[|ranges| - 1], snapshot)])
    ensures Based(stack + [snapshot], ranges + [Zoomed(ranges[|ranges| - 1], snapshot)])
  {
  }

  lemma Sized(stack: seq<Snapshot>, ranges: seq<Snapshot>)
    requires Records(stack, ranges)
    ensures |stack| == |ranges| >= 1
  {
  }

  lemma CurrentComponent(stack: seq<Snapshot>, ranges: seq<Snapshot>, id: Id)
    requires Records(stack, ranges) && id in ranges[|ranges| - 1]
    ensures id in ranges[0]
  {
  }

  lemma TopBased(stack: seq<Snapshot>, ranges: seq<Snapshot>)
    requires Records(stack, ranges) && Based(stack, ranges)
    ensures forall id :: id in stack[|stack| - 1] && id in ranges[|ranges| - 1] ==> id in stack[0] && id in ranges[0]
  {
  }

  lemma BaseFilled(stack: seq<Snapshot>, ranges: seq<Snapshot>, id: Id)
    requires Records(stack, ranges) && Based(stack, ranges) && id in ranges[0]
    ensures Records(stack[0 := stack[0][id := ranges[0][id]]], ranges) &&
            Based(stack[0 := stack[0][id := ranges[0][id]]], ranges)
  {
  }

  lemma {:induction false} FoundInBase(stack: seq<Snapshot>, ranges: seq<Snapshot>, n: nat, id: Id)
    requires |stack| == |ranges| >= 1 && Based(stack, ranges) && n <= |stack| && id in ranges[0] &&
             Lookup(stack[..n], id).Some?
    ensures id in stack[0]
  {
    assert n > 0;
    assert stack[..n][..n - 1] == stack[..n - 1];
    if id !in stack[n - 1] {
      FoundInBase(stack, ranges, n - 1, id);
    }
  }

  datatype Step = ZoomTo(snapshot: Snapshot) | GoBack

  /** What a run of zooms and steps back leaves: the ranges in force, as a stack of full states. */
  ghost function Replay(ranges: seq<Snapshot>, steps: seq<Step>): (r: seq<Snapshot>)
    requires ranges != []
    ensures r != []
  {
    if steps == [] then ranges
    else
      var before := Replay(ranges, steps[..|steps| - 1]);
      match steps[|steps| - 1]
      case ZoomTo(s) => before + [Zoomed(before[|before| - 1], s)]
      case GoBack => if |before| == 1 then before else before[..|before| - 1]
  }

  /** The sparse stack does over any run what a stack of full states would do. */
  method Run(h: History, steps: seq<Step>)
    requires h.Valid()
    modifies h
    ensures h.Valid() && h.ranges == Replay(old(h.ranges), steps) && h.current == h.ranges[|h.ranges| - 1]
  {
    hide Based;
    for i := 0 to |steps|
      invariant h.Valid() && h.ranges == Replay(old(h.ranges), steps[..i])
    {
      assert steps[..i + 1][..i] == steps[..i];
      match steps[i] {
        case ZoomTo(s) => h.Zoom(s);
        case GoBack => h.Back();
      }
    }
    assert steps[..|steps|] == steps;
  }
}
