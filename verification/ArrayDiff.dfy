/** The greedy diff of module "0c12": a search for a shortest edit script that keeps one
    furthest path per diagonal. Paths are objects that the search moves from diagonal to
    diagonal and extends in place; run-length components are shared between cloned paths. */
module ArrayDiff {
  import opened Collections
  import opened EditScript
  import opened GreedyScript

  /** A run of equal operations. Components are shared by all clones of a path, so count and
      kind never change; only BuildValues writes, and it writes `indices` alone. */
  class Component {
    const count: nat
    const added: bool
    const removed: bool
    var indices: seq<nat>
    ghost const search: object  // the diff call that created the component

    constructor (count: nat, added: bool, removed: bool, ghost search: object)
      ensures this.count == count && this.added == added && this.removed == removed && this.search == search
    {
      this.count, this.added, this.removed, this.search := count, added, removed, search;
      indices := [];
    }

    function Kind(): Op {
      if removed then Remove else if added then Add else Keep
    }
  }

  /** The operations a list of components stands for. */
  ghost function ScriptOf(components: seq<Component>): seq<Op> {
    if components == [] then []
    else
      var last := components[|components| - 1];
      ScriptOf(components[..|components| - 1]) + Repeat(last.Kind(), last.count)
  }

  ghost predicate Owned(components: seq<Component>, search: object) {
    forall i :: 0 <= i < |components| ==> components[i].search == search
  }

  ghost predicate OneKindEach(components: seq<Component>) {
    forall i :: 0 <= i < |components| ==> !(components[i].added && components[i].removed)
  }

  /** Maximal runs: no component is empty or both added and removed, and neighbours differ in kind. */
  ghost predicate Compact(components: seq<Component>) {
    && OneKindEach(components)
    && (forall i :: 0 <= i < |components| ==> components[i].count > 0)
    && (forall i, j :: 0 <= i && j == i + 1 < |components| ==> components[i].Kind() != components[j].Kind())
  }

  lemma {:induction false} NothingUsed(components: seq<Component>)
    requires components == []
    ensures ScriptOf(components) == [] && NewUsed(ScriptOf(components)) == OldUsed(ScriptOf(components)) == 0
  {
  }

  lemma {:induction false} ScriptOfPush(components: seq<Component>, c: Component)
    ensures ScriptOf(components + [c]) == ScriptOf(components) + Repeat(c.Kind(), c.count)
  {
    assert (components + [c])[..|components|] == components;
  }

  lemma CompactPush(components: seq<Component>, c: Component)
    requires NoDuplicates(components) && Compact(components) && c !in components
    requires c.count > 0 && !(c.added && c.removed)
    requires components != [] ==> components[|components| - 1].Kind() != c.Kind()
    ensures NoDuplicates(components + [c]) && Compact(components + [c])
  {
  }

  lemma CompactInit(components: seq<Component>)
    requires NoDuplicates(components) && Compact(components) && components != []
    ensures var front, last := components[..|components| - 1], components[|components| - 1];
            && NoDuplicates(front) && Compact(front) && last.count > 0 && !(last.added && last.removed)
            && (front != [] ==> front[|front| - 1].Kind() != last.Kind())
  {
  }

  /** Replacing the last run by one that is longer by one appends one operation. */
  lemma LengthenLast(components: seq<Component>, longer: Component)
    requires NoDuplicates(components) && Compact(components) && components != [] && longer !in components
    requires var last := components[|components| - 1];
             longer.count == last.count + 1 && longer.added == last.added && longer.removed == last.removed
    ensures var new_ := components[|components| - 1 := longer];
            NoDuplicates(new_) && Compact(new_) && ScriptOf(new_) == ScriptOf(components) + [longer.Kind()]
  {
    var front, last, op := components[..|components| - 1], components[|components| - 1], longer.Kind();
    CompactInit(components);
    hide ScriptOf, Compact, NoDuplicates, Repeat;
    assert components == front + [last] && components[|components| - 1 := longer] == front + [longer];
    CompactPush(front, longer);
    ScriptOfPush(front, last);
    ScriptOfPush(front, longer);
    OneMoreRepeat(ScriptOf(front), op, last.count);
  }

  lemma OneMoreRepeat(ops: seq<Op>, op: Op, count: nat)
    ensures ops + Repeat(op, count + 1) == (ops + Repeat(op, count)) + [op]
  {
  }

  /** A new run of length one appends one operation. */
  lemma {:induction false} PushSingle(components: seq<Component>, c: Component)
    requires NoDuplicates(components) && Compact(components) && c !in components
    requires c.count == 1 && !(c.added && c.removed)
    requires components != [] ==> components[|components| - 1].Kind() != c.Kind()
    ensures NoDuplicates(components + [c]) && Compact(components + [c])
    ensures ScriptOf(components + [c]) == ScriptOf(components) + [c.Kind()]
  {
    hide ScriptOf, Compact, NoDuplicates;
    CompactPush(components, c);
    ScriptOfPush(components, c);
    assert Repeat(c.Kind(), 1) == [c.Kind()];
  }

  class Path {
    var newPos: int
    var components: seq<Component>
    ghost const search: object

    constructor (newPos: int, components: seq<Component>, ghost search: object)
      ensures this.newPos == newPos && this.components == components && this.search == search
    {
      this.newPos, this.components, this.search := newPos, components, search;
    }

    /** The path plays a script of the given cost and has arrived on diagonal k. */
    ghost predicate Valid<T>(l: Lists<T>, k: int, cost: nat)
      reads this
    {
      var ops := ScriptOf(components);
      && Playable(l, ops) && Cost(ops) == cost
      && -1 <= newPos && NewUsed(ops) == newPos + 1 && OldUsed(ops) == newPos + 1 - k
      && NoDuplicates(components) && Compact(components) && Owned(components, search)
    }

    ghost function Consumed(): nat
      reads this
    {
      if newPos < 0 then 0 else newPos + 1
    }

    /** Appends one edit: a run of the same kind is replaced by a longer one, never changed. */
    method PushComponent(added: bool, removed: bool)
      requires added != removed
      requires NoDuplicates(components) && Compact(components) && Owned(components, search)
      modifies this`components
      ensures NoDuplicates(components) && Compact(components) && Owned(components, search)
      ensures ScriptOf(components) == old(ScriptOf(components)) + [if added then Add else Remove]
      ensures components != [] && !components[|components| - 1].Kind().Keep?
    {
      hide ScriptOf, NoDuplicates;
      if |components| > 0 && components[|components| - 1].added == added &&
        components[|components| - 1].removed == removed {
        var longer := new Component(components[|components| - 1].count + 1, added, removed, search);
        LengthenLast(components, longer);
        components := components[|components| - 1 := longer];
      } else {
        var single := new Component(1, added, removed, search);
        PushSingle(components, single);
        components := components + [single];
      }
    }

    /** Follows matching elements as far as they go; returns the old-list position. */
    method ExtractCommon<T>(l: Lists<T>, k: int, ghost cost: nat) returns (oldPos: int)
      requires Valid(l, k, cost)
      requires components != [] ==> !components[|components| - 1].Kind().Keep?
      modifies this
      ensures Valid(l, k, cost)
      ensures old(newPos + 1 - k) >= 0 && newPos + 1 == Slide(l, old(newPos + 1), old(newPos + 1 - k))
      ensures oldPos == newPos - k
      ensures ScriptOf(components) == Followed(l, old(ScriptOf(components)))
    {
      hide Playable, NewUsed, OldUsed, Cost, ScriptOf, NoDuplicates, Compact;
      var n, o := |l.after|, |l.before|;
      var r := newPos;
      var s, count := r - k, 0;
      ghost var end := Slide(l, newPos + 1, newPos + 1 - k);
      while r + 1 < n && s + 1 < o && l.equals(l.after[r + 1], l.before[s + 1])
        invariant unchanged(this)
        invariant -1 <= r && s == r - k && -1 <= s && r == newPos + count
        invariant Slide(l, r + 1, s + 1) == end
      {
        r, s, count := r + 1, s + 1, count + 1;
      }
      KeepRun(l, ScriptOf(components), count);
      assert count == 0 ==> ScriptOf(components) + Repeat(Keep, count) == ScriptOf(components);
      if count > 0 {
        var run := new Component(count, false, false, search);
        CompactPush(components, run);
        ScriptOfPush(components, run);
        components := components + [run];
      }
      newPos := r;
      return s;
    }
  }

  /** The index lists the components refer to: removed runs count old positions, all other
      runs count new positions. */
  ghost predicate Indexed(components: seq<Component>)
    reads components
  {
    forall t :: 0 <= t < |components| ==> components[t].indices == IndicesAt(components, t)
  }

  ghost function IndicesAt(components: seq<Component>, t: nat): seq<nat>
    requires t < |components|
  {
    var ops := ScriptOf(components[..t]);
    Run(if components[t].removed then OldUsed(ops) else NewUsed(ops), components[t].count)
  }

  /** count consecutive positions. */
  function Run(start: nat, count: nat): (r: seq<nat>)
    ensures |r| == count && forall i :: 0 <= i < count ==> r[i] == start + i
  {
    seq(count, i requires 0 <= i => start + i)
  }

  lemma {:induction false} RepeatUses<T>(l: Lists<T>, ops: seq<Op>, op: Op, count: nat)
    ensures NewUsed(ops + Repeat(op, count)) == NewUsed(ops) + if op.Remove? then 0 else count
    ensures OldUsed(ops + Repeat(op, count)) == OldUsed(ops) + if op.Add? then 0 else count
  {
    hide NewUsed, OldUsed;
    if count == 0 {
      assert ops + Repeat(op, 0) == ops;
    } else {
      RepeatUses(l, ops, op, count - 1);
      Snoc(l, ops + Repeat(op, count - 1), op);
      assert ops + Repeat(op, count) == ops + Repeat(op, count - 1) + [op];
    }
  }

  /** Fills in the indices of the winning path's components. */
  method BuildValues<T>(ghost l: Lists<T>, components: seq<Component>)
    requires NoDuplicates(components)
    modifies components
    ensures Indexed(components)
  {
    hide ScriptOf, NewUsed, OldUsed;
    var newIndex, oldIndex := 0, 0;
    NothingUsed(components[..0]);
    for t := 0 to |components|
      invariant newIndex == NewUsed(ScriptOf(components[..t])) && oldIndex == OldUsed(ScriptOf(components[..t]))
      invariant forall u :: 0 <= u < t ==> components[u].indices == IndicesAt(components, u)
    {
      var component := components[t];
      ScriptOfPush(components[..t], component);
      assert components[..t + 1] == components[..t] + [component];
      RepeatUses(l, ScriptOf(components[..t]), component.Kind(), component.count);
      var c := [];
      if component.removed {
        for u := oldIndex to oldIndex + component.count
          invariant c == Run(oldIndex, u - oldIndex)
        {
          c := c + [u];
        }
        component.indices, oldIndex := c, oldIndex + component.count;
      } else {
        for u := newIndex to newIndex + component.count
          invariant c == Run(newIndex, u - newIndex)
        {
          c := c + [u];
        }
        component.indices, newIndex := c, newIndex + component.count;
        if !component.added {
          oldIndex := oldIndex + component.count;
        }
      }
    }
  }

  /** The state of one diff call: the closure variables of `diff`. */
  class Search<T> {
    const l: Lists<T>
    var bestPath: map<int, Path>
    var editLength: nat

    constructor (l: Lists<T>)
      ensures this.l == l && bestPath == map[] && editLength == 1
    {
      this.l, bestPath, editLength := l, map[], 1;
    }

    ghost predicate Valid(cost: nat)
      reads this`bestPath, bestPath.Values
    {
      && (forall k :: k in bestPath ==>
            bestPath[k].Valid(l, k, cost) && bestPath[k].search == this &&
              Greedy(l, cost, k) == Some(ScriptOf(bestPath[k].components)))
      && (forall j, k :: j in bestPath && k in bestPath && j != k ==> bestPath[j] != bestPath[k])
    }

    ghost function FrontOf(): Front
      reads this`bestPath, bestPath.Values
    {
      map k | k in bestPath :: bestPath[k].Consumed()
    }

    /** Diagonals that round `cost` has already entered when it is about to process i. */
    ghost predicate Entered(prev: Front, cost: nat, i: int, k: int) {
      0 <= k + cost && k < i && (k + cost) % 2 == 0 && (CanAdd(l, prev, k) || CanRemove(l, prev, k))
    }

    /** An entered diagonal holds an unfinished path of the round that is as far as it can get. */
    ghost predicate Settled(path: Path, prev: Front, cost: nat, k: int)
      requires CanAdd(l, prev, k) || CanRemove(l, prev, k)
      reads path
    {
      && path.Valid(l, k, cost) && k <= Enter(l, prev, k)
      && path.newPos + 1 == Slide(l, Enter(l, prev, k), Enter(l, prev, k) - k)
      && !(k == Goal(l) && path.newPos + 1 == |l.after|)
      && Greedy(l, cost, k) == Some(ScriptOf(path.components))
    }

    /** A diagonal the round has not reached yet still holds the path of the previous round. */
    ghost predicate Waiting(path: Path, prev: Front, cost: nat, k: int)
      requires cost > 0
      reads path
    {
      && k in prev && path.newPos + 1 == prev[k] && path.Valid(l, k, cost - 1)
      && Greedy(l, cost - 1, k) == Some(ScriptOf(path.components))
    }

    /** The path a diagonal is entered with: the one below it with an addition, or a clone of the one above
        it with a removal. */
    method BasePath(i: int, addPath: Option<Path>, removePath: Option<Path>, canAdd: bool, canRemove: bool,
                    ghost prev: Front) returns (basePath: Path)
      requires editLength > 0 && InGrid(l, prev) && Reaches(l, editLength - 1, prev)
      requires 0 <= i + editLength && i <= editLength && (i + editLength) % 2 == 0
      requires addPath.Some? ==> Waiting(addPath.value, prev, editLength, i - 1) && addPath.value.search == this
      requires removePath.Some? ==>
                 Waiting(removePath.value, prev, editLength, i + 1) && removePath.value.search == this
      requires canAdd <==> CanAdd(l, prev, i)
      requires canRemove <==> CanRemove(l, prev, i)
      requires (canAdd ==> addPath.Some?) && (canRemove ==> removePath.Some?) && (canAdd || canRemove)
      modifies if addPath.Some? then {addPath.value} else {}
      ensures basePath.Valid(l, i, editLength) && basePath.search == this
      ensures fresh(basePath) || (addPath.Some? && basePath == addPath.value)
      ensures basePath.newPos + 1 == Enter(l, prev, i) && i <= Enter(l, prev, i)
      ensures basePath.components != [] ==> !basePath.components[|basePath.components| - 1].Kind().Keep?
      ensures Greedy(l, editLength, i) == Some(Followed(l, ScriptOf(basePath.components)))
    {
      hide Playable, NewUsed, OldUsed, Cost, ScriptOf, NoDuplicates, Compact, Slide, Greedy, Followed, Reaches, InGrid;
      if !canAdd || (canRemove && addPath.value.newPos < removePath.value.newPos) {
        basePath := new Path(removePath.value.newPos, removePath.value.components, this);
        Snoc(l, ScriptOf(basePath.components), Remove);
        GreedyEdit(l, editLength - 1, prev, i, ScriptOf(basePath.components), true);
        basePath.PushComponent(false, true);
      } else {
        basePath := addPath.value;
        Snoc(l, ScriptOf(basePath.components), Add);
        GreedyEdit(l, editLength - 1, prev, i, ScriptOf(basePath.components), false);
        basePath.newPos := basePath.newPos + 1;
        basePath.PushComponent(true, false);
      }
    }

    /** Diagonal i of a round: takes over the path below it, or clones the path above it, or
        falls silent; the path below is gone afterwards. Returns the path if it is finished. */
    method EnterDiagonal(i: int, ghost prev: Front) returns (winner: Option<Path>)
      requires editLength > 0 && InGrid(l, prev) && Reaches(l, editLength - 1, prev)
      requires 0 <= i + editLength && i <= editLength && (i + editLength) % 2 == 0
      requires i - 1 in bestPath <==> i - 1 in prev
      requires i + 1 in bestPath <==> i + 1 in prev
      requires i - 1 in bestPath ==> Waiting(bestPath[i - 1], prev, editLength, i - 1) && bestPath[i - 1].search == this
      requires i + 1 in bestPath ==> Waiting(bestPath[i + 1], prev, editLength, i + 1) && bestPath[i + 1].search == this
      requires i - 1 in bestPath && i + 1 in bestPath ==> bestPath[i - 1] != bestPath[i + 1]
      modifies this`bestPath, if i - 1 in bestPath then {bestPath[i - 1]} else {}
      ensures winner.None? ==> (i in bestPath <==> CanAdd(l, prev, i) || CanRemove(l, prev, i))
      ensures winner.None? && i !in bestPath ==> bestPath == old(bestPath) - {i - 1, i}
      ensures winner.None? && i in bestPath ==>
                && bestPath == (old(bestPath) - {i - 1})[i := bestPath[i]]
                && (fresh(bestPath[i]) || (i - 1 in old(bestPath) && bestPath[i] == old(bestPath)[i - 1]))
                && Settled(bestPath[i], prev, editLength, i) && bestPath[i].search == this
      ensures winner.Some? ==>
                var components := winner.value.components;
                && Transforms(l, ScriptOf(components)) && Cost(ScriptOf(components)) == editLength
                && Greedy(l, editLength, Goal(l)) == Some(ScriptOf(components))
                && NoDuplicates(components) && Compact(components) && Owned(components, this)
    {
      hide Playable, NewUsed, OldUsed, Cost, ScriptOf, NoDuplicates, Compact, Slide, Greedy, Followed, Reaches;
      var addPath := if i - 1 in bestPath then Some(bestPath[i - 1]) else None;
      var removePath := if i + 1 in bestPath then Some(bestPath[i + 1]) else None;
      var oldPos := (if removePath.Some? then removePath.value.newPos else 0) - i;
      if addPath.Some? {
        bestPath := bestPath - {i - 1};
      }
      var canAdd := addPath.Some? && addPath.value.newPos + 1 < |l.after|;
      var canRemove := removePath.Some? && 0 <= oldPos < |l.before|;
      if !canAdd && !canRemove {
        bestPath := bestPath - {i};
        return None;
      }
      var basePath := BasePath(i, addPath, removePath, canAdd, canRemove, prev);
      oldPos := basePath.ExtractCommon(l, i, editLength);
      if basePath.newPos + 1 >= |l.after| && oldPos + 1 >= |l.before| {
        PlayableInGrid(l, ScriptOf(basePath.components));
        return Some(basePath);
      }
      bestPath := bestPath[i := basePath];
      return None;
    }

    /** The live diagonals when a round is about to process i: those it has entered and those
        of the previous round it has not reached. */
    ghost predicate Live(prev: Front, cost: nat, i: int, keys: set<int>) {
      forall k :: k in keys <==> Entered(prev, cost, i, k) || (i - 1 <= k && k in prev)
    }

    lemma {:induction false} LiveAround(prev: Front, cost: nat, i: int, keys: set<int>)
      requires cost > 0 && Live(prev, cost, i, keys) && OnRound(prev, cost - 1) && (i + cost) % 2 == 0
      ensures i - 1 in keys <==> i - 1 in prev
      ensures i + 1 in keys <==> i + 1 in prev
      ensures i !in prev
    {
      hide Live, CanAdd, CanRemove;
      LiveAt(prev, cost, i, keys, i - 1);
      LiveAt(prev, cost, i, keys, i + 1);
      OtherParity(i, cost);
    }

    lemma {:induction false} OtherParity(i: int, cost: nat)
      requires cost > 0 && (i + cost) % 2 == 0
      ensures (i - 1 + cost) % 2 != 0 && (i + (cost - 1)) % 2 != 0
    {
    }

    lemma {:induction false} LiveAt(prev: Front, cost: nat, i: int, keys: set<int>, k: int)
      requires Live(prev, cost, i, keys)
      ensures k in keys <==> Entered(prev, cost, i, k) || (i - 1 <= k && k in prev)
    {
      hide CanAdd, CanRemove, Entered;
    }

    lemma LiveNext(prev: Front, cost: nat, i: int, keys: set<int>, keys': set<int>)
      requires cost > 0 && OnRound(prev, cost - 1) && 0 <= i + cost && (i + cost) % 2 == 0
      requires Live(prev, cost, i, keys)
      requires keys' - {i} == keys - {i - 1, i}
      requires i in keys' <==> CanAdd(l, prev, i) || CanRemove(l, prev, i)
      ensures Live(prev, cost, i + 2, keys')
    {
      hide CanAdd, CanRemove;
      forall k
        ensures k in keys' <==> Entered(prev, cost, i + 2, k) || (i + 1 <= k && k in prev)
      {
        if k != i {
          assert k in keys' <==> k in keys - {i - 1, i} by {
            assert k in keys' - {i} <==> k in keys - {i - 1, i};
          }
        }
      }
    }

    /** The paths on the live diagonals in the middle of a round. */
    ghost predicate MidRound(prev: Front, cost: nat)
      requires cost > 0
      reads this`bestPath, bestPath.Values
    {
      && (forall k :: k in bestPath && k in prev ==> Waiting(bestPath[k], prev, cost, k))
      && (forall k :: k in bestPath && k !in prev ==>
            (CanAdd(l, prev, k) || CanRemove(l, prev, k)) && Settled(bestPath[k], prev, cost, k))
      && (forall j, k :: j in bestPath && k in bestPath && j != k ==> bestPath[j] != bestPath[k])
      && (forall k :: k in bestPath ==> bestPath[k].search == this)
    }

    /** Before its first diagonal, a round finds the previous front on all live diagonals. */
    lemma RoundStart(prev: Front, cost: nat, i: int)
      requires cost > 0 && Valid(cost - 1) && prev == FrontOf() && OnRound(prev, cost - 1) && i + cost == 0
      ensures Live(prev, cost, i, bestPath.Keys) && MidRound(prev, cost)
    {
      hide Playable, NewUsed, OldUsed, Cost, ScriptOf, NoDuplicates, Compact, Slide, EditScript.Enter, CanAdd,
           CanRemove, Greedy;
      assert forall k :: k in bestPath <==> k in prev;
    }

    /** When all diagonals are processed, the next front is in place. */
    lemma RoundDone(prev: Front, cost: nat)
      requires cost > 0 && OnRound(prev, cost - 1)
      requires Live(prev, cost, cost + 2, bestPath.Keys) && MidRound(prev, cost)
      ensures Valid(cost) && NextFront(l, prev, cost, FrontOf()) && !Finished(l, FrontOf())
    {
      hide Playable, NewUsed, OldUsed, Cost, ScriptOf, NoDuplicates, Compact, Slide, EditScript.Enter, CanAdd,
           CanRemove, Greedy;
      assert forall k :: k in bestPath ==> k in bestPath.Keys && k !in prev;
    }

    /** Processing one diagonal, seen from the whole front. */
    method Step(i: int, ghost prev: Front) returns (winner: Option<Path>)
      requires editLength > 0 && InGrid(l, prev) && OnRound(prev, editLength - 1) && Reaches(l, editLength - 1, prev)
      requires 0 <= i + editLength && i <= editLength && (i + editLength) % 2 == 0
      requires Live(prev, editLength, i, bestPath.Keys) && MidRound(prev, editLength)
      modifies this`bestPath, bestPath.Values
      ensures winner.None? ==> Live(prev, editLength, i + 2, bestPath.Keys) && MidRound(prev, editLength)
      ensures winner.None? ==> forall p :: p in bestPath.Values ==> p in old(bestPath.Values) || fresh(p)
      ensures winner.Some? ==>
                var components := winner.value.components;
                && Transforms(l, ScriptOf(components)) && Cost(ScriptOf(components)) == editLength
                && Greedy(l, editLength, Goal(l)) == Some(ScriptOf(components))
                && NoDuplicates(components) && Compact(components) && Owned(components, this)
    {
      hide Playable, NewUsed, OldUsed, Cost, ScriptOf, NoDuplicates, Compact, Slide, EditScript.Enter, CanAdd,
           CanRemove,
           Path.Valid, Settled, Waiting, Owned, InGrid, Transforms, Live, Greedy, Reaches;
      LiveAround(prev, editLength, i, bestPath.Keys);
      ghost var keys := bestPath.Keys;
      winner := EnterDiagonal(i, prev);
      if winner.None? {
        LiveNext(prev, editLength, i, keys, bestPath.Keys);
        assert forall k :: k in bestPath && k != i ==>
            k in old(bestPath) && bestPath[k] == old(bestPath)[k] &&
              (i - 1 in old(bestPath) ==> bestPath[k] != old(bestPath)[i - 1]);
      }
    }

    /** Between two rounds: the front is complete, the goal is not reached, and no script
        shorter than the coming edit length exists. */
    ghost predicate Ready()
      reads this, bestPath.Values
    {
      && editLength > 0 && Valid(editLength - 1)
      && InGrid(l, FrontOf()) && OnRound(FrontOf(), editLength - 1)
      && Complete(l, FrontOf(), editLength - 1) && !Finished(l, FrontOf()) && NoneBelow(l, editLength)
      && Reaches(l, editLength - 1, FrontOf()) && DiffScript(l) == ScriptFrom(l, editLength)
    }

    lemma FirstReady(first: Path)
      requires editLength == 1 && bestPath == map[0 := first]
      requires first.Valid(l, 0, 0) && first.search == this && first.newPos + 1 == Slide(l, 0, 0)
      requires ScriptOf(first.components) == Followed(l, [])
      requires Slide(l, 0, 0) != |l.after| || |l.after| != |l.before|
      ensures Ready()
    {
      hide Path.Valid, Slide, Complete, NoneBelow, Followed, ScriptFrom, Reaches;
      FirstFront(l);
      ReachesStart(l);
      assert FrontOf() == map[0 := Slide(l, 0, 0)];
      NoneBelowZero(l);
      NoneBelowNext(l, FrontOf(), 0);
      RoundsBounded(l, 1);
      Later(l, 0, FrontOf());
    }

    lemma {:induction false} NextReady(prev: Front, cost: nat)
      requires cost > 0 && InGrid(l, prev) && OnRound(prev, cost - 1)
      requires Complete(l, prev, cost - 1) && !Finished(l, prev) && NoneBelow(l, cost)
      requires Reaches(l, cost - 1, prev) && DiffScript(l) == ScriptFrom(l, cost)
      requires editLength == cost + 1 && Valid(cost) && NextFront(l, prev, cost, FrontOf()) && !Finished(l, FrontOf())
      ensures Ready()
    {
      hide Path.Valid, Slide, Complete, NoneBelow, Finished, NextFront, InGrid, OnRound, Reaches, Greedy, ScriptFrom;
      RoundInvariant(l, prev, cost - 1, FrontOf());
      NoneBelowNext(l, FrontOf(), cost);
      ReachesNext(l, cost - 1, prev, FrontOf());
      RoundsBounded(l, cost + 1);
      Later(l, cost, FrontOf());
    }

    lemma ReadyBounded()
      requires Ready()
      ensures editLength <= |l.before| + |l.after|
    {
      RoundsBounded(l, editLength);
    }

    /** One round: every diagonal of the current edit length, from the lowest to the highest. */
    method Round() returns (result: Option<seq<Component>>)
      requires Ready()
      modifies this, bestPath.Values
      ensures result.Some? ==>
                && Transforms(l, ScriptOf(result.value)) && NoneBelow(l, Cost(ScriptOf(result.value)))
                && ScriptOf(result.value) == DiffScript(l)
                && NoDuplicates(result.value) && Compact(result.value) && Owned(result.value, this)
      ensures result.None? ==>
                && editLength == old(editLength) + 1 && Ready()
                && forall p :: p in bestPath.Values ==> p in old(bestPath.Values) || fresh(p)
    {
      hide Playable, NewUsed, OldUsed, Cost, ScriptOf, NoDuplicates, Compact, Slide, EditScript.Enter, CanAdd,
           CanRemove,
           Path.Valid, MidRound, Live, NextFront, Complete, NoneBelow, Greedy, Reaches;
      ghost var prev := FrontOf();
      var i := -(editLength as int);
      RoundStart(prev, editLength, i);
      while i <= editLength
        invariant editLength == old(editLength)
        invariant 0 <= i + editLength && i <= editLength + 2 && (i + editLength) % 2 == 0
        invariant Live(prev, editLength, i, bestPath.Keys) && MidRound(prev, editLength)
        invariant forall p :: p in bestPath.Values ==> p in old(bestPath.Values) || fresh(p)
      {
        var winner := Step(i, prev);
        if winner.Some? {
          assert Greedy(l, editLength, Goal(l)) == Some(ScriptOf(winner.value.components));
          return Some(winner.value.components);
        }
        i := i + 2;
      }
      RoundDone(prev, editLength);
      editLength := editLength + 1;
      NextReady(prev, editLength - 1);
      return None;
    }
  }

  /** Every index list has been written, the components play a transforming script, and no
      other script does it with fewer added and removed elements. */
  ghost predicate ShortestEdit<T>(l: Lists<T>, components: seq<Component>)
    reads components
  {
    && Transforms(l, ScriptOf(components))
    && Indexed(components)
    && forall ops :: Transforms(l, ops) ==> Cost(ScriptOf(components)) <= Cost(ops)
  }

  /** Lists that match entirely make a single run of kept elements. */
  lemma {:induction false} WholeMatch<T>(l: Lists<T>, whole: Component)
    requires whole.count == |l.after| <= Slide(l, 0, 0) && |l.before| <= Slide(l, 0, 0)
    requires whole.Kind().Keep? && whole.indices == Run(0, whole.count)
    ensures ShortestEdit(l, [whole]) && ScriptOf([whole]) == DiffScript(l)
  {
    EmptyScript(l);
    WholeScript(l);
    hide Playable, NewUsed, OldUsed, Cost, ScriptOf, Slide, DiffScript;
    SlideMatches(l, 0, 0);
    KeepRun(l, [], whole.count);
    ScriptOfPush([], whole);
    NothingUsed([]);
    assert [] + [whole] == [whole] && [whole][..0] == [];
    assert [] + Repeat(Keep, whole.count) == Repeat(Keep, whole.count);
  }

  lemma NoneBelowZero<T>(l: Lists<T>)
    ensures NoneBelow(l, 0)
  {
  }

  lemma EmptyPath<T>(l: Lists<T>, path: Path)
    requires path.newPos == -1 && path.components == []
    ensures path.Valid(l, 0, 0)
  {
  }

  /** The exported diff: a shortest edit script as indexed runs, found within
      |before| + |after| rounds. */
  method Diff<T>(l: Lists<T>) returns (result: seq<Component>)
    ensures forall c :: c in result ==> fresh(c)
    ensures ShortestEdit(l, result) && NoDuplicates(result) && OneKindEach(result)
    ensures Compact(result) || (|result| == 1 && l.after == [])
    ensures ScriptOf(result) == DiffScript(l)
  {
    hide Playable, NewUsed, OldUsed, Cost, ScriptOf, Path.Valid, Slide, Search.Ready, DiffScript, Followed;
    var search := new Search<T>(l);
    var r, s := |l.after|, |l.before|;
    var first := new Path(-1, [], search);
    EmptyPath(l, first);
    NothingUsed(first.components);
    var oldPos := first.ExtractCommon(l, 0, 0);
    if first.newPos + 1 >= r && oldPos + 1 >= s {
      FirstFront(l);
      var whole := new Component(r, false, false, search);
      var all := [];
      for p := 0 to r
        invariant all == Run(0, p)
      {
        all := all + [p];
      }
      whole.indices := all;
      WholeMatch(l, whole);
      return [whole];
    }
    search.bestPath := map[0 := first];
    search.FirstReady(first);
    while search.editLength <= r + s
      invariant search.l == l && search.Ready()
      invariant forall p :: p in search.bestPath.Values ==> fresh(p)
    {
      var found := search.Round();
      if found.Some? {
        forall c | c in found.value
          ensures fresh(c)
        {
          assert c.search == search;
        }
        BuildValues(l, found.value);
        return found.value;
      }
    }
    search.ReadyBounded();
    assert false;
  }

  /** The script up to operation p of component t. */
  ghost function Reached(components: seq<Component>, t: nat, p: nat): seq<Op>
    requires t < |components|
  {
    ScriptOf(components[..t]) + Repeat(components[t].Kind(), p)
  }

  lemma {:induction false} ScriptOfPrefix(components: seq<Component>, t: nat)
    requires t <= |components|
    ensures ScriptOf(components[..t]) <= ScriptOf(components)
    decreases |components| - t
  {
    if t == |components| {
      assert components[..t] == components;
    } else {
      ScriptOfPrefix(components, t + 1);
      ScriptOfPush(components[..t], components[t]);
      assert components[..t + 1] == components[..t] + [components[t]];
    }
  }

  /** Walking the components operation by operation stays on the script, and each operation
      finds its position in the component's indices. */
  lemma {:induction false} ReachedNext<T>(l: Lists<T>, components: seq<Component>, t: nat, p: nat)
    requires t < |components| && p < components[t].count && Indexed(components)
    ensures Reached(components, t, p + 1) == Reached(components, t, p) + [components[t].Kind()]
    ensures Reached(components, t, p + 1) <= ScriptOf(components)
    ensures p < |components[t].indices|
    ensures components[t].indices[p] == if components[t].removed then OldUsed(Reached(components, t, p))
            else NewUsed(Reached(components, t, p))
  {
    hide ScriptOf, Repeat, NewUsed, OldUsed;
    var kind, count := components[t].Kind(), components[t].count;
    RepeatUses(l, ScriptOf(components[..t]), kind, p);
    ScriptOfPrefix(components, t + 1);
    ReachedEnd(components, t);
    RepeatGrows(kind, p, count);
    assert components[t].indices == IndicesAt(components, t);
  }

  lemma RepeatGrows(op: Op, p: nat, count: nat)
    requires p < count
    ensures Repeat(op, p + 1) == Repeat(op, p) + [op] && Repeat(op, p + 1) <= Repeat(op, count)
  {
  }

  lemma {:induction false} ReachedEnd(components: seq<Component>, t: nat)
    requires t < |components|
    ensures Reached(components, t, components[t].count) == ScriptOf(components[..t + 1])
    ensures Reached(components, t, 0) == ScriptOf(components[..t])
    ensures ScriptOf(components[..0]) == [] && ScriptOf(components[..|components|]) == ScriptOf(components)
  {
    NothingUsed(components[..0]);
    hide ScriptOf;
    ScriptOfPush(components[..t], components[t]);
    assert components[..t + 1] == components[..t] + [components[t]];
    assert components[..|components|] == components;
    assert Repeat(components[t].Kind(), 0) == [];
  }

  /** Playing the components on the old list yields the new list. */
  lemma {:induction false} TurnsBeforeIntoAfter<T>(l: Lists<T>, components: seq<Component>)
    requires ShortestEdit(l, components)
    requires forall x, y :: x in l.after && y in l.before ==> (l.equals(x, y) <==> x == y)
    ensures Replay(l.before, l.after, ScriptOf(components)) == l.after
  {
    ReplayIsAfter(l, ScriptOf(components));
  }

  /** The indices of all components that are not removals, in order. */
  ghost function NewPositions(components: seq<Component>): seq<nat>
    reads components
  {
    if components == [] then []
    else
      var last := components[|components| - 1];
      NewPositions(components[..|components| - 1]) + if last.removed then [] else last.indices
  }

  /** Kept and added components together list every new position once, in order. */
  lemma {:induction false} NewPositionsCover<T>(l: Lists<T>, components: seq<Component>)
    requires Indexed(components)
    ensures NewPositions(components) == Run(0, NewUsed(ScriptOf(components)))
  {
    if components != [] {
      IndexedInit(components);
      NewPositionsCover(l, components[..|components| - 1]);
      NewPositionsStep(l, components);
    }
  }

  lemma IndexedInit(components: seq<Component>)
    requires components != [] && Indexed(components)
    ensures Indexed(components[..|components| - 1])
    ensures components[|components| - 1].indices == IndicesAt(components, |components| - 1)
  {
    hide ScriptOf, NewUsed, OldUsed;
    var init := components[..|components| - 1];
    assert forall t :: 0 <= t < |init| ==> init[t] == components[t] && init[..t] == components[..t];
  }

  lemma NewPositionsStep<T>(l: Lists<T>, components: seq<Component>)
    requires components != []
    requires var init := components[..|components| - 1]; NewPositions(init) == Run(0, NewUsed(ScriptOf(init)))
    requires components[|components| - 1].indices == IndicesAt(components, |components| - 1)
    ensures NewPositions(components) == Run(0, NewUsed(ScriptOf(components)))
  {
    var init, last := components[..|components| - 1], components[|components| - 1];
    hide ScriptOf, NewUsed, OldUsed, Repeat, Run;
    assert components == init + [last];
    ScriptOfPush(init, last);
    RepeatUses(l, ScriptOf(init), last.Kind(), last.count);
    var n := NewUsed(ScriptOf(init));
    if last.removed {
      assert NewPositions(components) == NewPositions(init) + [];
    } else {
      RunsJoin(n, last.count);
    }
  }

  lemma RunsJoin(n: nat, count: nat)
    ensures Run(0, n) + Run(n, count) == Run(0, n + count)
  {
  }
}
