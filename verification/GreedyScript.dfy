/** Which of the shortest edit scripts the diff of module "0c12" finds: a function of the two lists,
    without paths, fronts or rounds, that a caller can evaluate beforehand. */
module GreedyScript {
  import opened Collections
  import opened EditScript

  /** The operations that lead furthest on diagonal k with d additions and removals: the last edit is a
      removal when only that is possible or when it gets further, and matches are followed after it. */
  function Greedy<T>(l: Lists<T>, d: nat, k: int): Option<seq<Op>>
    decreases d
  {
    if d == 0 then
      if k == 0 then Some(Followed(l, [])) else None
    else if k + d < 0 || d < k || (k + d) % 2 != 0 then None
    else Chosen(l, Greedy(l, d - 1, k - 1), Greedy(l, d - 1, k + 1))
  }

  /** The edit that leads further, from the diagonal below or from the one above. */
  function Chosen<T>(l: Lists<T>, below: Option<seq<Op>>, above: Option<seq<Op>>): Option<seq<Op>> {
    var canAdd, canRemove := MayAdd(l, below), MayRemove(l, above);
    if canRemove && (!canAdd || NewUsed(below.value) < NewUsed(above.value))
      then Some(Followed(l, above.value + [Remove]))
    else if canAdd then Some(Followed(l, below.value + [Add]))
    else None
  }

  predicate MayAdd<T>(l: Lists<T>, below: Option<seq<Op>>) {
    below.Some? && NewUsed(below.value) < |l.after|
  }

  predicate MayRemove<T>(l: Lists<T>, above: Option<seq<Op>>) {
    above.Some? && OldUsed(above.value) < |l.before|
  }

  /** The operations, and the matches behind them. */
  function Followed<T>(l: Lists<T>, ops: seq<Op>): seq<Op> {
    ops + Repeat(Keep, Slide(l, NewUsed(ops), OldUsed(ops)) - NewUsed(ops))
  }

  /** The operations have come to the end of both lists. */
  predicate AtEnd<T>(l: Lists<T>, found: Option<seq<Op>>) {
    found.Some? && NewUsed(found.value) == |l.after| && OldUsed(found.value) == |l.before|
  }

  /** The first script that comes to the end of both lists, from d additions and removals on. */
  function ScriptFrom<T>(l: Lists<T>, d: nat): seq<Op>
    decreases |l.before| + |l.after| - d
  {
    if AtEnd(l, Greedy(l, d, Goal(l))) then Greedy(l, d, Goal(l)).value
    else if d >= |l.before| + |l.after| then []
    else ScriptFrom(l, d + 1)
  }

  /** The script the diff of the two lists finds. */
  function DiffScript<T>(l: Lists<T>): seq<Op> {
    ScriptFrom(l, 0)
  }

  // ---------------------------------------------------------------------------------
  // Greedy scripts and fronts

  /** The scripts play to the points of the front. */
  ghost predicate Reaches<T>(l: Lists<T>, d: nat, f: Front) {
    forall k: int :: ReachesAt(l, d, f, k)
  }

  ghost predicate ReachesAt<T>(l: Lists<T>, d: nat, f: Front, k: int) {
    var found := Greedy(l, d, k);
    && (found.Some? <==> k in f)
    && (found.Some? ==>
        Playable(l, found.value) && Cost(found.value) == d && NewUsed(found.value) == f[k] &&
          OldUsed(found.value) == f[k] - k)
  }

  /** Following matches keeps the cost. */
  lemma {:induction false} FollowedPlays<T>(l: Lists<T>, ops: seq<Op>)
    requires Playable(l, ops)
    ensures var s := Followed(l, ops);
            && Playable(l, s) && Cost(s) == Cost(ops)
            && NewUsed(s) == Slide(l, NewUsed(ops), OldUsed(ops)) &&
               OldUsed(s) == OldUsed(ops) + NewUsed(s) - NewUsed(ops)
  {
    KeepRun(l, ops, Slide(l, NewUsed(ops), OldUsed(ops)) - NewUsed(ops));
  }

  lemma {:induction false} ReachesStart<T>(l: Lists<T>)
    ensures Reaches(l, 0, map[0 := Slide(l, 0, 0)]) && Greedy(l, 0, 0) == Some(Followed(l, []))
  {
    EmptyScript(l);
    FollowedPlays(l, []);
    hide NewUsed, OldUsed, Playable, Cost, Slide;
    var f: Front := map[0 := Slide(l, 0, 0)];
    assert forall k: int :: ReachesAt(l, 0, f, k);
  }

  /** From the scripts of one round to those of the next. */
  lemma {:induction false} ReachesNext<T>(l: Lists<T>, d: nat, f: Front, g: Front)
    requires Reaches(l, d, f) && OnRound(f, d) && NextFront(l, f, d + 1, g)
    ensures Reaches(l, d + 1, g)
  {
    hide Greedy, NewUsed, OldUsed, Playable, Cost, Slide, ReachesAt, EditScript.Enter, CanAdd, CanRemove, MayAdd,
         MayRemove, Followed;
    var next := d + 1;
    forall k: int
      ensures ReachesAt(l, next, g, k)
    {
      assert ReachesAt(l, d, f, k - 1) && ReachesAt(l, d, f, k + 1);
      ReachesStep(l, d, f, g, k);
    }
  }

  /** The tests on scripts are those on the front. */
  lemma {:induction false} SameTests<T>(l: Lists<T>, d: nat, f: Front, k: int)
    requires ReachesAt(l, d, f, k - 1) && ReachesAt(l, d, f, k + 1)
    ensures MayAdd(l, Greedy(l, d, k - 1)) <==> CanAdd(l, f, k)
    ensures MayRemove(l, Greedy(l, d, k + 1)) <==> CanRemove(l, f, k)
  {
    hide Greedy, NewUsed, OldUsed, Playable, Cost;
  }

  lemma {:induction false} ReachesStep<T>(l: Lists<T>, d: nat, f: Front, g: Front, k: int)
    requires ReachesAt(l, d, f, k - 1) && ReachesAt(l, d, f, k + 1) && NextFront(l, f, d + 1, g)
    ensures ReachesAt(l, d + 1, g, k)
  {
    hide NewUsed, OldUsed, Playable, Cost, Slide, Followed, CanAdd, CanRemove, EditScript.Enter, Chosen, MayAdd,
         MayRemove;
    SameTests(l, d, f, k);
    if 0 <= k + d + 1 && k <= d + 1 && (k + d + 1) % 2 == 0 && (CanAdd(l, f, k) || CanRemove(l, f, k)) {
      var s := ChosenPlays(l, d, f, k);
      assert Greedy(l, d + 1, k) == Some(s);
    } else {
      NoneChosen(l, Greedy(l, d, k - 1), Greedy(l, d, k + 1));
      assert k !in g;
    }
  }

  lemma {:induction false} NoneChosen<T>(l: Lists<T>, below: Option<seq<Op>>, above: Option<seq<Op>>)
    ensures Chosen(l, below, above).None? <==> !MayAdd(l, below) && !MayRemove(l, above)
  {
    hide NewUsed, OldUsed;
  }

  /** The chosen edit leads to where the front enters the diagonal. */
  lemma {:induction false} ChosenPlays<T>(l: Lists<T>, d: nat, f: Front, k: int) returns (s: seq<Op>)
    requires ReachesAt(l, d, f, k - 1) && ReachesAt(l, d, f, k + 1) && (CanAdd(l, f, k) || CanRemove(l, f, k))
    ensures Chosen(l, Greedy(l, d, k - 1), Greedy(l, d, k + 1)) == Some(s)
    ensures k <= Enter(l, f, k) && Playable(l, s) && Cost(s) == d + 1
    ensures NewUsed(s) == Slide(l, Enter(l, f, k), Enter(l, f, k) - k) && OldUsed(s) == NewUsed(s) - k
  {
    hide Greedy, NewUsed, OldUsed, Playable, Cost, Slide, Followed;
    var below, above := Greedy(l, d, k - 1), Greedy(l, d, k + 1);
    SameTests(l, d, f, k);
    var removes := CanRemove(l, f, k) && (!CanAdd(l, f, k) || NewUsed(below.value) < NewUsed(above.value));
    var base, op := if removes then above.value else below.value, if removes then Remove else Add;
    Snoc(l, base, op);
    FollowedPlays(l, base + [op]);
    s := Followed(l, base + [op]);
  }

  /** The next script on diagonal k, in terms of the front. */
  lemma {:induction false} GreedyEdit<T>(l: Lists<T>, d: nat, f: Front, k: int, base: seq<Op>, removes: bool)
    requires Reaches(l, d, f) && 0 <= k + d + 1 && k <= d + 1 && (k + d + 1) % 2 == 0
    requires if removes then CanRemove(l, f, k) && (!CanAdd(l, f, k) || f[k - 1] < f[k + 1])
             else CanAdd(l, f, k) && !(CanRemove(l, f, k) && f[k - 1] < f[k + 1])
    requires Greedy(l, d, if removes then k + 1 else k - 1) == Some(base)
    ensures Greedy(l, d + 1, k) == Some(Followed(l, base + [if removes then Remove else Add]))
  {
    hide NewUsed, OldUsed, Playable, Cost, Slide, Followed;
    assert ReachesAt(l, d, f, k - 1) && ReachesAt(l, d, f, k + 1);
    SameTests(l, d, f, k);
  }

  /** An unfinished round is not the one the script is from. */
  lemma {:induction false} Later<T>(l: Lists<T>, d: nat, f: Front)
    requires Reaches(l, d, f) && !Finished(l, f) && d < |l.before| + |l.after|
    ensures ScriptFrom(l, d) == ScriptFrom(l, d + 1)
  {
    hide Greedy, NewUsed, OldUsed, Playable, Cost;
    assert ReachesAt(l, d, f, Goal(l));
  }

  /** Lists that match entirely keep everything. */
  lemma {:induction false} WholeScript<T>(l: Lists<T>)
    requires |l.after| <= Slide(l, 0, 0) && |l.before| <= Slide(l, 0, 0)
    ensures DiffScript(l) == Repeat(Keep, |l.after|)
  {
    EmptyScript(l);
    SlideMatches(l, 0, 0);
    FollowedPlays(l, []);
    hide NewUsed, OldUsed, Playable, Cost, Slide;
    assert [] + Repeat(Keep, |l.after|) == Repeat(Keep, |l.after|);
    assert Greedy(l, 0, Goal(l)) == Some(Repeat(Keep, |l.after|));
  }
}
