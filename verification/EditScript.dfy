/** Edit scripts between two lists, as walks on the grid of consumed elements.
    This is the reference against which the diff of module "0c12" is proved. */
module EditScript {

  /** The two lists and the comparator. The comparator receives the element of the
      new list first and need not be an equivalence. */
  datatype Lists<!T> = Lists(before: seq<T>, after: seq<T>, equals: (T, T) -> bool)

  datatype Op = Keep | Add | Remove

  /** How many elements of the new list a script consumes. */
  function NewUsed(ops: seq<Op>): nat {
    if ops == [] then 0
    else NewUsed(ops[..|ops| - 1]) + if ops[|ops| - 1].Remove? then 0 else 1
  }

  /** How many elements of the old list a script consumes. */
  function OldUsed(ops: seq<Op>): nat {
    if ops == [] then 0
    else OldUsed(ops[..|ops| - 1]) + if ops[|ops| - 1].Add? then 0 else 1
  }

  /** Added plus removed elements. */
  function Cost(ops: seq<Op>): nat {
    if ops == [] then 0
    else Cost(ops[..|ops| - 1]) + if ops[|ops| - 1].Keep? then 0 else 1
  }

  /** The script can be played on the lists: it stays inside both of them and keeps
      only elements the comparator accepts. */
  ghost predicate Playable<T>(l: Lists<T>, ops: seq<Op>) {
    ops == [] ||
    var init := ops[..|ops| - 1];
    var n, m := NewUsed(init), OldUsed(init);
    && Playable(l, init)
    && match ops[|ops| - 1] {
         case Keep => n < |l.after| && m < |l.before| && l.equals(l.after[n], l.before[m])
         case Add => n < |l.after|
         case Remove => m < |l.before|
       }
  }

  /** A playable script that consumes both lists entirely. */
  ghost predicate Transforms<T>(l: Lists<T>, ops: seq<Op>) {
    Playable(l, ops) && NewUsed(ops) == |l.after| && OldUsed(ops) == |l.before|
  }

  /** The list a script produces: kept elements are taken from the old list, added
      ones from the new list. */
  function Replay<T>(before: seq<T>, after: seq<T>, ops: seq<Op>): seq<T> {
    if ops == [] then []
    else
      var init := ops[..|ops| - 1];
      var n, m := NewUsed(init), OldUsed(init);
      Replay(before, after, init) +
      match ops[|ops| - 1] {
        case Keep => if m < |before| then [before[m]] else []
        case Add => if n < |after| then [after[n]] else []
        case Remove => []
      }
  }

  function Repeat(op: Op, count: nat): (ops: seq<Op>)
    ensures |ops| == count
    ensures forall i :: 0 <= i < count ==> ops[i] == op
  {
    seq(count, _ => op)
  }

  /** Every kept element is a pair the comparator accepts, so with === as comparator
      the replayed list is the new one. */
  lemma {:induction false} ReplayIsAfter<T>(l: Lists<T>, ops: seq<Op>)
    requires Playable(l, ops)
    requires forall x, y :: x in l.after && y in l.before ==> (l.equals(x, y) <==> x == y)
    ensures NewUsed(ops) <= |l.after| && OldUsed(ops) <= |l.before|
    ensures Replay(l.before, l.after, ops) == l.after[..NewUsed(ops)]
  {
    if ops != [] {
      ReplayIsAfter(l, ops[..|ops| - 1]);
    }
  }

  lemma {:induction false} PlayableInGrid<T>(l: Lists<T>, ops: seq<Op>)
    requires Playable(l, ops)
    ensures NewUsed(ops) <= |l.after| && OldUsed(ops) <= |l.before|
  {
    if ops != [] {
      PlayableInGrid(l, ops[..|ops| - 1]);
    }
  }

  lemma {:induction false} EmptyScript<T>(l: Lists<T>)
    ensures Playable(l, []) && NewUsed([]) == OldUsed([]) == Cost([]) == 0
  {
  }

  /** The counters of a script extended by one operation. */
  lemma {:induction false} Snoc<T>(l: Lists<T>, ops: seq<Op>, op: Op)
    ensures NewUsed(ops + [op]) == NewUsed(ops) + if op.Remove? then 0 else 1
    ensures OldUsed(ops + [op]) == OldUsed(ops) + if op.Add? then 0 else 1
    ensures Cost(ops + [op]) == Cost(ops) + if op.Keep? then 0 else 1
    ensures Playable(l, ops + [op]) <==>
            Playable(l, ops) &&
            match op {
              case Keep => NewUsed(ops) < |l.after| && OldUsed(ops) < |l.before| &&
                           l.equals(l.after[NewUsed(ops)], l.before[OldUsed(ops)])
              case Add => NewUsed(ops) < |l.after|
              case Remove => OldUsed(ops) < |l.before|
            }
  {
    assert (ops + [op])[..|ops|] == ops;
  }

  // ---------------------------------------------------------------------------------
  // The furthest point of each diagonal

  /** For each diagonal k (new minus old elements consumed) that is still alive, how many
      elements of the new list its furthest path has consumed. */
  type Front = map<int, nat>

  /** Follow matching elements from a grid point; the result is the new-list coordinate. */
  function Slide<T>(l: Lists<T>, n: nat, m: nat): (end: nat)
    ensures n <= end
    decreases |l.after| - n
  {
    if n < |l.after| && m < |l.before| && l.equals(l.after[n], l.before[m]) then Slide(l, n + 1, m + 1) else n
  }

  predicate CanAdd<T>(l: Lists<T>, f: Front, k: int) {
    k - 1 in f && f[k - 1] < |l.after|
  }

  predicate CanRemove<T>(l: Lists<T>, f: Front, k: int) {
    k + 1 in f && f[k + 1] - k - 1 < |l.before|
  }

  /** Where diagonal k is entered: by a removal when only that is possible or when it gets further. */
  function Enter<T>(l: Lists<T>, f: Front, k: int): nat
    requires CanAdd(l, f, k) || CanRemove(l, f, k)
  {
    if !CanAdd(l, f, k) || (CanRemove(l, f, k) && f[k - 1] < f[k + 1]) then f[k + 1] else f[k - 1] + 1
  }

  /** Every point of the front lies inside the grid. */
  predicate InGrid<T>(l: Lists<T>, f: Front) {
    forall k :: k in f ==> k <= f[k] <= |l.after| && f[k] - k <= |l.before|
  }

  /** The front of round `cost` is obtained from the previous one, diagonal by diagonal. */
  ghost predicate NextFront<T>(l: Lists<T>, f: Front, cost: nat, g: Front) {
    forall k: int ::
      if 0 <= k + cost && k <= cost && (k + cost) % 2 == 0 && (CanAdd(l, f, k) || CanRemove(l, f, k))
      then k in g && Enter(l, f, k) >= k && g[k] == Slide(l, Enter(l, f, k), Enter(l, f, k) - k)
      else k !in g
  }

  /** The diagonal on which both lists are consumed. */
  function Goal<T>(l: Lists<T>): int {
    |l.after| - |l.before|
  }

  predicate Finished<T>(l: Lists<T>, f: Front) {
    Goal(l) in f && f[Goal(l)] == |l.after|
  }

  /** Point n on diagonal k needs no further attention: the front is at least as far on its
      diagonal, or a diagonal between it and the goal has already run into the edge of the
      grid, from where only additions or only removals remain. */
  ghost predicate Dominated<T>(l: Lists<T>, f: Front, n: nat, k: int) {
    || (k in f && f[k] >= n)
    || (exists j :: Goal(l) <= j < k && j in f && f[j] == |l.after|)
    || (exists j :: k < j <= Goal(l) && j in f && f[j] - j == |l.before|)
  }

  /** Keys of a front lie on the diagonals of its round. */
  predicate OnRound(f: Front, cost: nat) {
    forall k :: k in f ==> 0 <= k + cost && k <= cost && (k + cost) % 2 == 0
  }

  /** The end of a script is a dominated point. */
  ghost predicate Escorted<T>(l: Lists<T>, f: Front, ops: seq<Op>) {
    Dominated(l, f, NewUsed(ops), NewUsed(ops) - OldUsed(ops))
  }

  /** The front is complete for `cost`: no playable script of that cost escapes it. */
  ghost predicate Complete<T>(l: Lists<T>, f: Front, cost: nat) {
    forall ops :: Playable(l, ops) && Cost(ops) == cost ==>
                    Escorted(l, f, ops)
  }

  /** A script extended along its slide stays playable and costs the same. */
  lemma {:induction false} KeepRun<T>(l: Lists<T>, ops: seq<Op>, count: nat)
    requires Playable(l, ops) && count <= Slide(l, NewUsed(ops), OldUsed(ops)) - NewUsed(ops)
    ensures var longer := ops + Repeat(Keep, count);
            && Playable(l, longer) && Cost(longer) == Cost(ops)
            && NewUsed(longer) == NewUsed(ops) + count && OldUsed(longer) == OldUsed(ops) + count
            && Slide(l, NewUsed(longer), OldUsed(longer)) == Slide(l, NewUsed(ops), OldUsed(ops))
  {
    hide Playable, NewUsed, OldUsed, Cost;
    if count == 0 {
      assert ops + Repeat(Keep, 0) == ops;
    } else {
      KeepRun(l, ops, count - 1);
      Snoc(l, ops + Repeat(Keep, count - 1), Keep);
      assert ops + Repeat(Keep, count) == ops + Repeat(Keep, count - 1) + [Keep];
    }
  }

  /** Sliding passes every point of the diagonal that is connected to its start by matches. */
  lemma {:induction false} SlideMatches<T>(l: Lists<T>, n: nat, m: nat)
    requires n <= |l.after| && m <= |l.before|
    ensures Slide(l, n, m) <= |l.after| && Slide(l, n, m) - n + m <= |l.before|
    ensures var e := Slide(l, n, m);
            e == |l.after| || e - n + m == |l.before| || !l.equals(l.after[e], l.before[e - n + m])
    decreases |l.after| - n
  {
    if n < |l.after| && m < |l.before| && l.equals(l.after[n], l.before[m]) {
      SlideMatches(l, n + 1, m + 1);
    }
  }

  /** A step along a match cannot leave the dominated area. */
  lemma KeepStaysDominated<T>(l: Lists<T>, f: Front, cost: nat, g: Front, n: nat, k: int)
    requires InGrid(l, f) && NextFront(l, f, cost, g)
    requires Dominated(l, g, n, k)
    requires k <= n < |l.after| && n - k < |l.before| && l.equals(l.after[n], l.before[n - k])
    ensures Dominated(l, g, n + 1, k)
  {
    if k in g && g[k] >= n {
      var s := Enter(l, f, k);
      SlideMatches(l, s, s - k);
    }
  }

  /** A diagonal at the right edge moves towards the goal by a removal. */
  lemma RightEdgeStep<T>(l: Lists<T>, f: Front, cost: nat, g: Front, j: int)
    requires InGrid(l, f) && OnRound(f, cost) && !Finished(l, f)
    requires NextFront(l, f, cost + 1, g)
    requires Goal(l) <= j && j in f && f[j] == |l.after|
    ensures Goal(l) <= j - 1 && j - 1 in g && g[j - 1] == |l.after|
  {
    var k := j - 1;
    assert CanRemove(l, f, k);
    SlideMatches(l, Enter(l, f, k), Enter(l, f, k) - k);
  }

  /** A diagonal at the bottom edge moves towards the goal by an addition. */
  lemma BottomEdgeStep<T>(l: Lists<T>, f: Front, cost: nat, g: Front, j: int)
    requires InGrid(l, f) && OnRound(f, cost) && !Finished(l, f)
    requires NextFront(l, f, cost + 1, g)
    requires j <= Goal(l) && j in f && f[j] - j == |l.before|
    ensures j + 1 <= Goal(l) && j + 1 in g && g[j + 1] - (j + 1) == |l.before|
  {
    var k := j + 1;
    assert CanAdd(l, f, k);
    SlideMatches(l, Enter(l, f, k), Enter(l, f, k) - k);
  }

  /** One edit takes a dominated point of round `cost` to a dominated point of the next. */
  lemma EditStaysDominated<T>(l: Lists<T>, f: Front, cost: nat, g: Front, n: nat, k: int, op: Op)
    requires InGrid(l, f) && OnRound(f, cost) && !Finished(l, f)
    requires NextFront(l, f, cost + 1, g)
    requires Dominated(l, f, n, k)
    requires (op.Add? && n < |l.after|) || (op.Remove? && k <= n && n - k < |l.before|)
    ensures if op.Add? then Dominated(l, g, n + 1, k + 1) else Dominated(l, g, n, k - 1)
  {
    hide NextFront, OnRound, Finished;
    if j :| Goal(l) <= j < k && j in f && f[j] == |l.after| {
      RightEdgeStep(l, f, cost, g, j);
    } else if j :| k < j <= Goal(l) && j in f && f[j] - j == |l.before| {
      BottomEdgeStep(l, f, cost, g, j);
    } else if op.Add? && f[k] == |l.after| {
      RightEdgeStep(l, f, cost, g, k);
    } else if op.Remove? && f[k] - k == |l.before| {
      BottomEdgeStep(l, f, cost, g, k);
    } else {
      EditLands(l, f, cost, g, k, op);
    }
  }

  /** A path that can go on reaches the neighbouring diagonal, and at least as far. */
  lemma {:induction false} EditLands<T>(l: Lists<T>, f: Front, cost: nat, g: Front, k: int, op: Op)
    requires InGrid(l, f) && OnRound(f, cost) && NextFront(l, f, cost + 1, g) && k in f && !op.Keep?
    requires if op.Add? then f[k] < |l.after| else f[k] - k < |l.before|
    ensures var k' := if op.Add? then k + 1 else k - 1;
            k' in g && g[k'] >= if op.Add? then f[k] + 1 else f[k]
  {
    var k' := if op.Add? then k + 1 else k - 1;
    assert CanAdd(l, f, k') || CanRemove(l, f, k');
    hide Slide;
  }

  /** Completeness carries over from one round to the next as long as the goal is not reached:
      the case of a script that ends with an edit. */
  lemma {:induction false} CompleteEdit<T>(l: Lists<T>, f: Front, cost: nat, g: Front, init: seq<Op>, op: Op)
    requires InGrid(l, f) && OnRound(f, cost) && !Finished(l, f) && Complete(l, f, cost)
    requires NextFront(l, f, cost + 1, g)
    requires Playable(l, init + [op]) && Cost(init + [op]) == cost + 1 && !op.Keep?
    ensures Escorted(l, g, init + [op])
  {
    hide Playable, NewUsed, OldUsed, Cost, Dominated, NextFront, InGrid, OnRound, Finished;
    var n: int, m: int := NewUsed(init), OldUsed(init);
    Snoc(l, init, op);
    assert Escorted(l, f, init);
    EditStaysDominated(l, f, cost, g, n, n - m, op);
  }

  /** The case of a script that ends with a match. */
  lemma {:induction false} CompleteKeep<T>(l: Lists<T>, f: Front, cost: nat, g: Front, init: seq<Op>)
    requires InGrid(l, f) && NextFront(l, f, cost, g)
    requires Playable(l, init + [Keep]) && Escorted(l, g, init)
    ensures Escorted(l, g, init + [Keep])
  {
    hide Playable, NewUsed, OldUsed, Cost, Dominated, NextFront, InGrid;
    Snoc(l, init, Keep);
    KeepStaysDominated(l, f, cost, g, NewUsed(init), NewUsed(init) as int - OldUsed(init));
  }

  /** The general case: matches at the end are walked through one by one. */
  lemma {:induction false} CompleteStep<T>(l: Lists<T>, f: Front, cost: nat, g: Front, ops: seq<Op>)
    requires InGrid(l, f) && OnRound(f, cost) && !Finished(l, f) && Complete(l, f, cost)
    requires NextFront(l, f, cost + 1, g)
    requires Playable(l, ops) && Cost(ops) == cost + 1
    ensures Escorted(l, g, ops)
  {
    var init, op := ops[..|ops| - 1], ops[|ops| - 1];
    assert ops == init + [op];
    if op.Keep? {
      CompleteStep(l, f, cost, g, init);
      CompleteKeep(l, f, cost + 1, g, init);
    } else {
      CompleteEdit(l, f, cost, g, init, op);
    }
  }

  /** A front stays inside the grid and on the diagonals of its round. */
  lemma NextFrontInGrid<T>(l: Lists<T>, f: Front, cost: nat, g: Front)
    requires InGrid(l, f) && NextFront(l, f, cost, g)
    ensures InGrid(l, g) && OnRound(g, cost)
  {
    forall k | k in g
      ensures k <= g[k] <= |l.after| && g[k] - k <= |l.before|
    {
      SlideMatches(l, Enter(l, f, k), Enter(l, f, k) - k);
    }
  }

  /** Round 0 follows the matches from the origin. */
  lemma {:induction false} CompleteStart<T>(l: Lists<T>, ops: seq<Op>)
    requires Playable(l, ops) && Cost(ops) == 0
    ensures NewUsed(ops) == OldUsed(ops) && NewUsed(ops) <= Slide(l, 0, 0)
  {
    if ops != [] {
      CompleteStart(l, ops[..|ops| - 1]);
      SlideMatches(l, 0, 0);
    }
  }

  /** An unfinished complete front rules out every transforming script of its cost. */
  lemma {:induction false} UnfinishedMeansNoScript<T>(l: Lists<T>, f: Front, cost: nat, ops: seq<Op>)
    requires InGrid(l, f) && Complete(l, f, cost) && !Finished(l, f)
    requires Transforms(l, ops)
    ensures Cost(ops) != cost
  {
    assert !Escorted(l, f, ops);
  }

  /** Removing everything and adding everything is a transforming script. */
  lemma ReplaceAll<T>(l: Lists<T>)
    ensures exists ops :: Transforms(l, ops) && Cost(ops) == |l.before| + |l.after|
  {
    var ops := [];
    while |ops| < |l.before|
      invariant |ops| <= |l.before| && Playable(l, ops)
      invariant NewUsed(ops) == 0 && OldUsed(ops) == Cost(ops) == |ops|
    {
      Snoc(l, ops, Remove);
      ops := ops + [Remove];
    }
    while NewUsed(ops) < |l.after|
      invariant NewUsed(ops) <= |l.after| && Playable(l, ops)
      invariant OldUsed(ops) == |l.before| && Cost(ops) == |l.before| + NewUsed(ops)
      decreases |l.after| - NewUsed(ops)
    {
      Snoc(l, ops, Add);
      ops := ops + [Add];
    }
  }

  /** No transforming script costs less than `cost`. */
  ghost predicate NoneBelow<T>(l: Lists<T>, cost: nat) {
    forall ops :: Transforms(l, ops) ==> cost <= Cost(ops)
  }

  /** The first front is complete. */
  lemma {:induction false} FirstFront<T>(l: Lists<T>)
    ensures var f: Front := map[0 := Slide(l, 0, 0)];
            InGrid(l, f) && OnRound(f, 0) && Complete(l, f, 0)
  {
    SlideMatches(l, 0, 0);
    forall ops | Playable(l, ops) && Cost(ops) == 0
      ensures Escorted(l, map[0 := Slide(l, 0, 0)], ops)
    {
      CompleteStart(l, ops);
    }
  }

  /** One unfinished round after another: the fronts stay complete and rule out ever longer scripts. */
  lemma RoundInvariant<T>(l: Lists<T>, f: Front, cost: nat, g: Front)
    requires InGrid(l, f) && OnRound(f, cost) && Complete(l, f, cost) && !Finished(l, f)
    requires NextFront(l, f, cost + 1, g)
    ensures InGrid(l, g) && OnRound(g, cost + 1) && Complete(l, g, cost + 1)
  {
    NextFrontInGrid(l, f, cost + 1, g);
    forall ops | Playable(l, ops) && Cost(ops) == cost + 1
      ensures Escorted(l, g, ops)
    {
      CompleteStep(l, f, cost, g, ops);
    }
  }

  lemma NoneBelowNext<T>(l: Lists<T>, f: Front, cost: nat)
    requires InGrid(l, f) && Complete(l, f, cost) && !Finished(l, f) && NoneBelow(l, cost)
    ensures NoneBelow(l, cost + 1)
  {
    forall ops | Transforms(l, ops)
      ensures cost + 1 <= Cost(ops)
    {
      UnfinishedMeansNoScript(l, f, cost, ops);
    }
  }

  /** The search cannot outlast |before| + |after| rounds. */
  lemma RoundsBounded<T>(l: Lists<T>, cost: nat)
    requires NoneBelow(l, cost)
    ensures cost <= |l.before| + |l.after|
  {
    ReplaceAll(l);
  }
}
