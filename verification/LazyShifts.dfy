/** The shift bookkeeping of the tidy tree, functions `f` (moveSubtree) and `u` (executeShifts)
    of module "22da", against spreading every shift over the siblings at once. */
module LazyShifts {

  /** The fields of a sibling's hierNode that moving subtrees touches. */
  datatype Sibling = Sibling(prelim: real, modifier: real, change: real, shift: real)

  /** A step taken so many times. */
  function Times(step: real, count: int): real { step * count as real }

  lemma {:induction false} TimesNext(step: real, count: int)
    ensures Times(step, count + 1) == Times(step, count) + step && Times(step, 0) == 0.0
    ensures step >= 0.0 && count >= 0 ==> Times(step, count) >= 0.0
  {
    assert (count + 1) as real == count as real + 1.0;
  }

  /** Subtree `right` moves by `amount`; the siblings between it and `left` are to follow. */
  datatype Move = Move(left: nat, right: nat, amount: real) {
    ghost predicate Fits(n: nat) { left < right < n }

    function Step(): real
      requires left < right
    {
      amount / (right - left) as real
    }

    /** What is still to be given to sibling j: a linear share between the two endpoints. */
    function Share(j: nat): real
      requires left < right
    {
      if left <= j < right then Times(Step(), j - left) else 0.0
    }
  }

  /** moveSubtree: the right endpoint moves now, the rest is noted in change and shift. */
  function Noted(s: seq<Sibling>, m: Move): (r: seq<Sibling>)
    requires m.left < m.right < |s|
  {
    var a, b, n := s[m.left], s[m.right], m.Step();
    s[m.right := Sibling(b.prelim + m.amount, b.modifier + m.amount, b.change - n, b.shift + m.amount)]
     [m.left := a.(change := a.change + n)]
  }

  /** The immediate version: every sibling from left to right moves by its share. */
  function Spread(s: seq<Sibling>, m: Move): (r: seq<Sibling>)
    requires m.left < m.right < |s|
  {
    seq(|s|, j requires 0 <= j < |s| =>
      var share := if j == m.right then m.amount else m.Share(j);
      s[j].(prelim := s[j].prelim + share, modifier := s[j].modifier + share))
  }

  /** Sum of the changes from sibling j to the last one. */
  function ChangeFrom(s: seq<Sibling>, j: nat): real
    requires j <= |s|
    decreases |s| - j
  {
    if j == |s| then 0.0 else s[j].change + ChangeFrom(s, j + 1)
  }

  /** What executeShifts adds to sibling j. */
  function Pending(s: seq<Sibling>, j: nat): real
    requires j < |s|
    decreases |s| - j
  {
    if j + 1 == |s| then 0.0 else Pending(s, j + 1) + s[j + 1].shift + ChangeFrom(s, j + 1)
  }

  lemma {:induction false} PendingStart(s: seq<Sibling>)
    requires s != []
    ensures Pending(s, |s| - 1) == 0.0 && ChangeFrom(s, |s|) == 0.0
  {
  }

  lemma PendingStep(s: seq<Sibling>, j: nat)
    requires j < |s|
    ensures ChangeFrom(s, j) == s[j].change + ChangeFrom(s, j + 1)
    ensures j > 0 ==> Pending(s, j - 1) == Pending(s, j) + s[j].shift + ChangeFrom(s, j)
  {
  }

  /** executeShifts on a whole list of siblings. */
  function Executed(s: seq<Sibling>): (r: seq<Sibling>) {
    seq(|s|, j requires 0 <= j < |s| =>
      s[j].(prelim := s[j].prelim + Pending(s, j), modifier := s[j].modifier + Pending(s, j)))
  }

  /** Nothing is noted. */
  ghost predicate Still(s: seq<Sibling>) {
    forall j :: 0 <= j < |s| ==> s[j].change == 0.0 && s[j].shift == 0.0
  }

  ghost predicate SamePlace(s: seq<Sibling>, t: seq<Sibling>) {
    |s| == |t| && forall j :: 0 <= j < |s| ==> s[j].prelim == t[j].prelim && s[j].modifier == t[j].modifier
  }

  lemma {:induction false} StillPending(s: seq<Sibling>, j: nat)
    requires Still(s) && j < |s|
    ensures Pending(s, j) == 0.0 && ChangeFrom(s, j) == 0.0
    decreases |s| - j
  {
    if j + 1 < |s| {
      StillPending(s, j + 1);
    } else {
      assert ChangeFrom(s, j + 1) == 0.0;
    }
  }

  lemma WholeStep(m: Move)
    requires m.left < m.right
    ensures Times(m.Step(), m.right - m.left) == m.amount
    ensures m.amount >= 0.0 ==> m.Step() >= 0.0
  {
  }

  lemma {:induction false} NotedChange(s: seq<Sibling>, m: Move, j: nat)
    requires m.Fits(|s|) && j <= |s|
    ensures ChangeFrom(Noted(s, m), j) == ChangeFrom(s, j) - if m.left < j <= m.right then m.Step() else 0.0
    decreases |s| - j
  {
    if j < |s| {
      NotedChange(s, m, j + 1);
    }
  }

  /** Noting a move adds exactly its linear share to what is pending for every sibling. */
  lemma {:induction false} NotedPending(s: seq<Sibling>, m: Move, j: nat)
    requires m.Fits(|s|) && j < |s|
    ensures Pending(Noted(s, m), j) == Pending(s, j) + m.Share(j)
    decreases |s| - j
  {
    if j + 1 < |s| {
      NotedPending(s, m, j + 1);
      NotedChange(s, m, j + 1);
      ShareStep(m, j);
      hide Times, Move.Step, Move.Share, ChangeFrom;
      PendingStep(s, j + 1);
      PendingStep(Noted(s, m), j + 1);
    } else {
      PendingStart(s);
      PendingStart(Noted(s, m));
    }
  }

  /** How the share of one sibling differs from that of the next. */
  lemma {:induction false} ShareStep(m: Move, j: nat)
    requires m.left < m.right
    ensures m.Share(j) == m.Share(j + 1) + (if j + 1 == m.right then m.amount else 0.0) -
            if m.left < j + 1 <= m.right then m.Step() else 0.0
  {
    WholeStep(m);
    TimesNext(m.Step(), j - m.left);
    TimesNext(m.Step(), 0);
    hide Times, Move.Step;
  }

  function NotedAll(s: seq<Sibling>, moves: seq<Move>): (r: seq<Sibling>)
    requires forall i :: 0 <= i < |moves| ==> moves[i].left < moves[i].right < |s|
    ensures |r| == |s|
  {
    if moves == [] then s else Noted(NotedAll(s, moves[..|moves| - 1]), moves[|moves| - 1])
  }

  function SpreadAll(s: seq<Sibling>, moves: seq<Move>): (r: seq<Sibling>)
    requires forall i :: 0 <= i < |moves| ==> moves[i].left < moves[i].right < |s|
    ensures |r| == |s|
  {
    if moves == [] then s else Spread(SpreadAll(s, moves[..|moves| - 1]), moves[|moves| - 1])
  }

  /** Noting one move and executing is executing and spreading that move at once. */
  lemma NotedThenExecuted(s: seq<Sibling>, m: Move)
    requires m.Fits(|s|)
    ensures SamePlace(Executed(Noted(s, m)), Spread(Executed(s), m))
  {
    forall j | 0 <= j < |s|
      ensures Executed(Noted(s, m))[j].prelim == Spread(Executed(s), m)[j].prelim
      ensures Executed(Noted(s, m))[j].modifier == Spread(Executed(s), m)[j].modifier
    {
      NotedPending(s, m, j);
    }
  }

  /** For every sequence of moves, one executeShifts pass puts every sibling where spreading
      each move at once would have put it. */
  lemma {:induction false} LazyIsImmediate(s: seq<Sibling>, moves: seq<Move>)
    requires Still(s)
    requires forall i :: 0 <= i < |moves| ==> moves[i].left < moves[i].right < |s|
    ensures SamePlace(Executed(NotedAll(s, moves)), SpreadAll(s, moves))
  {
    if moves == [] {
      forall j | 0 <= j < |s|
        ensures Pending(s, j) == 0.0
      {
        StillPending(s, j);
      }
    } else {
      var init, m := moves[..|moves| - 1], moves[|moves| - 1];
      LazyIsImmediate(s, init);
      NotedThenExecuted(NotedAll(s, init), m);
    }
  }

  /** A move leaves the siblings at or left of its left endpoint, and right of its right one, alone. */
  lemma NoEffectOutside(s: seq<Sibling>, m: Move, j: nat)
    requires m.Fits(|s|) && j < |s| && (j <= m.left || m.right < j)
    ensures Executed(Noted(s, m))[j].prelim == Executed(s)[j].prelim
    ensures Executed(Noted(s, m))[j].modifier == Executed(s)[j].modifier
  {
    NotedPending(s, m, j);
  }

  /** A rightward move never brings neighbouring siblings closer together. */
  lemma NeighboursSpread(s: seq<Sibling>, m: Move, j: nat)
    requires m.Fits(|s|) && j + 1 < |s| && m.amount >= 0.0 && j + 1 <= m.right
    ensures Executed(Noted(s, m))[j + 1].prelim - Executed(Noted(s, m))[j].prelim >=
            Executed(s)[j + 1].prelim - Executed(s)[j].prelim
  {
    NotedPending(s, m, j);
    NotedPending(s, m, j + 1);
    WholeStep(m);
    ShareStep(m, j);
    hide Times, Move.Step, Move.Share, Pending;
  }

  /** Pending shifts depend on changes and shifts alone. */
  lemma {:induction false} PendingSame(s: seq<Sibling>, s': seq<Sibling>, j: nat)
    requires |s| == |s'| && j < |s|
    requires forall i :: j < i < |s| ==> s[i].change == s'[i].change && s[i].shift == s'[i].shift
    ensures Pending(s, j) == Pending(s', j)
    ensures ChangeFrom(s, j + 1) == ChangeFrom(s', j + 1)
    decreases |s| - j
  {
    if j + 1 < |s| {
      PendingSame(s, s', j + 1);
    }
  }

  /** Nothing is pending where nothing is noted further right. */
  lemma {:induction false} PendingZero(s: seq<Sibling>, j: nat)
    requires j < |s|
    requires forall i :: j < i < |s| ==> s[i].change == 0.0 && s[i].shift == 0.0
    ensures Pending(s, j) == 0.0 && ChangeFrom(s, j + 1) == 0.0
    decreases |s| - j
  {
    if j + 1 < |s| {
      PendingZero(s, j + 1);
    }
  }
}
