/** What the entries of a compiled generator (module "96cf") remember from one time to the next, over
    any run of calls: a completion that is left over when a finalizer is reached again. */
module GeneratorMemory {
  import opened Collections
  import opened GeneratorTable
  import opened GeneratorUnwinding
  import opened GeneratorSteps
  import opened GeneratorRuns

  // ---------------------------------------------------------------------------------
  // What entries remember

  /** What an entry remembers after the events. */
  ghost function Kept(log: seq<Event>, i: nat): Completion {
    if log == [] then Normal
    else
      var before, e := log[..|log| - 1], log[|log| - 1];
      if e.index != i then Kept(before, i)
      else
        match e
        case Left(_, completion) => completion
        case Finished(_) => if Kept(before, i).Thrown? then Kept(before, i) else Normal
        case Taken(_) => if Kept(before, i).Thrown? then Normal else Kept(before, i)
  }

  /** How the blocks of the entry were left the last time. */
  ghost function LastLeft(log: seq<Event>, i: nat): Completion {
    if log == [] then Normal
    else if log[|log| - 1].Left? && log[|log| - 1].index == i then log[|log| - 1].completion
    else LastLeft(log[..|log| - 1], i)
  }

  ghost predicate NoneNormal(log: seq<Event>) {
    forall k :: 0 <= k < |log| && log[k].Left? ==> !log[k].completion.Normal?
  }

  /** A throw out of the blocks was taken by the catch block, anything else was carried out at the end of
      the finalizer; or the blocks were left once more since. */
  ghost predicate Answered(log: seq<Event>, k: nat)
    requires k < |log| && log[k].Left?
  {
    exists l :: k < l < |log| && log[l].index == log[k].index && Answers(log[l], log[k].completion)
  }

  predicate Answers(e: Event, left: Completion) {
    e.Left? || (if left.Thrown? then e.Taken? else e.Finished?)
  }

  ghost predicate Settled(log: seq<Event>, i: nat) {
    forall k :: 0 <= k < |log| && log[k].Left? && log[k].index == i ==> Answered(log, k)
  }

  lemma {:induction false} SettledStep(log: seq<Event>, i: nat)
    requires log != []
    ensures var e := log[|log| - 1]; var before := log[..|log| - 1];
            Settled(log, i) <==>
              if e.index != i then Settled(before, i)
              else if e.Left? then false
              else
                Settled(before, i) ||
                forall k :: 0 <= k < |before| && before[k].Left? && before[k].index == i ==>
                  Answered(before, k) || Answers(e, before[k].completion)
  {
    var e, before := log[|log| - 1], log[..|log| - 1];
    forall k | 0 <= k < |before| && log[k].Left? && log[k].index == i
      ensures Answered(log, k) <==> Answered(before, k) || (e.index == i && Answers(e, log[k].completion))
    {
      if Answered(before, k) {
        var l :| k < l < |before| && before[l].index == before[k].index && Answers(before[l], before[k].completion);
        assert log[l] == before[l];
      }
    }
    assert e.Left? && e.index == i ==> !Answered(log, |before|);
  }

  /** Only the last leaving can be open. */
  lemma {:induction false} OpenIsLast(log: seq<Event>, k: nat)
    requires k < |log| && log[k].Left? && !Answered(log, k)
    ensures LastLeft(log, log[k].index) == log[k].completion
  {
    var e, before := log[|log| - 1], log[..|log| - 1];
    if k < |before| {
      assert !(e.index == log[k].index && Answers(e, log[k].completion));
      assert forall l :: 0 <= l < |before| ==> log[l] == before[l];
      OpenIsLast(before, k);
    }
  }

  /** An entry remembers nothing if and only if its last leaving is settled, and else how that was. */
  lemma {:induction false} KeptIsOpen(log: seq<Event>, i: nat)
    requires NoneNormal(log)
    ensures Kept(log, i) == if Settled(log, i) then Normal else LastLeft(log, i)
    ensures !Settled(log, i) ==> !LastLeft(log, i).Normal?
  {
    if log != [] {
      var e, before := log[|log| - 1], log[..|log| - 1];
      KeptIsOpen(before, i);
      SettledStep(log, i);
      if e.index == i && !e.Left? && !Settled(before, i) {
        var k :| 0 <= k < |before| && before[k].Left? && before[k].index == i && !Answered(before, k);
        OpenIsLast(before, k);
        forall j | 0 <= j < |before| && before[j].Left? && before[j].index == i && !Answered(before, j)
          ensures before[j].completion == LastLeft(before, i)
        {
          OpenIsLast(before, j);
        }
      }
    }
  }

  // ---------------------------------------------------------------------------------
  // Over any run, the entries remember what the events say

  ghost predicate Remembers(table: Table, c: Context) {
    Fits(table, c) && NoneNormal(c.log) && forall i :: 0 <= i < |table| ==> c.completions[i] == Kept(c.log, i)
  }

  lemma {:induction false} OneEvent(table: Table, c: Context, e: Event, d: Context)
    requires Remembers(table, c) && d.log == c.log + [e] && e.index < |table| && (e.Left? ==> !e.completion.Normal?)
    requires d.completions == c.completions[e.index := Kept(d.log, e.index)]
    ensures Remembers(table, d)
  {
    assert d.log[..|d.log| - 1] == c.log && d.log[|d.log| - 1] == e;
  }

  lemma {:induction false} KeptLast(log: seq<Event>, e: Event)
    ensures Kept(log + [e], e.index) ==
              match e
              case Left(_, completion) => completion
              case Finished(_) => if Kept(log, e.index).Thrown? then Kept(log, e.index) else Normal
              case Taken(_) => if Kept(log, e.index).Thrown? then Normal else Kept(log, e.index)
  {
    assert (log + [e])[..|log + [e]| - 1] == log && (log + [e])[|log + [e]| - 1] == e;
  }

  lemma {:induction false} SameMemory(table: Table, c: Context, d: Context)
    requires Remembers(table, c) && d.log == c.log && d.completions == c.completions
    ensures Remembers(table, d)
  {
  }

  lemma {:induction false} RemembersFits(table: Table, c: Context)
    requires Remembers(table, c)
    ensures Fits(table, c)
  {
  }

  lemma {:induction false} SentRemembers(table: Table, c: Context, p: Pending)
    requires Fits(table, c) && Remembers(table, c)
    ensures Remembers(table, Sent(table, c, p))
  {
    hide Kept, Remembers, InnermostLive, InnermostFinally;
    var d := Sent(table, c, p);
    if d.log != c.log {
      var found := if p.Throwing? then InnermostLive(table, |table|, c.prev)
        else InnermostFinally(table, |table|, c.prev);
      KeptLast(c.log, Left(found.value, CompletionOf(p)));
      OneEvent(table, c, Left(found.value, CompletionOf(p)), d);
    } else {
      SameMemory(table, c, d);
    }
  }

  lemma {:induction false} ArrivedRemembers(table: Table, c: Context, step: Step)
    requires Fits(table, c) && Remembers(table, c)
    ensures Remembers(table, Arrived(table, c, step))
  {
    var d := Arrived(table, c, step);
    assert d.log != c.log ==> forall i :: 0 <= i < |table| ==> c.completions[i] == Kept(c.log, i);
    hide Kept, Remembers, WithTryAt;
    if d.log != c.log {
      var e := Taken(WithTryAt(table, |table|, step.caught.value).value);
      KeptLast(c.log, e);
      OneEvent(table, c, e, d);
    } else {
      SameMemory(table, c, d);
    }
  }

  lemma {:induction false} FinishedRemembers(table: Table, c: Context, loc: nat)
    requires Fits(table, c) && Remembers(table, c)
    ensures Remembers(table, FinishedAt(table, c, loc).0)
  {
    var d := FinishedAt(table, c, loc).0;
    assert d.log != c.log ==> forall i :: 0 <= i < |table| ==> c.completions[i] == Kept(c.log, i);
    hide Kept, Remembers, WithFinallyAt;
    if d.log != c.log {
      var e := Finished(WithFinallyAt(table, |table|, loc).value);
      KeptLast(c.log, e);
      OneEvent(table, c, e, d);
    } else {
      SameMemory(table, c, d);
    }
  }

  lemma {:induction false} BodyRemembers(table: Table, c: Context, step: Step)
    requires Fits(table, c) && c.next.At? && Remembers(table, c)
    ensures Remembers(table, Body(table, c, step).0)
  {
    hide Remembers, Arrived, FinishedAt, AbruptReturned, AbruptJumped;
    var here, d := Arrived(table, c, step), Body(table, c, step).0;
    ArrivedRemembers(table, c, step);
    RemembersFits(table, here);
    match step.action {
      case AbruptReturn(v) => SentRemembers(table, here, Returning(v));
      case AbruptJump(to) => SentRemembers(table, here, Jumping(to));
      case Finish(loc) => FinishedRemembers(table, here, loc);
      case _ => SameMemory(table, if Enters(table, step) then here else c, d);
    }
    if !Enters(table, step) {
      SameMemory(table, c, d);
    }
  }

  lemma {:induction false} LoopRemembers(table: Table, c: Context, steps: seq<Step>)
    requires Fits(table, c) && (c.done ==> c.mode.Throw?) && Remembers(table, c)
    ensures Remembers(table, Loop(table, c, steps).context)
    decreases |steps|, !c.done
  {
    hide Remembers, Body, Prepared;
    if !c.done {
      PreparedRemembers(table, c);
      var d := Prepared(table, c).(state := Executing);
      SameMemory(table, Prepared(table, c), d);
      if d.next.End? {
        var e := d.(done := true, state := State.Completed);
        SameMemory(table, d, e);
        if d.root.Thrown? {
          SameMemory(table, e, e.(mode := Throw, arg := d.root.value));
          LoopRemembers(table, e.(mode := Throw, arg := d.root.value), steps);
        }
      } else if steps != [] {
        BodyRemembers(table, d, steps[0]);
        var (d', s) := Body(table, d, steps[0]);
        var e := if s.Throws? then d'.(state := State.Completed, mode := Throw, arg := s.value)
          else d'.(state := Suspended);
        SameMemory(table, d', e);
        if !s.Yields? {
          LoopRemembers(table, e, steps[1..]);
        }
      }
    }
  }

  lemma {:induction false} PreparedRemembers(table: Table, c: Context)
    requires Fits(table, c) && Remembers(table, c)
    ensures Remembers(table, Prepared(table, c))
  {
    hide Remembers, Dispatched, AbruptReturned;
    if c.mode.Throw? {
      SentRemembers(table, c, Throwing(c.arg));
    } else if c.mode.Return? {
      SentRemembers(table, c, Returning(c.arg));
    }
  }

  lemma {:induction false} CalledRemembers(table: Table, c: Context, call: Call)
    requires Fits(table, c) && (c.done ==> c.state.Completed?) && Remembers(table, c)
    ensures Remembers(table, Called(table, c, call).context)
  {
    hide Remembers, Loop;
    var c' := c.(mode := call.mode, arg := call.arg);
    SameMemory(table, c, c');
    SameMemory(table, c', c'.(state := State.Completed));
    if !c.done {
      LoopRemembers(table, c', call.steps);
    }
  }

  /** Over any run of calls of a new generator, every entry remembers nothing if its last leaving is
      settled, and else how its blocks were left then. */
  lemma {:induction false} RunRemembers(table: Table, calls: seq<Call>)
    ensures Remembers(table, Fresh(table))
    ensures forall j, i :: 0 <= j < |calls| && 0 <= i < |table| ==>
              var d := RunOf(table, Fresh(table), calls)[j].context;
              d.completions[i] == if Settled(d.log, i) then Normal else LastLeft(d.log, i)
  {
    hide Kept, Settled, LastLeft, RunOf;
    assert Remembers(table, Fresh(table)) by { FreshRemembers(table); }
    var rs := RunOf(table, Fresh(table), calls);
    LaterRemember(table, Fresh(table), calls);
    forall j, i | 0 <= j < |calls| && 0 <= i < |table|
      ensures rs[j].context.completions[i] == if Settled(rs[j].context.log, i) then Normal
              else LastLeft(rs[j].context.log, i)
    {
      KeptIsOpen(rs[j].context.log, i);
    }
  }

  lemma {:induction false} FreshRemembers(table: Table)
    ensures Remembers(table, Fresh(table))
  {
  }

  lemma {:induction false} LaterRemember(table: Table, c: Context, calls: seq<Call>)
    requires Fits(table, c) && (c.done ==> c.state.Completed?) && Remembers(table, c)
    ensures forall j :: 0 <= j < |calls| ==> Remembers(table, RunOf(table, c, calls)[j].context)
    decreases |calls|
  {
    hide Remembers, Called;
    if calls != [] {
      CalledRemembers(table, c, calls[0]);
      CalledStays(table, c, calls[0]);
      LaterRemember(table, Called(table, c, calls[0]).context, calls[1..]);
    }
  }

  /** A finalizer that is reached with no exception, return or jump on its way, as a normal exit from its
      block reaches it, goes on after its statement if and only if the last leaving of its blocks is
      settled, or was by a jump to that same place. Otherwise it does once more what that one did. */
  lemma {:induction false} FinishedAgain(table: Table, c: Context, i: nat, at: nat)
    requires WellNested(table) && Remembers(table, c) && Fits(table, c) && !c.done && c.root.Normal? && c.mode.Next? &&
             c.next.At?
    requires i < |table| && table[i].finallyLoc.Some?
    ensures var step := Step(None, at, Finish(table[i].finallyLoc.value)); var (d, s) := Body(table, c, step);
            var after := c.(prev := at, next := At(table[i].afterLoc), completions := c.completions[i := Normal], log :=
                            c.log + [Finished(i)]);
            && ((d, s) == (after, Continue) <==> Settled(c.log, i) || LastLeft(c.log, i) == Jumped(table[i].afterLoc))
            && (s.Throws? <==> !Settled(c.log, i) && LastLeft(c.log, i).Thrown?)
            && (s.Throws? ==> s == Throws(LastLeft(c.log, i).value))
            && (!Settled(c.log, i) && LastLeft(c.log, i).Returned? ==>
                d.mode.Return? && d.next.End? && d.arg == d.rval == LastLeft(c.log, i).value)
            && (!Settled(c.log, i) && LastLeft(c.log, i).Jumped? ==> d.next == At(LastLeft(c.log, i).to))
  {
    FinallyAtUnique(table, |table|, i);
    KeptIsOpen(c.log, i);
    hide Kept, Settled, LastLeft, WellNested, WithFinallyAt;
  }

  /** If no catch block asks for what is thrown out of the blocks, as there is none, a finalizer reached
      again throws if and only if the blocks were last left by a throw, however long ago. */
  lemma {:induction false} ThrownLast(log: seq<Event>, i: nat)
    requires NoneNormal(log) && Taken(i) !in log
    ensures !Settled(log, i) && LastLeft(log, i).Thrown? <==> LastLeft(log, i).Thrown?
  {
    if log != [] {
      var e, before := log[|log| - 1], log[..|log| - 1];
      ThrownLast(before, i);
      SettledStep(log, i);
      assert e == Taken(i) ==> Taken(i) in log;
      if LastLeft(log, i).Thrown? && !e.Left? && e.index == i {
        var k :| 0 <= k < |before| && before[k].Left? && before[k].index == i && !Answered(before, k);
        OpenIsLast(before, k);
      }
    }
  }
}
