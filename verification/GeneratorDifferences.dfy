/** Where the runtime of module "96cf" does not do what nested try statements do, each with the exact
    condition: breaks out of a finalizer, jumps within a finalizer, ends of statements nested in a
    finalizer, jumps through several finalizers, and finalizers that are reached again (GeneratorMemory
    has the condition for these). By GeneratorUnwinding.SlipsExactly there are no others. */
module GeneratorDifferences {
  import opened Collections
  import opened GeneratorTable
  import opened GeneratorUnwinding
  import opened GeneratorSteps
  import opened GeneratorCalls
  import opened GeneratorRuns

  // ---------------------------------------------------------------------------------
  // An act that slips shows

  /** No jump leads to the start of a catch block. */
  ghost predicate NoCatchAt(table: Table, to: nat) {
    forall i :: 0 <= i < |table| ==> table[i].catchLoc != Some(to)
  }

  /** Where unwinding is after the turn. */
  function After(t: Turn): Final {
    match t
    case Stops(f, _) => f
    case Moves(s, _) => Waiting(s)
  }

  ghost predicate RunsAt(r: Result, to: nat) {
    r.outcome.Running? && r.context.mode.Next? && r.context.next == At(to)
  }

  lemma {:induction false} LandsRuns(table: Table, held: seq<Held>, memory: seq<Completion>, to: nat, r: Result)
    requires Fulfils(table, After(Lands(table, held, memory, to)), r)
    ensures RunsAt(r, to)
  {
    hide StillAt;
  }

  /** A throw on its way is told from a body that goes on at a place. */
  lemma {:induction false} ThrowElsewhere(table: Table, held: seq<Held>, memory: seq<Completion>, frames: seq<Frame>,
                                          v: Value, to: nat, r: Result)
    requires |memory| == |table| && FramesOf(table, frames) && NoCatchAt(table, to)
    requires Fulfils(table, After(Raised(table, held, memory, frames, Throwing(v))), r)
    ensures !RunsAt(r, to)
  {
    hide StillIn;
  }

  /** A jump that runs a finalizer is told from one that has come to its target. */
  lemma {:induction false} JumpElsewhere(table: Table, held: seq<Held>, memory: seq<Completion>, frames: seq<Frame>,
                                         to: nat, r: Result)
    requires |memory| == |table| && WellNested(table) && FramesOf(table, frames) && Crosses(table, frames, to)
    requires Fulfils(table, After(Raised(table, held, memory, frames, Jumping(to))), r)
    ensures !RunsAt(r, to)
  {
    hide StillIn, FirstFinally;
    var k := FirstFinally(table, frames);
    assert table[frames[k].index].Valid();
  }

  /** The act is a jump, or an end of a finalizer, that is to be told from a throw: none is caught where it
      leads to, and the entry of a nested statement remembers nothing. */
  ghost predicate Telling(table: Table, s: Stage, act: Act)
    requires s.held != [] && |s.memory| == |table| && ActIn(table, act)
  {
    match act.deed
    case Pause(_, _) => false
    case Raise(p) => p.Jumping? ==> NoCatchAt(table, p.to)
    case EndOf(j) => j != s.held[0].index ==>
      Took(s.memory, act.takes)[j].Normal? && NoCatchAt(table, table[j].afterLoc)
  }

  /** What the runtime makes of the act is what nested statements make of it if and only if it does not slip. */
  lemma {:induction false} SlipShows(table: Table, s: Stage, act: Act, r: Result)
    requires WellNested(table) && StageOk(table, s) && |s.memory| == |table| && Apt(table, s, act) &&
             Telling(table, s, act)
    requires Fulfils(table, After(Does(table, s, act, Runtime)), r)
    ensures Fulfils(table, After(Does(table, s, act, Rules.Nested)), r) <==> !Slips(table, s, act)
  {
    hide WellNested, HeldOk, Crosses, Raised, Lands, Does, Fulfils, NoCatchAt;
    SlipsExactly(table, s, act);
    var memory := Took(s.memory, act.takes);
    if Slips(table, s, act) {
      if act.deed.Raise? {
        JumpSlips(table, s, act, r);
      } else {
        AptIs(table, s, act);
        TookOk(table, s.held, s.memory, act.takes);
        InnermostIs(table, s.held, memory);
        EndSlipShows(table, s, act, memory, r);
      }
    }
  }

  lemma {:induction false} BehindAfter(events: seq<Event>, t: Turn)
    ensures After(Behind(events, t)) == After(t)
  {
  }

  lemma {:induction false} JumpSlips(table: Table, s: Stage, act: Act, r: Result)
    requires StageOk(table, s) && |s.memory| == |table| && ActIn(table, act) && act.deed.Raise? &&
             Slips(table, s, act) && Telling(table, s, act)
    requires Fulfils(table, After(Does(table, s, act, Runtime)), r)
    ensures !Fulfils(table, After(Does(table, s, act, Rules.Nested)), r)
  {
    hide HeldOk, Crosses, Raised, Lands, Fulfils, NoCatchAt;
    var memory, to := Took(s.memory, act.takes), act.deed.pending.to;
    RaisedOrLands(table, s.held, memory, act.frames, act.deed.pending, to);
    ThrowElsewhere(table, s.held, memory, act.frames, s.held[0].pending.value, to, r);
    if Fulfils(table, After(Does(table, s, act, Rules.Nested)), r) {
      LandsRuns(table, s.held, memory, to, r);
    }
  }

  lemma {:induction false} EndSlipShows(table: Table, s: Stage, act: Act, memory: seq<Completion>, r: Result)
    requires WellNested(table) && s.held != [] && |s.memory| == |table| && ActIn(table, act) && act.deed.EndOf? &&
             memory == Took(s.memory, act.takes)
    requires s.held[0].index < |table| && memory[s.held[0].index] == CompletionOf(s.held[0].pending) &&
             (s.hot ==> s.held[0].pending.Throwing?)
    requires Slips(table, s, act) && Telling(table, s, act) && Fulfils(table, After(Does(table, s, act, Runtime)), r)
    ensures !Fulfils(table, After(Does(table, s, act, Rules.Nested)), r)
  {
    hide WellNested, Crosses, Raised, Lands, Does, Fulfils, NoCatchAt;
    EndIs(table, s, act, Runtime);
    EndIs(table, s, act, Rules.Nested);
    var j := act.deed.index;
    var held := if j == s.held[0].index then s.held[1..] else s.held;
    var memory' := if memory[j].Thrown? then memory else memory[j := Normal];
    if j == s.held[0].index {
      var to := s.held[0].pending.to;
      LandsRuns(table, held, memory', to, r);
      if Fulfils(table, After(Does(table, s, act, Rules.Nested)), r) {
        JumpElsewhere(table, held, memory', act.frames, to, r);
      }
    } else {
      ThrowElsewhere(table, held, memory', act.frames, s.held[0].pending.value, table[j].afterLoc, r);
      if Fulfils(table, After(Does(table, s, act, Rules.Nested)), r) {
        LandsRuns(table, held, memory', table[j].afterLoc, r);
      }
    }
  }

  // ---------------------------------------------------------------------------------
  // One step of a body that is being left

  /** The step comes to where the runtime's rules lead. */
  lemma {:induction false} StepFulfils(table: Table, c: Context, s: Stage, step: Step)
    requires InProgress(table, c, s) && Follows(table, s, step) && !step.action.Yield?
    ensures Fits(table, c) && !c.done && StageOk(table, s) && |s.memory| == |table| && WellNested(table) &&
            Apt(table, s, ActAt(table, step))
    ensures Fulfils(table, After(Does(table, s, ActAt(table, step), Runtime)), Go(table, c, [step]))
  {
    hide WellNested, Frames, HeldOk, Does, Follows, Go, Fulfils;
    InProgressIs(table, c, s);
    SoundIs(table, c, s);
    FollowsApt(table, s, step);
    var d := StepTurns(table, c, s, step, []);
    assert [step] + [] == [step];
    var t := Does(table, s, ActAt(table, step), Runtime);
    if t.Moves? {
      RunningAt(table, d);
      WaitingIs(table, d, t.stage);
    }
    SameEnd(table, After(t), Go(table, d, []), Go(table, c, [step]));
  }

  lemma {:induction false} SoundIs(table: Table, c: Context, s: Stage)
    requires InProgress(table, c, s)
    ensures WellNested(table)
  {
  }

  lemma {:induction false} WaitingIs(table: Table, d: Context, s: Stage)
    requires InProgress(table, d, s)
    ensures Fulfils(table, Waiting(s), Result(d, Running, []))
  {
  }

  /** At every stage, a step of a body that is being left does what nested statements do if and only if it
      does not slip. */
  lemma {:induction false} StepSlips(table: Table, c: Context, s: Stage, step: Step)
    requires InProgress(table, c, s) && Follows(table, s, step) && !step.action.Yield?
    requires |s.memory| == |table| && Telling(table, s, ActAt(table, step))
    ensures Fits(table, c) && !c.done
    ensures Fulfils(table, After(Does(table, s, ActAt(table, step), Rules.Nested)), Go(table, c, [step])) <==>
            !Slips(table, s, ActAt(table, step))
  {
    hide WellNested, Frames, HeldOk, Does, Follows, Go, Fulfils, Slips, Telling, InProgress;
    StepFulfils(table, c, s, step);
    SlipShows(table, s, ActAt(table, step), Go(table, c, [step]));
  }

  /** The end of the finalizer of a statement that is itself in a finalizer in progress, reached with
      nothing remembered by its entry: the body goes on behind that statement if and only if the finalizer
      in progress is not hot. If it is, the throw is sent outward from there, and the rest of the finalizer
      does not run. */
  lemma {:induction false} NestedEnd(table: Table, c: Context, s: Stage, j: nat, step: Step)
    requires InProgress(table, c, s) && Follows(table, s, step) && step.caught.None?
    requires j < |table| && table[j].finallyLoc.Some? && step.action == Finish(table[j].finallyLoc.value)
    requires NestedIn(table, j, s.held[0].index) && c.completions[j].Normal? && NoCatchAt(table, table[j].afterLoc)
    ensures Fits(table, c) && !c.done
    ensures var r := Go(table, c, [step]);
            && (RunsAt(r, table[j].afterLoc) <==> !s.hot)
            && (s.hot ==> Fulfils(table,
                                  After(Raised(table, s.held, c.completions, Here(table, step.at), s.held[0].pending)),
                                  r))
  {
    hide WellNested, Frames, HeldOk, Raised, Lands, Follows, Go, Fulfils, NoCatchAt;
    StepFulfils(table, c, s, step);
    FinallyAtUnique(table, |table|, j);
    var r, act := Go(table, c, [step]), ActAt(table, step);
    assert act.deed == EndOf(j) && act.takes.None? && j != s.held[0].index;
    EndIs(table, s, act, Runtime);
    assert s.memory[j := Normal] == s.memory && [] + [Finished(j)] == [Finished(j)];
    if s.hot {
      BehindAfter([Finished(j)], Raised(table, s.held, s.memory, act.frames, s.held[0].pending));
      ThrowElsewhere(table, s.held, s.memory, act.frames, s.held[0].pending.value, table[j].afterLoc, r);
    } else {
      BehindAfter([Finished(j)], Lands(table, s.held, s.memory, table[j].afterLoc));
      LandsRuns(table, s.held, s.memory, table[j].afterLoc, r);
    }
  }

  /** A jump with no finalizer in its way, such as one of a loop in the finalizer, goes on at its target if
      and only if the finalizer is not hot; otherwise the throw is sent on, and the rest of the finalizer
      does not run. */
  lemma {:induction false} JumpWithinFinalizer(table: Table, c: Context, s: Stage, at: nat, to: nat)
    requires InProgress(table, c, s) && Follows(table, s, Step(None, at, AbruptJump(to))) && NoCatchAt(table, to)
    requires !Crosses(table, Here(table, at), to)
    ensures Fits(table, c) && !c.done && |c.completions| == |table|
    ensures var r := Go(table, c, [Step(None, at, AbruptJump(to))]);
            && (RunsAt(r, to) <==> !s.hot)
            && (s.hot ==> Fulfils(table,
                                  After(Raised(table, s.held, c.completions, Here(table, at), s.held[0].pending)), r))
            && (!s.hot && InFinally(table, s.held[0].index, to) ==> InProgress(table, r.context, s.(next := to)))
  {
    hide WellNested, Frames, HeldOk, Raised, Follows, Go, Fulfils, NoCatchAt, Crosses;
    var step := Step(None, at, AbruptJump(to));
    StepFulfils(table, c, s, step);
    var r, act := Go(table, c, [step]), ActAt(table, step);
    var q := if s.hot then s.held[0].pending else Jumping(to);
    BehindAfter([], Raised(table, s.held, s.memory, act.frames, q));
    RaisedOrLands(table, s.held, s.memory, act.frames, Jumping(to), to);
    if s.hot {
      ThrowElsewhere(table, s.held, s.memory, act.frames, s.held[0].pending.value, to, r);
    } else {
      LandsRuns(table, s.held, s.memory, to, r);
      if InFinally(table, s.held[0].index, to) {
        StaysHere(table, s, to, r);
      }
    }
  }

  lemma {:induction false} StaysHere(table: Table, s: Stage, to: nat, r: Result)
    requires s.held != [] && !s.hot && InFinally(table, s.held[0].index, to) &&
             Fulfils(table, After(Lands(table, s.held, s.memory, to)), r)
    ensures InProgress(table, r.context, s.(next := to))
  {
    hide HeldOk;
  }

  /** A jump runs the first finalizer in its way and then goes on at its target. That is right if and
      only if no other finalizer is in its way. */
  lemma {:induction false} JumpOverFinalizers(table: Table, c: Context, s: Stage, step: Step, to: nat)
    requires InProgress(table, c, s) && Follows(table, s, step) &&
             step.action == Finish(table[s.held[0].index].finallyLoc.value)
    requires s.held[0].index < |table| && table[s.held[0].index].finallyLoc.Some?
    requires s.held[0].pending == Jumping(to)
    ensures Fits(table, c) && !c.done && |s.memory| == |table|
    ensures var r := Go(table, c, [step]);
            && RunsAt(r, to)
            && (Fulfils(table, After(Does(table, s, ActAt(table, step), Rules.Nested)), r) <==>
                !Crosses(table, Around(table, s.held[0].index), to))
  {
    hide WellNested, Frames, HeldOk, Raised, Lands, Does, Follows, Go, Fulfils, Crosses;
    StepFulfils(table, c, s, step);
    FinallyAtUnique(table, |table|, s.held[0].index);
    var act, r := ActAt(table, step), Go(table, c, [step]);
    assert act.deed == EndOf(s.held[0].index);
    SlipShows(table, s, act, r);
    EndIs(table, s, act, Runtime);
    AptIs(table, s, act);
    TookOk(table, s.held, s.memory, act.takes);
    InnermostIs(table, s.held, Took(s.memory, act.takes));
    LandsRuns(table, s.held[1..], Took(s.memory, act.takes)[s.held[0].index := Normal], to, r);
  }

  // ---------------------------------------------------------------------------------
  // Over runs of calls

  /** Where unwinding stands so that one more act can follow. */
  ghost predicate StandsAt(f: Final, s: Stage) {
    f == Waiting(s) || (f.Paused? && f.stage == s)
  }

  /** One more act. */
  lemma {:induction false} UnwindLast(table: Table, s: Stage, a: seq<Act>, x: Act, rules: Rules, end: Stage)
    requires s.held != [] && |s.memory| == |table| && ActsIn(table, a) && ActIn(table, x) && !x.deed.Pause?
    requires StandsAt(Unwind(table, s, a, rules).final, end)
    ensures end.held != [] && |end.memory| == |table| && ActsIn(table, a + [x])
    ensures Unwind(table, s, a + [x], rules).final == After(Does(table, end, x, rules))
    decreases |a|
  {
    hide Does;
    if a == [] {
      assert (a + [x])[1..] == [] && (a + [x])[0] == x;
    } else {
      assert (a + [x])[0] == a[0] && (a + [x])[1..] == a[1..] + [x];
      var t := Does(table, s, a[0], rules);
      if |a| > 1 || !a[0].deed.Pause? {
        UnwindLast(table, t.stage, a[1..], x, rules, end);
      } else {
        assert a[1..] == [];
        UnwindLast(table, t.stage, [], x, rules, end);
      }
    }
  }

  /** Up to there the acts are those of a body. */
  lemma {:induction false} StageThere(table: Table, s: Stage, steps: seq<Step>, x: Step, end: Stage)
    requires WellNested(table) && StageOk(table, s) && |s.memory| == |table| && Behaves(table, s, steps + [x])
    requires StandsAt(Unwind(table, s, Acts(table, steps), Runtime).final, end)
    ensures StageOk(table, end) && |end.memory| == |table| && Apt(table, end, ActAt(table, x))
    decreases |steps|
  {
    hide WellNested, HeldOk, Does, Follows, Apt;
    if steps == [] {
      assert (steps + [x])[0] == x;
      FollowsApt(table, s, x);
    } else {
      assert (steps + [x])[0] == steps[0] && (steps + [x])[1..] == steps[1..] + [x];
      assert Acts(table, steps)[0] == ActAt(table, steps[0]) && Acts(table, steps)[1..] == Acts(table, steps[1..]);
      FollowsApt(table, s, steps[0]);
      DoesOk(table, s, ActAt(table, steps[0]), Runtime);
      StageThere(table, Does(table, s, ActAt(table, steps[0]), Runtime).stage, steps[1..], x, end);
    }
  }

  /** Over any run of calls of a body that is left, if the steps before the last do not slip, the run comes to
      where nested statements lead if and only if the last one does not slip either. */
  lemma {:induction false} SlipOverCalls(table: Table, c: Context, calls: seq<Call>, k: nat, p: Pending, here: Context,
                                         held: seq<Held>, steps: seq<Step>, visited: seq<Loc>,
                                         before: seq<Step>, x: Step, end: Stage)
    requires LeftOverCalls(table, c, calls, k, p, here, held, steps, visited) &&
             AllSteps(steps, calls) == before + [x] && !x.action.Yield?
    requires NoSlipsFrom(table, held, here.completions, Here(table, here.prev), p, Acts(table, before))
    requires StandsAt(UnwindFrom(table, held, here.completions, Here(table, here.prev), p, Acts(table, before),
                                 Runtime).final, end)
    requires end.held != [] && |end.memory| == |table| && Telling(table, end, ActAt(table, x)) &&
             !ActAt(table, x).deed.Pause?
    ensures var rs, acts := RunOf(table, c, calls), Acts(table, before + [x]);
            Fulfils(table, UnwindFrom(table, held, here.completions, Here(table, here.prev), p, acts,
                                      Rules.Nested).final, rs[|rs| - 1]) <==>
            !Slips(table, end, ActAt(table, x))
  {
    hide WellNested, Frames, HeldOk, Raised, Does, Unwind, Fulfils, Slips, Telling, Behaves, Leaves, Flat, Acts,
         Yielding, Resuming, NoSlips, EndsWithYield, InOneCall, Entered,
         Apt, StandsAt;
    var memory, fs := here.completions, Here(table, here.prev);
    RunOfCalls(table, c, calls, k, p, here, held, steps, visited);
    RaisedOk(table, held, memory, fs, p);
    var t := Raised(table, held, memory, fs, p);
    assert before + [x] != [];
    assert t.Moves?;
    ActsAppend(table, before, [x]);
    OneAct(table, x);
    AlwaysStands(table, t.stage, Acts(table, before), Runtime,
                 UnwindFrom(table, held, memory, fs, p, Acts(table, before), Runtime), end);
    StageThere(table, t.stage, before, x, end);
    SameWithoutSlips(table, t.stage, Acts(table, before));
    UnwindLast(table, t.stage, Acts(table, before), ActAt(table, x), Runtime, end);
    UnwindLast(table, t.stage, Acts(table, before), ActAt(table, x), Rules.Nested, end);
    var rs := RunOf(table, c, calls);
    SlipShows(table, end, ActAt(table, x), rs[|rs| - 1]);
  }

  lemma {:induction false} OneAct(table: Table, x: Step)
    ensures Acts(table, [x]) == [ActAt(table, x)]
  {
  }

  lemma {:induction false} AlwaysStands(table: Table, s: Stage, a: seq<Act>, rules: Rules, course: Course, end: Stage)
    requires s.held != [] && |s.memory| == |table| && ActsIn(table, a) &&
             course.final == Unwind(table, s, a, rules).final && StandsAt(course.final, end)
    ensures StandsAt(Unwind(table, s, a, rules).final, end)
  {
  }

  /** Yields, and then a break. */
  ghost predicate YieldsThenBreaks(steps: seq<Step>, to: nat) {
    && steps != [] && steps[|steps| - 1].action == AbruptJump(to)
    && forall j :: 0 <= j < |steps| - 1 ==> steps[j].action.Yield?
  }

  /** Yields leave what is in progress as it is, but no longer hot. */
  lemma {:induction false} OnlyYields(table: Table, s: Stage, steps: seq<Step>, x: Step) returns (end: Stage)
    requires WellNested(table) && s.held != [] && |s.memory| == |table| && Behaves(table, s, steps + [x])
    requires forall j :: 0 <= j < |steps| ==> steps[j].action.Yield?
    ensures StandsAt(Unwind(table, s, Acts(table, steps), Runtime).final, end) && NoSlips(table, s, Acts(table, steps))
    ensures end.held == s.held && |end.memory| == |table| && (end.hot <==> s.hot && steps == [])
    decreases |steps|
  {
    hide WellNested, Follows, Apt;
    if steps == [] {
      end := s;
    } else {
      assert (steps + [x])[0] == steps[0] && (steps + [x])[1..] == steps[1..] + [x];
      assert Acts(table, steps)[0] == ActAt(table, steps[0]) && Acts(table, steps)[1..] == Acts(table, steps[1..]);
      FollowsApt(table, s, steps[0]);
      end := OnlyYields(table, Does(table, s, ActAt(table, steps[0]), Runtime).stage, steps[1..], x);
    }
  }

  /** The break out of a finalizer, after the body has yielded any number of times there, wins over what is
      pending, as it should, if and only if that is no throw, or the body has yielded since the throw was
      sent there, or another finalizer is in the way of the break. */
  lemma {:induction false} BreakOverCalls(table: Table, c: Context, calls: seq<Call>, k: nat, p: Pending, here: Context,
                                          steps: seq<Step>, visited: seq<Loc>, to: nat)
    requires LeftOverCalls(table, c, calls, k, p, here, [], steps, visited)
    requires YieldsThenBreaks(AllSteps(steps, calls), to) && NoCatchAt(table, to)
    ensures var rs, all := RunOf(table, c, calls), AllSteps(steps, calls); var frames := Here(table, all[|all| - 1].at);
            && (Fulfils(table,
                        UnwindFrom(table, [], here.completions, Here(table, here.prev), p, Acts(table, all),
                                   Rules.Nested).final, rs[|rs| - 1]) <==>
                !p.Throwing? || |all| > 1 || Crosses(table, frames, to))
            && (!Crosses(table, frames, to) ==> (RunsAt(rs[|rs| - 1], to) <==> !p.Throwing? || |all| > 1))
  {
    hide WellNested, Frames, HeldOk, Raised, Does, Unwind, Fulfils, NoSlips, Leaves, Flat, Acts, Yielding, Resuming,
         EndsWithYield, InOneCall, Entered, Apt, StandsAt, Crosses,
         NoCatchAt, Behaves, RunsAt;
    var all := AllSteps(steps, calls);
    var before, x := all[..|all| - 1], all[|all| - 1];
    assert all == before + [x];
    var t := Raised(table, [], here.completions, Here(table, here.prev), p);
    FirstIsFinalizer(table, here.completions, Here(table, here.prev), p);
    var end := OnlyYields(table, t.stage, before, x);
    SlipOverCalls(table, c, calls, k, p, here, [], steps, visited, before, x, end);
    if !Crosses(table, Here(table, x.at), to) {
      BreakEnds(table, c, calls, k, p, here, steps, visited, before, x, end, to);
    }
  }

  /** With no finalizer in progress, the first one to be entered is hot just for a throw. */
  lemma {:induction false} FirstIsFinalizer(table: Table, memory: seq<Completion>, frames: seq<Frame>, p: Pending)
    requires FramesOf(table, frames) && |memory| == |table|
    ensures var t := Raised(table, [], memory, frames, p);
            t.Moves? ==> t.stage.hot == p.Throwing? && |t.stage.held| == 1 && t.stage.held[0].pending == p
  {
    hide FirstFinally;
  }

  lemma {:induction false} BreakEnds(table: Table, c: Context, calls: seq<Call>, k: nat, p: Pending, here: Context,
                                     steps: seq<Step>, visited: seq<Loc>,
                                     before: seq<Step>, x: Step, end: Stage, to: nat)
    requires LeftOverCalls(table, c, calls, k, p, here, [], steps, visited) && AllSteps(steps, calls) == before + [x] &&
             x.action == AbruptJump(to)
    requires StandsAt(UnwindFrom(table, [], here.completions, Here(table, here.prev), p, Acts(table, before),
                                 Runtime).final, end)
    requires end.held != [] && |end.memory| == |table| && (end.hot ==> end.held[0].pending.Throwing?) &&
             NoCatchAt(table, to) && !Crosses(table, Here(table, x.at), to)
    ensures var rs := RunOf(table, c, calls); RunsAt(rs[|rs| - 1], to) <==> !end.hot
  {
    hide WellNested, Frames, HeldOk, Unwind, Fulfils, Leaves, Flat, Acts, Yielding, Resuming, EndsWithYield, InOneCall,
         Entered, Apt, StandsAt, Crosses, NoCatchAt, Behaves, Raised, Lands;
    RunOfCalls(table, c, calls, k, p, here, [], steps, visited);
    var rs, memory, act := RunOf(table, c, calls), Took(end.memory, ActAt(table, x).takes), ActAt(table, x);
    var t := Raised(table, [], here.completions, Here(table, here.prev), p);
    ActsAppend(table, before, [x]);
    OneAct(table, x);
    AlwaysStands(table, t.stage, Acts(table, before), Runtime,
                 UnwindFrom(table, [], here.completions, Here(table, here.prev), p, Acts(table, before), Runtime), end);
    UnwindLast(table, t.stage, Acts(table, before), act, Runtime, end);
    RaisedOrLands(table, end.held, memory, act.frames, Jumping(to), to);
    if end.hot {
      ThrowElsewhere(table, end.held, memory, act.frames, end.held[0].pending.value, to, rs[|rs| - 1]);
    } else {
      LandsRuns(table, end.held, memory, to, rs[|rs| - 1]);
    }
  }

  // ---------------------------------------------------------------------------------
  // Runs that show the differences

  lemma {:induction false} StepGoesOn(table: Table, c: Context, steps: seq<Step>, d: Context)
    requires Fits(table, c) && !c.done && c.next.At? && steps != [] && c.state.Executing? &&
             Body(table, c, steps[0]) == (d, Continue) && d.mode.Next?
    ensures Go(table, c, steps) == AfterVisit(c.next, Go(table, d, steps[1..]))
  {
    hide Body;
  }

  lemma {:induction false} StepThrows(table: Table, c: Context, steps: seq<Step>, d: Context, v: Value)
    requires Fits(table, c) && !c.done && c.next.At? && steps != [] && c.state.Executing? &&
             Body(table, c, steps[0]) == (d, Throws(v))
    ensures var e := Dispatched(table, d.(mode := Throw, arg := v), v);
            Fits(table, e) && !e.done && Go(table, c, steps) == AfterVisit(c.next, Go(table, e, steps[1..]))
  {
    hide Body, InnermostLive;
  }

  /** A try block from 0 to 10 with a finalizer up to 20. */
  const ONE_FINALIZER: Table := [Entry(0, None, Some(10), 20)]

  /** The generator stands at a yield in the try block. */
  const IN_BLOCK: Context := Context(Suspended, 5, At(6), Next, Undefined, false, Undefined, Normal, [Normal], [])

  lemma {:induction false} SearchOne(p: nat)
    ensures InnermostLive(ONE_FINALIZER, 1, p) == InnermostFinally(ONE_FINALIZER, 1, p) ==
            if p < 10 then Some(0) else None
  {
  }

  lemma {:induction false} AtYield()
    ensures Called(ONE_FINALIZER, Fresh(ONE_FINALIZER), Call(Next, Undefined, [Step(None, 5, Yield(Given(1), 6))])) ==
              Result(IN_BLOCK, Outcome.Value(Given(1), false), [At(0)])
  {
    assert seq(|ONE_FINALIZER|, _ => Normal) == [Normal];
  }

  const TO_YIELD: Call := Call(Next, Undefined, [Step(None, 5, Yield(Given(1), 6))])

  lemma {:induction false} FirstTwo(table: Table, calls: seq<Call>)
    requires |calls| >= 2
    ensures var c := Fresh(table);
            var r := Called(table, c, calls[0]);
            && RunOf(table, c, calls)[0] == r && (r.context.done ==> r.context.state.Completed?)
            && RunOf(table, c, calls)[1] == Called(table, r.context, calls[1])
  {
    hide Called;
    RunFirst(table, Fresh(table), calls);
    RunFirst(table, Called(table, Fresh(table), calls[0]).context, calls[1..]);
  }

  /** In a new generator, a break out of a finalizer that a throw was sent to, or a jump within it (to a place
      from 10 on and before 20), is lost: the call ends with the error. */
  lemma {:induction false} BreakIsLost(to: nat)
    ensures var rs :=
            RunOf(ONE_FINALIZER, Fresh(ONE_FINALIZER),
                  [TO_YIELD, Call(Throw, Given(2), [Step(None, 13, AbruptJump(to))])]);
            rs[0].outcome == Outcome.Value(Given(1), false) && rs[1].outcome == Error(Given(2))
  {
    AtYield();
    FirstTwo(ONE_FINALIZER, [TO_YIELD, Call(Throw, Given(2), [Step(None, 13, AbruptJump(to))])]);
    SearchOne(5);
    SearchOne(13);
    var steps := [Step(None, 13, AbruptJump(to))];
    assert steps[1..] == [];
    var c := IN_BLOCK.(mode := Throw, arg := Given(2));
    var d := LeftBy(c, 0, Thrown(Given(2))).(next := At(10), state := Executing);
    assert Loop(ONE_FINALIZER, c, steps) == Go(ONE_FINALIZER, d, steps);
    var e := d.(prev := 13, next := At(to), state := Suspended);
    assert Go(ONE_FINALIZER, d, steps) == AfterVisit(At(10), Loop(ONE_FINALIZER, e, []));
    assert Loop(ONE_FINALIZER, e, []) ==
           Go(ONE_FINALIZER, e.(next := End, root := Thrown(Given(2)), state := Executing), []);
  }

  /** If the finalizer yields first, the same break is carried out, and the throw is forgotten. */
  lemma {:induction false} BreakAfterYield()
    ensures var rs := RunOf(ONE_FINALIZER, Fresh(ONE_FINALIZER),
                            [TO_YIELD, Call(Throw, Given(2), [Step(None, 12, Yield(Given(3), 13))]),
                             Call(Next, Undefined, [Step(None, 13, AbruptJump(30))])]);
            rs[1].outcome == Outcome.Value(Given(3), false) && RunsAt(rs[2], 30)
  {
    hide RunOf, Called;
    var t, first, second := ONE_FINALIZER, Call(Throw, Given(2), [Step(None, 12, Yield(Given(3), 13))]),
      Call(Next, Undefined, [Step(None, 13, AbruptJump(30))]);
    var calls := [TO_YIELD, first, second];
    AtYield();
    FirstTwo(t, calls);
    SentToFinalizer();
    RunFirst(t, Fresh(t), calls);
    RunFirst(t, IN_BLOCK, calls[1..]);
    RunFirst(t, Called(t, IN_BLOCK, first).context, calls[2..]);
    assert calls[1..][1..] == calls[2..] && calls[1..][0] == first && calls[2..][0] == second;
    var rs := RunOf(t, Fresh(t), calls);
    assert rs[2] == rs[1..][1..][0];
  }

  lemma {:induction false} SentToFinalizer()
    ensures var r := Called(ONE_FINALIZER, IN_BLOCK, Call(Throw, Given(2), [Step(None, 12, Yield(Given(3), 13))]));
            && r.outcome == Outcome.Value(Given(3), false) && !r.context.done
            && RunsAt(Called(ONE_FINALIZER, r.context, Call(Next, Undefined, [Step(None, 13, AbruptJump(30))])), 30)
  {
    SearchOne(5);
    SearchOne(13);
    var first, second := [Step(None, 12, Yield(Given(3), 13))], [Step(None, 13, AbruptJump(30))];
    assert second[1..] == [];
    var c := IN_BLOCK.(mode := Throw, arg := Given(2));
    var d := LeftBy(c, 0, Thrown(Given(2))).(next := At(10), state := Executing);
    assert Loop(ONE_FINALIZER, c, first) == Go(ONE_FINALIZER, d, first);
    var e := d.(prev := 12, next := At(13), state := Suspended);
    assert Go(ONE_FINALIZER, d, first) == Result(e, Outcome.Value(Given(3), false), [At(10)]);
    var f := e.(mode := Next, arg := Undefined, state := Executing);
    assert Loop(ONE_FINALIZER, e.(mode := Next, arg := Undefined), second) == Go(ONE_FINALIZER, f, second);
    var g := f.(prev := 13, next := At(30), state := Suspended);
    assert Go(ONE_FINALIZER, f, second) == AfterVisit(At(13), Loop(ONE_FINALIZER, g, []));
    assert Loop(ONE_FINALIZER, g, []) == Result(g.(state := Executing), Running, []);
  }

  /** A try block from 0 to 10 with a finalizer up to 30, in which there is a try block from 12 to 15 with a
      finalizer up to 18. */
  const STATEMENT_WITHIN: Table := [Entry(0, None, Some(10), 30), Entry(12, None, Some(15), 18)]

  lemma {:induction false} WithinYields()
    ensures var r := Called(STATEMENT_WITHIN, Fresh(STATEMENT_WITHIN), TO_YIELD);
            r.outcome == Outcome.Value(Given(1), false) &&
              r.context == Context(Suspended, 5, At(6), Next, Undefined, false, Undefined, Normal, [Normal, Normal], [])
  {
    var c := Fresh(STATEMENT_WITHIN);
    assert c.completions == [Normal, Normal];
    assert Called(STATEMENT_WITHIN, c, TO_YIELD) == Go(STATEMENT_WITHIN, c.(state := Executing), TO_YIELD.steps);
  }

  /** In a new generator, a throw is sent to the outer finalizer, and the statement within it comes to its
      normal end: the call ends with the error, and the rest of the finalizer does not run. */
  lemma {:induction false} RestIsSkipped()
    ensures var rs :=
            RunOf(STATEMENT_WITHIN, Fresh(STATEMENT_WITHIN),
                  [TO_YIELD, Call(Throw, Given(2), [Step(None, 16, Finish(15))])]);
            rs[1].outcome == Error(Given(2)) && rs[1].visited == [At(10)]
  {
    hide RunOf;
    var t, steps := STATEMENT_WITHIN, [Step(None, 16, Finish(15))];
    WithinYields();
    FirstTwo(t, [TO_YIELD, Call(Throw, Given(2), steps)]);
    assert steps[1..] == [] && InnermostLive(t, 2, 5) == Some(0) && InnermostLive(t, 2, 16) == None &&
           WithFinallyAt(t, 2, 15) == Some(1);
    var c := Called(t, Fresh(t), TO_YIELD).context.(mode := Throw, arg := Given(2));
    var d := LeftBy(c, 0, Thrown(Given(2))).(next := At(10), state := Executing);
    assert Loop(t, c, steps) == Go(t, d, steps);
    assert d.completions == [Thrown(Given(2)), Normal] && d.completions[1 := Normal] == d.completions;
    var e := d.(prev := 16, next := At(18), state := Suspended, log := d.log + [Finished(1)]);
    assert Go(t, d, steps) == AfterVisit(At(10), Loop(t, e, []));
    assert Loop(t, e, []) == Go(t, e.(next := End, root := Thrown(Given(2)), state := Executing), []);
  }

  /** After a return the same end goes on behind the statement. */
  lemma {:induction false} RestIsRun()
    ensures var rs :=
            RunOf(STATEMENT_WITHIN, Fresh(STATEMENT_WITHIN),
                  [TO_YIELD, Call(Mode.Return, Given(2), [Step(None, 16, Finish(15))])]);
            RunsAt(rs[1], 18) && rs[1].visited == [At(10)]
  {
    hide RunOf;
    var t, steps := STATEMENT_WITHIN, [Step(None, 16, Finish(15))];
    WithinYields();
    FirstTwo(t, [TO_YIELD, Call(Mode.Return, Given(2), steps)]);
    assert steps[1..] == [] && InnermostFinally(t, 2, 5) == Some(0) && WithFinallyAt(t, 2, 15) == Some(1);
    var c := Called(t, Fresh(t), TO_YIELD).context.(mode := Mode.Return, arg := Given(2));
    var d := LeftBy(c, 0, Returned(Given(2))).(next := At(10), mode := Next, state := Executing);
    assert Loop(t, c, steps) == Go(t, d, steps);
    assert d.completions == [Returned(Given(2)), Normal] && d.completions[1 := Normal] == d.completions;
    StepGoesOn(t, d, steps, d.(prev := 16, next := At(18), log := d.log + [Finished(1)]));
  }

  /** A try block in a try block, each with a finalizer. */
  const TWO_FINALIZERS: Table := [Entry(0, None, Some(20), 30), Entry(2, None, Some(10), 15)]

  /** A break out of both runs the inner finalizer only. */
  lemma {:induction false} OuterFinalizerSkipped()
    ensures var r :=
            Called(TWO_FINALIZERS, Fresh(TWO_FINALIZERS),
                   Call(Next, Undefined, [Step(None, 5, AbruptJump(40)), Step(None, 12, Finish(10))]));
            r.outcome.Running? && r.context.next == At(40) && r.visited == [At(0), At(10)]
  {
    var t, steps := TWO_FINALIZERS, [Step(None, 5, AbruptJump(40)), Step(None, 12, Finish(10))];
    var c := Fresh(t).(arg := Undefined, state := Executing);
    assert c.completions == [Normal, Normal];
    assert InnermostFinally(t, 2, 5) == Some(1) && WithFinallyAt(t, 2, 10) == Some(1);
    var rest := steps[1..];
    assert rest == [Step(None, 12, Finish(10))] && rest[1..] == [];
    var d := LeftBy(c.(prev := 5), 1, Jumped(40)).(mode := Next, next := At(10));
    StepGoesOn(t, c, steps, d);
    var e := d.(prev := 12, next := At(40), completions := [Normal, Normal], log := d.log + [Finished(1)]);
    assert d.completions[1 := Normal] == [Normal, Normal];
    StepGoesOn(t, d, rest, e);
  }

  /** A loop around a try block with a catch block, with a try block in it that has a finalizer. */
  const IN_CATCH: Table := [Entry(0, Some(20), None, 0), Entry(2, None, Some(10), 15)]

  /** The inner block throws, its finalizer runs, the exception is caught, and the loop comes round: the
      inner block now ends normally, and yet its finalizer throws the old exception once more. In a new
      generator the same normal end goes on after the statement. */
  lemma {:induction false} OldExceptionAgain(v: Value)
    ensures var r :=
            Called(IN_CATCH, Fresh(IN_CATCH),
                   Call(Next, Undefined,
                        [Step(None, 5, Action.ThrowNew(v)), Step(None, 12, Finish(10)),
                         Step(Some(0), 12, Finish(10))]));
            r.outcome.Running? && r.context.next == At(20) && r.context.completions[0] == Thrown(v) &&
              r.visited == [At(0), At(10), At(20)]
    ensures var r := Called(IN_CATCH, Fresh(IN_CATCH), Call(Next, Undefined, [Step(None, 12, Finish(10))]));
            r.outcome.Running? && r.context.next == At(15)
  {
    hide Go, Dispatched, FinishedAt;
    var t, later := IN_CATCH, [Step(None, 12, Finish(10)), Step(Some(0), 12, Finish(10))];
    var c := Fresh(t).(state := Executing);
    assert c.completions == [Normal, Normal];
    var steps := [Step(None, 5, Action.ThrowNew(v))] + later;
    assert steps == [Step(None, 5, Action.ThrowNew(v)), Step(None, 12, Finish(10)), Step(Some(0), 12, Finish(10))];
    assert steps[1..] == later && later[1..] == [Step(Some(0), 12, Finish(10))];
    FirstThrow(c, v);
    StepThrows(t, c, steps, c.(prev := 5), v);
    var d := LeftBy(c.(prev := 5), 1, Thrown(v)).(mode := Throw, arg := v, next := At(10));
    SecondThrow(d, v);
    StepThrows(t, d, later, d.(prev := 12), v);
    var e := LeftBy(d.(prev := 12), 0, Thrown(v)).(mode := Next, arg := Undefined, next := At(20));
    assert e.completions == [Thrown(v), Thrown(v)];
    OldThrownAgain(e, v);
    assert Called(t, Fresh(t), Call(Next, Undefined, steps)) == Go(t, c, steps);
    NormalEndGoesOn();
  }

  lemma {:induction false} FirstThrow(c: Context, v: Value)
    requires c.completions == [Normal, Normal]
    ensures Dispatched(IN_CATCH, c.(prev := 5, mode := Throw, arg := v), v) ==
            LeftBy(c.(prev := 5), 1, Thrown(v)).(mode := Throw, arg := v, next := At(10))
  {
    assert InnermostLive(IN_CATCH, 2, 5) == Some(1);
  }

  lemma {:induction false} SecondThrow(d: Context, v: Value)
    requires d.completions == [Normal, Thrown(v)] && d.mode.Throw? && d.arg == v
    ensures FinishedAt(IN_CATCH, d.(prev := 12), 10) == (d.(prev := 12), Throws(v))
    ensures Dispatched(IN_CATCH, d.(prev := 12), v) ==
            LeftBy(d.(prev := 12), 0, Thrown(v)).(mode := Next, arg := Undefined, next := At(20))
  {
    assert InnermostLive(IN_CATCH, 2, 12) == Some(0) && WithFinallyAt(IN_CATCH, 2, 10) == Some(1);
  }

  /** The body takes the exception, and comes to the end of the inner finalizer without one. */
  lemma {:induction false} OldThrownAgain(e: Context, v: Value)
    requires !e.done && e.next == At(20) && e.state.Executing? && e.completions == [Thrown(v), Thrown(v)]
    ensures var r := Go(IN_CATCH, e, [Step(Some(0), 12, Finish(10))]);
            r.outcome.Running? && r.context.next == At(20) && r.context.completions[0] == Thrown(v) &&
              r.visited == [At(20)]
  {
    var t, again := IN_CATCH, Step(Some(0), 12, Finish(10));
    assert InnermostLive(t, 2, 12) == Some(0) && WithFinallyAt(t, 2, 10) == Some(1) && WithTryAt(t, 2, 0) == Some(0);
    var f := e.(prev := 12, completions := [Normal, Thrown(v)], log := e.log + [Taken(0)]);
    assert e.completions[0 := Normal] == f.completions && [again][1..] == [];
    assert Body(t, e, again) == (f, Throws(v));
    StepThrows(t, e, [again], f, v);
  }

  lemma {:induction false} NormalEndGoesOn()
    ensures var r := Called(IN_CATCH, Fresh(IN_CATCH), Call(Next, Undefined, [Step(None, 12, Finish(10))]));
            r.outcome.Running? && r.context.next == At(15)
  {
    var t, ends := IN_CATCH, [Step(None, 12, Finish(10))];
    var c := Fresh(t).(state := Executing);
    assert c.completions == [Normal, Normal] && c.completions[1 := Normal] == [Normal, Normal];
    assert WithFinallyAt(t, 2, 10) == Some(1) && ends[1..] == [] && c.log + [Finished(1)] == [Finished(1)];
    StepGoesOn(t, c, ends, c.(prev := 12, next := At(15), log := [Finished(1)]));
  }
}
