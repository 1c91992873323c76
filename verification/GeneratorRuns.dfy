/** Runs of calls of a compiled generator (module "96cf"): unwinding that is interrupted by yields in
    finalizers, and what entries remember from one time to the next. */
module GeneratorRuns {
  import opened Collections
  import opened GeneratorTable
  import opened GeneratorUnwinding
  import opened GeneratorSteps
  import opened GeneratorCalls

  ghost function RunOf(table: Table, c: Context, calls: seq<Call>): (rs: seq<Result>)
    requires Fits(table, c) && (c.done ==> c.state.Completed?)
    ensures |rs| == |calls| && forall j :: 0 <= j < |rs| ==> Fits(table, rs[j].context)
    decreases |calls|
  {
    if calls == [] then []
    else
      var r := Called(table, c, calls[0]);
      CalledStays(table, c, calls[0]);
      [r] + RunOf(table, r.context, calls[1..])
  }

  function Flat(calls: seq<Call>): seq<Step> {
    if calls == [] then [] else calls[0].steps + Flat(calls[1..])
  }

  /** Every call but the last ends with a yield, its only one, and every call takes up the body. */
  ghost predicate Yielding(calls: seq<Call>) {
    && (forall j :: 0 <= j < |calls| ==> InOneCall(calls[j].steps))
    && (forall j :: 0 <= j < |calls| - 1 ==> calls[j].steps != [] && calls[j].steps[|calls[j].steps| - 1].action.Yield?)
  }

  /** Calls that take up the body where it stands. */
  ghost predicate Resuming(calls: seq<Call>) {
    forall j :: 0 <= j < |calls| ==> calls[j].mode.Next? && calls[j].steps != []
  }

  /** Where the body went on to in the calls, but for the places where it was taken up after a yield. */
  function EnteredLater(rs: seq<Result>): seq<Loc> {
    if rs == [] then [] else (if rs[0].visited == [] then [] else rs[0].visited[1..]) + EnteredLater(rs[1..])
  }

  function Entered(rs: seq<Result>): seq<Loc> {
    if rs == [] then [] else rs[0].visited + EnteredLater(rs[1..])
  }

  /** A run from the k-th call on is that call and the rest of the run. */
  lemma {:induction false} RunOfNext(table: Table, c: Context, calls: seq<Call>, k: nat)
    requires Fits(table, c) && (c.done ==> c.state.Completed?) && k < |calls|
    ensures var r := Called(table, c, calls[k]);
            && Fits(table, r.context) && (r.context.done ==> r.context.state.Completed?)
            && RunOf(table, c, calls[k..]) == [r] + RunOf(table, r.context, calls[k + 1..])
  {
    CalledStays(table, c, calls[k]);
    assert calls[k..][1..] == calls[k + 1..] && calls[k..][0] == calls[k];
    hide Called;
  }

  lemma {:induction false} CalledStays(table: Table, c: Context, call: Call)
    requires Fits(table, c) && (c.done ==> c.state.Completed?)
    ensures var d := Called(table, c, call).context; d.done ==> d.state.Completed?
  {
    if !c.state.Executing? && !c.state.Completed? && !(c.state.Start? && call.mode.Throw?) {
      LoopEnds(table, c.(mode := call.mode, arg := call.arg), call.steps);
    }
  }

  /** The state tells how the loop has ended, and unless that is for good nothing is left over. */
  ghost predicate EndsIn(table: Table, c: Context, r: Result) {
    match r.outcome
    case Rejected => false
    case Error(_) => r.context.state.Completed?
    case Value(_, over) =>
      if over then r.context.state.Completed?
      else r.context.state.Suspended? && StillSound(c, r.context)
    case Running => r.context.state.Executing? && StillSound(c, r.context)
  }

  ghost predicate StillSound(c: Context, d: Context) {
    !d.done && (c.root.Normal? ==> d.root.Normal?)
  }

  lemma {:induction false} LoopEnds(table: Table, c: Context, steps: seq<Step>)
    requires Fits(table, c) && (c.done ==> c.mode.Throw? && c.state.Completed?)
    ensures EndsIn(table, c, Loop(table, c, steps))
    decreases |steps|, !c.done
  {
    hide Body;
    if !c.done {
      PreparedRoot(table, c);
      hide Prepared;
      var d := Prepared(table, c).(state := Executing);
      if d.next.End? && d.root.Thrown? {
        LoopEnds(table, d.(done := true, state := State.Completed, mode := Throw, arg := d.root.value), steps);
      } else if d.next.At? && steps != [] {
        var (c', s) := Body(table, d, steps[0]);
        if s.Continue? {
          LoopEnds(table, c'.(state := Suspended), steps[1..]);
        } else if s.Throws? {
          LoopEnds(table, c'.(state := State.Completed, mode := Throw, arg := s.value), steps[1..]);
        }
      }
    }
  }

  lemma {:induction false} PreparedRoot(table: Table, c: Context)
    requires Fits(table, c)
    ensures Prepared(table, c).next.At? ==> Prepared(table, c).root == c.root
  {
    hide InnermostLive, InnermostFinally;
  }

  /** A generator that is running refuses calls and stays as it is, a completed one stays as it is too
      and answers with its end, and a throw before the start completes it; otherwise the state after a
      call tells how it has ended, and it can go on if it has not. */
  lemma {:induction false} CallStates(table: Table, c: Context, call: Call)
    requires WellNested(table) && Fits(table, c) && (c.state.Completed? || Sound(table, c))
    ensures var r := Called(table, c, call);
            && (r.outcome.Rejected? <==> c.state.Executing?)
            && (c.state.Executing? || c.state.Completed? ==> r.context == c && r.visited == [])
            && (c.state.Completed? ==>
                r.outcome == if call.mode.Throw? then Error(call.arg) else Outcome.Value(Undefined, true))
            && (c.state.Start? && call.mode.Throw? ==>
                r.outcome == Error(call.arg) && r.visited == [] && r.context.state.Completed?)
            && (r.outcome.Error? || (r.outcome.Value? && r.outcome.done) ==> r.context.state.Completed?)
            && (r.outcome.Value? && !r.outcome.done ==> r.context.state.Suspended?)
            && (r.outcome.Running? ==> r.context.state.Executing?)
            && (r.context.state.Completed? || Sound(table, r.context))
  {
    hide WellNested, Loop;
    if !c.state.Completed? {
      LoopEnds(table, c.(mode := call.mode, arg := call.arg), call.steps);
    }
  }

  /** A generator that is completed is so for good: no later call enters its body. */
  lemma {:induction false} CompletedForGood(table: Table, c: Context, calls: seq<Call>)
    requires Fits(table, c) && c.state.Completed?
    ensures forall j :: 0 <= j < |calls| ==>
              RunOf(table, c, calls)[j] ==
                Result(c, if calls[j].mode.Throw? then Error(calls[j].arg) else Outcome.Value(Undefined, true), [])
    decreases |calls|
  {
    if calls != [] {
      CompletedForGood(table, c, calls[1..]);
    }
  }

  lemma {:induction false} ActsAppend(table: Table, a: seq<Step>, b: seq<Step>)
    ensures Acts(table, a + b) == Acts(table, a) + Acts(table, b)
  {
    if a == [] {
      assert a + b == b;
    } else {
      assert (a + b)[0] == a[0] && (a + b)[1..] == a[1..] + b;
      ActsAppend(table, a[1..], b);
    }
  }

  ghost predicate EndsWithYield(a: seq<Step>) {
    a != [] && a[|a| - 1].action.Yield? && InOneCall(a)
  }

  lemma {:induction false} StillEndsWithYield(a: seq<Step>)
    requires EndsWithYield(a) && !a[0].action.Yield?
    ensures EndsWithYield(a[1..]) && |a| > 1
  {
    assert |a| > 1;
  }

  /** Up to a yield the steps belong to the unwinding of one call, and those behind it to what is left. */
  lemma {:induction false} BehavesUpTo(table: Table, s: Stage, a: seq<Step>, b: seq<Step>)
    requires s.held != [] && |s.memory| == |table| && EndsWithYield(a) && Behaves(table, s, a + b)
    ensures Behaves(table, s, a)
    ensures var f := Unwind(table, s, Acts(table, a), Runtime).final;
            f.Paused? && f.stage.held != [] && |f.stage.memory| == |table| && Behaves(table, f.stage, b)
    decreases |a|
  {
    hide Does, InOneCall, Follows;
    assert (a + b)[0] == a[0] && (a + b)[1..] == a[1..] + b;
    assert Acts(table, a)[0] == ActAt(table, a[0]) && Acts(table, a)[1..] == Acts(table, a[1..]);
    if a[0].action.Yield? {
      OnlyYield(a);
      assert (a + b)[1..] == b && a[1..] == [];
      YieldMoves(table, s, a[0]);
    } else {
      StillEndsWithYield(a);
      var t := Does(table, s, ActAt(table, a[0]), Runtime);
      assert |a + b| > 1 && t.Moves?;
      BehavesUpTo(table, t.stage, a[1..], b);
    }
  }

  lemma {:induction false} OnlyYield(a: seq<Step>)
    requires EndsWithYield(a) && a[0].action.Yield?
    ensures |a| == 1
  {
  }

  lemma {:induction false} YieldMoves(table: Table, s: Stage, step: Step)
    requires s.held != [] && |s.memory| == |table| && step.action.Yield?
    ensures Does(table, s, ActAt(table, step), Runtime).Moves?
  {
  }

  /** So it is from where something is raised. */
  lemma {:induction false} BehavesFromUpTo(table: Table, held: seq<Held>, memory: seq<Completion>, frames: seq<Frame>,
                                           p: Pending, a: seq<Step>, b: seq<Step>)
    requires FramesOf(table, frames) && |memory| == |table| && EndsWithYield(a) &&
             BehavesFrom(table, held, memory, frames, p, a + b)
    ensures BehavesFrom(table, held, memory, frames, p, a)
    ensures var f := UnwindFrom(table, held, memory, frames, p, Acts(table, a), Runtime).final;
            f.Paused? && f.stage.held != [] && |f.stage.memory| == |table| && Behaves(table, f.stage, b)
  {
    hide Raised, Behaves, Unwind, InOneCall;
    assert a + b != [];
    BehavesUpTo(table, Raised(table, held, memory, frames, p).stage, a, b);
  }

  // ---------------------------------------------------------------------------------
  // Bodies that have yielded while they are being left

  lemma {:induction false} AtsAppend(a: seq<nat>, b: seq<nat>)
    ensures Ats(a + b) == Ats(a) + Ats(b)
  {
  }

  /** The calls run the course, after the places visited before: all but the last end with a yield. */
  ghost predicate RunsOver(table: Table, course: Course, visited: seq<Loc>, entered: seq<Loc>, log: seq<Event>,
                           rs: seq<Result>) {
    && |rs| > 0 && (forall j :: 0 <= j < |rs| - 1 ==> rs[j].outcome.Value? && !rs[j].outcome.done)
    && Fulfils(table, course.final, rs[|rs| - 1])
    && entered == visited + Ats(course.places)
    && rs[|rs| - 1].context.log == log + course.events
  }

  /** The first call up to its yield, and the calls after it: the course goes on where it paused. */
  lemma {:induction false} JoinRuns(table: Table, first: Course, later: Course, visited: seq<Loc>, entered: seq<Loc>,
                                    log: seq<Event>, rs: seq<Result>)
    requires |rs| > 1 && first.final.Paused? && Fulfils(table, first.final, rs[0])
    requires entered == visited + Ats(first.places) && rs[0].context.log == log + first.events
    requires RunsOver(table, later, [], EnteredLater(rs[1..]), rs[0].context.log, rs[1..])
    ensures RunsOver(table, Following(first.places, first.events, later), visited, entered + EnteredLater(rs[1..]), log,
                     rs)
  {
    hide Fulfils, Ats;
    FirstAndRest(table, first.final, rs);
    AtsAppend(first.places, later.places);
    Regrouped([], Ats(later.places), []);
    Regrouped(visited, Ats(first.places), Ats(later.places));
    Regrouped(log, first.events, later.events);
  }

  lemma {:induction false} Regrouped<T>(a: seq<T>, b: seq<T>, c: seq<T>)
    ensures a + b + c == a + (b + c) && [] + b == b
  {
  }

  lemma {:induction false} FirstAndRest(table: Table, f: Final, rs: seq<Result>)
    requires f.Paused? && rs != [] && Fulfils(table, f, rs[0])
    ensures rs[0].outcome.Value? && !rs[0].outcome.done
    ensures |rs| > 1 ==> rs[|rs| - 1] == rs[1..][|rs[1..]| - 1]
    ensures (forall j :: 0 <= j < |rs[1..]| - 1 ==> rs[1..][j].outcome.Value? && !rs[1..][j].outcome.done) ==>
              forall j :: 0 <= j < |rs| - 1 ==> rs[j].outcome.Value? && !rs[j].outcome.done
  {
    PausesFirst(table, f, rs[0]);
    hide Fulfils;
    assert forall j :: 0 < j < |rs| ==> rs[j] == rs[1..][j - 1];
  }

  lemma {:induction false} PausesFirst(table: Table, f: Final, r: Result)
    requires f.Paused? && Fulfils(table, f, r)
    ensures r.outcome.Value? && !r.outcome.done && PausedAt(table, r.context, f.stage)
  {
  }

  /** A body that has yielded while it is being left goes on, however often it yields again. */
  lemma {:induction false} ResumedRun(table: Table, c: Context, s: Stage, calls: seq<Call>)
    requires PausedAt(table, c, s) && s.held != [] && |s.memory| == |table|
    requires calls != [] && Yielding(calls) && Resuming(calls) && Behaves(table, s, Flat(calls))
    ensures Fits(table, c) && !c.done
    ensures RunsOver(table, Unwind(table, s, Acts(table, Flat(calls)), Runtime), [],
                     EnteredLater(RunOf(table, c, calls)), c.log, RunOf(table, c, calls))
    decreases |calls|
  {
    hide WellNested, Frames, Behaves, Unwind, Called, InOneCall, StageOk, Yielding, Resuming, Acts, Flat, EndsWithYield,
         Fulfils;
    FirstResumes(calls);
    if |calls| == 1 {
      OneCall(table, c, calls);
      CallResumes(table, c, s, calls[0]);
      assert Called(table, c, calls[0]).visited != [];
      SkipFirst(c.next, Ats(Unwind(table, s, Acts(table, Flat(calls)), Runtime).places));
    } else {
      hide RunsOver, EnteredLater;
      LaterCalls(calls);
      LaterSteps(calls);
      BehavesUpTo(table, s, calls[0].steps, Flat(calls[1..]));
      CallResumes(table, c, s, calls[0]);
      ActsAppend(table, calls[0].steps, Flat(calls[1..]));
      UnwindAppend(table, s, Acts(table, calls[0].steps), Acts(table, Flat(calls[1..])), Runtime);
      var r, first := Called(table, c, calls[0]), Unwind(table, s, Acts(table, calls[0].steps), Runtime);
      PausesFirst(table, first.final, r);
      ResumedRun(table, r.context, first.final.stage, calls[1..]);
      RunFirst(table, c, calls);
      SkipFirst(c.next, Ats(first.places));
      var later := Unwind(table, first.final.stage, Acts(table, Flat(calls[1..])), Runtime);
      JoinRuns(table, first, later, [], Ats(first.places), c.log, RunOf(table, c, calls));
      LaterFirst(RunOf(table, c, calls));
    }
  }

  lemma {:induction false} SkipFirst(next: Loc, places: seq<Loc>)
    ensures ([next] + places)[1..] == places && [] + places == places
  {
  }

  lemma {:induction false} RunFirst(table: Table, c: Context, calls: seq<Call>)
    requires Fits(table, c) && (c.done ==> c.state.Completed?) && calls != []
    ensures var r, rs := Called(table, c, calls[0]), RunOf(table, c, calls);
            (r.context.done ==> r.context.state.Completed?) && rs[0] == r &&
              rs[1..] == RunOf(table, r.context, calls[1..])
  {
    hide Called;
    CalledStays(table, c, calls[0]);
  }

  lemma {:induction false} LaterFirst(rs: seq<Result>)
    requires rs != [] && rs[0].visited != []
    ensures EnteredLater(rs) == rs[0].visited[1..] + EnteredLater(rs[1..])
  {
  }

  lemma {:induction false} LaterCalls(calls: seq<Call>)
    requires |calls| > 1 && Yielding(calls)
    ensures EndsWithYield(calls[0].steps) && InOneCall(calls[0].steps) &&
            Flat(calls) == calls[0].steps + Flat(calls[1..])
    ensures Yielding(calls[1..]) && (Resuming(calls) ==> Resuming(calls[1..]))
  {
  }

  lemma {:induction false} FirstResumes(calls: seq<Call>)
    requires calls != [] && Yielding(calls) && Resuming(calls)
    ensures calls[0].mode.Next? && calls[0].steps != [] && InOneCall(calls[0].steps)
  {
  }

  lemma {:induction false} LaterSteps(calls: seq<Call>)
    requires |calls| > 1 && Resuming(calls[1..])
    ensures calls[1..] != [] && Flat(calls[1..]) != []
  {
    assert calls[1..][0].steps != [];
  }

  lemma {:induction false} OneCall(table: Table, c: Context, calls: seq<Call>)
    requires Fits(table, c) && (c.done ==> c.state.Completed?) && |calls| == 1
    ensures var r := Called(table, c, calls[0]);
            Flat(calls[1..]) == [] && Flat(calls) == calls[0].steps && RunOf(table, c, calls) == [r] &&
            (r.visited != [] ==> EnteredLater([r]) == r.visited[1..]) && Entered([r]) == r.visited
  {
    hide Called;
    assert calls[1..] == [];
    assert calls[0].steps + [] == calls[0].steps;
    var r := Called(table, c, calls[0]);
    assert [r][1..] == [];
    assert r.visited != [] ==> r.visited[1..] + [] == r.visited[1..];
  }

  // ---------------------------------------------------------------------------------
  // Runs in which the body is left

  /** The first call leaves the body with p in the context `here`: at once, by a throw or return sent into
      it, or by what its step k raises; the steps are those after, and the places visited by then. */
  ghost predicate Leaves(table: Table, c: Context, call: Call, k: nat, p: Pending, here: Context, steps: seq<Step>,
                         visited: seq<Loc>)
    requires Sound(table, c)
  {
    && Receives(c, call)
    && if !call.mode.Next? then p == PendingOf(call) && here == c && steps == call.steps && visited == []
       else
         && k < |call.steps|
         && var r := Go(table, Ran(c.(mode := Next, arg := call.arg)), call.steps[..k]);
         && r.outcome.Running? && Sound(table, r.context) && r.context.mode.Next?
         && Enters(table, call.steps[k]) && Raises(call.steps[k], p) && here == Arrived(table, r.context, call.steps[k])
         && steps == call.steps[k + 1..] && visited == r.visited + [r.context.next]
  }

  lemma {:induction false} RunningIsAt(table: Table, c: Context, steps: seq<Step>)
    requires Fits(table, c) && !c.done && Go(table, c, steps).outcome.Running?
    ensures !Go(table, c, steps).context.done && Go(table, c, steps).context.next.At?
    decreases |steps|
  {
    hide Body, Prepared;
    if c.next.At? && steps != [] {
      var (c', s) := Body(table, c, steps[0]);
      if s.Continue? {
        RunningIsAt(table, Prepared(table, c'.(state := Suspended)).(state := Executing), steps[1..]);
      } else if s.Throws? {
        RunningIsAt(table,
                    Prepared(table, c'.(state := State.Completed, mode := Throw, arg := s.value)).(state := Executing),
                    steps[1..]);
      }
    }
  }

  /** The first call runs its course from there, up to its end. */
  lemma {:induction false} LeavingUnwinds(table: Table, c: Context, call: Call, k: nat, p: Pending, here: Context,
                                          held: seq<Held>, steps: seq<Step>, visited: seq<Loc>)
    requires Sound(table, c) && Leaves(table, c, call, k, p, here, steps, visited)
    requires |here.completions| == |table| && HeldOk(table, held, here.completions)
    requires InOneCall(steps) && BehavesFrom(table, held, here.completions, Here(table, here.prev), p, steps)
    ensures RunsCourse(table,
                       UnwindFrom(table, held, here.completions, Here(table, here.prev), p, Acts(table, steps),
                                  Runtime), visited, here.log,
                       Called(table, c, call))
  {
    hide WellNested, Frames, BehavesFrom, UnwindFrom, InOneCall, Acts, Fulfils, Go, Enters, Raises, Called, HeldOk;
    if !call.mode.Next? {
      CallUnwinds(table, c, held, call);
    } else {
      var d := Ran(c.(mode := Next, arg := call.arg));
      NextGoesOn(table, c, call);
      var r, later := Go(table, d, call.steps[..k]), [call.steps[k]] + steps;
      RunningIsAt(table, d, call.steps[..k]);
      assert call.steps == call.steps[..k] + later;
      GoInParts(table, d, call.steps[..k], later);
      BodyRaises(table, r.context, held, p, call.steps[k], steps);
      var course := UnwindFrom(table, held, here.completions, Here(table, here.prev), p, Acts(table, steps), Runtime);
      SameEnd(table, course.final, Go(table, r.context, later), Called(table, c, call));
      assert r.visited + ([r.context.next] + Ats(course.places)) == r.visited + [r.context.next] + Ats(course.places);
    }
  }

  /** The first call leaves the body, with the finalizers held in progress already, and the calls after it,
      all next, take it up where the one before yielded; the steps all together are those of a body that
      is unwound. */
  ghost predicate LeftOverCalls(table: Table, c: Context, calls: seq<Call>, k: nat, p: Pending, here: Context,
                                held: seq<Held>, steps: seq<Step>, visited: seq<Loc>) {
    && Sound(table, c) && calls != [] && Leaves(table, c, calls[0], k, p, here, steps, visited)
    && InOneCall(steps) && (|calls| > 1 ==> EndsWithYield(steps)) && Yielding(calls[1..]) && Resuming(calls[1..])
    && |here.completions| == |table| && HeldOk(table, held, here.completions)
    && BehavesFrom(table, held, here.completions, Here(table, here.prev), p, AllSteps(steps, calls))
  }

  /** The steps from where the body is left on, over all calls. */
  function AllSteps(steps: seq<Step>, calls: seq<Call>): seq<Step>
    requires calls != []
  {
    steps + Flat(calls[1..])
  }

  /** A body that is left unwinds over any run of calls by the runtime's rules, when it yields on the way,
      whatever it does in the finalizers: the last call comes to the end of the course, the calls go on at
      its places, and it is what the entries log. */
  lemma {:induction false} RunOfCalls(table: Table, c: Context, calls: seq<Call>, k: nat, p: Pending, here: Context,
                                      held: seq<Held>, steps: seq<Step>, visited: seq<Loc>)
    requires LeftOverCalls(table, c, calls, k, p, here, held, steps, visited)
    ensures var rs := RunOf(table, c, calls);
            RunsOver(table, UnwindFrom(table, held, here.completions, Here(table, here.prev), p,
                                       Acts(table, AllSteps(steps, calls)), Runtime), visited,
                     Entered(rs), here.log, rs)
  {
    assert |calls| > 1 ==> steps != [];
    hide WellNested, Frames, BehavesFrom, Unwind, UnwindFrom, Called, InOneCall, Yielding, Acts, Flat, EndsWithYield,
         Leaves, Resuming, Fulfils, HeldOk;
    var fs, memory := Here(table, here.prev), here.completions;
    if |calls| == 1 {
      OneCall(table, c, calls);
      assert steps + Flat(calls[1..]) == steps;
      LeavingUnwinds(table, c, calls[0], k, p, here, held, steps, visited);
    } else {
      hide RunsOver, Behaves;
      LaterSteps(calls);
      var later := Flat(calls[1..]);
      BehavesFromUpTo(table, held, memory, fs, p, steps, later);
      LeavingUnwinds(table, c, calls[0], k, p, here, held, steps, visited);
      ActsAppend(table, steps, later);
      UnwindFromAppend(table, held, memory, fs, p, Acts(table, steps), Acts(table, later));
      var r, first := Called(table, c, calls[0]), UnwindFrom(table, held, memory, fs, p, Acts(table, steps), Runtime);
      PausesFirst(table, first.final, r);
      ResumedRun(table, r.context, first.final.stage, calls[1..]);
      RunFirst(table, c, calls);
      JoinRuns(table, first, Unwind(table, first.final.stage, Acts(table, later), Runtime), visited, r.visited,
               here.log, RunOf(table, c, calls));
    }
  }

  lemma {:induction false} UnwindFromAppend(table: Table, held: seq<Held>, memory: seq<Completion>, frames: seq<Frame>,
                                            p: Pending, a: seq<Act>, b: seq<Act>)
    requires FramesOf(table, frames) && |memory| == |table| && ActsIn(table, a) && ActsIn(table, b) &&
             ActsIn(table, a + b) && a != [] && b != []
    requires UnwindFrom(table, held, memory, frames, p, a, Runtime).final.Paused?
    ensures var c := UnwindFrom(table, held, memory, frames, p, a, Runtime); var s := c.final.stage;
            && s.held != [] && |s.memory| == |table|
            && UnwindFrom(table, held, memory, frames, p, a + b, Runtime) ==
               Following(c.places, c.events, Unwind(table, s, b, Runtime))
  {
    hide Raised, Unwind;
    var t := Raised(table, held, memory, frames, p);
    UnwindAppend(table, t.stage, a, b, Runtime);
    var c := Unwind(table, t.stage, a, Runtime);
    FollowingTwice([t.stage.next], t.events, c.places, c.events, Unwind(table, c.final.stage, b, Runtime));
  }

  /** If no act slips, it unwinds as nested try statements do. */
  lemma {:induction false} RunAsNested(table: Table, c: Context, calls: seq<Call>, k: nat, p: Pending, here: Context,
                                       held: seq<Held>, steps: seq<Step>, visited: seq<Loc>)
    requires LeftOverCalls(table, c, calls, k, p, here, held, steps, visited)
    requires NoSlipsFrom(table, held, here.completions, Here(table, here.prev), p, Acts(table, AllSteps(steps, calls)))
    ensures var rs := RunOf(table, c, calls);
            RunsOver(table, UnwindFrom(table, held, here.completions, Here(table, here.prev), p,
                                       Acts(table, AllSteps(steps, calls)), Rules.Nested), visited,
                     Entered(rs), here.log, rs)
  {
    hide WellNested, Frames, BehavesFrom, UnwindFrom, RunsOver, NoSlipsFrom, Yielding, Resuming, Flat, Acts, Entered,
         Leaves, HeldOk;
    RunOfCalls(table, c, calls, k, p, here, held, steps, visited);
    SameFrom(table, held, here.completions, Here(table, here.prev), p, Acts(table, AllSteps(steps, calls)));
  }

  // ---------------------------------------------------------------------------------
  // Returns and throws over runs of calls

  /** The statements with a finalizer around a location are those it is in before the finalizer, the
      innermost first, each once. */
  lemma {:induction false} Enclosing(table: Table, n: nat, p: nat)
    requires WellNested(table) && n <= |table|
    ensures Encloses(table, n, p, WithFinalizer(table, Frames(table, n, p)))
  {
    hide WellNested, Entry.BeforeFinally, Entry.Live, WithFinalizer, Encloses;
    if n == 0 {
      NoneEnclosing(table, p);
    } else {
      Enclosing(table, n - 1, p);
      EnclosingStep(table, n, p);
      if table[n - 1].BeforeFinally(p) {
        OneMore(table, n, p, WithFinalizer(table, Frames(table, n - 1, p)));
      } else {
        NoneMore(table, n, p, WithFinalizer(table, Frames(table, n - 1, p)));
      }
    }
  }

  /** The statements among the first n that one is in before their finalizers, the inner first, each once. */
  ghost predicate Encloses(table: Table, n: nat, p: nat, w: seq<nat>)
    requires n <= |table|
  {
    && (forall i: nat :: i in w <==> i < n && table[i].BeforeFinally(p))
    && (forall j, k :: 0 <= j < k < |w| ==> w[k] < w[j])
  }

  lemma {:induction false} NoneEnclosing(table: Table, p: nat)
    ensures Encloses(table, 0, p, WithFinalizer(table, Frames(table, 0, p)))
  {
  }

  lemma {:induction false} EnclosingStep(table: Table, n: nat, p: nat)
    requires WellNested(table) && 0 < n <= |table|
    ensures var later := WithFinalizer(table, Frames(table, n - 1, p));
            WithFinalizer(table, Frames(table, n, p)) == if table[n - 1].BeforeFinally(p) then [n - 1] + later
              else later
  {
    hide WellNested, Entry.BeforeFinally, Entry.Live, Frames;
    FinallyIsLive(table, n - 1, p);
    FramesUnfold(table, n, p);
    var rest := Frames(table, n - 1, p);
    if table[n - 1].Live(p) {
      WithFinalizerCons(table, Frame(n - 1, table[n - 1].InTry(p)), rest);
    }
  }

  lemma {:induction false} WithFinalizerCons(table: Table, top: Frame, rest: seq<Frame>)
    requires top.index < |table| && FramesOf(table, [top] + rest) && FramesOf(table, rest)
    ensures WithFinalizer(table, [top] + rest) ==
            (if table[top.index].finallyLoc.Some? then [top.index] + WithFinalizer(table, rest)
             else WithFinalizer(table, rest))
  {
    assert ([top] + rest)[1..] == rest && ([top] + rest)[0] == top;
    assert [] + WithFinalizer(table, rest) == WithFinalizer(table, rest);
  }

  lemma {:induction false} OneMore(table: Table, n: nat, p: nat, later: seq<nat>)
    requires 0 < n <= |table| && table[n - 1].BeforeFinally(p) && Encloses(table, n - 1, p, later)
    ensures Encloses(table, n, p, [n - 1] + later)
  {
    hide Entry.BeforeFinally;
    var w := [n - 1] + later;
    forall i: nat
      ensures i in w <==> i < n && table[i].BeforeFinally(p)
    {
      assert i in w <==> i == n - 1 || i in later;
    }
    forall j, k | 0 <= j < k < |w|
      ensures w[k] < w[j]
    {
      assert w[k] == later[k - 1] && later[k - 1] in later;
      assert j > 0 ==> w[j] == later[j - 1];
    }
  }

  lemma {:induction false} NoneMore(table: Table, n: nat, p: nat, later: seq<nat>)
    requires 0 < n <= |table| && !table[n - 1].BeforeFinally(p) && Encloses(table, n - 1, p, later)
    ensures Encloses(table, n, p, later)
  {
  }

  /** By the runtime's rules nothing that happens in a finalizer takes over from the outermost one in
      progress, and n of these come to their ends. */
  ghost predicate Undisturbed(table: Table, here: Context, p: Pending, acts: seq<Act>, n: nat)
    requires Fits(table, here) && ActsIn(table, acts)
  {
    && QuietFrom(table, here.completions, Here(table, here.prev), p, acts, Runtime)
    && EndsFrom(table, here.completions, Here(table, here.prev), p, acts, Runtime) >= n
  }

  /** So it is if that holds by the rules of the language and no act slips. */
  lemma {:induction false} UndisturbedAsNested(table: Table, here: Context, p: Pending, acts: seq<Act>, n: nat)
    requires Fits(table, here) && ActsIn(table, acts)
    requires NoSlipsFrom(table, [], here.completions, Here(table, here.prev), p, acts)
    requires QuietFrom(table, here.completions, Here(table, here.prev), p, acts, Rules.Nested)
    requires EndsFrom(table, here.completions, Here(table, here.prev), p, acts, Rules.Nested) >= n
    ensures Undisturbed(table, here, p, acts, n)
  {
    hide Raised, NoSlips, Quiet, Ends;
    RaisedOk(table, [], here.completions, Here(table, here.prev), p);
    var t := Raised(table, [], here.completions, Here(table, here.prev), p);
    if t.Moves? {
      SameWithoutSlips(table, t.stage, acts);
    }
  }

  /** Nothing but yields and ends of finalizers on the way. */
  ghost predicate OnlyOutward(table: Table, here: Context, p: Pending, acts: seq<Act>)
    requires Fits(table, here) && ActsIn(table, acts)
  {
    PlainFrom(table, here.completions, Here(table, here.prev), p, acts, Runtime)
  }

  /** All calls but the last ended with a yield, and since the body was left by p at `here` the statements
      around that place were left by p in this order, each once. */
  ghost predicate WentOutward(table: Table, here: Context, p: Pending, indices: seq<nat>, rs: seq<Result>) {
    && |rs| > 0 && (forall j :: 0 <= j < |rs| - 1 ==> rs[j].outcome.Value? && !rs[j].outcome.done)
    && var log := rs[|rs| - 1].context.log;
       |here.log| <= |log| && log[..|here.log|] == here.log &&
         Leavings(table, log[|here.log|..], here.prev) == Lefts(indices, p)
  }

  /** A return or throw that nothing disturbs goes outward from statement to statement. */
  lemma {:induction false} OutwardOverCalls(table: Table, c: Context, calls: seq<Call>, k: nat, p: Pending,
                                            here: Context, steps: seq<Step>, visited: seq<Loc>)
    requires LeftOverCalls(table, c, calls, k, p, here, [], steps, visited) && !p.Jumping?
    requires Undisturbed(table, here, p, Acts(table, AllSteps(steps, calls)), Needs(table, Here(table, here.prev), p))
    ensures var rs, fs := RunOf(table, c, calls), Here(table, here.prev);
            && WentOutward(table, here, p, Handlers(table, fs, p), rs) &&
               Fulfils(table, WayEnd(table, fs, p), rs[|rs| - 1])
            && (OnlyOutward(table, here, p, Acts(table, AllSteps(steps, calls))) ==>
                Entered(rs) == visited + Ats(FinallyPlaces(table, fs, p)))
  {
    hide WellNested, Frames, BehavesFrom, UnwindFrom, QuietFrom, EndsFrom, PlainFrom, Yielding, Resuming, Flat, Acts,
         Entered, Leaves, HeldOk, Handlers, WayEnd,
         Needs, Fulfils, Leavings, Lefts, FinallyPlaces;
    RunOfCalls(table, c, calls, k, p, here, [], steps, visited);
    var acts := Acts(table, AllSteps(steps, calls));
    AllTheWayOut(table, here.completions, here.prev, p, acts, Runtime);
    if OnlyOutward(table, here, p, acts) {
      PlainAllTheWay(table, here.completions, here.prev, p, acts, Runtime);
    }
    var course := UnwindFrom(table, [], here.completions, Here(table, here.prev), p, acts, Runtime);
    assert (here.log + course.events)[|here.log|..] == course.events;
  }

  /** A return runs every finalizer around the place the body is left at, once each and the inner before
      the outer, however often the body yields and whatever try statements it goes through in them, and
      the last call ends with its value. */
  lemma {:induction false} ReturnOverCalls(table: Table, c: Context, calls: seq<Call>, k: nat, value: Value,
                                           here: Context, steps: seq<Step>, visited: seq<Loc>)
    requires LeftOverCalls(table, c, calls, k, Returning(value), here, [], steps, visited)
    requires Undisturbed(table, here, Returning(value), Acts(table, AllSteps(steps, calls)),
                         |WithFinalizer(table, Here(table, here.prev))|)
    ensures var rs, w := RunOf(table, c, calls), WithFinalizer(table, Here(table, here.prev)); var last := rs[|rs| - 1];
            && last.outcome == Outcome.Value(value, true) && last.context.state.Completed?
            && WentOutward(table, here, Returning(value), w, rs)
            && (OnlyOutward(table, here, Returning(value), Acts(table, AllSteps(steps, calls))) ==>
                Entered(rs) == visited + Ats(FinallyLocs(table, w)))
            && (forall i: nat :: i in w <==> i < |table| && table[i].BeforeFinally(here.prev))
            && (forall j, k :: 0 <= j < k < |w| ==> w[k] < w[j])
  {
    hide WellNested, Frames, LeftOverCalls, Undisturbed, OnlyOutward, WithFinalizer, Flat, Acts, RunOf, Entered,
         AllSteps, Handlers, WayEnd, Needs, FinallyPlaces, WentOutward,
         FinallyLocs, Entry.BeforeFinally;
    LeftIs(table, c, calls, k, Returning(value), here, [], steps, visited);
    ReturnRunsAllFinalizers(table, Here(table, here.prev), value);
    OutwardOverCalls(table, c, calls, k, Returning(value), here, steps, visited);
    Enclosing(table, |table|, here.prev);
    assert Here(table, here.prev) == Frames(table, |table|, here.prev);
  }

  lemma {:induction false} LeftIs(table: Table, c: Context, calls: seq<Call>, k: nat, p: Pending, here: Context,
                                  held: seq<Held>, steps: seq<Step>, visited: seq<Loc>)
    requires LeftOverCalls(table, c, calls, k, p, here, held, steps, visited)
    ensures Sound(table, c) && Fits(table, here) && calls != []
  {
  }

  /** A throw runs the finalizers up to the first catch block around, once each, and goes on there, or ends
      the generator with the error, however often the body yields and whatever try statements it goes
      through in them. */
  lemma {:induction false} ThrowOverCalls(table: Table, c: Context, calls: seq<Call>, k: nat, value: Value,
                                          here: Context, steps: seq<Step>, visited: seq<Loc>)
    requires LeftOverCalls(table, c, calls, k, Throwing(value), here, [], steps, visited)
    requires Undisturbed(table, here, Throwing(value), Acts(table, AllSteps(steps, calls)),
                         |Uncaught(Here(table, here.prev))|)
    ensures var rs, fs := RunOf(table, c, calls), Here(table, here.prev); var u, last := Uncaught(fs), rs[|rs| - 1];
            && WentOutward(table, here, Throwing(value), Indices(fs[..if |u| < |fs| then |u| + 1 else |fs|]), rs)
            && (OnlyOutward(table, here, Throwing(value), Acts(table, AllSteps(steps, calls))) ==>
                Entered(rs) == visited + Ats(FinallyLocs(table, Indices(u))))
            && if |u| == |fs| then last.outcome == Error(value) && last.context.state.Completed?
               else fs[|u|].index < |table| && table[fs[|u|].index].catchLoc.Some? && last.outcome.Running? &&
                    last.context.next == At(table[fs[|u|].index].catchLoc.value) && Fits(table, last.context) &&
                    last.context.completions[fs[|u|].index] == Thrown(value)
  {
    hide WellNested, Frames, LeftOverCalls, Undisturbed, OnlyOutward, Flat, Acts, RunOf, Entered, AllSteps, Handlers,
         WayEnd, Needs, FinallyPlaces, FinallyLocs,
         Uncaught, Indices, WentOutward;
    LeftIs(table, c, calls, k, Throwing(value), here, [], steps, visited);
    ThrowGoesToFirstCatch(table, Here(table, here.prev), value);
    OutwardOverCalls(table, c, calls, k, Throwing(value), here, steps, visited);
  }
}
