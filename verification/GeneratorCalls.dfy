/** One call of a compiled generator (module "96cf"): what the invoke loop makes of the steps of a body
    that is left by a return, a throw or a jump is what unwinding by the runtime's rules makes of them. */
module GeneratorCalls {
  import opened Collections
  import opened GeneratorTable
  import opened GeneratorUnwinding
  import opened GeneratorSteps

  // ---------------------------------------------------------------------------------
  // Steps as acts

  /** The step as an act of unwinding. */
  ghost function ActAt(table: Table, step: Step): (a: Act)
    ensures ActIn(table, a)
  {
    Act(if step.caught.Some? then WithTryAt(table, |table|, step.caught.value) else None, Here(table, step.at),
        match step.action
        case Yield(v, to) => Pause(v, to)
        case AbruptReturn(v) => Raise(Returning(v))
        case AbruptJump(to) => Raise(Jumping(to))
        case ThrowNew(v) => Raise(Throwing(v))
        case Finish(loc) =>
          var found := WithFinallyAt(table, |table|, loc);
          if found.Some? then EndOf(found.value) else Pause(Undefined, 0))
  }

  ghost function Acts(table: Table, steps: seq<Step>): (r: seq<Act>)
    ensures |r| == |steps| && ActsIn(table, r)
  {
    if steps == [] then [] else [ActAt(table, steps[0])] + Acts(table, steps[1..])
  }

  /** The step is one of a body at the stage: it is in all finalizers in progress; an exception it takes
      is not for their statements; and an end is that of the innermost one or of a statement in it. */
  ghost predicate Follows(table: Table, s: Stage, step: Step)
    requires s.held != []
  {
    && Enters(table, step)
    && (forall k :: 0 <= k < |s.held| ==> InFinally(table, s.held[k].index, step.at))
    && (step.caught.Some? ==> forall k :: 0 <= k < |s.held| ==>
        Some(s.held[k].index) != WithTryAt(table, |table|, step.caught.value))
    && (step.action.Finish? ==>
          var found := WithFinallyAt(table, |table|, step.action.finallyLoc);
          && found.Some? && InFinalizer(table, found.value, step.at)
          && (found.value == s.held[0].index || NestedIn(table, found.value, s.held[0].index)))
  }

  /** The steps are those of a body that is unwound from the stage, and go no further. */
  ghost predicate Behaves(table: Table, s: Stage, steps: seq<Step>)
    requires s.held != [] && |s.memory| == |table|
    decreases |steps|
  {
    steps == [] ||
    (Follows(table, s, steps[0]) &&
     match Does(table, s, ActAt(table, steps[0]), Runtime)
     case Stops(_, _) => |steps| == 1
     case Moves(s', _) => Behaves(table, s', steps[1..]))
  }

  /** A call ends with its first yield. */
  ghost predicate InOneCall(steps: seq<Step>) {
    forall j :: 0 <= j < |steps| - 1 ==> !steps[j].action.Yield?
  }

  lemma {:induction false} FollowsApt(table: Table, s: Stage, step: Step)
    requires WellNested(table) && s.held != [] && Follows(table, s, step)
    ensures Apt(table, s, ActAt(table, step))
  {
    hide WellNested, Frames, Entry.Live;
    var frames := Here(table, step.at);
    forall k, l | 0 <= k < |frames| && 0 <= l < |s.held|
      ensures frames[k].index != s.held[l].index
    {
      BlocksOver(table, s.held[l].index, step.at);
    }
    if step.action.Finish? {
      FramesInFinalizer(table, WithFinallyAt(table, |table|, step.action.finallyLoc).value, step.at);
    }
  }

  lemma {:induction false} BlocksOver(table: Table, i: nat, q: nat)
    requires WellNested(table) && InFinally(table, i, q)
    ensures !table[i].Live(q)
  {
    assert table[i].Valid();
  }

  // ---------------------------------------------------------------------------------
  // Contexts at stages

  ghost predicate Sound(table: Table, c: Context) {
    Fits(table, c) && WellNested(table) && !c.done && c.root.Normal?
  }

  /** Unwinding comes to where the call ends, or to where the call stands. */
  ghost predicate Fulfils(table: Table, final: Final, r: Result) {
    match final
    case Ended(Returning(v)) => r.outcome == Outcome.Value(v, true) && r.context.state.Completed?
    case Ended(Throwing(v)) => r.outcome == Error(v) && r.context.state.Completed?
    case Ended(Jumping(_)) => false
    case Caught(i, v) =>
      && r.outcome.Running? && r.context.mode.Next? && Fits(table, r.context) && i < |table| &&
         r.context.completions[i] == Thrown(v)
      && table[i].catchLoc.Some? && r.context.next == At(table[i].catchLoc.value)
    case GoesOn(to) => r.outcome.Running? && r.context.mode.Next? && r.context.next == At(to)
    case Waiting(s) => r.outcome.Running? && InProgress(table, r.context, s)
    case Paused(s, v) => r.outcome == Outcome.Value(v, false) && PausedAt(table, r.context, s)
  }

  ghost predicate AtStage(table: Table, c: Context, s: Stage) {
    Sound(table, c) && StageOk(table, s) && c.completions == s.memory && c.next == At(s.next)
  }

  /** The body has yielded at the stage. */
  ghost predicate PausedAt(table: Table, c: Context, s: Stage) {
    AtStage(table, c, s) && c.state.Suspended? && !s.hot
  }

  /** A call is about to go on at the stage. */
  ghost predicate InProgress(table: Table, c: Context, s: Stage) {
    AtStage(table, c, s) && if s.hot then c.mode.Throw? && s.held[0].pending == Throwing(c.arg) else c.mode.Next?
  }

  /** The context is about to send p on its way. */
  ghost predicate Sends(table: Table, c: Context, p: Pending) {
    && Sound(table, c)
    && (p.Throwing? ==> c.mode.Throw? && c.arg == p.value)
    && (p.Jumping? ==> c.mode.Next? || Crosses(table, Here(table, c.prev), p.to))
  }

  /** The context has taken the turn, from one that had no more events than the log. */
  ghost predicate Turned(table: Table, d: Context, t: Turn, log: seq<Event>) {
    && Fits(table, d) && !d.done && d.log == log + t.events
    && match t
       case Stops(f, _) => Fulfils(table, f, Go(table, d, [])) && Go(table, d, []).visited == [] &&
         Go(table, d, []).context.log == d.log
       case Moves(s, _) => InProgress(table, d, s)
  }

  /** What is pending is sent to the first frame that handles it, or off the end. */
  lemma {:induction false} SentTurns(table: Table, c: Context, held: seq<Held>, p: Pending)
    requires Sends(table, c, p) && HeldOk(table, held, c.completions)
    ensures |c.completions| == |table| &&
            Turned(table, Sent(table, c, p), Raised(table, held, c.completions, Here(table, c.prev), p), c.log)
  {
    hide WellNested, Frames, FirstFinally, HeldOk, StillIn, Lands, Go, Crosses;
    RaisedOk(table, held, c.completions, Here(table, c.prev), p);
    SentTo(table, c, p);
    var fs := Here(table, c.prev);
    var k, d := Handler(table, fs, p), Sent(table, c, p);
    assert c.log + [] == c.log;
    if k < |fs| {
      if Catches(fs[k], p) && StillIn(table, held, fs[k].index) == [] {
        RunningAt(table, d);
      }
    } else if p.Jumping? {
      LandsTurns(table, d, held, p.to);
    } else {
      OffEnd(table, d, p);
    }
  }

  /** What the context becomes: it goes on at the handler, or at the end, or at the target of a jump. */
  lemma {:induction false} SentTo(table: Table, c: Context, p: Pending)
    requires Sends(table, c, p)
    ensures var fs, d := Here(table, c.prev), Sent(table, c, p); var k := Handler(table, fs, p);
            if k < |fs| then
              var i := fs[k].index;
              && i < |table| && d.completions == c.completions[i := CompletionOf(p)] &&
                 d.log == c.log + [Left(i, CompletionOf(p))] && d.root == c.root
              && if Catches(fs[k], p) then
                   table[i].catchLoc.Some? && d.next == At(table[i].catchLoc.value) && d.mode.Next?
                 else
                   && table[i].finallyLoc.Some? && d.next == At(table[i].finallyLoc.value) && d.arg == c.arg
                   && if p.Throwing? then d.mode.Throw? else d.mode.Next?
            else
              match p
              case Throwing(v) => d == c.(next := End, root := Thrown(v))
              case Returning(v) => d == c.(next := End, rval := v, arg := v, mode := Return)
              case Jumping(to) => d == c.(next := At(to)) && c.mode.Next?
  {
    hide WellNested, Frames, FirstFinally, InnermostLive, InnermostFinally;
    LiveIsFirst(table, |table|, c.prev);
    FinallyIsFirst(table, |table|, c.prev);
  }

  lemma {:induction false} RunningAt(table: Table, c: Context)
    requires Fits(table, c) && !c.done && c.next.At?
    ensures Go(table, c, []) == Result(c, Running, [])
  {
  }

  lemma {:induction false} OffEnd(table: Table, c: Context, p: Pending)
    requires Fits(table, c) && !c.done && c.next.End? && !p.Jumping?
    requires if p.Throwing? then c.root == Thrown(p.value) else c.root.Normal? && c.rval == p.value
    ensures var r := Go(table, c, []); Fulfils(table, Ended(p), r) && r.visited == [] && r.context.log == c.log
  {
  }

  lemma {:induction false} LandsTurns(table: Table, c: Context, held: seq<Held>, to: nat)
    requires Sound(table, c) && c.mode.Next? && c.next == At(to) && HeldOk(table, held, c.completions)
    ensures Turned(table, c, Lands(table, held, c.completions, to), c.log)
  {
    hide WellNested, HeldOk, StillAt;
    LandsOk(table, held, c.completions, to);
    assert c.log + [] == c.log;
  }

  ghost function Ran(c: Context): Context {
    c.(state := Executing)
  }

  /** A throw or return at the head of the invoke loop is sent on its way. */
  lemma {:induction false} LoopSends(table: Table, c: Context, p: Pending, steps: seq<Step>)
    requires Fits(table, c) && !c.done &&
             ((p == Throwing(c.arg) && c.mode.Throw?) || (p == Returning(c.arg) && c.mode.Return?))
    ensures Fits(table, Sent(table, Ran(c), p)) && !Sent(table, Ran(c), p).done
    ensures Loop(table, c, steps) == Go(table, Sent(table, Ran(c), p), steps)
  {
    hide InnermostLive, InnermostFinally;
  }

  /** So is one raised by the body, and the loop does it no second time. */
  lemma {:induction false} RaisedIsSent(table: Table, c: Context, p: Pending, steps: seq<Step>)
    requires Sends(table, c, p) && !p.Throwing?
    ensures var r := Sent(table, Ran(c), p);
            Fits(table, r) && !r.done &&
              Loop(table, Sent(table, c, p).(state := Suspended), steps) == Go(table, r, steps)
  {
    hide InnermostLive, WellNested, Frames, FirstFinally;
    FinallyIsFirst(table, |table|, c.prev);
  }

  lemma {:induction false} JumpInFinalizer(table: Table, c: Context, hot: bool, to: nat, rest: seq<Step>)
    requires Sound(table, c) && (if hot then c.mode.Throw? else c.mode.Next?)
    ensures var fs := Here(table, c.prev);
            var q := if hot && !Crosses(table, fs, to) then Throwing(c.arg) else Jumping(to);
            var d := Sent(table, Ran(c), q);
            Fits(table, d) && !d.done &&
              Loop(table, AbruptJumped(table, c, to).(state := Suspended), rest) == Go(table, d, rest)
  {
    hide WellNested, Frames, FirstFinally;
    FinallyIsFirst(table, |table|, c.prev);
    var there := AbruptJumped(table, c, to).(state := Suspended);
    if hot && !Crosses(table, Here(table, c.prev), to) {
      LoopSends(table, there, Throwing(c.arg), rest);
      assert Sent(table, Ran(there), Throwing(c.arg)) == Sent(table, Ran(c), Throwing(c.arg));
    } else {
      assert Prepared(table, there) == there;
    }
  }

  // ---------------------------------------------------------------------------------
  // One step

  /** What is sent outward by the head of the invoke loop, or by the body, turns as unwinding does. */
  lemma {:induction false} LoopTurns(table: Table, c: Context, held: seq<Held>, p: Pending, rest: seq<Step>)
    returns (d: Context)
    requires Sound(table, c) && HeldOk(table, held, c.completions)
    requires (p == Throwing(c.arg) && c.mode.Throw?) || (p == Returning(c.arg) && c.mode.Return?)
    ensures |c.completions| == |table| &&
            Turned(table, d, Raised(table, held, c.completions, Here(table, c.prev), p), c.log)
    ensures Loop(table, c, rest) == Go(table, d, rest)
  {
    hide WellNested, Frames, HeldOk, Raised, Go, Loop, Sent, Turned;
    d := Sent(table, Ran(c), p);
    LoopSends(table, c, p, rest);
    SentTurns(table, Ran(c), held, p);
  }

  lemma {:induction false} RaisedTurns(table: Table, c: Context, held: seq<Held>, p: Pending, rest: seq<Step>)
    returns (d: Context)
    requires Sends(table, c, p) && !p.Throwing? && HeldOk(table, held, c.completions)
    ensures |c.completions| == |table| &&
            Turned(table, d, Raised(table, held, c.completions, Here(table, c.prev), p), c.log)
    ensures Fits(table, Sent(table, c, p)) &&
            Loop(table, Sent(table, c, p).(state := Suspended), rest) == Go(table, d, rest)
  {
    hide WellNested, Frames, HeldOk, Raised, Go, Loop, Turned;
    d := Sent(table, Ran(c), p);
    RaisedIsSent(table, c, p, rest);
    SentTurns(table, Ran(c), held, p);
  }

  /** So does a jump, which the loop overtakes by the throw if the finalizer is hot. */
  lemma {:induction false} JumpTurns(table: Table, c: Context, held: seq<Held>, hot: bool, to: nat, rest: seq<Step>)
    returns (d: Context)
    requires Sound(table, c) && (if hot then c.mode.Throw? else c.mode.Next?) && HeldOk(table, held, c.completions)
    ensures var fs := Here(table, c.prev);
            var q := if hot && !Crosses(table, fs, to) then Throwing(c.arg) else Jumping(to);
            |c.completions| == |table| && Turned(table, d, Raised(table, held, c.completions, fs, q), c.log)
    ensures Fits(table, AbruptJumped(table, c, to)) && !c.done &&
            Loop(table, AbruptJumped(table, c, to).(state := Suspended), rest) == Go(table, d, rest)
  {
    hide WellNested, Frames, HeldOk, Raised, Go, Loop, Turned, Crosses, Sent, AbruptJumped;
    var q := if hot && !Crosses(table, Here(table, c.prev), to) then Throwing(c.arg) else Jumping(to);
    d := Sent(table, Ran(c), q);
    JumpInFinalizer(table, c, hot, to, rest);
    SentTurns(table, Ran(c), held, q);
  }

  lemma {:induction false} ArrivedIs(table: Table, c: Context, s: Stage, step: Step)
    requires InProgress(table, c, s) && Follows(table, s, step)
    ensures Fits(table, c) && Enters(table, step) && Apt(table, s, ActAt(table, step))
    ensures var here, takes := Arrived(table, c, step), ActAt(table, step).takes;
            && Sound(table, here) &&
               here == c.(prev := step.at, completions := Took(s.memory, takes), log := c.log + Taking(s.memory, takes))
            && HeldOk(table, s.held, here.completions)
  {
    hide WellNested, Frames;
    FollowsApt(table, s, step);
    TookOk(table, s.held, s.memory, ActAt(table, step).takes);
    assert c.log + [] == c.log;
  }

  /** What one step makes of the finalizers in progress. */
  lemma {:induction false} StepTurns(table: Table, c: Context, s: Stage, step: Step, rest: seq<Step>)
    returns (d: Context)
    requires InProgress(table, c, s) && Follows(table, s, step) && !step.action.Yield?
    ensures |s.memory| == |table| && Turned(table, d, Does(table, s, ActAt(table, step), Runtime), c.log)
    ensures Fits(table, c) && !c.done && Go(table, c, [step] + rest) == AfterVisit(c.next, Go(table, d, rest))
  {
    hide WellNested, Frames, HeldOk, Raised, Lands, InnermostLive, InnermostFinally, WithFinallyAt, WithTryAt, Arrived,
         Follows, Dispatched,
         AbruptReturned, AbruptJumped, FinishedAt, Turned, Crosses;
    ArrivedIs(table, c, s, step);
    assert ([step] + rest)[1..] == rest && ([step] + rest)[0] == step;
    var here := Arrived(table, c, step);
    var e := Taking(s.memory, ActAt(table, step).takes);
    match step.action {
      case ThrowNew(w) =>
        d := LoopTurns(table, here.(state := State.Completed, mode := Throw, arg := w), s.held, Throwing(w), rest);
        TurnedBehind(table, d, Raised(table, s.held, here.completions, Here(table, step.at), Throwing(w)), c.log, e);
      case AbruptReturn(w) =>
        d := RaisedTurns(table, here, s.held, Returning(w), rest);
        TurnedBehind(table, d, Raised(table, s.held, here.completions, Here(table, step.at), Returning(w)), c.log, e);
      case AbruptJump(to) =>
        d := JumpTurns(table, here, s.held, s.hot, to, rest);
        var q := if s.hot && !Crosses(table, Here(table, step.at), to) then s.held[0].pending else Jumping(to);
        TurnedBehind(table, d, Raised(table, s.held, here.completions, Here(table, step.at), q), c.log, e);
      case Finish(loc) =>
        d := EndTurns(table, c, s, step, rest);
    }
  }

  lemma {:induction false} TurnedBehind(table: Table, d: Context, t: Turn, log: seq<Event>, e: seq<Event>)
    requires Turned(table, d, t, log + e)
    ensures Turned(table, d, Behind(e, t), log)
  {
    assert log + e + t.events == log + (e + t.events);
  }

  /** The end of a finalizer. */
  lemma {:induction false} EndTurns(table: Table, c: Context, s: Stage, step: Step, rest: seq<Step>)
    returns (d: Context)
    requires InProgress(table, c, s) && Follows(table, s, step) && step.action.Finish?
    ensures |s.memory| == |table| && Turned(table, d, Does(table, s, ActAt(table, step), Runtime), c.log)
    ensures Fits(table, c) && !c.done && Go(table, c, [step] + rest) == AfterVisit(c.next, Go(table, d, rest))
  {
    hide WellNested, Frames, HeldOk, Raised, Lands, InnermostLive, InnermostFinally, WithTryAt, Arrived, Sent,
         Dispatched, AbruptReturned, Turned, Does;
    ArrivedIs(table, c, s, step);
    assert ([step] + rest)[1..] == rest && ([step] + rest)[0] == step;
    var here, act := Arrived(table, c, step), ActAt(table, step);
    var j, memory := act.deed.index, here.completions;
    var held := if j == s.held[0].index then s.held[1..] else s.held;
    var memory' := if memory[j].Thrown? then memory else memory[j := Normal];
    var e := Taking(s.memory, act.takes) + if memory[j].Thrown? then [] else [Finished(j)];
    EndHeldOk(table, s, act, memory);
    EndIs(table, s, act, Runtime);
    var (c', signal) := FinishedAt(table, here, step.action.finallyLoc);
    assert c.log + Taking(s.memory, act.takes) + [Finished(j)] == c.log + (Taking(s.memory, act.takes) + [Finished(j)]);
    assert Taking(s.memory, act.takes) + [] == Taking(s.memory, act.takes);
    var q := AtEnd(s, memory, j, Runtime);
    if q.Some? {
      var there := if memory[j].Thrown? then here.(state := State.Completed, mode := Throw, arg := memory[j].value)
        else c'.(state := Suspended);
      d := LoopTurns(table, there, held, q.value, rest);
      TurnedBehind(table, d, Raised(table, held, memory', Here(table, step.at), q.value), c.log, e);
    } else {
      d := Ran(c');
      var to := if memory[j].Jumped? then memory[j].to else table[j].afterLoc;
      LandsTurns(table, d, held, to);
      TurnedBehind(table, d, Lands(table, held, memory', to), c.log, e);
    }
  }

  lemma {:induction false} EndHeldOk(table: Table, s: Stage, act: Act, memory: seq<Completion>)
    requires StageOk(table, s) && Apt(table, s, act) && act.deed.EndOf? && memory == Took(s.memory, act.takes) &&
             HeldOk(table, s.held, memory)
    ensures var j := act.deed.index; var held := if j == s.held[0].index then s.held[1..] else s.held;
            |memory| == |table| && HeldOk(table, held, if memory[j].Thrown? then memory else memory[j := Normal])
  {
    hide HeldOk;
    var j := act.deed.index;
    var held := if j == s.held[0].index then s.held[1..] else s.held;
    HeldIs(table, s.held, memory);
    HeldSuffix(table, s.held, memory, 1);
    InnermostIs(table, s.held, memory);
    ForgetInner(table, held, memory, j, Normal);
  }

  // ---------------------------------------------------------------------------------
  // One call

  function Ats(places: seq<nat>): (r: seq<Loc>)
    ensures |r| == |places|
  {
    seq(|places|, k requires 0 <= k < |places| => At(places[k]))
  }

  lemma {:induction false} AtsFirst(next: nat, places: seq<nat>)
    ensures Ats([next] + places) == [At(next)] + Ats(places) && Ats([]) == []
  {
  }

  /** The call runs the course: it comes to its end, goes on at its places after the ones visited before, and
      logs its events. */
  ghost predicate RunsCourse(table: Table, course: Course, visited: seq<Loc>, log: seq<Event>, r: Result) {
    Fulfils(table, course.final, r) && r.visited == visited + Ats(course.places) && r.context.log == log + course.events
  }

  lemma {:induction false} SameEnd(table: Table, final: Final, r: Result, r': Result)
    requires Fulfils(table, final, r) && r'.context == r.context && r'.outcome == r.outcome
    ensures Fulfils(table, final, r')
  {
  }

  /** From a stage on, a call runs the course of unwinding by the runtime's rules. */
  lemma {:induction false} FinalizerUnwinds(table: Table, c: Context, s: Stage, steps: seq<Step>)
    requires InProgress(table, c, s) && InOneCall(steps)
    requires |s.memory| == |table| && Behaves(table, s, steps)
    ensures Fits(table, c) && !c.done
    ensures RunsCourse(table, Unwind(table, s, Acts(table, steps), Runtime), if steps == [] then [] else [c.next],
                       c.log, Go(table, c, steps))
    decreases |steps|
  {
    InProgressIs(table, c, s);
    if steps == [] {
      NoSteps(table, c, s);
    } else if steps[0].action.Yield? {
      YieldPauses(table, c, s, steps);
    } else {
      hide InProgress, Does, Turned, Go, RunsCourse, Follows, Unwind, Behaves, InOneCall, Acts, StageOk;
      var rest := steps[1..];
      assert steps == [steps[0]] + rest;
      BehavesStep(table, s, steps);
      var d := StepTurns(table, c, s, steps[0], rest);
      UnwindStep(table, s, steps);
      match Does(table, s, ActAt(table, steps[0]), Runtime) {
        case Stops(f, events) =>
          assert rest == [];
          CourseStops(table, c, d, f, events);
        case Moves(s', events) =>
          TurnedMoves(table, d, s', events, c.log);
          InProgressIs(table, d, s');
          StillInOneCall(steps);
          FinalizerUnwinds(table, d, s', rest);
          CourseMoves(table, c, d, s', events, rest, Unwind(table, s', Acts(table, rest), Runtime));
      }
    }
  }

  lemma {:induction false} NoSteps(table: Table, c: Context, s: Stage)
    requires InProgress(table, c, s) && s.held != [] && |s.memory| == |table|
    ensures Fits(table, c) && !c.done &&
            RunsCourse(table, Unwind(table, s, Acts(table, []), Runtime), [], c.log, Go(table, c, []))
  {
    hide InProgress;
    InProgressIs(table, c, s);
    assert c.log + [] == c.log;
  }

  lemma {:induction false} BehavesStep(table: Table, s: Stage, steps: seq<Step>)
    requires s.held != [] && |s.memory| == |table| && steps != [] && Behaves(table, s, steps)
    ensures Follows(table, s, steps[0])
    ensures match Does(table, s, ActAt(table, steps[0]), Runtime)
            case Stops(_, _) => |steps| == 1
            case Moves(s', _) => Behaves(table, s', steps[1..])
  {
    hide Does, Follows;
  }

  lemma {:induction false} StillInOneCall(steps: seq<Step>)
    requires steps != [] && InOneCall(steps)
    ensures InOneCall(steps[1..])
  {
  }

  lemma {:induction false} InProgressIs(table: Table, c: Context, s: Stage)
    requires InProgress(table, c, s)
    ensures Fits(table, c) && !c.done && s.held != [] && |s.memory| == |table| && c.next == At(s.next) &&
            StageOk(table, s)
  {
  }

  /** The first step of the course. */
  lemma {:induction false} UnwindStep(table: Table, s: Stage, steps: seq<Step>)
    requires s.held != [] && |s.memory| == |table| && steps != [] && !steps[0].action.Yield? &&
             Follows(table, s, steps[0])
    ensures var t, course := Does(table, s, ActAt(table, steps[0]), Runtime),
            Unwind(table, s, Acts(table, steps), Runtime);
            match t
            case Stops(f, events) => course == Course(f, [], events)
            case Moves(s', events) =>
              course == Following(if |steps| == 1 then [] else [s'.next], events,
                                  Unwind(table, s', Acts(table, steps[1..]), Runtime))
  {
    hide Does;
    assert Acts(table, steps)[0] == ActAt(table, steps[0]) && Acts(table, steps)[1..] == Acts(table, steps[1..]);
  }

  lemma {:induction false} TurnedMoves(table: Table, d: Context, s: Stage, events: seq<Event>, log: seq<Event>)
    requires Turned(table, d, Moves(s, events), log)
    ensures InProgress(table, d, s) && d.log == log + events && Fits(table, d) && !d.done
  {
  }

  lemma {:induction false} CourseStops(table: Table, c: Context, d: Context, f: Final, events: seq<Event>)
    requires Turned(table, d, Stops(f, events), c.log)
    ensures Fits(table, d) && !d.done &&
            RunsCourse(table, Course(f, [], events), [c.next], c.log, AfterVisit(c.next, Go(table, d, [])))
  {
    hide Fulfils, Go;
    SameEnd(table, f, Go(table, d, []), AfterVisit(c.next, Go(table, d, [])));
  }

  lemma {:induction false} CourseMoves(table: Table, c: Context, d: Context, s: Stage, events: seq<Event>,
                                       rest: seq<Step>, course: Course)
    requires Fits(table, d) && !d.done && d.next == At(s.next) && d.log == c.log + events
    requires RunsCourse(table, course, if rest == [] then [] else [d.next], d.log, Go(table, d, rest))
    ensures RunsCourse(table, Following(if rest == [] then [] else [s.next], events, course), [c.next], c.log,
                       AfterVisit(c.next, Go(table, d, rest)))
  {
    hide Fulfils, Go;
    SameEnd(table, course.final, Go(table, d, rest), AfterVisit(c.next, Go(table, d, rest)));
    AtsFirst(s.next, course.places);
    assert c.log + events + course.events == c.log + (events + course.events);
    assert [] + course.places == course.places && [] + Ats(course.places) == Ats(course.places);
  }

  /** A yield pauses the body at the stage. */
  lemma {:induction false} YieldPauses(table: Table, c: Context, s: Stage, steps: seq<Step>)
    requires InProgress(table, c, s) && |steps| == 1 && steps[0].action.Yield? && Follows(table, s, steps[0])
    ensures Fits(table, c) && !c.done && |s.memory| == |table|
    ensures RunsCourse(table, Unwind(table, s, Acts(table, steps), Runtime), [c.next], c.log, Go(table, c, steps))
  {
    hide WellNested, Frames, HeldOk, WithTryAt, Follows, Arrived;
    ArrivedIs(table, c, s, steps[0]);
    assert Acts(table, steps) == [ActAt(table, steps[0])];
    AtsFirst(0, []);
    assert [c.next] + [] == [c.next];
  }

  ghost predicate BehavesFrom(table: Table, held: seq<Held>, memory: seq<Completion>, frames: seq<Frame>, p: Pending,
                              steps: seq<Step>)
    requires FramesOf(table, frames) && |memory| == |table|
  {
    match Raised(table, held, memory, frames, p)
    case Stops(_, _) => steps == []
    case Moves(s, _) => Behaves(table, s, steps)
  }

  /** What has been sent on its way runs its course. */
  lemma {:induction false} TurnedUnwinds(table: Table, d: Context, held: seq<Held>, memory: seq<Completion>,
                                         frames: seq<Frame>, p: Pending, log: seq<Event>, steps: seq<Step>)
    requires FramesOf(table, frames) && |memory| == |table| &&
             Turned(table, d, Raised(table, held, memory, frames, p), log)
    requires InOneCall(steps) && BehavesFrom(table, held, memory, frames, p, steps)
    ensures Fits(table, d) && !d.done
    ensures RunsCourse(table, UnwindFrom(table, held, memory, frames, p, Acts(table, steps), Runtime), [], log,
                       Go(table, d, steps))
  {
    hide Raised, Behaves, Go, Fulfils, Unwind, InOneCall, InProgress;
    match Raised(table, held, memory, frames, p) {
      case Stops(f, events) =>
        AtsFirst(0, []);
      case Moves(s, events) =>
        InProgressIs(table, d, s);
        FinalizerUnwinds(table, d, s, steps);
        var course := Unwind(table, s, Acts(table, steps), Runtime);
        AtsFirst(s.next, course.places);
        assert log + events + course.events == log + (events + course.events);
        assert [] + course.places == course.places;
        assert [] + Ats(course.places) == Ats(course.places);
        assert [] + ([At(s.next)] + Ats(course.places)) == [At(s.next)] + Ats(course.places);
    }
  }

  /** Generators that a throw or return can be sent into: a throw before the body has started ends it. */
  ghost predicate Receives(c: Context, call: Call) {
    c.state.Suspended? || (c.state.Start? && !call.mode.Throw?)
  }

  function PendingOf(call: Call): Pending {
    if call.mode.Throw? then Throwing(call.arg) else Returning(call.arg)
  }

  /** A throw or return into a generator unwinds from the place it stands at. */
  lemma {:induction false} CallUnwinds(table: Table, c: Context, held: seq<Held>, call: Call)
    requires Sound(table, c) && HeldOk(table, held, c.completions) && Receives(c, call) && !call.mode.Next?
    requires InOneCall(call.steps) &&
             BehavesFrom(table, held, c.completions, Here(table, c.prev), PendingOf(call), call.steps)
    ensures RunsCourse(table,
                       UnwindFrom(table, held, c.completions, Here(table, c.prev), PendingOf(call),
                                  Acts(table, call.steps), Runtime), [], c.log,
                       Called(table, c, call))
  {
    hide WellNested, Frames, BehavesFrom, HeldOk, Loop, Go, InOneCall, Turned, Raised, UnwindFrom, RunsCourse;
    var c' := c.(mode := call.mode, arg := call.arg);
    var d := LoopTurns(table, c', held, PendingOf(call), call.steps);
    TurnedUnwinds(table, d, held, c.completions, Here(table, c.prev), PendingOf(call), c.log, call.steps);
  }

  /** A next lets the body go on from where it stands. */
  lemma {:induction false} NextGoesOn(table: Table, c: Context, call: Call)
    requires Sound(table, c) && Receives(c, call) && call.mode.Next?
    ensures Called(table, c, call) == Go(table, Ran(c.(mode := Next, arg := call.arg)), call.steps)
  {
    hide WellNested, Go;
  }

  /** A next into a body that has yielded while it is being left takes up what is pending there. */
  lemma {:induction false} CallResumes(table: Table, c: Context, s: Stage, call: Call)
    requires PausedAt(table, c, s) && call.mode.Next?
    requires call.steps != [] && InOneCall(call.steps) && |s.memory| == |table| && Behaves(table, s, call.steps)
    ensures RunsCourse(table, Unwind(table, s, Acts(table, call.steps), Runtime), [c.next], c.log,
                       Called(table, c, call))
  {
    hide WellNested, Frames, Behaves, Go, InOneCall, StageOk, Unwind, RunsCourse;
    NextGoesOn(table, c, call);
    FinalizerUnwinds(table, Ran(c.(mode := Next, arg := call.arg)), s, call.steps);
  }

  // ---------------------------------------------------------------------------------
  // What the body raises

  ghost predicate Raises(step: Step, p: Pending) {
    match step.action
    case ThrowNew(v) => p == Throwing(v)
    case AbruptReturn(v) => p == Returning(v)
    case AbruptJump(to) => p == Jumping(to)
    case _ => false
  }

  /** A throw, return or jump that the body raises unwinds from where the body is then. */
  lemma {:induction false} BodyRaises(table: Table, c: Context, held: seq<Held>, p: Pending, step: Step,
                                      rest: seq<Step>)
    requires Sound(table, c) && c.mode.Next? && c.next.At? && Enters(table, step) && Raises(step, p)
    requires HeldOk(table, held, Arrived(table, c, step).completions) && InOneCall(rest)
    requires BehavesFrom(table, held, Arrived(table, c, step).completions, Here(table, step.at), p, rest)
    ensures var here := Arrived(table, c, step);
            RunsCourse(table,
                       UnwindFrom(table, held, here.completions, Here(table, step.at), p, Acts(table, rest), Runtime),
                       [c.next], here.log, Go(table, c, [step] + rest))
  {
    hide WellNested, Frames, BehavesFrom, Sent, InOneCall, Loop, HeldOk, Turned, Raised, UnwindFrom, Fulfils,
         FirstFinally;
    assert ([step] + rest)[1..] == rest && ([step] + rest)[0] == step;
    var here := Arrived(table, c, step);
    var d;
    if p.Throwing? {
      d := LoopTurns(table, here.(state := State.Completed, mode := Throw, arg := p.value), held, p, rest);
    } else {
      BodySends(table, c, p, step);
      d := RaisedTurns(table, here, held, p, rest);
    }
    TurnedUnwinds(table, d, held, here.completions, Here(table, step.at), p, here.log, rest);
    var course := UnwindFrom(table, held, here.completions, Here(table, step.at), p, Acts(table, rest), Runtime);
    SameEnd(table, course.final, Go(table, d, rest), Go(table, c, [step] + rest));
    assert [] + Ats(course.places) == Ats(course.places);
  }

  lemma {:induction false} BodySends(table: Table, c: Context, p: Pending, step: Step)
    requires Fits(table, c) && c.next.At? && Enters(table, step) && Raises(step, p) && !p.Throwing?
    ensures Body(table, c, step) == (Sent(table, Arrived(table, c, step), p), Continue)
  {
  }

  /** A call may be looked at in parts: from where it stands it goes on as from there. */
  lemma {:induction false} GoInParts(table: Table, c: Context, a: seq<Step>, b: seq<Step>)
    requires Fits(table, c) && !c.done && Go(table, c, a).outcome.Running?
    ensures !Go(table, c, a).context.done
    ensures Go(table, c, a + b) ==
            Go(table, Go(table, c, a).context, b).(visited := Go(table, c, a).visited +
                                                   Go(table, Go(table, c, a).context, b).visited)
    decreases |a|, 1
  {
    if a == [] {
      assert a + b == b;
    } else if c.next.At? {
      assert (a + b)[0] == a[0] && (a + b)[1..] == a[1..] + b;
      var (c', s) := Body(table, c, a[0]);
      var d := if s.Continue? then c'.(state := Suspended)
        else c'.(state := State.Completed, mode := Throw, arg := if s.Throws? then s.value else Undefined);
      LoopInParts(table, d, a[1..], b);
    }
  }

  lemma {:induction false} LoopInParts(table: Table, c: Context, a: seq<Step>, b: seq<Step>)
    requires Fits(table, c) && !c.done && Loop(table, c, a).outcome.Running?
    ensures !Loop(table, c, a).context.done
    ensures Loop(table, c, a + b) ==
            Go(table, Loop(table, c, a).context, b).(visited := Loop(table, c, a).visited +
                                                     Go(table, Loop(table, c, a).context, b).visited)
    decreases |a|, 2
  {
    GoInParts(table, Prepared(table, c).(state := Executing), a, b);
  }
}
