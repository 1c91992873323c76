/** The context of a compiled generator (module "96cf") as a value: what the searches of its table
    find, what each entry point of the runtime does to it, and the invoke loop over the steps of the
    body. Delegation to another iterator is not part of this model. */
module GeneratorSteps {
  import opened Collections
  import opened GeneratorTable
  import opened GeneratorUnwinding

  datatype State = Start | Suspended | Executing | Completed

  datatype Mode = Next | Throw | Return

  /** How a call into the context, or a run of the body, ends. */
  datatype Signal = Continue | Throws(value: Value) | Yields(value: Value)

  /** How the body goes on from one place to the next: what it does at its end. */
  datatype Action =
    | Yield(value: Value, to: nat)
    | AbruptReturn(value: Value)
    | AbruptJump(to: nat)
    | Finish(finallyLoc: nat)
    | ThrowNew(value: Value)

  /** A run of the body between two entries, up to the place at; a catch block it enters first asks for
      the exception. */
  datatype Step = Step(caught: Option<nat>, at: nat, action: Action)

  /** Running: the steps given are used up, and the body is about to go on at the next location. */
  datatype Outcome = Rejected | Value(value: Value, done: bool) | Error(value: Value) | Running

  /** The fields of the runtime's context and of the generator, and the events so far. */
  datatype Context = Context(
    state: State, prev: nat, next: Loc, mode: Mode, arg: Value, done: bool, rval: Value,
    root: Completion, completions: seq<Completion>, log: seq<Event>)

  datatype Result = Result(context: Context, outcome: Outcome, visited: seq<Loc>)

  ghost predicate Fits(table: Table, c: Context) {
    |c.completions| == |table|
  }

  function Fresh(table: Table): Context {
    Context(Start, 0, At(0), Next, Undefined, false, Undefined, Normal, seq(|table|, _ => Normal), [])
  }

  ghost function Here(table: Table, p: nat): (frames: seq<Frame>)
    ensures FramesOf(table, frames)
  {
    Frames(table, |table|, p)
  }

  // ---------------------------------------------------------------------------------
  // Searches

  ghost function InnermostFinally(table: Table, n: nat, p: nat): (r: Option<nat>)
    requires n <= |table|
    ensures r.Some? ==> r.value < n && table[r.value].BeforeFinally(p)
  {
    if n == 0 then None
    else if table[n - 1].BeforeFinally(p) then Some(n - 1)
    else InnermostFinally(table, n - 1, p)
  }

  ghost function InnermostLive(table: Table, n: nat, p: nat): (r: Option<nat>)
    requires n <= |table|
    ensures r.Some? ==> r.value < n && table[r.value].Live(p)
  {
    if n == 0 then None else if table[n - 1].Live(p) then Some(n - 1) else InnermostLive(table, n - 1, p)
  }

  ghost function WithFinallyAt(table: Table, n: nat, loc: nat): (r: Option<nat>)
    requires n <= |table|
    ensures r.Some? ==> r.value < n && table[r.value].finallyLoc == Some(loc)
  {
    if n == 0 then None else if table[n - 1].finallyLoc == Some(loc) then Some(n - 1)
      else WithFinallyAt(table, n - 1, loc)
  }

  ghost function WithTryAt(table: Table, n: nat, loc: nat): (r: Option<nat>)
    requires n <= |table|
    ensures r.Some? ==> r.value < n && table[r.value].tryLoc == loc
  {
    if n == 0 then None else if table[n - 1].tryLoc == loc then Some(n - 1) else WithTryAt(table, n - 1, loc)
  }

  /** The search for a handler finds the first frame. */
  lemma {:induction false} LiveIsFirst(table: Table, n: nat, p: nat)
    requires n <= |table|
    ensures InnermostLive(table, n, p) == if Frames(table, n, p) == [] then None else Some(Frames(table, n, p)[0].index)
  {
    if n > 0 {
      LiveIsFirst(table, n - 1, p);
    }
  }

  /** The search for a finalizer finds the first frame that has one. */
  lemma {:induction false} FinallyIsFirst(table: Table, n: nat, p: nat)
    requires n <= |table| && WellNested(table)
    ensures var fs := Frames(table, n, p); var k := FirstFinally(table, fs);
            InnermostFinally(table, n, p) == if k < |fs| then Some(fs[k].index) else None
  {
    hide FirstFinally, WellNested, Entry.Live, Entry.InTry, Entry.BeforeFinally, Frames, FramesOf;
    if n == 0 {
      NoFrames(table, p);
    } else {
      FinallyIsFirst(table, n - 1, p);
      FinallyIsLive(table, n - 1, p);
      FramesUnfold(table, n, p);
      if table[n - 1].Live(p) {
        FirstFinallyCons(table, Frame(n - 1, table[n - 1].InTry(p)), Frames(table, n - 1, p));
      }
    }
  }

  lemma {:induction false} NoFrames(table: Table, p: nat)
    ensures Frames(table, 0, p) == [] && FirstFinally(table, []) == 0
  {
  }

  lemma {:induction false} FinallyIsLive(table: Table, i: nat, p: nat)
    requires WellNested(table) && i < |table|
    ensures table[i].BeforeFinally(p) <==> table[i].Live(p) && table[i].finallyLoc.Some?
  {
  }

  lemma {:induction false} FirstFinallyCons(table: Table, top: Frame, rest: seq<Frame>)
    requires top.index < |table| && FramesOf(table, [top] + rest) && FramesOf(table, rest)
    ensures var k := FirstFinally(table, rest);
            && FirstFinally(table, [top] + rest) == (if table[top.index].finallyLoc.Some? then 0 else k + 1)
            && (k < |rest| ==> ([top] + rest)[k + 1] == rest[k])
  {
    assert ([top] + rest)[1..] == rest && ([top] + rest)[0] == top;
  }

  /** Finalizers of a well nested table start at different places. */
  lemma {:induction false} FinallyAtUnique(table: Table, n: nat, i: nat)
    requires WellNested(table) && i < n <= |table| && table[i].finallyLoc.Some?
    ensures WithFinallyAt(table, n, table[i].finallyLoc.value) == Some(i)
  {
    if i < n - 1 {
      FinallyAtUnique(table, n - 1, i);
      assert GeneratorTable.Nested(table[i], table[n - 1]);
    }
  }

  // ---------------------------------------------------------------------------------
  // Entry points of the runtime

  ghost function LeftBy(c: Context, i: nat, completion: Completion): (r: Context)
    requires i < |c.completions|
  {
    c.(completions := c.completions[i := completion], log := c.log + [Left(i, completion)])
  }

  /** Sends an exception to the innermost live handler, or to the end. */
  ghost function Dispatched(table: Table, c: Context, exception: Value): (r: Context)
    requires Fits(table, c)
    ensures Fits(table, r) && r.done == c.done && r.state == c.state
  {
    match InnermostLive(table, |table|, c.prev)
    case None => c.(next := End, root := Thrown(exception))
    case Some(i) =>
      if table[i].InTry(c.prev)
        then LeftBy(c, i, Thrown(exception)).(next := At(table[i].catchLoc.value), mode := Next, arg := Undefined)
      else LeftBy(c, i, Thrown(exception)).(next := At(table[i].finallyLoc.value))
  }

  /** Carries out a completion that is not a throw. */
  function CarriedOut(c: Context, completion: Completion, afterLoc: nat): Context {
    match completion
    case Returned(v) => c.(rval := v, arg := v, mode := Return, next := End)
    case Jumped(to) => c.(next := At(to))
    case Thrown(_) => c
    case Normal => c.(next := At(afterLoc))
  }

  /** A return from the body: through the innermost finalizer, or at once. */
  ghost function AbruptReturned(table: Table, c: Context, value: Value): (r: Context)
    requires Fits(table, c)
    ensures Fits(table, r) && r.done == c.done && r.state == c.state
  {
    match InnermostFinally(table, |table|, c.prev)
    case None => CarriedOut(c, Returned(value), 0)
    case Some(i) => LeftBy(c, i, Returned(value)).(mode := Next, next := At(table[i].finallyLoc.value))
  }

  /** A break or continue: through the innermost finalizer unless the target is in its statement. */
  ghost function AbruptJumped(table: Table, c: Context, to: nat): (r: Context)
    requires Fits(table, c)
    ensures Fits(table, r) && r.done == c.done && r.state == c.state
  {
    var found := InnermostFinally(table, |table|, c.prev);
    if found.None? || table[found.value].Contains(to) then c.(next := At(to))
    else LeftBy(c, found.value, Jumped(to)).(mode := Next, next := At(table[found.value].finallyLoc.value))
  }

  /** The end of a finalizer: what the entry remembers is carried out, and forgotten unless it is a throw. */
  ghost function FinishedAt(table: Table, c: Context, finallyLoc: nat): (r: (Context, Signal))
    requires Fits(table, c)
    ensures Fits(table, r.0) && r.0.done == c.done && r.0.state == c.state
  {
    match WithFinallyAt(table, |table|, finallyLoc)
    case None => (c, Yields(Undefined))
    case Some(i) =>
      if c.completions[i].Thrown? then (c, Throws(c.completions[i].value))
      else
        var carried := CarriedOut(c, c.completions[i], table[i].afterLoc);
        (carried.(completions := c.completions[i := Normal], log := c.log + [Finished(i)]), Continue)
  }

  /** A catch block asks for the exception sent to it, and the entry forgets it. */
  ghost function TakenAt(table: Table, c: Context, tryLoc: nat): Context
    requires Fits(table, c)
  {
    match WithTryAt(table, |table|, tryLoc)
    case None => c
    case Some(i) =>
      if c.completions[i].Thrown? then c.(completions := c.completions[i := Normal], log := c.log + [Taken(i)]) else c
  }

  /** The step enters no catch block, or one that an entry has. */
  ghost predicate Enters(table: Table, step: Step) {
    step.caught.Some? ==> WithTryAt(table, |table|, step.caught.value).Some?
  }

  ghost function Arrived(table: Table, c: Context, step: Step): (r: Context)
    requires Fits(table, c)
  {
    (if step.caught.Some? then TakenAt(table, c, step.caught.value) else c).(prev := step.at)
  }

  ghost function Sent(table: Table, c: Context, p: Pending): (r: Context)
    requires Fits(table, c)
    ensures Fits(table, r) && r.done == c.done && r.state == c.state
  {
    match p
    case Throwing(v) => Dispatched(table, c, v)
    case Returning(v) => AbruptReturned(table, c, v)
    case Jumping(to) => AbruptJumped(table, c, to)
  }

  // ---------------------------------------------------------------------------------
  // The invoke loop

  /** The body goes on from the next location to where the step ends. */
  ghost function Body(table: Table, c: Context, step: Step): (r: (Context, Signal))
    requires Fits(table, c) && c.next.At?
    ensures Fits(table, r.0) && r.0.done == c.done && r.0.state == c.state && r.0.root == c.root
  {
    if !Enters(table, step) then (c.(prev := c.next.n), Throws(Undefined))
    else
      var c' := Arrived(table, c, step);
      match step.action
      case Yield(v, to) => (c'.(next := At(to)), Yields(v))
      case AbruptReturn(v) => (AbruptReturned(table, c', v), Continue)
      case AbruptJump(to) => (AbruptJumped(table, c', to), Continue)
      case Finish(loc) => FinishedAt(table, c', loc)
      case ThrowNew(v) => (c', Throws(v))
  }

  /** What a throw or return does before the body goes on. */
  ghost function Prepared(table: Table, c: Context): (r: Context)
    requires Fits(table, c)
    ensures Fits(table, r) && r.done == c.done && r.state == c.state
  {
    match c.mode
    case Next => c
    case Throw => Dispatched(table, c, c.arg)
    case Return => AbruptReturned(table, c, c.arg)
  }

  function AfterVisit(loc: Loc, r: Result): Result {
    r.(visited := [loc] + r.visited)
  }

  function AfterVisits(locs: seq<Loc>, r: Result): Result {
    r.(visited := locs + r.visited)
  }

  /** The invoke loop, from its head. */
  ghost function Loop(table: Table, c: Context, steps: seq<Step>): (r: Result)
    requires Fits(table, c) && (c.done ==> c.mode.Throw?)
    ensures Fits(table, r.context)
    decreases |steps|, if c.done then 0 else 2
  {
    if c.done then Result(c, Error(c.arg), [])
    else Go(table, Prepared(table, c).(state := Executing), steps)
  }

  /** From where the body goes on at the next location. */
  ghost function Go(table: Table, c: Context, steps: seq<Step>): (r: Result)
    requires Fits(table, c) && !c.done
    ensures Fits(table, r.context)
    decreases |steps|, 1
  {
    if c.next.End? then
      if c.root.Thrown?
        then Loop(table, c.(done := true, state := State.Completed, mode := Throw, arg := c.root.value), steps)
      else Result(c.(done := true, state := State.Completed), Value(c.rval, true), [])
    else if steps == [] then Result(c, Running, [])
    else
      var (c', s) := Body(table, c, steps[0]);
      match s
      case Continue => AfterVisit(c.next, Loop(table, c'.(state := Suspended), steps[1..]))
      case Yields(v) => Result(c'.(state := Suspended), Value(v, false), [c.next])
      case Throws(v) => AfterVisit(c.next,
                                   Loop(table, c'.(state := State.Completed, mode := Throw, arg := v), steps[1..]))
  }

  /** A call of next, throw or return, with the steps the body takes in it. */
  datatype Call = Call(mode: Mode, arg: Value, steps: seq<Step>)

  ghost function Called(table: Table, c: Context, call: Call): (r: Result)
    requires Fits(table, c) && (c.done ==> c.state.Completed?)
    ensures Fits(table, r.context)
  {
    match c.state
    case Executing => Result(c, Rejected, [])
    case Completed => Result(c, if call.mode.Throw? then Error(call.arg) else Value(Undefined, true), [])
    case _ =>
      var c' := c.(mode := call.mode, arg := call.arg);
      if c.state.Start? && call.mode.Throw? then Result(c'.(state := State.Completed), Error(call.arg), [])
      else Loop(table, c', call.steps)
  }
}
