/** The generator runtime of module "96cf" as it runs: the context object with its try entries, and the
    invoke loop. Each operation is proved to do to the fields what its counterpart of GeneratorSteps
    does to the context as a value, for which the other Generator modules state what comes of it. */
module GeneratorRuntime {
  import opened Collections
  import opened GeneratorTable
  import opened GeneratorUnwinding
  import opened GeneratorSteps
  import opened GeneratorRuns

  class Generator {
    const table: Table
    var state: State
    var prev: nat
    var next: Loc
    var mode: Mode
    var arg: Value
    var done: bool
    var rval: Value
    var root: Completion
    var completions: seq<Completion>
    ghost var log: seq<Event>

    ghost predicate Valid()
      reads this
    {
      |completions| == |table|
    }

    ghost function Ctx(): (c: Context)
      reads this
      ensures Valid() ==> Fits(table, c)
    {
      Context(state, prev, next, mode, arg, done, rval, root, completions, log)
    }

    constructor (table: Table)
      ensures this.table == table && Valid() && Ctx() == Fresh(table)
    {
      this.table := table;
      state, prev, next, mode, arg, done := Start, 0, At(0), Next, Undefined, false;
      rval, root, completions, log := Undefined, Normal, seq(|table|, _ => Normal), [];
    }

    /** Carries out a completion. */
    method Complete(c: Completion, afterLoc: nat) returns (s: Signal)
      modifies this`next, this`rval, this`arg, this`mode
      ensures s == if c.Thrown? then Throws(c.value) else Continue
      ensures Ctx() == CarriedOut(old(Ctx()), c, afterLoc)
    {
      s := Continue;
      match c {
        case Thrown(v) => s := Throws(v);
        case Jumped(to) => next := At(to);
        case Returned(v) => rval, arg, mode, next := v, v, Return, End;
        case Normal => next := At(afterLoc);
      }
    }

    /** An entry remembers how its blocks are left. */
    method Leave(i: nat, completion: Completion)
      requires Valid() && i < |table|
      modifies this`completions, this`log
      ensures Valid() && Ctx() == LeftBy(old(Ctx()), i, completion)
    {
      completions := completions[i := completion];
      log := log + [Left(i, completion)];
    }

    /** Sends an exception to the innermost live handler, or to the end. */
    method DispatchException(exception: Value) returns (s: Signal)
      requires Valid()
      modifies this`next, this`mode, this`arg, this`root, this`completions, this`log
      ensures Valid() && s == if done then Throws(exception) else Continue
      ensures Ctx() == if done then old(Ctx()) else Dispatched(table, old(Ctx()), exception)
    {
      if done {
        return Throws(exception);
      }
      s := Continue;
      var i := |table|;
      while i > 0
        invariant 0 <= i <= |table| && InnermostLive(table, |table|, prev) == InnermostLive(table, i, prev)
        invariant Ctx() == old(Ctx())
      {
        i := i - 1;
        var e := table[i];
        if e.tryLoc <= prev {
          if e.catchLoc.Some? && prev < e.catchLoc.value {
            Leave(i, Thrown(exception));
            next, mode, arg := At(e.catchLoc.value), Next, Undefined;
            return;
          }
          if e.finallyLoc.Some? && prev < e.finallyLoc.value {
            Leave(i, Thrown(exception));
            next := At(e.finallyLoc.value);
            return;
          }
        }
      }
      root, next := Thrown(exception), End;
    }

    /** The innermost finalizer around the location, if any. */
    method FindFinally() returns (found: Option<nat>)
      ensures found == InnermostFinally(table, |table|, prev)
    {
      var i := |table|;
      while i > 0
        invariant 0 <= i <= |table| && InnermostFinally(table, |table|, prev) == InnermostFinally(table, i, prev)
      {
        i := i - 1;
        if table[i].tryLoc <= prev && table[i].finallyLoc.Some? && prev < table[i].finallyLoc.value {
          return Some(i);
        }
      }
      found := None;
    }

    /** A return from the body: through the innermost finalizer, or at once. */
    method AbruptReturn(value: Value) returns (s: Signal)
      requires Valid()
      modifies this`next, this`mode, this`arg, this`rval, this`completions, this`log
      ensures Valid() && s == Continue && Ctx() == AbruptReturned(table, old(Ctx()), value)
    {
      var found := FindFinally();
      if found.Some? {
        Leave(found.value, Returned(value));
        mode, next, s := Next, At(table[found.value].finallyLoc.value), Continue;
      } else {
        s := Complete(Returned(value), 0);
      }
    }

    /** A break or continue: through the innermost finalizer unless the target is in its statement. */
    method AbruptJump(to: nat) returns (s: Signal)
      requires Valid()
      modifies this`next, this`mode, this`arg, this`rval, this`completions, this`log
      ensures Valid() && s == Continue && Ctx() == AbruptJumped(table, old(Ctx()), to)
    {
      var found := FindFinally();
      if found.Some? && !(table[found.value].tryLoc <= to <= table[found.value].finallyLoc.value) {
        Leave(found.value, Jumped(to));
        mode, next, s := Next, At(table[found.value].finallyLoc.value), Continue;
      } else {
        s := Complete(Jumped(to), 0);
      }
    }

    /** The end of a finalizer: what was pending when it was entered is carried out. */
    method FinishFinally(finallyLoc: nat) returns (s: Signal)
      requires Valid()
      modifies this`next, this`mode, this`arg, this`rval, this`completions, this`log
      ensures Valid() && (Ctx(), s) == FinishedAt(table, old(Ctx()), finallyLoc)
    {
      var i := |table|;
      while i > 0
        invariant 0 <= i <= |table| && WithFinallyAt(table, |table|, finallyLoc) == WithFinallyAt(table, i, finallyLoc)
        invariant Ctx() == old(Ctx())
      {
        i := i - 1;
        if table[i].finallyLoc == Some(finallyLoc) {
          s := Complete(completions[i], table[i].afterLoc);
          if !s.Throws? {
            completions := completions[i := Normal];
            log := log + [Finished(i)];
          }
          return;
        }
      }
      s := Yields(Undefined);
    }

    /** A catch block asks for the exception sent to it; the entry forgets it. None is the error of a
        catch block that no entry has. */
    method Catch(tryLoc: nat) returns (r: Option<Value>)
      requires Valid()
      modifies this`completions, this`log
      ensures Valid() && Ctx() == TakenAt(table, old(Ctx()), tryLoc)
      ensures match WithTryAt(table, |table|, tryLoc)
              case None => r == None
              case Some(i) => r == Some(if old(completions)[i].Thrown? then old(completions)[i].value else Undefined)
    {
      var i := |table|;
      while i > 0
        invariant 0 <= i <= |table| && WithTryAt(table, |table|, tryLoc) == WithTryAt(table, i, tryLoc)
        invariant Ctx() == old(Ctx())
      {
        i := i - 1;
        if table[i].tryLoc == tryLoc {
          r := Some(Undefined);
          if completions[i].Thrown? {
            r := Some(completions[i].value);
            completions := completions[i := Normal];
            log := log + [Taken(i)];
          }
          return;
        }
      }
      r := None;
    }

    /** The end of the body: an exception no one caught is thrown, else the run has its value. */
    method Stop() returns (s: Signal)
      modifies this`done
      ensures Ctx() == old(Ctx()).(done := true) && s == if root.Thrown? then Throws(root.value) else Yields(rval)
    {
      done := true;
      s := if root.Thrown? then Throws(root.value) else Yields(rval);
    }

    // -------------------------------------------------------------------------------
    // Invoking

    /** What a throw or return does before the body goes on. */
    method Prepare() returns (s: Signal)
      requires Valid()
      modifies this`next, this`mode, this`arg, this`rval, this`root, this`completions, this`log
      ensures Valid()
      ensures !done ==> s == Continue && Ctx() == Prepared(table, old(Ctx()))
      ensures done && old(mode).Throw? ==> s == Throws(old(arg)) && Ctx() == old(Ctx())
    {
      hide InnermostLive, InnermostFinally;
      s := Continue;
      if mode.Throw? {
        s := DispatchException(arg);
      } else if mode.Return? {
        s := AbruptReturn(arg);
      }
    }

    /** The body goes on from the next location to where the step ends; at a catch block it takes the
        exception first. */
    method RunBody(step: Step) returns (s: Signal)
      requires Valid() && next.At?
      modifies this`prev, this`next, this`mode, this`arg, this`rval, this`completions, this`log
      ensures Valid() && (Ctx(), s) == Body(table, old(Ctx()), step)
    {
      hide InnermostFinally, WithFinallyAt, WithTryAt;
      prev := next.n;
      if step.caught.Some? {
        var exception := Catch(step.caught.value);
        if exception.None? {
          return Throws(Undefined);
        }
      }
      prev := step.at;
      assert Ctx() == Arrived(table, old(Ctx()), step);
      match step.action {
        case Yield(v, to) => next, s := At(to), Yields(v);
        case AbruptReturn(v) => s := AbruptReturn(v);
        case AbruptJump(to) => s := AbruptJump(to);
        case Finish(loc) => s := FinishFinally(loc);
        case ThrowNew(v) => s := Throws(v);
      }
    }

    /** One turn of the invoke loop: ends the call, or uses up a step, or throws at the end. */
    method Turn(steps: seq<Step>) returns (o: Option<Outcome>, rest: seq<Step>, ghost visited: seq<Loc>)
      requires Valid() && (done ==> mode.Throw?)
      modifies this
      ensures Valid() && (done ==> mode.Throw? || o.Some?)
      ensures match o
              case Some(end) => old(Loop(table, Ctx(), steps)) == Result(Ctx(), end, visited)
              case None =>
                && old(Loop(table, Ctx(), steps)) == AfterVisits(visited, Loop(table, Ctx(), rest))
                && (|rest| < |steps| || (rest == steps && done && !old(done)))
    {
      hide Body, Prepared;
      o, rest, visited := None, steps, [];
      var s := Prepare();
      if s.Throws? {
        return Some(Error(s.value)), steps, [];
      }
      state := Executing;
      if next.End? {
        s := Stop();
      } else if steps == [] {
        return Some(Running), steps, [];
      } else {
        rest, visited := steps[1..], [next];
        s := RunBody(steps[0]);
      }
      match s {
        case Continue => state := if done then State.Completed else Suspended;
        case Yields(v) =>
          state := if done then State.Completed else Suspended;
          o := Some(Outcome.Value(v, done));
        case Throws(v) => state, mode, arg := State.Completed, Throw, v;
      }
    }

    /** The invoke loop. */
    method RunLoop(steps: seq<Step>) returns (o: Outcome, ghost visited: seq<Loc>)
      requires Valid() && (done ==> mode.Throw?)
      modifies this
      ensures Valid() && Result(Ctx(), o, visited) == old(Loop(table, Ctx(), steps))
    {
      hide Loop;
      visited := [];
      var rest := steps;
      while true
        invariant Valid() && (done ==> mode.Throw?)
        invariant old(Loop(table, Ctx(), steps)) == AfterVisits(visited, Loop(table, Ctx(), rest))
        decreases |rest|, !done
      {
        var end: Option<Outcome>;
        ghost var more;
        ghost var before := visited;
        end, rest, more := Turn(rest);
        visited := visited + more;
        if end.Some? {
          return end.value, visited;
        }
        assert forall later: seq<Loc> :: before + (more + later) == visited + later;
      }
    }

    /** Calls next, throw or return, and runs the body for the steps given. */
    method Invoke(call: Call) returns (o: Outcome, ghost visited: seq<Loc>)
      requires Valid() && (done ==> state.Completed?)
      modifies this
      ensures Valid() && (done ==> state.Completed?)
      ensures Result(Ctx(), o, visited) == old(Called(table, Ctx(), call))
    {
      hide Loop;
      CalledStays(table, Ctx(), call);
      if state.Executing? {
        return Rejected, [];
      }
      if state.Completed? {
        return if call.mode.Throw? then Error(call.arg) else Outcome.Value(Undefined, true), [];
      }
      mode, arg := call.mode, call.arg;
      if call.mode.Throw? && state.Start? {
        state := State.Completed;
        return Error(call.arg), [];
      }
      o, visited := RunLoop(call.steps);
    }

    /** Several calls one after the other. */
    method InvokeAll(calls: seq<Call>) returns (os: seq<Outcome>, ghost rs: seq<Result>)
      requires Valid() && (done ==> state.Completed?)
      modifies this
      ensures Valid() && rs == old(RunOf(table, Ctx(), calls)) && |os| == |calls|
      ensures forall j :: 0 <= j < |calls| ==> os[j] == rs[j].outcome
      ensures Ctx() == if calls == [] then old(Ctx()) else rs[|rs| - 1].context
    {
      hide Called, RunOf, Fits;
      os, rs := [], [];
      ghost var all := RunOf(table, Ctx(), calls);
      var k := 0;
      while k < |calls|
        invariant 0 <= k <= |calls| && Valid() && (done ==> state.Completed?)
        invariant |rs| == |os| == k && forall j :: 0 <= j < k ==> os[j] == rs[j].outcome
        invariant all == rs + RunOf(table, Ctx(), calls[k..])
        invariant Ctx() == if k == 0 then old(Ctx()) else rs[k - 1].context
      {
        ghost var c := Ctx();
        ghost var visited;
        var o;
        o, visited := Invoke(calls[k]);
        RunOfNext(table, c, calls, k);
        os, rs, k := os + [o], rs + [Result(Ctx(), o, visited)], k + 1;
      }
    }
  }
}
