/** Unwinding of generator bodies (module "96cf") through nested try statements, as the language has
    it and as the runtime has it. A body that is being left has finalizers in progress, each with what
    is pending there; what it does in them may go through further try statements. */
module GeneratorUnwinding {
  import opened Collections
  import opened GeneratorTable

  /** Why a block is left: a return, a throw, or a break or continue to a place. */
  datatype Pending = Returning(value: Value) | Throwing(value: Value) | Jumping(to: nat)

  /** What an entry remembers of how its protected blocks were left. */
  datatype Completion = Normal | Returned(value: Value) | Thrown(value: Value) | Jumped(to: nat)

  /** What happened to an entry: its blocks were left through the runtime, its finalizer came to its
      end without a throw pending, or its catch block took the exception. */
  datatype Event = Left(index: nat, completion: Completion) | Finished(index: nat) | Taken(index: nat)

  function CompletionOf(p: Pending): Completion {
    match p
    case Returning(v) => Returned(v)
    case Throwing(v) => Thrown(v)
    case Jumping(to) => Jumped(to)
  }

  datatype Rules = Nested | Runtime

  // ---------------------------------------------------------------------------------
  // Which statement handles it

  /** The first statement outward with a finalizer. */
  ghost function FirstFinally(table: Table, frames: seq<Frame>): (k: nat)
    requires FramesOf(table, frames)
    ensures k <= |frames| && (k < |frames| ==> table[frames[k].index].finallyLoc.Some?)
    ensures forall l :: 0 <= l < k ==> table[frames[l].index].finallyLoc.None?
  {
    if frames == [] || table[frames[0].index].finallyLoc.Some? then 0 else FirstFinally(table, frames[1..]) + 1
  }

  /** A jump has to run a finalizer: the innermost one is not of a statement that holds the target. */
  ghost predicate Crosses(table: Table, frames: seq<Frame>, to: nat)
    requires FramesOf(table, frames)
  {
    var k := FirstFinally(table, frames);
    k < |frames| && !table[frames[k].index].Contains(to)
  }

  /** The first statement outward that handles it: any for a throw, one with a finalizer for a return,
      and for a jump one with a finalizer that it has to run. */
  ghost function Handler(table: Table, frames: seq<Frame>, pending: Pending): (k: nat)
    requires FramesOf(table, frames)
    ensures k <= |frames|
    ensures k < |frames| ==> table[frames[k].index].finallyLoc.Some? || Catches(frames[k], pending)
  {
    if pending.Throwing? then 0
    else if pending.Jumping? && !Crosses(table, frames, pending.to) then |frames|
    else FirstFinally(table, frames)
  }

  /** A handler that catches, rather than a finalizer. */
  ghost predicate Catches(frame: Frame, pending: Pending) {
    pending.Throwing? && frame.inTry
  }

  // ---------------------------------------------------------------------------------
  // Stages of unwinding

  /** A finalizer in progress, and what is pending there. */
  datatype Held = Held(index: nat, pending: Pending)

  /** Where a body stands that is being left: the finalizers in progress, innermost first; whether the
      present call sent the innermost what is pending as a throw, with no yield and no catch since; what
      the entries remember; and where the body goes on. */
  datatype Stage = Stage(held: seq<Held>, hot: bool, memory: seq<Completion>, next: nat)

  /** How a run of the body ends: it raises something, comes to the end of the finalizer of a statement,
      or yields. It may have begun with taking the exception that a catch block was sent; the frames are
      those around the place where it ends. */
  datatype Act = Act(takes: Option<nat>, frames: seq<Frame>, deed: Deed)

  datatype Deed = Raise(pending: Pending) | EndOf(index: nat) | Pause(value: Value, to: nat)

  /** Where unwinding comes to: with no finalizer in progress any more, it is in a catch block, at the end
      of the body, or at the target of a jump; else it stands at a stage, about to go on or at a yield. */
  datatype Final =
    | Caught(index: nat, value: Value)
    | Ended(pending: Pending)
    | GoesOn(to: nat)
    | Waiting(stage: Stage)
    | Paused(stage: Stage, value: Value)

  datatype Turn = Stops(final: Final, events: seq<Event>) | Moves(stage: Stage, events: seq<Event>)

  /** The finalizers in progress that statement j is in. */
  function StillIn(table: Table, held: seq<Held>, j: nat): (r: seq<Held>)
    ensures |r| <= |held| && r == held[|held| - |r|..]
  {
    if held == [] || NestedIn(table, j, held[0].index) then held else StillIn(table, held[1..], j)
  }

  /** The finalizers in progress that the place is in. */
  function StillAt(table: Table, held: seq<Held>, to: nat): (r: seq<Held>)
    ensures |r| <= |held| && r == held[|held| - |r|..]
  {
    if held == [] || InFinally(table, held[0].index, to) then held else StillAt(table, held[1..], to)
  }

  /** The body goes on at the place. */
  function Lands(table: Table, held: seq<Held>, memory: seq<Completion>, to: nat): Turn {
    var rest := StillAt(table, held, to);
    if rest == [] then Stops(GoesOn(to), []) else Moves(Stage(rest, false, memory, to), [])
  }

  /** Something is raised where the frames are around. */
  ghost function Raised(table: Table, held: seq<Held>, memory: seq<Completion>, frames: seq<Frame>,
                        p: Pending): (t: Turn)
    requires FramesOf(table, frames) && |memory| == |table|
    ensures if t.Moves? then t.stage.held != [] && |t.stage.memory| == |table|
            else !t.final.Waiting? && !t.final.Paused?
  {
    var k := Handler(table, frames, p);
    if k == |frames| then
      if p.Jumping? then Lands(table, held, memory, p.to) else Stops(Ended(p), [])
    else
      var i := frames[k].index;
      var rest, memory', left := StillIn(table, held, i), memory[i := CompletionOf(p)], [Left(i, CompletionOf(p))];
      if !Catches(frames[k], p) then
        Moves(Stage([Held(i, p)] + rest, p.Throwing?, memory', table[i].finallyLoc.value), left)
      else if rest == [] then Stops(Caught(i, p.value), left)
      else Moves(Stage(rest, false, memory', table[i].catchLoc.value), left)
  }

  /** The entry forgets the exception that its catch block takes. */
  function Took(memory: seq<Completion>, takes: Option<nat>): (r: seq<Completion>)
    ensures |r| == |memory|
  {
    if takes.Some? && takes.value < |memory| && memory[takes.value].Thrown? then memory[takes.value := Normal]
      else memory
  }

  function Taking(memory: seq<Completion>, takes: Option<nat>): seq<Event> {
    if takes.Some? && takes.value < |memory| && memory[takes.value].Thrown? then [Taken(takes.value)] else []
  }

  function Behind(events: seq<Event>, t: Turn): Turn {
    t.(events := events + t.events)
  }

  ghost predicate ActIn(table: Table, act: Act) {
    && FramesOf(table, act.frames) && (act.takes.Some? ==> act.takes.value < |table|)
    && (act.deed.EndOf? ==> act.deed.index < |table|)
  }

  /** What an act other than a yield leads to. The end of the innermost finalizer in progress sends what is
      pending there outward; after the end of another one, of a statement in it, the body goes on behind
      that statement. The runtime goes by what entries remember, and wherever the body is to go on it sends
      the throw of a hot finalizer outward instead. */
  ghost function Does(table: Table, s: Stage, act: Act, rules: Rules): (t: Turn)
    requires s.held != [] && |s.memory| == |table| && ActIn(table, act)
    ensures if t.Moves? then t.stage.held != [] && |t.stage.memory| == |table|
            else !t.final.Waiting? && !t.final.Paused?
  {
    hide FramesOf, Crosses, Raised, Taking, Took;
    var memory, events := Took(s.memory, act.takes), Taking(s.memory, act.takes);
    match act.deed
    case Pause(_, to) => Moves(Stage(s.held, false, memory, to), events)
    case Raise(p) =>
      var q := if rules.Runtime? && s.hot && p.Jumping? && !Crosses(table, act.frames, p.to) then s.held[0].pending
        else p;
      Behind(events, Raised(table, s.held, memory, act.frames, q))
    case EndOf(j) =>
      var held := if j == s.held[0].index then s.held[1..] else s.held;
      var memory', events' := if memory[j].Thrown? then memory else memory[j := Normal],
                              events + if memory[j].Thrown? then [] else [Finished(j)];
      var q := AtEnd(s, memory, j, rules);
      Behind(events', if q.Some? then Raised(table, held, memory', act.frames, q.value)
                      else Lands(table, held, memory', if rules.Runtime? && memory[j].Jumped? then memory[j].to
                                 else table[j].afterLoc))
  }

  /** What the end of the finalizer of statement j sends outward, if anything. */
  function AtEnd(s: Stage, memory: seq<Completion>, j: nat, rules: Rules): Option<Pending>
    requires s.held != [] && j < |memory|
  {
    if rules.Nested? then if j == s.held[0].index then Some(s.held[0].pending) else None
    else
      match memory[j]
      case Thrown(v) => Some(Throwing(v))
      case Returned(v) => Some(Returning(v))
      case _ => if s.hot then Some(s.held[0].pending) else None
  }

  /** How unwinding runs: where it comes to, the places the body goes on at after the present one, and what
      happens to the entries. */
  datatype Course = Course(final: Final, places: seq<nat>, events: seq<Event>)

  function Following(places: seq<nat>, events: seq<Event>, c: Course): Course {
    Course(c.final, places + c.places, events + c.events)
  }

  lemma {:induction false} FollowingTwice(a: seq<nat>, e: seq<Event>, b: seq<nat>, f: seq<Event>, c: Course)
    ensures Following(a, e, Following(b, f, c)) == Following(a + b, e + f, c)
  {
    assert a + (b + c.places) == a + b + c.places && e + (f + c.events) == e + f + c.events;
  }

  ghost predicate ActsIn(table: Table, acts: seq<Act>) {
    forall k :: 0 <= k < |acts| ==> ActIn(table, acts[k])
  }

  ghost function Unwind(table: Table, s: Stage, acts: seq<Act>, rules: Rules): Course
    requires s.held != [] && |s.memory| == |table| && ActsIn(table, acts)
    decreases |acts|
  {
    if acts == [] then Course(Waiting(s), [], [])
    else
      match Does(table, s, acts[0], rules)
      case Stops(final, events) => Course(final, [], events)
      case Moves(s', events) =>
        if !acts[0].deed.Pause? then
          Following(if |acts| == 1 then [] else [s'.next], events, Unwind(table, s', acts[1..], rules))
        else if |acts| == 1 then Course(Paused(s', acts[0].deed.value), [], events)
        else Following([], events, Unwind(table, s', acts[1..], rules))
  }

  /** From where it is raised. */
  ghost function UnwindFrom(table: Table, held: seq<Held>, memory: seq<Completion>, frames: seq<Frame>, p: Pending,
                            acts: seq<Act>, rules: Rules): Course
    requires FramesOf(table, frames) && |memory| == |table| && ActsIn(table, acts)
  {
    match Raised(table, held, memory, frames, p)
    case Stops(final, events) => Course(final, [], events)
    case Moves(s, events) => Following(if acts == [] then [] else [s.next], events, Unwind(table, s, acts, rules))
  }

  // ---------------------------------------------------------------------------------
  // What stages keep

  /** The finalizers in progress are in one another, and their entries remember what is pending. */
  ghost predicate HeldOk(table: Table, held: seq<Held>, memory: seq<Completion>) {
    && |memory| == |table|
    && (forall k :: 0 <= k < |held| ==>
          var i := held[k].index;
            i < |table| && table[i].finallyLoc.Some? && memory[i] == CompletionOf(held[k].pending))
    && (forall k, l :: 0 <= k && l == k + 1 < |held| ==> NestedIn(table, held[k].index, held[l].index))
  }

  ghost predicate StageOk(table: Table, s: Stage) {
    s.held != [] && HeldOk(table, s.held, s.memory) && (s.hot ==> s.held[0].pending.Throwing?)
  }

  /** The act can be one of a body at the stage: statements with a finalizer in progress are not around
      it any more and take no exception, and the end is that of the innermost one or of a statement in it. */
  ghost predicate Apt(table: Table, s: Stage, act: Act)
    requires s.held != []
  {
    && ActIn(table, act)
    && (act.takes.Some? ==> forall k :: 0 <= k < |s.held| ==> s.held[k].index != act.takes.value)
    && (forall k, l :: 0 <= k < |act.frames| && 0 <= l < |s.held| ==> act.frames[k].index != s.held[l].index)
    && (act.deed.EndOf? ==>
          var j := act.deed.index;
          && table[j].finallyLoc.Some? && act.frames == Around(table, j)
          && (j == s.held[0].index || NestedIn(table, j, s.held[0].index)))
  }

  lemma {:induction false} Descending(table: Table, held: seq<Held>, memory: seq<Completion>, k: nat, l: nat)
    requires HeldOk(table, held, memory) && k < l < |held|
    ensures held[l].index < held[k].index
    decreases l - k
  {
    assert NestedIn(table, held[l - 1].index, held[l].index);
    if k + 1 < l {
      Descending(table, held, memory, k, l - 1);
    }
  }

  lemma {:induction false} HeldSuffix(table: Table, held: seq<Held>, memory: seq<Completion>, n: nat)
    requires HeldOk(table, held, memory) && n <= |held|
    ensures HeldOk(table, held[n..], memory)
  {
    forall k, l | 0 <= k && l == k + 1 < |held[n..]|
      ensures NestedIn(table, held[n..][k].index, held[n..][l].index)
    {
      assert held[n..][k] == held[n + k] && held[n..][l] == held[n + l];
    }
  }

  lemma {:induction false} StillInNested(table: Table, held: seq<Held>, j: nat)
    ensures var r := StillIn(table, held, j); r != [] ==> NestedIn(table, j, r[0].index)
  {
    if held != [] && !NestedIn(table, j, held[0].index) {
      StillInNested(table, held[1..], j);
    }
  }

  /** A change at an entry further in than the finalizers in progress leaves them alone. */
  lemma {:induction false} ForgetInner(table: Table, held: seq<Held>, memory: seq<Completion>, j: nat, c: Completion)
    requires HeldOk(table, held, memory) && j < |table| && (held != [] ==> NestedIn(table, j, held[0].index))
    ensures HeldOk(table, held, memory[j := c])
  {
    forall k | 0 <= k < |held|
      ensures held[k].index < j
    {
      if k > 0 {
        Descending(table, held, memory, 0, k);
      }
    }
  }

  lemma {:induction false} TookOk(table: Table, held: seq<Held>, memory: seq<Completion>, takes: Option<nat>)
    requires HeldOk(table, held, memory) &&
             (takes.Some? ==> forall k :: 0 <= k < |held| ==> held[k].index != takes.value)
    ensures HeldOk(table, held, Took(memory, takes))
  {
  }

  lemma {:induction false} RaisedOk(table: Table, held: seq<Held>, memory: seq<Completion>, frames: seq<Frame>,
                                    p: Pending)
    requires HeldOk(table, held, memory) && FramesOf(table, frames)
    ensures |memory| == |table|
    ensures var t := Raised(table, held, memory, frames, p); t.Moves? ==> StageOk(table, t.stage)
  {
    hide HeldOk, StillIn, FirstFinally, Crosses, Lands;
    HeldIs(table, held, memory);
    var k := Handler(table, frames, p);
    if k == |frames| {
      if p.Jumping? {
        LandsOk(table, held, memory, p.to);
      }
    } else {
      var i := frames[k].index;
      var rest := StillIn(table, held, i);
      HeldSuffix(table, held, memory, |held| - |rest|);
      StillInNested(table, held, i);
      ForgetInner(table, rest, memory, i, CompletionOf(p));
      HeldMore(table, rest, memory[i := CompletionOf(p)], i, p);
    }
  }

  lemma {:induction false} LandsOk(table: Table, held: seq<Held>, memory: seq<Completion>, to: nat)
    requires HeldOk(table, held, memory)
    ensures var t := Lands(table, held, memory, to); t.Moves? ==> StageOk(table, t.stage)
  {
    HeldSuffix(table, held, memory, |held| - |StillAt(table, held, to)|);
  }

  lemma {:induction false} HeldMore(table: Table, held: seq<Held>, memory: seq<Completion>, i: nat, p: Pending)
    requires HeldOk(table, held, memory) && i < |table| && (held != [] ==> NestedIn(table, i, held[0].index))
    requires memory[i] == CompletionOf(p)
    ensures table[i].finallyLoc.Some? ==> HeldOk(table, [Held(i, p)] + held, memory)
  {
    var more := [Held(i, p)] + held;
    assert forall k :: 0 < k < |more| ==> more[k] == held[k - 1];
    forall k, l | 0 <= k && l == k + 1 < |more|
      ensures NestedIn(table, more[k].index, more[l].index)
    {
      if k > 0 {
        assert NestedIn(table, held[k - 1].index, held[l - 1].index);
      }
    }
  }

  /** Stages stay in order, by either rules. */
  lemma {:induction false} DoesOk(table: Table, s: Stage, act: Act, rules: Rules)
    requires StageOk(table, s) && Apt(table, s, act)
    ensures var t := Does(table, s, act, rules); t.Moves? ==> StageOk(table, t.stage)
  {
    hide HeldOk, Raised, Lands, Crosses;
    HeldIs(table, s.held, s.memory);
    TookOk(table, s.held, s.memory, act.takes);
    var memory := Took(s.memory, act.takes);
    match act.deed {
      case Pause(_, to) =>
      case Raise(p) =>
        RaisedOk(table, s.held, memory, act.frames, p);
        RaisedOk(table, s.held, memory, act.frames, s.held[0].pending);
      case EndOf(j) => EndOk(table, s, act, rules, memory);
    }
  }

  lemma {:induction false} HeldIs(table: Table, held: seq<Held>, memory: seq<Completion>)
    requires HeldOk(table, held, memory)
    ensures |memory| == |table|
  {
  }

  lemma {:induction false} EndOk(table: Table, s: Stage, act: Act, rules: Rules, memory: seq<Completion>)
    requires StageOk(table, s) && Apt(table, s, act) && act.deed.EndOf?
    requires memory == Took(s.memory, act.takes) && HeldOk(table, s.held, memory)
    ensures var t := Does(table, s, act, rules); t.Moves? ==> StageOk(table, t.stage)
  {
    hide HeldOk, Raised, Lands, Does;
    HeldIs(table, s.held, memory);
    EndIs(table, s, act, rules);
    var j := act.deed.index;
    var held := if j == s.held[0].index then s.held[1..] else s.held;
    HeldSuffix(table, s.held, memory, 1);
    InnermostIs(table, s.held, memory);
    ForgetInner(table, held, memory, j, Normal);
    var memory' := if memory[j].Thrown? then memory else memory[j := Normal];
    var q := AtEnd(s, memory, j, rules);
    if q.Some? {
      RaisedOk(table, held, memory', act.frames, q.value);
    } else {
      LandsOk(table, held, memory', if rules.Runtime? && memory[j].Jumped? then memory[j].to else table[j].afterLoc);
    }
  }

  lemma {:induction false} InnermostIs(table: Table, held: seq<Held>, memory: seq<Completion>)
    requires HeldOk(table, held, memory) && held != []
    ensures var i := held[0].index;
            i < |memory| && memory[i] == CompletionOf(held[0].pending) && table[i].finallyLoc.Some?
    ensures |held| > 1 ==> NestedIn(table, held[0].index, held[1].index)
  {
  }

  // ---------------------------------------------------------------------------------
  // Unwinding that is interrupted by yields

  /** Going on after a yield: what the acts so far have left, and the acts to come. */
  lemma {:induction false} UnwindAppend(table: Table, s: Stage, a: seq<Act>, b: seq<Act>, rules: Rules)
    requires s.held != [] && |s.memory| == |table| && ActsIn(table, a) && ActsIn(table, b) && ActsIn(table, a + b)
    requires b != [] && Unwind(table, s, a, rules).final.Paused?
    ensures var c := Unwind(table, s, a, rules); var s' := c.final.stage;
            && s'.held != [] && |s'.memory| == |table|
            && Unwind(table, s, a + b, rules) == Following(c.places, c.events, Unwind(table, s', b, rules))
    decreases |a|
  {
    hide Does;
    assert a != [] && (a + b)[0] == a[0] && (a + b)[1..] == a[1..] + b;
    var t := Does(table, s, a[0], rules);
    assert t.Moves?;
    if |a| == 1 {
      assert a[1..] + b == b;
    } else {
      UnwindAppend(table, t.stage, a[1..], b, rules);
      var c := Unwind(table, t.stage, a[1..], rules);
      FollowingTwice(if a[0].deed.Pause? then [] else [t.stage.next], t.events, c.places, c.events,
                     Unwind(table, c.final.stage, b, rules));
    }
  }

  // ---------------------------------------------------------------------------------
  // The way out

  function OffTheEnd(p: Pending): Final {
    if p.Jumping? then GoesOn(p.to) else Ended(p)
  }

  /** The statements that handle it one after the other, when finalizers on the way take nothing over. */
  ghost function Handlers(table: Table, frames: seq<Frame>, p: Pending): (r: seq<nat>)
    requires FramesOf(table, frames)
    decreases |frames|
  {
    var k := Handler(table, frames, p);
    if k == |frames| then []
    else [frames[k].index] + if Catches(frames[k], p) then [] else Handlers(table, frames[k + 1..], p)
  }

  /** Where that leads. */
  ghost function WayEnd(table: Table, frames: seq<Frame>, p: Pending): Final
    requires FramesOf(table, frames)
    decreases |frames|
  {
    var k := Handler(table, frames, p);
    if k == |frames| then OffTheEnd(p)
    else if Catches(frames[k], p) then Caught(frames[k].index, p.value)
    else WayEnd(table, frames[k + 1..], p)
  }

  /** How many finalizers have to come to their ends. */
  ghost function Needs(table: Table, frames: seq<Frame>, p: Pending): nat
    requires FramesOf(table, frames)
    decreases |frames|
  {
    var k := Handler(table, frames, p);
    if k == |frames| || Catches(frames[k], p) then 0 else 1 + Needs(table, frames[k + 1..], p)
  }

  ghost function Outer(s: Stage): Held
    requires s.held != []
  {
    s.held[|s.held| - 1]
  }

  /** The end of the outermost finalizer in progress. */
  ghost predicate EndsOuter(s: Stage, act: Act)
    requires s.held != []
  {
    |s.held| == 1 && act.deed == EndOf(s.held[0].index)
  }

  /** Whatever happens in finalizers stays there: the outermost one keeps what is pending to its end. */
  ghost predicate Quiet(table: Table, s: Stage, acts: seq<Act>, rules: Rules)
    requires s.held != [] && |s.memory| == |table|
    decreases |acts|
  {
    acts == [] ||
    (Apt(table, s, acts[0]) &&
     match Does(table, s, acts[0], rules)
     case Stops(_, _) => EndsOuter(s, acts[0])
     case Moves(s', _) => (EndsOuter(s, acts[0]) || Outer(s') == Outer(s)) && Quiet(table, s', acts[1..], rules))
  }

  /** How often the outermost finalizer in progress comes to its end. */
  ghost function Ends(table: Table, s: Stage, acts: seq<Act>, rules: Rules): nat
    requires s.held != [] && |s.memory| == |table| && ActsIn(table, acts)
    decreases |acts|
  {
    if acts == [] then 0
    else
      (if EndsOuter(s, acts[0]) then 1 else 0) +
      match Does(table, s, acts[0], rules)
      case Stops(_, _) => 0
      case Moves(s', _) => Ends(table, s', acts[1..], rules)
  }

  /** How the statements around the place q were left. */
  function Leavings(table: Table, events: seq<Event>, q: nat): seq<Event> {
    if events == [] then []
    else (if events[0].Left? && events[0].index < |table| && table[events[0].index].Live(q) then [events[0]] else []) +
         Leavings(table, events[1..], q)
  }

  lemma {:induction false} LeavingsAppend(table: Table, a: seq<Event>, b: seq<Event>, q: nat)
    ensures Leavings(table, a + b, q) == Leavings(table, a, q) + Leavings(table, b, q)
  {
    if a == [] {
      assert a + b == b;
    } else {
      assert (a + b)[0] == a[0] && (a + b)[1..] == a[1..] + b;
      LeavingsAppend(table, a[1..], b, q);
    }
  }

  function Lefts(indices: seq<nat>, p: Pending): (r: seq<Event>)
    ensures |r| == |indices|
  {
    seq(|indices|, k requires 0 <= k < |indices| => Left(indices[k], CompletionOf(p)))
  }

  /** No event is the leaving of a statement around q. */
  ghost predicate Elsewhere(table: Table, events: seq<Event>, q: nat) {
    forall k :: 0 <= k < |events| && events[k].Left? ==> events[k].index < |table| && !table[events[k].index].Live(q)
  }

  lemma {:induction false} ElsewhereNone(table: Table, events: seq<Event>, q: nat)
    requires Elsewhere(table, events, q)
    ensures Leavings(table, events, q) == []
  {
    if events != [] {
      ElsewhereNone(table, events[1..], q);
    }
  }

  /** Finalizers further in start later. */
  lemma {:induction false} InnerLater(table: Table, held: seq<Held>, memory: seq<Completion>)
    requires WellNested(table) && HeldOk(table, held, memory) && held != []
    ensures var i, o := held[0].index, held[|held| - 1].index;
            table[i].finallyLoc.Some? && table[o].finallyLoc.Some? &&
              table[o].finallyLoc.value <= table[i].finallyLoc.value
    decreases |held|
  {
    if |held| > 1 {
      HeldSuffix(table, held, memory, 1);
      InnerLater(table, held[1..], memory);
      assert NestedIn(table, held[0].index, held[1].index) && table[held[0].index].Valid();
    }
  }

  /** A statement in a finalizer in progress is not around a place in the blocks of the outermost. */
  lemma {:induction false} NotAround(table: Table, held: seq<Held>, memory: seq<Completion>, j: nat, q: nat)
    requires WellNested(table) && HeldOk(table, held, memory) && held != [] && NestedIn(table, j, held[0].index)
    requires table[held[|held| - 1].index].Live(q)
    ensures !table[j].Live(q)
  {
    InnerLater(table, held, memory);
    assert table[held[|held| - 1].index].Valid();
  }

  /** What is raised in a finalizer and stays in the outermost one leaves only statements in that. */
  lemma {:induction false} RaisedInside(table: Table, held: seq<Held>, memory: seq<Completion>, frames: seq<Frame>,
                                        p: Pending, q: nat, o: Held)
    requires WellNested(table) && |memory| == |table| && HeldOk(table, held, memory) && FramesOf(table, frames) &&
             o.index < |table| && table[o.index].Live(q)
    requires forall k :: 0 <= k < |frames| ==> frames[k].index != o.index
    requires var t := Raised(table, held, memory, frames, p); t.Moves? && Outer(t.stage) == o
    ensures Elsewhere(table, Raised(table, held, memory, frames, p).events, q)
  {
    hide HeldOk, WellNested, Entry.Live, Raised, StillIn;
    var t := Raised(table, held, memory, frames, p);
    RaisedLeaves(table, held, memory, frames, p);
    if t.events != [] {
      var i := t.events[0].index;
      var rest := StillIn(table, held, i);
      HeldSuffix(table, held, memory, |held| - |rest|);
      StillInNested(table, held, i);
      assert rest != [] && Outer(t.stage) == rest[|rest| - 1];
      NotAround(table, rest, memory, i, q);
    }
  }

  lemma {:induction false} ElsewhereBoth(table: Table, a: seq<Event>, b: seq<Event>, q: nat)
    requires Elsewhere(table, a, q) && Elsewhere(table, b, q)
    ensures Elsewhere(table, a + b, q)
  {
  }

  lemma {:induction false} LandsQuietly(table: Table, held: seq<Held>, memory: seq<Completion>, to: nat, e: seq<Event>)
    ensures Behind(e, Lands(table, held, memory, to)).events == e
  {
  }

  /** What is raised leaves at most one statement, one of the frames. */
  lemma {:induction false} RaisedLeaves(table: Table, held: seq<Held>, memory: seq<Completion>, frames: seq<Frame>,
                                        p: Pending)
    requires |memory| == |table| && FramesOf(table, frames)
    ensures var t := Raised(table, held, memory, frames, p);
            t.events == [] ||
            exists k :: 0 <= k < |frames| &&
              var i := frames[k].index; var rest := StillIn(table, held, i);
              t.events == [Left(i, CompletionOf(p))] &&
                (t.Moves? ==> t.stage.held == rest || t.stage.held == [Held(i, p)] + rest)
  {
    hide StillIn, StillAt, FirstFinally, Crosses;
    var k := Handler(table, frames, p);
    if k < |frames| {
      assert frames[k].index < |table|;
    }
  }

  /** So it is with everything that happens in finalizers and stays there. */
  lemma {:induction false} DoesInside(table: Table, s: Stage, act: Act, rules: Rules, q: nat)
    requires WellNested(table) && StageOk(table, s) && Apt(table, s, act) && table[Outer(s).index].Live(q)
    requires var t := Does(table, s, act, rules); t.Moves? && Outer(t.stage) == Outer(s)
    ensures Elsewhere(table, Does(table, s, act, rules).events, q)
  {
    hide HeldOk, Raised, Lands, Crosses, WellNested, Entry.Live;
    HeldIs(table, s.held, s.memory);
    TookOk(table, s.held, s.memory, act.takes);
    var memory := Took(s.memory, act.takes);
    assert forall k :: 0 <= k < |act.frames| ==> act.frames[k].index != Outer(s).index;
    match act.deed {
      case Pause(_, to) =>
      case Raise(p) =>
        var p' := if rules.Runtime? && s.hot && p.Jumping? && !Crosses(table, act.frames, p.to) then s.held[0].pending
          else p;
        RaisedInside(table, s.held, memory, act.frames, p', q, Outer(s));
      case EndOf(j) => EndInside(table, s, act, rules, q, memory);
    }
  }

  lemma {:induction false} EndInside(table: Table, s: Stage, act: Act, rules: Rules, q: nat, memory: seq<Completion>)
    requires WellNested(table) && StageOk(table, s) && Apt(table, s, act) && act.deed.EndOf? &&
             table[Outer(s).index].Live(q)
    requires memory == Took(s.memory, act.takes) && HeldOk(table, s.held, memory)
    requires forall k :: 0 <= k < |act.frames| ==> act.frames[k].index != Outer(s).index
    requires var t := Does(table, s, act, rules); t.Moves? && Outer(t.stage) == Outer(s)
    ensures Elsewhere(table, Does(table, s, act, rules).events, q)
  {
    hide HeldOk, Raised, Lands, WellNested, Entry.Live, Does, Elsewhere;
    HeldIs(table, s.held, memory);
    var j := act.deed.index;
    var held, p := if j == s.held[0].index then s.held[1..] else s.held, AtEnd(s, memory, j, rules);
    HeldSuffix(table, s.held, memory, 1);
    InnermostIs(table, s.held, memory);
    ForgetInner(table, held, memory, j, Normal);
    EndIs(table, s, act, rules);
    var memory' := if memory[j].Thrown? then memory else memory[j := Normal];
    var e := Taking(s.memory, act.takes) + if memory[j].Thrown? then [] else [Finished(j)];
    NothingLeft(table, e, q);
    if p.Some? {
      RaisedInside(table, held, memory', act.frames, p.value, q, Outer(s));
      ElsewhereBoth(table, e, Raised(table, held, memory', act.frames, p.value).events, q);
    } else {
      LandsQuietly(table, held, memory', if rules.Runtime? && memory[j].Jumped? then memory[j].to
                   else table[j].afterLoc, e);
    }
  }

  lemma {:induction false} NothingLeft(table: Table, e: seq<Event>, q: nat)
    requires forall k :: 0 <= k < |e| ==> !e[k].Left?
    ensures Elsewhere(table, e, q)
  {
  }

  /** The end of the finalizer of a statement. */
  lemma {:induction false} EndIs(table: Table, s: Stage, act: Act, rules: Rules)
    requires s.held != [] && |s.memory| == |table| && ActIn(table, act) && act.deed.EndOf?
    ensures var j, memory := act.deed.index, Took(s.memory, act.takes);
            var held, q := if j == s.held[0].index then s.held[1..] else s.held, AtEnd(s, memory, j, rules);
            var memory', e := if memory[j].Thrown? then memory else memory[j := Normal],
                              Taking(s.memory, act.takes) + if memory[j].Thrown? then [] else [Finished(j)];
            Does(table, s, act, rules) ==
              Behind(e, if q.Some? then Raised(table, held, memory', act.frames, q.value)
                        else Lands(table, held, memory', if rules.Runtime? && memory[j].Jumped? then memory[j].to
                                   else table[j].afterLoc))
  {
    hide Raised, Lands;
  }

  lemma {:induction false} OnWayOut(table: Table, i: nat, k: nat, q: nat)
    requires WellNested(table) && i < |table| && k < |Around(table, i)| && table[i].Live(q)
    ensures table[Around(table, i)[k].index].Live(q) &&
            Around(table, i)[k + 1..] == Around(table, Around(table, i)[k].index)
  {
    var j := Around(table, i)[k].index;
    TopGuards(table, j, i, table[i].tryLoc);
    FramesOutward(table, i, table[i].tryLoc, k);
  }

  /** The frames are those of statements around q, one after the other. */
  ghost predicate Surround(table: Table, frames: seq<Frame>, q: nat) {
    forall k :: 0 <= k < |frames| ==>
      frames[k].index < |table| && table[frames[k].index].Live(q) && frames[k + 1..] == Around(table, frames[k].index)
  }

  lemma {:induction false} AroundSurround(table: Table, i: nat, q: nat)
    requires WellNested(table) && i < |table| && table[i].Live(q)
    ensures Surround(table, Around(table, i), q)
  {
    hide WellNested, Entry.Live, Frames;
    forall k | 0 <= k < |Around(table, i)|
      ensures Around(table, i)[k].index < |table| && table[Around(table, i)[k].index].Live(q)
      ensures Around(table, i)[k + 1..] == Around(table, Around(table, i)[k].index)
    {
      OnWayOut(table, i, k, q);
    }
  }

  lemma {:induction false} HereSurround(table: Table, q: nat)
    requires WellNested(table)
    ensures Surround(table, Frames(table, |table|, q), q)
  {
    hide WellNested, Entry.Live;
    forall k | 0 <= k < |Frames(table, |table|, q)|
      ensures Frames(table, |table|, q)[k + 1..] == Around(table, Frames(table, |table|, q)[k].index)
    {
      FramesOutward(table, |table|, q, k);
    }
  }

  /** Where the way outward leads that starts at the frames, step by step: the turn is the first step of it. */
  ghost predicate OnTheWay(table: Table, frames: seq<Frame>, p: Pending, q: nat, t: Turn)
    requires FramesOf(table, frames)
  {
    match t
    case Stops(f, e) => f == WayEnd(table, frames, p) && Needs(table, frames, p) == 0 &&
      Leavings(table, e, q) == Lefts(Handlers(table, frames, p), p)
    case Moves(s, e) =>
      && |s.held| == 1 && s.held[0].pending == p
      && var i := s.held[0].index;
         && i < |table| && table[i].Live(q) && Needs(table, frames, p) == 1 + Needs(table, Around(table, i), p)
         && WayEnd(table, frames, p) == WayEnd(table, Around(table, i), p)
         && Leavings(table, e, q) + Lefts(Handlers(table, Around(table, i), p), p) ==
            Lefts(Handlers(table, frames, p), p)
  }

  /** Something sent outward through the frames, with no finalizer in progress. */
  lemma {:induction false} SentOutward(table: Table, frames: seq<Frame>, memory: seq<Completion>, p: Pending, q: nat)
    requires FramesOf(table, frames) && |memory| == |table| && Surround(table, frames, q)
    ensures OnTheWay(table, frames, p, q, Raised(table, [], memory, frames, p))
  {
    hide Frames, Handler, Entry.Live, Handlers, WayEnd, Needs, Lefts, FramesOf;
    WayStep(table, frames, p);
    var k := Handler(table, frames, p);
    if k < |frames| {
      var i := frames[k].index;
      assert table[i].Live(q) && frames[k + 1..] == Around(table, i);
      hide Surround;
      OneLeaving(table, i, p, q);
      LeftsFirst(i, [], p);
      assert [i] + [] == [i];
      if !Catches(frames[k], p) {
        LeftsFirst(i, Handlers(table, Around(table, i), p), p);
      }
    } else {
      LeftsFirst(0, [], p);
    }
  }

  lemma {:induction false} WayStep(table: Table, frames: seq<Frame>, p: Pending)
    requires FramesOf(table, frames)
    ensures var k := Handler(table, frames, p);
            if k == |frames| then
              && Handlers(table, frames, p) == [] && Needs(table, frames, p) == 0
              && WayEnd(table, frames, p) == OffTheEnd(p)
            else if Catches(frames[k], p) then
              Handlers(table, frames, p) == [frames[k].index] &&
                WayEnd(table, frames, p) == Caught(frames[k].index, p.value) && Needs(table, frames, p) == 0
            else
              var rest := frames[k + 1..];
              && FramesOf(table, rest) && Handlers(table, frames, p) == [frames[k].index] + Handlers(table, rest, p)
              && WayEnd(table, frames, p) == WayEnd(table, rest, p) &&
                 Needs(table, frames, p) == 1 + Needs(table, rest, p)
  {
    hide Handler, FramesOf;
    if Handler(table, frames, p) < |frames| {
      FramesTail(table, frames, Handler(table, frames, p) + 1);
    }
  }

  lemma {:induction false} FramesTail(table: Table, frames: seq<Frame>, n: nat)
    requires FramesOf(table, frames) && n <= |frames|
    ensures FramesOf(table, frames[n..])
  {
  }

  lemma {:induction false} OneLeaving(table: Table, i: nat, p: Pending, q: nat)
    requires i < |table| && table[i].Live(q)
    ensures Leavings(table, [Left(i, CompletionOf(p))], q) == [Left(i, CompletionOf(p))] && Leavings(table, [], q) == []
  {
    assert [Left(i, CompletionOf(p))][1..] == [];
  }

  ghost predicate PlainFrom(table: Table, memory: seq<Completion>, frames: seq<Frame>, p: Pending, acts: seq<Act>,
                            rules: Rules)
    requires FramesOf(table, frames) && |memory| == |table| && ActsIn(table, acts)
  {
    var t := Raised(table, [], memory, frames, p);
    t.Moves? ==> Plain(table, t.stage, acts, rules)
  }

  lemma {:induction false} LeftsFirst(i: nat, later: seq<nat>, p: Pending)
    ensures Lefts([i] + later, p) == [Left(i, CompletionOf(p))] + Lefts(later, p) && Lefts([], p) == []
  {
  }

  /** When nothing takes over, what is pending in the outermost finalizer goes its way outward from
      statement to statement. */
  lemma {:induction false} WayOut(table: Table, s: Stage, acts: seq<Act>, rules: Rules, p: Pending, q: nat)
    requires WellNested(table) && StageOk(table, s) && ActsIn(table, acts) && Quiet(table, s, acts, rules)
    requires Outer(s).pending == p && (rules.Nested? || !p.Jumping?) && table[Outer(s).index].Live(q)
    requires Ends(table, s, acts, rules) >= 1 + Needs(table, Around(table, Outer(s).index), p)
    ensures var c, outer := Unwind(table, s, acts, rules), Around(table, Outer(s).index);
            c.final == WayEnd(table, outer, p) && Leavings(table, c.events, q) == Lefts(Handlers(table, outer, p), p)
    decreases |acts|
  {
    hide HeldOk, WellNested, Entry.Live, Does, Frames, Raised, Handlers, WayEnd, Needs, Leavings, Lefts;
    HeldIs(table, s.held, s.memory);
    DoesOk(table, s, acts[0], rules);
    var t := Does(table, s, acts[0], rules);
    if EndsOuter(s, acts[0]) {
      OuterEnds(table, s, acts[0], rules, p, q);
    } else {
      DoesInside(table, s, acts[0], rules, q);
      ElsewhereNone(table, t.events, q);
    }
    if t.Moves? {
      MoreThanOne(table, t.stage, acts[1..], rules);
      WayOut(table, t.stage, acts[1..], rules, p, q);
      LeavingsAppend(table, t.events, Unwind(table, t.stage, acts[1..], rules).events, q);
    }
  }

  lemma {:induction false} MoreThanOne(table: Table, s: Stage, acts: seq<Act>, rules: Rules)
    requires s.held != [] && |s.memory| == |table| && ActsIn(table, acts) && Ends(table, s, acts, rules) > 0
    ensures acts != []
  {
  }

  lemma {:induction false} OuterEnds(table: Table, s: Stage, act: Act, rules: Rules, p: Pending, q: nat)
    requires WellNested(table) && StageOk(table, s) && Apt(table, s, act) && EndsOuter(s, act)
    requires Outer(s).pending == p && (rules.Nested? || !p.Jumping?) && table[Outer(s).index].Live(q)
    ensures OnTheWay(table, Around(table, Outer(s).index), p, q, Does(table, s, act, rules))
  {
    hide HeldOk, WellNested, Entry.Live, Frames, Raised, Handlers, WayEnd, Needs, Lefts, Leavings, Surround;
    var i, memory := Outer(s).index, Took(s.memory, act.takes);
    HeldIs(table, s.held, s.memory);
    TookOk(table, s.held, s.memory, act.takes);
    InnermostIs(table, s.held, memory);
    assert AtEnd(s, memory, i, rules) == Some(p);
    assert s.held[1..] == [];
    var memory' := if memory[i].Thrown? then memory else memory[i := Normal];
    AroundSurround(table, i, q);
    SentOutward(table, Around(table, i), memory', p, q);
    var e := Taking(s.memory, act.takes) + if memory[i].Thrown? then [] else [Finished(i)];
    var later := Raised(table, [], memory', Around(table, i), p).events;
    ElsewhereNone(table, e, q);
    LeavingsAppend(table, e, later, q);
    assert [] + Leavings(table, later, q) == Leavings(table, later, q);
  }

  /** Nothing but yields and ends of the finalizers on the way. */
  ghost predicate Plain(table: Table, s: Stage, acts: seq<Act>, rules: Rules)
    requires s.held != [] && |s.memory| == |table| && ActsIn(table, acts)
    decreases |acts|
  {
    acts == [] ||
    ((acts[0].deed.Pause? || EndsOuter(s, acts[0])) &&
     var t := Does(table, s, acts[0], rules); t.Moves? ==> Plain(table, t.stage, acts[1..], rules))
  }

  /** The finalizers on the way outward. */
  ghost function FinallyPlaces(table: Table, frames: seq<Frame>, p: Pending): seq<nat>
    requires FramesOf(table, frames)
    decreases |frames|
  {
    var k := Handler(table, frames, p);
    if k == |frames| || Catches(frames[k], p) then []
    else [table[frames[k].index].finallyLoc.value] + FinallyPlaces(table, frames[k + 1..], p)
  }

  lemma {:induction false} PlacesStep(table: Table, frames: seq<Frame>, memory: seq<Completion>, p: Pending, q: nat)
    requires FramesOf(table, frames) && |memory| == |table| && Surround(table, frames, q)
    ensures var t := Raised(table, [], memory, frames, p);
            if t.Moves? then
              && t.stage.held[0].index < |table|
              && FinallyPlaces(table, frames, p) ==
                 [t.stage.next] + FinallyPlaces(table, Around(table, t.stage.held[0].index), p)
            else
              FinallyPlaces(table, frames, p) == []
  {
    hide Frames, Handler, FramesOf;
    var k := Handler(table, frames, p);
    if k < |frames| {
      FramesTail(table, frames, k + 1);
    }
  }

  /** Then the body goes on at just these finalizers. */
  lemma {:induction false} PlainWayOut(table: Table, s: Stage, acts: seq<Act>, rules: Rules, p: Pending, q: nat)
    requires WellNested(table) && StageOk(table, s) && ActsIn(table, acts) && Quiet(table, s, acts, rules) &&
             Plain(table, s, acts, rules)
    requires |s.held| == 1 && s.held[0].pending == p && (rules.Nested? || !p.Jumping?) && table[s.held[0].index].Live(q)
    requires Ends(table, s, acts, rules) >= 1 + Needs(table, Around(table, s.held[0].index), p)
    ensures Unwind(table, s, acts, rules).places == FinallyPlaces(table, Around(table, s.held[0].index), p)
    decreases |acts|
  {
    hide HeldOk, WellNested, Entry.Live, Does, Frames, Raised, FinallyPlaces, Needs, Lefts, Leavings, Handlers, WayEnd;
    HeldIs(table, s.held, s.memory);
    DoesOk(table, s, acts[0], rules);
    var t := Does(table, s, acts[0], rules);
    if EndsOuter(s, acts[0]) {
      OuterEnds(table, s, acts[0], rules, p, q);
      OuterPlaces(table, s, acts[0], rules, p, q);
    } else {
      PauseStays(table, s, acts[0], rules);
    }
    if t.Moves? {
      MoreThanOne(table, t.stage, acts[1..], rules);
      PlainWayOut(table, t.stage, acts[1..], rules, p, q);
    }
  }

  lemma {:induction false} PauseStays(table: Table, s: Stage, act: Act, rules: Rules)
    requires s.held != [] && |s.memory| == |table| && ActIn(table, act) && act.deed.Pause?
    ensures Does(table, s, act, rules).Moves? && Does(table, s, act, rules).stage.held == s.held
  {
  }

  lemma {:induction false} OuterPlaces(table: Table, s: Stage, act: Act, rules: Rules, p: Pending, q: nat)
    requires WellNested(table) && StageOk(table, s) && Apt(table, s, act) && EndsOuter(s, act)
    requires Outer(s).pending == p && (rules.Nested? || !p.Jumping?) && table[Outer(s).index].Live(q)
    ensures var t, i := Does(table, s, act, rules), Outer(s).index;
            if t.Moves? then
              && t.stage.held[0].index < |table|
              && FinallyPlaces(table, Around(table, i), p) ==
                 [t.stage.next] + FinallyPlaces(table, Around(table, t.stage.held[0].index), p)
            else
              FinallyPlaces(table, Around(table, i), p) == []
  {
    hide HeldOk, WellNested, Entry.Live, Frames, Raised, FinallyPlaces, Surround, Lands, Does;
    var i, memory := Outer(s).index, Took(s.memory, act.takes);
    HeldIs(table, s.held, s.memory);
    TookOk(table, s.held, s.memory, act.takes);
    InnermostIs(table, s.held, memory);
    EndIs(table, s, act, rules);
    assert AtEnd(s, memory, i, rules) == Some(p);
    assert s.held[1..] == [];
    AroundSurround(table, i, q);
    PlacesStep(table, Around(table, i), if memory[i].Thrown? then memory else memory[i := Normal], p, q);
  }

  ghost predicate QuietFrom(table: Table, memory: seq<Completion>, frames: seq<Frame>, p: Pending, acts: seq<Act>,
                            rules: Rules)
    requires FramesOf(table, frames) && |memory| == |table|
  {
    var t := Raised(table, [], memory, frames, p);
    t.Moves? ==> Quiet(table, t.stage, acts, rules)
  }

  ghost function EndsFrom(table: Table, memory: seq<Completion>, frames: seq<Frame>, p: Pending, acts: seq<Act>,
                          rules: Rules): nat
    requires FramesOf(table, frames) && |memory| == |table| && ActsIn(table, acts)
  {
    var t := Raised(table, [], memory, frames, p);
    if t.Moves? then Ends(table, t.stage, acts, rules) else 0
  }

  /** When nothing takes over, what is raised at q goes outward through the statements around q, one
      after the other and each once, whatever happens in their finalizers. */
  lemma {:induction false} AllTheWayOut(table: Table, memory: seq<Completion>, q: nat, p: Pending, acts: seq<Act>,
                                        rules: Rules)
    requires WellNested(table) && |memory| == |table| && ActsIn(table, acts) && (rules.Nested? || !p.Jumping?)
    requires var fs := Frames(table, |table|, q);
             QuietFrom(table, memory, fs, p, acts, rules) &&
               EndsFrom(table, memory, fs, p, acts, rules) >= Needs(table, fs, p)
    ensures var fs := Frames(table, |table|, q); var c := UnwindFrom(table, [], memory, fs, p, acts, rules);
            c.final == WayEnd(table, fs, p) && Leavings(table, c.events, q) == Lefts(Handlers(table, fs, p), p)
  {
    hide WellNested, Entry.Live, Frames, Raised, Handlers, WayEnd, Needs, Lefts, Leavings, Surround;
    var fs := Frames(table, |table|, q);
    var t := Raised(table, [], memory, fs, p);
    RaisedOk(table, [], memory, fs, p);
    HereSurround(table, q);
    SentOutward(table, fs, memory, p, q);
    if t.Moves? {
      WayOut(table, t.stage, acts, rules, p, q);
      LeavingsAppend(table, t.events, Unwind(table, t.stage, acts, rules).events, q);
    }
  }

  /** If finalizers do nothing but yield and end, the body goes on at just those on the way. */
  lemma {:induction false} PlainAllTheWay(table: Table, memory: seq<Completion>, q: nat, p: Pending, acts: seq<Act>,
                                          rules: Rules)
    requires WellNested(table) && |memory| == |table| && ActsIn(table, acts) && (rules.Nested? || !p.Jumping?)
    requires var fs := Frames(table, |table|, q);
             QuietFrom(table, memory, fs, p, acts, rules) &&
               EndsFrom(table, memory, fs, p, acts, rules) >= Needs(table, fs, p)
    requires PlainFrom(table, memory, Frames(table, |table|, q), p, acts, rules)
    ensures var fs := Frames(table, |table|, q);
            UnwindFrom(table, [], memory, fs, p, acts, rules).places == FinallyPlaces(table, fs, p)
  {
    hide WellNested, Entry.Live, Frames, Raised, Handlers, WayEnd, Needs, Lefts, Leavings, Surround, FinallyPlaces;
    var fs := Frames(table, |table|, q);
    var t := Raised(table, [], memory, fs, p);
    RaisedOk(table, [], memory, fs, p);
    HereSurround(table, q);
    SentOutward(table, fs, memory, p, q);
    PlacesStep(table, fs, memory, p, q);
    if t.Moves? {
      MoreThanOne(table, t.stage, acts, rules);
      PlainWayOut(table, t.stage, acts, rules, p, q);
    }
  }

  // ---------------------------------------------------------------------------------
  // Returns and throws

  /** The statements with a finalizer among the frames. */
  ghost function WithFinalizer(table: Table, frames: seq<Frame>): seq<nat>
    requires FramesOf(table, frames)
  {
    if frames == [] then []
    else (if table[frames[0].index].finallyLoc.Some? then [frames[0].index] else []) + WithFinalizer(table, frames[1..])
  }

  lemma {:induction false} SkipToFinally(table: Table, frames: seq<Frame>)
    requires FramesOf(table, frames)
    ensures var k := FirstFinally(table, frames);
            WithFinalizer(table, frames) ==
              if k == |frames| then [] else [frames[k].index] + WithFinalizer(table, frames[k + 1..])
  {
    if frames != [] && table[frames[0].index].finallyLoc.None? {
      SkipToFinally(table, frames[1..]);
    }
    SkipOne(table, frames);
  }

  lemma {:induction false} SkipOne(table: Table, frames: seq<Frame>)
    requires FramesOf(table, frames)
    requires frames != [] && table[frames[0].index].finallyLoc.None? ==>
               var rest := frames[1..]; var k := FirstFinally(table, rest);
               WithFinalizer(table, rest) ==
                 if k == |rest| then [] else [rest[k].index] + WithFinalizer(table, rest[k + 1..])
    ensures var k := FirstFinally(table, frames);
            WithFinalizer(table, frames) ==
              if k == |frames| then [] else [frames[k].index] + WithFinalizer(table, frames[k + 1..])
  {
    var k := FirstFinally(table, frames);
    if frames != [] && table[frames[0].index].finallyLoc.None? {
      var rest := frames[1..];
      assert k == FirstFinally(table, rest) + 1 && WithFinalizer(table, frames) == WithFinalizer(table, rest);
      assert k < |frames| ==> rest[k - 1] == frames[k] && rest[k..] == frames[k + 1..];
    } else {
      assert k == 0;
    }
  }

  /** Where the finalizers of the statements start. */
  function FinallyLocs(table: Table, indices: seq<nat>): (r: seq<nat>)
    ensures |r| == |indices|
  {
    seq(|indices|, k requires 0 <= k < |indices| =>
      if indices[k] < |table| && table[indices[k]].finallyLoc.Some? then table[indices[k]].finallyLoc.value else 0)
  }

  lemma {:induction false} FinallyLocsFirst(table: Table, i: nat, later: seq<nat>)
    requires i < |table| && table[i].finallyLoc.Some?
    ensures FinallyLocs(table, [i] + later) == [table[i].finallyLoc.value] + FinallyLocs(table, later)
  {
  }

  /** A return runs every finalizer around it, inner to outer, and ends with its own value. */
  lemma {:induction false} ReturnRunsAllFinalizers(table: Table, frames: seq<Frame>, value: Value)
    requires FramesOf(table, frames)
    ensures Handlers(table, frames, Returning(value)) == WithFinalizer(table, frames)
    ensures WayEnd(table, frames, Returning(value)) == Ended(Returning(value))
    ensures Needs(table, frames, Returning(value)) == |WithFinalizer(table, frames)|
    ensures FinallyPlaces(table, frames, Returning(value)) == FinallyLocs(table, WithFinalizer(table, frames))
    decreases |frames|
  {
    hide FirstFinally, WithFinalizer, Handlers, WayEnd, Needs;
    WayStep(table, frames, Returning(value));
    SkipToFinally(table, frames);
    var k := FirstFinally(table, frames);
    if k < |frames| {
      ReturnRunsAllFinalizers(table, frames[k + 1..], value);
      FinallyLocsFirst(table, frames[k].index, WithFinalizer(table, frames[k + 1..]));
    }
  }

  /** Frames up to the first one whose catch block takes a throw. */
  ghost function Uncaught(frames: seq<Frame>): (r: seq<Frame>)
    ensures |r| <= |frames| && r == frames[..|r|] && (|r| < |frames| ==> frames[|r|].inTry)
    ensures forall k :: 0 <= k < |r| ==> !r[k].inTry
  {
    if frames == [] || frames[0].inTry then [] else [frames[0]] + Uncaught(frames[1..])
  }

  function Indices(frames: seq<Frame>): (r: seq<nat>)
    ensures |r| == |frames| && forall k :: 0 <= k < |r| ==> r[k] == frames[k].index
  {
    seq(|frames|, k requires 0 <= k < |frames| => frames[k].index)
  }

  /** A throw runs the finalizers up to the first catch block, and is caught there or ends the run. */
  lemma {:induction false} ThrowGoesToFirstCatch(table: Table, frames: seq<Frame>, value: Value)
    requires FramesOf(table, frames)
    ensures Handlers(table, frames, Throwing(value)) ==
            Indices(frames[..if |Uncaught(frames)| < |frames| then |Uncaught(frames)| + 1 else |frames|])
    ensures Needs(table, frames, Throwing(value)) == |Uncaught(frames)|
    ensures FinallyPlaces(table, frames, Throwing(value)) == FinallyLocs(table, Indices(Uncaught(frames)))
    ensures WayEnd(table, frames, Throwing(value)) ==
              if |Uncaught(frames)| < |frames| then Caught(frames[|Uncaught(frames)|].index, value)
                else Ended(Throwing(value))
    decreases |frames|
  {
    hide Handlers, WayEnd, Needs;
    WayStep(table, frames, Throwing(value));
    if frames != [] && !frames[0].inTry {
      ThrowGoesToFirstCatch(table, frames[1..], value);
      assert Uncaught(frames) == [frames[0]] + Uncaught(frames[1..]);
      hide Uncaught;
      var n := if |Uncaught(frames[1..])| < |frames[1..]| then |Uncaught(frames[1..])| + 1 else |frames[1..]|;
      assert Indices(frames[..n + 1]) == [frames[0].index] + Indices(frames[1..][..n]);
      assert Indices([frames[0]] + Uncaught(frames[1..])) == [frames[0].index] + Indices(Uncaught(frames[1..]));
      FinallyLocsFirst(table, frames[0].index, Indices(Uncaught(frames[1..])));
    }
  }

  // ---------------------------------------------------------------------------------
  // Where the runtime differs

  /** The act comes out other than it should: a jump or the normal end of a statement in a hot finalizer,
      where the throw is sent on once more; the normal end of a statement whose entry remembers something,
      unless that leads to the same place; and the end of a finalizer that a jump through several has run. */
  ghost predicate Slips(table: Table, s: Stage, act: Act)
    requires s.held != [] && |s.memory| == |table| && ActIn(table, act)
  {
    match act.deed
    case Pause(_, _) => false
    case Raise(p) => s.hot && p.Jumping? && !Crosses(table, act.frames, p.to)
    case EndOf(j) =>
      if j == s.held[0].index then s.held[0].pending.Jumping? && Crosses(table, act.frames, s.held[0].pending.to)
      else
        var completion := Took(s.memory, act.takes)[j];
        s.hot || !(completion.Normal? || completion == Jumped(table[j].afterLoc))
  }

  /** At every stage and for every act, the runtime does what nested statements do if and only if the act
      does not slip. */
  lemma {:induction false} SlipsExactly(table: Table, s: Stage, act: Act)
    requires StageOk(table, s) && Apt(table, s, act)
    ensures |s.memory| == |table|
    ensures Does(table, s, act, Runtime) == Does(table, s, act, Rules.Nested) <==> !Slips(table, s, act)
  {
    hide HeldOk, Crosses, Apt, Raised, Lands;
    HeldIs(table, s.held, s.memory);
    AptIs(table, s, act);
    var memory := Took(s.memory, act.takes);
    TookOk(table, s.held, s.memory, act.takes);
    InnermostIs(table, s.held, memory);
    match act.deed {
      case Pause(_, _) =>
      case Raise(p) =>
        if Slips(table, s, act) {
          RaisedOrLands(table, s.held, memory, act.frames, p, p.to);
          RaisedOrLands(table, s.held, memory, act.frames, s.held[0].pending, p.to);
          SameBehind(Taking(s.memory, act.takes), Raised(table, s.held, memory, act.frames, p),
                     Raised(table, s.held, memory, act.frames, s.held[0].pending));
        }
      case EndOf(j) => EndSlips(table, s, act, memory);
    }
  }

  lemma {:induction false} AptIs(table: Table, s: Stage, act: Act)
    requires s.held != [] && Apt(table, s, act)
    ensures ActIn(table, act) &&
            (act.takes.Some? ==> forall k :: 0 <= k < |s.held| ==> s.held[k].index != act.takes.value)
  {
  }

  lemma {:induction false} EndSlips(table: Table, s: Stage, act: Act, memory: seq<Completion>)
    requires s.held != [] && |s.memory| == |table| && ActIn(table, act) && act.deed.EndOf? &&
             memory == Took(s.memory, act.takes)
    requires s.held[0].index < |table| && memory[s.held[0].index] == CompletionOf(s.held[0].pending) &&
             (s.hot ==> s.held[0].pending.Throwing?)
    ensures Does(table, s, act, Runtime) == Does(table, s, act, Rules.Nested) <==> !Slips(table, s, act)
  {
    hide Crosses, Raised, Lands, Does;
    EndIs(table, s, act, Runtime);
    EndIs(table, s, act, Rules.Nested);
    var j := act.deed.index;
    var held := if j == s.held[0].index then s.held[1..] else s.held;
    var memory', events := if memory[j].Thrown? then memory else memory[j := Normal],
                           Taking(s.memory, act.takes) + if memory[j].Thrown? then [] else [Finished(j)];
    var r, n := AtEnd(s, memory, j, Runtime), AtEnd(s, memory, j, Rules.Nested);
    var there, behind := if memory[j].Jumped? then memory[j].to else table[j].afterLoc, table[j].afterLoc;
    var t := if r.Some? then Raised(table, held, memory', act.frames, r.value) else Lands(table, held, memory', there);
    var u := if n.Some? then Raised(table, held, memory', act.frames, n.value) else Lands(table, held, memory', behind);
    assert Does(table, s, act, Runtime) == Behind(events, t) && Does(table, s, act, Rules.Nested) == Behind(events, u);
    SameBehind(events, t, u);
    if n.Some? {
      RaisedOrLands(table, held, memory', act.frames, n.value, there);
    } else if r.Some? {
      RaisedOrLands(table, held, memory', act.frames, r.value, behind);
    } else {
      LandsApart(table, held, memory', there, behind);
    }
  }

  lemma {:induction false} SameBehind(events: seq<Event>, t: Turn, u: Turn)
    ensures Behind(events, t) == Behind(events, u) <==> t == u
  {
    assert (events + t.events)[|events|..] == t.events && (events + u.events)[|events|..] == u.events;
  }

  /** Something raised is told from going on at a place, unless it is a jump that no finalizer is in the way of. */
  lemma {:induction false} RaisedOrLands(table: Table, held: seq<Held>, memory: seq<Completion>, frames: seq<Frame>,
                                         p: Pending, to: nat)
    requires |memory| == |table| && FramesOf(table, frames)
    ensures p.Jumping? && !Crosses(table, frames, p.to) ==>
              Raised(table, held, memory, frames, p) == Lands(table, held, memory, p.to)
    ensures !p.Jumping? || Crosses(table, frames, p.to) ==>
              Raised(table, held, memory, frames, p) != Lands(table, held, memory, to)
  {
    hide FirstFinally, StillIn, StillAt;
  }

  lemma {:induction false} LandsApart(table: Table, held: seq<Held>, memory: seq<Completion>, to: nat, to': nat)
    ensures Lands(table, held, memory, to) == Lands(table, held, memory, to') <==> to == to'
  {
  }

  /** The acts can be those of a body, and none slips. */
  ghost predicate NoSlips(table: Table, s: Stage, acts: seq<Act>)
    requires s.held != [] && |s.memory| == |table|
    decreases |acts|
  {
    acts == [] ||
    (Apt(table, s, acts[0]) && !Slips(table, s, acts[0]) &&
     match Does(table, s, acts[0], Runtime)
     case Stops(_, _) => true
     case Moves(s', _) => NoSlips(table, s', acts[1..]))
  }

  /** When no act slips, the runtime unwinds as the language has it. */
  lemma {:induction false} SameWithoutSlips(table: Table, s: Stage, acts: seq<Act>)
    requires StageOk(table, s) && |s.memory| == |table| && ActsIn(table, acts) && NoSlips(table, s, acts)
    ensures Unwind(table, s, acts, Runtime) == Unwind(table, s, acts, Rules.Nested)
    ensures Quiet(table, s, acts, Runtime) == Quiet(table, s, acts, Rules.Nested) &&
            Ends(table, s, acts, Runtime) == Ends(table, s, acts, Rules.Nested)
    decreases |acts|
  {
    hide HeldOk, Does, Slips, Apt;
    if acts != [] {
      SlipsExactly(table, s, acts[0]);
      DoesOk(table, s, acts[0], Runtime);
      var t := Does(table, s, acts[0], Runtime);
      if t.Moves? {
        SameWithoutSlips(table, t.stage, acts[1..]);
      }
    }
  }

  ghost predicate NoSlipsFrom(table: Table, held: seq<Held>, memory: seq<Completion>, frames: seq<Frame>, p: Pending,
                              acts: seq<Act>)
    requires FramesOf(table, frames) && |memory| == |table|
  {
    var t := Raised(table, held, memory, frames, p);
    t.Moves? ==> NoSlips(table, t.stage, acts)
  }

  lemma {:induction false} SameFrom(table: Table, held: seq<Held>, memory: seq<Completion>, frames: seq<Frame>,
                                    p: Pending, acts: seq<Act>)
    requires HeldOk(table, held, memory) && FramesOf(table, frames) && |memory| == |table| && ActsIn(table, acts)
    requires NoSlipsFrom(table, held, memory, frames, p, acts)
    ensures UnwindFrom(table, held, memory, frames, p, acts, Runtime) ==
            UnwindFrom(table, held, memory, frames, p, acts, Rules.Nested)
  {
    hide HeldOk, NoSlips;
    RaisedOk(table, held, memory, frames, p);
    var t := Raised(table, held, memory, frames, p);
    if t.Moves? {
      SameWithoutSlips(table, t.stage, acts);
    }
  }
}
