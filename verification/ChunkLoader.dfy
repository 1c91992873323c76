/** The chunk loading protocol of the bootstrap: requests, arriving chunks, script events and deferred
    entries, functions `t`, `n`, `i` and `i.e` of the application bundle. */
module ChunkLoader {
  import opened Collections

  type Chunk = string

  /** A chunk not in the status map has never been asked for, or its last request failed. */
  datatype Status = Loaded | Waiting(attempt: nat)

  datatype Failure = Missing | NetworkError | Timeout

  datatype Settled = Pending | Resolved | Rejected(reason: Failure)

  /** One request of a chunk: its promise, and whether the handlers of its script are still set. */
  datatype Attempt = Attempt(chunk: Chunk, promise: Settled, live: bool)

  /** A module to run once the chunks it needs are there. */
  datatype Deferred = Deferred(entry: nat, needs: seq<Chunk>)

  datatype Event =
    | Request(chunk: Chunk)
    | Arrival(chunks: seq<Chunk>, entries: seq<Deferred>)
    | ScriptEvent(attempt: nat, kind: Failure)

  predicate IsLoaded(status: map<Chunk, Status>, c: Chunk) {
    c in status && status[c].Loaded?
  }

  predicate Ready(status: map<Chunk, Status>, d: Deferred) {
    forall i :: 0 <= i < |d.needs| ==> IsLoaded(status, d.needs[i])
  }

  /** Nothing loaded is lost. */
  ghost predicate LoadedKept(status: map<Chunk, Status>, status': map<Chunk, Status>) {
    forall c :: IsLoaded(status, c) ==> IsLoaded(status', c)
  }

  /** No promise that was settled changes, and none changes its chunk. */
  ghost predicate SettledKept(attempts: seq<Attempt>, attempts': seq<Attempt>) {
    |attempts| <= |attempts'| &&
    forall p :: 0 <= p < |attempts| ==>
      attempts'[p].chunk == attempts[p].chunk &&
        (!attempts[p].promise.Pending? ==> attempts'[p].promise == attempts[p].promise)
  }

  /** The entries that can run, in order, and those that cannot. */
  ghost function Runnable(status: map<Chunk, Status>, entries: seq<Deferred>): (r: seq<Deferred>)
    ensures forall d :: d in r ==> Ready(status, d)
  {
    if entries == [] then []
    else
      var init, last := entries[..|entries| - 1], entries[|entries| - 1];
      Runnable(status, init) + if Ready(status, last) then [last] else []
  }

  ghost function Blocked(status: map<Chunk, Status>, entries: seq<Deferred>): (r: seq<Deferred>)
    ensures forall d :: d in r ==> !Ready(status, d)
  {
    if entries == [] then []
    else
      var init, last := entries[..|entries| - 1], entries[|entries| - 1];
      Blocked(status, init) + if Ready(status, last) then [] else [last]
  }

  ghost predicate SameLoaded(status: map<Chunk, Status>, status': map<Chunk, Status>) {
    forall c :: IsLoaded(status, c) <==> IsLoaded(status', c)
  }

  lemma Asked(status: map<Chunk, Status>, attempts: seq<Attempt>, settles: seq<nat>, c: Chunk)
    requires Consistent(status, attempts) && SettledOnce(attempts, settles) && c !in status
    ensures var status', attempts' := status[c := Waiting(|attempts|)], attempts + [Attempt(c, Pending, true)];
            Consistent(status', attempts') && SettledOnce(attempts', settles + [0]) &&
            SameLoaded(status, status') && LoadedKept(status, status') && SettledKept(attempts, attempts')
  {
    var status', attempts' := status[c := Waiting(|attempts|)], attempts + [Attempt(c, Pending, true)];
    forall p | 0 <= p < |attempts'|
      ensures AttemptFits(status', attempts'[p], p)
    {
      assert p < |attempts| ==> AttemptFits(status, attempts[p], p);
    }
  }

  /** A live script belongs to the promise its chunk waits for, or the chunk is there. */
  lemma ScriptEnded(status: map<Chunk, Status>, attempts: seq<Attempt>, settles: seq<nat>, p: nat, kind: Failure)
    requires Consistent(status, attempts) && SettledOnce(attempts, settles) && p < |attempts| && attempts[p].live
    ensures var c := attempts[p].chunk; var ended := attempts[p].(live := false);
            && (attempts[p].promise.Pending? <==> !IsLoaded(status, c))
            && (attempts[p].promise.Pending? ==> c in status && status[c] == Waiting(p))
            && (!attempts[p].promise.Pending? ==>
                Consistent(status, attempts[p := ended]) && SettledOnce(attempts[p := ended], settles))
            && (attempts[p].promise.Pending? ==>
                  var after := attempts[p := ended.(promise := Rejected(kind))];
                  Consistent(status - {c}, after) && SettledOnce(after, settles[p := settles[p] + 1]) &&
                  SameLoaded(status, status - {c}) && LoadedKept(status, status - {c}) && SettledKept(attempts, after))
    ensures SameLoaded(status, status) && LoadedKept(status, status) &&
            SettledKept(attempts, attempts[p := attempts[p].(live := false)])
  {
    assert AttemptFits(status, attempts[p], p);
    forall q | 0 <= q < |attempts| && q != p
      ensures AttemptFits(status, attempts[q], q)
      ensures attempts[p].promise.Pending? ==> AttemptFits(status - {attempts[p].chunk}, attempts[q], q)
    {
      assert AttemptFits(status, attempts[q], q);
    }
  }

  lemma MoreMultiset(s: seq<Deferred>, d: Deferred)
    ensures multiset(s + [d]) == multiset(s) + multiset{d}
  {
  }

  /** The two lists hold the entries, each once. */
  ghost predicate SplitInto(entries: seq<Deferred>, r: seq<Deferred>, b: seq<Deferred>) {
    multiset(r) + multiset(b) == multiset(entries)
  }

  /** Every entry is in one of the two lists. */
  lemma {:induction false} RunnableOrBlocked(status: map<Chunk, Status>, entries: seq<Deferred>)
    ensures SplitInto(entries, Runnable(status, entries), Blocked(status, entries))
  {
    hide Ready, SplitInto, Runnable, Blocked;
    if entries == [] {
      DeferredNone(status, entries, []);
      assert entries[..0] == entries;
      SplitNone(entries, Runnable(status, entries), Blocked(status, entries));
    } else {
      var m := |entries| - 1;
      RunnableOrBlocked(status, entries[..m]);
      DeferredStep(status, entries, m);
      assert entries == entries[..m] + [entries[m]] && entries[..m + 1] == entries;
      OneMore(entries[..m], Runnable(status, entries[..m]), Blocked(status, entries[..m]), entries[m]);
    }
  }

  lemma {:induction false} SplitNone(entries: seq<Deferred>, r: seq<Deferred>, b: seq<Deferred>)
    requires entries == r == b == []
    ensures SplitInto(entries, r, b)
  {
  }

  /** One more entry goes into either list. */
  lemma {:induction false} OneMore(entries: seq<Deferred>, r: seq<Deferred>, b: seq<Deferred>, d: Deferred)
    requires SplitInto(entries, r, b)
    ensures SplitInto(entries + [d], r + [d], b) && SplitInto(entries + [d], r, b + [d])
  {
    MoreMultiset(r, d);
    MoreMultiset(b, d);
    MoreMultiset(entries, d);
  }

  /** Each waiting chunk has one attempt, live and pending; each pending promise is waited for. */
  ghost predicate Consistent(status: map<Chunk, Status>, attempts: seq<Attempt>) {
    && (forall c :: c in status && status[c].Waiting? ==>
          status[c].attempt < |attempts| && attempts[status[c].attempt] == Attempt(c, Pending, true))
    && (forall p :: 0 <= p < |attempts| ==> AttemptFits(status, attempts[p], p))
  }

  ghost predicate AttemptFits(status: map<Chunk, Status>, a: Attempt, p: nat) {
    && (a.promise.Pending? ==> a.chunk in status && status[a.chunk] == Waiting(p) && a.live)
    && (a.promise.Resolved? ==> IsLoaded(status, a.chunk))
    && (a.promise.Rejected? ==> !a.live)
  }

  class Loader {
    var status: map<Chunk, Status>
    var attempts: seq<Attempt>
    ghost var settles: seq<nat>
    var deferred: seq<Deferred>
    var executed: seq<Deferred>
    var instantiated: seq<nat>
    ghost var pushed: seq<Deferred>

    /** Besides consistency: every promise was settled once if at all; nothing that could run is left;
        what was pushed has run or waits, and ran with all it needs loaded; no module ran twice. */
    ghost predicate Valid()
      reads this
    {
      && Consistent(status, attempts)
      && SettledOnce(attempts, settles)
      && (forall d :: d in deferred ==> !Ready(status, d))
      && Accounted()
    }

    ghost predicate Accounted()
      reads this
    {
      && multiset(pushed) == multiset(executed) + multiset(deferred)
      && (forall d :: d in executed ==> Ready(status, d)) && AllRan(executed, instantiated)
      && NoDuplicates(instantiated)
    }

    /** Starts with the chunk that holds the bootstrap itself. */
    constructor (own: Chunk)
      ensures Valid() && status == map[own := Loaded] && attempts == [] && pushed == executed == deferred == []
    {
      status, attempts, settles := map[own := Loaded], [], [];
      deferred, executed, instantiated, pushed := [], [], [], [];
    }

    /** Asks for a chunk; None when it is there already, else the attempt whose promise to wait for. */
    method Ask(c: Chunk) returns (p: Option<nat>)
      requires Valid()
      modifies this`status, this`attempts, this`settles
      ensures Valid() && LoadedKept(old(status), status) && SettledKept(old(attempts), attempts)
      ensures p.None? <==> c in old(status) && old(status)[c] == Loaded
      ensures p.Some? ==>
                c in status && status[c] == Waiting(p.value) && p.value < |attempts| &&
                  attempts[p.value].promise.Pending?
      ensures p.Some? && c in old(status) ==> status == old(status) && attempts == old(attempts)
      ensures p.Some? && c !in old(status) ==>
                p.value == |old(attempts)| && attempts == old(attempts) + [Attempt(c, Pending, true)]
      ensures forall d :: d != c ==>
                (d in status <==> d in old(status)) && (d in status ==> status[d] == old(status)[d])
    {
      if c in status {
        return if status[c].Loaded? then None else Some(status[c].attempt);
      }
      hide Ready, Accounted, Consistent, SettledOnce, LoadedKept;
      Asked(status, attempts, settles, c);
      AccountedSame(status[c := Waiting(|attempts|)]);
      p := Some(|attempts|);
      status := status[c := Waiting(|attempts|)];
      attempts, settles := attempts + [Attempt(c, Pending, true)], settles + [0];
    }

    /** What counts for the deferred entries is which chunks are loaded. */
    lemma AccountedSame(status': map<Chunk, Status>)
      requires SameLoaded(status, status') && Accounted() && forall d :: d in deferred ==> !Ready(status, d)
      ensures forall d :: d in deferred ==> !Ready(status', d)
      ensures forall d :: d in executed ==> Ready(status', d)
      ensures multiset(pushed) == multiset(executed) + multiset(deferred) && AllRan(executed, instantiated) &&
              NoDuplicates(instantiated)
    {
    }

    /** The script of an attempt reports its end, by load, error or timeout; only the first report
        counts. If the chunk did not arrive in time, its promise is rejected and it may be asked for again. */
    method ScriptEnds(p: nat, kind: Failure)
      requires Valid() && p < |attempts|
      modifies this`status, this`attempts, this`settles
      ensures Valid() && LoadedKept(old(status), status) && SettledKept(old(attempts), attempts)
      ensures !old(attempts)[p].live ==> status == old(status) && attempts == old(attempts)
      ensures old(attempts)[p].live ==> attempts == old(attempts)[p := attempts[p]] && !attempts[p].live
      ensures old(attempts)[p].live && old(attempts)[p].promise.Pending? ==>
                attempts[p].promise == Rejected(kind) && status == old(status) - {attempts[p].chunk}
      ensures !old(attempts)[p].promise.Pending? ==>
                attempts[p].promise == old(attempts)[p].promise && status == old(status)
    {
      if !attempts[p].live {
        return;
      }
      hide Ready, Accounted, Consistent, SettledOnce, LoadedKept;
      ScriptEnded(status, attempts, settles, p, kind);
      AccountedSame(status);
      if attempts[p].promise.Pending? {
        AccountedSame(status - {attempts[p].chunk});
      }
      var c := attempts[p].chunk;
      attempts := attempts[p := attempts[p].(live := false)];
      if !IsLoaded(status, c) {
        if c in status {
          var q := status[c].attempt;
          attempts := attempts[q := attempts[q].(promise := Rejected(kind))];
          settles := settles[q := settles[q] + 1];
        }
        status := status - {c};
      }
    }

    /** Runs a module unless it has run. */
    method Require(m: nat)
      requires NoDuplicates(instantiated)
      modifies this`instantiated
      ensures NoDuplicates(instantiated)
      ensures instantiated == if m in old(instantiated) then old(instantiated) else old(instantiated) + [m]
    {
      hide AllRan;
      if m !in instantiated {
        instantiated := instantiated + [m];
      }
    }

    /** What Valid says of the two lists: entries ran with all their chunks loaded, each module once, and
        those that are left lack a chunk. */
    lemma ListsMean()
      requires Valid()
      ensures forall d, c :: d in executed && c in d.needs ==> c in status && status[c] == Loaded
      ensures forall d :: d in deferred ==> exists c :: c in d.needs && (c !in status || status[c] != Loaded)
      ensures forall d :: d in executed ==> d.entry in instantiated
      ensures forall i, j :: 0 <= i < j < |instantiated| ==> instantiated[i] != instantiated[j]
    {
      hide Consistent, SettledOnce;
    }

    /** Runs every deferred entry that has all its chunks, in order, and takes it off the list: ran and
        left are the places of the entries in the list before. */
    method RunDeferred() returns (ghost ran: seq<nat>, ghost left: seq<nat>)
      requires NoDuplicates(instantiated)
      modifies this`deferred, this`executed, this`instantiated
      ensures NoDuplicates(instantiated)
      ensures PassedThrough(status, old(deferred), old(executed), executed, deferred, ran, left)
      ensures deferred == Blocked(status, old(deferred)) && executed == old(executed) + Runnable(status, old(deferred))
      ensures old(instantiated) <= instantiated && AllRan(Runnable(status, old(deferred)), instantiated)
    {
      hide Ready, Runnable, Blocked, AllRan, NoDuplicates, PassedThrough;
      ghost var all, m := deferred, 0;
      DeferredNone(status, all, instantiated);
      var t := 0;
      while t < |deferred|
        invariant m <= |all| && t == |Blocked(status, all[..m])| && deferred == Blocked(status, all[..m]) + all[m..]
        invariant executed == old(executed) + Runnable(status, all[..m])
        invariant NoDuplicates(instantiated)
        invariant old(instantiated) <= instantiated && AllRan(Runnable(status, all[..m]), instantiated)
        decreases |all| - m
      {
        DeferredStep(status, all, m);
        Spliced(Blocked(status, all[..m]), all, m);
        var d := deferred[t];
        RanMore(Runnable(status, all[..m]), d, instantiated);
        if Ready(status, d) {
          deferred := deferred[..t] + deferred[t + 1..];
          executed := executed + [d];
          Require(d.entry);
        } else {
          t := t + 1;
        }
        m := m + 1;
      }
      assert all[..m] == all;
      ran, left := PassMeans(status, all, old(executed), executed, deferred);
    }

    /** Marks the chunks as loaded, and gathers the attempts that were waiting for them. */
    method Install(chunks: seq<Chunk>) returns (waiting: seq<nat>)
      requires Consistent(status, attempts)
      modifies this`status
      ensures status == Marked(old(status), chunks)
      ensures forall i :: 0 <= i < |waiting| ==>
                waiting[i] < |attempts| && attempts[waiting[i]].promise.Pending? && attempts[waiting[i]].chunk in chunks
      ensures forall p :: 0 <= p < |attempts| && attempts[p].promise.Pending? && attempts[p].chunk in chunks ==>
                p in waiting
      ensures NoDuplicates(waiting)
    {
      waiting := [];
      for l := 0 to |chunks|
        invariant status == Marked(old(status), chunks[..l])
        invariant Gathered(old(status), attempts, chunks[..l], waiting)
      {
        var c := chunks[l];
        assert chunks[..l + 1] == chunks[..l] + [c];
        MarkedMeans(old(status), chunks[..l]);
        GatherStep(old(status), attempts, chunks[..l], waiting, c);
        if c in status && status[c].Waiting? {
          waiting := waiting + [status[c].attempt];
        }
        status := status[c := Loaded];
      }
      assert chunks[..|chunks|] == chunks;
      GatheredMeans(old(status), attempts, chunks, waiting);
    }

    /** Resolves the promises gathered. */
    method ResolveAll(waiting: seq<nat>)
      requires SettledOnce(attempts, settles) && NoDuplicates(waiting)
      requires forall i :: 0 <= i < |waiting| ==> waiting[i] < |attempts| && attempts[waiting[i]].promise.Pending?
      modifies this`attempts, this`settles
      ensures SettledOnce(attempts, settles) && |attempts| == |old(attempts)|
      ensures forall p :: 0 <= p < |attempts| ==>
                attempts[p] == if p in waiting then old(attempts)[p].(promise := Resolved) else old(attempts)[p]
    {
      for i := 0 to |waiting|
        invariant SettledOnce(attempts, settles) && |attempts| == |old(attempts)|
        invariant forall p :: 0 <= p < |attempts| ==>
                    attempts[p] == if p in waiting[..i] then old(attempts)[p].(promise := Resolved)
                      else old(attempts)[p]
      {
        var p := waiting[i];
        assert p !in waiting[..i];
        assert waiting[..i + 1] == waiting[..i] + [p];
        attempts := attempts[p := attempts[p].(promise := Resolved)];
        settles := settles[p := settles[p] + 1];
      }
      assert waiting[..|waiting|] == waiting;
    }

    /** A chunk file has arrived: its chunks are loaded, whoever waited for them is told, even after
        an earlier request of them failed, and what can run now runs. */
    method Arrive(chunks: seq<Chunk>, entries: seq<Deferred>)
      requires Valid()
      modifies this
      ensures Valid() && LoadedKept(old(status), status) && SettledKept(old(attempts), attempts)
      ensures status == Marked(old(status), chunks) && |attempts| == |old(attempts)|
      ensures forall c :: c in chunks ==> c in status && status[c] == Loaded
      ensures forall c :: c !in chunks ==>
                (c in status <==> c in old(status)) && (c in status ==> status[c] == old(status)[c])
      ensures forall p :: 0 <= p < |attempts| ==>
                attempts[p] == if old(attempts)[p].promise.Pending? && old(attempts)[p].chunk in chunks
                  then old(attempts)[p].(promise := Resolved) else old(attempts)[p]
      ensures forall d, c :: d in executed && c in d.needs ==> c in status && status[c] == Loaded
      ensures forall d :: d in deferred ==> exists c :: c in d.needs && (c !in status || status[c] != Loaded)
      ensures pushed == old(pushed) + entries
      ensures deferred == Blocked(status, old(deferred) + entries) &&
              executed == old(executed) + Runnable(status, old(deferred) + entries)
    {
      hide Ready, Runnable, Blocked, AllRan, NoDuplicates, Marked, SettledOnce, Consistent, LoadedKept;
      ghost var attempts0 := attempts;
      var waiting := Install(chunks);
      ResolveAll(waiting);
      Arrived(old(status), status, attempts0, attempts, chunks, waiting);
      deferred, pushed := deferred + entries, pushed + entries;
      ghost var list := deferred;
      ghost var _, _ := RunDeferred();
      AfterRun(old(status), list, old(deferred), entries, old(executed), old(pushed), old(instantiated));
      ListsMean();
      MarkedMeans(old(status), chunks);
    }

    /** Any run of the protocol, in any order of events: what is loaded stays loaded, what is settled
        stays as it is, and the invariant holds at the end. */
    method Run(events: seq<Event>)
      requires Valid()
      modifies this
      ensures Valid() && LoadedKept(old(status), status) && SettledKept(old(attempts), attempts)
      ensures old(pushed) <= pushed && old(executed) <= executed
      ensures multiset(pushed) == multiset(executed) + multiset(deferred)
      ensures forall d, c :: d in executed && c in d.needs ==> c in status && status[c] == Loaded
      ensures forall d :: d in deferred ==> exists c :: c in d.needs && (c !in status || status[c] != Loaded)
      ensures forall d :: d in executed ==> d.entry in instantiated
      ensures forall i, j :: 0 <= i < j < |instantiated| ==> instantiated[i] != instantiated[j]
      ensures forall c :: c in old(status) && old(status)[c] == Loaded ==> c in status && status[c] == Loaded
      ensures |old(attempts)| <= |attempts| && forall p :: 0 <= p < |old(attempts)| ==>
                attempts[p].chunk == old(attempts)[p].chunk &&
                (old(attempts)[p].promise != Pending ==> attempts[p].promise == old(attempts)[p].promise)
    {
      hide Ready, Runnable, Blocked, AllRan, NoDuplicates, Marked, SettledOnce, Consistent, LoadedKept, SettledKept,
           Accounted, Valid;
      KeptSame(status, attempts);
      for i := 0 to |events|
        invariant Valid() && LoadedKept(old(status), status) && SettledKept(old(attempts), attempts)
        invariant old(pushed) <= pushed && old(executed) <= executed
      {
        ghost var status0, attempts0 := status, attempts;
        match events[i] {
          case Request(c) => var _ := Ask(c);
          case Arrival(chunks, entries) => Arrive(chunks, entries);
          case ScriptEvent(p, kind) =>
            KeptSame(status, attempts);
            if p < |attempts| {
              ScriptEnds(p, kind);
            }
        }
        KeptOn(old(status), status0, status, old(attempts), attempts0, attempts);
      }
      ListsMean();
      KeptMeans(old(status), status, old(attempts), attempts);
      PushedAre();
    }

    lemma PushedAre()
      requires Valid()
      ensures multiset(pushed) == multiset(executed) + multiset(deferred)
    {
    }

    lemma {:induction false} AfterRun(status0: map<Chunk, Status>, list: seq<Deferred>, deferred0: seq<Deferred>,
                                      entries: seq<Deferred>, executed0: seq<Deferred>, pushed0: seq<Deferred>,
                                      instantiated0: seq<nat>)
      requires LoadedKept(status0, status) && list == deferred0 + entries && pushed == pushed0 + entries
      requires deferred == Blocked(status, list) && executed == executed0 + Runnable(status, list)
      requires multiset(pushed0) == multiset(executed0) + multiset(deferred0)
      requires (forall d :: d in executed0 ==> Ready(status0, d)) && AllRan(executed0, instantiated0) &&
               instantiated0 <= instantiated
      requires AllRan(Runnable(status, list), instantiated) && NoDuplicates(instantiated)
      ensures Accounted() && forall d :: d in deferred ==> !Ready(status, d)
    {
      hide Ready, Runnable, Blocked, AllRan, NoDuplicates;
      var ran := Runnable(status, list);
      RunnableOrBlocked(status, list);
      RanConcat(executed0, instantiated0, ran, instantiated);
      assert multiset(executed) == multiset(executed0) + multiset(ran);
      assert multiset(list) == multiset(deferred0) + multiset(entries);
      Regrouped(multiset(executed0), multiset(deferred0), multiset(entries), multiset(ran), multiset(deferred));
      forall d | d in executed
        ensures Ready(status, d)
      {
        if d in executed0 {
          KeptReady(status0, status, d);
        }
      }
    }
  }

  lemma {:induction false} DeferredStep(status: map<Chunk, Status>, entries: seq<Deferred>, m: nat)
    requires m < |entries|
    ensures var r, b := Runnable(status, entries[..m]), Blocked(status, entries[..m]);
            if Ready(status, entries[m]) then
              Runnable(status, entries[..m + 1]) == r + [entries[m]] && Blocked(status, entries[..m + 1]) == b
            else
              Runnable(status, entries[..m + 1]) == r && Blocked(status, entries[..m + 1]) == b + [entries[m]]
  {
    assert entries[..m + 1][..m] == entries[..m];
  }

  /** At the places of one list are the entries that can run, at those of the other one the others. */
  ghost predicate Divided(status: map<Chunk, Status>, entries: seq<Deferred>, ran: seq<nat>, left: seq<nat>) {
    forall i: nat :: (i in ran <==> i < |entries| && Ready(status, entries[i])) &&
                     (i in left <==> i < |entries| && !Ready(status, entries[i]))
  }

  /** The places of the entries that can run and of those that cannot, in order. */
  lemma {:induction false} InOrder(status: map<Chunk, Status>, entries: seq<Deferred>)
    returns (ran: seq<nat>, left: seq<nat>)
    ensures Divided(status, entries, ran, left)
    ensures Picked(entries, ran, Runnable(status, entries)) && Picked(entries, left, Blocked(status, entries))
  {
    hide Ready, Picked, Divided, Runnable, Blocked;
    if entries == [] {
      ran, left := [], [];
      DeferredNone(status, entries, []);
      assert entries[..0] == entries;
      PickedNone<Deferred>();
      DividedNone(status);
    } else {
      var m := |entries| - 1;
      var init, last := entries[..m], entries[m];
      ran, left := InOrder(status, init);
      DeferredStep(status, entries, m);
      assert entries[..m + 1] == entries == init + [last];
      PickedMore(init, ran, Runnable(status, init), last);
      PickedMore(init, left, Blocked(status, init), last);
      DividedMore(status, init, ran, left, last);
      if Ready(status, last) {
        ran := ran + [m];
      } else {
        left := left + [m];
      }
    }
  }

  lemma DividedNone(status: map<Chunk, Status>)
    ensures Divided(status, [], [], [])
  {
  }

  lemma DividedMore(status: map<Chunk, Status>, entries: seq<Deferred>, ran: seq<nat>, left: seq<nat>, d: Deferred)
    requires Divided(status, entries, ran, left)
    ensures Ready(status, d) ==> Divided(status, entries + [d], ran + [|entries|], left)
    ensures !Ready(status, d) ==> Divided(status, entries + [d], ran, left + [|entries|])
  {
    hide Ready;
    assert forall i: nat :: i < |entries| ==> (entries + [d])[i] == entries[i];
  }

  lemma DividedMeans(status: map<Chunk, Status>, entries: seq<Deferred>, ran: seq<nat>, left: seq<nat>)
    requires Divided(status, entries, ran, left)
    ensures forall i :: 0 <= i < |entries| ==>
              (i in ran <==> forall c :: c in entries[i].needs ==> c in status && status[c] == Loaded) &&
              (i in left <==> exists c :: c in entries[i].needs && (c !in status || status[c] != Loaded))
  {
    hide Ready;
    forall i | 0 <= i < |entries|
      ensures i in ran <==> forall c :: c in entries[i].needs ==> c in status && status[c] == Loaded
      ensures i in left <==> exists c :: c in entries[i].needs && (c !in status || status[c] != Loaded)
    {
      ReadyMeans(status, entries[i]);
    }
  }

  /** A pass through the list: what stood at the places ran, where all chunks needed are loaded, has been executed
      in this order, and what stood at the others, where some chunk is not, is left in this order. */
  ghost predicate PassedThrough(status: map<Chunk, Status>, all: seq<Deferred>, executed0: seq<Deferred>,
                                executed: seq<Deferred>, deferred: seq<Deferred>, ran: seq<nat>, left: seq<nat>)
  {
    && (forall i :: 0 <= i < |all| ==>
        (i in ran <==> forall c :: c in all[i].needs ==> c in status && status[c] == Loaded) &&
        (i in left <==> exists c :: c in all[i].needs && (c !in status || status[c] != Loaded)))
    && (forall j, k :: 0 <= j < k < |ran| ==> ran[j] < ran[k])
    && (forall j, k :: 0 <= j < k < |left| ==> left[j] < left[k])
    && |executed| == |executed0| + |ran| && executed[..|executed0|] == executed0
    && (forall j :: 0 <= j < |ran| ==> ran[j] < |all| && executed[|executed0| + j] == all[ran[j]])
    && |deferred| == |left| && forall j :: 0 <= j < |left| ==> left[j] < |all| && deferred[j] == all[left[j]]
  }

  lemma {:induction false} PassMeans(status: map<Chunk, Status>, all: seq<Deferred>, executed0: seq<Deferred>,
                                     executed: seq<Deferred>, deferred: seq<Deferred>)
    returns (ran: seq<nat>, left: seq<nat>)
    requires executed == executed0 + Runnable(status, all) && deferred == Blocked(status, all)
    ensures PassedThrough(status, all, executed0, executed, deferred, ran, left)
  {
    hide Runnable, Blocked, Picked, Divided;
    ran, left := InOrder(status, all);
    DividedMeans(status, all, ran, left);
    PickedMeans(all, ran, Runnable(status, all));
    PickedMeans(all, left, Blocked(status, all));
  }

  lemma ReadyMeans(status: map<Chunk, Status>, d: Deferred)
    ensures Ready(status, d) <==> forall c :: c in d.needs ==> c in status && status[c] == Loaded
    ensures Ready(status, d) <==> !exists c :: c in d.needs && (c !in status || status[c] != Loaded)
  {
  }

  lemma KeptSame(status: map<Chunk, Status>, attempts: seq<Attempt>)
    ensures LoadedKept(status, status) && SettledKept(attempts, attempts)
  {
  }

  lemma KeptOn(s0: map<Chunk, Status>, s1: map<Chunk, Status>, s2: map<Chunk, Status>, a0: seq<Attempt>,
               a1: seq<Attempt>, a2: seq<Attempt>)
    requires LoadedKept(s0, s1) && LoadedKept(s1, s2) && SettledKept(a0, a1) && SettledKept(a1, a2)
    ensures LoadedKept(s0, s2) && SettledKept(a0, a2)
  {
  }

  lemma KeptMeans(s0: map<Chunk, Status>, s1: map<Chunk, Status>, a0: seq<Attempt>, a1: seq<Attempt>)
    requires LoadedKept(s0, s1) && SettledKept(a0, a1)
    ensures forall c :: c in s0 && s0[c] == Loaded ==> c in s1 && s1[c] == Loaded
    ensures |a0| <= |a1| && forall p :: 0 <= p < |a0| ==>
              a1[p].chunk == a0[p].chunk && (a0[p].promise != Pending ==> a1[p].promise == a0[p].promise)
  {
    assert forall c :: c in s0 && s0[c] == Loaded ==> IsLoaded(s0, c);
  }

  lemma KeptReady(status: map<Chunk, Status>, status': map<Chunk, Status>, d: Deferred)
    requires LoadedKept(status, status') && Ready(status, d)
    ensures Ready(status', d)
  {
  }

  /** The chunks marked as loaded, in any state they were in. */
  ghost function Marked(status: map<Chunk, Status>, chunks: seq<Chunk>): map<Chunk, Status> {
    if chunks == [] then status else Marked(status, chunks[..|chunks| - 1])[chunks[|chunks| - 1] := Loaded]
  }

  lemma {:induction false} MarkedMeans(status: map<Chunk, Status>, chunks: seq<Chunk>)
    ensures forall c :: c in Marked(status, chunks) <==> c in status || c in chunks
    ensures forall c :: c in chunks ==> Marked(status, chunks)[c] == Loaded
    ensures forall c :: c in status && c !in chunks ==> Marked(status, chunks)[c] == status[c]
  {
    if chunks != [] {
      var init, last := chunks[..|chunks| - 1], chunks[|chunks| - 1];
      MarkedMeans(status, init);
      assert chunks == init + [last];
    }
  }

  ghost predicate AllRan(entries: seq<Deferred>, instantiated: seq<nat>) {
    forall i :: 0 <= i < |entries| ==> entries[i].entry in instantiated
  }

  lemma RanMore(entries: seq<Deferred>, d: Deferred, instantiated: seq<nat>)
    requires AllRan(entries, instantiated)
    ensures AllRan(entries, instantiated + [d.entry])
    ensures AllRan(entries + [d], instantiated + [d.entry])
    ensures d.entry in instantiated ==> AllRan(entries + [d], instantiated)
  {
  }

  lemma RanConcat(a: seq<Deferred>, instantiated0: seq<nat>, b: seq<Deferred>, instantiated: seq<nat>)
    requires AllRan(a, instantiated0) && AllRan(b, instantiated) && instantiated0 <= instantiated
    ensures AllRan(a + b, instantiated)
  {
    forall i | 0 <= i < |a + b|
      ensures (a + b)[i].entry in instantiated
    {
      if i < |a| {
        var k :| 0 <= k < |instantiated0| && instantiated0[k] == a[i].entry;
        assert instantiated[k] == a[i].entry;
      }
    }
  }

  lemma Regrouped(e: multiset<Deferred>, d: multiset<Deferred>, more: multiset<Deferred>, ran: multiset<Deferred>,
                  left: multiset<Deferred>)
    requires ran + left == d + more
    ensures (e + d) + more == (e + ran) + left
  {
    assert (e + d) + more == e + (d + more);
    assert (e + ran) + left == e + (ran + left);
  }

  lemma {:induction false} DeferredNone(status: map<Chunk, Status>, entries: seq<Deferred>, instantiated: seq<nat>)
    ensures Runnable(status, entries[..0]) == [] == Blocked(status, entries[..0]) && AllRan([], instantiated)
  {
  }

  /** Taking the entry at t off the list, or leaving it. */
  lemma Spliced(kept: seq<Deferred>, all: seq<Deferred>, m: nat)
    requires m < |all|
    ensures var list := kept + all[m..]; var t := |kept|;
            list[t] == all[m] && list[..t] + list[t + 1..] == kept + all[m + 1..] &&
              list == (kept + [all[m]]) + all[m + 1..]
  {
  }

  ghost predicate SettledOnce(attempts: seq<Attempt>, settles: seq<nat>) {
    |settles| == |attempts| && forall p :: 0 <= p < |attempts| ==>
      settles[p] == if attempts[p].promise.Pending? then 0 else 1
  }

  /** The attempts waiting, before, for the chunks marked so far. */
  ghost predicate Gathered(status0: map<Chunk, Status>, attempts: seq<Attempt>, chunks: seq<Chunk>, waiting: seq<nat>) {
    && (forall i :: 0 <= i < |waiting| ==> WaitedFor(status0, attempts, chunks, waiting[i]))
    && (forall c :: c in chunks && c in status0 && status0[c].Waiting? ==> status0[c].attempt in waiting)
    && NoDuplicates(waiting)
  }

  ghost predicate WaitedFor(status0: map<Chunk, Status>, attempts: seq<Attempt>, chunks: seq<Chunk>, p: nat) {
    p < |attempts| && attempts[p].chunk in chunks && attempts[p].chunk in status0 &&
      status0[attempts[p].chunk] == Waiting(p)
  }

  lemma GatherStep(status0: map<Chunk, Status>, attempts: seq<Attempt>, chunks: seq<Chunk>, waiting: seq<nat>, c: Chunk)
    requires Consistent(status0, attempts) && Gathered(status0, attempts, chunks, waiting)
    ensures c in status0 && status0[c].Waiting? && c !in chunks ==>
              Gathered(status0, attempts, chunks + [c], waiting + [status0[c].attempt])
    ensures !(c in status0 && status0[c].Waiting? && c !in chunks) ==>
              Gathered(status0, attempts, chunks + [c], waiting)
  {
  }

  lemma GatheredMeans(status0: map<Chunk, Status>, attempts: seq<Attempt>, chunks: seq<Chunk>, waiting: seq<nat>)
    requires Consistent(status0, attempts) && Gathered(status0, attempts, chunks, waiting)
    ensures forall i :: 0 <= i < |waiting| ==>
              waiting[i] < |attempts| && attempts[waiting[i]].promise.Pending? && attempts[waiting[i]].chunk in chunks
    ensures forall p :: 0 <= p < |attempts| && attempts[p].promise.Pending? && attempts[p].chunk in chunks ==>
              p in waiting
  {
    forall i | 0 <= i < |waiting|
      ensures waiting[i] < |attempts| && attempts[waiting[i]].promise.Pending? && attempts[waiting[i]].chunk in chunks
    {
      assert WaitedFor(status0, attempts, chunks, waiting[i]);
    }
    forall p | 0 <= p < |attempts| && attempts[p].promise.Pending? && attempts[p].chunk in chunks
      ensures p in waiting
    {
      assert AttemptFits(status0, attempts[p], p);
    }
  }

  /** The protocol stays consistent when chunks arrive. */
  lemma {:induction false} Arrived(status0: map<Chunk, Status>, status: map<Chunk, Status>, attempts0: seq<Attempt>,
                                   attempts: seq<Attempt>, chunks: seq<Chunk>, waiting: seq<nat>)
    requires Consistent(status0, attempts0) && status == Marked(status0, chunks) && |attempts| == |attempts0|
    requires forall i :: 0 <= i < |waiting| ==>
               waiting[i] < |attempts| && attempts0[waiting[i]].promise.Pending? &&
                 attempts0[waiting[i]].chunk in chunks
    requires forall p :: 0 <= p < |attempts| && attempts0[p].promise.Pending? && attempts0[p].chunk in chunks ==>
               p in waiting
    requires forall p :: 0 <= p < |attempts| ==>
               attempts[p] == if p in waiting then attempts0[p].(promise := Resolved) else attempts0[p]
    ensures Consistent(status, attempts) && LoadedKept(status0, status) && SettledKept(attempts0, attempts)
    ensures forall p :: 0 <= p < |attempts| ==>
              attempts[p] == if attempts0[p].promise.Pending? && attempts0[p].chunk in chunks
                then attempts0[p].(promise := Resolved) else attempts0[p]
  {
    MarkedMeans(status0, chunks);
    forall p | 0 <= p < |attempts|
      ensures attempts[p] ==
              if attempts0[p].promise.Pending? && attempts0[p].chunk in chunks then attempts0[p].(promise := Resolved)
                else attempts0[p]
      ensures AttemptFits(status, attempts[p], p)
    {
      assert AttemptFits(status0, attempts0[p], p);
    }
  }
}
