/** Try tables of compiled generators (module "96cf"), and the statements around a location. */
module GeneratorTable {
  import opened Collections

  datatype Value = Undefined | Given(id: int)

  datatype Loc = At(n: nat) | End

  /** One try statement: where it starts, its handlers, and where to go on after its finalizer. */
  datatype Entry = Entry(tryLoc: nat, catchLoc: Option<nat>, finallyLoc: Option<nat>, afterLoc: nat) {

    ghost predicate Valid() {
      && (catchLoc.Some? || finallyLoc.Some?)
      && (catchLoc.Some? ==> tryLoc < catchLoc.value)
      && (finallyLoc.Some? ==> tryLoc < finallyLoc.value < afterLoc)
      && (catchLoc.Some? && finallyLoc.Some? ==> catchLoc.value < finallyLoc.value)
    }

    /** p is in the try block, and there is a catch block for it. */
    predicate InTry(p: nat) {
      tryLoc <= p && catchLoc.Some? && p < catchLoc.value
    }

    /** p is in the try block or the catch block, and there is a finalizer for it. */
    predicate BeforeFinally(p: nat) {
      tryLoc <= p && finallyLoc.Some? && p < finallyLoc.value
    }

    /** A jump to this place stays in the statement, and needs none of its finalizer. */
    predicate Contains(to: nat) {
      finallyLoc.Some? && tryLoc <= to <= finallyLoc.value
    }

    predicate Live(p: nat) {
      InTry(p) || BeforeFinally(p)
    }

    /** The end of the statement, as far as the table tells. */
    function Last(): nat {
      if finallyLoc.Some? then afterLoc else if catchLoc.Some? then catchLoc.value else tryLoc
    }
  }

  type Table = seq<Entry>

  /** The inner statement lies on one side of the boundary. */
  ghost predicate OnOneSide(inner: Entry, boundary: Option<nat>) {
    boundary.Some? ==> inner.tryLoc >= boundary.value || inner.Last() <= boundary.value
  }

  /** Statements in order of their starts; later ones lie within one block of earlier ones, or behind. */
  ghost predicate WellNested(table: Table) {
    && (forall i :: 0 <= i < |table| ==> table[i].Valid())
    && (forall i, j :: 0 <= i < j < |table| ==> Nested(table[i], table[j]))
  }

  ghost predicate Nested(outer: Entry, inner: Entry) {
    outer.tryLoc < inner.tryLoc && OnOneSide(inner, outer.catchLoc) && OnOneSide(inner, outer.finallyLoc)
  }

  // ---------------------------------------------------------------------------------
  // Statements around a location

  /** A statement whose try or catch block one is in. */
  datatype Frame = Frame(index: nat, inTry: bool)

  /** Frames name statements with the handler that is live. */
  ghost predicate FramesOf(table: Table, frames: seq<Frame>) {
    forall k :: 0 <= k < |frames| ==>
      && frames[k].index < |table|
      && if frames[k].inTry then table[frames[k].index].catchLoc.Some? else table[frames[k].index].finallyLoc.Some?
  }

  /** The statements with a live handler at p among the first n, innermost first. */
  ghost function Frames(table: Table, n: nat, p: nat): (r: seq<Frame>)
    requires n <= |table|
    ensures forall k :: 0 <= k < |r| ==>
              r[k].index < n && table[r[k].index].Live(p) && r[k].inTry == table[r[k].index].InTry(p)
    ensures FramesOf(table, r)
  {
    if n == 0 then []
    else (if table[n - 1].Live(p) then [Frame(n - 1, table[n - 1].InTry(p))] else []) + Frames(table, n - 1, p)
  }

  /** What an inner handler guards, an outer one around it guards too. */
  lemma {:induction false} OuterGuards(outer: Entry, inner: Entry, p: nat, q: nat)
    requires outer.Valid() && inner.Valid() && Nested(outer, inner)
    requires outer.Live(p) && inner.Live(p) && inner.Live(q)
    ensures outer.Live(q)
  {
  }

  lemma {:induction false} FramesUnfold(table: Table, n: nat, p: nat)
    requires 0 < n <= |table|
    ensures Frames(table, n, p) ==
            if table[n - 1].Live(p) then [Frame(n - 1, table[n - 1].InTry(p))] + Frames(table, n - 1, p)
              else Frames(table, n - 1, p)
  {
    hide FramesOf;
    assert [] + Frames(table, n - 1, p) == Frames(table, n - 1, p);
  }

  /** The outer statement starts before the inner one, and guards what that guards. */
  ghost predicate Guards(table: Table, outer: nat, inner: nat) {
    outer < inner < |table| && forall q: nat :: table[inner].Live(q) ==> table[outer].Live(q)
  }

  ghost predicate Chain(table: Table, frames: seq<Frame>) {
    forall k, l :: 0 <= k < l < |frames| ==> Guards(table, frames[l].index, frames[k].index)
  }

  /** The statements around a location are nested, innermost first. */
  lemma {:induction false} InnermostFirst(table: Table, n: nat, p: nat)
    requires WellNested(table) && n <= |table|
    ensures Chain(table, Frames(table, n, p))
  {
    if n > 0 {
      var rest := Frames(table, n - 1, p);
      InnermostFirst(table, n - 1, p);
      FramesUnfold(table, n, p);
      hide Guards, WellNested, Entry.Live, Entry.InTry, Frames, FramesOf;
      if table[n - 1].Live(p) {
        forall l | 0 <= l < |rest|
          ensures Guards(table, rest[l].index, n - 1)
        {
          TopGuards(table, rest[l].index, n - 1, p);
        }
        ChainCons(table, Frame(n - 1, table[n - 1].InTry(p)), rest);
      }
    }
  }

  lemma {:induction false} ChainCons(table: Table, top: Frame, rest: seq<Frame>)
    requires Chain(table, rest) && forall l :: 0 <= l < |rest| ==> Guards(table, rest[l].index, top.index)
    ensures Chain(table, [top] + rest)
  {
    hide Guards;
    var f := [top] + rest;
    forall k, l | 0 <= k < l < |f|
      ensures Guards(table, f[l].index, f[k].index)
    {
      assert f[l] == rest[l - 1];
      if k > 0 {
        assert f[k] == rest[k - 1];
      }
    }
  }

  lemma {:induction false} TopGuards(table: Table, i: nat, j: nat, p: nat)
    requires WellNested(table) && i < j < |table| && table[i].Live(p) && table[j].Live(p)
    ensures Guards(table, i, j)
  {
    assert Nested(table[i], table[j]);
    hide WellNested;
    forall q: nat | table[j].Live(q)
      ensures table[i].Live(q)
    {
      OuterGuards(table[i], table[j], p, q);
    }
  }

  predicate InFinally(table: Table, i: nat, q: nat) {
    i < |table| && table[i].finallyLoc.Some? && table[i].finallyLoc.value <= q < table[i].afterLoc
  }

  /** Statement j is in the finalizer of statement i. */
  predicate NestedIn(table: Table, j: nat, i: nat) {
    i < j < |table| && InFinally(table, i, table[j].tryLoc)
  }

  /** q is in the finalizer of entry i, and not in a block of a statement within it. */
  ghost predicate InFinalizer(table: Table, i: nat, q: nat) {
    && InFinally(table, i, q)
    && forall j :: i < j < |table| && table[j].tryLoc >= table[i].finallyLoc.value ==> !table[j].Live(q)
  }

  ghost predicate Within(e: Entry, p: nat) {
    e.tryLoc <= p < e.Last()
  }

  /** All places of a statement have the same statements around it. */
  lemma {:induction false} OuterSame(table: Table, i: nat, p: nat, q: nat, n: nat)
    requires WellNested(table) && n <= i < |table| && Within(table[i], p) && Within(table[i], q)
    ensures Frames(table, n, q) == Frames(table, n, p)
  {
    if n > 0 {
      OuterSame(table, i, p, q, n - 1);
      assert Nested(table[n - 1], table[i]);
      assert table[n - 1].Live(p) == table[n - 1].Live(q) && table[n - 1].InTry(p) == table[n - 1].InTry(q);
    }
  }

  lemma {:induction false} InnerGone(table: Table, i: nat, q: nat, n: nat)
    requires WellNested(table) && i <= n <= |table| && InFinalizer(table, i, q)
    ensures Frames(table, n, q) == Frames(table, i, q)
  {
    if n > i {
      InnerGone(table, i, q, n - 1);
      assert n - 1 > i ==> Nested(table[i], table[n - 1]);
      assert !table[n - 1].Live(q);
    }
  }

  lemma {:induction false} FramesBelow(table: Table, n: nat, p: nat, k: nat)
    requires n <= |table| && k < |Frames(table, n, p)|
    ensures Frames(table, Frames(table, n, p)[k].index, p) == Frames(table, n, p)[k + 1..]
  {
    assert n > 0;
    hide Frames, FramesOf, Entry.Live, Entry.InTry;
    FramesUnfold(table, n, p);
    var f, rest := Frames(table, n, p), Frames(table, n - 1, p);
    if !table[n - 1].Live(p) {
      FramesBelow(table, n - 1, p, k);
    } else if k == 0 {
      assert f[1..] == rest;
    } else {
      FramesBelow(table, n - 1, p, k - 1);
      assert f[k + 1..] == rest[k..];
    }
  }

  /** The statements around statement i. */
  ghost function Around(table: Table, i: nat): seq<Frame>
    requires i < |table|
  {
    Frames(table, i, table[i].tryLoc)
  }

  /** In the finalizer of a statement, what is left is what lies around that statement. */
  lemma {:induction false} FramesInFinalizer(table: Table, i: nat, q: nat)
    requires WellNested(table) && InFinalizer(table, i, q)
    ensures Frames(table, |table|, q) == Around(table, i)
  {
    InnerGone(table, i, q, |table|);
    OuterSame(table, i, table[i].tryLoc, q, i);
  }

  /** What lies outward of a statement one is in is what lies around it. */
  lemma {:induction false} FramesOutward(table: Table, n: nat, p: nat, k: nat)
    requires WellNested(table) && n <= |table| && k < |Frames(table, n, p)|
    ensures Frames(table, n, p)[k + 1..] == Around(table, Frames(table, n, p)[k].index)
  {
    var i := Frames(table, n, p)[k].index;
    FramesBelow(table, n, p, k);
    OuterSame(table, i, p, table[i].tryLoc, i);
  }
}
