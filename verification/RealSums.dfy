/** Sums of real numbers over index lists, and sorting of index lists by a real key. */
module RealSums {

  function Max(a: real, b: real): real { if a >= b then a else b }

  function Min(a: real, b: real): real { if a <= b then a else b }

  ghost predicate Within(indices: seq<nat>, n: nat) {
    forall i :: 0 <= i < |indices| ==> indices[i] < n
  }

  /** Sum of the values the listed indices pick. */
  function SumOver(value: seq<real>, indices: seq<nat>): real
    requires forall i :: 0 <= i < |indices| ==> indices[i] < |value|
  {
    if indices == [] then 0.0
    else SumOver(value, indices[..|indices| - 1]) + value[indices[|indices| - 1]]
  }

  /** A product the solver need not look into. */
  function Product(a: real, b: real): real { a * b }

  lemma ProductOrder(x: real, y: real, w: real)
    requires x <= y && w >= 0.0
    ensures Product(x, w) <= Product(y, w)
  {
  }

  lemma ProductPlus(k: real, a: real, b: real)
    ensures Product(k, a + b) == Product(k, a) + Product(k, b)
    ensures Product(a + b, k) == Product(a, k) + Product(b, k)
    ensures Product(k, 0.0) == Product(0.0, k) == 0.0 && Product(k, 1.0) == k
  {
  }

  /** All the picked values times k. */
  ghost predicate Scaled(value: seq<real>, value': seq<real>, indices: seq<nat>, k: real)
    requires Within(indices, |value|) && |value'| == |value|
  {
    forall i :: 0 <= i < |indices| ==> value'[indices[i]] == Product(value[indices[i]], k)
  }

  lemma {:induction false} SumScaled(value: seq<real>, value': seq<real>, indices: seq<nat>, k: real)
    requires Within(indices, |value|) && |value'| == |value| && Scaled(value, value', indices, k)
    ensures SumOver(value', indices) == Product(SumOver(value, indices), k)
  {
    hide Product;
    if indices == [] {
      ProductPlus(k, 0.0, 0.0);
    } else {
      var init := indices[..|indices| - 1];
      SumScaled(value, value', init, k);
      ProductPlus(k, SumOver(value, init), value[indices[|indices| - 1]]);
    }
  }

  lemma {:induction false} SumNonNegative(value: seq<real>, indices: seq<nat>)
    requires Within(indices, |value|) && forall i :: 0 <= i < |indices| ==> value[indices[i]] >= 0.0
    ensures SumOver(value, indices) >= 0.0
  {
    if indices != [] {
      SumNonNegative(value, indices[..|indices| - 1]);
    }
  }

  lemma {:induction false} SumConcat(value: seq<real>, a: seq<nat>, b: seq<nat>)
    requires Within(a, |value|) && Within(b, |value|)
    ensures SumOver(value, a + b) == SumOver(value, a) + SumOver(value, b)
  {
    if b == [] {
      assert a + b == a;
    } else {
      SumConcat(value, a, b[..|b| - 1]);
      assert (a + b)[..|a + b| - 1] == a + b[..|b| - 1];
    }
  }

  lemma {:induction false} SumSame(value: seq<real>, value': seq<real>, indices: seq<nat>)
    requires Within(indices, |value|) && |value'| == |value|
    requires forall i :: 0 <= i < |indices| ==> value'[indices[i]] == value[indices[i]]
    ensures SumOver(value', indices) == SumOver(value, indices)
  {
    if indices != [] {
      SumSame(value, value', indices[..|indices| - 1]);
    }
  }

  function Dropped(s: seq<nat>, i: nat): seq<nat>
    requires i < |s|
  {
    s[..i] + s[i + 1..]
  }

  lemma {:induction false} SumSingle(value: seq<real>, x: nat)
    requires x < |value|
    ensures SumOver(value, [x]) == value[x]
  {
    assert [x][..0] == [];
  }

  lemma {:induction false} SumDropped(value: seq<real>, s: seq<nat>, i: nat)
    requires Within(s, |value|) && i < |s|
    ensures Within(Dropped(s, i), |value|)
    ensures SumOver(value, s) == SumOver(value, Dropped(s, i)) + value[s[i]]
  {
    hide SumOver;
    var head, tail := s[..i], s[i + 1..];
    assert s == head + ([s[i]] + tail);
    SumConcat(value, head, [s[i]] + tail);
    SumConcat(value, [s[i]], tail);
    SumConcat(value, head, tail);
    SumSingle(value, s[i]);
  }

  lemma DroppedMultiset(s: seq<nat>, i: nat)
    requires i < |s|
    ensures multiset(Dropped(s, i)) == multiset(s) - multiset{s[i]}
  {
    assert s == s[..i] + [s[i]] + s[i + 1..];
  }

  /** A sum does not depend on the order. */
  lemma {:induction false} SumPermuted(value: seq<real>, a: seq<nat>, b: seq<nat>)
    requires multiset(a) == multiset(b) && Within(a, |value|) && Within(b, |value|)
    ensures SumOver(value, a) == SumOver(value, b)
    decreases |a|
  {
    if a == [] {
      assert |multiset(b)| == 0;
    } else {
      var last := |a| - 1;
      assert a[last] in multiset(b);
      var i :| 0 <= i < |b| && b[i] == a[last];
      DroppedMultiset(a, last);
      DroppedMultiset(b, i);
      SumDropped(value, a, last);
      SumDropped(value, b, i);
      SumPermuted(value, Dropped(a, last), Dropped(b, i));
    }
  }

  ghost predicate SortedBy(key: seq<real>, indices: seq<nat>)
    requires forall i :: 0 <= i < |indices| ==> indices[i] < |key|
  {
    forall i, j :: 0 <= i < j < |indices| ==> key[indices[i]] <= key[indices[j]]
  }

  /** Indices with equal keys ascend. */
  ghost predicate TiesAscend(key: seq<real>, indices: seq<nat>)
    requires Within(indices, |key|)
  {
    forall i, j :: 0 <= i < j < |indices| && key[indices[i]] == key[indices[j]] ==> indices[i] < indices[j]
  }

  ghost predicate Ascends(s: seq<nat>) {
    forall i, j :: 0 <= i < j < |s| ==> s[i] < s[j]
  }

  /** Inserts an index behind all that are not greater. */
  method Insert(key: seq<real>, sorted: seq<nat>, x: nat) returns (r: seq<nat>)
    requires x < |key| && Within(sorted, |key|) && SortedBy(key, sorted)
    ensures multiset(r) == multiset(sorted) + multiset{x} && Within(r, |key|) && SortedBy(key, r)
    ensures (forall i :: 0 <= i < |sorted| ==> key[sorted[i]] <= key[x]) ==> r == sorted + [x]
    ensures TiesAscend(key, sorted) && (forall i :: 0 <= i < |sorted| ==> sorted[i] < x) ==> TiesAscend(key, r)
  {
    hide TiesAscend, SortedBy, InsertedIn;
    var p := |sorted|;
    while p > 0 && key[x] < key[sorted[p - 1]]
      invariant 0 <= p <= |sorted| && forall i :: p <= i < |sorted| ==> key[x] < key[sorted[i]]
    {
      p := p - 1;
    }
    r := sorted[..p] + [x] + sorted[p..];
    InsertedMultiset(sorted, x, p);
    InsertedAt(sorted, x, p, r);
    InsertedSorted(key, sorted, x, p, r);
    assert p == |sorted| ==> r == sorted + [x];
    if TiesAscend(key, sorted) && forall i :: 0 <= i < |sorted| ==> sorted[i] < x {
      InsertedTies(key, sorted, x, p, r);
    }
  }

  lemma InsertedAt(sorted: seq<nat>, x: nat, p: nat, r: seq<nat>)
    requires p <= |sorted| && r == sorted[..p] + [x] + sorted[p..]
    ensures InsertedIn(sorted, x, p, r)
  {
  }

  ghost predicate InsertedIn(sorted: seq<nat>, x: nat, p: nat, r: seq<nat>) {
    && p <= |sorted| && |r| == |sorted| + 1 && r[p] == x
    && (forall i :: 0 <= i < p ==> r[i] == sorted[i])
    && (forall i, j :: p < i < |r| && j == i - 1 ==> r[i] == sorted[j])
  }

  lemma InsertedSorted(key: seq<real>, sorted: seq<nat>, x: nat, p: nat, r: seq<nat>)
    requires x < |key| && Within(sorted, |key|) && SortedBy(key, sorted) && InsertedIn(sorted, x, p, r)
    requires forall i :: p <= i < |sorted| ==> key[x] < key[sorted[i]]
    requires p > 0 ==> key[sorted[p - 1]] <= key[x]
    ensures Within(r, |key|) && SortedBy(key, r)
  {
    forall i | 0 <= i < |r|
      ensures r[i] < |key|
    {
      var j := i - 1;
      assert i > p ==> r[i] == sorted[j];
    }
    forall i, j | 0 <= i < j < |r|
      ensures key[r[i]] <= key[r[j]]
    {
      OrderedPair(key, sorted, x, p, r, i, j);
    }
  }

  lemma OrderedPair(key: seq<real>, sorted: seq<nat>, x: nat, p: nat, r: seq<nat>, i: nat, j: nat)
    requires x < |key| && Within(sorted, |key|) && SortedBy(key, sorted) && InsertedIn(sorted, x, p, r) &&
             Within(r, |key|)
    requires forall i :: p <= i < |sorted| ==> key[x] < key[sorted[i]]
    requires p > 0 ==> key[sorted[p - 1]] <= key[x]
    requires i < j < |r|
    ensures key[r[i]] <= key[r[j]]
  {
    if i < p == j {
      assert key[sorted[i]] <= key[sorted[p - 1]];
    }
    if j > p {
      assert r[j] == sorted[j - 1];
    }
    if i > p {
      assert r[i] == sorted[i - 1];
    }
  }

  lemma InsertedTies(key: seq<real>, sorted: seq<nat>, x: nat, p: nat, r: seq<nat>)
    requires x < |key| && Within(sorted, |key|) && TiesAscend(key, sorted) && InsertedIn(sorted, x, p, r) &&
             Within(r, |key|)
    requires (forall i :: p <= i < |sorted| ==> key[x] < key[sorted[i]]) && forall i :: 0 <= i < |sorted| ==>
               sorted[i] < x
    ensures TiesAscend(key, r)
  {
    forall i, j | 0 <= i < j < |r| && key[r[i]] == key[r[j]]
      ensures r[i] < r[j]
    {
      if j > p {
        assert r[j] == sorted[j - 1];
      }
      if i > p {
        assert r[i] == sorted[i - 1];
      }
    }
  }

  lemma InsertedMultiset(sorted: seq<nat>, x: nat, p: nat)
    requires p <= |sorted|
    ensures multiset(sorted[..p] + [x] + sorted[p..]) == multiset(sorted) + multiset{x}
  {
    assert sorted == sorted[..p] + sorted[p..];
  }

  lemma NextIsGreater(indices: seq<nat>, n: nat, r: seq<nat>)
    requires Ascends(indices) && n < |indices| && multiset(r) == multiset(indices[..n])
    ensures forall i :: 0 <= i < |r| ==> r[i] < indices[n]
  {
    forall i | 0 <= i < |r|
      ensures r[i] < indices[n]
    {
      assert r[i] in multiset(r);
      assert r[i] in indices[..n];
    }
  }

  /** Sorts indices by key, equal ones by index if they came ascending; what is sorted stays as it is. */
  method SortBy(key: seq<real>, indices: seq<nat>) returns (r: seq<nat>)
    requires Within(indices, |key|)
    ensures multiset(r) == multiset(indices) && Within(r, |key|) && SortedBy(key, r)
    ensures SortedBy(key, indices) ==> r == indices
    ensures Ascends(indices) ==> TiesAscend(key, r)
  {
    r := [];
    for n := 0 to |indices|
      invariant multiset(r) == multiset(indices[..n]) && Within(r, |key|) && SortedBy(key, r)
      invariant SortedBy(key, indices) ==> r == indices[..n]
      invariant Ascends(indices) ==> TiesAscend(key, r)
    {
      hide TiesAscend;
      assert indices[..n + 1] == indices[..n] + [indices[n]];
      if Ascends(indices) {
        NextIsGreater(indices, n, r);
      }
      r := Insert(key, r, indices[n]);
    }
    assert indices[..|indices|] == indices;
  }
}
