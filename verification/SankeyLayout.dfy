/** Vertical layout of the sankey diagram, functions `u`, `v`, `m`, `y`, `_`, `D` and `L` of
    module "81ac": node values, layers, the common scale, relaxation rounds and ribbons. */
module SankeyLayout {
  import opened Collections
  import opened SankeyRank
  import opened RealSums
  import opened SankeyPack

  /** What the listed indices pick, in list order. */
  function Gather<T>(a: seq<T>, layer: seq<nat>): (r: seq<T>)
    requires forall i :: 0 <= i < |layer| ==> layer[i] < |a|
    ensures |r| == |layer| && forall i :: 0 <= i < |r| ==> r[i] == a[layer[i]]
  {
    seq(|layer|, i requires 0 <= i < |layer| => a[layer[i]])
  }

  /** The floor of a packed layer's end in terms of the sum of its sizes. */
  lemma {:induction false} FloorIsSum(dy: seq<real>, layer: seq<nat>, gap: real, i: nat)
    requires Within(layer, |dy|) && i <= |layer|
    ensures Floor(Gather(dy, layer), gap, i) == SumOver(dy, layer[..i]) + i as real * gap
  {
    if i > 0 {
      FloorIsSum(dy, layer, gap, i - 1);
      assert layer[..i][..i - 1] == layer[..i - 1];
      assert i as real == (i - 1) as real + 1.0;
      assert i as real * gap == (i - 1) as real * gap + gap;
    }
  }

  /** The gaps between so many nodes. */
  function Gaps(count: nat, gap: real): real { (count as real - 1.0) * gap }

  /** The layer's nodes and its gaps have room in the extent. */
  ghost predicate LayerFits(dy: seq<real>, layer: seq<nat>, gap: real, extent: real)
    requires Within(layer, |dy|)
  {
    && (forall i :: 0 <= i < |layer| ==> dy[layer[i]] >= 0.0)
    && SumOver(dy, layer) + Gaps(|layer|, gap) <= extent
  }

  lemma LayerFitsFits(dy: seq<real>, layer: seq<nat>, gap: real, extent: real)
    requires Within(layer, |dy|) && layer != [] && LayerFits(dy, layer, gap, extent)
    ensures Fits(Gather(dy, layer), gap, extent)
  {
    FloorIsSum(dy, layer, gap, |layer| - 1);
    assert (|layer| - 1) as real == |layer| as real - 1.0;
  }

  /** The nodes of a layer, in order, are a gap apart and inside the extent. */
  ghost predicate LayerPacked(y: seq<real>, dy: seq<real>, layer: seq<nat>, gap: real, extent: real)
    requires Within(layer, |y|) && |dy| == |y|
  {
    Apart(Gather(y, layer), Gather(dy, layer), gap) && Inside(Gather(y, layer), Gather(dy, layer), extent)
  }

  /** Every node is in exactly one layer, once. */
  ghost predicate Partition(layers: seq<seq<nat>>, n: nat) {
    && (forall k :: 0 <= k < |layers| ==> layers[k] != [] && Within(layers[k], n) && NoDuplicates(layers[k]))
    && (forall k, l :: 0 <= k < l < |layers| ==> DisjointLayers(layers[k], layers[l]))
    && (forall v :: 0 <= v < n ==> InSomeLayer(layers, v))
  }

  ghost predicate InSomeLayer(layers: seq<seq<nat>>, v: nat) {
    exists k :: 0 <= k < |layers| && v in layers[k]
  }

  ghost predicate DisjointLayers(a: seq<nat>, b: seq<nat>) {
    forall v :: v in a ==> v !in b
  }

  /** Writes positions back to the nodes of a layer. */
  method Scatter(y0: seq<real>, layer: seq<nat>, pos: seq<real>) returns (y: seq<real>)
    requires Within(layer, |y0|) && NoDuplicates(layer) && |pos| == |layer|
    ensures |y| == |y0| && Gather(y, layer) == pos
    ensures forall v :: 0 <= v < |y| && v !in layer ==> y[v] == y0[v]
  {
    y := y0;
    for i := 0 to |layer|
      invariant |y| == |y0| && forall k :: 0 <= k < i ==> y[layer[k]] == pos[k]
      invariant forall v :: 0 <= v < |y| && v !in layer ==> y[v] == y0[v]
    {
      assert forall k :: 0 <= k < i ==> layer[k] != layer[i];
      y := y[layer[i] := pos[i]];
    }
  }

  // ---------------------------------------------------------------------------------
  // Relaxation

  /** A neighbour's centre and the value of the edge to it. */
  datatype Neighbour = Neighbour(centre: real, weight: real)

  function WeightSum(n: seq<Neighbour>): real {
    if n == [] then 0.0 else WeightSum(n[..|n| - 1]) + n[|n| - 1].weight
  }

  function WeightedSum(n: seq<Neighbour>): real {
    if n == [] then 0.0 else WeightedSum(n[..|n| - 1]) + Product(n[|n| - 1].centre, n[|n| - 1].weight)
  }

  function CentreSum(n: seq<Neighbour>): real {
    if n == [] then 0.0 else CentreSum(n[..|n| - 1]) + n[|n| - 1].centre
  }

  /** The mean of the neighbours' centres, weighted by edge value unless all values are zero. */
  function Pull(n: seq<Neighbour>): real
    requires n != []
  {
    if WeightSum(n) == 0.0 then CentreSum(n) / |n| as real else WeightedSum(n) / WeightSum(n)
  }

  lemma {:induction false} WeightedBetween(n: seq<Neighbour>, lo: real, hi: real)
    requires forall i :: 0 <= i < |n| ==> n[i].weight >= 0.0 && lo <= n[i].centre <= hi
    ensures WeightSum(n) >= 0.0 && Product(lo, WeightSum(n)) <= WeightedSum(n) <= Product(hi, WeightSum(n))
  {
    hide Product;
    if n == [] {
      ProductPlus(lo, 0.0, 0.0);
      ProductPlus(hi, 0.0, 0.0);
    } else {
      var init, last := n[..|n| - 1], n[|n| - 1];
      WeightedBetween(init, lo, hi);
      ProductOrder(lo, last.centre, last.weight);
      ProductOrder(last.centre, hi, last.weight);
      ProductPlus(lo, WeightSum(init), last.weight);
      ProductPlus(hi, WeightSum(init), last.weight);
    }
  }

  lemma {:induction false} CentresBetween(n: seq<Neighbour>, lo: real, hi: real)
    requires forall i :: 0 <= i < |n| ==> lo <= n[i].centre <= hi
    ensures Product(lo, |n| as real) <= CentreSum(n) <= Product(hi, |n| as real)
  {
    hide Product;
    if n == [] {
      ProductPlus(lo, 0.0, 0.0);
      ProductPlus(hi, 0.0, 0.0);
    } else {
      CentresBetween(n[..|n| - 1], lo, hi);
      ProductPlus(lo, (|n| - 1) as real, 1.0);
      ProductPlus(hi, (|n| - 1) as real, 1.0);
    }
  }

  lemma FactorSign(x: real, b: real)
    requires b > 0.0 && x * b >= 0.0
    ensures x >= 0.0
  {
  }

  lemma Quotient(a: real, b: real, lo: real, hi: real)
    requires b > 0.0 && Product(lo, b) <= a <= Product(hi, b)
    ensures lo <= a / b <= hi
  {
    var q := a / b;
    assert q * b == a;
    assert (q - lo) * b == a - lo * b && (hi - q) * b == hi * b - a;
    FactorSign(q - lo, b);
    FactorSign(hi - q, b);
  }

  /** A node is pulled to somewhere among its neighbours. */
  lemma PullBetween(n: seq<Neighbour>, lo: real, hi: real)
    requires n != [] && forall i :: 0 <= i < |n| ==> n[i].weight >= 0.0 && lo <= n[i].centre <= hi
    ensures lo <= Pull(n) <= hi
  {
    WeightedBetween(n, lo, hi);
    CentresBetween(n, lo, hi);
    hide WeightSum, WeightedSum, CentreSum, Product;
    if WeightSum(n) == 0.0 {
      Quotient(CentreSum(n), |n| as real, lo, hi);
    } else {
      Quotient(WeightedSum(n), WeightSum(n), lo, hi);
    }
  }

  // ---------------------------------------------------------------------------------
  // Scale and stacks

  /** The scale at which a layer just fits. */
  function LayerScale(value: seq<real>, layer: seq<nat>, gap: real, extent: real): real
    requires (forall i :: 0 <= i < |layer| ==> layer[i] < |value|) && SumOver(value, layer) > 0.0
  {
    (extent - Gaps(|layer|, gap)) / SumOver(value, layer)
  }

  lemma ScaledRoom(total: real, room: real, k: real)
    requires total > 0.0 && k <= room / total
    ensures Product(total, k) <= room && (k == room / total ==> Product(total, k) == room)
  {
    assert room / total * total == room;
    ProductOrder(k, room / total, total);
  }

  /** k is a scale at which a layer fits. */
  lemma {:induction false} ScaleFits(value: seq<real>, dy: seq<real>, layer: seq<nat>, gap: real, extent: real, k: real)
    requires Within(layer, |value|) && |dy| == |value| && SumOver(value, layer) > 0.0
    requires Scaled(value, dy, layer, k) && forall i :: 0 <= i < |layer| ==> value[layer[i]] >= 0.0
    requires 0.0 <= k <= LayerScale(value, layer, gap, extent)
    ensures LayerFits(dy, layer, gap, extent)
    ensures k == LayerScale(value, layer, gap, extent) ==> SumOver(dy, layer) + Gaps(|layer|, gap) == extent
  {
    hide SumOver, Gaps, Product;
    SumScaled(value, dy, layer, k);
    ScaledRoom(SumOver(value, layer), extent - Gaps(|layer|, gap), k);
    forall i | 0 <= i < |layer|
      ensures dy[layer[i]] >= 0.0
    {
      ProductOrder(0.0, value[layer[i]], k);
      ProductPlus(k, 0.0, 0.0);
    }
  }

  /** A layer that is worth nothing fits at any scale if its gaps do. */
  lemma {:induction false} NothingFits(value: seq<real>, dy: seq<real>, layer: seq<nat>, gap: real, extent: real,
                                       k: real)
    requires Within(layer, |value|) && |dy| == |value| && SumOver(value, layer) == 0.0 &&
             Gaps(|layer|, gap) <= extent && k >= 0.0
    requires Scaled(value, dy, layer, k) && forall i :: 0 <= i < |layer| ==> value[layer[i]] >= 0.0
    ensures LayerFits(dy, layer, gap, extent)
  {
    hide SumOver, Gaps, Product;
    SumScaled(value, dy, layer, k);
    ProductPlus(k, 0.0, 0.0);
    forall i | 0 <= i < |layer|
      ensures dy[layer[i]] >= 0.0
    {
      ProductOrder(0.0, value[layer[i]], k);
    }
  }

  /** The ribbons in the list start where the one before ends, the first at 0. */
  ghost predicate Stacked(start: seq<real>, width: seq<real>, edges: seq<nat>)
    requires |start| == |width| && Within(edges, |start|)
  {
    forall k :: 0 <= k < |edges| ==> start[edges[k]] == SumOver(width, edges[..k])
  }

  /** A stack stays within the total of its widths. */
  lemma {:induction false} StackWithin(start: seq<real>, width: seq<real>, edges: seq<nat>, k: nat)
    requires |start| == |width| && Within(edges, |start|) && Stacked(start, width, edges) && k < |edges|
    requires forall i :: 0 <= i < |edges| ==> width[edges[i]] >= 0.0
    ensures 0.0 <= start[edges[k]] && start[edges[k]] + width[edges[k]] <= SumOver(width, edges)
    ensures k + 1 < |edges| ==> start[edges[k + 1]] == start[edges[k]] + width[edges[k]]
    decreases |edges| - k
  {
    SumNonNegative(width, edges[..k]);
    assert edges[..k + 1][..k] == edges[..k];
    if k + 1 < |edges| {
      StackWithin(start, width, edges, k + 1);
    } else {
      assert edges[..k + 1] == edges;
    }
  }

  // ---------------------------------------------------------------------------------
  // Permuted lists

  lemma NoDuplicatesCount(s: seq<nat>, x: nat)
    requires NoDuplicates(s)
    ensures multiset(s)[x] <= 1
  {
    if x in s {
      var i :| 0 <= i < |s| && s[i] == x;
      DroppedMultiset(s, i);
      assert x !in Dropped(s, i);
      assert x !in multiset(Dropped(s, i));
    }
  }

  lemma PermutedNoDuplicates(s: seq<nat>, t: seq<nat>)
    requires NoDuplicates(s) && multiset(s) == multiset(t)
    ensures NoDuplicates(t)
  {
    forall i, j | 0 <= i < j < |t|
      ensures t[i] != t[j]
    {
      NoDuplicatesCount(s, t[i]);
      assert t == t[..j] + t[j..] && t[i] in t[..j] && t[j] in t[j..];
    }
  }

  lemma PermutedIn(s: seq<nat>, t: seq<nat>, x: nat)
    requires multiset(s) == multiset(t)
    ensures x in s <==> x in t
  {
    assert x in s <==> x in multiset(s);
    assert x in t <==> x in multiset(t);
  }

  /** Reordering one layer leaves a partition. */
  lemma PartitionPermuted(layers: seq<seq<nat>>, n: nat, i: nat, layer: seq<nat>)
    requires Partition(layers, n) && i < |layers| && multiset(layer) == multiset(layers[i])
    ensures Partition(layers[i := layer], n)
  {
    var now := layers[i := layer];
    PermutedNoDuplicates(layers[i], layer);
    assert |layer| == |multiset(layer)| == |layers[i]|;
    forall x: nat
      ensures x in layer <==> x in layers[i]
    {
      PermutedIn(layer, layers[i], x);
    }
    forall p | 0 <= p < |layer|
      ensures layer[p] < n
    {
      assert layer[p] in layers[i];
    }
    forall k, l | 0 <= k < l < |now|
      ensures DisjointLayers(now[k], now[l])
    {
      assert DisjointLayers(layers[k], layers[l]);
    }
    forall v | 0 <= v < n
      ensures InSomeLayer(now, v)
    {
      assert InSomeLayer(layers, v);
      var k :| 0 <= k < |layers| && v in layers[k];
      assert v in now[k];
    }
  }

  lemma LayerFitsPermuted(dy: seq<real>, a: seq<nat>, b: seq<nat>, gap: real, extent: real)
    requires multiset(a) == multiset(b) && Within(a, |dy|) && Within(b, |dy|) && LayerFits(dy, a, gap, extent)
    ensures LayerFits(dy, b, gap, extent)
  {
    SumPermuted(dy, a, b);
    assert |a| == |multiset(a)| == |b|;
    forall i | 0 <= i < |b|
      ensures dy[b[i]] >= 0.0
    {
      PermutedIn(a, b, b[i]);
    }
  }
}
