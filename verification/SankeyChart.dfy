/** The whole layout of a sankey diagram, functions `s` and `c` of module "81ac": ranks, layers, positions
    and ribbons one after the other. */
module SankeyChart {
  import opened Collections
  import opened SankeyRank
  import opened SankeyAlign
  import opened RealSums
  import opened SankeyLayout
  import opened SankeyDiagram

  /** The layers are the nodes of equal depth, by ascending depth. */
  ghost predicate ByDepth(depth: seq<nat>, layers: seq<seq<nat>>) {
    && Partition(layers, |depth|)
    && (forall i, u, v :: 0 <= i < |layers| && u in layers[i] && v in layers[i] ==> depth[u] == depth[v])
    && (forall i, j, u, v :: 0 <= i < j < |layers| && u in layers[i] && v in layers[j] ==> depth[u] < depth[v])
  }

  lemma {:induction false} LayeredByDepth(depth: seq<nat>, breadth: real, key: seq<real>, layers: seq<seq<nat>>)
    requires |depth| == |key| && breadth > 0.0 && LayeredBy(key, layers)
    requires forall v :: 0 <= v < |key| ==> key[v] == Product(depth[v] as real, breadth)
    ensures ByDepth(depth, layers)
  {
    hide Product;
    PartitionWithin(layers, |key|);
    forall i, u, v | 0 <= i < |layers| && u in layers[i] && v in layers[i]
      ensures depth[u] == depth[v]
    {
      KeysTellDepths(depth, breadth, key, u, v);
      KeysTellDepths(depth, breadth, key, v, u);
    }
    forall i, j, u, v | 0 <= i < j < |layers| && u in layers[i] && v in layers[j]
      ensures depth[u] < depth[v]
    {
      KeysTellDepths(depth, breadth, key, v, u);
    }
  }

  lemma {:induction false} KeysTellDepths(depth: seq<nat>, breadth: real, key: seq<real>, u: nat, v: nat)
    requires u < |depth| == |key| && v < |key| && breadth > 0.0
    requires key[u] == Product(depth[u] as real, breadth) && key[v] == Product(depth[v] as real, breadth)
    ensures depth[u] < depth[v] ==> key[u] < key[v]
    ensures depth[u] == depth[v] ==> key[u] == key[v]
  {
    if depth[u] < depth[v] {
      StrictProduct(depth[u] as real, depth[v] as real, breadth);
    }
  }

  lemma {:induction false} ByDepthSame(depth: seq<nat>, before: seq<seq<nat>>, layers: seq<seq<nat>>)
    requires ByDepth(depth, before) && SameLayers(before, layers) && Partition(layers, |depth|)
    ensures ByDepth(depth, layers)
  {
    hide Partition;
    forall i, v: nat | 0 <= i < |layers|
      ensures v in layers[i] <==> v in before[i]
    {
      PermutedIn(before[i], layers[i], v);
    }
  }

  /** Where every edge leads deeper, it leads to a later layer. */
  lemma {:induction false} DeeperIsForward(g: Graph, depth: seq<nat>, layers: seq<seq<nat>>)
    requires g.Valid() && |depth| == g.size && ByDepth(depth, layers)
    requires forall a: nat, b: nat :: g.Edge(a, b) && a < g.size && b < g.size ==> depth[a] < depth[b]
    ensures Forward(g, layers)
  {
    hide Partition;
    forall e, k, l | 0 <= e < |g.edges| && 0 <= l <= k < |layers| && g.edges[e].0 in layers[k]
      ensures g.edges[e].1 !in layers[l]
    {
      var a, b := g.edges[e].0, g.edges[e].1;
      assert g.edges[e] == (a, b) && g.Edge(a, b);
    }
  }

  /** The greatest depth: no path has more edges and no user depth is greater, and one is as great. */
  ghost predicate Deepest(g: Graph, userDepth: seq<Option<nat>>, deepest: int)
    requires |userDepth| == g.size
  {
    && (forall v: nat, n: nat :: v < g.size && LongestTo(g, v, n) ==> n <= deepest)
    && (forall v :: 0 <= v < g.size && userDepth[v].Some? ==> userDepth[v].value <= deepest)
    && (deepest == -1 ||
        (deepest >= 0 && exists v: nat :: v < g.size && (userDepth[v] == Some(deepest) || LongestTo(g, v, deepest))))
  }

  /** The depths by alignment, but for those the user gives: on the left the longest path to the node; on the
      right as far from the deepest as the longest path from it is long; justified, the sinks are deepest and
      the others as on the left. */
  ghost predicate Aligned(g: Graph, userDepth: seq<Option<nat>>, align: NodeAlign, deepest: int, depth: seq<nat>)
    requires |userDepth| == g.size
  {
    && |depth| == g.size
    && (forall v :: 0 <= v < g.size ==> depth[v] <= deepest && (userDepth[v].Some? ==> depth[v] == userDepth[v].value))
    && forall v :: 0 <= v < g.size && userDepth[v].None? ==>
         match align
         case Left => LongestTo(g, v, depth[v])
         case Right => Longest(g, v, deepest - depth[v])
         case Justify => if Sink(g, v) then depth[v] == deepest else LongestTo(g, v, depth[v])
  }

  lemma {:induction false} OneLongest(g: Graph, v: nat, n: nat, m: nat)
    requires LongestTo(g, v, n) && LongestTo(g, v, m)
    ensures n == m
  {
  }

  lemma {:induction false} RanksDeepest(g: Graph, userDepth: seq<Option<nat>>, depth: seq<nat>, maxDepth: int,
                                        rank: map<nat, nat>)
    requires |userDepth| == |depth| == g.size && forall v: nat :: v < g.size ==> v in rank && LongestTo(g, v, rank[v])
    requires forall v :: 0 <= v < g.size ==> depth[v] == if userDepth[v].Some? then userDepth[v].value else rank[v]
    requires forall v :: 0 <= v < g.size ==> rank[v] <= maxDepth && depth[v] <= maxDepth
    requires maxDepth == -1 || exists v :: 0 <= v < g.size && (rank[v] == maxDepth || depth[v] == maxDepth)
    ensures Deepest(g, userDepth, maxDepth)
  {
    hide LongestTo;
    forall v: nat, n: nat | v < g.size && LongestTo(g, v, n)
      ensures n <= maxDepth
    {
      OneLongest(g, v, n, rank[v]);
    }
    if maxDepth != -1 {
      var v :| 0 <= v < g.size && (rank[v] == maxDepth || depth[v] == maxDepth);
      assert userDepth[v] == Some(maxDepth) || LongestTo(g, v, maxDepth);
    }
  }

  /** The layers along the flow, or None for the cycle error. Breadth is the distance of one depth from the
      next. */
  method Columns(g: Graph, userDepth: seq<Option<nat>>, align: NodeAlign, breadth: real)
    returns (layers: Option<seq<seq<nat>>>, ghost depth: seq<nat>, ghost deepest: int)
    requires g.Valid() && |userDepth| == g.size && breadth > 0.0
    ensures layers.None? <==> g.Cyclic()
    ensures layers.Some? ==>
              Deepest(g, userDepth, deepest) && Aligned(g, userDepth, align, deepest, depth) &&
                ByDepth(depth, layers.value)
    ensures layers.Some? && (forall v :: 0 <= v < g.size ==> userDepth[v].None?) ==> Forward(g, layers.value)
  {
    hide Ranked, Graph.Cyclic, Product, Partition, LayeredBy, ByDepth, Forward, LongestTo, Longest, Sink, Deepest;
    var b, rank := ComputeBreadths(g, userDepth);
    if b.Cycle? {
      return None, [], 0;
    }
    var aligned := Align(g, align, userDepth, b.depth, b.maxDepth, rank);
    depth, deepest := aligned, b.maxDepth;
    RanksDeepest(g, userDepth, b.depth, b.maxDepth, rank);
    var key := seq(g.size, v requires 0 <= v < |aligned| => Product(aligned[v] as real, breadth));
    var built := BuildLayers(key);
    layers := Some(built);
    LayeredByDepth(depth, breadth, key, built);
    if forall v :: 0 <= v < g.size ==> userDepth[v].None? {
      EdgesDeeper(g, userDepth, depth);
      DeeperIsForward(g, depth, built);
    }
  }

  lemma {:induction false} EdgesDeeper(g: Graph, userDepth: seq<Option<nat>>, depth: seq<nat>)
    requires g.Valid() && |userDepth| == |depth| == g.size && forall v :: 0 <= v < g.size ==> userDepth[v].None?
    requires forall a: nat, b: nat :: g.Edge(a, b) && userDepth[a].None? && userDepth[b].None? ==> depth[a] < depth[b]
    ensures forall a: nat, b: nat :: g.Edge(a, b) && a < g.size && b < g.size ==> depth[a] < depth[b]
  {
  }

  /** There is a finite scale: some node is worth something, and a layer whose nodes are worth nothing has
      room for its gaps. */
  ghost predicate HasScale(g: Graph, edgeValue: seq<real>, ownValue: seq<real>, layers: seq<seq<nat>>, gap: real,
                           extent: real)
    requires |edgeValue| == |g.edges| && |ownValue| == g.size && Partition(layers, g.size)
  {
    && (exists v: nat :: v < g.size && NodeWorth(g, edgeValue, ownValue, v) > 0.0)
    && forall i :: 0 <= i < |layers| && Worthless(g, edgeValue, ownValue, layers[i]) ==>
       (|layers[i]| as real - 1.0) * gap <= extent
  }

  ghost predicate Worthless(g: Graph, edgeValue: seq<real>, ownValue: seq<real>, layer: seq<nat>)
    requires |edgeValue| == |g.edges| && |ownValue| == g.size
  {
    forall v :: v in layer && v < g.size ==> NodeWorth(g, edgeValue, ownValue, v) == 0.0
  }

  lemma {:induction false} SumPositive(value: seq<real>, layer: seq<nat>)
    requires Within(layer, |value|) && forall v :: v in layer ==> value[v] >= 0.0
    ensures SumOver(value, layer) >= 0.0
    ensures SumOver(value, layer) > 0.0 <==> exists v :: v in layer && value[v] > 0.0
  {
    if layer != [] {
      var init, last := layer[..|layer| - 1], layer[|layer| - 1];
      assert layer == init + [last];
      SumPositive(value, init);
    }
  }

  lemma {:induction false} HasScaleMeans(g: Graph, edgeValue: seq<real>, ownValue: seq<real>, layers: seq<seq<nat>>,
                                         gap: real, extent: real)
    requires |edgeValue| == |g.edges| && |ownValue| == g.size && Partition(layers, g.size)
    ensures HasScale(g, edgeValue, ownValue, layers, gap, extent) <==>
            && (exists v: nat :: v < g.size && NodeWorth(g, edgeValue, ownValue, v) > 0.0)
            && forall i :: 0 <= i < |layers| && Worthless(g, edgeValue, ownValue, layers[i]) ==>
               Gaps(|layers[i]|, gap) <= extent
  {
    hide Worthless, NodeWorth, Partition;
  }

  lemma WorthIsNodeWorth(s: Sankey)
    requires s.Sized()
    ensures forall v :: 0 <= v < s.g.size ==> s.Worth(v) == NodeWorth(s.g, s.edgeValue, s.ownValue, v)
  {
    hide NodeWorth;
  }

  /** What stops the search for the common scale, in terms of what nodes are worth. */
  lemma {:induction false} ScalableMeans(s: Sankey, gap: real, extent: real)
    requires s.Sized() && Partition(s.layers, s.g.size)
    requires forall v :: 0 <= v < s.g.size ==> s.value[v] == s.Worth(v) && s.value[v] >= 0.0
    ensures s.Scalable(gap, extent) <==> HasScale(s.g, s.edgeValue, s.ownValue, s.layers, gap, extent)
  {
    hide NodeWorth, SumOver, Partition, Gaps, HasScale, Worthless;
    HasScaleMeans(s.g, s.edgeValue, s.ownValue, s.layers, gap, extent);
    PartitionWithin(s.layers, s.g.size);
    WorthIsNodeWorth(s);
    forall i | 0 <= i < |s.layers|
      ensures SumOver(s.value, s.layers[i]) == 0.0 <==> Worthless(s.g, s.edgeValue, s.ownValue, s.layers[i])
      ensures SumOver(s.value, s.layers[i]) > 0.0 <==> exists v :: v in s.layers[i] && s.value[v] > 0.0
    {
      LayerWorth(s, s.layers[i]);
    }
    if v: nat :| v < s.g.size && NodeWorth(s.g, s.edgeValue, s.ownValue, v) > 0.0 {
      var i := LayerOf(s.layers, s.g.size, v);
      assert SumOver(s.value, s.layers[i]) > 0.0;
    }
    if i :| 0 <= i < |s.layers| && SumOver(s.value, s.layers[i]) > 0.0 {
      var v :| v in s.layers[i] && s.value[v] > 0.0;
      assert NodeWorth(s.g, s.edgeValue, s.ownValue, v) > 0.0;
    }
  }

  lemma {:induction false} LayerWorth(s: Sankey, layer: seq<nat>)
    requires s.Sized() && Within(layer, s.g.size)
    requires forall v :: 0 <= v < s.g.size ==> s.value[v] == s.Worth(v) && s.value[v] >= 0.0
    ensures SumOver(s.value, layer) == 0.0 <==> Worthless(s.g, s.edgeValue, s.ownValue, layer)
    ensures SumOver(s.value, layer) > 0.0 <==> exists v :: v in layer && s.value[v] > 0.0
  {
    hide NodeWorth, SumOver;
    WorthIsNodeWorth(s);
    SumPositive(s.value, layer);
  }

  lemma {:induction false} LayerOf(layers: seq<seq<nat>>, n: nat, v: nat) returns (i: nat)
    requires Partition(layers, n) && v < n
    ensures i < |layers| && v in layers[i]
  {
    assert InSomeLayer(layers, v);
    i :| 0 <= i < |layers| && v in layers[i];
  }

  /** The smallest scale stays that when layers are put in another order. */
  lemma {:induction false} SmallestSame(value: seq<real>, before: seq<seq<nat>>, layers: seq<seq<nat>>, i: nat,
                                        gap: real, extent: real)
    requires SameLayers(before, layers) && i < |layers| && Within(before[i], |value|) && Within(layers[i], |value|)
    ensures SumOver(value, layers[i]) == SumOver(value, before[i])
    ensures SumOver(value, layers[i]) > 0.0 ==>
              LayerScale(value, layers[i], gap, extent) == LayerScale(value, before[i], gap, extent)
  {
    hide Gaps, SumOver;
    SumPermuted(value, layers[i], before[i]);
    assert |before[i]| == |multiset(before[i])| == |layers[i]|;
  }

  lemma {:induction false} StillSmallest(value: seq<real>, before: seq<seq<nat>>, layers: seq<seq<nat>>, k: real,
                                         gap: real, extent: real)
    requires SameLayers(before, layers)
    requires forall i :: 0 <= i < |before| ==> Within(before[i], |value|)
    requires forall i :: 0 <= i < |layers| ==> Within(layers[i], |value|)
    requires LeastScale(value, before, |before|, k, gap, extent)
    ensures LeastScale(value, layers, |layers|, k, gap, extent)
  {
    hide LayerScale, SumOver;
    forall i | 0 <= i < |before|
      ensures SumOver(value, layers[i]) == SumOver(value, before[i])
      ensures SumOver(value, layers[i]) > 0.0 ==>
                LayerScale(value, layers[i], gap, extent) == LayerScale(value, before[i], gap, extent)
    {
      SmallestSame(value, before, layers, i, gap, extent);
    }
  }

  /** What the layout leaves across the flow: sizes by the smallest of the layers' scales, nodes apart, ribbons stacked
      in the order of
      their other ends; and if the gaps have room, every layer inside the extent, one filling it, and every
      ribbon inside its node. */
  ghost predicate LaidOut(s: Sankey, k: real, gap: real, extent: real)
    requires s.Sized()
    reads s
  {
    && Partition(s.layers, s.g.size)
    && s.Smallest(k, |s.layers|, gap, extent)
    && (forall v :: 0 <= v < s.g.size ==> s.value[v] == s.Worth(v) && s.dy[v] == Product(s.value[v], k))
    && (forall e :: 0 <= e < |s.g.edges| ==> s.edgeDy[e] == Product(s.edgeValue[e], k))
    && AllResolved(s.y, s.dy, s.layers, gap, extent) && FitsWithGaps(s.y, s.dy, s.layers, gap, extent)
    && (forall v :: 0 <= v < s.g.size ==>
          SortedBy(FarPositions(s.g, s.y, true), s.outEdges[v]) &&
            SortedBy(FarPositions(s.g, s.y, false), s.inEdges[v]))
    && (forall v :: 0 <= v < s.g.size ==>
        Stacked(s.sy, s.edgeDy, s.outEdges[v]) && Stacked(s.ty, s.edgeDy, s.inEdges[v]))
    && (GapsFit(s.layers, gap, extent) ==>
          && AllPacked(s.y, s.dy, s.layers, gap, extent) && Fitted(s.dy, s.layers, gap, extent)
          && forall v :: 0 <= v < s.g.size ==>
             RibbonsIn(s.sy, s.edgeDy, s.outEdges[v], s.dy[v]) && RibbonsIn(s.ty, s.edgeDy, s.inEdges[v], s.dy[v]))
  }

  /** The positions across the flow. No rounds of relaxation are made if a node is worth nothing. */
  method Across(s: Sankey, gap: real, extent: real, layoutIterations: nat)
    returns (k: Option<real>, ghost rounds: nat, ghost h: History)
    requires s.Sized() && Partition(s.layers, s.g.size) && gap >= 0.0 && forall e :: 0 <= e < |s.edgeValue| ==>
               s.edgeValue[e] >= 0.0
    modifies s
    ensures s.Sized() && SameLayers(old(s.layers), s.layers) && Partition(s.layers, s.g.size)
    ensures k.Some? <==> HasScale(s.g, s.edgeValue, s.ownValue, old(s.layers), gap, extent)
    ensures k.Some? ==> LaidOut(s, k.value, gap, extent)
    ensures rounds == if exists v: nat :: v < s.g.size && NodeWorth(s.g, s.edgeValue, s.ownValue, v) == 0.0 then 0
                      else layoutIterations
    ensures k.Some? ==>
              Played(Setting(s.g, s.edgeValue, s.dy, old(s.outEdges), old(s.inEdges), gap, extent), old(s.layers),
                     rounds, h, Stand(s.y, s.layers))
  {
    hide Played, FitsWithGaps;
    hide HasScale, NodeWorth, Partition, AllResolved, AllPacked, Fitted, SortedBy, Product, Stacked, RibbonsIn,
         FarPositions, SameLayers,
         Sankey.Worth, Sankey.Scalable, GapsFit, LeastScale, SumOver, LayerScale;
    s.ComputeNodeValues();
    var worthless := false;
    for v := 0 to s.g.size
      invariant s.Sized() && Partition(s.layers, s.g.size) && s.layers == old(s.layers)
      invariant forall u :: 0 <= u < s.g.size ==> s.value[u] == s.Worth(u)
      invariant forall u :: 0 <= u < v ==> s.value[u] >= 0.0
      invariant worthless <==> exists u: nat :: u < v && s.value[u] == 0.0
      invariant s.outEdges == old(s.outEdges) && s.inEdges == old(s.inEdges)
    {
      s.WorthNonNegative(v);
      worthless := worthless || s.value[v] == 0.0;
    }
    ghost var before := s.layers;
    ScalableMeans(s, gap, extent);
    rounds := if worthless then 0 else layoutIterations;
    assert worthless <==> exists v: nat :: v < s.g.size && NodeWorth(s.g, s.edgeValue, s.ownValue, v) == 0.0 by {
      WorthIsNodeWorth(s);
    }
    k, h := s.PlaceNodes(gap, extent, if worthless then 0 else layoutIterations);
    if k.Some? {
      GapsSame(before, s.layers, gap, extent);
      PartitionWithin(before, s.g.size);
      PartitionWithin(s.layers, s.g.size);
      StillSmallest(s.value, before, s.layers, k.value, gap, extent);
      s.PlaceEdges(k.value);
    }
  }

  datatype Chart = CycleError | InfiniteScale | Laid(sankey: Sankey, scale: real)

  /** The whole layout. It fails exactly on graphs with cycles, and has no finite scale exactly if no node is
      worth anything, or a layer worth nothing has no room for its gaps. Without a cycle the layers are the
      nodes of equal depth, by depth, the depths are as the alignment has them, and every edge leads to a
      later layer if no depths are given by the user. With a finite scale the positions across the flow are
      as LaidOut says, and they come about by the rounds of h. */
  method LayOut(g: Graph, edgeValue: seq<real>, ownValue: seq<real>, userDepth: seq<Option<nat>>, align: NodeAlign,
                breadth: real, gap: real, extent: real, layoutIterations: nat)
    returns (r: Chart, ghost layers: seq<seq<nat>>, ghost depth: seq<nat>, ghost deepest: int, ghost rounds: nat,
             ghost h: History)
    requires g.Valid() && |edgeValue| == |g.edges| && |ownValue| == |userDepth| == g.size
    requires breadth > 0.0 && gap >= 0.0 && forall e :: 0 <= e < |edgeValue| ==> edgeValue[e] >= 0.0
    ensures r.CycleError? <==> g.Cyclic()
    ensures !r.CycleError? ==>
              && Deepest(g, userDepth, deepest) && Aligned(g, userDepth, align, deepest, depth)
              && Partition(layers, g.size) && ByDepth(depth, layers)
              && (r.Laid? <==> HasScale(g, edgeValue, ownValue, layers, gap, extent))
              && ((forall v :: 0 <= v < g.size ==> userDepth[v].None?) ==> Forward(g, layers))
    ensures r.Laid? ==>
              var s := r.sankey;
              && fresh(s) && s.g == g && s.edgeValue == edgeValue && s.ownValue == ownValue && s.Sized()
              && LaidOut(s, r.scale, gap, extent) && SameLayers(layers, s.layers) && ByDepth(depth, s.layers)
              && ((forall v :: 0 <= v < g.size ==> userDepth[v].None?) ==> Forward(g, s.layers))
              && Played(Setting(g, edgeValue, s.dy, OutLists(g), InLists(g), gap, extent), layers, rounds, h,
                        Stand(s.y, s.layers))
    ensures r.Laid? ==>
              rounds == if exists v: nat :: v < g.size && NodeWorth(g, edgeValue, ownValue, v) == 0.0 then 0
                        else layoutIterations
  {
    hide Played, NodeWorth;
    rounds, h := 0, History([], Stand([], []), []);
    hide Graph.Cyclic, ByDepth, Forward, LaidOut, SameLayers, Partition, Deepest, HasScale, LongestTo, Longest, Sink;
    var columns;
    columns, depth, deepest := Columns(g, userDepth, align, breadth);
    if columns.None? {
      return CycleError, [], depth, deepest, rounds, h;
    }
    layers := columns.value;
    var s := new Sankey(g, edgeValue, ownValue);
    s.layers := columns.value;
    PartitionByDepth(depth, s.layers);
    var k;
    k, rounds, h := Across(s, gap, extent, layoutIterations);
    ByDepthSame(depth, layers, s.layers);
    if Forward(g, layers) {
      ForwardSame(g, layers, s.layers);
    }
    r := if k.Some? then Laid(s, k.value) else InfiniteScale;
  }

  lemma {:induction false} PartitionByDepth(depth: seq<nat>, layers: seq<seq<nat>>)
    requires ByDepth(depth, layers)
    ensures Partition(layers, |depth|)
  {
  }

  lemma {:induction false} ForwardSame(g: Graph, before: seq<seq<nat>>, layers: seq<seq<nat>>)
    requires Forward(g, before) && SameLayers(before, layers)
    ensures Forward(g, layers)
  {
    forall i, v: nat | 0 <= i < |layers|
      ensures v in layers[i] <==> v in before[i]
    {
      PermutedIn(before[i], layers[i], v);
    }
  }
}
