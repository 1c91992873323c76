/** The sankey diagram across its flow, functions `u`, `v`, `m`, `y`, `x`, `_`, `D` and `L` of
    module "81ac": node values, layers, the common scale, relaxation rounds and ribbons. Positions
    are y for a horizontal diagram and x for a vertical one. */
module SankeyDiagram {
  import opened Collections
  import opened SankeyRank
  import opened RealSums
  import opened SankeyPack
  import opened SankeyLayout

  // ---------------------------------------------------------------------------------
  // Layers

  /** One bucket per key: the indices with that key, ascending. */
  ghost predicate Bucketed(key: seq<real>, n: nat, keys: seq<real>, buckets: seq<seq<nat>>)
    requires n <= |key|
  {
    && |buckets| == |keys|
    && (forall i, j :: 0 <= i < j < |keys| ==> keys[i] != keys[j])
    && (forall b, v: nat {:trigger v in buckets[b]} :: 0 <= b < |keys| ==>
        (v in buckets[b] <==> v < n && key[v] == keys[b]))
    && (forall b :: 0 <= b < |keys| ==> buckets[b] != [] && Ascends(buckets[b]))
    && (forall v :: 0 <= v < n ==> key[v] in keys)
  }

  /** Groups the indices by key, keys in the order they are met. */
  method GroupData(key: seq<real>) returns (keys: seq<real>, buckets: seq<seq<nat>>)
    ensures Bucketed(key, |key|, keys, buckets)
  {
    keys, buckets := [], [];
    for v := 0 to |key|
      invariant Bucketed(key, v, keys, buckets)
    {
      var b := 0;
      while b < |keys| && keys[b] != key[v]
        invariant 0 <= b <= |keys| && forall i :: 0 <= i < b ==> keys[i] != key[v]
      {
        b := b + 1;
      }
      if b < |keys| {
        forall i | 0 <= i < |buckets[b]|
          ensures buckets[b][i] < v
        {
          var u: nat := buckets[b][i];
          assert u in buckets[b];
        }
        buckets := buckets[b := buckets[b] + [v]];
      } else {
        keys, buckets := keys + [key[v]], buckets + [[v]];
      }
    }
  }

  /** Layers in ascending order of the coordinate along the flow, which all nodes of a layer share. */
  ghost predicate LayeredBy(key: seq<real>, layers: seq<seq<nat>>) {
    && Partition(layers, |key|)
    && (forall i :: 0 <= i < |layers| ==> Ascends(layers[i]))
    && (forall i, u, v :: 0 <= i < |layers| && u in layers[i] && v in layers[i] ==> key[u] == key[v])
    && (forall i, j, u, v :: 0 <= i < j < |layers| && u in layers[i] && v in layers[j] ==> key[u] < key[v])
  }

  lemma PickedLayers(key: seq<real>, keys: seq<real>, buckets: seq<seq<nat>>, order: seq<nat>)
    requires Bucketed(key, |key|, keys, buckets) && Within(order, |keys|) && SortedBy(keys, order)
    requires NoDuplicates(order) && forall b: nat :: b < |keys| ==> b in order
    ensures LayeredBy(key, Gather(buckets, order))
  {
    var layers := Gather(buckets, order);
    forall i, j | 0 <= i < j < |layers|
      ensures keys[order[i]] < keys[order[j]] && DisjointLayers(layers[i], layers[j])
    {
      assert order[i] != order[j];
      forall v: nat | v in layers[i]
        ensures v !in layers[j]
      {
        assert key[v] == keys[order[i]];
      }
    }
    forall v | 0 <= v < |key|
      ensures InSomeLayer(layers, v)
    {
      var b: nat :| b < |keys| && keys[b] == key[v];
      assert b in order && v in buckets[b];
      var i :| 0 <= i < |order| && order[i] == b;
      assert v in layers[i];
    }
    forall i | 0 <= i < |layers|
      ensures layers[i] != [] && Within(layers[i], |key|) && NoDuplicates(layers[i])
    {
      forall p | 0 <= p < |layers[i]|
        ensures layers[i][p] < |key|
      {
        var b, v: nat := order[i], layers[i][p];
        assert v in buckets[b];
      }
    }
  }

  method BuildLayers(key: seq<real>) returns (layers: seq<seq<nat>>)
    ensures LayeredBy(key, layers)
  {
    hide LayeredBy;
    var keys, buckets := GroupData(key);
    var indices := seq(|keys|, i requires 0 <= i < |keys| => i);
    var order := SortBy(keys, indices);
    layers := Gather(buckets, order);
    PermutedNoDuplicates(indices, order);
    forall b: nat | b < |keys|
      ensures b in order
    {
      assert indices[b] == b;
      PermutedIn(indices, order, b);
    }
    PickedLayers(key, keys, buckets, order);
  }

  // ---------------------------------------------------------------------------------
  // Relaxation

  function Centre(y: seq<real>, dy: seq<real>, v: nat): real
    requires v < |y| == |dy|
  {
    y[v] + dy[v] / 2.0
  }

  /** The end of an edge a node looks at: its target when outward, else its source. */
  function Far(g: Graph, e: nat, outward: bool): nat
    requires e < |g.edges|
  {
    if outward then g.edges[e].1 else g.edges[e].0
  }

  ghost predicate EdgeList(g: Graph, list: seq<nat>) {
    Within(list, |g.edges|)
  }

  /** What a node is pulled towards, given the edges on one side of it. */
  function Neighbours(g: Graph, edgeValue: seq<real>, y: seq<real>, dy: seq<real>, list: seq<nat>,
                      outward: bool): (r: seq<Neighbour>)
    requires g.Valid() && |edgeValue| == |g.edges| && |y| == |dy| == g.size
    requires forall i :: 0 <= i < |list| ==> list[i] < |g.edges|
    ensures |r| == |list|
    ensures forall i :: 0 <= i < |r| ==> r[i] == Neighbour(Centre(y, dy, Far(g, list[i], outward)), edgeValue[list[i]])
  {
    seq(|list|, i requires 0 <= i < |list| => Neighbour(Centre(y, dy, Far(g, list[i], outward)), edgeValue[list[i]]))
  }

  /** Node v moved by alpha of the way from its old centre to where its neighbours now pull it. */
  ghost predicate Moved(g: Graph, edgeValue: seq<real>, y0: seq<real>, y: seq<real>, dy: seq<real>, list: seq<nat>,
                        outward: bool, alpha: real, v: nat)
    requires g.Valid() && |edgeValue| == |g.edges| && |y0| == |y| == |dy| == g.size && EdgeList(g, list) && v < g.size
  {
    if list == [] then y[v] == y0[v]
    else y[v] == y0[v] + Product(Pull(Neighbours(g, edgeValue, y, dy, list, outward)) - Centre(y0, dy, v), alpha)
  }

  ghost predicate FarOther(g: Graph, list: seq<nat>, outward: bool, v: nat)
    requires EdgeList(g, list)
  {
    forall i :: 0 <= i < |list| ==> Far(g, list[i], outward) != v
  }

  /** The positions after one node has moved. */
  ghost function Relaxed(g: Graph, edgeValue: seq<real>, y: seq<real>, dy: seq<real>, list: seq<nat>, outward: bool,
                         alpha: real, v: nat): (r: seq<real>)
    requires g.Valid() && |edgeValue| == |g.edges| && |y| == |dy| == g.size && EdgeList(g, list) && v < g.size
    ensures |r| == |y|
  {
    if list == [] then y
    else y[v := y[v] + Product(Pull(Neighbours(g, edgeValue, y, dy, list, outward)) - Centre(y, dy, v), alpha)]
  }

  ghost predicate ListsFit(g: Graph, lists: seq<seq<nat>>) {
    |lists| == g.size && forall v :: 0 <= v < g.size ==> EdgeList(g, lists[v])
  }

  /** The positions after the nodes have moved one after the other. */
  ghost function RelaxedAll(g: Graph, edgeValue: seq<real>, y: seq<real>, dy: seq<real>, lists: seq<seq<nat>>,
                            outward: bool, alpha: real, order: seq<nat>): (r: seq<real>)
    requires g.Valid() && |edgeValue| == |g.edges| && |y| == |dy| == g.size && ListsFit(g, lists) &&
             Within(order, g.size)
    ensures |r| == |y|
    decreases |order|
  {
    if order == [] then y
    else
      var before := RelaxedAll(g, edgeValue, y, dy, lists, outward, alpha, order[..|order| - 1]);
      var v := order[|order| - 1];
      Relaxed(g, edgeValue, before, dy, lists[v], outward, alpha, v)
  }

  lemma {:induction false} RelaxedConcat(g: Graph, edgeValue: seq<real>, y: seq<real>, dy: seq<real>,
                                         lists: seq<seq<nat>>, outward: bool, alpha: real, a: seq<nat>, b: seq<nat>)
    requires g.Valid() && |edgeValue| == |g.edges| && |y| == |dy| == g.size && ListsFit(g, lists) &&
             Within(a, g.size) && Within(b, g.size)
    ensures RelaxedAll(g, edgeValue, y, dy, lists, outward, alpha, a + b) ==
            RelaxedAll(g, edgeValue, RelaxedAll(g, edgeValue, y, dy, lists, outward, alpha, a), dy, lists, outward,
                       alpha, b)
    decreases |b|
  {
    hide Relaxed;
    if b == [] {
      assert a + b == a;
    } else {
      RelaxedConcat(g, edgeValue, y, dy, lists, outward, alpha, a, b[..|b| - 1]);
      assert (a + b)[..|a + b| - 1] == a + b[..|b| - 1];
    }
  }

  lemma {:induction false} RelaxedNext(g: Graph, edgeValue: seq<real>, y: seq<real>, dy: seq<real>,
                                       lists: seq<seq<nat>>, outward: bool, alpha: real, order: seq<nat>, v: nat)
    requires g.Valid() && |edgeValue| == |g.edges| && |y| == |dy| == g.size && ListsFit(g, lists) &&
             Within(order, g.size) && v < g.size
    ensures RelaxedAll(g, edgeValue, y, dy, lists, outward, alpha, order + [v]) ==
            Relaxed(g, edgeValue, RelaxedAll(g, edgeValue, y, dy, lists, outward, alpha, order), dy, lists[v], outward,
                    alpha, v)
  {
    hide Relaxed;
    assert (order + [v])[..|order|] == order;
  }

  lemma {:induction false} RelaxedNone(g: Graph, edgeValue: seq<real>, y: seq<real>, dy: seq<real>,
                                       lists: seq<seq<nat>>, outward: bool, alpha: real)
    requires g.Valid() && |edgeValue| == |g.edges| && |y| == |dy| == g.size && ListsFit(g, lists)
    ensures RelaxedAll(g, edgeValue, y, dy, lists, outward, alpha, []) == y
  {
  }

  /** The nodes of the first s layers of a pass, in the order of the pass. */
  ghost function PassOrder(layers: seq<seq<nat>>, s: nat, outward: bool): seq<nat>
    requires s <= |layers|
  {
    if s == 0 then [] else PassOrder(layers, s - 1, outward) + layers[if outward then |layers| - s else s - 1]
  }

  lemma {:induction false} PassOrderNext(layers: seq<seq<nat>>, s: nat, outward: bool)
    requires s < |layers|
    ensures PassOrder(layers, s + 1, outward) == PassOrder(layers, s, outward) +
            layers[if outward then |layers| - 1 - s else s]
  {
  }

  lemma {:induction false} PassOrderWithin(layers: seq<seq<nat>>, s: nat, outward: bool, n: nat)
    requires s <= |layers| && forall i :: 0 <= i < |layers| ==> Within(layers[i], n)
    ensures Within(PassOrder(layers, s, outward), n)
  {
    if s > 0 {
      PassOrderWithin(layers, s - 1, outward, n);
    }
  }

  /** Moves one node; its neighbours, if others, pull it as strongly after the move as before. */
  method MoveNode(g: Graph, edgeValue: seq<real>, y0: seq<real>, dy: seq<real>, list: seq<nat>, outward: bool,
                  alpha: real, v: nat)
    returns (y: seq<real>)
    requires g.Valid() && |edgeValue| == |g.edges| && |y0| == |dy| == g.size && EdgeList(g, list) && v < g.size
    ensures |y| == |y0| && forall u :: 0 <= u < g.size && u != v ==> y[u] == y0[u]
    ensures FarOther(g, list, outward, v) ==> Moved(g, edgeValue, y0, y, dy, list, outward, alpha, v)
    ensures y == Relaxed(g, edgeValue, y0, dy, list, outward, alpha, v)
  {
    hide Pull, Product;
    y := y0;
    if list != [] {
      var n := Neighbours(g, edgeValue, y, dy, list, outward);
      y := y[v := y[v] + Product(Pull(n) - Centre(y, dy, v), alpha)];
      if FarOther(g, list, outward, v) {
        assert Neighbours(g, edgeValue, y, dy, list, outward) == n;
      }
    }
  }

  lemma {:induction false} MovedInto(g: Graph, edgeValue: seq<real>, y0: seq<real>, y: seq<real>, dy: seq<real>,
                                     list: seq<nat>, outward: bool, alpha: real, v: nat, lo: real, hi: real)
    requires g.Valid() && |edgeValue| == |g.edges| && |y0| == |y| == |dy| == g.size && EdgeList(g, list) && v < g.size
    requires list != [] && 0.0 <= alpha <= 1.0 && Moved(g, edgeValue, y0, y, dy, list, outward, alpha, v)
    requires forall e :: 0 <= e < |edgeValue| ==> edgeValue[e] >= 0.0
    requires lo <= Centre(y0, dy, v) <= hi
    requires forall i :: 0 <= i < |list| ==> lo <= Centre(y, dy, Far(g, list[i], outward)) <= hi
    ensures lo <= Centre(y, dy, v) <= hi
  {
    var n := Neighbours(g, edgeValue, y, dy, list, outward);
    PullBetween(n, lo, hi);
    hide Pull;
    Between(Centre(y0, dy, v), Pull(n), alpha, lo, hi);
  }

  /** The other end of the edge, and the middle of the node there. */
  ghost function FarMiddle(g: Graph, y: seq<real>, dy: seq<real>, e: nat, outward: bool): real
    requires g.Valid() && |y| == |dy| == g.size && e < |g.edges|
  {
    if outward then y[g.edges[e].1] + dy[g.edges[e].1] / 2.0 else y[g.edges[e].0] + dy[g.edges[e].0] / 2.0
  }

  /** A node of this size is moved by alpha of the way from its middle to p. */
  ghost predicate Towards(position: real, size: real, p: real, alpha: real, moved: real) {
    moved == position + (p - (position + size / 2.0)) * alpha
  }

  /** What each edge contributes to a balance about p: its distance, times its value unless they are taken plain. */
  ghost predicate MomentsAbout(g: Graph, edgeValue: seq<real>, y: seq<real>, dy: seq<real>, outward: bool, p: real,
                               plain: bool, moment: seq<real>)
    requires g.Valid() && |edgeValue| == |g.edges| && |y| == |dy| == g.size
  {
    |moment| == |g.edges| && forall e :: 0 <= e < |g.edges| ==>
      moment[e] == (FarMiddle(g, y, dy, e, outward) - p) * if plain then 1.0 else edgeValue[e]
  }

  /** A node moves by alpha of the way from its middle to a point p about which its edges balance: their distances
      to the middles of the nodes at the other ends, times edge value, add up to nothing; the plain distances do if
      the edges are worth nothing. */
  lemma {:induction false} MovedBalances(g: Graph, edgeValue: seq<real>, y0: seq<real>, y: seq<real>, dy: seq<real>,
                                         list: seq<nat>, outward: bool, alpha: real, v: nat)
    returns (p: real, moment: seq<real>)
    requires g.Valid() && |edgeValue| == |g.edges| && |y0| == |y| == |dy| == g.size && EdgeList(g, list) && v < g.size
    requires list != [] && Moved(g, edgeValue, y0, y, dy, list, outward, alpha, v)
    ensures Towards(y0[v], dy[v], p, alpha, y[v])
    ensures MomentsAbout(g, edgeValue, y, dy, outward, p, SumOver(edgeValue, list) == 0.0, moment)
    ensures |moment| == |g.edges| && SumOver(moment, list) == 0.0
  {
    MovedBy(g, edgeValue, y0, y, dy, list, outward, alpha, v);
    hide SumOver, Pull, Neighbours, FarMiddle, Moved, Product, WeightSum, WeightedSum, CentreSum, Moments, MomentsAbout,
         Towards;
    var n := Neighbours(g, edgeValue, y, dy, list, outward);
    p := Pull(n);
    var plain := SumOver(edgeValue, list) == 0.0;
    moment := Moments(g, edgeValue, y, dy, outward, p, plain);
    MomentSum(g, edgeValue, y, dy, list, outward, p, plain);
    PullSolves(n);
  }

  lemma MovedBy(g: Graph, edgeValue: seq<real>, y0: seq<real>, y: seq<real>, dy: seq<real>, list: seq<nat>,
                outward: bool, alpha: real, v: nat)
    requires g.Valid() && |edgeValue| == |g.edges| && |y0| == |y| == |dy| == g.size && EdgeList(g, list) && v < g.size
    requires list != [] && Moved(g, edgeValue, y0, y, dy, list, outward, alpha, v)
    ensures Towards(y0[v], dy[v], Pull(Neighbours(g, edgeValue, y, dy, list, outward)), alpha, y[v])
  {
    hide Pull, Neighbours;
  }

  ghost function Moments(g: Graph, edgeValue: seq<real>, y: seq<real>, dy: seq<real>, outward: bool, p: real,
                   plain: bool): (r: seq<real>)
    requires g.Valid() && |edgeValue| == |g.edges| && |y| == |dy| == g.size
    ensures MomentsAbout(g, edgeValue, y, dy, outward, p, plain, r)
  {
    seq(|g.edges|, e requires 0 <= e < |g.edges| =>
      (FarMiddle(g, y, dy, e, outward) - p) * if plain then 1.0 else edgeValue[e])
  }

  /** The point neighbours pull to makes up for their distances. */
  lemma {:induction false} PullSolves(n: seq<Neighbour>)
    requires n != []
    ensures WeightSum(n) == 0.0 ==> CentreSum(n) == Product(Pull(n), |n| as real)
    ensures WeightSum(n) != 0.0 ==> WeightedSum(n) == Product(Pull(n), WeightSum(n))
  {
    hide WeightSum, WeightedSum, CentreSum;
    Divided(CentreSum(n), |n| as real);
    if WeightSum(n) != 0.0 {
      Divided(WeightedSum(n), WeightSum(n));
    }
  }

  lemma Divided(a: real, b: real)
    requires b != 0.0
    ensures Product(a / b, b) == a
  {
  }

  lemma {:induction false} MomentSum(g: Graph, edgeValue: seq<real>, y: seq<real>, dy: seq<real>, list: seq<nat>,
                                     outward: bool, p: real, plain: bool)
    requires g.Valid() && |edgeValue| == |g.edges| && |y| == |dy| == g.size && EdgeList(g, list)
    ensures var n, moment := Neighbours(g, edgeValue, y, dy, list, outward),
                             Moments(g, edgeValue, y, dy, outward, p, plain);
            && WeightSum(n) == SumOver(edgeValue, list)
            && (!plain ==> SumOver(moment, list) == WeightedSum(n) - Product(p, WeightSum(n)))
            && (plain ==> SumOver(moment, list) == CentreSum(n) - Product(p, |n| as real))
  {
    hide Product, FarMiddle;
    ProductPlus(p, 0.0, 0.0);
    if list != [] {
      var init, e := list[..|list| - 1], list[|list| - 1];
      var n, m := Neighbours(g, edgeValue, y, dy, list, outward), Neighbours(g, edgeValue, y, dy, init, outward);
      MomentSum(g, edgeValue, y, dy, init, outward, p, plain);
      assert n[..|n| - 1] == m;
      LastNeighbour(g, edgeValue, y, dy, list, outward);
      MomentIs(g, edgeValue, y, dy, outward, p, plain, e);
      hide Moments, Neighbours;
      var last := n[|n| - 1];
      ProductPlus(last.weight, last.centre - p, p);
      ProductPlus(p, WeightSum(m), last.weight);
      ProductPlus(p, |m| as real, 1.0);
    }
  }

  lemma LastNeighbour(g: Graph, edgeValue: seq<real>, y: seq<real>, dy: seq<real>, list: seq<nat>, outward: bool)
    requires g.Valid() && |edgeValue| == |g.edges| && |y| == |dy| == g.size && EdgeList(g, list) && list != []
    ensures Neighbours(g, edgeValue, y, dy, list, outward)[|list| - 1] ==
            Neighbour(FarMiddle(g, y, dy, list[|list| - 1], outward), edgeValue[list[|list| - 1]])
  {
  }

  lemma MomentIs(g: Graph, edgeValue: seq<real>, y: seq<real>, dy: seq<real>, outward: bool, p: real, plain: bool,
                 e: nat)
    requires g.Valid() && |edgeValue| == |g.edges| && |y| == |dy| == g.size && e < |g.edges|
    ensures Moments(g, edgeValue, y, dy, outward, p, plain)[e] ==
            if plain then FarMiddle(g, y, dy, e, outward) - p
              else Product(FarMiddle(g, y, dy, e, outward) - p, edgeValue[e])
  {
  }

  lemma Between(a: real, b: real, alpha: real, lo: real, hi: real)
    requires 0.0 <= alpha <= 1.0 && lo <= a <= hi && lo <= b <= hi
    ensures lo <= a + (b - a) * alpha <= hi
  {
    ProductOrder(0.0, if a <= b then b - a else a - b, alpha);
    ProductOrder(0.0, if a <= b then b - a else a - b, 1.0 - alpha);
  }

  /** The far ends of the listed edges are all among the nodes done. */
  ghost predicate FarIn(g: Graph, list: seq<nat>, outward: bool, done: set<nat>)
    requires EdgeList(g, list)
  {
    forall i :: 0 <= i < |list| ==> Far(g, list[i], outward) in done
  }

  /** Moving a node no neighbour of v leaves v's own move as it is. */
  lemma MovedKept(g: Graph, edgeValue: seq<real>, y0: seq<real>, y: seq<real>, y': seq<real>, dy: seq<real>,
                  list: seq<nat>, outward: bool, alpha: real, v: nat, done: set<nat>)
    requires g.Valid() && |edgeValue| == |g.edges| && |y0| == |y| == |y'| == |dy| == g.size && EdgeList(g, list) &&
             v < g.size
    requires Moved(g, edgeValue, y0, y, dy, list, outward, alpha, v)
    requires FarIn(g, list, outward, done) && v in done && forall u :: u in done && u < g.size ==> y'[u] == y[u]
    ensures Moved(g, edgeValue, y0, y', dy, list, outward, alpha, v)
  {
    assert Neighbours(g, edgeValue, y', dy, list, outward) == Neighbours(g, edgeValue, y, dy, list, outward);
  }

  /** Every edge leads to a later layer. */
  ghost predicate Forward(g: Graph, layers: seq<seq<nat>>) {
    forall e, k, l :: 0 <= e < |g.edges| && 0 <= l <= k < |layers| && g.edges[e].0 in layers[k] ==>
        g.edges[e].1 !in layers[l]
  }

  lemma StrictProduct(x: real, y: real, w: real)
    requires x < y && w > 0.0
    ensures Product(x, w) < Product(y, w)
  {
  }

  /** Depths that grow along every edge, as the ranking leaves them, give layers in which every
      edge leads to a later one, whatever the breadth of a level. */
  lemma DepthsGiveForward(g: Graph, depth: seq<nat>, breadth: real, key: seq<real>, layers: seq<seq<nat>>)
    requires g.Valid() && |depth| == |key| == g.size && breadth > 0.0 && LayeredBy(key, layers)
    requires forall v :: 0 <= v < g.size ==> key[v] == Product(depth[v] as real, breadth)
    requires forall a: nat, b: nat :: g.Edge(a, b) && a < g.size && b < g.size ==> depth[a] < depth[b]
    ensures Forward(g, layers)
  {
    forall e, k, l | 0 <= e < |g.edges| && 0 <= l <= k < |layers| && g.edges[e].0 in layers[k]
      ensures g.edges[e].1 !in layers[l]
    {
      var a, b := g.edges[e].0, g.edges[e].1;
      assert g.edges[e] == (a, b) && g.Edge(a, b);
      StrictProduct(depth[a] as real, depth[b] as real, breadth);
    }
  }

  /** Each list holds edges with this node at the near end. */
  ghost predicate HoldEdges(g: Graph, lists: seq<seq<nat>>, outward: bool) {
    |lists| == g.size && forall v, e :: 0 <= v < g.size && e in lists[v] ==> e < |g.edges| && Far(g, e, !outward) == v
  }

  ghost predicate SameOutside(y0: seq<real>, y: seq<real>, done: set<nat>) {
    |y| == |y0| && forall v :: 0 <= v < |y| && v !in done ==> y[v] == y0[v]
  }

  /** The nodes done have moved, and so have all they were pulled by. */
  ghost predicate AllMoved(g: Graph, edgeValue: seq<real>, y0: seq<real>, y: seq<real>, dy: seq<real>,
                           lists: seq<seq<nat>>, outward: bool, alpha: real, done: set<nat>)
    requires g.Valid() && |edgeValue| == |g.edges| && |y0| == |y| == |dy| == g.size == |lists|
  {
    forall v {:trigger lists[v]} :: 0 <= v < g.size && v in done ==>
      EdgeList(g, lists[v]) && FarIn(g, lists[v], outward, done) &&
        Moved(g, edgeValue, y0, y, dy, lists[v], outward, alpha, v)
  }

  lemma SameOutsideStep(y0: seq<real>, y: seq<real>, y': seq<real>, done: set<nat>, v: nat)
    requires SameOutside(y0, y, done) && |y'| == |y| && v < |y| && forall u :: 0 <= u < |y| && u != v ==> y'[u] == y[u]
    ensures SameOutside(y0, y', done + {v})
  {
  }

  lemma FarGrows(g: Graph, list: seq<nat>, outward: bool, done: set<nat>, now: set<nat>, v: nat)
    requires EdgeList(g, list) && FarIn(g, list, outward, done) && done <= now && v !in now
    ensures FarIn(g, list, outward, now) && FarOther(g, list, outward, v)
  {
  }

  lemma AllMovedStep(g: Graph, edgeValue: seq<real>, y0: seq<real>, y: seq<real>, y': seq<real>, dy: seq<real>,
                     lists: seq<seq<nat>>, outward: bool, alpha: real, done: set<nat>, v: nat)
    requires g.Valid() && |edgeValue| == |g.edges| && |y0| == |y| == |y'| == |dy| == g.size == |lists| && v < g.size
    requires AllMoved(g, edgeValue, y0, y, dy, lists, outward, alpha, done) && v !in done && SameOutside(y0, y, done)
    requires EdgeList(g, lists[v]) && FarIn(g, lists[v], outward, done) &&
             Moved(g, edgeValue, y, y', dy, lists[v], outward, alpha, v)
    requires forall u :: 0 <= u < g.size && u != v ==> y'[u] == y[u]
    ensures AllMoved(g, edgeValue, y0, y', dy, lists, outward, alpha, done + {v})
  {
    assert Moved(g, edgeValue, y0, y', dy, lists[v], outward, alpha, v);
    forall u | 0 <= u < g.size && u in done
      ensures FarIn(g, lists[u], outward, done + {v}) && Moved(g, edgeValue, y0, y', dy, lists[u], outward, alpha, u)
    {
      MovedKept(g, edgeValue, y0, y, y', dy, lists[u], outward, alpha, u, done);
    }
  }

  /** The layers a pass is through with after s steps. */
  ghost predicate Passed(count: nat, s: nat, outward: bool, l: nat) {
    if outward then l + s >= count else l < s
  }

  ghost predicate PassDone(layers: seq<seq<nat>>, s: nat, outward: bool, done: set<nat>) {
    forall l, u :: 0 <= l < |layers| && u in layers[l] ==> (u in done <==> Passed(|layers|, s, outward, l))
  }

  lemma PassStart(g: Graph, edgeValue: seq<real>, y: seq<real>, dy: seq<real>, lists: seq<seq<nat>>, outward: bool,
                  alpha: real, layers: seq<seq<nat>>)
    requires g.Valid() && |edgeValue| == |g.edges| && |y| == |dy| == g.size == |lists|
    ensures PassDone(layers, 0, outward, {}) && AllMoved(g, edgeValue, y, y, dy, lists, outward, alpha, {})
  {
  }

  /** The layer next in the pass is not done, but all that its nodes look at is. */
  lemma PassStep(g: Graph, layers: seq<seq<nat>>, s: nat, outward: bool, done: set<nat>, i: nat, lists: seq<seq<nat>>)
    requires g.Valid() && Partition(layers, g.size) && s < |layers| && i == (if outward then |layers| - 1 - s else s)
    requires PassDone(layers, s, outward, done) && HoldEdges(g, lists, outward)
    ensures forall v :: v in layers[i] ==> v !in done
    ensures PassDone(layers, s + 1, outward, done + SetOf(layers[i]))
    ensures forall v :: v in layers[i] ==>
              v < g.size && EdgeList(g, lists[v]) && (Forward(g, layers) ==> FarIn(g, lists[v], outward, done))
  {
    hide SetOf;
    PartitionWithin(layers, g.size);
    forall v | v in layers[i]
      ensures v !in done
    {
      assert !Passed(|layers|, s, outward, i);
    }
    forall l, u | 0 <= l < |layers| && u in layers[l]
      ensures u in done + SetOf(layers[i]) <==> Passed(|layers|, s + 1, outward, l)
    {
      assert l < i ==> DisjointLayers(layers[l], layers[i]);
      assert i < l ==> DisjointLayers(layers[i], layers[l]);
    }
    forall v | v in layers[i]
      ensures v < g.size && EdgeList(g, lists[v]) && (Forward(g, layers) ==> FarIn(g, lists[v], outward, done))
    {
      forall p | 0 <= p < |lists[v]|
        ensures lists[v][p] < |g.edges| && (Forward(g, layers) ==> Far(g, lists[v][p], outward) in done)
      {
        assert lists[v][p] in lists[v];
        if Forward(g, layers) {
          FarDone(g, layers, s, outward, done, i, lists[v][p]);
        }
      }
    }
  }

  lemma FarDone(g: Graph, layers: seq<seq<nat>>, s: nat, outward: bool, done: set<nat>, i: nat, e: nat)
    requires g.Valid() && Partition(layers, g.size) && s < |layers| && i == (if outward then |layers| - 1 - s else s)
    requires PassDone(layers, s, outward, done) && Forward(g, layers) && e < |g.edges| &&
             Far(g, e, !outward) in layers[i]
    ensures Far(g, e, outward) in done
  {
    var u := Far(g, e, outward);
    assert InSomeLayer(layers, u);
    var l :| 0 <= l < |layers| && u in layers[l];
    assert Passed(|layers|, s, outward, l);
  }

  lemma PassEnd(g: Graph, edgeValue: seq<real>, y0: seq<real>, y: seq<real>, dy: seq<real>, lists: seq<seq<nat>>,
                outward: bool, alpha: real, layers: seq<seq<nat>>, done: set<nat>, v: nat)
    requires g.Valid() && |edgeValue| == |g.edges| && |y0| == |y| == |dy| == g.size == |lists| && v < g.size
    requires Partition(layers, g.size) && PassDone(layers, |layers|, outward, done)
    requires AllMoved(g, edgeValue, y0, y, dy, lists, outward, alpha, done)
    ensures EdgeList(g, lists[v]) && Moved(g, edgeValue, y0, y, dy, lists[v], outward, alpha, v)
  {
    assert InSomeLayer(layers, v);
    var l :| 0 <= l < |layers| && v in layers[l];
    assert Passed(|layers|, |layers|, outward, l);
  }

  /** The nodes of a layer stand at 0, 1, 2, ... */
  ghost predicate Ranks(y: seq<real>, layer: seq<nat>) {
    Within(layer, |y|) && forall r :: 0 <= r < |layer| ==> y[layer[r]] == r as real
  }

  /** What the resolver leaves of a layer: apart, and packed when the layer fits. */
  ghost predicate Resolved(y: seq<real>, dy: seq<real>, layer: seq<nat>, gap: real, extent: real)
    requires Within(layer, |y|) && |dy| == |y|
  {
    && Apart(Gather(y, layer), Gather(dy, layer), gap)
    && (LayerFits(dy, layer, gap, extent) ==> LayerPacked(y, dy, layer, gap, extent))
  }

  lemma ResolvedKept(y: seq<real>, y': seq<real>, dy: seq<real>, layer: seq<nat>, gap: real, extent: real)
    requires Within(layer, |y|) && |dy| == |y| == |y'| && Resolved(y, dy, layer, gap, extent)
    requires forall v :: v in layer ==> y'[v] == y[v]
    ensures Resolved(y', dy, layer, gap, extent)
  {
    assert Gather(y', layer) == Gather(y, layer);
  }

  lemma PartitionWithin(layers: seq<seq<nat>>, n: nat)
    requires Partition(layers, n)
    ensures forall j :: 0 <= j < |layers| ==> Within(layers[j], n)
    ensures forall j, k :: 0 <= j < k < |layers| ==> DisjointLayers(layers[j], layers[k])
  {
  }

  lemma SortedSame(y: seq<real>, y': seq<real>, layer: seq<nat>)
    requires Within(layer, |y|) && |y'| == |y| && SortedBy(y, layer)
    requires forall v :: v in layer ==> y'[v] == y[v]
    ensures SortedBy(y', layer)
  {
  }

  lemma PartitionFacts(layers: seq<seq<nat>>, n: nat, i: nat)
    requires Partition(layers, n) && i < |layers|
    ensures layers[i] != [] && Within(layers[i], n) && NoDuplicates(layers[i])
  {
  }

  /** Layer by layer the same nodes, reordered. */
  ghost predicate SameLayers(before: seq<seq<nat>>, after: seq<seq<nat>>) {
    |before| == |after| && forall i :: 0 <= i < |before| ==> multiset(before[i]) == multiset(after[i])
  }

  lemma SamePositions(y: seq<real>, y': seq<real>, layer: seq<nat>)
    requires Within(layer, |y|) && |y'| == |y| && Gather(y', layer) == Gather(y, layer)
    requires forall v :: 0 <= v < |y| && v !in layer ==> y'[v] == y[v]
    ensures y' == y
  {
    forall v | 0 <= v < |y|
      ensures y'[v] == y[v]
    {
      if v in layer {
        var r :| 0 <= r < |layer| && layer[r] == v;
        assert Gather(y', layer)[r] == Gather(y, layer)[r];
      }
    }
  }

  /** What the resolver makes of a layer: it is sorted by where its nodes were, and they are pushed apart as far
      as it takes. */
  ghost predicate SettledLayer(y0: seq<real>, y: seq<real>, dy: seq<real>, layer: seq<nat>, gap: real, extent: real)
  {
    && |y0| == |y| == |dy| && Within(layer, |y|) && SortedBy(y0, layer)
    && Settled(Gather(y0, layer), Gather(dy, layer), gap, extent, Gather(y, layer))
  }

  lemma SettledElsewhere(y0: seq<real>, y: seq<real>, y0': seq<real>, y': seq<real>, dy: seq<real>, layer: seq<nat>,
                         gap: real, extent: real)
    requires SettledLayer(y0, y, dy, layer, gap, extent) && |y0'| == |y0| && |y'| == |y|
    requires forall v :: v in layer ==> y'[v] == y[v] && y0'[v] == y0[v]
    ensures SettledLayer(y0', y', dy, layer, gap, extent)
  {
    hide Settled;
    assert Gather(y', layer) == Gather(y, layer) && Gather(y0', layer) == Gather(y0, layer);
  }

  /** The resolver on one layer: sort by position, push apart, write back. */
  method ResolveNodes(y0: seq<real>, dy: seq<real>, layer: seq<nat>, gap: real, extent: real)
    returns (y: seq<real>, sorted: seq<nat>)
    requires layer != [] && Within(layer, |y0|) && NoDuplicates(layer) && |dy| == |y0| && gap >= 0.0
    ensures |y| == |y0| && multiset(sorted) == multiset(layer) && Within(sorted, |y0|)
    ensures SortedBy(y0, sorted) && Resolved(y, dy, sorted, gap, extent)
    ensures SettledLayer(y0, y, dy, sorted, gap, extent)
    ensures forall v :: 0 <= v < |y| && v !in sorted ==> y[v] == y0[v]
    ensures SortedBy(y0, layer) && LayerPacked(y0, dy, layer, gap, extent) ==> y == y0 && sorted == layer
  {
    hide SortedBy, LayerFits, NoDuplicates, Settled;
    sorted := SortBy(y0, layer);
    PermutedNoDuplicates(layer, sorted);
    assert |sorted| == |multiset(sorted)| == |layer|;
    var pos := Resolve(Gather(y0, sorted), Gather(dy, sorted), gap, extent);
    y := Scatter(y0, sorted, pos);
    if LayerFits(dy, sorted, gap, extent) {
      LayerFitsFits(dy, sorted, gap, extent);
    }
    if SortedBy(y0, layer) && LayerPacked(y0, dy, layer, gap, extent) {
      SamePositions(y0, y, sorted);
    }
  }

  ghost predicate AllResolved(y: seq<real>, dy: seq<real>, layers: seq<seq<nat>>, gap: real, extent: real)
    requires |dy| == |y|
  {
    forall i :: 0 <= i < |layers| ==> Within(layers[i], |y|) && Resolved(y, dy, layers[i], gap, extent)
  }

  ghost predicate AllPacked(y: seq<real>, dy: seq<real>, layers: seq<seq<nat>>, gap: real, extent: real)
    requires |dy| == |y|
  {
    forall i :: 0 <= i < |layers| ==> Within(layers[i], |y|) && LayerPacked(y, dy, layers[i], gap, extent)
  }

  // ---------------------------------------------------------------------------------
  // The course of the rounds

  /** Where the nodes are, and their order in the layers. */
  datatype Stand = Stand(y: seq<real>, layers: seq<seq<nat>>)

  /** Half a round: a pass that moves the nodes, and the resolver after it. */
  datatype Half = Half(outward: bool, alpha: real, before: Stand, moved: seq<real>, after: Stand)

  /** The nodes at their ranks, what the resolver makes of them, and the halves of the rounds. */
  datatype History = History(ranks: seq<real>, start: Stand, halves: seq<Half>)

  /** What stays the same during the rounds. */
  datatype Setting = Setting(g: Graph, edgeValue: seq<real>, dy: seq<real>, outEdges: seq<seq<nat>>,
                             inEdges: seq<seq<nat>>, gap: real, extent: real)
  {
    ghost predicate Fits() {
      && g.Valid() && |edgeValue| == |g.edges| && |dy| == g.size
      && ListsFit(g, outEdges) && ListsFit(g, inEdges)
    }

    function Lists(outward: bool): seq<seq<nat>> { if outward then outEdges else inEdges }
  }

  /** A pass: the nodes move one after the other in the order of the pass. When every edge leads to a later
      layer, each moves by alpha of the way to where the nodes at the other ends of its edges stand in the end. */
  ghost predicate Shifted(s: Setting, half: Half) {
    && s.Fits() && |half.before.y| == |half.moved| == s.g.size
    && Within(PassOrder(half.before.layers, |half.before.layers|, half.outward), s.g.size)
    && half.moved == RelaxedAll(s.g, s.edgeValue, half.before.y, s.dy, s.Lists(half.outward), half.outward, half.alpha,
                                PassOrder(half.before.layers, |half.before.layers|, half.outward))
    && (Forward(s.g, half.before.layers) ==>
        forall v :: 0 <= v < s.g.size ==>
          Moved(s.g, s.edgeValue, half.before.y, half.moved, s.dy, s.Lists(half.outward)[v], half.outward, half.alpha,
                v))
  }

  /** The resolver on all layers. */
  ghost predicate SettledFrom(s: Setting, y0: seq<real>, layers0: seq<seq<nat>>, after: Stand) {
    && SameLayers(layers0, after.layers)
    && forall i :: 0 <= i < |after.layers| ==> SettledLayer(y0, after.y, s.dy, after.layers[i], s.gap, s.extent)
  }

  ghost predicate HalfDone(s: Setting, half: Half) {
    Shifted(s, half) && SettledFrom(s, half.moved, half.before.layers, half.after)
  }

  /** A round is an outward half and an inward one, each starting where the one before ended; alpha is 0.99 in the
      first round, and in each round 0.99 of what it was in the one before. */
  ghost predicate Relaxation(s: Setting, start: Stand, halves: seq<Half>, end: Stand) {
    && (forall i :: 0 <= i < |halves| ==> HalfDone(s, halves[i]))
    && (halves == [] ==> end == start)
    && (halves != [] ==>
        && halves[0].before == start && halves[0].outward && halves[0].alpha == 0.99
        && halves[|halves| - 1].after == end)
    && (forall i, j :: 0 <= i && j == i + 1 < |halves| ==>
        && halves[j].before == halves[i].after && halves[j].outward == !halves[i].outward
        && halves[j].alpha == if halves[j].outward then 0.99 * halves[i].alpha else halves[i].alpha)
  }

  /** From the nodes at their ranks, through the resolver and so many rounds, to where they stand in the end. */
  ghost predicate Played(s: Setting, layers0: seq<seq<nat>>, rounds: nat, h: History, end: Stand) {
    && |h.ranks| == s.g.size && (forall i :: 0 <= i < |layers0| ==> Ranks(h.ranks, layers0[i]))
    && SettledFrom(s, h.ranks, layers0, h.start)
    && |h.halves| == 2 * rounds && Relaxation(s, h.start, h.halves, end)
  }

  lemma {:induction false} NoRounds(s: Setting, start: Stand)
    ensures Relaxation(s, start, [], start)
  {
  }

  lemma SameLayersSelf(a: seq<seq<nat>>)
    ensures SameLayers(a, a)
  {
  }

  lemma SameLayersTwice(a: seq<seq<nat>>, b: seq<seq<nat>>, c: seq<seq<nat>>)
    requires SameLayers(a, b) && SameLayers(b, c)
    ensures SameLayers(a, c)
  {
  }

  lemma {:induction false} OneMoreRound(s: Setting, start: Stand, halves: seq<Half>, end: Stand, a: Half, b: Half,
                                        alpha: real)
    requires Relaxation(s, start, halves, end) && |halves| % 2 == 0
    requires halves == [] ==> alpha == 1.0
    requires halves != [] ==> !halves[|halves| - 1].outward && halves[|halves| - 1].alpha == alpha
    requires HalfDone(s, a) && HalfDone(s, b) && a.before == end && b.before == a.after
    requires a.outward && !b.outward && a.alpha == b.alpha == alpha * 0.99
    ensures Relaxation(s, start, halves + [a, b], b.after)
  {
    hide HalfDone;
  }

  /** All layers fit, and one of them fills the extent. */
  ghost predicate Fitted(dy: seq<real>, layers: seq<seq<nat>>, gap: real, extent: real) {
    && (forall i :: 0 <= i < |layers| ==> Within(layers[i], |dy|) && LayerFits(dy, layers[i], gap, extent))
    && (exists i :: 0 <= i < |layers| && SumOver(dy, layers[i]) + Gaps(|layers[i]|, gap) == extent)
  }

  /** k is the smallest of the scales at which those of the first n layers that are worth something just fit. */
  ghost predicate LeastScale(value: seq<real>, layers: seq<seq<nat>>, n: nat, k: real, gap: real, extent: real)
    requires n <= |layers| && forall i :: 0 <= i < |layers| ==> Within(layers[i], |value|)
  {
    && (forall i :: 0 <= i < n ==>
        Within(layers[i], |value|) &&
          (SumOver(value, layers[i]) > 0.0 ==> k <= LayerScale(value, layers[i], gap, extent)))
    && (exists i :: 0 <= i < n &&
                    Within(layers[i], |value|) && SumOver(value, layers[i]) > 0.0 &&
                    k == LayerScale(value, layers[i], gap, extent))
  }

  /** The greatest of what flows out of a node, what flows in and its own value. */
  ghost function NodeWorth(g: Graph, edgeValue: seq<real>, ownValue: seq<real>, v: nat): (r: real)
    requires v < g.size && |edgeValue| == |g.edges| && v < |ownValue|
    ensures var outflow, inflow := SumOver(edgeValue, g.OutEdges(v, |g.edges|)),
                                   SumOver(edgeValue, g.InEdges(v, |g.edges|));
            && r >= outflow && r >= inflow && r >= ownValue[v]
            && (r == outflow || r == inflow || r == ownValue[v])
  {
    Max(Max(SumOver(edgeValue, g.OutEdges(v, |g.edges|)), SumOver(edgeValue, g.InEdges(v, |g.edges|))), ownValue[v])
  }

  /** The gaps of each layer alone have room. */
  ghost predicate GapsFit(layers: seq<seq<nat>>, gap: real, extent: real) {
    forall i :: 0 <= i < |layers| ==> Gaps(|layers[i]|, gap) <= extent
  }

  lemma {:induction false} GapsSame(before: seq<seq<nat>>, layers: seq<seq<nat>>, gap: real, extent: real)
    requires SameLayers(before, layers)
    ensures GapsFit(before, gap, extent) <==> GapsFit(layers, gap, extent)
  {
    hide Gaps;
    forall i | 0 <= i < |layers|
      ensures |layers[i]| == |before[i]|
    {
      assert |before[i]| == |multiset(before[i])| == |layers[i]|;
    }
  }

  /** The nodes of the layer stand from 0 to the end of the extent with just the gaps between them. */
  ghost predicate FillsExtent(y: seq<real>, dy: seq<real>, layer: seq<nat>, gap: real, extent: real) {
    && |y| == |dy| && layer != [] && Within(layer, |y|)
    && y[layer[0]] == 0.0 && y[layer[|layer| - 1]] + dy[layer[|layer| - 1]] == extent
    && forall i, j :: 0 <= i && j == i + 1 < |layer| ==> y[layer[j]] == y[layer[i]] + dy[layer[i]] + gap
  }

  lemma {:induction false} FloorNext(size: seq<real>, gap: real)
    ensures Floor(size, gap, 0) == 0.0
    ensures forall i, j :: 0 <= i && j == i + 1 < |size| ==> Floor(size, gap, j) == Floor(size, gap, i) + size[i] + gap
  {
  }

  lemma {:induction false} LayerEnd(dy: seq<real>, layer: seq<nat>, gap: real)
    requires layer != [] && Within(layer, |dy|)
    ensures Floor(Gather(dy, layer), gap, |layer| - 1) + Gather(dy, layer)[|layer| - 1] ==
            SumOver(dy, layer) + Gaps(|layer|, gap)
  {
    var last := |layer| - 1;
    FloorIsSum(dy, layer, gap, last);
    assert layer[..last] == layer[..|layer| - 1] && last as real == |layer| as real - 1.0;
  }

  lemma {:induction false} FullLayer(y: seq<real>, dy: seq<real>, layer: seq<nat>, gap: real, extent: real)
    requires |y| == |dy| && layer != [] && Within(layer, |y|) && LayerPacked(y, dy, layer, gap, extent)
    requires SumOver(dy, layer) + Gaps(|layer|, gap) == extent
    ensures FillsExtent(y, dy, layer, gap, extent)
  {
    hide SumOver, Gaps, Apart, Inside, Floor;
    var pos, size := Gather(y, layer), Gather(dy, layer);
    var last := |layer| - 1;
    LayerEnd(dy, layer, gap);
    FilledAtFloor(pos, size, gap, extent, 0);
    FilledAtFloor(pos, size, gap, extent, last);
    FloorNext(size, gap);
    forall i, j | 0 <= i && j == i + 1 < |layer|
      ensures y[layer[j]] == y[layer[i]] + dy[layer[i]] + gap
    {
      FilledAtFloor(pos, size, gap, extent, i);
      FilledAtFloor(pos, size, gap, extent, j);
    }
  }

  /** If the gaps of each layer have room, all nodes are inside the extent, and some layer fills it. */
  ghost predicate FitsWithGaps(y: seq<real>, dy: seq<real>, layers: seq<seq<nat>>, gap: real, extent: real) {
    (forall i :: 0 <= i < |layers| ==> (|layers[i]| as real - 1.0) * gap <= extent) ==>
      && |y| == |dy| && (forall v :: 0 <= v < |y| ==> 0.0 <= y[v] && y[v] + dy[v] <= extent)
      && exists i :: 0 <= i < |layers| && FillsExtent(y, dy, layers[i], gap, extent)
  }

  lemma {:induction false} PackedFits(y: seq<real>, dy: seq<real>, layers: seq<seq<nat>>, gap: real, extent: real)
    requires |y| == |dy| && Partition(layers, |y|)
    requires GapsFit(layers, gap, extent) ==> AllPacked(y, dy, layers, gap, extent) && Fitted(dy, layers, gap, extent)
    ensures FitsWithGaps(y, dy, layers, gap, extent)
  {
    hide Fitted, LayerPacked, FillsExtent;
    if forall i :: 0 <= i < |layers| ==> (|layers[i]| as real - 1.0) * gap <= extent {
      assert GapsFit(layers, gap, extent);
      forall v | 0 <= v < |y|
        ensures 0.0 <= y[v] && y[v] + dy[v] <= extent
      {
        assert InSomeLayer(layers, v);
        var i :| 0 <= i < |layers| && v in layers[i];
        var r :| 0 <= r < |layers[i]| && layers[i][r] == v;
        PackedInside(y, dy, layers[i], gap, extent, r);
      }
      FittedFull(y, dy, layers, gap, extent);
    }
  }

  lemma PackedInside(y: seq<real>, dy: seq<real>, layer: seq<nat>, gap: real, extent: real, r: nat)
    requires |y| == |dy| && Within(layer, |y|) && LayerPacked(y, dy, layer, gap, extent) && r < |layer|
    ensures 0.0 <= y[layer[r]] && y[layer[r]] + dy[layer[r]] <= extent
  {
    assert Gather(y, layer)[r] == y[layer[r]] && Gather(dy, layer)[r] == dy[layer[r]];
  }

  lemma {:induction false} FittedFull(y: seq<real>, dy: seq<real>, layers: seq<seq<nat>>, gap: real, extent: real)
    requires |y| == |dy| && Partition(layers, |y|) && AllPacked(y, dy, layers, gap, extent)
    requires Fitted(dy, layers, gap, extent)
    ensures exists i :: 0 <= i < |layers| && FillsExtent(y, dy, layers[i], gap, extent)
  {
    hide SumOver, Gaps, LayerPacked, LayerFits, FillsExtent;
    var i :| 0 <= i < |layers| && SumOver(dy, layers[i]) + Gaps(|layers[i]|, gap) == extent;
    FullLayer(y, dy, layers[i], gap, extent);
  }

  lemma FittedPacked(y: seq<real>, dy: seq<real>, before: seq<seq<nat>>, layers: seq<seq<nat>>, gap: real, extent: real)
    requires |dy| == |y| && SameLayers(before, layers) && Fitted(dy, before, gap, extent) &&
             AllResolved(y, dy, layers, gap, extent)
    ensures AllPacked(y, dy, layers, gap, extent) && Fitted(dy, layers, gap, extent)
  {
    hide SumOver, Gaps, LayerFits, LayerPacked;
    forall i | 0 <= i < |layers|
      ensures LayerPacked(y, dy, layers[i], gap, extent) && LayerFits(dy, layers[i], gap, extent)
    {
      LayerFitsPermuted(dy, before[i], layers[i], gap, extent);
    }
    var i :| 0 <= i < |before| && SumOver(dy, before[i]) + Gaps(|before[i]|, gap) == extent;
    SumPermuted(dy, before[i], layers[i]);
    assert |before[i]| == |multiset(before[i])| == |layers[i]|;
  }

  lemma NonNegativeQuotient(a: real, b: real)
    requires a >= 0.0 && b > 0.0
    ensures a / b >= 0.0
  {
    assert a / b * b == a;
    FactorSign(a / b, b);
  }

  /** For each edge, where the node at its far end stands. */
  function FarPositions(g: Graph, y: seq<real>, outward: bool): (r: seq<real>)
    requires g.Valid() && |y| == g.size
    ensures |r| == |g.edges| && forall e :: 0 <= e < |r| ==> r[e] == y[Far(g, e, outward)]
  {
    seq(|g.edges|, e requires 0 <= e < |g.edges| => y[Far(g, e, outward)])
  }

  /** Stacks the listed ribbons. */
  method StackList(start0: seq<real>, width: seq<real>, edges: seq<nat>) returns (start: seq<real>)
    requires |start0| == |width| && Within(edges, |start0|) && NoDuplicates(edges)
    ensures |start| == |start0| && Stacked(start, width, edges)
    ensures forall e :: 0 <= e < |start| && e !in edges ==> start[e] == start0[e]
  {
    start := start0;
    var total := 0.0;
    StackNext(start, width, edges, 0);
    hide SumOver, StackedTo;
    for n := 0 to |edges|
      invariant |start| == |start0| && total == SumOver(width, edges[..n]) && StackedTo(start, width, edges, n)
      invariant forall e :: 0 <= e < |start| && e !in edges ==> start[e] == start0[e]
    {
      StackNext(start, width, edges, n);
      start := start[edges[n] := total];
      total := total + width[edges[n]];
    }
    StackDone(start, width, edges);
  }

  ghost predicate StackedTo(start: seq<real>, width: seq<real>, edges: seq<nat>, n: nat)
    requires |start| == |width| && Within(edges, |start|) && n <= |edges|
  {
    forall k :: 0 <= k < n ==> start[edges[k]] == SumOver(width, edges[..k])
  }

  lemma {:induction false} StackNext(start: seq<real>, width: seq<real>, edges: seq<nat>, n: nat)
    requires |start| == |width| && Within(edges, |start|) && n <= |edges| && NoDuplicates(edges)
    ensures n == 0 ==> SumOver(width, edges[..n]) == 0.0 && StackedTo(start, width, edges, n)
    ensures n < |edges| ==> SumOver(width, edges[..n + 1]) == SumOver(width, edges[..n]) + width[edges[n]]
    ensures n < |edges| && StackedTo(start, width, edges, n) ==>
              StackedTo(start[edges[n] := SumOver(width, edges[..n])], width, edges, n + 1)
  {
    if n < |edges| {
      assert edges[..n + 1][..n] == edges[..n];
      hide SumOver;
      assert forall k :: 0 <= k < n ==> edges[k] != edges[n];
    }
  }

  lemma StackDone(start: seq<real>, width: seq<real>, edges: seq<nat>)
    requires |start| == |width| && Within(edges, |start|) && StackedTo(start, width, edges, |edges|)
    ensures Stacked(start, width, edges)
  {
    hide SumOver;
  }

  lemma StackedKept(start: seq<real>, start': seq<real>, width: seq<real>, edges: seq<nat>, other: seq<nat>)
    requires |start| == |start'| == |width| && Within(edges, |start|) && Stacked(start, width, edges)
    requires forall e :: e in edges ==> e !in other
    requires forall e :: 0 <= e < |start| && e !in other ==> start'[e] == start[e]
    ensures Stacked(start', width, edges)
  {
    hide SumOver;
  }

  lemma OtherEdges(g: Graph, lists: seq<seq<nat>>, outward: bool, u: nat, v: nat)
    requires HoldEdges(g, lists, outward) && u < g.size && v < g.size && u != v
    ensures forall e :: e in lists[u] ==> e !in lists[v]
  {
  }

  /** Ribbons of a list lie within the extent of their node. */
  ghost predicate RibbonsIn(start: seq<real>, width: seq<real>, edges: seq<nat>, extent: real)
    requires |start| == |width| && Within(edges, |start|)
  {
    forall k :: 0 <= k < |edges| ==> 0.0 <= start[edges[k]] && start[edges[k]] + width[edges[k]] <= extent
  }

  /** A stack of ribbons of one scale lies within a node that is worth at least their sum. */
  lemma {:induction false} StackIn(edgeValue: seq<real>, width: seq<real>, start: seq<real>, edges: seq<nat>, k: real,
                                   worth: real)
    requires |start| == |width| == |edgeValue| && Within(edges, |start|) && Stacked(start, width, edges)
    requires k >= 0.0 && SumOver(edgeValue, edges) <= worth
    requires forall e :: 0 <= e < |width| ==> edgeValue[e] >= 0.0 && width[e] == Product(edgeValue[e], k)
    ensures RibbonsIn(start, width, edges, Product(worth, k))
  {
    hide SumOver, Product, Stacked;
    SumScaled(edgeValue, width, edges, k);
    ProductOrder(SumOver(edgeValue, edges), worth, k);
    forall i | 0 <= i < |edges|
      ensures width[edges[i]] >= 0.0
    {
      ProductOrder(0.0, edgeValue[edges[i]], k);
      ProductPlus(k, 0.0, 0.0);
    }
    forall i | 0 <= i < |edges|
      ensures 0.0 <= start[edges[i]] && start[edges[i]] + width[edges[i]] <= Product(worth, k)
    {
      StackWithin(start, width, edges, i);
    }
  }

  // ---------------------------------------------------------------------------------

  /** The edges out of each node, and into it, in the order of the graph. */
  function OutLists(g: Graph): (r: seq<seq<nat>>)
    ensures |r| == g.size && forall v :: 0 <= v < g.size ==> r[v] == g.OutEdges(v, |g.edges|)
  {
    seq(g.size, v requires 0 <= v < g.size => g.OutEdges(v, |g.edges|))
  }

  function InLists(g: Graph): (r: seq<seq<nat>>)
    ensures |r| == g.size && forall v :: 0 <= v < g.size ==> r[v] == g.InEdges(v, |g.edges|)
  {
    seq(g.size, v requires 0 <= v < g.size => g.InEdges(v, |g.edges|))
  }

  class Sankey {
    const g: Graph
    const edgeValue: seq<real>
    const ownValue: seq<real>
    var value: seq<real>
    var y: seq<real>
    var dy: seq<real>
    var edgeDy: seq<real>
    var sy: seq<real>
    var ty: seq<real>
    var layers: seq<seq<nat>>
    var outEdges: seq<seq<nat>>
    var inEdges: seq<seq<nat>>

    constructor (g: Graph, edgeValue: seq<real>, ownValue: seq<real>)
      requires g.Valid() && |edgeValue| == |g.edges| && |ownValue| == g.size
      ensures this.g == g && this.edgeValue == edgeValue && this.ownValue == ownValue && Sized() && layers == []
      ensures outEdges == OutLists(g) && inEdges == InLists(g)
    {
      this.g, this.edgeValue, this.ownValue := g, edgeValue, ownValue;
      value, y, dy := seq(g.size, _ => 0.0), seq(g.size, _ => 0.0), seq(g.size, _ => 0.0);
      edgeDy, sy, ty := seq(|g.edges|, _ => 0.0), seq(|g.edges|, _ => 0.0), seq(|g.edges|, _ => 0.0);
      layers := [];
      outEdges, inEdges := OutLists(g), InLists(g);
    }

    /** The records have one entry per node or edge; each node's edge lists hold its edges. */
    ghost predicate Sized()
      reads this
    {
      && g.Valid()
      && |edgeValue| == |edgeDy| == |sy| == |ty| == |g.edges|
      && |ownValue| == |value| == |y| == |dy| == |outEdges| == |inEdges| == g.size
      && (forall v :: 0 <= v < g.size ==>
          multiset(outEdges[v]) == multiset(g.OutEdges(v, |g.edges|)) && EdgeList(g, outEdges[v]))
      && (forall v :: 0 <= v < g.size ==>
          multiset(inEdges[v]) == multiset(g.InEdges(v, |g.edges|)) && EdgeList(g, inEdges[v]))
    }

    ghost function Worth(v: nat): real
      requires v < g.size && |edgeValue| == |g.edges| && v < |ownValue|
    {
      NodeWorth(g, edgeValue, ownValue, v)
    }

    /** A node is worth the greatest of what flows in, what flows out and its own value. */
    method ComputeNodeValues()
      requires Sized()
      modifies this`value
      ensures Sized()
      ensures forall v :: 0 <= v < g.size ==> value[v] == Worth(v)
    {
      hide SumOver, Graph.OutEdges, Graph.InEdges, Worth;
      for v := 0 to g.size
        invariant Sized()
        invariant forall u :: 0 <= u < v ==> value[u] == Worth(u)
      {
        WorthOf(v);
        value := value[v := Max(Max(SumOver(edgeValue, outEdges[v]), SumOver(edgeValue, inEdges[v])), ownValue[v])];
      }
    }

    lemma WorthOf(v: nat)
      requires Sized() && v < g.size
      ensures EdgeList(g, outEdges[v]) && EdgeList(g, inEdges[v])
      ensures Worth(v) == Max(Max(SumOver(edgeValue, outEdges[v]), SumOver(edgeValue, inEdges[v])), ownValue[v])
    {
      hide SumOver, Graph.OutEdges, Graph.InEdges;
      SumPermuted(edgeValue, outEdges[v], g.OutEdges(v, |g.edges|));
      SumPermuted(edgeValue, inEdges[v], g.InEdges(v, |g.edges|));
    }

    /** With no negative edge, no node is worth less than nothing. */
    lemma WorthNonNegative(v: nat)
      requires |edgeValue| == |g.edges| && v < g.size == |ownValue| && forall e :: 0 <= e < |edgeValue| ==>
                 edgeValue[e] >= 0.0
      ensures Worth(v) >= 0.0
    {
      SumNonNegative(edgeValue, g.OutEdges(v, |g.edges|));
    }

    /** Some layer is worth something, and one that is worth nothing has room for its gaps: the quotient
        of the first kind is the infinity the search for the smallest scale starts with. */
    ghost predicate Scalable(gap: real, extent: real)
      reads this`layers, this`value
    {
      && Partition(layers, g.size) && |value| == g.size && (forall v :: 0 <= v < g.size ==> value[v] >= 0.0)
      && (exists i :: 0 <= i < |layers| && SumOver(value, layers[i]) > 0.0)
      && (forall i :: 0 <= i < |layers| && SumOver(value, layers[i]) == 0.0 ==> Gaps(|layers[i]|, gap) <= extent)
    }

    ghost predicate Smallest(k: real, n: nat, gap: real, extent: real)
      requires Partition(layers, g.size) && |value| == g.size && n <= |layers|
      reads this`layers, this`value
    {
      LeastScale(value, layers, n, k, gap, extent)
    }

    /** The common scale: the smallest of the layers' own scales, so that all of them fit. None is an
        infinite one. */
    method CommonScale(gap: real, extent: real) returns (k: Option<real>)
      requires Sized() && Partition(layers, g.size) && forall v :: 0 <= v < g.size ==> value[v] >= 0.0
      ensures k.Some? <==> Scalable(gap, extent)
      ensures k.Some? ==> Smallest(k.value, |layers|, gap, extent)
    {
      hide SumOver, LayerScale, Gaps;
      k := None;
      var finite := true;
      for i := 0 to |layers|
        invariant k.None? <==> forall j :: 0 <= j < i ==> SumOver(value, layers[j]) <= 0.0
        invariant k.Some? ==> Smallest(k.value, i, gap, extent)
        invariant finite <==> forall j :: 0 <= j < i && SumOver(value, layers[j]) == 0.0 ==>
                    Gaps(|layers[j]|, gap) <= extent
      {
        if SumOver(value, layers[i]) > 0.0 {
          var own := LayerScale(value, layers[i], gap, extent);
          if k.None? || own < k.value {
            k := Some(own);
          }
        } else if SumOver(value, layers[i]) == 0.0 && Gaps(|layers[i]|, gap) > extent {
          finite := false;
        }
      }
      if !finite {
        k := None;
      }
    }

    /** Starts the nodes of a layer at their ranks, sized by the scale. */
    method PlaceLayer(layer: seq<nat>, k: real)
      requires Sized() && Within(layer, g.size) && NoDuplicates(layer)
      modifies this`y, this`dy
      ensures Sized() && Ranks(y, layer)
      ensures forall v :: 0 <= v < g.size && v !in layer ==> y[v] == old(y[v])
      ensures forall v :: 0 <= v < g.size ==> dy[v] == if v in layer then Product(value[v], k) else old(dy[v])
    {
      hide Product;
      for r := 0 to |layer|
        invariant Sized() && Ranks(y, layer[..r])
        invariant forall v :: 0 <= v < g.size && v !in layer ==> y[v] == old(y[v])
        invariant forall v :: 0 <= v < g.size ==> dy[v] == if v in layer[..r] then Product(value[v], k) else old(dy[v])
      {
        assert layer[..r + 1] == layer[..r] + [layer[r]];
        y := y[layer[r] := r as real];
        dy := dy[layer[r] := Product(value[layer[r]], k)];
      }
      assert layer[..|layer|] == layer;
    }

    method ScaleEdges(k: real)
      requires Sized()
      modifies this`edgeDy
      ensures Sized() && forall e :: 0 <= e < |g.edges| ==> edgeDy[e] == Product(edgeValue[e], k)
    {
      hide Product;
      for e := 0 to |g.edges|
        invariant Sized() && forall f :: 0 <= f < e ==> edgeDy[f] == Product(edgeValue[f], k)
      {
        edgeDy := edgeDy[e := Product(edgeValue[e], k)];
      }
    }

    /** Sizes of all nodes and edges by the common scale. */
    method InitialPositions(k: real)
      requires Sized() && Partition(layers, g.size)
      modifies this`y, this`dy, this`edgeDy
      ensures Sized() && forall i :: 0 <= i < |layers| ==> Ranks(y, layers[i])
      ensures forall v :: 0 <= v < g.size ==> dy[v] == Product(value[v], k)
      ensures forall e :: 0 <= e < |g.edges| ==> edgeDy[e] == Product(edgeValue[e], k)
    {
      hide Product;
      for i := 0 to |layers|
        invariant Sized() && forall j :: 0 <= j < i ==> Ranks(y, layers[j])
        invariant forall j, v :: 0 <= j < i && v in layers[j] ==> v < g.size && dy[v] == Product(value[v], k)
      {
        assert forall j :: 0 <= j < i ==> DisjointLayers(layers[j], layers[i]);
        PlaceLayer(layers[i], k);
      }
      forall v | 0 <= v < g.size
        ensures dy[v] == Product(value[v], k)
      {
        assert InSomeLayer(layers, v);
      }
      ScaleEdges(k);
    }

    // -------------------------------------------------------------------------------
    // Collisions

    /** Sorts one layer in place by position and pushes its nodes apart. */
    method ResolveLayer(i: nat, gap: real, extent: real)
      requires Sized() && Partition(layers, g.size) && i < |layers| && gap >= 0.0
      modifies this`y, this`layers
      ensures Sized() && Partition(layers, g.size) && |layers| == |old(layers)|
      ensures layers == old(layers)[i := layers[i]] && multiset(layers[i]) == multiset(old(layers)[i])
      ensures SortedBy(old(y), layers[i]) && Resolved(y, dy, layers[i], gap, extent)
      ensures SettledLayer(old(y), y, dy, layers[i], gap, extent)
      ensures forall v :: 0 <= v < g.size && v !in layers[i] ==> y[v] == old(y[v])
      ensures SortedBy(old(y), old(layers)[i]) && LayerPacked(old(y), dy, old(layers)[i], gap, extent) ==>
                y == old(y) && layers == old(layers)
    {
      hide LayerFits, LayerPacked, Resolved, Partition, SortedBy, NoDuplicates, SettledLayer;
      PartitionFacts(layers, g.size, i);
      var y', sorted := ResolveNodes(y, dy, layers[i], gap, extent);
      PartitionPermuted(layers, g.size, i, sorted);
      y, layers := y', layers[i := sorted];
    }

    /** The resolver on every layer. */
    method ResolveCollisions(gap: real, extent: real)
      requires Sized() && Partition(layers, g.size) && gap >= 0.0
      modifies this`y, this`layers
      ensures Sized() && Partition(layers, g.size) && SameLayers(old(layers), layers)
      ensures forall i :: 0 <= i < |layers| ==> SortedBy(old(y), layers[i]) && Resolved(y, dy, layers[i], gap, extent)
      ensures forall i :: 0 <= i < |layers| ==> SettledLayer(old(y), y, dy, layers[i], gap, extent)
    {
      hide Resolved, Partition, SortedBy, LayerPacked, SettledLayer;
      PartitionWithin(layers, g.size);
      for i := 0 to |layers|
        invariant Sized() && Partition(layers, g.size) && SameLayers(old(layers), layers)
        invariant forall j :: 0 <= j < |layers| ==> Within(layers[j], g.size)
        invariant forall j :: 0 <= j < i ==> SortedBy(old(y), layers[j]) && Resolved(y, dy, layers[j], gap, extent)
        invariant forall j :: 0 <= j < i ==> SettledLayer(old(y), y, dy, layers[j], gap, extent)
        invariant forall j, v :: i <= j < |layers| && v in layers[j] ==> y[v] == old(y)[v]
      {
        ghost var y0, before := y, layers[i];
        ResolveLayer(i, gap, extent);
        PartitionWithin(layers, g.size);
        forall v: nat | v in layers[i]
          ensures y0[v] == old(y)[v]
        {
          PermutedIn(layers[i], before, v);
        }
        SortedSame(y0, old(y), layers[i]);
        SettledElsewhere(y0, y, old(y), y, dy, layers[i], gap, extent);
        forall j | 0 <= j < i
          ensures Resolved(y, dy, layers[j], gap, extent) && SettledLayer(old(y), y, dy, layers[j], gap, extent)
        {
          assert DisjointLayers(layers[j], layers[i]);
          ResolvedKept(y0, y, dy, layers[j], gap, extent);
          SettledElsewhere(old(y), y0, old(y), y, dy, layers[j], gap, extent);
        }
      }
    }

    // -------------------------------------------------------------------------------
    // Relaxation

    function EdgeLists(outward: bool): seq<seq<nat>>
      reads this
    {
      if outward then outEdges else inEdges
    }

    lemma EdgeListsHold(outward: bool)
      requires Sized()
      ensures HoldEdges(g, EdgeLists(outward), outward)
    {
      hide Graph.OutEdges, Graph.InEdges;
      forall v, e | 0 <= v < g.size && e in EdgeLists(outward)[v]
        ensures e < |g.edges| && Far(g, e, !outward) == v
      {
        PermutedIn(EdgeLists(outward)[v], if outward then g.OutEdges(v, |g.edges|) else g.InEdges(v, |g.edges|), e);
      }
    }

    /** Moves a node towards the neighbours on one side. */
    method RelaxNode(v: nat, outward: bool, alpha: real)
      requires Sized() && v < g.size
      modifies this`y
      ensures Sized() && forall u :: 0 <= u < g.size && u != v ==> y[u] == old(y)[u]
      ensures FarOther(g, EdgeLists(outward)[v], outward, v) ==>
                Moved(g, edgeValue, old(y), y, dy, EdgeLists(outward)[v], outward, alpha, v)
      ensures y == Relaxed(g, edgeValue, old(y), dy, EdgeLists(outward)[v], outward, alpha, v)
    {
      hide Moved, Relaxed, FarOther, Graph.OutEdges, Graph.InEdges;
      y := MoveNode(g, edgeValue, y, dy, EdgeLists(outward)[v], outward, alpha, v);
    }

    /** One layer of a pass: the layers before it in the pass are done. */
    method RelaxLayer(i: nat, outward: bool, alpha: real, ghost y0: seq<real>, ghost done: set<nat>)
      requires Sized() && i < |layers| && Within(layers[i], g.size) && NoDuplicates(layers[i]) && |y0| == g.size
      requires HoldEdges(g, EdgeLists(outward), outward)
      requires forall v :: v in layers[i] ==> v !in done
      requires SameOutside(y0, y, done)
      requires Forward(g, layers) ==> AllMoved(g, edgeValue, y0, y, dy, EdgeLists(outward), outward, alpha, done)
      requires Forward(g, layers) ==> forall v :: v in layers[i] ==> FarIn(g, EdgeLists(outward)[v], outward, done)
      modifies this`y
      ensures Sized() && SameOutside(y0, y, done + SetOf(layers[i]))
      ensures Forward(g, layers) ==>
                AllMoved(g, edgeValue, y0, y, dy, EdgeLists(outward), outward, alpha, done + SetOf(layers[i]))
      ensures ListsFit(g, EdgeLists(outward)) &&
              y == RelaxedAll(g, edgeValue, old(y), dy, EdgeLists(outward), outward, alpha, layers[i])
    {
      hide Forward, AllMoved, Moved, Relaxed, RelaxedAll, FarIn, FarOther, HoldEdges, Graph.OutEdges, Graph.InEdges,
           SetOf, SameOutside;
      assert ListsFit(g, EdgeLists(outward));
      RelaxedNone(g, edgeValue, y, dy, EdgeLists(outward), outward, alpha);
      ghost var now := done;
      assert done + SetOf(layers[i][..0]) == done;
      for r := 0 to |layers[i]|
        invariant Sized() && now == done + SetOf(layers[i][..r]) && SameOutside(y0, y, now)
        invariant Forward(g, layers) ==> AllMoved(g, edgeValue, y0, y, dy, EdgeLists(outward), outward, alpha, now)
        invariant y == RelaxedAll(g, edgeValue, old(y), dy, EdgeLists(outward), outward, alpha, layers[i][..r])
      {
        ghost var before := y;
        var v := layers[i][r];
        RelaxNode(v, outward, alpha);
        assert layers[i][..r + 1] == layers[i][..r] + [v];
        RelaxedNext(g, edgeValue, old(y), dy, EdgeLists(outward), outward, alpha, layers[i][..r], v);
        assert now + {v} == done + SetOf(layers[i][..r + 1]);
        assert v !in now;
        SameOutsideStep(y0, before, y, now, v);
        if Forward(g, layers) {
          FarGrows(g, EdgeLists(outward)[v], outward, done, now, v);
          AllMovedStep(g, edgeValue, y0, before, y, dy, EdgeLists(outward), outward, alpha, now, v);
        }
        now := now + {v};
      }
      assert layers[i][..|layers[i]|] == layers[i];
    }

    /** A pass that is through with s layers. */
    ghost predicate MidPass(y0: seq<real>, s: nat, outward: bool, alpha: real, done: set<nat>)
      reads this
    {
      && Sized() && Partition(layers, g.size) && s <= |layers| && |y0| == g.size
      && SameOutside(y0, y, done) && PassDone(layers, s, outward, done) && HoldEdges(g, EdgeLists(outward), outward)
      && (Forward(g, layers) ==> AllMoved(g, edgeValue, y0, y, dy, EdgeLists(outward), outward, alpha, done))
      && ListsFit(g, EdgeLists(outward)) && Within(PassOrder(layers, s, outward), g.size)
      && y == RelaxedAll(g, edgeValue, y0, dy, EdgeLists(outward), outward, alpha, PassOrder(layers, s, outward))
    }

    lemma PassStarted(outward: bool, alpha: real)
      requires Sized() && Partition(layers, g.size)
      ensures MidPass(y, 0, outward, alpha, {})
    {
      hide Graph.OutEdges, Graph.InEdges, Partition;
      EdgeListsHold(outward);
      assert ListsFit(g, EdgeLists(outward));
      PassStart(g, edgeValue, y, dy, EdgeLists(outward), outward, alpha, layers);
      RelaxedNone(g, edgeValue, y, dy, EdgeLists(outward), outward, alpha);
    }

    /** The next layer of a pass. */
    method PassLayer(s: nat, outward: bool, alpha: real, ghost y0: seq<real>, ghost done: set<nat>)
      returns (ghost done': set<nat>)
      requires MidPass(y0, s, outward, alpha, done) && s < |layers|
      modifies this`y
      ensures MidPass(y0, s + 1, outward, alpha, done')
    {
      hide Forward, AllMoved, Moved, RelaxedAll, FarIn, HoldEdges, Partition, PassDone, SetOf, ListsFit, SameOutside,
           Graph.OutEdges, Graph.InEdges, NoDuplicates,
           PassOrder;
      PartitionWithin(layers, g.size);
      PassOrderWithin(layers, s + 1, outward, g.size);
      PassOrderNext(layers, s, outward);
      var i := if outward then |layers| - 1 - s else s;
      PartitionFacts(layers, g.size, i);
      PassStep(g, layers, s, outward, done, i, EdgeLists(outward));
      RelaxedConcat(g, edgeValue, y0, dy, EdgeLists(outward), outward, alpha, PassOrder(layers, s, outward), layers[i]);
      RelaxLayer(i, outward, alpha, y0, done);
      done' := done + SetOf(layers[i]);
    }

    lemma PassEnded(y0: seq<real>, outward: bool, alpha: real, done: set<nat>)
      requires MidPass(y0, |layers|, outward, alpha, done) && Forward(g, layers)
      ensures forall v :: 0 <= v < g.size ==> Moved(g, edgeValue, y0, y, dy, EdgeLists(outward)[v], outward, alpha, v)
    {
      hide Forward, AllMoved, Moved, RelaxedAll, PassDone, Partition, Graph.OutEdges, Graph.InEdges;
      forall v | 0 <= v < g.size
        ensures Moved(g, edgeValue, y0, y, dy, EdgeLists(outward)[v], outward, alpha, v)
      {
        PassEnd(g, edgeValue, y0, y, dy, EdgeLists(outward), outward, alpha, layers, done, v);
      }
    }

    /** A relaxation pass: outward from the last layer back, inward from the first one on, node by
        node. When every edge leads to a later layer, each node moves towards where its neighbours
        stand at the end of the pass. */
    method Relax(outward: bool, alpha: real)
      requires Sized() && Partition(layers, g.size)
      modifies this`y
      ensures Sized()
      ensures Forward(g, layers) ==>
                forall v :: 0 <= v < g.size ==>
                    Moved(g, edgeValue, old(y), y, dy, EdgeLists(outward)[v], outward, alpha, v)
      ensures ListsFit(g, EdgeLists(outward)) && Within(PassOrder(layers, |layers|, outward), g.size)
      ensures y == RelaxedAll(g, edgeValue, old(y), dy, EdgeLists(outward), outward, alpha,
                              PassOrder(layers, |layers|, outward))
    {
      hide Forward, AllMoved, Moved, RelaxedAll, HoldEdges, Partition, PassDone, SameOutside, ListsFit, Graph.OutEdges,
           Graph.InEdges;
      PassStarted(outward, alpha);
      ghost var done: set<nat> := {};
      for s := 0 to |layers|
        invariant MidPass(old(y), s, outward, alpha, done)
      {
        done := PassLayer(s, outward, alpha, old(y), done);
      }
      if Forward(g, layers) {
        PassEnded(old(y), outward, alpha, done);
      }
    }

    // -------------------------------------------------------------------------------
    // The whole pass over the positions

    /** The smallest scale makes every layer fit, if the gaps alone do. */
    lemma ScaleFitsAll(gap: real, extent: real, k: real)
      requires Sized() && Scalable(gap, extent) && k >= 0.0 && Smallest(k, |layers|, gap, extent)
      requires forall v :: 0 <= v < g.size ==> dy[v] == Product(value[v], k)
      ensures Fitted(dy, layers, gap, extent)
    {
      hide SumOver, LayerScale, LayerFits, Gaps, Product;
      forall i | 0 <= i < |layers|
        ensures Within(layers[i], g.size) && LayerFits(dy, layers[i], gap, extent)
        ensures SumOver(value, layers[i]) > 0.0 && k == LayerScale(value, layers[i], gap, extent) ==>
                  SumOver(dy, layers[i]) + Gaps(|layers[i]|, gap) == extent
      {
        SumNonNegative(value, layers[i]);
        if SumOver(value, layers[i]) > 0.0 {
          ScaleFits(value, dy, layers[i], gap, extent, k);
        } else {
          NothingFits(value, dy, layers[i], gap, extent, k);
        }
      }
    }

    ghost function SettingOf(gap: real, extent: real): Setting
      reads this
    {
      Setting(g, edgeValue, dy, outEdges, inEdges, gap, extent)
    }

    method Round(alpha: real, gap: real, extent: real) returns (ghost a: Half, ghost b: Half)
      requires Sized() && Partition(layers, g.size) && gap >= 0.0
      modifies this`y, this`layers
      ensures Sized() && Partition(layers, g.size) && SameLayers(old(layers), layers)
      ensures AllResolved(y, dy, layers, gap, extent)
      ensures HalfDone(SettingOf(gap, extent), a) && HalfDone(SettingOf(gap, extent), b)
      ensures a.outward && !b.outward && a.alpha == b.alpha == alpha
      ensures a.before == Stand(old(y), old(layers)) && b.before == a.after && b.after == Stand(y, layers)
    {
      hide Partition, SettledFrom, Shifted, AllResolved, SameLayers;
      a := HalfRound(true, alpha, gap, extent);
      ghost var between := layers;
      b := HalfRound(false, alpha, gap, extent);
      SameLayersTwice(old(layers), between, layers);
    }

    method HalfRound(outward: bool, alpha: real, gap: real, extent: real) returns (ghost half: Half)
      requires Sized() && Partition(layers, g.size) && gap >= 0.0
      modifies this`y, this`layers
      ensures Sized() && Partition(layers, g.size) && SameLayers(old(layers), layers)
      ensures AllResolved(y, dy, layers, gap, extent)
      ensures HalfDone(SettingOf(gap, extent), half) && half.outward == outward && half.alpha == alpha
      ensures half.before == Stand(old(y), old(layers)) && half.after == Stand(y, layers)
    {
      hide Partition, Resolved, SortedBy, Moved, Forward, SettledLayer, RelaxedAll, SameLayers, Graph.OutEdges,
           Graph.InEdges;
      Relax(outward, alpha);
      ghost var moved := y;
      ResolveCollisions(gap, extent);
      PartitionWithin(layers, g.size);
      half := Half(outward, alpha, Stand(old(y), old(layers)), moved, Stand(y, layers));
    }

    /** Positions across the flow. The nodes of a layer end a gap apart, and if the gaps alone have room
        in the extent, all layers end packed, for any number of relaxation rounds. */
    method PlaceNodes(gap: real, extent: real, iterations: nat) returns (k: Option<real>, ghost h: History)
      requires Sized() && Partition(layers, g.size) && gap >= 0.0 && forall v :: 0 <= v < g.size ==> value[v] >= 0.0
      modifies this`y, this`dy, this`edgeDy, this`layers
      ensures Sized() && Partition(layers, g.size) && SameLayers(old(layers), layers)
      ensures k.Some? <==> old(Scalable(gap, extent))
      ensures k.Some? ==> old(Smallest(k.value, |layers|, gap, extent)) && forall v :: 0 <= v < g.size ==>
                dy[v] == Product(value[v], k.value)
      ensures k.Some? ==> forall e :: 0 <= e < |g.edges| ==> edgeDy[e] == Product(edgeValue[e], k.value)
      ensures k.Some? ==> AllResolved(y, dy, layers, gap, extent)
      ensures k.Some? && old(GapsFit(layers, gap, extent)) ==>
                k.value >= 0.0 && AllPacked(y, dy, layers, gap, extent) && Fitted(dy, layers, gap, extent)
      ensures k.Some? ==> FitsWithGaps(y, dy, layers, gap, extent)
      ensures k.Some? ==> Played(SettingOf(gap, extent), old(layers), iterations, h, Stand(y, layers))
    {
      h := History([], Stand([], []), []);
      SameLayersSelf(layers);
      hide FitsWithGaps, Relaxation, HalfDone, SettledFrom, Ranks, SameLayers;
      hide Partition, AllResolved, AllPacked, Fitted, SortedBy, SumOver, LayerScale, Gaps, Product, Smallest, GapsFit;
      ghost var fit := GapsFit(layers, gap, extent);
      k := CommonScale(gap, extent);
      if k.None? {
        return;
      }
      if fit {
        ScalePositive(gap, extent, k.value);
      }
      InitialPositions(k.value);
      if fit {
        ScaleFitsAll(gap, extent, k.value);
      }
      ghost var layers0, ranks := layers, y;
      InitialResolve(gap, extent);
      ghost var start, halves := Stand(y, layers), [];
      ghost var setting := SettingOf(gap, extent);
      NoRounds(setting, start);
      var alpha := 1.0;
      for n := 0 to iterations
        invariant Sized() && Partition(layers, g.size) && SameLayers(layers0, layers)
        invariant AllResolved(y, dy, layers, gap, extent)
        invariant SettingOf(gap, extent) == setting
        invariant |halves| == 2 * n && Relaxation(setting, start, halves, Stand(y, layers))
        invariant if halves == [] then alpha == 1.0
                  else !halves[|halves| - 1].outward && halves[|halves| - 1].alpha == alpha
        modifies this`y, this`layers
      {
        ghost var before := layers;
        alpha := alpha * 0.99;
        ghost var a, b := Round(alpha, gap, extent);
        OneMoreRound(setting, start, halves, a.before, a, b, alpha / 0.99);
        halves := halves + [a, b];
        SameLayersTwice(layers0, before, layers);
      }
      h := History(ranks, start, halves);
      if fit {
        FittedPacked(y, dy, layers0, layers, gap, extent);
      }
      GapsSame(layers0, layers, gap, extent);
      PackedFits(y, dy, layers, gap, extent);
    }

    method InitialResolve(gap: real, extent: real)
      requires Sized() && Partition(layers, g.size) && gap >= 0.0
      modifies this`y, this`layers
      ensures Sized() && Partition(layers, g.size) && SameLayers(old(layers), layers)
      ensures AllResolved(y, dy, layers, gap, extent)
      ensures SettledFrom(SettingOf(gap, extent), old(y), old(layers), Stand(y, layers))
    {
      hide Partition, Resolved, SortedBy, SettledLayer;
      ResolveCollisions(gap, extent);
      PartitionWithin(layers, g.size);
    }

    lemma ScalePositive(gap: real, extent: real, k: real)
      requires Sized() && Scalable(gap, extent) && GapsFit(layers, gap, extent) && Smallest(k, |layers|, gap, extent)
      ensures k >= 0.0
    {
      hide SumOver, Gaps;
      var i :| 0 <= i < |layers| && SumOver(value, layers[i]) > 0.0 && k == LayerScale(value, layers[i], gap, extent);
      NonNegativeQuotient(extent - Gaps(|layers[i]|, gap), SumOver(value, layers[i]));
    }

    // -------------------------------------------------------------------------------
    // Ribbons

    /** Sorts the edge lists of all nodes by where the other end stands. */
    method SortEdges()
      requires Sized()
      modifies this`outEdges, this`inEdges
      ensures Sized()
      ensures forall v :: 0 <= v < g.size ==> SortedBy(FarPositions(g, y, true), outEdges[v])
      ensures forall v :: 0 <= v < g.size ==> SortedBy(FarPositions(g, y, false), inEdges[v])
    {
      hide Graph.OutEdges, Graph.InEdges, SortedBy, FarPositions;
      var targets, sources := FarPositions(g, y, true), FarPositions(g, y, false);
      for v := 0 to g.size
        invariant Sized()
        invariant forall u :: 0 <= u < v ==> SortedBy(targets, outEdges[u]) && SortedBy(sources, inEdges[u])
      {
        SortEdgesOf(v, targets, sources);
      }
    }

    method SortEdgesOf(v: nat, targets: seq<real>, sources: seq<real>)
      requires Sized() && v < g.size && |targets| == |sources| == |g.edges|
      modifies this`outEdges, this`inEdges
      ensures Sized() && SortedBy(targets, outEdges[v]) && SortedBy(sources, inEdges[v])
      ensures outEdges == old(outEdges)[v := outEdges[v]] && inEdges == old(inEdges)[v := inEdges[v]]
    {
      hide Graph.OutEdges, Graph.InEdges, SortedBy;
      var o := SortBy(targets, outEdges[v]);
      var i := SortBy(sources, inEdges[v]);
      outEdges, inEdges := outEdges[v := o], inEdges[v := i];
    }

    /** Starts of the ribbons on both sides of every node. */
    method StackEdges()
      requires Sized()
      modifies this`sy, this`ty
      ensures Sized()
      ensures forall v :: 0 <= v < g.size ==> Stacked(sy, edgeDy, outEdges[v]) && Stacked(ty, edgeDy, inEdges[v])
    {
      hide Graph.OutEdges, Graph.InEdges, Stacked, HoldEdges, NoDuplicates;
      EdgeListsHold(true);
      EdgeListsHold(false);
      for v := 0 to g.size
        invariant Sized()
        invariant forall u :: 0 <= u < v ==> Stacked(sy, edgeDy, outEdges[u]) && Stacked(ty, edgeDy, inEdges[u])
      {
        ghost var sy0, ty0 := sy, ty;
        NoEdgeTwice(v);
        sy := StackList(sy, edgeDy, outEdges[v]);
        ty := StackList(ty, edgeDy, inEdges[v]);
        forall u | 0 <= u < v
          ensures Stacked(sy, edgeDy, outEdges[u]) && Stacked(ty, edgeDy, inEdges[u])
        {
          OtherEdges(g, outEdges, true, u, v);
          OtherEdges(g, inEdges, false, u, v);
          StackedKept(sy0, sy, edgeDy, outEdges[u], outEdges[v]);
          StackedKept(ty0, ty, edgeDy, inEdges[u], inEdges[v]);
        }
      }
    }

    lemma NoEdgeTwice(v: nat)
      requires Sized() && v < g.size
      ensures NoDuplicates(outEdges[v]) && NoDuplicates(inEdges[v])
    {
      hide Graph.OutEdges, Graph.InEdges;
      PermutedNoDuplicates(g.OutEdges(v, |g.edges|), outEdges[v]);
      PermutedNoDuplicates(g.InEdges(v, |g.edges|), inEdges[v]);
    }

    /** Both stacks of a node stay within the node. */
    lemma StacksWithin(k: real, v: nat)
      requires Sized() && v < g.size && k >= 0.0 && forall e :: 0 <= e < |edgeValue| ==> edgeValue[e] >= 0.0
      requires value[v] == Worth(v) && dy[v] == Product(value[v], k)
      requires forall e :: 0 <= e < |g.edges| ==> edgeDy[e] == Product(edgeValue[e], k)
      requires Stacked(sy, edgeDy, outEdges[v]) && Stacked(ty, edgeDy, inEdges[v])
      ensures RibbonsIn(sy, edgeDy, outEdges[v], dy[v]) && RibbonsIn(ty, edgeDy, inEdges[v], dy[v])
    {
      hide Graph.OutEdges, Graph.InEdges, Worth, SumOver, Product, Stacked, RibbonsIn;
      WorthOf(v);
      StackIn(edgeValue, edgeDy, sy, outEdges[v], k, value[v]);
      StackIn(edgeValue, edgeDy, ty, inEdges[v], k, value[v]);
    }

    /** Ribbons leave and enter every node in the order of their other ends, one right after the
        other, and inside the node. */
    method PlaceEdges(k: real)
      requires Sized() && forall e :: 0 <= e < |edgeValue| ==> edgeValue[e] >= 0.0
      requires forall v :: 0 <= v < g.size ==> value[v] == Worth(v) && dy[v] == Product(value[v], k)
      requires forall e :: 0 <= e < |g.edges| ==> edgeDy[e] == Product(edgeValue[e], k)
      modifies this`outEdges, this`inEdges, this`sy, this`ty
      ensures Sized()
      ensures forall v :: 0 <= v < g.size ==>
                SortedBy(FarPositions(g, y, true), outEdges[v]) && SortedBy(FarPositions(g, y, false), inEdges[v])
      ensures forall v :: 0 <= v < g.size ==> Stacked(sy, edgeDy, outEdges[v]) && Stacked(ty, edgeDy, inEdges[v])
      ensures k >= 0.0 ==> forall v :: 0 <= v < g.size ==>
                RibbonsIn(sy, edgeDy, outEdges[v], dy[v]) && RibbonsIn(ty, edgeDy, inEdges[v], dy[v])
    {
      hide Worth, Product, SumOver, Stacked, SortedBy, RibbonsIn, FarPositions, Graph.OutEdges, Graph.InEdges;
      SortEdges();
      StackEdges();
      forall v | 0 <= v < g.size && k >= 0.0
        ensures RibbonsIn(sy, edgeDy, outEdges[v], dy[v]) && RibbonsIn(ty, edgeDy, inEdges[v], dy[v])
      {
        StacksWithin(k, v);
      }
    }
  }
}
