/** Node alignment of the sankey layout, functions `p` and `g` of module "81ac". */
module SankeyAlign {
  import opened Collections
  import opened SankeyRank

  datatype NodeAlign = Left | Right | Justify

  /** No edge leaves v. */
  ghost predicate Sink(g: Graph, v: nat) {
    forall b: nat :: !g.Edge(v, b)
  }

  /** A walk of k edges starts at v. */
  ghost predicate WalkFrom(g: Graph, v: nat, k: nat)
    decreases k, 0
  {
    v < g.size && (k == 0 || WalkOn(g, v, k - 1))
  }

  ghost predicate WalkOn(g: Graph, v: nat, k: nat)
    decreases k, 1
  {
    exists b: nat :: g.Edge(v, b) && WalkFrom(g, b, k)
  }

  /** A walk can be cut short. */
  lemma {:induction false} ShorterWalk(g: Graph, v: nat, k: nat, m: nat)
    requires WalkFrom(g, v, k) && m <= k
    ensures WalkFrom(g, v, m)
    decreases k
  {
    if m > 0 {
      var b: nat :| g.Edge(v, b) && WalkFrom(g, b, k - 1);
      ShorterWalk(g, b, k - 1, m - 1);
      assert g.Edge(v, b) && WalkFrom(g, b, m - 1);
    }
  }

  /** A walk cannot be longer than the ranks leave room for. */
  lemma {:induction false} WalkBound(g: Graph, rank: map<nat, nat>, bound: nat, v: nat, k: nat)
    requires Ranked(g, rank) && WalkFrom(g, v, k)
    requires forall u: nat :: u < g.size ==> u in rank && rank[u] < bound
    ensures rank[v] + k < bound
    decreases k
  {
    if k > 0 {
      var b: nat :| g.Edge(v, b) && WalkFrom(g, b, k - 1);
      WalkBound(g, rank, bound, b, k - 1);
    }
  }

  /** n is the length of the longest walk from v. */
  ghost predicate Longest(g: Graph, v: nat, n: nat) {
    WalkFrom(g, v, n) && !WalkFrom(g, v, n + 1)
  }

  /** The longest walk in terms of paths: it is one, it ends at a sink, and none is longer. */
  lemma LongestIsPath(g: Graph, v: nat, n: nat)
    requires g.Valid() && Longest(g, v, n)
    ensures forall p :: g.Path(p) && p[0] == v ==> |p| - 1 <= n
    ensures exists p :: g.Path(p) && p[0] == v && |p| - 1 == n && Sink(g, p[|p| - 1])
  {
    forall p | g.Path(p) && p[0] == v
      ensures |p| - 1 <= n
    {
      PathIsWalk(g, p);
      if |p| - 1 > n {
        ShorterWalk(g, v, |p| - 1, n + 1);
      }
    }
    var p := WalkIsPath(g, v, n);
    if !Sink(g, p[|p| - 1]) {
      var b: nat :| g.Edge(p[|p| - 1], b);
      var j :| 0 <= j < |g.edges| && g.edges[j] == (p[|p| - 1], b);
      PathIsWalk(g, p + [b]);
    }
    assert Sink(g, p[|p| - 1]);
  }

  lemma {:induction false} PathIsWalk(g: Graph, p: seq<nat>)
    requires g.Path(p)
    ensures WalkFrom(g, p[0], |p| - 1)
  {
    if |p| > 1 {
      PathIsWalk(g, p[1..]);
      assert g.Edge(p[0], p[1]) && WalkFrom(g, p[1], |p| - 2);
    }
  }

  lemma {:induction false} WalkIsPath(g: Graph, v: nat, k: nat) returns (p: seq<nat>)
    requires WalkFrom(g, v, k)
    ensures g.Path(p) && p[0] == v && |p| == k + 1
    decreases k
  {
    if k == 0 {
      p := [v];
    } else {
      var b: nat :| g.Edge(v, b) && WalkFrom(g, b, k - 1);
      p := WalkIsPath(g, b, k - 1);
      p := [v] + p;
    }
  }

  /** The nodes of a wave are those from which a walk of s edges starts, each once. */
  ghost predicate Wave(g: Graph, nodes: seq<nat>, s: nat) {
    && (forall v: nat :: v in nodes <==> WalkFrom(g, v, s))
    && (forall i, j :: 0 <= i < j < |nodes| ==> nodes[i] != nodes[j])
  }

  /** Heights after the waves below s: the longest walk, as far as the waves have seen. */
  ghost predicate HeightUpTo(g: Graph, height: seq<nat>, s: nat) {
    |height| == g.size && forall v :: 0 <= v < g.size && s > 0 ==>
      height[v] < s && WalkFrom(g, v, height[v]) && (height[v] + 1 < s ==> !WalkFrom(g, v, height[v] + 1))
  }

  /** The next wave holds the tails of the edges into the current one. */
  lemma NextWave(g: Graph, nodes: seq<nat>, next: seq<nat>, s: nat)
    requires g.Valid() && Wave(g, nodes, s)
    requires forall a: nat :: a in next <==> exists i :: 0 <= i < |nodes| && g.Edge(a, nodes[i])
    requires forall i, j :: 0 <= i < j < |next| ==> next[i] != next[j]
    ensures Wave(g, next, s + 1)
  {
    forall a: nat
      ensures a in next <==> WalkFrom(g, a, s + 1)
    {
      if WalkFrom(g, a, s + 1) {
        assert WalkOn(g, a, s);
        var b: nat :| g.Edge(a, b) && WalkFrom(g, b, s);
        var i :| 0 <= i < |nodes| && nodes[i] == b;
        assert g.Edge(a, nodes[i]);
      }
      if a in next {
        var i :| 0 <= i < |nodes| && g.Edge(a, nodes[i]);
        assert nodes[i] in nodes;
        var j :| 0 <= j < |g.edges| && g.edges[j] == (a, nodes[i]);
        assert g.Edge(a, nodes[i]) && WalkFrom(g, nodes[i], s);
      }
    }
  }

  /** One wave of the reverse sweep: marks the nodes with the wave's number and collects their
      predecessors. */
  method SweepWave(g: Graph, nodes: seq<nat>, height0: seq<nat>, s: nat) returns (height: seq<nat>, next: seq<nat>)
    requires g.Valid() && |height0| == g.size && forall i :: 0 <= i < |nodes| ==> nodes[i] < g.size
    ensures |height| == g.size
    ensures forall v :: 0 <= v < g.size ==> height[v] == if v in nodes then s else height0[v]
    ensures forall a: nat :: a in next <==> exists i :: 0 <= i < |nodes| && g.Edge(a, nodes[i])
    ensures forall i, j :: 0 <= i < j < |next| ==> next[i] != next[j]
  {
    height, next := height0, [];
    for l := 0 to |nodes|
      invariant |height| == g.size
      invariant forall v :: 0 <= v < g.size ==> height[v] == if v in nodes[..l] then s else height0[v]
      invariant forall a: nat :: a in next <==> Collected(g, nodes, l, a)
      invariant forall i, j :: 0 <= i < j < |next| ==> next[i] != next[j]
    {
      var node := nodes[l];
      height := height[node := s];
      assert nodes[..l + 1] == nodes[..l] + [node];
      next := AddTails(g, node, next);
    }
    assert nodes[..|nodes|] == nodes;
  }

  /** Adds the tails of the edges into a node to the next wave, unless they are in it. */
  method AddTails(g: Graph, node: nat, next0: seq<nat>) returns (next: seq<nat>)
    requires forall i, j :: 0 <= i < j < |next0| ==> next0[i] != next0[j]
    ensures forall a: nat :: a in next <==> a in next0 || g.Edge(a, node)
    ensures forall i, j :: 0 <= i < j < |next| ==> next[i] != next[j]
  {
    next := next0;
    var ins := g.InEdges(node, |g.edges|);
    for u := 0 to |ins|
      invariant forall a: nat :: a in next <==> a in next0 || exists k :: 0 <= k < u && g.edges[ins[k]].0 == a
      invariant forall i, j :: 0 <= i < j < |next| ==> next[i] != next[j]
    {
      var tail := g.edges[ins[u]].0;
      if tail !in next {
        next := next + [tail];
      }
    }
    TailsOf(g, node, ins);
  }

  ghost predicate Collected(g: Graph, nodes: seq<nat>, l: nat, a: nat)
    requires l <= |nodes|
  {
    exists i :: 0 <= i < l && g.Edge(a, nodes[i])
  }

  lemma {:induction false} TailsOf(g: Graph, node: nat, ins: seq<nat>)
    requires ins == g.InEdges(node, |g.edges|)
    ensures forall a: nat :: g.Edge(a, node) <==> exists k :: 0 <= k < |ins| && g.edges[ins[k]].0 == a
  {
    forall a: nat | g.Edge(a, node)
      ensures exists k :: 0 <= k < |ins| && g.edges[ins[k]].0 == a
    {
      var j :| 0 <= j < |g.edges| && g.edges[j] == (a, node);
      assert j in ins;
    }
    forall k | 0 <= k < |ins|
      ensures g.Edge(g.edges[ins[k]].0, node)
    {
      assert ins[k] in ins;
      assert g.edges[ins[k]] in g.edges;
    }
  }

  /** Reverse sweep over an acyclic graph: it stops, with every node's longest walk to a sink. */
  method Heights(g: Graph, ghost rank: map<nat, nat>, ghost bound: nat) returns (height: seq<nat>)
    requires g.Valid() && Ranked(g, rank) && forall u: nat :: u < g.size ==> u in rank && rank[u] < bound
    ensures |height| == g.size && forall v :: 0 <= v < g.size ==>
              Longest(g, v, height[v]) && rank[v] + height[v] < bound
  {
    height := seq(g.size, _ => 0);
    var nodes: seq<nat> := seq(g.size, i requires 0 <= i => i as nat);
    var s := 0;
    FirstWave(g, nodes);
    if nodes != [] {
      assert nodes[0] in rank;
    }
    while nodes != []
      invariant Wave(g, nodes, s) && HeightUpTo(g, height, s)
      invariant nodes != [] ==> s < bound
      invariant s == 0 ==> forall v: nat :: v < g.size ==> v in nodes
      decreases bound - s
    {
      InGraph(g, nodes, s);
      ghost var height0 := height;
      var next;
      height, next := SweepWave(g, nodes, height, s);
      NextWave(g, nodes, next, s);
      HeightNext(g, height0, height, nodes, s);
      nodes, s := next, s + 1;
      if nodes != [] {
        assert nodes[0] in nodes;
        WalkBound(g, rank, bound, nodes[0], s);
      }
    }
    forall v | 0 <= v < g.size
      ensures Longest(g, v, height[v]) && rank[v] + height[v] < bound
    {
      assert v !in nodes && s > 0;
      WalkBound(g, rank, bound, v, height[v]);
      assert !WalkFrom(g, v, s);
    }
  }

  lemma FirstWave(g: Graph, nodes: seq<nat>)
    requires |nodes| == g.size && forall i :: 0 <= i < |nodes| ==> nodes[i] == i
    ensures Wave(g, nodes, 0)
  {
    forall v: nat | v < g.size
      ensures v in nodes
    {
      assert nodes[v] == v;
    }
  }

  lemma InGraph(g: Graph, nodes: seq<nat>, s: nat)
    requires Wave(g, nodes, s)
    ensures forall i :: 0 <= i < |nodes| ==> nodes[i] < g.size
  {
    forall i | 0 <= i < |nodes|
      ensures nodes[i] < g.size
    {
      assert nodes[i] in nodes;
    }
  }

  lemma HeightNext(g: Graph, height0: seq<nat>, height: seq<nat>, nodes: seq<nat>, s: nat)
    requires Wave(g, nodes, s) && HeightUpTo(g, height0, s) && |height| == g.size
    requires s == 0 ==> forall v: nat :: v < g.size ==> v in nodes
    requires forall v :: 0 <= v < g.size ==> height[v] == if v in nodes then s else height0[v]
    ensures HeightUpTo(g, height, s + 1)
  {
    forall v: nat | v < g.size
      ensures height[v] < s + 1 && WalkFrom(g, v, height[v]) &&
              (height[v] + 1 < s + 1 ==> !WalkFrom(g, v, height[v] + 1))
    {
      assert v in nodes <==> WalkFrom(g, v, s);
    }
  }

  /** An edge lets the longest walk grow by at least one. */
  lemma EdgeLowersHeight(g: Graph, a: nat, b: nat, m: nat, n: nat)
    requires g.Valid() && g.Edge(a, b) && Longest(g, a, m) && Longest(g, b, n)
    ensures m > n
  {
    assert g.Edge(a, b) && WalkFrom(g, b, n);
    assert WalkFrom(g, a, n + 1) by {
      var j :| 0 <= j < |g.edges| && g.edges[j] == (a, b);
    }
    if m <= n {
      ShorterWalk(g, a, n + 1, m + 1);
    }
  }

  lemma SinkHeight(g: Graph, v: nat, n: nat)
    requires Longest(g, v, n) && Sink(g, v)
    ensures n == 0
  {
    assert !WalkOn(g, v, if n > 0 then n - 1 else 0);
  }

  lemma HeadOf(g: Graph, v: nat) returns (b: nat)
    requires g.OutEdges(v, |g.edges|) != []
    ensures g.Edge(v, b)
  {
    var j := g.OutEdges(v, |g.edges|)[0];
    assert j in g.OutEdges(v, |g.edges|);
    b := g.edges[j].1;
  }

  /** Depths after alignment. Nodes with a user depth keep it; among the others every edge still
      goes from a smaller to a greater depth, and with right or justify all sinks are at the end. */
  method Align(g: Graph, align: NodeAlign, userDepth: seq<Option<nat>>, depth: seq<nat>, maxDepth: int,
               ghost rank: map<nat, nat>)
    returns (aligned: seq<nat>)
    requires g.Valid() && |userDepth| == |depth| == g.size && Ranked(g, rank)
    requires forall v: nat :: v < g.size ==> v in rank && rank[v] <= maxDepth && depth[v] <= maxDepth
    requires forall v :: 0 <= v < g.size ==> depth[v] == if userDepth[v].Some? then userDepth[v].value else rank[v]
    ensures |aligned| == g.size && forall v :: 0 <= v < g.size ==> aligned[v] <= maxDepth
    ensures forall v :: 0 <= v < g.size && userDepth[v].Some? ==> aligned[v] == userDepth[v].value
    ensures forall a: nat, b: nat :: g.Edge(a, b) && userDepth[a].None? && userDepth[b].None? ==>
              aligned[a] < aligned[b]
    ensures !align.Left? ==>
              forall v: nat {:trigger aligned[v]} :: v < g.size && userDepth[v].None? && Sink(g, v) ==>
                  aligned[v] == maxDepth
    ensures align.Right? ==> forall v: nat :: v < g.size && userDepth[v].None? ==> Longest(g, v, maxDepth - aligned[v])
    ensures align.Justify? ==>
              forall v: nat {:trigger aligned[v]} :: v < g.size && userDepth[v].None? && !Sink(g, v) ==>
                  aligned[v] == depth[v]
    ensures align.Left? ==> aligned == depth
  {
    aligned := depth;
    if align.Right? {
      ghost var bound: nat := if maxDepth < 0 then 0 else maxDepth + 1;
      var height := Heights(g, rank, bound);
      for v := 0 to g.size
        invariant |aligned| == g.size
        invariant forall u :: 0 <= u < g.size ==>
                    aligned[u] == if u < v && userDepth[u].None? then maxDepth - height[u] else depth[u]
      {
        if userDepth[v].None? {
          aligned := aligned[v := if maxDepth - height[v] > 0 then maxDepth - height[v] else 0];
        }
      }
      forall a: nat, b: nat | g.Edge(a, b) && userDepth[a].None? && userDepth[b].None?
        ensures aligned[a] < aligned[b]
      {
        EdgeLowersHeight(g, a, b, height[a], height[b]);
      }
      forall v: nat | v < g.size && Sink(g, v)
        ensures height[v] == 0
      {
        SinkHeight(g, v, height[v]);
      }
    } else if align.Justify? {
      for v := 0 to g.size
        invariant |aligned| == g.size
        invariant forall u :: 0 <= u < g.size ==>
                    aligned[u] == if u < v && userDepth[u].None? && g.OutEdges(u, |g.edges|) == [] then maxDepth
                      else depth[u]
      {
        if userDepth[v].None? && g.OutEdges(v, |g.edges|) == [] {
          aligned := aligned[v := maxDepth];
        }
      }
      forall a: nat, b: nat | g.Edge(a, b)
        ensures g.OutEdges(a, |g.edges|) != []
      {
        var j :| 0 <= j < |g.edges| && g.edges[j] == (a, b);
        assert j in g.OutEdges(a, |g.edges|);
      }
      forall v: nat | v < g.size && Sink(g, v)
        ensures g.OutEdges(v, |g.edges|) == []
      {
        if g.OutEdges(v, |g.edges|) != [] {
          var b := HeadOf(g, v);
        }
      }
      forall v: nat | v < g.size && !Sink(g, v)
        ensures g.OutEdges(v, |g.edges|) != []
      {
        var b: nat :| g.Edge(v, b);
      }
    }
  }
}
