/** Ranking and alignment of the sankey layout, functions `d`, `p` and `g` of module "81ac". */
module SankeyRank {
  import opened Collections

  /** Directed graph; self-loops and parallel edges are allowed. */
  datatype Graph = Graph(size: nat, edges: seq<(nat, nat)>) {

    ghost predicate Valid() {
      forall j :: 0 <= j < |edges| ==> edges[j].0 < size && edges[j].1 < size
    }

    ghost predicate Edge(a: nat, b: nat) {
      (a, b) in edges
    }

    /** A walk along edges, as the list of nodes it visits. */
    ghost predicate Path(p: seq<nat>) {
      && |p| > 0 && (forall i :: 0 <= i < |p| ==> p[i] < size)
      && (forall i, j :: 0 <= i && j == i + 1 < |p| ==> Edge(p[i], p[j]))
    }

    ghost predicate Cycle(p: seq<nat>) {
      Path(p) && |p| > 1 && p[0] == p[|p| - 1]
    }

    ghost predicate Cyclic() {
      exists p :: Cycle(p)
    }

    /** Indices of the edges that leave v, in the order of the edge list. */
    function OutEdges(v: nat, upTo: nat): (r: seq<nat>)
      requires upTo <= |edges|
      ensures forall i :: 0 <= i < |r| ==> r[i] < upTo
      ensures forall j :: j in r <==> 0 <= j < upTo && edges[j].0 == v
      ensures forall i, k :: 0 <= i < k < |r| ==> r[i] < r[k]
    {
      if upTo == 0 then []
      else OutEdges(v, upTo - 1) + if edges[upTo - 1].0 == v then [upTo - 1] else []
    }

    function InEdges(v: nat, upTo: nat): (r: seq<nat>)
      requires upTo <= |edges|
      ensures forall i :: 0 <= i < |r| ==> r[i] < upTo
      ensures forall j :: j in r <==> 0 <= j < upTo && edges[j].1 == v
      ensures forall i, k :: 0 <= i < k < |r| ==> r[i] < r[k]
    {
      if upTo == 0 then []
      else InEdges(v, upTo - 1) + if edges[upTo - 1].1 == v then [upTo - 1] else []
    }

    function InDegree(v: nat): nat {
      |InEdges(v, |edges|)|
    }

    /** How many of the first upTo edges enter v and still remain. */
    function RemainingIn(remain: seq<bool>, v: nat, upTo: nat): nat
      requires upTo <= |edges| == |remain|
    {
      if upTo == 0 then 0
      else RemainingIn(remain, v, upTo - 1) + if edges[upTo - 1].1 == v && remain[upTo - 1] then 1 else 0
    }

    lemma {:induction false} RemainingNone(remain: seq<bool>, v: nat, upTo: nat)
      requires upTo <= |edges| == |remain|
      ensures RemainingIn(remain, v, upTo) == 0 <==> forall j :: 0 <= j < upTo && edges[j].1 == v ==> !remain[j]
    {
      if upTo > 0 {
        RemainingNone(remain, v, upTo - 1);
      }
    }

    lemma {:induction false} RemainingAll(remain: seq<bool>, v: nat, upTo: nat)
      requires upTo <= |edges| == |remain| && forall j :: 0 <= j < upTo ==> remain[j]
      ensures RemainingIn(remain, v, upTo) == |InEdges(v, upTo)|
    {
      if upTo > 0 {
        RemainingAll(remain, v, upTo - 1);
      }
    }

    lemma {:induction false} RemainingClear(remain: seq<bool>, v: nat, upTo: nat, j: nat)
      requires upTo <= |edges| == |remain| && j < |edges| && remain[j]
      ensures RemainingIn(remain[j := false], v, upTo) ==
              RemainingIn(remain, v, upTo) - if j < upTo && edges[j].1 == v then 1 else 0
    {
      if upTo > 0 {
        RemainingClear(remain, v, upTo - 1, j);
      }
    }
  }

  // ---------------------------------------------------------------------------------
  // Levels and paths

  /** Some edge into b starts one rank below it. */
  ghost predicate Tight(g: Graph, rank: map<nat, nat>, b: nat)
    requires b in rank
  {
    exists a: nat :: g.Edge(a, b) && a in rank && rank[a] + 1 == rank[b]
  }

  /** rank grows along every edge into a ranked node, and only as much as some edge demands. */
  ghost predicate Ranked(g: Graph, rank: map<nat, nat>) {
    && (forall a, b {:trigger g.Edge(a, b)} :: b in rank && g.Edge(a, b) ==> a in rank && rank[a] < rank[b])
    && (forall b {:trigger Tight(g, rank, b)} :: b in rank && rank[b] > 0 ==> Tight(g, rank, b))
  }

  /** No path to a ranked node is longer than its rank. */
  lemma {:induction false} RankBoundsPaths(g: Graph, rank: map<nat, nat>, p: seq<nat>)
    requires Ranked(g, rank) && g.Path(p) && p[|p| - 1] in rank
    ensures p[0] in rank && rank[p[0]] + |p| - 1 <= rank[p[|p| - 1]]
  {
    if |p| > 1 {
      var init := p[..|p| - 1];
      assert g.Edge(p[|p| - 2], p[|p| - 1]);
      RankBoundsPaths(g, rank, init);
    }
  }

  /** Some path that starts at a source is as long as the rank of the node it ends in. */
  lemma {:induction false} RankIsReached(g: Graph, rank: map<nat, nat>, v: nat) returns (p: seq<nat>)
    requires g.Valid() && Ranked(g, rank) && v in rank && v < g.size
    ensures g.Path(p) && p[|p| - 1] == v && |p| - 1 == rank[v]
    ensures forall a :: !g.Edge(a, p[0])
    decreases rank[v]
  {
    if rank[v] == 0 {
      p := [v];
    } else {
      assert Tight(g, rank, v);
      var a: nat :| g.Edge(a, v) && a in rank && rank[a] + 1 == rank[v];
      p := RankIsReached(g, rank, a);
      p := p + [v];
    }
  }

  /** v's longest path: no path to v is longer than n, and one from a source has length n. */
  ghost predicate LongestTo(g: Graph, v: nat, n: nat) {
    && (forall p :: g.Path(p) && p[|p| - 1] == v ==> |p| - 1 <= n)
    && (exists p :: g.Path(p) && p[|p| - 1] == v && |p| - 1 == n && forall a :: !g.Edge(a, p[0]))
  }

  lemma RankIsLongest(g: Graph, rank: map<nat, nat>, v: nat)
    requires g.Valid() && Ranked(g, rank) && v in rank && v < g.size
    ensures LongestTo(g, v, rank[v])
  {
    var q := RankIsReached(g, rank, v);
    forall p | g.Path(p) && p[|p| - 1] == v
      ensures |p| - 1 <= rank[v]
    {
      RankBoundsPaths(g, rank, p);
    }
  }

  /** A graph whose edges all start at ranked nodes has no cycle. */
  lemma RankedEdgesAcyclic(g: Graph, rank: map<nat, nat>)
    requires Ranked(g, rank) && forall j :: 0 <= j < |g.edges| ==> g.edges[j].0 in rank
    ensures !g.Cyclic()
  {
    forall p | g.Cycle(p)
      ensures false
    {
      assert g.Edge(p[0], p[1]);
      RankBoundsPaths(g, rank, p);
    }
  }

  ghost predicate HasPredecessorOutside(g: Graph, done: set<nat>, b: nat) {
    exists a: nat :: a < g.size && a !in done && g.Edge(a, b)
  }

  /** If every node outside `done` has a predecessor outside, a walk can be led back for ever. */
  lemma {:induction false} WalkBack(g: Graph, done: set<nat>, v: nat, steps: nat) returns (p: seq<nat>)
    requires v < g.size && v !in done
    requires forall b: nat :: b < g.size && b !in done ==> HasPredecessorOutside(g, done, b)
    ensures g.Path(p) && |p| == steps + 1 && p[|p| - 1] == v
    decreases steps
  {
    if steps == 0 {
      p := [v];
    } else {
      assert HasPredecessorOutside(g, done, v);
      var a: nat :| a < g.size && a !in done && g.Edge(a, v);
      hide HasPredecessorOutside;
      p := WalkBack(g, done, a, steps - 1);
      p := p + [v];
    }
  }

  function SetOf(s: seq<nat>): (r: set<nat>)
    ensures forall x :: x in r <==> x in s
  {
    if s == [] then {} else SetOf(s[..|s| - 1]) + {s[|s| - 1]}
  }

  lemma {:induction false} DistinctCount(s: seq<nat>)
    requires forall i, j :: 0 <= i < j < |s| ==> s[i] != s[j]
    ensures |SetOf(s)| == |s|
  {
    if s != [] {
      DistinctCount(s[..|s| - 1]);
    }
  }

  lemma {:induction false} SubsetSize(a: set<nat>, b: set<nat>)
    requires a <= b
    ensures |a| <= |b|
  {
    if a != {} {
      var x :| x in a;
      SubsetSize(a - {x}, b - {x});
    }
  }

  /** More nodes than the graph has: one of them comes twice, and between the two is a cycle. */
  lemma LongPathHasCycle(g: Graph, p: seq<nat>)
    requires g.Path(p) && |p| > g.size
    ensures g.Cyclic()
  {
    if forall i, j :: 0 <= i < j < |p| ==> p[i] != p[j] {
      DistinctCount(p);
      SubsetSize(SetOf(p), UpTo(g.size));
    } else {
      var i, j :| 0 <= i < j < |p| && p[i] == p[j];
      var q := p[i..j + 1];
      assert forall a :: 0 <= a < |q| ==> q[a] == p[i + a];
      assert g.Cycle(q);
    }
  }

  // ---------------------------------------------------------------------------------
  // The level sweep

  /** Result of ranking: the depth of every node and the greatest depth, or the cycle error. */
  datatype Breadths = Cycle | Breadths(depth: seq<nat>, maxDepth: int)

  /** The counters agree with the edges that remain. */
  ghost predicate Counted(g: Graph, remain: seq<bool>, indegree: seq<int>) {
    && |remain| == |g.edges| && |indegree| == g.size
    && forall v :: 0 <= v < g.size ==> indegree[v] == g.RemainingIn(remain, v, |g.edges|)
  }

  /** Nodes get a rank as soon as no in-edge of theirs remains. */
  ghost predicate Freed(g: Graph, indegree: seq<int>, rank: map<nat, nat>)
    requires |indegree| == g.size
  {
    forall v: nat {:trigger v in rank} :: v in rank <==> v < g.size && indegree[v] == 0
  }

  /** An edge remains until its tail has been processed. */
  ghost predicate RemainsOutside(g: Graph, remain: seq<bool>, processed: set<nat>)
    requires |remain| == |g.edges|
  {
    forall j :: 0 <= j < |g.edges| ==> (remain[j] <==> g.edges[j].0 !in processed)
  }

  /** The list holds exactly the nodes of rank x, each once. */
  ghost predicate Level(rank: map<nat, nat>, x: nat, nodes: seq<nat>) {
    && (forall i :: 0 <= i < |nodes| ==> nodes[i] in rank && rank[nodes[i]] == x)
    && (forall v :: v in rank && rank[v] == x ==> v in nodes)
    && (forall i, j :: 0 <= i < j < |nodes| ==> nodes[i] != nodes[j])
  }

  ghost predicate NoneAbove(rank: map<nat, nat>, x: nat) {
    forall v :: v in rank ==> rank[v] <= x
  }

  /** Freeing a node ranks it one level below the one being processed. */
  lemma RankedNext(g: Graph, rank: map<nat, nat>, x: nat, y: nat, head: nat)
    requires Ranked(g, rank) && y in rank && rank[y] == x && g.Edge(y, head) && head !in rank && NoneAbove(rank, x + 1)
    requires forall a :: g.Edge(a, head) ==> a in rank && rank[a] <= x
    ensures Ranked(g, rank[head := x + 1]) && NoneAbove(rank[head := x + 1], x + 1)
  {
    var rank' := rank[head := x + 1];
    hide Graph.Edge, Tight;
    forall b | b in rank' && rank'[b] > 0
      ensures Tight(g, rank', b)
    {
      TightNext(g, rank, x, y, head, b);
    }
  }

  lemma {:induction false} TightNext(g: Graph, rank: map<nat, nat>, x: nat, y: nat, head: nat, b: nat)
    requires y in rank && rank[y] == x && g.Edge(y, head) && head !in rank && (b in rank ==> Tight(g, rank, b)) &&
             (b in rank || b == head)
    ensures Tight(g, rank[head := x + 1], b)
  {
    hide Graph.Edge;
    var rank' := rank[head := x + 1];
    if b == head {
      assert g.Edge(y, b) && rank'[y] + 1 == rank'[b];
    } else {
      var a: nat :| g.Edge(a, b) && a in rank && rank[a] + 1 == rank[b];
      assert g.Edge(a, b) && rank'[a] + 1 == rank'[b];
    }
  }

  /** Takes the out-edges of y away and frees the nodes that lose their last in-edge. */
  method ClearOutEdges(g: Graph, y: nat, remain: seq<bool>, indegree: seq<int>, next: seq<nat>,
                       ghost rank: map<nat, nat>, ghost processed: set<nat>, ghost x: nat)
    returns (remain': seq<bool>, indegree': seq<int>, next': seq<nat>, ghost rank': map<nat, nat>)
    requires g.Valid() && Counted(g, remain, indegree) && Freed(g, indegree, rank) &&
             RemainsOutside(g, remain, processed)
    requires Ranked(g, rank) && NoneAbove(rank, x + 1) && Level(rank, x + 1, next)
    requires y in rank && rank[y] == x && y !in processed && forall v :: v in processed ==> v in rank && rank[v] <= x
    ensures Counted(g, remain', indegree') && Freed(g, indegree', rank') && RemainsOutside(g, remain', processed + {y})
    ensures Ranked(g, rank') && NoneAbove(rank', x + 1) && Level(rank', x + 1, next')
    ensures SameUpTo(rank, rank', x)
  {
    assert |remain| == |g.edges| && |indegree| == g.size;
    hide Counted, Freed, Ranked, NoneAbove, Level, SameUpTo;
    remain', indegree', next', rank' := remain, indegree, next, rank;
    var out := g.OutEdges(y, |g.edges|);
    SameStart(rank, x);
    for b := 0 to |out|
      invariant |remain'| == |g.edges| && |indegree'| == g.size && Counted(g, remain', indegree') &&
                Freed(g, indegree', rank')
      invariant forall j :: 0 <= j < |g.edges| ==> (remain'[j] <==> g.edges[j].0 !in processed && j !in out[..b])
      invariant Ranked(g, rank') && NoneAbove(rank', x + 1) && Level(rank', x + 1, next') && SameUpTo(rank, rank', x)
    {
      var e := out[b];
      assert out[..b + 1] == out[..b] + [e];
      assert e !in out[..b];
      SameGives(rank, rank', x);
      remain', indegree', next', rank' := ClearOne(g, y, e, remain', indegree', next', rank', processed, x);
    }
    SameGives(rank, rank', x);
  }

  /** The ranks up to x are the same. */
  ghost predicate SameUpTo(rank: map<nat, nat>, rank': map<nat, nat>, x: nat) {
    && (forall v :: v in rank && rank[v] <= x ==> v in rank' && rank'[v] == rank[v])
    && (forall v :: v in rank' && rank'[v] <= x ==> v in rank && rank'[v] == rank[v])
  }

  lemma SameStart(rank: map<nat, nat>, x: nat)
    ensures SameUpTo(rank, rank, x)
  {
  }

  lemma SameGives(rank: map<nat, nat>, rank': map<nat, nat>, x: nat)
    requires SameUpTo(rank, rank', x)
    ensures forall v :: v in rank && rank[v] <= x ==> v in rank' && rank'[v] == rank[v]
    ensures forall v :: v in rank' && rank'[v] <= x ==> v in rank && rank'[v] == rank[v]
    ensures forall rank'' :: SameUpTo(rank', rank'', x) ==> SameUpTo(rank, rank'', x)
  {
  }

  /** Takes one out-edge of y away. */
  method ClearOne(g: Graph, ghost y: nat, e: nat, remain: seq<bool>, indegree: seq<int>, next: seq<nat>,
                  ghost rank: map<nat, nat>, ghost processed: set<nat>, ghost x: nat)
    returns (remain': seq<bool>, indegree': seq<int>, next': seq<nat>, ghost rank': map<nat, nat>)
    requires g.Valid() && Counted(g, remain, indegree) && Freed(g, indegree, rank)
    requires e < |g.edges| && remain[e] && g.edges[e].0 == y
    requires forall j :: 0 <= j < |g.edges| && !remain[j] ==> g.edges[j].0 in processed || g.edges[j].0 == y
    requires Ranked(g, rank) && NoneAbove(rank, x + 1) && Level(rank, x + 1, next)
    requires y in rank && rank[y] == x && forall v :: v in processed ==> v in rank && rank[v] <= x
    ensures remain' == remain[e := false] && |indegree'| == g.size && Counted(g, remain', indegree') &&
            Freed(g, indegree', rank')
    ensures Ranked(g, rank') && NoneAbove(rank', x + 1) && Level(rank', x + 1, next') && SameUpTo(rank, rank', x)
  {
    var head := g.edges[e].1;
    ClearEdge(g, remain, indegree, e);
    g.RemainingNone(remain[e := false], head, |g.edges|);
    remain' := remain[e := false];
    indegree' := indegree[head := indegree[head] - 1];
    next', rank' := next, rank;
    if indegree'[head] == 0 && head !in next {
      RankedNext(g, rank, x, y, head);
      next' := next + [head];
      rank' := rank[head := x + 1];
    }
  }

  lemma ClearEdge(g: Graph, remain: seq<bool>, indegree: seq<int>, e: nat)
    requires g.Valid() && Counted(g, remain, indegree) && e < |g.edges| && remain[e]
    ensures var head := g.edges[e].1;
            indegree[head] > 0 && Counted(g, remain[e := false], indegree[head := indegree[head] - 1])
  {
    var head := g.edges[e].1;
    var indegree', remain' := indegree[head := indegree[head] - 1], remain[e := false];
    g.RemainingNone(remain, head, |g.edges|);
    forall v | 0 <= v < g.size
      ensures indegree'[v] == g.RemainingIn(remain', v, |g.edges|)
    {
      g.RemainingClear(remain, v, |g.edges|, e);
    }
  }

  /** Every node has its user depth or its rank. */
  ghost predicate Placed(userDepth: seq<Option<nat>>, rank: map<nat, nat>, depth: seq<nat>, processed: set<nat>) {
    |depth| == |userDepth| && forall v :: v in processed ==>
      v < |depth| && v in rank && depth[v] == if userDepth[v].Some? then userDepth[v].value else rank[v]
  }

  /** m is the greatest user depth of the processed nodes, -1 if there is none. */
  ghost predicate GreatestUser(userDepth: seq<Option<nat>>, processed: set<nat>, m: int) {
    && (forall v :: v in processed && v < |userDepth| && userDepth[v].Some? ==> userDepth[v].value <= m)
    && (m == -1 || exists v :: v in processed && v < |userDepth| && userDepth[v] == Some(m))
  }

  /** The state between two levels: all nodes of lower rank are processed, `zero` holds the next ones. */
  ghost predicate Boundary(g: Graph, remain: seq<bool>, indegree: seq<int>, rank: map<nat, nat>, processed: set<nat>,
                           zero: seq<nat>, x: nat) {
    && Counted(g, remain, indegree) && Freed(g, indegree, rank) && RemainsOutside(g, remain, processed)
    && Ranked(g, rank) && NoneAbove(rank, x) && Level(rank, x, zero)
    && (forall v: nat {:trigger v in processed} :: v in processed <==> v in rank && rank[v] < x)
    && (zero != [] || x == 0 || exists v :: v in rank && rank[v] == x - 1)
  }

  /** Before the sweep: every edge remains, and the sources have rank 0. */
  lemma SweepStart(g: Graph, indegree: seq<int>, zero: seq<nat>) returns (rank: map<nat, nat>)
    requires g.Valid() && |indegree| == g.size
    requires forall v :: 0 <= v < g.size ==> indegree[v] == g.InDegree(v)
    requires forall v: nat :: v in zero <==> v < g.size && indegree[v] == 0
    requires forall i, j :: 0 <= i < j < |zero| ==> zero[i] != zero[j]
    ensures Boundary(g, seq(|g.edges|, _ => true), indegree, rank, {}, zero, 0)
  {
    var remain := seq(|g.edges|, _ => true);
    rank := map v | v in zero :: 0;
    forall v | 0 <= v < g.size
      ensures indegree[v] == g.RemainingIn(remain, v, |g.edges|)
    {
      g.RemainingAll(remain, v, |g.edges|);
    }
    forall b: nat | b in rank
      ensures forall a: nat :: !g.Edge(a, b)
    {
      assert g.InEdges(b, |g.edges|) == [];
      assert forall j :: 0 <= j < |g.edges| && g.edges[j].1 == b ==> j in g.InEdges(b, |g.edges|);
    }
  }

  /** When the sweep stops, either every edge starts at a processed node, or there is a cycle. */
  lemma SweepEnd(g: Graph, remain: seq<bool>, indegree: seq<int>, rank: map<nat, nat>, processed: set<nat>, x: nat)
    requires g.Valid() && Boundary(g, remain, indegree, rank, processed, [], x)
    ensures (exists j :: 0 <= j < |remain| && remain[j]) <==> g.Cyclic()
    ensures !g.Cyclic() ==> forall v: nat :: v < g.size ==> v in rank
  {
    forall v: nat | v < g.size
      ensures v in processed <==> v in rank
      ensures v !in processed ==> HasPredecessorOutside(g, processed, v)
    {
      if v !in processed {
        assert v !in rank;
        g.RemainingNone(remain, v, |g.edges|);
        var j :| 0 <= j < |g.edges| && g.edges[j].1 == v && remain[j];
        assert g.Edge(g.edges[j].0, v);
      }
    }
    if j :| 0 <= j < |remain| && remain[j] {
      var p := WalkBack(g, processed, g.edges[j].0, g.size);
      LongPathHasCycle(g, p);
    } else {
      RankedEdgesAcyclic(g, rank);
      forall v: nat | v < g.size
        ensures v in rank
      {
        g.RemainingNone(remain, v, |g.edges|);
      }
    }
  }

  /** Processing a node of the level that is being swept. */
  ghost predicate MidLevel(g: Graph, remain: seq<bool>, indegree: seq<int>, rank: map<nat, nat>, processed: set<nat>,
                           zero: seq<nat>, next: seq<nat>, x: nat, i: nat) {
    && |indegree| == g.size && |remain| == |g.edges| && i <= |zero|
    && Counted(g, remain, indegree) && Freed(g, indegree, rank) && RemainsOutside(g, remain, processed)
    && Ranked(g, rank) && NoneAbove(rank, x + 1) && Level(rank, x, zero) && Level(rank, x + 1, next)
    && (forall v: nat {:trigger v in processed} :: v in processed <==> v in rank && (rank[v] < x || v in zero[..i]))
  }

  lemma LevelStart(g: Graph, remain: seq<bool>, indegree: seq<int>, rank: map<nat, nat>, processed: set<nat>,
                   zero: seq<nat>, x: nat)
    requires Boundary(g, remain, indegree, rank, processed, zero, x)
    ensures MidLevel(g, remain, indegree, rank, processed, zero, [], x, 0)
  {
  }

  lemma LevelEnd(g: Graph, remain: seq<bool>, indegree: seq<int>, rank: map<nat, nat>, processed: set<nat>,
                 zero: seq<nat>, next: seq<nat>, x: nat)
    requires MidLevel(g, remain, indegree, rank, processed, zero, next, x, |zero|) && zero != []
    ensures Boundary(g, remain, indegree, rank, processed, next, x + 1)
  {
    assert zero[..|zero|] == zero && zero[0] in zero;
  }

  lemma NodeFacts(g: Graph, remain: seq<bool>, indegree: seq<int>, rank: map<nat, nat>, processed: set<nat>,
                  zero: seq<nat>, next: seq<nat>, x: nat, i: nat)
    requires MidLevel(g, remain, indegree, rank, processed, zero, next, x, i) && i < |zero|
    ensures var y := zero[i];
            && y in rank && rank[y] == x && y !in processed && y < g.size
            && forall v :: v in processed ==> v in rank && rank[v] <= x
  {
    var y := zero[i];
    assert y !in zero[..i];
  }

  lemma NodeDone(g: Graph, rank: map<nat, nat>, processed: set<nat>, zero: seq<nat>, x: nat, i: nat,
                 remain: seq<bool>, indegree: seq<int>, rank': map<nat, nat>, next: seq<nat>)
    requires i < |zero| && Level(rank, x, zero) && |indegree| == g.size && |remain| == |g.edges|
    requires forall v: nat {:trigger v in processed} :: v in processed <==> v in rank && (rank[v] < x || v in zero[..i])
    requires Counted(g, remain, indegree) && Freed(g, indegree, rank') &&
             RemainsOutside(g, remain, processed + {zero[i]})
    requires Ranked(g, rank') && NoneAbove(rank', x + 1) && Level(rank', x + 1, next) && SameUpTo(rank, rank', x)
    ensures MidLevel(g, remain, indegree, rank', processed + {zero[i]}, zero, next, x, i + 1)
  {
    assert zero[..i + 1] == zero[..i] + [zero[i]];
  }

  /** The level sweep: depths by longest path, unless the user gave one; or the cycle error. */
  method ComputeBreadths(g: Graph, userDepth: seq<Option<nat>>) returns (r: Breadths, ghost rank: map<nat, nat>)
    requires g.Valid() && |userDepth| == g.size
    ensures r.Cycle? <==> g.Cyclic()
    ensures r.Breadths? ==> Ranked(g, rank) && forall v: nat :: v < g.size ==> v in rank && LongestTo(g, v, rank[v])
    ensures r.Breadths? ==> |r.depth| == g.size && forall v :: 0 <= v < g.size ==>
              r.depth[v] == if userDepth[v].Some? then userDepth[v].value else rank[v]
    ensures r.Breadths? ==> forall v :: 0 <= v < g.size ==> rank[v] <= r.maxDepth && r.depth[v] <= r.maxDepth
    ensures r.Breadths? ==>
              r.maxDepth == -1 || exists v :: 0 <= v < g.size && (rank[v] == r.maxDepth || r.depth[v] == r.maxDepth)
  {
    hide Boundary, Placed, GreatestUser, LongestTo, Graph.Cyclic, Ranked, Freed, Counted, Level, NoneAbove;
    var remain := seq(|g.edges|, _ => true);
    var indegree, zero := CountInEdges(g);
    rank := SweepStart(g, indegree, zero);
    var depth: seq<nat>, x, maxUser := seq(g.size, _ => 0), 0, -1;
    ghost var processed: set<nat> := {};
    NoneProcessed(userDepth, rank, depth);
    while zero != []
      invariant Boundary(g, remain, indegree, rank, processed, zero, x)
      invariant |depth| == g.size && Placed(userDepth, rank, depth, processed) &&
                GreatestUser(userDepth, processed, maxUser)
      decreases UpTo(g.size) - processed
    {
      remain, indegree, zero, depth, maxUser, rank, processed :=
        SweepLevel(g, userDepth, remain, indegree, zero, depth, maxUser, rank, processed, x);
      x := x + 1;
    }
    SweepEnd(g, remain, indegree, rank, processed, x);
    for i := 0 to |remain|
      invariant forall j :: 0 <= j < i ==> !remain[j]
    {
      if remain[i] {
        return Cycle, rank;
      }
    }
    r := Breadths(depth, if maxUser > x - 1 then maxUser else x - 1);
    SweepResult(g, userDepth, remain, indegree, rank, processed, x, depth, maxUser);
  }

  /** In-degrees, and the nodes without in-edges. */
  method CountInEdges(g: Graph) returns (indegree: seq<int>, zero: seq<nat>)
    requires g.Valid()
    ensures |indegree| == g.size && forall v :: 0 <= v < g.size ==> indegree[v] == g.InDegree(v)
    ensures forall v: nat :: v in zero <==> v < g.size && indegree[v] == 0
    ensures forall a, b :: 0 <= a < b < |zero| ==> zero[a] != zero[b]
  {
    hide Graph.InDegree, Graph.Valid;
    indegree, zero := [], [];
    for i := 0 to g.size
      invariant |indegree| == i && forall v :: 0 <= v < i ==> indegree[v] == g.InDegree(v)
      invariant forall v: nat :: v in zero <==> v < i && indegree[v] == 0
      invariant (forall a :: 0 <= a < |zero| ==> zero[a] < i) && forall a, b :: 0 <= a < b < |zero| ==>
                  zero[a] != zero[b]
    {
      var count := g.InDegree(i);
      indegree := indegree + [count];
      if count == 0 {
        zero := zero + [i];
      }
    }
  }

  lemma NoneProcessed(userDepth: seq<Option<nat>>, rank: map<nat, nat>, depth: seq<nat>)
    requires |depth| == |userDepth|
    ensures Placed(userDepth, rank, depth, {}) && GreatestUser(userDepth, {}, -1)
  {
  }

  lemma SweepResult(g: Graph, userDepth: seq<Option<nat>>, remain: seq<bool>, indegree: seq<int>, rank: map<nat, nat>,
                    processed: set<nat>, x: nat,
                    depth: seq<nat>, maxUser: int)
    requires g.Valid() && |userDepth| == |depth| == g.size && Boundary(g, remain, indegree, rank, processed, [], x)
    requires forall v: nat :: v < g.size ==> v in rank
    requires Placed(userDepth, rank, depth, processed) && GreatestUser(userDepth, processed, maxUser)
    ensures Ranked(g, rank) && forall v: nat :: v < g.size ==> LongestTo(g, v, rank[v])
    ensures forall v :: 0 <= v < g.size ==> depth[v] == if userDepth[v].Some? then userDepth[v].value else rank[v]
    ensures var m := if maxUser > x - 1 then maxUser else x - 1;
            && (forall v :: 0 <= v < g.size ==> rank[v] <= m && depth[v] <= m)
            && (m == -1 || exists v :: 0 <= v < g.size && (rank[v] == m || depth[v] == m))
  {
    AllRanked(g, indegree, rank, processed, x);
    forall v: nat | v < g.size
      ensures LongestTo(g, v, rank[v])
    {
      RankIsLongest(g, rank, v);
    }
  }

  lemma AllRanked(g: Graph, indegree: seq<int>, rank: map<nat, nat>, processed: set<nat>, x: nat)
    requires |indegree| == g.size && Freed(g, indegree, rank) && NoneAbove(rank, x) && Level(rank, x, [])
    requires forall v: nat {:trigger v in processed} :: v in processed <==> v in rank && rank[v] < x
    ensures forall v :: v in rank ==> v in processed && rank[v] < x && v < g.size
  {
  }

  /** One more node has its depth, and the greatest user depth takes it into account. */
  lemma {:induction false} NodePlaced(userDepth: seq<Option<nat>>, rank: map<nat, nat>, rank': map<nat, nat>,
                                      depth: seq<nat>, processed: set<nat>, maxUser: int, y: nat, x: nat)
    requires y < |userDepth| == |depth| && y in rank && rank[y] == x && SameUpTo(rank, rank', x)
    requires Placed(userDepth, rank, depth, processed) && GreatestUser(userDepth, processed, maxUser)
    requires forall v :: v in processed ==> v in rank && rank[v] <= x
    ensures Placed(userDepth, rank', depth[y := if userDepth[y].Some? then userDepth[y].value else x], processed + {y})
    ensures GreatestUser(userDepth, processed + {y}, if userDepth[y].Some? && userDepth[y].value > maxUser
                         then userDepth[y].value else maxUser)
  {
  }

  /** One level: every node of it gets its depth and gives up its out-edges. */
  method SweepLevel(g: Graph, userDepth: seq<Option<nat>>, remain0: seq<bool>, indegree0: seq<int>, zero: seq<nat>,
                    depth0: seq<nat>, maxUser0: int, ghost rank0: map<nat, nat>, ghost processed0: set<nat>, x: nat)
    returns (remain: seq<bool>, indegree: seq<int>, next: seq<nat>, depth: seq<nat>, maxUser: int,
             ghost rank: map<nat, nat>, ghost processed: set<nat>)
    requires g.Valid() && |userDepth| == g.size && zero != []
    requires Boundary(g, remain0, indegree0, rank0, processed0, zero, x)
    requires |depth0| == g.size && Placed(userDepth, rank0, depth0, processed0) &&
             GreatestUser(userDepth, processed0, maxUser0)
    ensures Boundary(g, remain, indegree, rank, processed, next, x + 1)
    ensures |depth| == g.size && Placed(userDepth, rank, depth, processed) &&
            GreatestUser(userDepth, processed, maxUser)
    ensures processed0 < processed && forall v :: v in processed ==> v < g.size
  {
    remain, indegree, next, depth, maxUser, rank, processed := remain0, indegree0, [], depth0, maxUser0, rank0,
      processed0;
    LevelStart(g, remain, indegree, rank, processed, zero, x);
    hide Counted, Freed, Ranked, NoneAbove, Level, SameUpTo, RemainsOutside, Boundary, Placed, GreatestUser, MidLevel;
    for v := 0 to |zero|
      invariant MidLevel(g, remain, indegree, rank, processed, zero, next, x, v)
      invariant |depth| == g.size && Placed(userDepth, rank, depth, processed) &&
                GreatestUser(userDepth, processed, maxUser)
      invariant processed0 <= processed && (v > 0 ==> processed0 < processed)
    {
      var y := zero[v];
      NodeFacts(g, remain, indegree, rank, processed, zero, next, x, v);
      ghost var was, depth', maxUser' := rank, depth, maxUser;
      if userDepth[y].Some? && userDepth[y].value > maxUser {
        maxUser := userDepth[y].value;
      }
      depth := depth[y := if userDepth[y].Some? then userDepth[y].value else x];
      remain, indegree, next, rank := ClearOutEdges(g, y, remain, indegree, next, rank, processed, x);
      NodeDone(g, was, processed, zero, x, v, remain, indegree, rank, next);
      NodePlaced(userDepth, was, rank, depth', processed, maxUser', y, x);
      processed := processed + {y};
    }
    LevelEnd(g, remain, indegree, rank, processed, zero, next, x);
  }
}
