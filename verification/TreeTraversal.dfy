/** The two explicit-stack traversals of module "6d9a" over the visible part of a tree. */
module TreeTraversal {
  import opened Collections

  /** The visible tree: a collapsed node is a node without children here. Nodes are named by
      their rank in depth-first, children-first order, so the subtree of v is the interval from
      first[v] to v, and the last name is the root's. */
  datatype Tree = Tree(children: seq<seq<nat>>, first: seq<nat>, parent: seq<nat>, index: seq<nat>) {

    function Size(): nat { |children| }

    ghost predicate Node(v: nat) { v < |children| }

    ghost predicate Valid() {
      && Sized()
      && (forall v {:trigger first[v]} :: 0 <= v < |children| ==>
          first[v] <= v && (children[v] == [] ==> first[v] == v))
      && (forall v {:trigger Tiled(v)} :: 0 <= v < |children| && children[v] != [] ==> Tiled(v))
    }

    ghost predicate Sized() {
      && |first| == |parent| == |index| == |children| > 0
      && (forall v, i {:trigger children[v][i]} :: 0 <= v < |children| && 0 <= i < |children[v]| ==> children[v][i] < v)
    }

    /** The subtrees of v's children follow each other from first[v] to v - 1. */
    ghost predicate Tiled(v: nat)
      requires Sized() && Node(v) && children[v] != []
    {
      var c := children[v];
      && (forall i :: 0 <= i < |c| ==> parent[c[i]] == v && index[c[i]] == i)
      && first[c[0]] == first[v] && c[|c| - 1] == v - 1
      && (forall i, j :: 0 <= i && j == i + 1 < |c| ==> first[c[j]] == c[i] + 1)
    }

    /** v belongs to the subtree of w. */
    ghost predicate Under(v: nat, w: nat)
      requires Valid() && Node(w)
    {
      first[w] <= v <= w
    }

    lemma {:induction false} ChildrenOrdered(w: nat, i: nat, j: nat)
      requires Valid() && Node(w) && i < j < |children[w]|
      ensures children[w][i] < first[children[w][j]]
      decreases j - i
    {
      assert Tiled(w);
      if i + 1 < j {
        ChildrenOrdered(w, i + 1, j);
      }
    }

    lemma ChildWithin(w: nat, i: nat)
      requires Valid() && Node(w) && i < |children[w]|
      ensures first[w] <= first[children[w][i]] <= children[w][i] < w
    {
      assert Tiled(w);
      if i > 0 {
        ChildrenOrdered(w, 0, i);
      }
    }

    /** Of two children of one node, the smaller one is further left, with its whole subtree. */
    lemma SiblingsOrdered(a: nat, b: nat, w: nat)
      requires Valid() && Node(w) && a in children[w] && b in children[w] && a < b
      ensures index[a] < index[b] < |children[w]| && a < first[b] && children[w][index[b]] == b &&
              children[w][index[a]] == a
    {
      assert Tiled(w);
      var i :| 0 <= i < |children[w]| && children[w][i] == a;
      var j :| 0 <= j < |children[w]| && children[w][j] == b;
      if j < i {
        ChildrenOrdered(w, j, i);
        ChildWithin(w, i);
      } else {
        ChildrenOrdered(w, i, j);
      }
    }

    /** A proper descendant lies under exactly one child. */
    lemma {:induction false} ChildAbove(v: nat, w: nat, upTo: nat) returns (i: nat)
      requires Valid() && Node(w) && upTo < |children[w]| && first[w] <= v <= children[w][upTo]
      ensures i <= upTo && Under(v, children[w][i])
    {
      assert Tiled(w);
      if upTo == 0 || first[children[w][upTo]] <= v {
        i := upTo;
      } else {
        assert first[children[w][upTo]] == children[w][upTo - 1] + 1;
        i := ChildAbove(v, w, upTo - 1);
      }
    }

    /** The parent of a node under x, other than x, is under x with its whole subtree. */
    lemma {:induction false} ParentUnder(v: nat, x: nat)
      requires Valid() && Node(x) && Under(v, x) && v != x
      ensures v < parent[v] <= x && first[x] <= first[parent[v]] && v in children[parent[v]]
    {
      assert Tiled(x);
      var i := ChildAbove(v, x, |children[x]| - 1);
      ChildWithin(x, i);
      if v != children[x][i] {
        ParentUnder(v, children[x][i]);
      }
    }

    /** The whole subtree of a node under x is under x. */
    lemma {:induction false} SubtreeWithin(v: nat, x: nat)
      requires Valid() && Node(x) && Under(v, x)
      ensures first[x] <= first[v]
    {
      if v != x {
        ParentUnder(v, x);
        var w := parent[v];
        var i :| 0 <= i < |children[w]| && children[w][i] == v;
        ChildWithin(w, i);
      }
    }
  }

  /** Nodes on a stack, bottom first, whose subtrees lie side by side from 0 to below `next`. */
  ghost predicate SideBySide(t: Tree, stack: seq<nat>, next: nat)
    requires t.Valid()
  {
    && (forall i :: 0 <= i < |stack| ==> t.Node(stack[i]))
    && (if stack == [] then next == 0
        else stack[|stack| - 1] + 1 == next && t.first[stack[0]] == 0)
    && (forall i, j :: 0 <= i && j == i + 1 < |stack| ==> t.first[stack[j]] == stack[i] + 1)
  }

  /** Replacing the top of the stack by its children keeps the rest covered. */
  lemma PushChildren(t: Tree, stack: seq<nat>, v: nat)
    requires t.Valid() && SideBySide(t, stack + [v], v + 1) && t.Node(v)
    ensures SideBySide(t, stack + t.children[v], v)
  {
    var c, before := t.children[v], stack + [v];
    var after := stack + c;
    assert forall i :: 0 <= i < |stack| ==> before[i] == stack[i];
    assert before[|stack|] == v;
    if c != [] {
      assert t.Tiled(v);
    }
    hide Tree.Valid, Tree.Tiled;
    forall i, j | 0 <= i && j == i + 1 < |after|
      ensures t.first[after[j]] == after[i] + 1
    {
      if j < |stack| {
        assert t.first[before[j]] == before[i] + 1;
      } else if j == |stack| {
        assert t.first[before[j]] == before[i] + 1;
      }
    }
    if c == [] {
      assert after == stack;
    }
  }

  /** eachAfter: every node under the root once, children before parents, that is in the
      order of the names. */
  method EachAfter(t: Tree, root: nat) returns (order: seq<nat>)
    requires t.Valid() && t.Node(root) && t.first[root] == 0
    ensures |order| == root + 1 && forall i :: 0 <= i < |order| ==> order[i] == i
  {
    var nodes, next := [root], [];
    while nodes != []
      invariant |next| <= root + 1 && forall i :: 0 <= i < |next| ==> next[i] == root - i
      invariant SideBySide(t, nodes, root + 1 - |next|)
      decreases root + 1 - |next|
    {
      var node := nodes[|nodes| - 1];
      nodes := nodes[..|nodes| - 1];
      assert SideBySide(t, nodes + [node], node + 1);
      next := next + [node];
      var children, s := t.children[node], 0;
      ghost var rest := nodes;
      while s < |children|
        invariant s <= |children| && nodes == rest + children[..s]
      {
        nodes := nodes + [children[s]];
        s := s + 1;
      }
      assert nodes == rest + children;
      PushChildren(t, rest, node);
    }
    order := [];
    while next != []
      invariant |order| + |next| == root + 1
      invariant forall i :: 0 <= i < |order| ==> order[i] == i
      invariant forall i :: 0 <= i < |next| ==> next[i] == root - i
      decreases |next|
    {
      order := order + [next[|next| - 1]];
      next := next[..|next| - 1];
    }
  }


  /** In depth-first order from left to right, with parents first, u comes before v: v is under u, or u
      and all that is under it lies to the left of v. */
  ghost predicate Precedes(t: Tree, u: nat, v: nat)
    requires t.Valid() && t.Node(v)
  {
    t.Node(u) && (t.Under(v, u) || u < t.first[v])
  }

  /** The nodes still to be visited by eachBefore are those under the stacked nodes, whose subtrees
      lie apart, the leftmost on top. */
  ghost predicate Remaining(t: Tree, root: nat, stack: seq<nat>, visited: set<nat>)
    requires t.Valid() && t.Node(root)
  {
    && (forall s :: 0 <= s < |stack| ==> stack[s] <= root)
    && (forall i, j :: 0 <= i < j < |stack| ==> stack[j] < t.first[stack[i]])
    && (forall s :: 0 <= s < |stack| && stack[s] != root ==> t.parent[stack[s]] in visited)
    && (forall v :: v in visited ==> v <= root)
    && (forall v, s :: v in visited && 0 <= s < |stack| ==> Precedes(t, v, stack[s]))
    && (forall v, s :: v in visited && 0 <= s < |stack| ==> !(t.first[stack[s]] <= v <= stack[s]))
    && (forall v: nat {:trigger v in visited} :: v <= root && v !in visited ==> Stacked(t, stack, v))
  }

  /** v lies under a stacked node. */
  ghost predicate Stacked(t: Tree, stack: seq<nat>, v: nat)
    requires t.Valid()
  {
    exists s :: 0 <= s < |stack| && stack[s] < t.Size() && t.first[stack[s]] <= v <= stack[s]
  }

  /** v is on top of the stack. */
  ghost predicate OnTop(t: Tree, root: nat, stack: seq<nat>, v: nat, visited: set<nat>)
    requires t.Valid() && t.Node(root)
  {
    && v <= root && v !in visited && (v != root ==> t.parent[v] in visited)
    && (forall i :: 0 <= i < |stack| ==>
        stack[i] <= root && v < t.first[stack[i]] && (stack[i] != root ==> t.parent[stack[i]] in visited))
    && (forall i, j :: 0 <= i < j < |stack| ==> stack[j] < t.first[stack[i]])
    && (forall u :: u in visited ==> u <= root && !(t.first[v] <= u <= v) && Precedes(t, u, v))
    && (forall u, s :: u in visited && 0 <= s < |stack| ==> Precedes(t, u, stack[s]))
    && (forall u, s :: u in visited && 0 <= s < |stack| ==> !(t.first[stack[s]] <= u <= stack[s]))
    && (forall u: nat {:trigger u in visited} :: u <= root && u !in visited ==> Stacked(t, stack + [v], u))
  }

  lemma TopOfStack(t: Tree, root: nat, stack: seq<nat>, v: nat, visited: set<nat>)
    requires t.Valid() && t.Node(root) && Remaining(t, root, stack + [v], visited)
    ensures OnTop(t, root, stack, v, visited)
  {
    hide Stacked;
    var before := stack + [v];
    assert before[|stack|] == v && forall i :: 0 <= i < |stack| ==> before[i] == stack[i];
    assert t.first[v] <= v;
  }

  /** Visiting the top node and stacking its children keeps track of what remains. */
  lemma VisitTop(t: Tree, root: nat, stack: seq<nat>, v: nat, visited: set<nat>)
    requires t.Valid() && t.Node(root) && t.first[root] == 0 && Remaining(t, root, stack + [v], visited)
    ensures v <= root && v !in visited && (v != root ==> t.parent[v] in visited) && forall u :: u in visited ==>
              Precedes(t, u, v)
    ensures Remaining(t, root, stack + Reversed(t.children[v]), visited + {v})
  {
    TopOfStack(t, root, stack, v, visited);
    ChildrenStacked(t, root, stack, v, visited);
  }

  lemma {:induction false} PrecedesBelow(t: Tree, u: nat, v: nat, c: nat)
    requires t.Valid() && t.Node(v) && c < v && t.first[v] <= t.first[c] && (u == v || Precedes(t, u, v))
    ensures Precedes(t, u, c)
  {
    assert t.first[c] <= c;
    if u != v && t.Under(v, u) {
      t.SubtreeWithin(v, u);
    }
  }

  lemma ChildrenStacked(t: Tree, root: nat, stack: seq<nat>, v: nat, visited: set<nat>)
    requires t.Valid() && t.Node(root) && t.first[root] == 0 && OnTop(t, root, stack, v, visited)
    ensures Remaining(t, root, stack + Reversed(t.children[v]), visited + {v})
  {
    hide Stacked;
    var after := stack + Reversed(t.children[v]);
    ChildFacts(t, v);
    StackApart(t, stack, v);
    forall s | |stack| <= s < |after|
      ensures after[s] < v && t.first[v] <= t.first[after[s]] && t.parent[after[s]] == v
    {
    }
    StackedLater(t, root, stack, v, visited);
    forall u: nat | u <= root && u !in visited + {v}
      ensures Stacked(t, after, u)
    {
      StillStacked(t, stack, v, u);
    }
  }

  /** Nothing that has been visited is below a stacked node, and all of it comes first. */
  lemma {:induction false} StackedLater(t: Tree, root: nat, stack: seq<nat>, v: nat, visited: set<nat>)
    requires t.Valid() && t.Node(root) && OnTop(t, root, stack, v, visited)
    ensures var after := stack + Reversed(t.children[v]);
            forall u, s :: u in visited + {v} && 0 <= s < |after| ==>
              after[s] <= root && Precedes(t, u, after[s]) && !(t.first[after[s]] <= u <= after[s])
  {
    hide Stacked;
    var after := stack + Reversed(t.children[v]);
    ChildFacts(t, v);
    forall u, s | u in visited + {v} && 0 <= s < |after|
      ensures after[s] <= root && Precedes(t, u, after[s]) && !(t.first[after[s]] <= u <= after[s])
    {
      if s < |stack| {
        assert after[s] == stack[s];
      } else {
        PrecedesBelow(t, u, v, after[s]);
      }
    }
  }

  /** The children stacked on the rest are apart from it and from each other. */
  lemma StackApart(t: Tree, stack: seq<nat>, v: nat)
    requires t.Valid() && t.Node(v) && forall i :: 0 <= i < |stack| ==> stack[i] < |t.first|
    requires forall i :: 0 <= i < |stack| ==> v < t.first[stack[i]]
    requires forall i, j :: 0 <= i < j < |stack| ==> stack[j] < t.first[stack[i]]
    ensures var after := stack + Reversed(t.children[v]);
            forall i, j :: 0 <= i < j < |after| ==> after[i] < |t.first| && after[j] < t.first[after[i]]
  {
    var c := t.children[v];
    var after := stack + Reversed(c);
    ChildFacts(t, v);
    forall i, j | 0 <= i < j < |after|
      ensures after[i] < |t.first| && after[j] < t.first[after[i]]
    {
      if i >= |stack| {
        t.ChildrenOrdered(v, |c| - 1 - (j - |stack|), |c| - 1 - (i - |stack|));
      }
    }
  }

  lemma ChildFacts(t: Tree, v: nat)
    requires t.Valid() && t.Node(v)
    ensures forall i :: 0 <= i < |t.children[v]| ==>
              t.children[v][i] < v && t.first[v] <= t.first[t.children[v][i]] && t.parent[t.children[v][i]] == v
  {
    forall i | 0 <= i < |t.children[v]|
      ensures t.children[v][i] < v && t.first[v] <= t.first[t.children[v][i]] && t.parent[t.children[v][i]] == v
    {
      assert t.Tiled(v);
      t.ChildWithin(v, i);
    }
  }

  lemma StillStacked(t: Tree, stack: seq<nat>, v: nat, u: nat)
    requires t.Valid() && t.Node(v) && u != v && Stacked(t, stack + [v], u)
    ensures Stacked(t, stack + Reversed(t.children[v]), u)
  {
    var before, c := stack + [v], t.children[v];
    var after := stack + Reversed(c);
    var s :| 0 <= s < |before| && before[s] < t.Size() && t.first[before[s]] <= u <= before[s];
    if s < |stack| {
      assert after[s] == before[s];
    } else {
      if c != [] {
        assert t.Tiled(v);
      }
      var i := t.ChildAbove(u, v, |c| - 1);
      assert after[|stack| + |c| - 1 - i] == c[i];
    }
  }

  /** No node twice, each node but the root after its parent, and what lies left before what lies right. */
  ghost predicate ParentsFirst(t: Tree, root: nat, order: seq<nat>)
    requires t.Valid() && t.Node(root)
  {
    forall i :: 0 <= i < |order| ==>
      order[i] <= root && |t.parent| == t.Size() && order[i] !in order[..i] &&
        (order[i] != root ==> t.parent[order[i]] in order[..i]) &&
      forall u :: u in order[..i] ==> Precedes(t, u, order[i])
  }

  lemma ParentsFirstSnoc(t: Tree, root: nat, order: seq<nat>, v: nat)
    requires t.Valid() && t.Node(root) && ParentsFirst(t, root, order)
    requires v <= root && v !in order && (v != root ==> t.parent[v] in order) && forall u :: u in order ==>
               Precedes(t, u, v)
    ensures ParentsFirst(t, root, order + [v])
  {
    var longer := order + [v];
    forall i | 0 <= i < |longer|
      ensures longer[i] !in longer[..i] && (longer[i] != root ==> t.parent[longer[i]] in longer[..i])
      ensures forall u :: u in longer[..i] ==> Precedes(t, u, longer[i])
    {
      assert longer[..i] == order[..i];
    }
  }

  lemma OnlyRoot(t: Tree, root: nat)
    requires t.Valid() && t.Node(root) && t.first[root] == 0
    ensures Remaining(t, root, [root], {})
  {
    forall v: nat | v <= root
      ensures Stacked(t, [root], v)
    {
      assert [root][0] == root;
    }
  }

  lemma NothingRemains(t: Tree, root: nat, visited: set<nat>, v: nat)
    requires t.Valid() && t.Node(root) && Remaining(t, root, [], visited)
    ensures v in visited <==> v <= root
  {
  }

  /** What has been visited is on the list, and nothing else up to the root is left out. */
  ghost predicate Listed(root: nat, order: seq<nat>, visited: set<nat>, unvisited: set<nat>) {
    && (forall v: nat :: v in order <==> v in visited)
    && (forall v: nat :: v in unvisited <==> v <= root && v !in visited)
  }

  lemma {:induction false} ListedNext(root: nat, order: seq<nat>, visited: set<nat>, unvisited: set<nat>, v: nat)
    requires Listed(root, order, visited, unvisited) && v <= root && v !in visited
    ensures Listed(root, order + [v], visited + {v}, unvisited - {v}) && v in unvisited && v !in order
    ensures forall u: nat :: u in order <==> u in visited
  {
  }

  /** The children go on the stack last one first. */
  method PushBackwards(stack: seq<nat>, children: seq<nat>) returns (nodes: seq<nat>)
    ensures nodes == stack + Reversed(children)
  {
    hide Reversed;
    nodes := stack;
    var o := |children|;
    while o > 0
      invariant 0 <= o <= |children| && nodes == stack + Reversed(children[o..])
    {
      o := o - 1;
      ReversedNext(children, o);
      nodes := nodes + [children[o]];
    }
    assert children[0..] == children;
  }

  lemma {:induction false} ReversedNext(s: seq<nat>, o: nat)
    requires o < |s|
    ensures Reversed(s[o..]) == Reversed(s[o + 1..]) + [s[o]]
  {
  }

  /** eachBefore: every node under the root once, depth first from left to right, each after its parent. */
  method EachBefore(t: Tree, root: nat) returns (order: seq<nat>)
    requires t.Valid() && t.Node(root) && t.first[root] == 0
    ensures forall v: nat :: v in order <==> v <= root
    ensures ParentsFirst(t, root, order)
  {
    hide Tree.Valid, Visiting, Reversed, ParentsFirst;
    var nodes := [root];
    order := [];
    ghost var visited: set<nat>, unvisited := {}, UpTo(root + 1);
    VisitingStart(t, root);
    while nodes != []
      invariant Visiting(t, root, nodes, order, visited, unvisited)
      decreases unvisited
    {
      var node := nodes[|nodes| - 1];
      assert nodes == nodes[..|nodes| - 1] + [node];
      nodes := nodes[..|nodes| - 1];
      VisitingNext(t, root, nodes, node, order, visited, unvisited);
      order := order + [node];
      visited, unvisited := visited + {node}, unvisited - {node};
      nodes := PushBackwards(nodes, t.children[node]);
    }
    VisitingEnd(t, root, order, visited, unvisited);
  }

  /** The state of the walk: what remains on the stack, and what is on the list. */
  ghost predicate Visiting(t: Tree, root: nat, stack: seq<nat>, order: seq<nat>, visited: set<nat>, unvisited: set<nat>)
    requires t.Valid() && t.Node(root)
  {
    Remaining(t, root, stack, visited) && ParentsFirst(t, root, order) && Listed(root, order, visited, unvisited)
  }

  lemma {:induction false} VisitingStart(t: Tree, root: nat)
    requires t.Valid() && t.Node(root) && t.first[root] == 0
    ensures Visiting(t, root, [root], [], {}, UpTo(root + 1))
  {
    hide Remaining, ParentsFirst;
    OnlyRoot(t, root);
    NoneYet(t, root);
  }

  lemma {:induction false} VisitingNext(t: Tree, root: nat, stack: seq<nat>, v: nat, order: seq<nat>, visited: set<nat>,
                                        unvisited: set<nat>)
    requires t.Valid() && t.Node(root) && t.first[root] == 0 &&
             Visiting(t, root, stack + [v], order, visited, unvisited)
    ensures v < t.Size() && v in unvisited
    ensures Visiting(t, root, stack + Reversed(t.children[v]), order + [v], visited + {v}, unvisited - {v})
  {
    hide Tree.Valid, Remaining, ParentsFirst, Precedes, Reversed, Listed;
    VisitTop(t, root, stack, v, visited);
    ListedNext(root, order, visited, unvisited, v);
    ParentsFirstSnoc(t, root, order, v);
  }

  lemma {:induction false} VisitingEnd(t: Tree, root: nat, order: seq<nat>, visited: set<nat>, unvisited: set<nat>)
    requires t.Valid() && t.Node(root) && t.first[root] == 0 && Visiting(t, root, [], order, visited, unvisited)
    ensures (forall v: nat :: v in order <==> v <= root) && ParentsFirst(t, root, order)
  {
    hide Remaining, ParentsFirst, Tree.Valid;
    forall v: nat
      ensures v in order <==> v <= root
    {
      NothingRemains(t, root, visited, v);
    }
  }

  lemma NoneYet(t: Tree, root: nat)
    requires t.Valid() && t.Node(root)
    ensures ParentsFirst(t, root, [])
  {
  }
}
