/** The finder of linked components, createLinkedNodesFinder of module "50e5": all components that are
    connected with a given one by chains of shared axis indices. */
module LinkedNodes {
  import opened Collections

  /** links[node][dim] lists the axis indices the node controls in that dimension. */
  type Links = seq<seq<seq<nat>>>

  ghost predicate Shaped(links: Links, dims: nat) {
    forall v :: 0 <= v < |links| ==> |links[v]| == dims
  }

  datatype Found = Found(nodes: seq<nat>, records: seq<set<nat>>)

  /** The two nodes have an axis index in common in some dimension. */
  ghost predicate Linked(links: Links, u: nat, v: nat) {
    u < |links| && v < |links| &&
    exists d, i :: 0 <= d < |links[u]| && d < |links[v]| && i in links[u][d] && i in links[v][d]
  }

  ghost predicate Chain(links: Links, path: seq<nat>) {
    path != [] && forall k, l :: 0 <= k && l == k + 1 < |path| ==> Linked(links, path[k], path[l])
  }

  ghost predicate Connected(links: Links, source: nat, v: nat) {
    exists path :: Chain(links, path) && path[0] == source && path[|path| - 1] == v
  }

  lemma ConnectedStep(links: Links, source: nat, u: nat, v: nat)
    requires Connected(links, source, u) && Linked(links, u, v)
    ensures Connected(links, source, v)
  {
    hide Linked;
    var path :| Chain(links, path) && path[0] == source && path[|path| - 1] == u;
    var longer := path + [v];
    assert Chain(links, longer) && longer[|longer| - 1] == v;
  }

  /** The record of a dimension is what the nodes control there. */
  ghost predicate RecordIs(links: Links, nodes: seq<nat>, record: set<nat>, d: nat) {
    && (forall i :: i in record ==>
        exists k :: 0 <= k < |nodes| && nodes[k] < |links| && d < |links[nodes[k]]| && i in links[nodes[k]][d])
    && (forall k, i :: 0 <= k < |nodes| && nodes[k] < |links| && d < |links[nodes[k]]| && i in links[nodes[k]][d] ==>
        i in record)
  }

  ghost predicate Recorded(links: Links, found: Found, dims: nat) {
    && |found.records| == dims && (forall k :: 0 <= k < |found.nodes| ==> found.nodes[k] < |links|)
    && forall d :: 0 <= d < dims ==> RecordIs(links, found.nodes, found.records[d], d)
  }

  /** The node controls an index recorded. */
  ghost predicate Shares(links: Links, records: seq<set<nat>>, v: nat) {
    v < |links| && exists d, i :: 0 <= d < |records| && d < |links[v]| && i in links[v][d] && i in records[d]
  }

  method IsLinked(links: Links, v: nat, records: seq<set<nat>>) returns (linked: bool)
    requires Shaped(links, |records|) && v < |links|
    ensures linked <==> Shares(links, records, v)
  {
    linked := false;
    for d := 0 to |records|
      invariant linked <==> exists e, i :: 0 <= e < d && i in links[v][e] && i in records[e]
    {
      for k := 0 to |links[v][d]|
        invariant linked <==>
                  (exists e, i :: 0 <= e < d && i in links[v][e] && i in records[e]) ||
                    exists i :: i in links[v][d][..k] && i in records[d]
      {
        assert links[v][d][..k + 1] == links[v][d][..k] + [links[v][d][k]];
        if links[v][d][k] in records[d] {
          linked := true;
        }
      }
      assert links[v][d][..|links[v][d]|] == links[v][d];
    }
  }

  /** Takes a node in, with all it controls. */
  method Absorb(links: Links, v: nat, found: Found) returns (r: Found)
    requires Shaped(links, |found.records|) && v < |links|
    ensures r.nodes == found.nodes + [v] && |r.records| == |found.records|
    ensures forall d, i :: 0 <= d < |r.records| ==> (i in r.records[d] <==> i in found.records[d] || i in links[v][d])
  {
    var records := found.records;
    for d := 0 to |records|
      invariant |records| == |found.records| && forall e :: d <= e < |records| ==> records[e] == found.records[e]
      invariant forall e, i :: 0 <= e < d ==> (i in records[e] <==> i in found.records[e] || i in links[v][e])
    {
      var list := links[v][d];
      for k := 0 to |list|
        invariant |records| == |found.records| && forall e :: d < e < |records| ==> records[e] == found.records[e]
        invariant forall e, i :: 0 <= e < d ==> (i in records[e] <==> i in found.records[e] || i in links[v][e])
        invariant forall i :: i in records[d] <==> i in found.records[d] || i in list[..k]
      {
        assert list[..k + 1] == list[..k] + [list[k]];
        records := records[d := records[d] + {list[k]}];
      }
      assert list[..|list|] == list;
    }
    r := Found(found.nodes + [v], records);
  }

  lemma AbsorbedRecords(links: Links, v: nat, found: Found, r: Found)
    requires Shaped(links, |found.records|) && v < |links| && Recorded(links, found, |found.records|)
    requires r.nodes == found.nodes + [v] && |r.records| == |found.records|
    requires forall d, i :: 0 <= d < |r.records| ==> (i in r.records[d] <==> i in found.records[d] || i in links[v][d])
    ensures Recorded(links, r, |r.records|)
  {
    forall d | 0 <= d < |r.records|
      ensures RecordIs(links, r.nodes, r.records[d], d)
    {
      assert RecordIs(links, found.nodes, found.records[d], d);
      forall i | i in r.records[d]
        ensures exists k ::
                0 <= k < |r.nodes| && r.nodes[k] < |links| && d < |links[r.nodes[k]]| && i in links[r.nodes[k]][d]
      {
        if i in links[v][d] {
          assert r.nodes[|found.nodes|] == v;
        } else {
          var k :| 0 <= k < |found.nodes| && found.nodes[k] < |links| && d < |links[found.nodes[k]]| &&
            i in links[found.nodes[k]][d];
          assert r.nodes[k] == found.nodes[k];
        }
      }
    }
  }

  /** Sharing a record is being linked to one of the nodes. */
  lemma SharesMeans(links: Links, found: Found, v: nat)
    requires Shaped(links, |found.records|) && v < |links| && Recorded(links, found, |found.records|)
    ensures Shares(links, found.records, v) <==> exists k :: 0 <= k < |found.nodes| && Linked(links, found.nodes[k], v)
  {
    if Shares(links, found.records, v) {
      var d, i :| 0 <= d < |found.records| && d < |links[v]| && i in links[v][d] && i in found.records[d];
      assert RecordIs(links, found.nodes, found.records[d], d);
      var k :| 0 <= k < |found.nodes| && found.nodes[k] < |links| && d < |links[found.nodes[k]]| &&
        i in links[found.nodes[k]][d];
      assert Linked(links, found.nodes[k], v);
    }
    if k :| 0 <= k < |found.nodes| && Linked(links, found.nodes[k], v) {
      var d, i :| 0 <= d < |links[found.nodes[k]]| && d < |links[v]| && i in links[found.nodes[k]][d] &&
        i in links[v][d];
      assert RecordIs(links, found.nodes, found.records[d], d);
    }
  }

  /** What has been found is right, if perhaps not all. */
  ghost predicate Growing(links: Links, dims: nat, source: nat, found: Found) {
    && Recorded(links, found, dims) && NoDuplicates(found.nodes) && source in found.nodes
    && forall v :: v in found.nodes ==> Connected(links, source, v)
  }

  ghost function Left(links: Links, nodes: seq<nat>): set<nat> {
    set v | 0 <= v < |links| && v !in nodes
  }

  lemma AbsorbLinked(links: Links, dims: nat, source: nat, found: Found, v: nat, r: Found)
    requires Shaped(links, dims) && Growing(links, dims, source, found) && v < |links| && v !in found.nodes
    requires Shares(links, found.records, v) && r.nodes == found.nodes + [v] && Recorded(links, r, dims)
    ensures Growing(links, dims, source, r) && Left(links, r.nodes) < Left(links, found.nodes)
  {
    hide Linked, Connected, Shares;
    SharesMeans(links, found, v);
    var k :| 0 <= k < |found.nodes| && Linked(links, found.nodes[k], v);
    ConnectedStep(links, source, found.nodes[k], v);
    assert v in Left(links, found.nodes) && v !in Left(links, r.nodes);
  }

  /** One round over all nodes: takes in each that is linked to what is there by then. */
  method Sweep(links: Links, dims: nat, ghost source: nat, found0: Found) returns (found: Found, grown: bool)
    requires Shaped(links, dims) && Growing(links, dims, source, found0)
    ensures Growing(links, dims, source, found)
    ensures grown ==> Left(links, found.nodes) < Left(links, found0.nodes)
    ensures !grown ==> found == found0 && forall v :: 0 <= v < |links| && v !in found.nodes ==>
              !Shares(links, found.records, v)
  {
    hide Shares, Growing, Left;
    found, grown := found0, false;
    for v := 0 to |links|
      invariant Growing(links, dims, source, found)
      invariant grown ==> Left(links, found.nodes) < Left(links, found0.nodes)
      invariant !grown ==> found == found0 && forall u :: 0 <= u < v && u !in found.nodes ==>
                  !Shares(links, found.records, u)
    {
      assert |found.records| == dims && Recorded(links, found, dims) by { GrowingRecorded(links, dims, source, found); }
      if v !in found.nodes {
        var linked := IsLinked(links, v, found.records);
        if linked {
          var more := Absorb(links, v, found);
          AbsorbedRecords(links, v, found, more);
          AbsorbLinked(links, dims, source, found, v, more);
          found, grown := more, true;
        }
      }
    }
  }

  lemma GrowingRecorded(links: Links, dims: nat, source: nat, found: Found)
    requires Growing(links, dims, source, found)
    ensures |found.records| == dims && Recorded(links, found, dims)
  {
  }

  /** A chain from a member stays among the members when nothing outside is linked to them. */
  lemma {:induction false} ChainStays(links: Links, nodes: seq<nat>, path: seq<nat>)
    requires Chain(links, path) && path[0] in nodes
    requires forall u, v :: u in nodes && Linked(links, u, v) ==> v in nodes
    ensures path[|path| - 1] in nodes
  {
    hide Linked;
    if |path| > 1 {
      assert Linked(links, path[0], path[1]);
      ChainStays(links, nodes, path[1..]);
    }
  }

  lemma NothingOutside(links: Links, dims: nat, source: nat, found: Found)
    requires Shaped(links, dims) && Growing(links, dims, source, found)
    requires forall v :: 0 <= v < |links| && v !in found.nodes ==> !Shares(links, found.records, v)
    ensures forall v :: v in found.nodes <==> Connected(links, source, v)
  {
    hide Shares, Linked, Recorded;
    forall u, v | u in found.nodes && Linked(links, u, v)
      ensures v in found.nodes
    {
      LinkedWithin(links, u, v);
      var k :| 0 <= k < |found.nodes| && found.nodes[k] == u;
      assert |found.records| == dims by { GrowingRecorded(links, dims, source, found); }
      SharesMeans(links, found, v);
    }
    forall v | Connected(links, source, v)
      ensures v in found.nodes
    {
      var path :| Chain(links, path) && path[0] == source && path[|path| - 1] == v;
      ChainStays(links, found.nodes, path);
    }
  }

  lemma LinkedWithin(links: Links, u: nat, v: nat)
    requires Linked(links, u, v)
    ensures u < |links| && v < |links|
  {
  }

  /** Finds the nodes connected with the source, each once, and the axis indices they control. Without
      a source there are none. */
  method FindLinkedNodes(links: Links, dims: nat, source: Option<nat>) returns (found: Found)
    requires Shaped(links, dims) && (source.Some? ==> source.value < |links|)
    ensures source.None? ==> found == Found([], seq(dims, _ => {}))
    ensures source.Some? ==> NoDuplicates(found.nodes) && forall v :: v in found.nodes <==>
            Connected(links, source.value, v)
    ensures Recorded(links, found, dims)
  {
    found := Found([], seq(dims, _ => {}));
    assert Recorded(links, found, dims);
    if source.None? {
      return;
    }
    var first := Absorb(links, source.value, found);
    AbsorbedRecords(links, source.value, found, first);
    found := first;
    assert Chain(links, [source.value]);
    assert Connected(links, source.value, source.value);
    assert Growing(links, dims, source.value, found);
    hide Shares, Growing, Connected;
    var grown := true;
    while grown
      invariant Growing(links, dims, source.value, found)
      invariant !grown ==> forall v :: 0 <= v < |links| && v !in found.nodes ==> !Shares(links, found.records, v)
      decreases Left(links, found.nodes), grown
    {
      found, grown := Sweep(links, dims, source.value, found);
    }
    NothingOutside(links, dims, source.value, found);
    GrowingDistinct(links, dims, source.value, found);
  }

  lemma GrowingDistinct(links: Links, dims: nat, source: nat, found: Found)
    requires Growing(links, dims, source, found)
    ensures NoDuplicates(found.nodes) && Recorded(links, found, dims)
  {
  }
}
