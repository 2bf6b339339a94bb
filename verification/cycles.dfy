/**
 The cycle collector (cycles.rs): the objects reached from the registered
 cells, the references among them, and which of them nothing outside holds.
 */
module Cycles {
  import opened Bytes
  import opened Heap

  /** An object reached, with its count when reached, the references to it
      from objects reached, and where its own are among the edges. */
  datatype Node = Node(address: nat, rc: nat, internal: nat, lo: nat, hi: nat, held: bool, live: bool)

  /** `edges[lo..hi]`, as the addresses of the nodes. */
  function Targets(nodes: seq<Node>, edges: seq<nat>): (r: seq<nat>)
    requires forall i :: 0 <= i < |edges| ==> edges[i] < |nodes|
    ensures |r| == |edges| && forall i :: 0 <= i < |r| ==> r[i] == nodes[edges[i]].address
  {
    seq(|edges|, i requires 0 <= i < |edges| => nodes[edges[i]].address)
  }

  function Addresses(nodes: seq<Node>): set<nat> { set i | 0 <= i < |nodes| :: nodes[i].address }

  // ---------------------------------------------------------------------
  // What a collection finds, in terms of the heap
  // ---------------------------------------------------------------------

  /** The objects a collection discovers. */
  ghost predicate Discovered(h: Heap, cells: seq<nat>, a: nat)
    requires Closed(h)
  {
    Reached(h, (set c | c in cells), a)
  }

  /** Held from outside the objects of `found`: by more references than those
      among them, by something the counts do not show, or being freed. */
  ghost predicate Held(h: Heap, found: set<nat>, a: nat)
    requires Closed(h) && found <= h.Keys && a in h
  {
    h[a].rc == 0 || h[a].flagged || h[a].rc > RefsFrom(h, found, a)
  }

  ghost function HeldOf(h: Heap, found: set<nat>): set<nat>
    requires Closed(h) && found <= h.Keys
  {
    set a | a in found && Held(h, found, a)
  }

  /** What the collector clears: discovered, and not reached from what is
      held. */
  ghost predicate Garbage(h: Heap, found: set<nat>, a: nat)
    requires Closed(h) && found <= h.Keys
  {
    a in found && !Reached(h, HeldOf(h, found), a)
  }

  // ---------------------------------------------------------------------
  // The nodes and edges of the objects discovered
  // ---------------------------------------------------------------------

  /** The index gives each node's place, and every edge leads to a node. */
  ghost predicate Indexed(h: Heap, nodes: seq<Node>, index: map<nat, nat>, edges: seq<nat>) {
    && (forall i :: 0 <= i < |nodes| ==> nodes[i].address in h && nodes[i].rc == h[nodes[i].address].rc)
    && (forall i :: 0 <= i < |nodes| ==> nodes[i].address in index && index[nodes[i].address] == i)
    && (forall a :: a in index ==> index[a] < |nodes| && nodes[index[a]].address == a)
    && (forall i :: 0 <= i < |edges| ==> edges[i] < |nodes|)
  }

  /** The ranges of the first `next` nodes follow one another and cover the
      edges. */
  ghost predicate Partitioned(nodes: seq<Node>, edges: seq<nat>, next: nat)
    requires next <= |nodes|
  {
    && (next > 0 ==> nodes[0].lo == 0) && (forall i :: 0 < i < next ==> nodes[i].lo == nodes[i - 1].hi)
    && (forall i :: 0 <= i < next ==> nodes[i].lo <= nodes[i].hi <= |edges|)
    && |edges| == (if next == 0 then 0 else nodes[next - 1].hi)
  }

  /** A node's edges are the references of its object. */
  ghost predicate Follows(h: Heap, nodes: seq<Node>, edges: seq<nat>, i: nat)
    requires Closed(h) && i < |nodes| && nodes[i].lo <= nodes[i].hi <= |edges| && nodes[i].address in h
    requires forall k :: 0 <= k < |edges| ==> edges[k] < |nodes|
  {
    Targets(nodes, edges[nodes[i].lo..nodes[i].hi]) == References(h, nodes[i].address)
  }

  ghost predicate Flagged(h: Heap, node: Node)
    requires node.address in h
  {
    node.held <==> (h[node.address].rc != 0 && h[node.address].flagged)
  }

  /** The first `next` nodes are visited; the others are not yet. */
  ghost predicate Visited(h: Heap, nodes: seq<Node>, index: map<nat, nat>, edges: seq<nat>, next: nat)
    requires Closed(h)
  {
    && Indexed(h, nodes, index, edges) && next <= |nodes| && Partitioned(nodes, edges, next)
    && (forall i :: 0 <= i < next ==> Follows(h, nodes, edges, i) && Flagged(h, nodes[i]))
    && (forall i :: next <= i < |nodes| ==> !nodes[i].held)
    && (forall i :: 0 <= i < |nodes| ==> nodes[i].internal == 0 && !nodes[i].live)
  }

  /** Each node was reached from the cells. */
  ghost predicate FromCells(h: Heap, nodes: seq<Node>, cells: set<nat>)
    requires Closed(h)
  {
    forall i :: 0 <= i < |nodes| ==> Reached(h, cells, nodes[i].address)
  }

  // ---------------------------------------------------------------------
  // The visitor
  // ---------------------------------------------------------------------

  class Visitor {
    var nodes: seq<Node>
    /** The node of each address. */
    var index: map<nat, nat>
    /** The nodes each node refers to, one after another. */
    var edges: seq<nat>
    var current: nat

    constructor ()
      ensures nodes == [] && index == map[] && edges == [] && current == 0
    {
      nodes, index, edges, current := [], map[], [], 0;
    }

    method Add(h: Heap, address: nat, rc: nat) returns (node: nat)
      requires Indexed(h, nodes, index, edges) && address in h && h[address].rc == rc && address !in index
      modifies this
      ensures Indexed(h, nodes, index, edges) && edges == old(edges) && current == old(current)
      ensures node == |old(nodes)| && nodes == old(nodes) + [Node(address, rc, 0, 0, 0, false, false)]
      ensures index == old(index)[address := node]
    {
      node := |nodes|;
      nodes := nodes + [Node(address, rc, 0, 0, 0, false, false)];
      index := index[address := node];
    }

    /** A reference from the node visited. */
    method Edge(h: Heap, target: nat)
      requires Closed(h) && Indexed(h, nodes, index, edges) && (target == 0 || target in h)
      modifies this
      ensures Indexed(h, nodes, index, edges) && current == old(current)
      ensures if target == 0 || h[target].rc == IMMORTAL then edges == old(edges) && nodes == old(nodes)
              else target in index && edges == old(edges) + [index[target]]
                   && nodes == old(nodes)
                       + (if target in old(index) then [] else [Node(target, h[target].rc, 0, 0, 0, false, false)])
    {
      if target == 0 { return; }
      var rc := h[target].rc;
      if rc == IMMORTAL { return; }
      var node;
      if target in index { node := index[target]; } else { node := Add(h, target, rc); }
      edges := edges + [node];
    }

    /** The references inside the object of the current node. */
    method Children(h: Heap, address: nat)
      requires Closed(h) && Indexed(h, nodes, index, edges) && address in h && h[address].rc != 0
      requires current < |nodes| && nodes[current].address == address
      modifies this
      ensures Indexed(h, nodes, index, edges) && current == old(current)
      ensures exists mid: seq<Node> ::
                && current < |mid| && Reported(h, old(nodes), old(edges), mid, edges, h[address].refs)
                && nodes == (if h[address].flagged then mid[current := mid[current].(held := true)] else mid)
    {
      hide Reported, Counted;
      var refs := h[address].refs;
      var k := 0;
      NothingReported(h, nodes, edges);
      assert refs[..0] == [];
      while k < |refs|
        invariant k <= |refs| && Indexed(h, nodes, index, edges) && current == old(current)
        invariant Reported(h, old(nodes), old(edges), nodes, edges, refs[..k])
      {
        ghost var nodes', edges' := nodes, edges;
        Edge(h, refs[k]);
        ReportedMore(h, old(nodes), old(edges), nodes', edges', nodes, edges, index, refs, k);
        k := k + 1;
      }
      assert refs[..k] == refs;
      ghost var mid := nodes;
      assert Reported(h, old(nodes), old(edges), mid, edges, refs);
      OldNodes(h, old(nodes), old(edges), nodes, edges, refs);
      if h[address].flagged {
        nodes := nodes[current := nodes[current].(held := true)];
      }
    }

    /** A node for each registered cell. */
    method Register(h: Heap, cells: seq<nat>)
      requires Closed(h) && nodes == [] && index == map[] && edges == []
      requires forall i :: 0 <= i < |cells| ==> cells[i] in h
      requires forall i, j :: 0 <= i < j < |cells| ==> cells[i] != cells[j]
      modifies this
      ensures Visited(h, nodes, index, edges, 0) && |nodes| == |cells|
      ensures forall i :: 0 <= i < |cells| ==> nodes[i].address == cells[i]
    {
      var at := 0;
      while at < |cells|
        invariant at <= |cells| && |nodes| == at && edges == []
        invariant Indexed(h, nodes, index, edges)
        invariant forall i :: 0 <= i < at ==> nodes[i] == Node(cells[i], h[cells[i]].rc, 0, 0, 0, false, false)
      {
        var node := Add(h, cells[at], h[cells[at]].rc);
        at := at + 1;
      }
    }

    /** One node's references, and where they are among the edges. */
    method Visit(h: Heap, ghost from: set<nat>, next: nat)
      requires Closed(h) && next < |nodes| && Visited(h, nodes, index, edges, next) && FromCells(h, nodes, from)
      modifies this
      ensures Visited(h, nodes, index, edges, next + 1) && FromCells(h, nodes, from)
      ensures |nodes| >= |old(nodes)| && forall i :: 0 <= i < |old(nodes)| ==> nodes[i].address == old(nodes)[i].address
    {
      hide Reported, FromCells, Follows, Flagged, References, Counted, Targets, Partitioned;
      var start := |edges|;
      ghost var nodes', edges', index' := nodes, edges, index;
      ghost var mid := nodes;
      var address, rc := nodes[next].address, nodes[next].rc;
      ghost var shown := Shown(h, address);
      if rc != 0 {
        current := next;
        Children(h, address);
        mid :| next < |mid| && Reported(h, nodes', edges', mid, edges, h[address].refs)
               && nodes == (if h[address].flagged then mid[next := mid[next].(held := true)] else mid);
      } else {
        NothingReported(h, nodes, edges);
      }
      OldNodes(h, nodes', edges', mid, edges, shown);
      nodes := nodes[next := nodes[next].(lo := start, hi := |edges|)];
      PlacedSo(h, nodes', mid, nodes, next, start, |edges|);
      OnlyReached(h, nodes', edges', mid, nodes, edges, from, next);
      VisitedMore(h, nodes', edges', index', mid, nodes, edges, index, next);
    }

    /** The references to each node, one edge at a time. */
    method CountInternal()
      requires forall i :: 0 <= i < |edges| ==> edges[i] < |nodes|
      requires forall i :: 0 <= i < |nodes| ==> nodes[i].internal == 0
      modifies this`nodes
      ensures |nodes| == |old(nodes)|
      ensures forall i :: 0 <= i < |nodes| ==> nodes[i] == old(nodes)[i].(internal := Occurs(edges, i))
    {
      var k := 0;
      assert edges[..0] == [];
      while k < |edges|
        invariant k <= |edges| && |nodes| == |old(nodes)|
        invariant forall i :: 0 <= i < |nodes| ==> nodes[i] == old(nodes)[i].(internal := Occurs(edges[..k], i))
      {
        assert edges[..k + 1][..k] == edges[..k];
        var target := edges[k];
        nodes := nodes[target := nodes[target].(internal := nodes[target].internal + 1)];
        k := k + 1;
      }
      assert edges[..k] == edges;
    }

    /** Marks what is held alive, with all it reaches. */
    method MarkLive()
      requires forall i :: 0 <= i < |edges| ==> edges[i] < |nodes|
      requires forall i :: 0 <= i < |nodes| ==> nodes[i].lo <= nodes[i].hi <= |edges| && !nodes[i].live
      modifies this`nodes
      ensures |nodes| == |old(nodes)|
      ensures forall i :: 0 <= i < |nodes| ==> nodes[i] == old(nodes)[i].(live := nodes[i].live)
      ensures forall i :: 0 <= i < |nodes| && HeldNode(nodes[i]) ==> nodes[i].live
      ensures forall i, k :: 0 <= i < |nodes| && nodes[i].live && nodes[i].lo <= k < nodes[i].hi ==>
              nodes[edges[k]].live
      ensures forall i :: 0 <= i < |nodes| && nodes[i].live ==> Led(old(nodes), edges, i)
    {
      hide Marking, Unmarked, Unlived, Led;
      var pending: seq<nat> := [];
      var n := 0;
      while n < |nodes|
        invariant n <= |nodes| && nodes == old(nodes)
        invariant forall j :: 0 <= j < |pending| ==> pending[j] < |nodes| && HeldNode(nodes[pending[j]])
        invariant forall i :: 0 <= i < n && HeldNode(nodes[i]) ==> i in pending
      {
        if HeldNode(nodes[n]) { pending := pending + [n]; }
        n := n + 1;
      }
      MarkingStarts(nodes, edges, pending);
      while pending != []
        invariant Marking(old(nodes), nodes, edges, pending)
        decreases Unmarked(nodes), |pending|
      {
        MarkingShape(old(nodes), nodes, edges, pending);
        ghost var was, before := pending, nodes;
        var node := pending[|pending| - 1];
        pending := pending[..|pending| - 1];
        assert was == pending + [node];
        if nodes[node].live {
          MarkedBefore(old(nodes), nodes, edges, pending, node);
          continue;
        }
        nodes := nodes[node := nodes[node].(live := true)];
        var more := Unlived(nodes, edges[nodes[node].lo..nodes[node].hi]);
        MarkedNow(old(nodes), before, edges, pending, node, nodes, more);
        pending := pending + more;
      }
      MarkingEnds(old(nodes), nodes, edges);
    }

    /** Every node's references, each node once. */
    method Discover(h: Heap, cells: seq<nat>)
      requires Closed(h) && nodes == [] && index == map[] && edges == []
      requires forall i :: 0 <= i < |cells| ==> cells[i] in h
      requires forall i, j :: 0 <= i < j < |cells| ==> cells[i] != cells[j]
      modifies this
      ensures Visited(h, nodes, index, edges, |nodes|)
      ensures forall a :: a in Addresses(nodes) <==> Discovered(h, cells, a)
    {
      hide Visited, Discovered, Reached, Addresses;
      ghost var from := set c | c in cells;
      Register(h, cells);
      forall i | 0 <= i < |nodes| ensures Reached(h, from, nodes[i].address) {
        ReachedFirst(h, from, nodes[i].address);
      }
      var next := 0;
      while next < |nodes|
        invariant next <= |nodes| && Visited(h, nodes, index, edges, next) && FromCells(h, nodes, from)
        invariant |nodes| >= |cells| && forall i :: 0 <= i < |cells| ==> nodes[i].address == cells[i]
        decreases |h| - next
      {
        Few(h, nodes, index, edges, next);
        Visit(h, from, next);
        next := next + 1;
      }
      AllFound(h, cells, nodes, index, edges);
    }
  }

  /** The references `refs` were reported: each adds its edge, and a node the
      first time its object is met. */
  ghost predicate Reported(h: Heap, nodes': seq<Node>, edges': seq<nat>, nodes: seq<Node>, edges: seq<nat>,
                           refs: seq<nat>)
    requires forall i :: 0 <= i < |refs| ==> refs[i] == 0 || refs[i] in h
  {
    && |nodes'| <= |nodes| && nodes[..|nodes'|] == nodes'
    && (forall i :: |nodes'| <= i < |nodes| ==> Fresh(h, nodes[i]) && nodes[i].address in Counted(h, refs))
    && |edges'| <= |edges| && edges[..|edges'|] == edges'
    && (forall i :: 0 <= i < |edges| ==> edges[i] < |nodes|)
    && Targets(nodes, edges[|edges'|..]) == Counted(h, refs)
  }

  ghost predicate Fresh(h: Heap, node: Node) {
    node.address in h && node == Node(node.address, h[node.address].rc, 0, 0, 0, false, false)
  }

  lemma NothingReported(h: Heap, nodes: seq<Node>, edges: seq<nat>)
    requires forall i :: 0 <= i < |edges| ==> edges[i] < |nodes|
    ensures Reported(h, nodes, edges, nodes, edges, [])
  {
  }

  lemma OldNodes(h: Heap, nodes': seq<Node>, edges': seq<nat>, nodes: seq<Node>, edges: seq<nat>, refs: seq<nat>)
    requires forall i :: 0 <= i < |refs| ==> refs[i] == 0 || refs[i] in h
    requires Reported(h, nodes', edges', nodes, edges, refs)
    ensures |nodes'| <= |nodes| && forall i :: 0 <= i < |nodes'| ==> nodes[i] == nodes'[i]
  {
    assert forall i :: 0 <= i < |nodes'| ==> nodes[i] == nodes[..|nodes'|][i];
  }

  lemma ReportedMore(h: Heap, nodes0: seq<Node>, edges0: seq<nat>, nodes': seq<Node>, edges': seq<nat>,
                     nodes: seq<Node>, edges: seq<nat>, index: map<nat, nat>, refs: seq<nat>, k: nat)
    requires k < |refs| && forall i :: 0 <= i < |refs| ==> refs[i] == 0 || refs[i] in h
    requires Reported(h, nodes0, edges0, nodes', edges', refs[..k])
    requires Indexed(h, nodes, index, edges)
    requires var target := refs[k];
             if target == 0 || h[target].rc == IMMORTAL then edges == edges' && nodes == nodes'
             else target in index && edges == edges' + [index[target]]
                  && (nodes == nodes' || nodes == nodes' + [Node(target, h[target].rc, 0, 0, 0, false, false)])
    ensures Reported(h, nodes0, edges0, nodes, edges, refs[..k + 1])
  {
    var target := refs[k];
    assert refs[..k + 1][..k] == refs[..k];
    if !(target == 0 || h[target].rc == IMMORTAL) {
      assert nodes[..|nodes0|] == nodes'[..|nodes0|];
      assert edges[..|edges0|] == edges'[..|edges0|];
      assert edges[|edges0|..] == edges'[|edges0|..] + [index[target]];
      assert Counted(h, refs[..k + 1]) == Counted(h, refs[..k]) + [target];
      assert Targets(nodes, edges[|edges0|..]) == Targets(nodes', edges'[|edges0|..]) + [target];
    }
  }

  /** The node visited becomes held, and gets its range. */
  ghost predicate Placed(h: Heap, mid: seq<Node>, nodes: seq<Node>, next: nat, lo: nat, hi: nat) {
    && next < |mid| && mid[next].address in h
    && nodes == mid[next := mid[next].(lo := lo, hi := hi,
                                       held := mid[next].held
                                           || (h[mid[next].address].rc != 0 && h[mid[next].address].flagged))]
  }

  lemma PlacedSo(h: Heap, nodes': seq<Node>, mid: seq<Node>, nodes: seq<Node>, next: nat, lo: nat, hi: nat)
    requires next < |nodes'| <= |mid| && mid[next] == nodes'[next] && mid[next].address in h
    requires var o := h[mid[next].address];
             nodes == (if o.rc != 0 && o.flagged then mid[next := mid[next].(held := true)] else mid)
                        [next := (if o.rc != 0 && o.flagged then mid[next].(held := true) else mid[next]).(lo := lo,
                            hi := hi)]
    ensures Placed(h, mid, nodes, next, lo, hi)
  {
  }

  lemma OnlyReached(h: Heap, nodes': seq<Node>, edges': seq<nat>, mid: seq<Node>, nodes: seq<Node>, edges: seq<nat>,
                    from: set<nat>, next: nat)
    requires Closed(h) && next < |nodes'| && nodes'[next].address in h
    requires FromCells(h, nodes', from)
    requires Reported(h, nodes', edges', mid, edges, Shown(h, nodes'[next].address))
    requires Placed(h, mid, nodes, next, |edges'|, |edges|)
    ensures FromCells(h, nodes, from)
  {
    hide Reached, Counted;
    OldNodes(h, nodes', edges', mid, edges, Shown(h, nodes'[next].address));
    forall i | 0 <= i < |nodes|
      ensures Reached(h, from, nodes[i].address)
    {
      assert nodes[i].address == mid[i].address;
      if i >= |nodes'| {
        ShownReferences(h, nodes'[next].address);
        ReachedNext(h, from, nodes'[next].address, mid[i].address);
      }
    }
  }

  /** What visiting an object shows: nothing of one being freed. */
  function Shown(h: Heap, a: nat): (r: seq<nat>)
    requires Closed(h) && a in h
    ensures forall i :: 0 <= i < |r| ==> r[i] == 0 || r[i] in h
  {
    if h[a].rc == 0 then [] else h[a].refs
  }

  lemma ShownReferences(h: Heap, a: nat)
    requires Closed(h) && a in h
    ensures Counted(h, Shown(h, a)) == References(h, a)
  {
  }

  /** Nodes have different addresses, so there are no more than objects. */
  lemma Few(h: Heap, nodes: seq<Node>, index: map<nat, nat>, edges: seq<nat>, next: nat)
    requires Closed(h) && Visited(h, nodes, index, edges, next)
    ensures |nodes| <= |h|
  {
    forall i, j | 0 <= i < j < |nodes| ensures nodes[i].address != nodes[j].address {
      assert index[nodes[i].address] == i;
    }
    FewDistinct(nodes, h.Keys);
  }

  lemma {:induction false} FewDistinct(nodes: seq<Node>, keys: set<nat>)
    requires forall i :: 0 <= i < |nodes| ==> nodes[i].address in keys
    requires forall i, j :: 0 <= i < j < |nodes| ==> nodes[i].address != nodes[j].address
    ensures |nodes| <= |keys|
  {
    if nodes != [] {
      var last := nodes[|nodes| - 1];
      FewDistinct(nodes[..|nodes| - 1], keys - {last.address});
    }
  }

  lemma FollowsStill(h: Heap, nodes': seq<Node>, edges': seq<nat>, nodes: seq<Node>, edges: seq<nat>, i: nat)
    requires Closed(h) && i < |nodes'| <= |nodes| && |edges'| <= |edges| && edges[..|edges'|] == edges'
    requires nodes'[i].lo <= nodes'[i].hi <= |edges'| && nodes'[i].address in h && nodes[i] == nodes'[i]
    requires forall k :: 0 <= k < |edges| ==> edges[k] < |nodes|
    requires forall k :: 0 <= k < |edges'| ==> edges'[k] < |nodes'|
    requires forall k :: 0 <= k < |nodes'| ==> nodes[k].address == nodes'[k].address
    requires Follows(h, nodes', edges', i)
    ensures Follows(h, nodes, edges, i)
  {
    hide References;
    var lo, hi := nodes[i].lo, nodes[i].hi;
    assert edges[lo..hi] == edges'[lo..hi];
    assert Targets(nodes, edges[lo..hi]) == Targets(nodes', edges'[lo..hi]);
  }

  lemma FollowsNew(h: Heap, nodes': seq<Node>, edges': seq<nat>, mid: seq<Node>, nodes: seq<Node>, edges: seq<nat>,
                   next: nat)
    requires Closed(h) && next < |nodes'| && nodes'[next].address in h
    requires Reported(h, nodes', edges', mid, edges, Shown(h, nodes'[next].address))
    requires Placed(h, mid, nodes, next, |edges'|, |edges|)
    ensures nodes[next].lo <= nodes[next].hi <= |edges| && nodes[next].address == nodes'[next].address
    ensures Follows(h, nodes, edges, next)
  {
    hide References, Counted;
    OldNodes(h, nodes', edges', mid, edges, Shown(h, nodes'[next].address));
    ShownReferences(h, nodes'[next].address);
    assert edges[|edges'|..|edges|] == edges[|edges'|..];
    assert Targets(nodes, edges[|edges'|..]) == Targets(mid, edges[|edges'|..]);
  }

  lemma PartitionedMore(nodes': seq<Node>, edges': seq<nat>, nodes: seq<Node>, edges: seq<nat>, next: nat)
    requires next < |nodes'| <= |nodes| && |edges'| <= |edges| && Partitioned(nodes', edges', next)
    requires forall i :: 0 <= i < next ==> nodes[i] == nodes'[i]
    requires nodes[next].lo == |edges'| && nodes[next].hi == |edges|
    ensures Partitioned(nodes, edges, next + 1)
  {
    forall i | 0 <= i < next
      ensures nodes[i].lo <= nodes[i].hi <= |edges| && (i > 0 ==> nodes[i].lo == nodes[i - 1].hi)
    {
      assert nodes[i] == nodes'[i];
      if i > 0 { assert nodes[i - 1] == nodes'[i - 1]; }
    }
    assert next > 0 ==> nodes[next - 1] == nodes'[next - 1] && nodes[0] == nodes'[0];
  }

  lemma Ranges(nodes: seq<Node>, edges: seq<nat>, next: nat)
    requires next <= |nodes| && Partitioned(nodes, edges, next)
    ensures forall i :: 0 <= i < next ==> nodes[i].lo <= nodes[i].hi <= |edges|
  {
  }

  /** Visiting one more node keeps what holds of those before it. */
  lemma VisitedMore(h: Heap, nodes': seq<Node>, edges': seq<nat>, index': map<nat, nat>,
                    mid: seq<Node>, nodes: seq<Node>, edges: seq<nat>, index: map<nat, nat>, next: nat)
    requires Closed(h) && next < |nodes'| && Visited(h, nodes', index', edges', next)
    requires Indexed(h, nodes, index, edges)
    requires Reported(h, nodes', edges', mid, edges, Shown(h, nodes'[next].address))
    requires Placed(h, mid, nodes, next, |edges'|, |edges|)
    ensures Visited(h, nodes, index, edges, next + 1)
  {
    hide References, Follows, Counted, Targets, Partitioned;
    Ranges(nodes', edges', next);
    OldNodes(h, nodes', edges', mid, edges, Shown(h, nodes'[next].address));
    FollowsNew(h, nodes', edges', mid, nodes, edges, next);
    forall i | 0 <= i < next
      ensures nodes[i] == nodes'[i] && Follows(h, nodes, edges, i) && Flagged(h, nodes[i])
    {
      FollowsStill(h, nodes', edges', nodes, edges, i);
    }
    assert Flagged(h, nodes[next]);
    PartitionedMore(nodes', edges', nodes, edges, next);
    assert forall i :: next < i < |nodes| ==> nodes[i] == mid[i];
  }

  /** Once every node is visited, they are all that is reached. */
  lemma AllFound(h: Heap, cells: seq<nat>, nodes: seq<Node>, index: map<nat, nat>, edges: seq<nat>)
    requires Closed(h) && Visited(h, nodes, index, edges, |nodes|)
    requires FromCells(h, nodes, set c | c in cells)
    requires |nodes| >= |cells| && forall i :: 0 <= i < |cells| ==> nodes[i].address == cells[i]
    ensures forall a :: a in Addresses(nodes) <==> Discovered(h, cells, a)
  {
    hide Reached;
    var from, inside := (set c | c in cells), Addresses(nodes);
    FollowInside(h, nodes, index, edges);
    forall a | Discovered(h, cells, a)
      ensures a in inside
    {
      ReachedInside(h, from, inside, a);
    }
  }

  lemma FollowedIs(h: Heap, nodes: seq<Node>, edges: seq<nat>, i: nat, y: nat)
    requires Closed(h) && i < |nodes| && nodes[i].lo <= nodes[i].hi <= |edges| && nodes[i].address in h
    requires forall k :: 0 <= k < |edges| ==> edges[k] < |nodes|
    requires Follows(h, nodes, edges, i) && y in References(h, nodes[i].address)
    ensures y in Addresses(nodes)
  {
    hide References;
    var r := Targets(nodes, edges[nodes[i].lo..nodes[i].hi]);
    var k :| 0 <= k < |r| && r[k] == y;
  }

  lemma FollowInside(h: Heap, nodes: seq<Node>, index: map<nat, nat>, edges: seq<nat>)
    requires Closed(h) && Visited(h, nodes, index, edges, |nodes|)
    ensures forall x, y :: x in Addresses(nodes) && x in h && y in References(h, x) ==> y in Addresses(nodes)
  {
    hide References, Follows, Flagged, Closed;
    forall x, y | x in Addresses(nodes) && x in h && y in References(h, x)
      ensures y in Addresses(nodes)
    {
      var i :| 0 <= i < |nodes| && nodes[i].address == x;
      FollowedIs(h, nodes, edges, i, y);
    }
  }

  // ---------------------------------------------------------------------
  // Marking
  // ---------------------------------------------------------------------

  predicate HeldNode(node: Node) { node.held || node.rc == 0 || node.rc > node.internal }

  /** A walk along the edges from a held node. */
  ghost predicate Walk(nodes: seq<Node>, edges: seq<nat>, w: seq<nat>) {
    && w != [] && (forall i :: 0 <= i < |w| ==> w[i] < |nodes|) && HeldNode(nodes[w[0]])
    && (forall i :: 0 <= i < |w| - 1 ==>
        nodes[w[i]].lo <= nodes[w[i]].hi <= |edges| && w[i + 1] in edges[nodes[w[i]].lo..nodes[w[i]].hi])
  }

  ghost predicate Led(nodes: seq<Node>, edges: seq<nat>, i: nat) {
    exists w :: Walk(nodes, edges, w) && w[|w| - 1] == i
  }

  lemma LedHeld(nodes: seq<Node>, edges: seq<nat>, i: nat)
    requires i < |nodes| && HeldNode(nodes[i])
    ensures Led(nodes, edges, i)
  {
    assert Walk(nodes, edges, [i]);
  }

  lemma LedNext(nodes: seq<Node>, edges: seq<nat>, i: nat, j: nat)
    requires i < |nodes| && Led(nodes, edges, i) && nodes[i].lo <= nodes[i].hi <= |edges|
    requires j < |nodes| && j in edges[nodes[i].lo..nodes[i].hi]
    ensures Led(nodes, edges, j)
  {
    var w :| Walk(nodes, edges, w) && w[|w| - 1] == i;
    var x := w + [j];
    assert Walk(nodes, edges, x) by {
      forall k | 0 <= k < |x| - 1
        ensures nodes[x[k]].lo <= nodes[x[k]].hi <= |edges| && x[k + 1] in edges[nodes[x[k]].lo..nodes[x[k]].hi]
      {
        if k < |w| - 1 { assert x[k] == w[k] && x[k + 1] == w[k + 1]; }
      }
    }
    assert x[|x| - 1] == j;
  }

  /** The targets not live yet. */
  function Unlived(nodes: seq<Node>, targets: seq<nat>): (r: seq<nat>)
    requires forall i :: 0 <= i < |targets| ==> targets[i] < |nodes|
    ensures forall x :: x in r <==> x in targets && x < |nodes| && !nodes[x].live
  {
    if targets == [] then []
    else
      assert targets == targets[..|targets| - 1] + [targets[|targets| - 1]];
      Unlived(nodes, targets[..|targets| - 1])
          + (if nodes[targets[|targets| - 1]].live then [] else [targets[|targets| - 1]])
  }

  /** How many nodes are not live. */
  function Unmarked(nodes: seq<Node>): nat {
    if nodes == [] then 0 else Unmarked(nodes[..|nodes| - 1]) + (if nodes[|nodes| - 1].live then 0 else 1)
  }

  lemma {:induction false} UnmarkedFalls(nodes: seq<Node>, i: nat)
    requires i < |nodes| && !nodes[i].live
    ensures Unmarked(nodes[i := nodes[i].(live := true)]) < Unmarked(nodes)
  {
    var after := nodes[i := nodes[i].(live := true)];
    var n := |nodes| - 1;
    if i < n {
      assert after[..n] == nodes[..n][i := nodes[i].(live := true)];
      UnmarkedFalls(nodes[..n], i);
    } else {
      assert after[..n] == nodes[..n];
    }
  }

  /** What the worklist keeps: what is live or pending is led to, and what is
      held or that something live refers to is live or pending. */
  ghost predicate Marking(start: seq<Node>, nodes: seq<Node>, edges: seq<nat>, pending: seq<nat>) {
    && |nodes| == |start|
    && (forall i :: 0 <= i < |nodes| ==> nodes[i] == start[i].(live := nodes[i].live))
    && (forall i :: 0 <= i < |nodes| ==> nodes[i].lo <= nodes[i].hi <= |edges|)
    && (forall i :: 0 <= i < |edges| ==> edges[i] < |nodes|)
    && (forall j :: 0 <= j < |pending| ==> pending[j] < |nodes| && Led(start, edges, pending[j]))
    && (forall i :: 0 <= i < |nodes| && nodes[i].live ==> Led(start, edges, i))
    && (forall i :: 0 <= i < |nodes| && HeldNode(nodes[i]) ==> nodes[i].live || i in pending)
    && (forall i, k :: 0 <= i < |nodes| && nodes[i].live && nodes[i].lo <= k < nodes[i].hi ==>
          nodes[edges[k]].live || edges[k] in pending)
  }

  lemma MarkedBefore(start: seq<Node>, nodes: seq<Node>, edges: seq<nat>, pending: seq<nat>, node: nat)
    requires Marking(start, nodes, edges, pending + [node]) && node < |nodes| && nodes[node].live
    ensures Marking(start, nodes, edges, pending)
  {
    hide Led;
    assert forall j :: 0 <= j < |pending| ==> (pending + [node])[j] == pending[j];
    assert forall x :: x in pending + [node] <==> x in pending || x == node;
  }

  lemma MarkingStarts(nodes: seq<Node>, edges: seq<nat>, pending: seq<nat>)
    requires forall i :: 0 <= i < |edges| ==> edges[i] < |nodes|
    requires forall i :: 0 <= i < |nodes| ==> nodes[i].lo <= nodes[i].hi <= |edges| && !nodes[i].live
    requires forall j :: 0 <= j < |pending| ==> pending[j] < |nodes| && HeldNode(nodes[pending[j]])
    requires forall i :: 0 <= i < |nodes| && HeldNode(nodes[i]) ==> i in pending
    ensures Marking(nodes, nodes, edges, pending)
  {
    hide Led;
    forall j | 0 <= j < |pending| ensures Led(nodes, edges, pending[j]) { LedHeld(nodes, edges, pending[j]); }
  }

  lemma MarkingShape(start: seq<Node>, nodes: seq<Node>, edges: seq<nat>, pending: seq<nat>)
    requires Marking(start, nodes, edges, pending)
    ensures |nodes| == |start|
    ensures forall i :: 0 <= i < |nodes| ==> nodes[i] == start[i].(live := nodes[i].live)
    ensures forall i :: 0 <= i < |nodes| ==> nodes[i].lo <= nodes[i].hi <= |edges|
    ensures forall i :: 0 <= i < |edges| ==> edges[i] < |nodes|
    ensures forall j :: 0 <= j < |pending| ==> pending[j] < |nodes|
  {
  }

  lemma MarkingEnds(start: seq<Node>, nodes: seq<Node>, edges: seq<nat>)
    requires Marking(start, nodes, edges, [])
    ensures |nodes| == |start|
    ensures forall i :: 0 <= i < |nodes| ==> nodes[i] == start[i].(live := nodes[i].live)
    ensures forall i :: 0 <= i < |nodes| && HeldNode(nodes[i]) ==> nodes[i].live
    ensures forall i, k ::
              0 <= i < |nodes| && nodes[i].live && nodes[i].lo <= k < nodes[i].hi
              && k < |edges| && edges[k] < |nodes| ==>
              nodes[edges[k]].live
    ensures forall i :: 0 <= i < |nodes| && nodes[i].live ==> Led(start, edges, i)
    ensures forall i :: 0 <= i < |nodes| ==> nodes[i].lo <= nodes[i].hi <= |edges|
    ensures forall i :: 0 <= i < |edges| ==> edges[i] < |nodes|
  {
    hide Led;
  }

  /** A target of a node marked now is live or goes on the worklist. */
  lemma TargetPends(after: seq<Node>, edges: seq<nat>, lo: nat, hi: nat, k: nat)
    requires lo <= k < hi <= |edges| && forall i :: 0 <= i < |edges| ==> edges[i] < |after|
    ensures after[edges[k]].live || edges[k] in Unlived(after, edges[lo..hi])
  {
    assert edges[lo..hi][k - lo] == edges[k];
  }

  lemma MoreLed(start: seq<Node>, nodes: seq<Node>, edges: seq<nat>, node: nat, after: seq<Node>, x: nat)
    requires |start| == |nodes| == |after| && node < |nodes| && Led(start, edges, node)
    requires nodes[node] == start[node].(live := nodes[node].live) && nodes[node].lo <= nodes[node].hi <= |edges|
    requires forall i :: 0 <= i < |edges| ==> edges[i] < |nodes|
    requires x in Unlived(after, edges[nodes[node].lo..nodes[node].hi])
    ensures x < |nodes| && Led(start, edges, x)
  {
    LedNext(start, edges, node, x);
  }

  lemma InBoth(a: seq<nat>, b: seq<nat>, x: nat)
    ensures x in a + b <==> x in a || x in b
  {
  }

  lemma MarkedNow(start: seq<Node>, nodes: seq<Node>, edges: seq<nat>, pending: seq<nat>, node: nat,
                  after: seq<Node>, more: seq<nat>)
    requires Marking(start, nodes, edges, pending + [node]) && node < |nodes| && !nodes[node].live
    requires after == nodes[node := nodes[node].(live := true)]
    requires more == Unlived(after, edges[nodes[node].lo..nodes[node].hi])
    ensures Marking(start, after, edges, pending + more) && Unmarked(after) < Unmarked(nodes)
  {
    hide Led, Unlived, Unmarked, HeldNode;
    UnmarkedFalls(nodes, node);
    var was, now := pending + [node], pending + more;
    assert was[|pending|] == node;
    forall j | 0 <= j < |now|
      ensures now[j] < |nodes| && Led(start, edges, now[j])
    {
      if j < |pending| {
        assert was[j] == now[j];
      } else {
        assert now[j] == more[j - |pending|];
        MoreLed(start, nodes, edges, node, after, now[j]);
      }
    }
    forall i | 0 <= i < |after|
      ensures HeldNode(after[i]) ==> after[i].live || i in now
    {
      assert HeldNode(after[i]) == HeldNode(nodes[i]) by { SameHeld(nodes[i]); }
      InBoth(pending, [node], i);
      InBoth(pending, more, i);
    }
    forall i, k | 0 <= i < |after| && after[i].live && after[i].lo <= k < after[i].hi
      ensures after[edges[k]].live || edges[k] in now
    {
      InBoth(pending, [node], edges[k]);
      InBoth(pending, more, edges[k]);
      if i == node { TargetPends(after, edges, nodes[node].lo, nodes[node].hi, k); }
    }
  }

  lemma SameHeld(node: Node)
    ensures HeldNode(node.(live := true)) == HeldNode(node)
  {
  }

  // ---------------------------------------------------------------------
  // A collection
  // ---------------------------------------------------------------------

  ghost function Found(h: Heap, cells: seq<nat>): set<nat>
    requires Closed(h)
  {
    set a | a in h && Discovered(h, cells, a)
  }

  /** The addresses of the nodes that are not live, in their order. */
  function Dead(nodes: seq<Node>): (r: seq<nat>)
    ensures forall a :: a in r <==> exists i :: 0 <= i < |nodes| && !nodes[i].live && nodes[i].address == a
  {
    if nodes == [] then []
    else
      var last := nodes[|nodes| - 1];
      var r := Dead(nodes[..|nodes| - 1]) + (if last.live then [] else [last.address]);
      assert nodes == nodes[..|nodes| - 1] + [last];
      assert forall i :: 0 <= i < |nodes| - 1 ==> nodes[..|nodes| - 1][i] == nodes[i];
      r
  }

  /** Discovers, counts and marks, and gives the objects to clear: each of
      those discovered that is not reached from what is held, once. */
  method CountAndMark(h: Heap, cells: seq<nat>) returns (garbage: seq<nat>)
    requires Closed(h) && (forall i :: 0 <= i < |cells| ==> cells[i] in h)
    requires forall i, j :: 0 <= i < j < |cells| ==> cells[i] != cells[j]
    ensures forall a :: a in garbage <==> Garbage(h, Found(h, cells), a)
    ensures forall i, j :: 0 <= i < j < |garbage| ==> garbage[i] != garbage[j]
  {
    hide Garbage, Found, Addresses, Dead, Led, Discovered, HeldNode, Occurs;
    if cells == [] {
      NothingFound(h, cells);
      return [];
    }
    var visitor := new Visitor();
    visitor.Discover(h, cells);
    ghost var discovered, index, edges := visitor.nodes, visitor.index, visitor.edges;
    visitor.CountInternal();
    ghost var counted := visitor.nodes;
    visitor.MarkLive();
    garbage := Dead(visitor.nodes);
    CollectsExactly(h, cells, discovered, index, edges, counted, visitor.nodes);
  }

  lemma CollectsExactly(h: Heap, cells: seq<nat>, nodes: seq<Node>, index: map<nat, nat>, edges: seq<nat>,
                        counted: seq<Node>, marked: seq<Node>)
    requires Closed(h) && Visited(h, nodes, index, edges, |nodes|)
    requires forall a :: a in Addresses(nodes) <==> Discovered(h, cells, a)
    requires |nodes| == |counted| == |marked|
    requires forall i :: 0 <= i < |nodes| ==> counted[i] == nodes[i].(internal := Occurs(edges, i))
    requires forall i :: 0 <= i < |nodes| ==> marked[i] == counted[i].(live := marked[i].live)
    requires forall i :: 0 <= i < |nodes| && HeldNode(marked[i]) ==> marked[i].live
    requires forall i, k :: 0 <= i < |nodes| && marked[i].live && marked[i].lo <= k < marked[i].hi ==>
             marked[edges[k]].live
    requires forall i :: 0 <= i < |nodes| && marked[i].live ==> Led(counted, edges, i)
    ensures forall a :: a in Dead(marked) <==> Garbage(h, Found(h, cells), a)
    ensures forall i, j :: 0 <= i < j < |Dead(marked)| ==> Dead(marked)[i] != Dead(marked)[j]
  {
    FoundAddresses(h, cells, nodes, index, edges);
    MarkedExactly(h, nodes, index, edges, counted, marked);
    DeadOnce(marked, index);
    hide Dead, Garbage, Found, Addresses, Visited, Led, Discovered;
    forall a
      ensures a in Dead(marked) <==> Garbage(h, Found(h, cells), a)
    {
      DeadIsGarbage(h, nodes, marked, a);
    }
  }

  lemma NothingFound(h: Heap, cells: seq<nat>)
    requires Closed(h) && cells == []
    ensures forall a :: !Garbage(h, Found(h, cells), a)
  {
  }

  lemma FoundAddresses(h: Heap, cells: seq<nat>, nodes: seq<Node>, index: map<nat, nat>, edges: seq<nat>)
    requires Closed(h) && Indexed(h, nodes, index, edges)
    requires forall a :: a in Addresses(nodes) <==> Discovered(h, cells, a)
    ensures Found(h, cells) == Addresses(nodes)
  {
    hide Discovered;
  }

  lemma {:induction false} DeadOnce(nodes: seq<Node>, index: map<nat, nat>)
    requires forall i :: 0 <= i < |nodes| ==> nodes[i].address in index && index[nodes[i].address] == i
    ensures forall i, j :: 0 <= i < j < |Dead(nodes)| ==> Dead(nodes)[i] != Dead(nodes)[j]
  {
    if nodes != [] {
      var last, front := nodes[|nodes| - 1], nodes[..|nodes| - 1];
      DeadOnce(front, index);
      if !last.live {
        forall i | 0 <= i < |Dead(front)| ensures Dead(front)[i] != last.address {
          assert Dead(front)[i] in Dead(front);
          var k :| 0 <= k < |front| && front[k].address == Dead(front)[i];
          assert index[nodes[k].address] == k;
        }
      }
    }
  }

  lemma {:induction false} OccursTargets(nodes: seq<Node>, index: map<nat, nat>, edges: seq<nat>, i: nat)
    requires forall k :: 0 <= k < |nodes| ==> nodes[k].address in index && index[nodes[k].address] == k
    requires forall k :: 0 <= k < |edges| ==> edges[k] < |nodes|
    requires i < |nodes|
    ensures Occurs(edges, i) == Occurs(Targets(nodes, edges), nodes[i].address)
  {
    if edges != [] {
      var front := edges[..|edges| - 1];
      OccursTargets(nodes, index, front, i);
      var targets := Targets(nodes, edges);
      assert targets[..|targets| - 1] == Targets(nodes, front);
      assert index[nodes[edges[|edges| - 1]].address] == edges[|edges| - 1] && index[nodes[i].address] == i;
    }
  }

  /** The edges of the first `n` nodes that lead to a node are the references
      to its object from theirs. */
  lemma {:induction false} CountedExactly(h: Heap, nodes: seq<Node>, index: map<nat, nat>, edges: seq<nat>, n: nat,
                                          i: nat)
    requires Closed(h) && Visited(h, nodes, index, edges, |nodes|) && n <= |nodes| && i < |nodes|
    ensures var hi := if n == 0 then 0 else nodes[n - 1].hi;
            && hi <= |edges| && Addresses(nodes[..n]) <= h.Keys
            && Occurs(edges[..hi], i) == RefsFrom(h, Addresses(nodes[..n]), nodes[i].address)
  {
    hide References, RefsFrom, Occurs, Follows, Targets, Flagged;
    KeysIn(h, nodes, index, edges, n);
    if n == 0 {
      assert edges[..0] == [];
      NoneYet(h, i, nodes[i].address);
      assert Addresses(nodes[..0]) == {};
    } else {
      CountedExactly(h, nodes, index, edges, n - 1, i);
      var lo, hi, x := nodes[n - 1].lo, nodes[n - 1].hi, nodes[n - 1].address;
      assert edges[..hi] == edges[..lo] + edges[lo..hi];
      OccursAppends(edges[..lo], edges[lo..hi], i);
      OccursTargets(nodes, index, edges[lo..hi], i);
      FollowsOccurs(h, nodes, edges, n - 1, i);
      LastAddress(nodes, index, n);
      RefsFromRemoves(h, Addresses(nodes[..n]), nodes[i].address, x);
    }
  }

  lemma FollowsOccurs(h: Heap, nodes: seq<Node>, edges: seq<nat>, k: nat, i: nat)
    requires Closed(h) && k < |nodes| && i < |nodes| && nodes[k].lo <= nodes[k].hi <= |edges| && nodes[k].address in h
    requires forall e :: 0 <= e < |edges| ==> edges[e] < |nodes|
    requires Follows(h, nodes, edges, k)
    ensures Occurs(Targets(nodes, edges[nodes[k].lo..nodes[k].hi]), nodes[i].address) ==
            Occurs(References(h, nodes[k].address), nodes[i].address)
  {
  }

  lemma KeysIn(h: Heap, nodes: seq<Node>, index: map<nat, nat>, edges: seq<nat>, n: nat)
    requires Indexed(h, nodes, index, edges) && n <= |nodes|
    ensures Addresses(nodes[..n]) <= h.Keys
  {
    assert forall k :: 0 <= k < n ==> nodes[..n][k] == nodes[k];
  }

  lemma NoneYet(h: Heap, i: nat, a: nat)
    requires Closed(h)
    ensures Occurs([], i) == 0 && RefsFrom(h, {}, a) == 0
  {
  }

  lemma LastAddress(nodes: seq<Node>, index: map<nat, nat>, n: nat)
    requires 0 < n <= |nodes|
    requires forall k :: 0 <= k < |nodes| ==> nodes[k].address in index && index[nodes[k].address] == k
    ensures nodes[n - 1].address in Addresses(nodes[..n])
    ensures Addresses(nodes[..n]) - {nodes[n - 1].address} == Addresses(nodes[..n - 1])
  {
    var all, front := nodes[..n], nodes[..n - 1];
    assert all[n - 1] == nodes[n - 1];
    assert forall k :: 0 <= k < n - 1 ==> all[k] == front[k] == nodes[k] && index[nodes[k].address] == k;
  }

  /** Node by node, live means reached from an object held. */
  lemma MarkedExactly(h: Heap, nodes: seq<Node>, index: map<nat, nat>, edges: seq<nat>, counted: seq<Node>,
                      marked: seq<Node>)
    requires Closed(h) && Visited(h, nodes, index, edges, |nodes|)
    requires |nodes| == |counted| == |marked|
    requires forall i :: 0 <= i < |nodes| ==> counted[i] == nodes[i].(internal := Occurs(edges, i))
    requires forall i :: 0 <= i < |nodes| ==> marked[i] == counted[i].(live := marked[i].live)
    requires forall i :: 0 <= i < |nodes| && HeldNode(marked[i]) ==> marked[i].live
    requires forall i, k :: 0 <= i < |nodes| && marked[i].live && marked[i].lo <= k < marked[i].hi ==>
             marked[edges[k]].live
    requires forall i :: 0 <= i < |nodes| && marked[i].live ==> Led(counted, edges, i)
    ensures Addresses(nodes) <= h.Keys
    ensures forall i :: 0 <= i < |nodes| ==>
            (marked[i].live <==> Reached(h, HeldOf(h, Addresses(nodes)), nodes[i].address))
  {
    hide Reached, Led, HeldOf, HeldNode;
    var found := Addresses(nodes);
    assert found <= h.Keys;
    HeldExactly(h, nodes, index, edges, counted);
    forall i | 0 <= i < |nodes|
      ensures marked[i].live <==> Reached(h, HeldOf(h, found), nodes[i].address)
    {
      if marked[i].live { LedIsReached(h, nodes, index, edges, counted, i); }
      if Reached(h, HeldOf(h, found), nodes[i].address) { ReachedIsLive(h, nodes, index, edges, counted, marked, i); }
    }
  }

  lemma HeldExactly(h: Heap, nodes: seq<Node>, index: map<nat, nat>, edges: seq<nat>, counted: seq<Node>)
    requires Closed(h) && Visited(h, nodes, index, edges, |nodes|) && |nodes| == |counted|
    requires forall i :: 0 <= i < |nodes| ==> counted[i] == nodes[i].(internal := Occurs(edges, i))
    ensures Addresses(nodes) <= h.Keys
    ensures forall i :: 0 <= i < |nodes| ==> (HeldNode(counted[i]) <==> nodes[i].address in HeldOf(h, Addresses(nodes)))
  {
    hide RefsFrom, Occurs, Follows, Partitioned;
    forall i | 0 <= i < |nodes|
      ensures HeldNode(counted[i]) <==> nodes[i].address in HeldOf(h, Addresses(nodes))
    {
      CountedExactly(h, nodes, index, edges, |nodes|, i);
      assert nodes[..|nodes|] == nodes;
      EdgesCovered(nodes, edges);
      assert edges[..|edges|] == edges;
      assert Flagged(h, nodes[i]);
    }
  }

  lemma EdgesCovered(nodes: seq<Node>, edges: seq<nat>)
    requires Partitioned(nodes, edges, |nodes|)
    ensures |edges| == (if |nodes| == 0 then 0 else nodes[|nodes| - 1].hi)
  {
  }

  /** A walk along the edges is a path of references. */
  lemma LedIsReached(h: Heap, nodes: seq<Node>, index: map<nat, nat>, edges: seq<nat>, counted: seq<Node>, i: nat)
    requires Closed(h) && Visited(h, nodes, index, edges, |nodes|) && |nodes| == |counted| && Addresses(nodes) <= h.Keys
    requires forall k :: 0 <= k < |nodes| ==> counted[k] == nodes[k].(internal := Occurs(edges, k))
    requires forall k :: 0 <= k < |nodes| ==>
             (HeldNode(counted[k]) <==> nodes[k].address in HeldOf(h, Addresses(nodes)))
    requires Led(counted, edges, i)
    ensures i < |nodes| && Reached(h, HeldOf(h, Addresses(nodes)), nodes[i].address)
  {
    hide Reached, HeldOf;
    var w :| Walk(counted, edges, w) && w[|w| - 1] == i;
    WalkReaches(h, nodes, index, edges, counted, w, |w| - 1);
  }

  lemma {:induction false} WalkReaches(h: Heap, nodes: seq<Node>, index: map<nat, nat>, edges: seq<nat>,
                                       counted: seq<Node>, w: seq<nat>, n: nat)
    requires Closed(h) && Visited(h, nodes, index, edges, |nodes|) && |nodes| == |counted| && Addresses(nodes) <= h.Keys
    requires forall k :: 0 <= k < |nodes| ==> counted[k] == nodes[k].(internal := Occurs(edges, k))
    requires forall k :: 0 <= k < |nodes| ==>
             (HeldNode(counted[k]) <==> nodes[k].address in HeldOf(h, Addresses(nodes)))
    requires Walk(counted, edges, w) && n < |w|
    ensures Reached(h, HeldOf(h, Addresses(nodes)), nodes[w[n]].address)
  {
    hide Reached, HeldOf, HeldNode, References;
    var held := HeldOf(h, Addresses(nodes));
    if n == 0 {
      ReachedFirst(h, held, nodes[w[0]].address);
    } else {
      WalkReaches(h, nodes, index, edges, counted, w, n - 1);
      var i, j := w[n - 1], w[n];
      assert j in edges[nodes[i].lo..nodes[i].hi];
      TargetReferred(h, nodes, index, edges, i, j);
      ReachedNext(h, held, nodes[i].address, nodes[j].address);
    }
  }

  lemma TargetReferred(h: Heap, nodes: seq<Node>, index: map<nat, nat>, edges: seq<nat>, i: nat, j: nat)
    requires Closed(h) && Visited(h, nodes, index, edges, |nodes|) && i < |nodes| && j < |nodes|
    requires nodes[i].lo <= nodes[i].hi <= |edges| && j in edges[nodes[i].lo..nodes[i].hi]
    ensures nodes[j].address in References(h, nodes[i].address)
  {
    hide References;
    assert Follows(h, nodes, edges, i);
    var s := edges[nodes[i].lo..nodes[i].hi];
    var k :| 0 <= k < |s| && s[k] == j;
    assert Targets(nodes, s)[k] == nodes[j].address;
  }

  /** The live nodes hold the held ones and what they refer to. */
  lemma ReachedIsLive(h: Heap, nodes: seq<Node>, index: map<nat, nat>, edges: seq<nat>, counted: seq<Node>,
                      marked: seq<Node>, i: nat)
    requires Closed(h) && Visited(h, nodes, index, edges, |nodes|) && |nodes| == |counted| == |marked|
             && Addresses(nodes) <= h.Keys
    requires forall k :: 0 <= k < |nodes| ==> counted[k] == nodes[k].(internal := Occurs(edges, k))
    requires forall k :: 0 <= k < |nodes| ==> marked[k] == counted[k].(live := marked[k].live)
    requires forall k :: 0 <= k < |nodes| ==>
             (HeldNode(counted[k]) <==> nodes[k].address in HeldOf(h, Addresses(nodes)))
    requires forall k :: 0 <= k < |nodes| && HeldNode(marked[k]) ==> marked[k].live
    requires forall k, e :: 0 <= k < |nodes| && marked[k].live && marked[k].lo <= e < marked[k].hi ==>
             marked[edges[e]].live
    requires i < |nodes| && Reached(h, HeldOf(h, Addresses(nodes)), nodes[i].address)
    ensures marked[i].live
  {
    hide Reached, References, HeldNode, HeldOf, Occurs;
    var inside := LiveAddresses(nodes, marked);
    var held := HeldOf(h, Addresses(nodes));
    forall x | x in held && x in h
      ensures x in inside
    {
      HeldInside(h, nodes, x);
      var k :| 0 <= k < |nodes| && nodes[k].address == x;
      SameHeldMarked(counted[k], marked[k]);
    }
    LiveClosed(h, nodes, index, edges, marked);
    ReachedInside(h, held, inside, nodes[i].address);
    var k :| 0 <= k < |nodes| && marked[k].live && nodes[k].address == nodes[i].address;
    assert index[nodes[k].address] == k && index[nodes[i].address] == i;
  }

  lemma HeldInside(h: Heap, nodes: seq<Node>, x: nat)
    requires Closed(h) && Addresses(nodes) <= h.Keys && x in HeldOf(h, Addresses(nodes))
    ensures exists k :: 0 <= k < |nodes| && nodes[k].address == x
  {
  }

  lemma SameHeldMarked(counted: Node, marked: Node)
    requires marked == counted.(live := marked.live)
    ensures HeldNode(counted) == HeldNode(marked)
  {
  }

  ghost function LiveAddresses(nodes: seq<Node>, marked: seq<Node>): set<nat>
    requires |nodes| == |marked|
  {
    set k | 0 <= k < |nodes| && marked[k].live :: nodes[k].address
  }

  lemma LiveClosed(h: Heap, nodes: seq<Node>, index: map<nat, nat>, edges: seq<nat>, marked: seq<Node>)
    requires Closed(h) && Visited(h, nodes, index, edges, |nodes|) && |nodes| == |marked|
    requires forall k :: 0 <= k < |nodes| ==> marked[k].lo == nodes[k].lo && marked[k].hi == nodes[k].hi
    requires forall k, e :: 0 <= k < |nodes| && marked[k].live && marked[k].lo <= e < marked[k].hi ==>
             marked[edges[e]].live
    ensures forall x, y :: x in LiveAddresses(nodes, marked) && x in h && y in References(h, x) ==>
            y in LiveAddresses(nodes, marked)
  {
    hide References;
    forall x, y | x in LiveAddresses(nodes, marked) && x in h && y in References(h, x)
      ensures y in LiveAddresses(nodes, marked)
    {
      var k :| 0 <= k < |nodes| && marked[k].live && nodes[k].address == x;
      LiveTarget(h, nodes, index, edges, marked, k, y);
    }
  }

  lemma LiveTarget(h: Heap, nodes: seq<Node>, index: map<nat, nat>, edges: seq<nat>, marked: seq<Node>, k: nat, y: nat)
    requires Closed(h) && Visited(h, nodes, index, edges, |nodes|) && |nodes| == |marked| && k < |nodes|
    requires marked[k].lo == nodes[k].lo && marked[k].hi == nodes[k].hi
    requires forall e :: marked[k].lo <= e < marked[k].hi ==> marked[edges[e]].live
    requires y in References(h, nodes[k].address)
    ensures y in LiveAddresses(nodes, marked)
  {
    hide References;
    assert Follows(h, nodes, edges, k);
    var s := edges[nodes[k].lo..nodes[k].hi];
    var e :| 0 <= e < |s| && Targets(nodes, s)[e] == y;
    assert edges[nodes[k].lo + e] == s[e];
    assert marked[edges[nodes[k].lo + e]].live;
  }

  lemma DeadIsGarbage(h: Heap, nodes: seq<Node>, marked: seq<Node>, a: nat)
    requires Closed(h) && |nodes| == |marked| && Addresses(nodes) <= h.Keys
    requires forall i :: 0 <= i < |nodes| ==> marked[i].address == nodes[i].address
    requires forall i :: 0 <= i < |nodes| ==>
             (marked[i].live <==> Reached(h, HeldOf(h, Addresses(nodes)), nodes[i].address))
    ensures a in Dead(marked) <==> Garbage(h, Addresses(nodes), a)
  {
    hide Reached, HeldOf;
    if Garbage(h, Addresses(nodes), a) {
      var i :| 0 <= i < |nodes| && nodes[i].address == a;
      assert !marked[i].live;
    }
  }
}
