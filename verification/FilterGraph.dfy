/**
 The filter graph of the engine pipeline: filters joined by in and out ports,
 the topological reordering that `Prepare` relies on, and the removal of a
 filter chain that `Stop` relies on.
 */
module FilterGraph {
  import opened Reachability
  import opened Sequences
  import opened TopologicalSort

  // ------------------------------------------------------------------
  // Ports and filters
  // ------------------------------------------------------------------

  class InPort {
    const filter: Filter
    var prevPort: OutPort?

    constructor (owner: Filter)
      ensures filter == owner && prevPort == null
    {
      filter, prevPort := owner, null;
    }

    method Connect(port: OutPort)
      modifies this
      ensures prevPort == port
    {
      prevPort := port;
    }

    method Disconnect()
      modifies this
      ensures prevPort == null
    {
      prevPort := null;
    }
  }

  class OutPort {
    const filter: Filter
    var nextPort: InPort?

    constructor (owner: Filter)
      ensures filter == owner && nextPort == null
    {
      filter, nextPort := owner, null;
    }

    /** Both owners are in a pipeline, and it is the same one. */
    predicate InSamePipeline(port: InPort)
      reads filter, port.filter
    {
      filter.pipeline != null && filter.pipeline == port.filter.pipeline
    }

    method Connect(port: InPort) returns (ok: bool)
      modifies this
      ensures ok == old(filter.pipeline != null && filter.pipeline == port.filter.pipeline)
      ensures nextPort == if ok then port else old(nextPort)
    {
      ok := InSamePipeline(port);
      if ok {
        nextPort := port;
      }
    }

    method Disconnect()
      modifies this
      ensures nextPort == null
    {
      nextPort := null;
    }
  }

  class Filter {
    var inPorts: seq<InPort>
    var outPorts: seq<OutPort>
    var pipeline: PipelineCore?

    /** One filter per connected out port, in port order. */
    method GetNextFilters() returns (next: seq<Filter>)
      ensures OwnersOf(next, Peers(outPorts))
    {
      next := [];
      for i := 0 to |outPorts|
        invariant OwnersOf(next, Peers(outPorts[..i]))
      {
        assert outPorts[..i + 1][..i] == outPorts[..i];
        var peer := outPorts[i].nextPort;
        if peer != null {
          next := next + [peer.filter];
        }
      }
      assert outPorts[..|outPorts|] == outPorts;
    }

    /** One filter per connected in port, in port order. */
    method GetPreFilters() returns (pre: seq<Filter>)
      ensures |pre| == |Sources(inPorts)|
      ensures forall k :: 0 <= k < |pre| ==> pre[k] == Sources(inPorts)[k].filter
    {
      pre := [];
      for i := 0 to |inPorts|
        invariant |pre| == |Sources(inPorts[..i])|
        invariant forall k :: 0 <= k < |pre| ==> pre[k] == Sources(inPorts[..i])[k].filter
      {
        assert inPorts[..i + 1][..i] == inPorts[..i];
        var peer := inPorts[i].prevPort;
        if peer != null {
          pre := pre + [peer.filter];
        }
      }
      assert inPorts[..|inPorts|] == inPorts;
    }

    /**
     Cuts every link into this filter, on both sides, and no other link; `ins`
     and `outs` are the ports of the pipeline the filter is in.
     */
    method UnlinkPrevFilters(ghost ins: set<InPort>, ghost outs: set<OutPort>)
      requires Symmetric(ins, outs)
      requires Elems(inPorts) == set p | p in ins && p.filter == this
      modifies ins, outs
      ensures Symmetric(ins, outs)
      ensures Wiring(outs) == CutWires(old(Wiring(outs)), {this})
    {
      ghost var cut: set<InPort> := {};
      for i := 0 to |inPorts|
        invariant cut == Elems(inPorts[..i])
        invariant Symmetric(ins, outs)
        invariant forall o :: o in outs ==>
          o.nextPort == if old(o.nextPort) in cut then null else old(o.nextPort)
      {
        var port := inPorts[i];
        assert port in Elems(inPorts);
        assert inPorts[..i + 1] == inPorts[..i] + [port];
        var peer := port.prevPort;
        port.Disconnect();
        if peer != null {
          peer.Disconnect();
        }
        cut := cut + {port};
      }
      assert inPorts[..|inPorts|] == inPorts;
    }
  }

  /** The in ports that the connected ports among `outs` lead to. */
  ghost function Peers(outs: seq<OutPort>): seq<InPort>
    reads outs
  {
    if outs == [] then []
    else
      var last := outs[|outs| - 1].nextPort;
      Peers(outs[..|outs| - 1]) + if last == null then [] else [last]
  }

  /** The out ports that feed the connected ports among `ins`. */
  ghost function Sources(ins: seq<InPort>): seq<OutPort>
    reads ins
  {
    if ins == [] then []
    else
      var last := ins[|ins| - 1].prevPort;
      Sources(ins[..|ins| - 1]) + if last == null then [] else [last]
  }

  /** Links are symmetric and stay among the given ports. */
  ghost predicate Symmetric(ins: set<InPort>, outs: set<OutPort>)
    reads ins, outs
  {
    && (forall p :: p in ins && p.prevPort != null ==> p.prevPort in outs && p.prevPort.nextPort == p)
    && (forall o :: o in outs && o.nextPort != null ==> o.nextPort in ins && o.nextPort.prevPort == o)
  }

  /** The ports of `f` are those among `ins` and `outs` that it owns, each listed once. */
  ghost predicate PortsSplit(f: Filter, ins: set<InPort>, outs: set<OutPort>)
    reads f
  {
    && Elems(f.inPorts) == (set p | p in ins && p.filter == f)
    && Elems(f.outPorts) == (set o | o in outs && o.filter == f)
    && Distinct(f.inPorts) && Distinct(f.outPorts)
  }

  /** `ins` and `outs` are the ports of `filters`. */
  ghost predicate Owned(filters: seq<Filter>, ins: set<InPort>, outs: set<OutPort>)
    reads filters
  {
    && Distinct(filters)
    && (forall f :: f in filters ==> PortsSplit(f, ins, outs))
    && (forall p :: p in ins ==> p.filter in filters)
    && (forall o :: o in outs ==> o.filter in filters)
  }

  /** Where every out port leads; by symmetry this fixes the in ports too. */
  ghost function Wiring(outs: set<OutPort>): map<OutPort, InPort?>
    reads outs
  {
    map o | o in outs :: o.nextPort
  }

  /** The wiring with every link into a filter of `gone` cut. */
  ghost function CutWires(wires: map<OutPort, InPort?>, gone: set<Filter>): map<OutPort, InPort?> {
    map o | o in wires :: if wires[o] != null && wires[o].filter in gone then null else wires[o]
  }

  /** The links between filters that a wiring makes. */
  ghost function LinksOf(wires: map<OutPort, InPort?>): set<(Filter, Filter)> {
    set o | o in wires && wires[o] != null :: (o.filter, wires[o].filter)
  }

  lemma CutWiresCutsLinks(wires: map<OutPort, InPort?>, gone: set<Filter>)
    ensures LinksOf(CutWires(wires, gone)) == CutInto(LinksOf(wires), gone)
  {
  }

  // ------------------------------------------------------------------
  // Facts about ports
  // ------------------------------------------------------------------

  lemma {:induction false} PeersElems(outs: seq<OutPort>, p: InPort)
    ensures p in Peers(outs) <==> exists o :: o in outs && o.nextPort == p
  {
    if outs != [] {
      var init, last := outs[..|outs| - 1], outs[|outs| - 1];
      assert outs == init + [last];
      PeersElems(init, p);
    }
  }

  /** The next filters of `f` are the targets of its links. */
  lemma NextAreTargets(outs: set<OutPort>, f: Filter, next: seq<Filter>)
    requires Elems(f.outPorts) == (set o | o in outs && o.filter == f)
    requires OwnersOf(next, Peers(f.outPorts))
    ensures Elems(next) == Targets(LinksOf(Wiring(outs)), {f})
  {
    var links := LinksOf(Wiring(outs));
    forall g | g in Elems(next)
      ensures g in Targets(links, {f})
    {
      var k :| 0 <= k < |next| && next[k] == g;
      PeersElems(f.outPorts, Peers(f.outPorts)[k]);
      var o :| o in f.outPorts && o.nextPort == Peers(f.outPorts)[k];
      assert o in Elems(f.outPorts);
      assert o in Wiring(outs) && (o.filter, o.nextPort.filter) in links;
      assert (f, g) in links;
    }
    forall g | g in Targets(links, {f})
      ensures g in Elems(next)
    {
      var o :| o in outs && o.nextPort != null && o.filter == f && o.nextPort.filter == g;
      assert o in Elems(f.outPorts);
      PeersElems(f.outPorts, o.nextPort);
      var k :| 0 <= k < |next| && Peers(f.outPorts)[k] == o.nextPort;
      assert next[k] == g;
    }
  }

  lemma CutStep(wires: map<OutPort, InPort?>, gone: set<Filter>, f: Filter)
    ensures CutWires(CutWires(wires, gone), {f}) == CutWires(wires, gone + {f})
    ensures CutInto(CutInto(LinksOf(wires), gone), {f}) == CutInto(LinksOf(wires), gone + {f})
    ensures LinksOf(CutWires(wires, gone + {f})) == CutInto(LinksOf(wires), gone + {f})
  {
  }

  /** Links never leave the pipeline. */
  lemma ReachStays(filters: seq<Filter>, ins: set<InPort>, outs: set<OutPort>, first: Filter)
    requires Owned(filters, ins, outs) && Symmetric(ins, outs) && first in filters
    ensures Reach(LinksOf(Wiring(outs)), {first}) <= Elems(filters)
  {
    ReachIsLeast(LinksOf(Wiring(outs)), {first}, Elems(filters));
  }

  lemma CutTwice(wires: map<OutPort, InPort?>, a: set<Filter>, b: set<Filter>)
    ensures CutWires(CutWires(wires, a), b) == CutWires(wires, a + b)
  {
  }

  // ------------------------------------------------------------------
  // Reordering
  // ------------------------------------------------------------------

  /** The connected in ports among `ins`. */
  ghost function Connected(ins: seq<InPort>): set<InPort>
    reads ins
  {
    set p | p in ins && p.prevPort != null
  }

  lemma {:induction false} SourcesCount(ins: seq<InPort>)
    requires Distinct(ins)
    ensures |Sources(ins)| == |Connected(ins)|
  {
    if ins != [] {
      var init, last := ins[..|ins| - 1], ins[|ins| - 1];
      assert ins == init + [last];
      SourcesCount(init);
      if last.prevPort == null {
        assert Connected(ins) == Connected(init);
      } else {
        assert last !in init;
        assert Connected(ins) == Connected(init) + {last};
      }
    }
  }

  lemma {:induction false} PeersDistinct(outs: seq<OutPort>)
    requires Distinct(outs)
    requires forall o :: o in outs && o.nextPort != null ==> o.nextPort.prevPort == o
    ensures Distinct(Peers(outs))
  {
    if outs != [] {
      var init, last := outs[..|outs| - 1], outs[|outs| - 1];
      assert outs == init + [last];
      PeersDistinct(init);
      if last.nextPort != null {
        PeersElems(init, last.nextPort);
      }
    }
  }

  /** `next` are the owners of the in ports `peers`. */
  ghost predicate OwnersOf(next: seq<Filter>, peers: seq<InPort>) {
    |next| == |peers| && forall k :: 0 <= k < |next| ==> next[k] == peers[k].filter
  }

  /** The links into `f`, named by the in ports they enter. */
  ghost function Entering(ins: set<InPort>, f: Filter): set<InPort>
    reads ins
  {
    set p | p in ins && p.filter == f && p.prevPort != null
  }

  /** The links out of `f`, named by the in ports they enter. */
  ghost function Leaving(ins: set<InPort>, f: Filter): set<InPort>
    reads ins
  {
    set p | p in ins && p.prevPort != null && p.prevPort.filter == f
  }

  lemma FilterLinks(f: Filter, ins: set<InPort>, outs: set<OutPort>)
    requires PortsSplit(f, ins, outs) && Symmetric(ins, outs)
    ensures |Sources(f.inPorts)| == |Entering(ins, f)|
    ensures Distinct(Peers(f.outPorts)) && Elems(Peers(f.outPorts)) == Leaving(ins, f)
  {
    assert forall p :: p in f.inPorts <==> p in Elems(f.inPorts);
    assert forall o :: o in f.outPorts <==> o in Elems(f.outPorts);
    SourcesCount(f.inPorts);
    assert Connected(f.inPorts) == Entering(ins, f);
    PeersDistinct(f.outPorts);
    forall p | p in Peers(f.outPorts)
      ensures p in Leaving(ins, f)
    {
      PeersElems(f.outPorts, p);
    }
    forall p | p in Leaving(ins, f)
      ensures p in Peers(f.outPorts)
    {
      PeersElems(f.outPorts, p);
      assert p.prevPort in f.outPorts && p.prevPort.nextPort == p;
    }
  }

  /** `feeds[i]` are the links into `filters[i]`, `sends[i]` the links out of it, listed once. */
  ghost predicate PortLinks(filters: seq<Filter>, ins: set<InPort>, feeds: seq<set<InPort>>, sends: seq<seq<InPort>>)
    requires |feeds| == |filters| && |sends| <= |filters|
    reads ins
  {
    && (forall i :: 0 <= i < |filters| ==> feeds[i] == Entering(ins, filters[i]))
    && (forall i :: 0 <= i < |sends| ==> Distinct(sends[i]) && Elems(sends[i]) == Leaving(ins, filters[i]))
  }

  /** Node `i` of the graph stands for `filters[i]` and names, link by link, the filters it leads to. */
  ghost predicate Names(filters: seq<Filter>, graph: seq<FilterNode<Filter>>, sends: seq<seq<InPort>>)
    requires |graph| == |filters| && |sends| <= |filters|
  {
    && (forall i :: 0 <= i < |graph| ==> graph[i].filter == filters[i])
    && (forall i :: 0 <= i < |sends| ==> |graph[i].nexts| == |sends[i]|)
    && (forall i, k :: 0 <= i < |sends| && 0 <= k < |sends[i]| ==>
          graph[i].nexts[k] < |graph| && filters[graph[i].nexts[k]] == sends[i][k].filter)
  }

  lemma PortsMatch(filters: seq<Filter>, ins: set<InPort>, graph: seq<FilterNode<Filter>>,
                   feeds: seq<set<InPort>>, sends: seq<seq<InPort>>)
    requires Distinct(filters)
    requires |graph| == |feeds| == |sends| == |filters|
    requires PortLinks(filters, ins, feeds, sends) && Names(filters, graph, sends)
    ensures Matched(graph, feeds, sends)
  {
    forall i, p | 0 <= i < |graph| && p in sends[i]
      ensures p in ins && p.prevPort != null && p.prevPort.filter == filters[i]
    {
      assert p in Elems(sends[i]);
    }
    forall i, k | 0 <= i < |graph| && 0 <= k < |sends[i]|
      ensures sends[i][k] in feeds[graph[i].nexts[k]]
    {
      assert sends[i][k] in sends[i];
    }
  }

  lemma AddNode(filters: seq<Filter>, ins: set<InPort>, graph: seq<FilterNode<Filter>>, feeds: seq<set<InPort>>,
                node: FilterNode<Filter>)
    requires |feeds| == |graph| < |filters|
    requires Counts(graph, feeds, {}) && Begun(filters, ins, graph, feeds)
    requires node.filter == filters[|graph|] && node.inDegree == |Entering(ins, node.filter)|
    ensures Counts(graph + [node], feeds + [Entering(ins, node.filter)], {})
    ensures Begun(filters, ins, graph + [node], feeds + [Entering(ins, node.filter)])
  {
    hide Entering;
    var feed := Entering(ins, node.filter);
    assert feed - {} == feed;
    forall j | 0 <= j <= |graph|
      ensures (graph + [node])[j].inDegree == |(feeds + [feed])[j] - {}|
    {
      if j < |graph| {
        assert graph[j].inDegree == |feeds[j] - {}|;
      }
    }
  }

  lemma AddToStack(graph: seq<FilterNode<Filter>>, stack: seq<nat>, node: FilterNode<Filter>)
    requires StackOf(graph, stack, {})
    ensures StackOf(graph + [node], if node.inDegree == 0 then stack + [|graph|] else stack, {})
  {
  }

  lemma SetNexts(filters: seq<Filter>, graph: seq<FilterNode<Filter>>, feeds: seq<set<InPort>>, sends: seq<seq<InPort>>,
                 stack: seq<nat>, next: seq<nat>, peers: seq<InPort>)
    requires |graph| == |feeds| == |filters| && |sends| < |filters|
    requires Counts(graph, feeds, {}) && StackOf(graph, stack, {}) && Names(filters, graph, sends)
    requires |next| == |peers|
    requires forall k :: 0 <= k < |next| ==> next[k] < |filters| && filters[next[k]] == peers[k].filter
    ensures
      var graph' := graph[|sends| := graph[|sends|].(nexts := next)];
      Counts(graph', feeds, {}) && StackOf(graph', stack, {}) && Names(filters, graph', sends + [peers])
  {
  }

  /** First pass of `ConstructGraph`: in-degrees, the initial stack and the index of every filter. */
  method NodesOf(filters: seq<Filter>, ghost ins: set<InPort>, ghost outs: set<OutPort>)
    returns (graph: seq<FilterNode<Filter>>, stack: seq<nat>, mapInfo: map<Filter, nat>, ghost feeds: seq<set<InPort>>)
    requires Owned(filters, ins, outs) && Symmetric(ins, outs)
    ensures |graph| == |feeds| == |filters|
    ensures PortLinks(filters, ins, feeds, []) && Names(filters, graph, [])
    ensures Counts(graph, feeds, {}) && StackOf(graph, stack, {})
    ensures Indexed(filters, |filters|, mapInfo)
  {
    hide Counts, StackOf, PortsSplit, Symmetric, Entering, Distinct, Indexed, Begun, Sources, Peers;
    graph, stack, mapInfo, feeds := [], [], map[], [];
    NoNodes(filters, ins);
    for index := 0 to |filters|
      invariant |graph| == |feeds| == index
      invariant Begun(filters, ins, graph, feeds)
      invariant Counts(graph, feeds, {}) && StackOf(graph, stack, {})
      invariant Indexed(filters, index, mapInfo)
    {
      var f := filters[index];
      var pre := f.GetPreFilters();
      FilterLinks(f, ins, outs);
      var node := FilterNode(|pre|, f, []);
      AddNode(filters, ins, graph, feeds, node);
      AddToStack(graph, stack, node);
      AddIndex(filters, index, mapInfo);
      graph := graph + [node];
      if pre == [] {
        stack := stack + [index];
      }
      mapInfo := mapInfo[f := index];
      feeds := feeds + [Entering(ins, f)];
    }
    AllBegun(filters, ins, graph, feeds);
  }

  /** The nodes made so far stand for the first filters and know the links into them. */
  ghost predicate Begun(filters: seq<Filter>, ins: set<InPort>, graph: seq<FilterNode<Filter>>, feeds: seq<set<InPort>>)
    requires |graph| == |feeds| <= |filters|
    reads ins
  {
    forall i :: 0 <= i < |graph| ==> graph[i].filter == filters[i] && feeds[i] == Entering(ins, filters[i])
  }

  lemma AllBegun(filters: seq<Filter>, ins: set<InPort>, graph: seq<FilterNode<Filter>>, feeds: seq<set<InPort>>)
    requires |graph| == |feeds| == |filters| && Begun(filters, ins, graph, feeds)
    ensures PortLinks(filters, ins, feeds, []) && Names(filters, graph, [])
  {
  }

  ghost predicate Indexed(filters: seq<Filter>, n: nat, mapInfo: map<Filter, nat>)
    requires n <= |filters|
  {
    forall i :: 0 <= i < n ==> filters[i] in mapInfo && mapInfo[filters[i]] == i
  }

  lemma AddIndex(filters: seq<Filter>, n: nat, mapInfo: map<Filter, nat>)
    requires Distinct(filters) && n < |filters| && Indexed(filters, n, mapInfo)
    ensures Indexed(filters, n + 1, mapInfo[filters[n] := n])
  {
  }

  lemma NoNodes(filters: seq<Filter>, ins: set<InPort>)
    ensures Counts<Filter, InPort>([], [], {}) && StackOf<Filter>([], [], {})
    ensures Indexed(filters, 0, map[]) && Begun(filters, ins, [], [])
  {
  }

  /** Looks an index up as `std::map::operator[]` does: an absent filter yields index 0. */
  function IndexOf(mapInfo: map<Filter, nat>, f: Filter): nat {
    if f in mapInfo then mapInfo[f] else 0
  }

  method ConstructGraph(filters: seq<Filter>, ghost ins: set<InPort>, ghost outs: set<OutPort>)
    returns (graph: seq<FilterNode<Filter>>, stack: seq<nat>, ghost feeds: seq<set<InPort>>, ghost sends: seq<seq<InPort>>)
    requires Owned(filters, ins, outs) && Symmetric(ins, outs)
    ensures |graph| == |feeds| == |sends| == |filters|
    ensures PortLinks(filters, ins, feeds, sends) && Names(filters, graph, sends)
    ensures Matched(graph, feeds, sends)
    ensures Counts(graph, feeds, {}) && StackOf(graph, stack, {})
  {
    hide Counts, StackOf, PortsSplit, Symmetric, Names, Matched;
    var mapInfo;
    graph, stack, mapInfo, feeds := NodesOf(filters, ins, outs);
    sends := [];
    for i := 0 to |filters|
      invariant |graph| == |filters| && |sends| == i
      invariant PortLinks(filters, ins, feeds, sends) && Names(filters, graph, sends)
      invariant Counts(graph, feeds, {}) && StackOf(graph, stack, {})
    {
      var f := filters[i];
      var next := f.GetNextFilters();
      FilterLinks(f, ins, outs);
      NextInside(filters, ins, outs, f, next);
      var nexts := seq(|next|, k requires 0 <= k < |next| => IndexOf(mapInfo, next[k]));
      SetNexts(filters, graph, feeds, sends, stack, nexts, Peers(f.outPorts));
      graph := graph[i := graph[i].(nexts := nexts)];
      sends := sends + [Peers(f.outPorts)];
    }
    PortsMatch(filters, ins, graph, feeds, sends);
  }

  lemma NextInside(filters: seq<Filter>, ins: set<InPort>, outs: set<OutPort>, f: Filter, next: seq<Filter>)
    requires Owned(filters, ins, outs) && Symmetric(ins, outs) && f in filters
    requires OwnersOf(next, Peers(f.outPorts))
    ensures forall k :: 0 <= k < |next| ==> next[k] in filters
  {
    FilterLinks(f, ins, outs);
    forall k | 0 <= k < |next|
      ensures next[k] in filters
    {
      assert Peers(f.outPorts)[k] in Elems(Peers(f.outPorts));
    }
  }

  /** The links, seen from the in ports. */
  lemma LinkPort(ins: set<InPort>, outs: set<OutPort>, e: (Filter, Filter)) returns (p: InPort)
    requires Symmetric(ins, outs) && e in LinksOf(Wiring(outs))
    ensures p in ins && p.prevPort != null && e == (p.prevPort.filter, p.filter)
  {
    var o :| o in outs && o.nextPort != null && e == (o.filter, o.nextPort.filter);
    p := o.nextPort;
  }

  lemma PortLink(ins: set<InPort>, outs: set<OutPort>, p: InPort)
    requires Symmetric(ins, outs) && p in ins && p.prevPort != null
    ensures (p.prevPort.filter, p.filter) in LinksOf(Wiring(outs))
  {
  }

  /** A complete order puts every filter before the filters it feeds. */
  lemma CompleteOrder(filters: seq<Filter>, ins: set<InPort>, outs: set<OutPort>,
                      feeds: seq<set<InPort>>, sends: seq<seq<InPort>>, order: seq<nat>, result: seq<Filter>)
    requires Owned(filters, ins, outs) && Symmetric(ins, outs)
    requires |feeds| == |sends| == |filters| && PortLinks(filters, ins, feeds, sends)
    requires Distinct(order) && Below(order, |filters|) && FedEarlier(feeds, sends, order)
    requires |result| == |order| && forall x :: 0 <= x < |order| ==> result[x] == filters[order[x]]
    requires |order| == |filters|
    ensures Forward(result, LinksOf(Wiring(outs)))
    ensures Distinct(result) && Elems(result) == Elems(filters)
  {
    Pigeonhole(order, |filters|);
    forall e | e in LinksOf(Wiring(outs))
      ensures exists i, j :: 0 <= i < j < |result| && result[i] == e.0 && result[j] == e.1
    {
      var p := LinkPort(ins, outs, e);
      var j :| 0 <= j < |filters| && filters[j] == p.filter;
      assert j in order;
      var x :| 0 <= x < |order| && order[x] == j;
      assert p in feeds[j];
      var y :| 0 <= y < x && p in sends[order[..x][y]];
      assert p in Elems(sends[order[y]]);
      assert result[y] == e.0 && result[x] == e.1;
    }
    forall f | f in filters
      ensures f in result
    {
      var j :| 0 <= j < |filters| && filters[j] == f;
      assert j in order;
      var x :| 0 <= x < |order| && order[x] == j;
      assert result[x] == f;
    }
  }

  /** An incomplete order leaves filters that only wait for each other. */
  lemma IncompleteOrder(filters: seq<Filter>, ins: set<InPort>, outs: set<OutPort>,
                        feeds: seq<set<InPort>>, sends: seq<seq<InPort>>, order: seq<nat>)
    requires Owned(filters, ins, outs) && Symmetric(ins, outs)
    requires |feeds| == |sends| == |filters| && PortLinks(filters, ins, feeds, sends)
    requires Below(order, |filters|) && |order| < |filters|
    requires forall j :: 0 <= j < |filters| && j !in order ==> !(feeds[j] <= Sent(sends, order))
    ensures !Acyclic(LinksOf(Wiring(outs)))
  {
    var links := LinksOf(Wiring(outs));
    var stuck := set j | 0 <= j < |filters| && j !in order :: filters[j];
    if forall j: nat :: j < |filters| ==> j in order {
      CoverNeeds(order, |filters|);
    }
    var j0: nat :| j0 < |filters| && j0 !in order;
    assert filters[j0] in stuck;
    forall u | u in stuck
      ensures EnteredFrom(links, stuck, u)
    {
      var j :| 0 <= j < |filters| && j !in order && filters[j] == u;
      var p :| p in feeds[j] && p !in Sent(sends, order);
      PortLink(ins, outs, p);
      assert p.prevPort in outs;
      var i :| 0 <= i < |filters| && filters[i] == p.prevPort.filter;
      assert p in Elems(sends[i]);
      assert filters[i] in stuck && (filters[i], u) in links;
    }
    StuckHasCycle(links, stuck);
  }

  /** `prepared` holds, with every filter, the filters it feeds, and holds them earlier. */
  ghost predicate DownstreamFirst(prepared: seq<Filter>, links: set<(Filter, Filter)>) {
    forall e, i :: e in links && 0 <= i < |prepared| && prepared[i] == e.0 ==> e.1 in prepared[..i]
  }

  /** The last `n` filters, last first. */
  ghost function LastFirst(filters: seq<Filter>, n: nat): seq<Filter>
    requires n <= |filters|
  {
    seq(n, i requires 0 <= i < n => filters[|filters| - 1 - i])
  }

  lemma BackwardOrder(filters: seq<Filter>, links: set<(Filter, Filter)>, n: nat)
    requires Distinct(filters) && Forward(filters, links) && n <= |filters|
    ensures DownstreamFirst(LastFirst(filters, n), links)
  {
    var s := LastFirst(filters, n);
    forall e, i | e in links && 0 <= i < |s| && s[i] == e.0
      ensures e.1 in s[..i]
    {
      var x, y :| 0 <= x < y < |filters| && filters[x] == e.0 && filters[y] == e.1;
      assert x == |filters| - 1 - i;
      assert s[..i][|filters| - 1 - y] == e.1;
    }
  }

  // ------------------------------------------------------------------
  // Removing a chain
  // ------------------------------------------------------------------

  /** The number of queue entries that no link arrives at. */
  ghost function Loose(queue: seq<Filter>, entered: set<Filter>): nat {
    if queue == [] then 0
    else (if queue[0] in entered then 0 else 1) + Loose(queue[1..], entered)
  }

  lemma {:induction false} LooseConcat(a: seq<Filter>, b: seq<Filter>, entered: set<Filter>)
    requires Elems(b) <= entered
    ensures Loose(a + b, entered) == Loose(a, entered)
  {
    if a == [] {
      assert a + b == b;
      if b != [] {
        assert b[0] in Elems(b) && forall x :: x in b[1..] ==> x in Elems(b);
        LooseConcat([], b[1..], entered);
        assert [] + b[1..] == b[1..];
      }
    } else {
      assert (a + b)[1..] == a[1..] + b;
      LooseConcat(a[1..], b, entered);
    }
  }

  /**
   One round of the walk: the links into `f` are cut and the next filters of `f`
   are queued.  Either a filter loses its last incoming link, or the queue has
   one entry less that no link arrives at.
   */
  lemma WalkShrinks(links: set<(Filter, Filter)>, queue: seq<Filter>, next: seq<Filter>)
    requires queue != [] && Elems(next) == Targets(CutInto(links, {queue[0]}), {queue[0]})
    ensures
      var cut := CutInto(links, {queue[0]});
      || |Entered(cut)| < |Entered(links)|
      || (Entered(cut) == Entered(links)
          && Loose(queue[1..] + next, Entered(cut)) < Loose(queue, Entered(links)))
  {
    var f, rest := queue[0], queue[1..];
    var cut := CutInto(links, {f});
    if f in Entered(links) {
      assert f !in Entered(cut) && Entered(cut) < Entered(links);
      SmallerSet(Entered(cut), Entered(links));
    } else {
      forall e | e in links
        ensures e in cut
      {
        assert e.1 in Entered(links);
      }
      assert cut == links;
      LooseConcat(rest, next, Entered(cut));
    }
  }

  /**
   What the walk knows of the filters `gone` so far and the queue: both are
   reachable from `first`, and what `gone` linked to is gone or queued.
   */
  ghost predicate Walk(links: set<(Filter, Filter)>, first: Filter, gone: set<Filter>, queue: seq<Filter>) {
    && gone + Elems(queue) <= Reach(links, {first})
    && first in gone + Elems(queue)
    && Targets(links, gone) <= gone + Elems(queue)
  }

  lemma WalkStep(links: set<(Filter, Filter)>, first: Filter, gone: set<Filter>, queue: seq<Filter>, next: seq<Filter>)
    requires queue != [] && Walk(links, first, gone, queue)
    requires Elems(next) == Targets(CutInto(links, gone + {queue[0]}), {queue[0]})
    ensures Walk(links, first, gone + {queue[0]}, queue[1..] + next)
  {
    var f, rest := queue[0], queue[1..];
    assert queue == [f] + rest;
    assert Elems(rest + next) == Elems(rest) + Elems(next);
    var all, reach := gone + {f}, Reach(links, {first});
    forall g | g in next
      ensures g in reach
    {
      assert g in Elems(next);
      assert f in reach && (f, g) in links;
      assert g in Targets(links, reach);
    }
    forall e | e in links && e.0 in all
      ensures e.1 in all + Elems(rest + next)
    {
      if e.0 in gone {
        assert e.1 in Targets(links, gone);
      } else if e.1 !in all {
        assert e in CutInto(links, all);
      }
    }
  }

  lemma NoCut(wires: map<OutPort, InPort?>)
    ensures CutWires(wires, {}) == wires
  {
  }

  lemma WalkBegins(wires: map<OutPort, InPort?>, first: Filter)
    ensures Walk(LinksOf(wires), first, {}, [first])
    ensures CutWires(wires, {}) == wires && CutInto(LinksOf(wires), {}) == LinksOf(wires)
  {
  }

  lemma WalkStays(links: set<(Filter, Filter)>, first: Filter, gone: set<Filter>, queue: seq<Filter>, fs: set<Filter>)
    requires queue != [] && Walk(links, first, gone, queue)
    requires Reach(links, {first}) <= fs
    ensures queue[0] in fs
  {
  }

  lemma WalkEnds(links: set<(Filter, Filter)>, first: Filter, gone: set<Filter>)
    requires Walk(links, first, gone, [])
    ensures gone == Reach(links, {first})
  {
    ReachIsLeast(links, {first}, gone);
  }

  /** One visit of the walk: cut the links into `filter` and read its next filters. */
  method Visit(filter: Filter, ghost ins: set<InPort>, ghost outs: set<OutPort>) returns (next: seq<Filter>)
    requires Symmetric(ins, outs) && PortsSplit(filter, ins, outs)
    modifies ins, outs
    ensures Symmetric(ins, outs)
    ensures Wiring(outs) == CutWires(old(Wiring(outs)), {filter})
    ensures Elems(next) == Targets(LinksOf(Wiring(outs)), {filter})
  {
    filter.UnlinkPrevFilters(ins, outs);
    next := filter.GetNextFilters();
    NextAreTargets(outs, filter, next);
  }

  /**
   The breadth-first walk from `first`, which cuts links while it walks and
   keeps no visited set: it ends, and collects what `first` reached.
   */
  method CollectChain(first: Filter, ghost fs: seq<Filter>, ghost ins: set<InPort>, ghost outs: set<OutPort>)
    returns (removed: seq<Filter>)
    requires Symmetric(ins, outs)
    requires forall f :: f in fs ==> PortsSplit(f, ins, outs)
    requires Reach(LinksOf(Wiring(outs)), {first}) <= Elems(fs)
    modifies ins, outs
    ensures Symmetric(ins, outs)
    ensures Elems(removed) == Reach(old(LinksOf(Wiring(outs))), {first})
    ensures Wiring(outs) == CutWires(old(Wiring(outs)), Elems(removed))
  {
    hide Reach, Loose, CutWires, CutInto, LinksOf, Targets, Entered, Walk, PortsSplit;
    ghost var wires := Wiring(outs);
    ghost var links := LinksOf(wires);
    WalkBegins(wires, first);
    removed := [];
    var queue := [first];
    ghost var gone: set<Filter> := {};
    ghost var now, cur := wires, links;
    while queue != []
      invariant Symmetric(ins, outs)
      invariant Wiring(outs) == now
      invariant now == CutWires(wires, gone) && cur == CutInto(links, gone) && cur == LinksOf(now)
      invariant Elems(removed) == gone
      invariant Walk(links, first, gone, queue)
      decreases |Entered(cur)|, Loose(queue, Entered(cur))
    {
      var filter := queue[0];
      WalkStays(links, first, gone, queue, Elems(fs));
      assert old(PortsSplit(filter, ins, outs));
      var next := Visit(filter, ins, outs);
      removed := removed + [filter];
      CutStep(wires, gone, filter);
      WalkStep(links, first, gone, queue, next);
      WalkShrinks(cur, queue, next);
      now := CutWires(now, {filter});
      gone, cur := gone + {filter}, CutInto(cur, {filter});
      queue := queue[1..] + next;
    }
    WalkEnds(links, first, gone);
  }

  datatype StopOutcome = StopOutcome(ok: bool, chains: seq<Filter>)

  /** `s` without the filters of `drop`, in the same order. */
  ghost function Keep(s: seq<Filter>, drop: set<Filter>): seq<Filter> {
    if s == [] then []
    else (if s[0] in drop then [] else [s[0]]) + Keep(s[1..], drop)
  }

  /** The filters whose chains are removed by the stop outcomes from `i` on. */
  ghost function Heads(plan: seq<StopOutcome>, i: nat): set<Filter>
    requires i <= |plan|
    decreases |plan| - i
  {
    if i == |plan| then {} else Elems(plan[i].chains) + Heads(plan, i + 1)
  }

  ghost function Head(first: Filter?): set<Filter> {
    if first == null then {} else var f: Filter := first; {f}
  }

  /** `s` without the first occurrence of `f`. */
  ghost function EraseFirst(s: seq<Filter>, f: Filter): seq<Filter> {
    if s == [] then [] else if s[0] == f then s[1..] else [s[0]] + EraseFirst(s[1..], f)
  }

  lemma {:induction false} EraseAt(s: seq<Filter>, f: Filter, i: nat)
    requires i <= |s| && f !in s[..i]
    requires i < |s| ==> s[i] == f
    ensures EraseFirst(s, f) == if i < |s| then s[..i] + s[i + 1..] else s
  {
    if i > 0 {
      assert s[0] in s[..i] && s[..i][1..] == s[1..][..i - 1];
      EraseAt(s[1..], f, i - 1);
    }
  }

  lemma {:induction false} KeepNone(s: seq<Filter>, drop: set<Filter>)
    requires Elems(s) !! drop
    ensures Keep(s, drop) == s
  {
    if s != [] {
      assert s[0] in Elems(s) && Elems(s[1..]) <= Elems(s);
      KeepNone(s[1..], drop);
    }
  }

  lemma {:induction false} EraseIsKeep(s: seq<Filter>, f: Filter)
    requires Distinct(s)
    ensures EraseFirst(s, f) == Keep(s, {f})
  {
    if s != [] {
      if s[0] == f {
        KeepNone(s[1..], {f});
      } else {
        EraseIsKeep(s[1..], f);
      }
    }
  }

  lemma {:induction false} KeepTwice(s: seq<Filter>, a: set<Filter>, b: set<Filter>)
    ensures Keep(Keep(s, a), b) == Keep(s, a + b)
  {
    if s != [] {
      KeepTwice(s[1..], a, b);
      var rest := Keep(s[1..], a);
      if s[0] in a {
        assert Keep(s, a) == rest;
      } else {
        assert Keep(s, a)[0] == s[0] && Keep(s, a)[1..] == rest;
      }
    }
  }

  lemma {:induction false} KeepElems(s: seq<Filter>, drop: set<Filter>)
    ensures Elems(Keep(s, drop)) == Elems(s) - drop
    ensures Distinct(s) ==> Distinct(Keep(s, drop))
  {
    if s != [] {
      KeepElems(s[1..], drop);
      var rest := Keep(s[1..], drop);
      assert s == [s[0]] + s[1..];
      assert Elems(s) == {s[0]} + Elems(s[1..]);
      if s[0] in drop {
        assert Keep(s, drop) == rest;
      } else {
        assert Keep(s, drop) == [s[0]] + rest;
        assert Elems([s[0]] + rest) == {s[0]} + Elems(rest);
        assert forall x :: x in rest ==> x in Elems(rest);
      }
    }
  }

  class PipelineCore {
    var filters: seq<Filter>
    var filtersToRemove: seq<Filter>
    ghost var ins: set<InPort>
    ghost var outs: set<OutPort>

    /** The ports are those of the filters, and links are symmetric and closed. */
    ghost predicate Valid()
      reads this, filters, ins, outs
    {
      Owned(filters, ins, outs) && Symmetric(ins, outs)
    }

    /**
     Links two ports of the pipeline.  The link invariant survives exactly when
     neither port was linked elsewhere.
     */
    method LinkPorts(port1: OutPort, port2: InPort) returns (ok: bool)
      requires Valid() && port1 in outs && port2 in ins
      modifies port1, port2
      ensures ok == old(port1.filter.pipeline != null && port1.filter.pipeline == port2.filter.pipeline)
      ensures !ok ==> Valid() && Wiring(outs) == old(Wiring(outs))
      ensures ok ==> Wiring(outs) == old(Wiring(outs))[port1 := port2]
      ensures ok ==>
        (Valid() <==> old((port1.nextPort == null || port1.nextPort == port2)
                       && (port2.prevPort == null || port2.prevPort == port1)))
    {
      hide PortsSplit;
      ghost var next, prev := port1.nextPort, port2.prevPort;
      ok := port1.Connect(port2);
      if !ok {
        return;
      }
      port2.Connect(port1);
      if next != null && next != port2 {
        assert next in ins && next.prevPort == port1 && port1.nextPort != next;
      }
      if prev != null && prev != port1 {
        assert prev in outs && prev.nextPort == port2 && port2.prevPort != prev;
      }
    }

    /**
     Reorders the filters so that each comes before all its next filters.  When
     the links have a cycle there is no such order and nothing changes.
     */
    method ReorderFilters()
      requires Valid()
      modifies this`filters
      ensures Valid()
      ensures multiset(filters) == multiset(old(filters))
      ensures Acyclic(LinksOf(Wiring(outs))) ==> Forward(filters, LinksOf(Wiring(outs)))
      ensures !Acyclic(LinksOf(Wiring(outs))) ==> filters == old(filters)
    {
      hide Counts, StackOf, Matched, Sent, FedEarlier, Acyclic, Forward, LinksOf, Symmetric, PortLinks, Reach, PortsSplit;
      var graph, stack, feeds, sends := ConstructGraph(filters, ins, outs);
      var result, order := Order(graph, stack, feeds, sends);
      if |result| == |filters| {
        CompleteOrder(filters, ins, outs, feeds, sends, order, result);
        ForwardIsAcyclic(result, LinksOf(Wiring(outs)));
        SameMultiset(filters, result);
        OwnedAgain(filters, result, ins, outs);
        filters := result;
      } else {
        Pigeonhole(order, |filters|);
        IncompleteOrder(filters, ins, outs, feeds, sends, order);
      }
    }

    /**
     Prepares the filters, last first, up to the first that fails; `plan` is what
     each filter's own preparation comes to.  On acyclic links every filter is
     prepared, or fails, only after all the filters downstream of it.
     */
    method Prepare(plan: map<Filter, bool>) returns (ok: bool, ghost prepared: seq<Filter>)
      requires Valid() && Elems(filters) <= plan.Keys
      modifies this`filters
      ensures Valid()
      ensures multiset(filters) == multiset(old(filters))
      ensures ok <==> forall f :: f in filters ==> f in plan && plan[f]
      ensures ok <==> |prepared| == |filters|
      ensures |prepared| <= |filters| && prepared == LastFirst(filters, |prepared|)
      ensures forall f :: f in prepared ==> f in plan && plan[f]
      ensures !ok ==> var blamed := filters[|filters| - 1 - |prepared|]; blamed in plan && !plan[blamed]
      ensures Acyclic(LinksOf(Wiring(outs))) ==> DownstreamFirst(prepared, LinksOf(Wiring(outs)))
      ensures Acyclic(LinksOf(Wiring(outs))) && !ok ==>
        DownstreamFirst(prepared + [filters[|filters| - 1 - |prepared|]], LinksOf(Wiring(outs)))
    {
      hide Acyclic, Forward, DownstreamFirst, LinksOf, Symmetric, PortsSplit;
      ReorderFilters();
      ghost var links := LinksOf(Wiring(outs));
      SameElems(old(filters), filters);
      assert forall f :: f in filters ==> f in Elems(filters);
      var n := |filters|;
      prepared := [];
      while n > 0
        invariant 0 <= n <= |filters|
        invariant prepared == LastFirst(filters, |filters| - n)
        invariant forall i :: n <= i < |filters| ==> plan[filters[i]]
        invariant forall f :: f in prepared ==> f in plan && plan[f]
        modifies {}
      {
        var filter := filters[n - 1];
        if !plan[filter] {
          break;
        }
        prepared := prepared + [filter];
        n := n - 1;
      }
      if Acyclic(links) {
        BackwardOrder(filters, links, |filters| - n);
        if n > 0 {
          BackwardOrder(filters, links, |filters| - n + 1);
          assert LastFirst(filters, |filters| - n + 1) == prepared + [filters[n - 1]];
        }
      }
      ok := n == 0;
    }

    /**
     Removes the chain that starts at `first`: exactly the filters reachable
     from it are collected, and exactly the links into them are cut.
     */
    method RemoveFilterChain(first: Filter?) returns (ok: bool, ghost removed: seq<Filter>)
      requires Valid()
      requires first == null || first in filters
      modifies this`filtersToRemove, ins, outs
      ensures Valid()
      ensures ok <==> first != null
      ensures filtersToRemove == old(filtersToRemove) + removed
      ensures Elems(removed) == if ok then Reach(old(LinksOf(Wiring(outs))), Head(first)) else {}
      ensures Wiring(outs) == CutWires(old(Wiring(outs)), Elems(removed))
    {
      hide Reach, CutWires, LinksOf, PortsSplit;
      if first == null {
        NoCut(Wiring(outs));
        return false, [];
      }
      ReachStays(filters, ins, outs, first);
      var chain := CollectChain(first, filters, ins, outs);
      filtersToRemove := filtersToRemove + chain;
      return true, chain;
    }

    method RemoveFilter(filter: Filter)
      modifies this`filters
      ensures filters == EraseFirst(old(filters), filter)
    {
      var i := 0;
      while i < |filters| && filters[i] != filter
        invariant 0 <= i <= |filters|
        invariant filter !in filters[..i]
      {
        assert filters[..i + 1] == filters[..i] + [filters[i]];
        i := i + 1;
      }
      EraseAt(filters, filter, i);
      if i < |filters| {
        filters := filters[..i] + filters[i + 1..];
      }
    }

    /** Removes several chains one after the other; `heads` started the chains removed before. */
    method RemoveChains(chains: seq<Filter>, ghost wires: map<OutPort, InPort?>, ghost heads: set<Filter>)
      requires Valid()
      requires forall h :: h in chains ==> h in filters
      requires Removed(wires, heads)
      modifies this`filtersToRemove, ins, outs
      ensures Valid()
      ensures Removed(wires, heads + Elems(chains))
    {
      hide Reach, CutWires, LinksOf, PortsSplit, Owned, Symmetric;
      assert heads + Elems(chains[..0]) == heads;
      for k := 0 to |chains|
        invariant Valid()
        invariant Removed(wires, heads + Elems(chains[..k]))
      {
        ghost var hs, was := heads + Elems(chains[..k]), filtersToRemove;
        ghost var _, removed := RemoveFilterChain(chains[k]);
        RemovedStep(wires, hs, chains[k], Elems(removed));
        assert Elems(was + removed) == Elems(was) + Elems(removed);
        assert chains[..k + 1] == chains[..k] + [chains[k]];
        assert heads + Elems(chains[..k + 1]) == hs + {chains[k]};
      }
      assert chains[..|chains|] == chains;
    }

    /** Removes the collected filters, which may be listed more than once. */
    method RemoveCollected()
      requires Distinct(filters)
      modifies this`filters
      ensures filters == Keep(old(filters), Elems(filtersToRemove))
    {
      KeepNone(filters, {});
      assert Elems(filtersToRemove[..0]) == {};
      for k := 0 to |filtersToRemove|
        invariant filters == Keep(old(filters), Elems(filtersToRemove[..k]))
      {
        var filter := filtersToRemove[k];
        ghost var gone := Elems(filtersToRemove[..k]);
        KeepElems(old(filters), gone);
        EraseIsKeep(filters, filter);
        KeepTwice(old(filters), gone, {filter});
        assert filtersToRemove[..k + 1] == filtersToRemove[..k] + [filter];
        assert Elems(filtersToRemove[..k + 1]) == gone + {filter};
        RemoveFilter(filter);
      }
      assert filtersToRemove[..|filtersToRemove|] == filtersToRemove;
    }

    /** Stops the filters, last first, up to the first that fails. */
    method StopFilters(plan: seq<StopOutcome>) returns (ok: bool)
      requires Valid()
      requires |plan| == |filters|
      requires forall i, h :: 0 <= i < |plan| && h in plan[i].chains ==> h in filters
      modifies this`filtersToRemove, ins, outs
      ensures Valid()
      ensures ok <==> forall i :: 0 <= i < |plan| ==> plan[i].ok
      ensures ok ==> Removed(old(Wiring(outs)), Heads(plan, 0))
    {
      hide Reach, CutWires, LinksOf, PortsSplit, Owned, Symmetric;
      ghost var wires := Wiring(outs);
      filtersToRemove := [];
      NothingRemoved(wires);
      assert Elems(filtersToRemove) == {};
      for i := |filters| downto 0
        invariant Valid()
        invariant Removed(wires, Heads(plan, i))
        invariant forall j :: i <= j < |plan| ==> plan[j].ok
      {
        RemoveChains(plan[i].chains, wires, Heads(plan, i + 1));
        assert Heads(plan, i) == Heads(plan, i + 1) + Elems(plan[i].chains);
        if !plan[i].ok {
          return false;
        }
      }
      return true;
    }

    /**
     Stops every filter, last first.  `plan[i]` is what stopping `filters[i]`
     does: its status, and the chains it asks to remove meanwhile.  When every
     filter stops, exactly the filters reachable from those chains are gone
     from the pipeline, the others keep their order and are linked among
     themselves as before; otherwise no filter goes.
     */
    method Stop(plan: seq<StopOutcome>) returns (ok: bool)
      requires Valid()
      requires |plan| == |filters|
      requires forall i, h :: 0 <= i < |plan| && h in plan[i].chains ==> h in filters
      modifies this, ins, outs
      ensures Valid()
      ensures ok <==> forall i :: 0 <= i < |plan| ==> plan[i].ok
      ensures !ok ==> filters == old(filters)
      ensures ok ==>
        var gone := Reach(old(LinksOf(Wiring(outs))), Heads(plan, 0));
        && filters == Keep(old(filters), gone)
        && outs == (set o | o in old(outs) && o.filter !in gone)
        && forall o :: o in outs ==> o.nextPort == old(CutWires(Wiring(outs), gone)[o])
    {
      hide Reach, PortsSplit, LinksOf, Keep;
      ghost var wires := Wiring(outs);
      ok := StopFilters(plan);
      if ok {
        ghost var gone := Elems(filtersToRemove);
        RemoveCollected();
        StopKeeps(old(filters), ins, outs, wires, gone, filters);
        ins, outs := set p | p in ins && p.filter !in gone, set o | o in outs && o.filter !in gone;
      }
    }

    /** What has been removed since the wiring was `wires` is what `heads` reached in it. */
    ghost predicate Removed(wires: map<OutPort, InPort?>, heads: set<Filter>)
      reads this, outs
    {
      && Elems(filtersToRemove) == Reach(LinksOf(wires), heads)
      && Wiring(outs) == CutWires(wires, Elems(filtersToRemove))
    }
  }

  lemma SameElems(a: seq<Filter>, b: seq<Filter>)
    requires multiset(a) == multiset(b)
    ensures Elems(a) == Elems(b)
  {
    assert forall x :: x in a <==> x in multiset(a);
    assert forall x :: x in b <==> x in multiset(b);
  }

  lemma OwnedAgain(filters: seq<Filter>, result: seq<Filter>, ins: set<InPort>, outs: set<OutPort>)
    requires Owned(filters, ins, outs)
    requires Distinct(result) && Elems(result) == Elems(filters)
    ensures Owned(result, ins, outs)
  {
    assert forall f :: f in result <==> f in Elems(result);
    assert forall f :: f in filters <==> f in Elems(filters);
  }

  lemma NothingRemoved(wires: map<OutPort, InPort?>)
    ensures Reach(LinksOf(wires), {}) == {} && CutWires(wires, {}) == wires
  {
  }

  /** The filters that stay keep the link invariant among themselves. */
  lemma StopKeeps(filters: seq<Filter>, ins: set<InPort>, outs: set<OutPort>,
                  wires: map<OutPort, InPort?>, gone: set<Filter>, kept: seq<Filter>)
    requires Owned(filters, ins, outs) && Symmetric(ins, outs)
    requires Targets(LinksOf(wires), gone) <= gone && Wiring(outs) == CutWires(wires, gone)
    requires kept == Keep(filters, gone)
    ensures
      var ins', outs' := set p | p in ins && p.filter !in gone, set o | o in outs && o.filter !in gone;
      Owned(kept, ins', outs') && Symmetric(ins', outs')
  {
    KeepElems(filters, gone);
    var ins', outs' := set p | p in ins && p.filter !in gone, set o | o in outs && o.filter !in gone;
    forall f | f in kept
      ensures f in filters && f !in gone && PortsSplit(f, ins', outs')
    {
      assert f in Elems(kept);
    }
    assert forall f :: f in filters && f !in gone ==> f in Elems(kept);
    forall o | o in outs && o.nextPort != null
      ensures o.filter !in gone && o.nextPort.filter !in gone
    {
      assert o in Wiring(outs) && Wiring(outs)[o] == o.nextPort;
      assert o in CutWires(wires, gone);
      assert o in wires && wires[o] == o.nextPort;
      assert (o.filter, wires[o].filter) in LinksOf(wires);
    }
  }

  lemma RemovedStep(wires: map<OutPort, InPort?>, heads: set<Filter>, h: Filter, more: set<Filter>)
    requires more == Reach(LinksOf(CutWires(wires, Reach(LinksOf(wires), heads))), {h})
    ensures Reach(LinksOf(wires), heads) + more == Reach(LinksOf(wires), heads + {h})
    ensures CutWires(CutWires(wires, Reach(LinksOf(wires), heads)), more)
      == CutWires(wires, Reach(LinksOf(wires), heads + {h}))
  {
    var links := LinksOf(wires);
    var gone := Reach(links, heads);
    CutWiresCutsLinks(wires, gone);
    ReachAfterCut(links, gone, {h});
    ReachOfUnion(links, heads, {h});
    CutTwice(wires, gone, more);
  }
}
