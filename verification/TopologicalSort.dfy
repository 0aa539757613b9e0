/**
 The stack-based topological sort of `ReorderFilters`, on the graph it builds:
 one node per filter with an in-degree and the indices of the next filters.

 The proof names the links: `feeds[j]` are the links that enter node `j`, and
 `sends[i][k]` is the link behind `graph[i].nexts[k]`.  The in-degree of a node
 is the number of its links that no processed node has sent.
 */
module TopologicalSort {
  import opened Sequences

  datatype FilterNode<F> = FilterNode(inDegree: nat, filter: F, nexts: seq<nat>)

  /** Every link is sent once and enters the node that the sender's `nexts` names. */
  ghost predicate Matched<F, E>(graph: seq<FilterNode<F>>, feeds: seq<set<E>>, sends: seq<seq<E>>)
    requires |feeds| == |sends| == |graph|
  {
    && (forall i :: 0 <= i < |graph| ==> |graph[i].nexts| == |sends[i]| && Distinct(sends[i]))
    && (forall i, k :: 0 <= i < |graph| && 0 <= k < |sends[i]| ==>
          graph[i].nexts[k] < |graph| && sends[i][k] in feeds[graph[i].nexts[k]])
    && (forall i, j, e :: 0 <= i < |graph| && 0 <= j < |graph| && e in sends[i] && e in sends[j] ==> i == j)
    && (forall i, j, e :: 0 <= i < |graph| && 0 <= j < |graph| && e in feeds[i] && e in feeds[j] ==> i == j)
  }

  /** The links sent by the nodes of `order`. */
  ghost function Sent<E>(sends: seq<seq<E>>, order: seq<nat>): set<E>
    requires Below(order, |sends|)
  {
    set y, e | 0 <= y < |order| && e in sends[order[y]] :: e
  }

  /** In-degrees count the links not yet in `sent`. */
  ghost predicate Counts<F, E>(graph: seq<FilterNode<F>>, feeds: seq<set<E>>, sent: set<E>)
    requires |feeds| == |graph|
  {
    forall j :: 0 <= j < |graph| ==> graph[j].inDegree == |feeds[j] - sent|
  }

  /** The stack holds exactly the nodes of in-degree zero that are not in `taken`. */
  ghost predicate StackOf<F>(graph: seq<FilterNode<F>>, stack: seq<nat>, taken: set<nat>) {
    && Distinct(stack) && Below(stack, |graph|)
    && (forall y :: 0 <= y < |stack| ==> stack[y] !in taken)
    && (forall j :: 0 <= j < |graph| ==> (graph[j].inDegree == 0 <==> j in stack || j in taken))
  }

  /** `graph'` differs from `graph` in its in-degrees only. */
  ghost predicate SameShape<F>(graph: seq<FilterNode<F>>, graph': seq<FilterNode<F>>) {
    && |graph| == |graph'|
    && forall i :: 0 <= i < |graph| ==> graph[i].filter == graph'[i].filter && graph[i].nexts == graph'[i].nexts
  }

  function Decrement<F>(graph: seq<FilterNode<F>>, j: nat): seq<FilterNode<F>>
    requires j < |graph| && graph[j].inDegree > 0
  {
    graph[j := graph[j].(inDegree := graph[j].inDegree - 1)]
  }

  lemma CountDown<F, E>(graph: seq<FilterNode<F>>, feeds: seq<set<E>>, sent: set<E>, j: nat, e: E)
    requires |feeds| == |graph| && Counts(graph, feeds, sent)
    requires j < |graph| && e in feeds[j] && e !in sent
    requires forall i :: 0 <= i < |graph| && e in feeds[i] ==> i == j
    ensures graph[j].inDegree > 0
    ensures Counts(Decrement(graph, j), feeds, sent + {e})
  {
    assert e in feeds[j] - sent;
    forall i | 0 <= i < |graph|
      ensures |feeds[i] - (sent + {e})| == |feeds[i] - sent| - if i == j then 1 else 0
    {
      if i == j {
        assert feeds[i] - (sent + {e}) == (feeds[i] - sent) - {e};
      } else {
        assert feeds[i] - (sent + {e}) == feeds[i] - sent;
      }
    }
  }

  lemma NextLink<F, E>(graph: seq<FilterNode<F>>, feeds: seq<set<E>>, sends: seq<seq<E>>, cur: nat, k: nat, sent: set<E>)
    requires |feeds| == |sends| == |graph| && Matched(graph, feeds, sends)
    requires cur < |graph| && k < |graph[cur].nexts|
    requires sent !! Elems(sends[cur])
    ensures
      var j, e := graph[cur].nexts[k], sends[cur][k];
      && j < |graph| && e in feeds[j] && (forall i :: 0 <= i < |graph| && e in feeds[i] ==> i == j)
      && e !in sent + Elems(sends[cur][..k])
      && sent + Elems(sends[cur][..k]) + {e} == sent + Elems(sends[cur][..k + 1])
  {
  }

  lemma WholeNode<F, E>(graph: seq<FilterNode<F>>, feeds: seq<set<E>>, sends: seq<seq<E>>, cur: nat)
    requires |feeds| == |sends| == |graph| && Matched(graph, feeds, sends)
    requires cur < |graph|
    ensures |sends[cur]| == |graph[cur].nexts|
    ensures Elems(sends[cur][..0]) == {}
    ensures Elems(sends[cur][..|sends[cur]|]) == Elems(sends[cur])
  {
  }

  lemma PushFreed<F>(graph: seq<FilterNode<F>>, stack: seq<nat>, taken: set<nat>, j: nat)
    requires StackOf(graph, stack, taken)
    requires j < |graph| && graph[j].inDegree > 0
    ensures graph[j].inDegree == 1 ==> StackOf(Decrement(graph, j), stack + [j], taken)
    ensures graph[j].inDegree != 1 ==> StackOf(Decrement(graph, j), stack, taken)
  {
  }

  lemma SameShapeStep<F>(graph: seq<FilterNode<F>>, graph0: seq<FilterNode<F>>, j: nat)
    requires SameShape(graph, graph0)
    requires j < |graph| && graph[j].inDegree > 0
    ensures SameShape(Decrement(graph, j), graph0)
  {
  }

  /** Takes the links of node `cur` away; the nodes left without links go on the stack. */
  method TakeNode<F, E>(graph0: seq<FilterNode<F>>, stack0: seq<nat>, cur: nat, ghost taken: set<nat>,
                        ghost feeds: seq<set<E>>, ghost sends: seq<seq<E>>, ghost sent0: set<E>)
    returns (graph: seq<FilterNode<F>>, stack: seq<nat>)
    requires |feeds| == |sends| == |graph0| && Matched(graph0, feeds, sends)
    requires Counts(graph0, feeds, sent0)
    requires cur < |graph0| && StackOf(graph0, stack0, taken)
    requires sent0 !! Elems(sends[cur])
    ensures SameShape(graph, graph0)
    ensures Counts(graph, feeds, sent0 + Elems(sends[cur]))
    ensures StackOf(graph, stack, taken)
  {
    hide Matched, Counts, StackOf, Elems;
    WholeNode(graph0, feeds, sends, cur);
    assert sent0 + {} == sent0;
    graph, stack := graph0, stack0;
    var nexts := graph[cur].nexts;
    for k := 0 to |nexts|
      invariant SameShape(graph, graph0)
      invariant Counts(graph, feeds, sent0 + Elems(sends[cur][..k]))
      invariant StackOf(graph, stack, taken)
    {
      var idx := nexts[k];
      NextLink(graph0, feeds, sends, cur, k, sent0);
      CountDown(graph, feeds, sent0 + Elems(sends[cur][..k]), idx, sends[cur][k]);
      PushFreed(graph, stack, taken, idx);
      SameShapeStep(graph, graph0, idx);
      graph := Decrement(graph, idx);
      if graph[idx].inDegree == 0 {
        stack := stack + [idx];
      }
    }
  }

  /**
   The nodes taken, in order: every link into a taken node was sent by a node
   taken earlier, and every node left over has a link that no taken node sent.
   */
  method Order<F, E>(graph0: seq<FilterNode<F>>, stack0: seq<nat>, ghost feeds: seq<set<E>>, ghost sends: seq<seq<E>>)
    returns (result: seq<F>, ghost order: seq<nat>)
    requires |feeds| == |sends| == |graph0| && Matched(graph0, feeds, sends)
    requires Counts(graph0, feeds, {}) && StackOf(graph0, stack0, {})
    ensures Distinct(order) && Below(order, |graph0|)
    ensures Listed(graph0, order, result)
    ensures FedEarlier(feeds, sends, order)
    ensures forall j :: 0 <= j < |graph0| && j !in order ==> !(feeds[j] <= Sent(sends, order))
  {
    hide Matched, Counts, Sent, FedEarlier, StackOf;
    NothingSent(feeds, sends);
    assert Elems<nat>([]) == {};
    var graph, stack := graph0, stack0;
    result, order := [], [];
    while stack != []
      invariant SameShape(graph, graph0)
      invariant Distinct(order) && Below(order, |graph0|)
      invariant Listed(graph0, order, result)
      invariant FedEarlier(feeds, sends, order)
      invariant Counts(graph, feeds, Sent(sends, order))
      invariant StackOf(graph, stack, Elems(order))
      decreases |graph0| - |order|
    {
      var cur := stack[|stack| - 1];
      ghost var sent := Sent(sends, order);
      PopStack(graph, stack, Elems(order));
      NoneLeft(graph, feeds, sent, cur);
      NotSent(graph0, feeds, sends, order, cur);
      MatchedStays(graph0, graph, feeds, sends);
      graph, stack := TakeNode(graph, stack[..|stack| - 1], cur, Elems(order) + {cur}, feeds, sends, sent);
      result := result + [graph[cur].filter];
      Extend(feeds, sends, order, cur);
      order := order + [cur];
      Pigeonhole(order, |graph0|);
    }
    forall j | 0 <= j < |graph0| && j !in order
      ensures !(feeds[j] <= Sent(sends, order))
    {
      NoneLeft(graph, feeds, Sent(sends, order), j);
      StackEmpty(graph, Elems(order), j);
    }
  }

  ghost predicate Listed<F>(graph: seq<FilterNode<F>>, order: seq<nat>, result: seq<F>)
    requires Below(order, |graph|)
  {
    |result| == |order| && forall x :: 0 <= x < |order| ==> result[x] == graph[order[x]].filter
  }

  ghost predicate FedEarlier<E>(feeds: seq<set<E>>, sends: seq<seq<E>>, order: seq<nat>)
    requires |feeds| == |sends| && Below(order, |sends|)
  {
    forall x :: 0 <= x < |order| ==> feeds[order[x]] <= Sent(sends, order[..x])
  }

  lemma NothingSent<E>(feeds: seq<set<E>>, sends: seq<seq<E>>)
    requires |feeds| == |sends|
    ensures Sent(sends, []) == {} && FedEarlier(feeds, sends, [])
  {
  }

  lemma PopStack<F>(graph: seq<FilterNode<F>>, stack: seq<nat>, taken: set<nat>)
    requires stack != [] && StackOf(graph, stack, taken)
    ensures
      var top := stack[|stack| - 1];
      top < |graph| && graph[top].inDegree == 0 && top !in taken
    ensures StackOf(graph, stack[..|stack| - 1], taken + {stack[|stack| - 1]})
  {
  }

  lemma StackEmpty<F>(graph: seq<FilterNode<F>>, taken: set<nat>, j: nat)
    requires StackOf(graph, [], taken) && j < |graph|
    ensures graph[j].inDegree == 0 <==> j in taken
  {
  }

  lemma MatchedStays<F, E>(graph: seq<FilterNode<F>>, graph': seq<FilterNode<F>>, feeds: seq<set<E>>, sends: seq<seq<E>>)
    requires |feeds| == |sends| == |graph| && Matched(graph, feeds, sends)
    requires SameShape(graph', graph)
    ensures Matched(graph', feeds, sends)
  {
  }

  lemma NoneLeft<F, E>(graph: seq<FilterNode<F>>, feeds: seq<set<E>>, sent: set<E>, j: nat)
    requires |feeds| == |graph| && Counts(graph, feeds, sent) && j < |graph|
    ensures graph[j].inDegree == 0 <==> feeds[j] <= sent
  {
    if feeds[j] <= sent {
      assert feeds[j] - sent == {};
    } else {
      var e :| e in feeds[j] && e !in sent;
      assert e in feeds[j] - sent;
    }
  }

  lemma NotSent<F, E>(graph: seq<FilterNode<F>>, feeds: seq<set<E>>, sends: seq<seq<E>>, order: seq<nat>, cur: nat)
    requires |feeds| == |sends| == |graph| && Matched(graph, feeds, sends) && Below(order, |graph|)
    requires cur < |graph| && cur !in order
    ensures Sent(sends, order) !! Elems(sends[cur])
  {
  }

  lemma Extend<E>(feeds: seq<set<E>>, sends: seq<seq<E>>, order: seq<nat>, cur: nat)
    requires |feeds| == |sends| && Below(order, |sends|) && FedEarlier(feeds, sends, order)
    requires cur < |sends| && feeds[cur] <= Sent(sends, order)
    ensures Elems(order + [cur]) == Elems(order) + {cur}
    ensures Sent(sends, order + [cur]) == Sent(sends, order) + Elems(sends[cur])
    ensures FedEarlier(feeds, sends, order + [cur])
  {
    var more := order + [cur];
    assert more[|order|] == cur;
    forall e | e in Sent(sends, order) + Elems(sends[cur])
      ensures e in Sent(sends, more)
    {
      if e in Sent(sends, order) {
        var y :| 0 <= y < |order| && e in sends[order[y]];
        assert more[y] == order[y];
      } else {
        assert e in sends[more[|order|]];
      }
    }
    forall x | 0 <= x < |more|
      ensures feeds[more[x]] <= Sent(sends, more[..x])
    {
      assert more[..x] == order[..x];
      assert order[..|order|] == order;
    }
  }
}
