/** The control-flow gate on the write unlock: from the block that reports a failure no block
    that stores the release may be reachable. */
module UnlockOrder {
  import opened Reachability

  function Targets(flow: Flow): set<Label> { set a, b | a in flow && b in flow[a] :: b }

  /** What the search has so far: blocks that can be reached, some of them still to expand. */
  ghost predicate Going(flow: Flow, from: Label, seen: set<Label>, open: set<Label>) {
    && from in seen && open <= seen && seen <= Targets(flow) + {from} && Closed(flow, seen, open)
    && forall x :: x in seen ==> Reachable(flow, {from}, x)
  }

  /** Refuses exactly when some storing block is reachable from the failing one. */
  method StoreReachable(flow: Flow, fatal: Label, stores: set<Label>) returns (bad: bool)
    ensures bad <==> exists x :: x in stores && Reachable(flow, {fatal}, x)
  {
    var queue, seen := [fatal], {fatal};
    SeedReachable(flow, {fatal}, fatal);
    while queue != []
      invariant Going(flow, fatal, seen, Members(queue))
      decreases Targets(flow) + {fatal} - seen, |queue|
    {
      FirstMember(queue);
      queue, seen := Expand(flow, fatal, queue[0], queue[1..], seen);
    }
    ClosedExact(flow, {fatal}, seen);
    assert forall x :: x in seen * stores <==> x in stores && Reachable(flow, {fatal}, x);
    bad := seen * stores != {};
  }

  /** Queues the successors of a block that are new. */
  method Expand(flow: Flow, ghost fatal: Label, block: Label, queue: seq<Label>, seen: set<Label>)
    returns (queue': seq<Label>, seen': set<Label>)
    requires block in seen && Going(flow, fatal, seen, {block} + Members(queue))
    ensures Going(flow, fatal, seen', Members(queue')) && seen <= seen' && (seen' == seen ==> queue' == queue)
  {
    queue', seen' := queue, seen;
    var todo := Successors(flow, block);
    while todo != {}
      invariant todo <= Successors(flow, block)
      invariant Going(flow, fatal, seen', {block} + Members(queue')) && block in seen'
      invariant forall b :: b in Successors(flow, block) ==> b in seen' || b in todo
      invariant seen <= seen' && (seen' == seen ==> queue' == queue)
      decreases todo
    {
      var b :| b in todo;
      if b !in seen' {
        StepReachable(flow, {fatal}, block, b);
        AddOne(flow, fatal, seen', {block} + Members(queue'), b);
        assert {block} + Members(queue') + {b} == {block} + Members(queue' + [b]);
        queue', seen' := queue' + [b], seen' + {b};
      }
      todo := todo - {b};
    }
  }

  lemma {:induction false} AddOne(flow: Flow, from: Label, seen: set<Label>, open: set<Label>, b: Label)
    requires Going(flow, from, seen, open) && Reachable(flow, {from}, b) && b in Targets(flow)
    ensures Going(flow, from, seen + {b}, open + {b})
  {
  }
}
