/** What can be reached in a finite graph by following its edges. */
module Reachability {

  type Label = string

  /** The successors of each label; labels without an entry have none. */
  type Flow = map<Label, set<Label>>

  function Successors(flow: Flow, a: Label): set<Label> { if a in flow then flow[a] else {} }

  ghost predicate Walk(flow: Flow, seeds: set<Label>, p: seq<Label>)
    decreases |p|
  {
    && p != []
    && (if |p| == 1 then p[0] in seeds
        else p[|p| - 1] in Successors(flow, p[|p| - 2]) && Walk(flow, seeds, p[..|p| - 1]))
  }

  /** `x` is a seed or follows, in some number of steps, from one. */
  ghost predicate Reachable(flow: Flow, seeds: set<Label>, x: Label) {
    exists p :: Walk(flow, seeds, p) && p[|p| - 1] == x
  }

  lemma {:induction false} SeedReachable(flow: Flow, seeds: set<Label>, x: Label)
    requires x in seeds
    ensures Reachable(flow, seeds, x)
  {
    assert Walk(flow, seeds, [x]);
  }

  lemma {:induction false} StepReachable(flow: Flow, seeds: set<Label>, a: Label, b: Label)
    requires Reachable(flow, seeds, a) && b in Successors(flow, a)
    ensures Reachable(flow, seeds, b)
  {
    var p :| Walk(flow, seeds, p) && p[|p| - 1] == a;
    assert (p + [b])[..|p|] == p;
    assert Walk(flow, seeds, p + [b]);
  }

  /** Closed under successors, except for those of the labels in `open`. */
  ghost predicate Closed(flow: Flow, s: set<Label>, open: set<Label>) {
    forall a, b :: a in s && a !in open && b in Successors(flow, a) ==> b in s
  }

  /** A closed set that holds the seeds holds everything reachable. */
  lemma {:induction false} ClosedHolds(flow: Flow, seeds: set<Label>, s: set<Label>, p: seq<Label>)
    requires seeds <= s && Closed(flow, s, {}) && Walk(flow, seeds, p)
    ensures p[|p| - 1] in s
    decreases |p|
  {
    if |p| > 1 {
      ClosedHolds(flow, seeds, s, p[..|p| - 1]);
    }
  }

  /** So a closed set of reachable labels that holds the seeds is exactly what is reachable. */
  lemma {:induction false} ClosedExact(flow: Flow, seeds: set<Label>, s: set<Label>)
    requires seeds <= s && Closed(flow, s, {}) && forall x :: x in s ==> Reachable(flow, seeds, x)
    ensures forall x :: x in s <==> Reachable(flow, seeds, x)
  {
    forall x | Reachable(flow, seeds, x)
      ensures x in s
    {
      var p :| Walk(flow, seeds, p) && p[|p| - 1] == x;
      ClosedHolds(flow, seeds, s, p);
    }
  }

  /** Without paths: the seeds are reachable, and so is what an edge leads to from there. */
  lemma {:induction false} ReachableMeans(flow: Flow, seeds: set<Label>, x: Label)
    ensures Reachable(flow, seeds, x) <==>
      x in seeds || exists a :: Reachable(flow, seeds, a) && a in flow && x in flow[a]
  {
    if Reachable(flow, seeds, x) && x !in seeds {
      var p :| Walk(flow, seeds, p) && p[|p| - 1] == x;
      var q := p[..|p| - 1];
      assert Walk(flow, seeds, q) && x in Successors(flow, q[|q| - 1]);
      assert Reachable(flow, seeds, q[|q| - 1]);
    }
    if x in seeds {
      SeedReachable(flow, seeds, x);
    }
    if a :| Reachable(flow, seeds, a) && a in flow && x in flow[a] {
      StepReachable(flow, seeds, a, x);
    }
  }

  /** And nothing else is: any set with the seeds that edges do not leave has it all. */
  lemma {:induction false} ReachableLeast(flow: Flow, seeds: set<Label>, s: set<Label>, x: Label)
    requires seeds <= s && (forall a, b :: a in s && a in flow && b in flow[a] ==> b in s)
    requires Reachable(flow, seeds, x)
    ensures x in s
  {
    var p :| Walk(flow, seeds, p) && p[|p| - 1] == x;
    ClosedHolds(flow, seeds, s, p);
  }

  function Members(s: seq<Label>): set<Label> { set x | x in s }

  lemma {:induction false} FirstMember(queue: seq<Label>)
    requires queue != []
    ensures Members(queue) == {queue[0]} + Members(queue[1..])
  {
    assert queue == [queue[0]] + queue[1..];
  }
}
