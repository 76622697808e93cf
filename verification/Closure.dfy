/** The worklists of the closure gates: what is reachable from the roots of a call graph, and
    which values of a function body derive from a cast between address spaces. */
module Closure {

  import opened Reachability

  type Symbol = Label

  /** The calls in the body of each defined symbol, in text order. */
  type Graph = map<Symbol, seq<Symbol>>

  predicate Edge(g: Graph, a: Symbol, b: Symbol) { a in g && b in g[a] }

  /** The calls from definitions to definitions. */
  function Calls(g: Graph): Flow {
    map a | a in g :: set b | b in g[a] && b in g
  }

  predicate StartsWith(x: Symbol, prefix: Symbol) { |prefix| <= |x| && x[..|prefix|] == prefix }

  predicate IsProject(x: Symbol, prefixes: seq<Symbol>) { exists i :: 0 <= i < |prefixes| && StartsWith(x, prefixes[i]) }

  lemma {:induction false} ProjectMeans(x: Symbol, prefixes: seq<Symbol>)
    ensures IsProject(x, prefixes) <==> exists p: Symbol, rest: Symbol :: p in prefixes && x == p + rest
  {
    if i :| 0 <= i < |prefixes| && StartsWith(x, prefixes[i]) {
      assert x == prefixes[i] + x[|prefixes[i]|..];
    }
    if p: Symbol, rest: Symbol :| p in prefixes && x == p + rest {
      var i :| 0 <= i < |prefixes| && prefixes[i] == p;
      assert StartsWith(x, prefixes[i]);
    }
  }

  /** Reached are the seeds, and the definitions called from what is reached. */
  lemma {:induction false} ReachedMeans(g: Graph, seeds: set<Symbol>, y: Symbol)
    ensures Reachable(Calls(g), seeds, y) <==>
      y in seeds || (y in g && exists x :: Reachable(Calls(g), seeds, x) && x in g && y in g[x])
  {
    ReachableMeans(Calls(g), seeds, y);
  }

  datatype Traversal = Reached(reached: set<Symbol>, externals: set<Symbol>) | MissingDefinition(symbol: Symbol) | MissingEdge(source: Symbol, target: Symbol)

  /** What a traversal is to report. */
  ghost predicate Traversed(g: Graph, seeds: set<Symbol>, prefixes: seq<Symbol>, r: Traversal) {
    match r
    case Reached(reached, externals) =>
      && (forall x :: x in reached <==> Reachable(Calls(g), seeds, x))
      && reached <= g.Keys
      && (forall y :: y in externals <==> y !in g && exists x :: Reachable(Calls(g), seeds, x) && Edge(g, x, y))
      && (forall y :: y in externals ==> !IsProject(y, prefixes))
    case MissingDefinition(x) => x in seeds && x !in g
    case MissingEdge(x, y) => Reachable(Calls(g), seeds, x) && Edge(g, x, y) && y !in g && IsProject(y, prefixes)
  }

  /** The loop's state: everything seen is reachable, and everything seen is either still
      queued or has all its calls accounted for. */
  ghost predicate Going(g: Graph, seeds: set<Symbol>, prefixes: seq<Symbol>, reached: set<Symbol>, externals: set<Symbol>, open: set<Symbol>) {
    && open <= reached && reached <= seeds + g.Keys
    && seeds <= reached && (forall x :: x in reached ==> Reachable(Calls(g), seeds, x) && (x in g || x in open))
    && (forall x, y :: x in reached && x !in open && Edge(g, x, y) ==> if y in g then y in reached else y in externals)
    && (forall y :: y in externals ==> External(g, seeds, y) && !IsProject(y, prefixes))
  }

  ghost predicate External(g: Graph, seeds: set<Symbol>, y: Symbol) {
    y !in g && exists x :: Reachable(Calls(g), seeds, x) && Edge(g, x, y)
  }

  lemma {:induction false} Finished(g: Graph, seeds: set<Symbol>, prefixes: seq<Symbol>, reached: set<Symbol>, externals: set<Symbol>)
    requires Going(g, seeds, prefixes, reached, externals, {})
    ensures Traversed(g, seeds, prefixes, Reached(reached, externals))
  {
    assert Closed(Calls(g), reached, {}) by {
      assert forall a, b :: b in Successors(Calls(g), a) ==> Edge(g, a, b) && b in g;
    }
    ClosedExact(Calls(g), seeds, reached);
    forall y
      ensures y in externals <==> y !in g && exists x :: Reachable(Calls(g), seeds, x) && Edge(g, x, y)
    {
      assert y in externals ==> External(g, seeds, y);
    }
  }

  /** Breadth-first over the call graph, refusing undefined seeds and project symbols. */
  method TraverseIr(g: Graph, seeds: seq<Symbol>, prefixes: seq<Symbol>) returns (r: Traversal)
    ensures Traversed(g, Members(seeds), prefixes, r)
  {
    ghost var roots := Members(seeds);
    var reached := Members(seeds);
    var queue, externals: set<Symbol> := seeds, {};
    forall x | x in roots
      ensures Reachable(Calls(g), roots, x)
    {
      SeedReachable(Calls(g), roots, x);
    }
    while queue != []
      invariant Going(g, roots, prefixes, reached, externals, Members(queue))
      decreases g.Keys - reached, |queue|
    {
      var symbol := queue[0];
      FirstMember(queue);
      if symbol !in g {
        return MissingDefinition(symbol);
      }
      r, reached, queue, externals := Expand(g, roots, prefixes, symbol, reached, queue[1..], externals);
      if !r.Reached? {
        return;
      }
    }
    assert Members(queue) == {};
    Finished(g, roots, prefixes, reached, externals);
    return Reached(reached, externals);
  }

  /** The inner loop: all calls of one symbol. */
  method Expand(g: Graph, ghost roots: set<Symbol>, prefixes: seq<Symbol>, symbol: Symbol, reached: set<Symbol>, queue: seq<Symbol>, externals: set<Symbol>)
    returns (r: Traversal, reached': set<Symbol>, queue': seq<Symbol>, externals': set<Symbol>)
    requires symbol in g && symbol in reached
    requires Going(g, roots, prefixes, reached, externals, {symbol} + Members(queue))
    ensures r.Reached? ==>
      && Going(g, roots, prefixes, reached', externals', Members(queue'))
      && Grown(g, reached, queue, reached', queue')
    ensures !r.Reached? ==> Traversed(g, roots, prefixes, r)
  {
    reached', queue', externals' := reached, queue, externals;
    var calls := g[symbol];
    for i := 0 to |calls|
      invariant Going(g, roots, prefixes, reached', externals', {symbol} + Members(queue'))
      invariant symbol in reached' && Noted(g, calls[..i], reached', externals')
      invariant Grown(g, reached, queue, reached', queue')
    {
      var target := calls[i];
      PrefixGrows(calls, i);
      assert Edge(g, symbol, target);
      if target !in g && IsProject(target, prefixes) {
        Refused(g, roots, prefixes, reached', externals', {symbol} + Members(queue'), symbol, target);
        return MissingEdge(symbol, target), reached', queue', externals';
      }
      ghost var seen, waiting := reached', queue';
      reached', queue', externals' := Visit(g, roots, prefixes, symbol, target, calls[..i], reached', queue', externals');
      GrownOn(g, reached, queue, seen, waiting, reached', queue');
    }
    assert calls[..|calls|] == calls;
    GoingDone(g, roots, prefixes, reached', externals', symbol, Members(queue'));
    return Reached({}, {}), reached', queue', externals';
  }

  lemma {:induction false} PrefixGrows(s: seq<Symbol>, i: nat)
    requires i < |s|
    ensures s[..i + 1] == s[..i] + [s[i]]
  {
  }

  /** One call of `symbol` that is not refused. */
  method Visit(g: Graph, ghost roots: set<Symbol>, prefixes: seq<Symbol>, symbol: Symbol, target: Symbol, ghost noted: seq<Symbol>, reached: set<Symbol>, queue: seq<Symbol>, externals: set<Symbol>)
    returns (reached': set<Symbol>, queue': seq<Symbol>, externals': set<Symbol>)
    requires symbol in reached && Edge(g, symbol, target) && (target in g || !IsProject(target, prefixes))
    requires Going(g, roots, prefixes, reached, externals, {symbol} + Members(queue)) && Noted(g, noted, reached, externals)
    ensures Going(g, roots, prefixes, reached', externals', {symbol} + Members(queue'))
    ensures Noted(g, noted + [target], reached', externals') && Grown(g, reached, queue, reached', queue')
  {
    reached', queue', externals' := reached, queue, externals;
    if target !in g {
      assert External(g, roots, target);
      externals' := externals + {target};
    } else if target !in reached {
      GoingOn(g, roots, prefixes, reached, externals, symbol, queue, target);
      reached', queue' := reached + {target}, queue + [target];
    }
  }

  lemma {:induction false} Refused(g: Graph, seeds: set<Symbol>, prefixes: seq<Symbol>, reached: set<Symbol>, externals: set<Symbol>, open: set<Symbol>, symbol: Symbol, target: Symbol)
    requires Going(g, seeds, prefixes, reached, externals, open) && symbol in reached
    requires Edge(g, symbol, target) && target !in g && IsProject(target, prefixes)
    ensures Traversed(g, seeds, prefixes, MissingEdge(symbol, target))
  {
  }

  lemma {:induction false} GrownOn(g: Graph, a: set<Symbol>, p: seq<Symbol>, b: set<Symbol>, q: seq<Symbol>, c: set<Symbol>, r: seq<Symbol>)
    requires Grown(g, a, p, b, q) && Grown(g, b, q, c, r)
    ensures Grown(g, a, p, c, r)
  {
  }

  /** With all its calls noted, a symbol needs no more attention. */
  lemma {:induction false} GoingDone(g: Graph, seeds: set<Symbol>, prefixes: seq<Symbol>, reached: set<Symbol>, externals: set<Symbol>, symbol: Symbol, open: set<Symbol>)
    requires Going(g, seeds, prefixes, reached, externals, {symbol} + open)
    requires symbol in g && Noted(g, g[symbol], reached, externals)
    ensures Going(g, seeds, prefixes, reached, externals, open)
  {
  }

  /** All these calls are accounted for. */
  predicate Noted(g: Graph, calls: seq<Symbol>, reached: set<Symbol>, externals: set<Symbol>) {
    forall y :: y in calls ==> if y in g then y in reached else y in externals
  }

  /** What is new is defined and queued. */
  predicate Grown(g: Graph, reached: set<Symbol>, queue: seq<Symbol>, reached': set<Symbol>, queue': seq<Symbol>) {
    reached <= reached' && reached' - reached <= g.Keys && (reached' == reached ==> queue' == queue)
  }

  /** A newly found definition joins the queue. */
  lemma {:induction false} GoingOn(g: Graph, seeds: set<Symbol>, prefixes: seq<Symbol>, reached: set<Symbol>, externals: set<Symbol>, symbol: Symbol, queue: seq<Symbol>, target: Symbol)
    requires Going(g, seeds, prefixes, reached, externals, {symbol} + Members(queue))
    requires symbol in reached && Edge(g, symbol, target) && target in g
    ensures Going(g, seeds, prefixes, reached + {target}, externals, {symbol} + Members(queue + [target]))
  {
    StepReachable(Calls(g), seeds, symbol, target);
    assert Members(queue + [target]) == Members(queue) + {target};
  }
}
