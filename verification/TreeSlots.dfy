/** Positions in a Cartesian tree, and the facts its loops rely on. A pointer to a
    child pointer is a place in the tree value: the path to it and the subtree that hangs there. */
module TreeSlots {
  import opened Intervals
  import opened Treap
  import opened TreeOps
  import opened TreeInsert

  // ---------- climbing back along a path ----------

  function Unwind(stack: seq<Frame>, r: Ins): Ins
    decreases |stack|
  {
    if stack == [] then r else Unwind(stack[..|stack| - 1], Climb(stack[|stack| - 1], r))
  }

  lemma {:induction false} UnwindPush(stack: seq<Frame>, f: Frame, r: Ins)
    ensures Unwind(stack + [f], r) == Unwind(stack, Climb(f, r))
  {
    assert (stack + [f])[..|stack|] == stack;
  }

  lemma {:induction false} UnwindClash(stack: seq<Frame>)
    ensures Unwind(stack, Clash) == Clash
    decreases |stack|
  {
    if stack != [] {
      UnwindClash(stack[..|stack| - 1]);
    }
  }

  /** Once nothing rises any more, the frames only close around the subtree. */
  lemma {:induction false} UnwindSettled(stack: seq<Frame>, t: Tree)
    ensures Unwind(stack, Done(t, false)) == Done(Plug(stack, t), false)
    decreases |stack|
  {
    if stack != [] {
      UnwindSettled(stack[..|stack| - 1], Wrap(stack[|stack| - 1], t));
    }
  }

  lemma {:induction false} UnwindNodeCount(stack: seq<Frame>, t: Tree, rising: bool)
    ensures Unwind(stack, Done(t, rising)).Done?
    ensures NodeCount(Unwind(stack, Done(t, rising)).t) == NodeCount(Plug(stack, t))
    decreases |stack|
  {
    if stack != [] {
      var f := stack[|stack| - 1];
      ClimbUnits(f, Done(t, rising));
      var c := Climb(f, Done(t, rising));
      UnwindNodeCount(stack[..|stack| - 1], c.t, c.rising);
      PlugNodeCount(stack[..|stack| - 1], c.t, Wrap(f, t));
    }
  }

  lemma {:induction false} PlugNodeCount(ctx: seq<Frame>, a: Tree, b: Tree)
    ensures NodeCount(Plug(ctx, a)) - NodeCount(a) == NodeCount(Plug(ctx, b)) - NodeCount(b)
    decreases |ctx|
  {
    if ctx != [] {
      PlugNodeCount(ctx[..|ctx| - 1], Wrap(ctx[|ctx| - 1], a), Wrap(ctx[|ctx| - 1], b));
    }
  }

  /** A step leaves the run idx..end strictly on the side it goes to. */
  predicate Beside(f: Frame, idx: nat, end: nat) {
    match f
    case WentLeft(i, c, _) => end < i
    case WentRight(_, i, c) => i + c < idx
  }

  predicate Sides(stack: seq<Frame>, idx: nat, end: nat) {
    forall k :: 0 <= k < |stack| ==> Beside(stack[k], idx, end)
  }

  function PlugAbsorb(ctx: seq<Frame>, a: Absorb): Absorb {
    if a.AbsorbError? then AbsorbError else Absorbed(a.count, Plug(ctx, a.rest))
  }

  // ---------- facts the walks need ----------

  lemma {:induction false} InPlug(ctx: seq<Frame>, t: Tree)
    requires Wf(Plug(ctx, t))
    ensures Wf(t) && Units(t) <= Units(Plug(ctx, t)) && NodeCount(t) <= NodeCount(Plug(ctx, t))
  {
    PlugWf(ctx, t);
    PlugShrinks(ctx, t, t);
    PlugNodeCount(ctx, t, Leaf);
  }

  /** 32-bit arithmetic on a node's run cannot wrap. */
  lemma {:induction false} WithinBlocks(t: Tree, blocks: nat)
    requires Ordered(t) && t.Node? && Units(t) <= Run(0, blocks)
    ensures t.index + t.count <= blocks
  {
    assert t.index + t.count - 1 in Units(t);
  }

  lemma {:induction false} RunInside(t: Tree, path: seq<Frame>, node: Tree, blocks: nat)
    requires Wf(t) && Plug(path, node) == t && node.Node? && Units(t) <= Run(0, blocks)
    ensures node.index + node.count <= blocks
  {
    InPlug(path, node);
    WithinBlocks(node, blocks);
  }

  lemma {:induction false} PushStep(stack: seq<Frame>, f: Frame, t: Tree, r: Ins)
    ensures Unwind(stack + [f], r) == Unwind(stack, Climb(f, r))
    ensures Plug(stack + [f], t) == Plug(stack, Wrap(f, t))
  {
    UnwindPush(stack, f, r);
    PlugPush(stack, f, t);
  }

  lemma {:induction false} PushAbsorb(path: seq<Frame>, f: Frame, t: Tree, a: Absorb)
    ensures PlugAbsorb(path + [f], a) == PlugAbsorb(path, LiftAbsorb(f, a))
    ensures Plug(path + [f], t) == Plug(path, Wrap(f, t))
  {
    PlugPush(path, f, t);
    if a.Absorbed? {
      PlugPush(path, f, a.rest);
    }
  }

  /** A successful insertion leaves a well-formed tree whose total grew by `num`. */
  lemma {:induction false} InsertKeepsValid(t: Tree, idx: nat, num: nat, blocks: nat)
    requires Wf(t) && num >= 1 && idx + num <= blocks && Units(t) <= Run(0, blocks)
    requires Insert(t, idx, num).Done?
    ensures var s := Insert(t, idx, num).t;
      && Wf(s) && Units(s) == Units(t) + Run(idx, idx + num) && Units(s) <= Run(0, blocks)
      && TotalCount(s) == TotalCount(t) + num <= blocks
  {
    InsertUnits(t, idx, num);
    InsertOrdered(t, idx, num);
    InsertHeap(t, idx, num);
    InsertTotal(t, idx, num, blocks);
  }

  lemma {:induction false} InsertTotal(t: Tree, idx: nat, num: nat, blocks: nat)
    requires Ordered(t) && num >= 1 && idx + num <= blocks && Units(t) <= Run(0, blocks)
    requires Insert(t, idx, num).Done?
    ensures TotalCount(Insert(t, idx, num).t) == TotalCount(t) + num <= blocks
  {
    InsertIff(t, idx, num);
    MissesUnits(t, idx, idx + num);
    InsertUnits(t, idx, num);
    InsertOrdered(t, idx, num);
    GrownTotal(t, Insert(t, idx, num).t, idx, num, blocks);
  }

  lemma {:induction false} GrownTotal(t: Tree, s: Tree, idx: nat, num: nat, blocks: nat)
    requires Ordered(t) && Ordered(s) && idx + num <= blocks && Units(t) <= Run(0, blocks)
    requires Units(s) == Units(t) + Run(idx, idx + num) && Units(t) !! Run(idx, idx + num)
    ensures TotalCount(s) == TotalCount(t) + num <= blocks
  {
    TotalIsSize(t);
    TotalIsSize(s);
    RunSize(idx, idx + num);
    DisjointSize(Units(t), Run(idx, idx + num));
    BoundedSize(Units(s), blocks);
  }

  /** The node budget covers the tree that an insertion leaves. */
  lemma {:induction false} GrownBudget(t: Tree, idx: nat, num: nat, blocks: nat)
    requires Wf(t) && num >= 1 && idx + num <= blocks && Units(t) <= Run(0, blocks)
    requires Insert(t, idx, num).Done?
    ensures NodeCount(Insert(t, idx, num).t) <= blocks / 2 + 1
  {
    InsertKeepsValid(t, idx, num, blocks);
    NodeBudget(Insert(t, idx, num).t, 0, blocks);
  }

  // ---------- slots ----------

  /** A pointer slot: the path to it and the subtree it points to. */
  datatype Slot = Slot(path: seq<Frame>, node: Tree) {
    /** The slot is a place in `t` that holds a node. */
    predicate In(t: Tree) { node.Node? && Plug(path, node) == t }

    function LeftSlot(): Slot
      requires node.Node?
    {
      Slot(path + [WentLeft(node.index, node.count, node.r)], node.l)
    }

    function RightSlot(): Slot
      requires node.Node?
    {
      Slot(path + [WentRight(node.l, node.index, node.count)], node.r)
    }
  }

  function Subtrees(queue: seq<Slot>): seq<Tree> {
    seq(|queue|, i requires 0 <= i < |queue| => queue[i].node)
  }

  lemma {:induction false} SubtreesConcat(a: seq<Slot>, b: seq<Slot>)
    ensures Subtrees(a + b) == Subtrees(a) + Subtrees(b)
  {
  }

  predicate AllIn(slots: seq<Slot>, t: Tree) {
    slots != [] ==> slots[0].In(t) && AllIn(slots[1..], t)
  }

  lemma {:induction false} AllInConcat(a: seq<Slot>, b: seq<Slot>, t: Tree)
    ensures AllIn(a + b, t) <==> AllIn(a, t) && AllIn(b, t)
  {
    if a == [] {
      assert a + b == b;
    } else {
      assert (a + b)[1..] == a[1..] + b;
      AllInConcat(a[1..], b, t);
    }
  }

  lemma {:induction false} ChildrenIn(slot: Slot, t: Tree)
    requires slot.In(t)
    ensures slot.node.l.Node? ==> slot.LeftSlot().In(t)
    ensures slot.node.r.Node? ==> slot.RightSlot().In(t)
  {
    PlugPush(slot.path, WentLeft(slot.node.index, slot.node.count, slot.node.r), slot.node.l);
    PlugPush(slot.path, WentRight(slot.node.l, slot.node.index, slot.node.count), slot.node.r);
  }

  /** One more slot at the end of a queue or stack. */
  lemma {:induction false} OneMoreSlot(slots: seq<Slot>, slot: Slot, t: Tree)
    requires AllIn(slots, t) && slot.In(t)
    ensures AllIn(slots + [slot], t) && Subtrees(slots + [slot]) == Subtrees(slots) + [slot.node]
  {
    AllInConcat(slots, [slot], t);
  }

  function Kids(t: Tree): seq<Tree>
    requires t.Node?
  {
    (if t.r.Node? then [t.r] else []) + (if t.l.Node? then [t.l] else [])
  }

  function Weight(queue: seq<Tree>): nat {
    if queue == [] then 0 else NodeCount(queue[0]) + Weight(queue[1..])
  }

  lemma {:induction false} WeightConcat(a: seq<Tree>, b: seq<Tree>)
    ensures Weight(a + b) == Weight(a) + Weight(b)
  {
    if a == [] {
      assert a + b == b;
    } else {
      assert (a + b)[1..] == a[1..] + b;
      WeightConcat(a[1..], b);
    }
  }

  /** Serving the front of the queue uses up one node. */
  lemma {:induction false} ServedWeight(t: Tree, rest: seq<Tree>)
    requires t.Node?
    ensures Weight(rest + Kids(t)) < Weight([t] + rest)
  {
    WeightConcat(rest, Kids(t));
    assert ([t] + rest)[1..] == rest;
    KidsWeight(t);
  }

  /** The nodes below a queue of subtrees, level by level, right before left. */
  function LevelOrder(queue: seq<Tree>): seq<Tree>
    decreases Weight(queue)
  {
    if queue == [] || queue[0].Leaf? then [] else
      ServedWeight(queue[0], queue[1..]);
      assert [queue[0]] + queue[1..] == queue;
      [queue[0]] + LevelOrder(queue[1..] + Kids(queue[0]))
  }

  lemma {:induction false} Served(queue: seq<Slot>, rest: seq<Slot>, kids: seq<Slot>)
    requires queue != [] && queue[0].node.Node?
    requires rest == queue[1..] + kids && Subtrees(kids) == Kids(queue[0].node)
    ensures LevelOrder(Subtrees(queue)) == [queue[0].node] + LevelOrder(Subtrees(rest))
    ensures Weight(Subtrees(rest)) < Weight(Subtrees(queue))
  {
    var front := queue[0].node;
    SubtreesConcat(queue[1..], kids);
    assert Subtrees(queue) == [front] + Subtrees(queue[1..]);
    assert Subtrees(queue)[1..] == Subtrees(queue[1..]);
    ServedWeight(front, Subtrees(queue[1..]));
  }

  predicate Fitting(done: seq<Tree>, num: nat) {
    forall j :: 0 <= j < |done| ==> done[j].Node? && done[j].count >= num
  }

  /** Position `k` ends the leading stretch of runs of at least `num` blocks. */
  predicate LastFit(order: seq<Tree>, num: nat, k: nat) {
    && k < |order|
    && Fitting(order[..k + 1], num)
    && (k + 1 < |order| ==> order[k + 1].Node? && order[k + 1].count < num)
  }

  /** The walk takes one more node, or ends before it. */
  lemma {:induction false} WalkStep(done: seq<Tree>, next: Tree, rest: seq<Tree>, num: nat)
    requires done != [] && Fitting(done, num) && next.Node?
    ensures done + ([next] + rest) == done + [next] + rest
    ensures next.count >= num ==> Fitting(done + [next], num)
    ensures next.count < num ==> LastFit(done + [next] + rest, num, |done| - 1)
  {
    assert (done + [next] + rest)[..|done|] == done;
  }


  /** The run idx..idx+num was the low end of a run of `t` and is gone from `s`. */
  ghost predicate RunTaken(t: Tree, idx: nat, num: nat, s: Tree) {
    && (exists n :: n in Nodes(t) && n.index == idx && n.count >= num)
    && Run(idx, idx + num) <= Units(t)
    && Wf(s) && Units(s) == Units(t) - Run(idx, idx + num)
  }

  predicate Proper(t: Tree) {
    t.Node? ==> t.count >= RootCount(t.l) && t.count >= RootCount(t.r)
  }

  /** What lowering makes of the node in a slot, and what removing it makes. */
  function LowerSlot(s: Slot): Tree
    requires s.node.Node?
  {
    Lower(s.node.l, s.node.index, s.node.count, s.node.r)
  }

  function JoinSlot(s: Slot): Tree
    requires s.node.Node?
  {
    Join(s.node.l, s.node.r)
  }

  /** A node after its run has lost `num` blocks at the low end. */
  function Cut(t: Tree, num: nat): Tree
    requires t.Node? && num <= t.count
  {
    if t.count == num then Join(t.l, t.r) else Lower(t.l, t.index + num, t.count - num, t.r)
  }

  lemma {:induction false} CutShrinks(t: Tree, num: nat)
    requires Wf(t) && t.Node? && 1 <= num <= t.count
    ensures Shrinks(Cut(t, num), t)
    ensures Units(t) - Units(Cut(t, num)) == Run(t.index, t.index + num) <= Units(t)
    ensures NodeCount(Cut(t, num)) == if num == t.count then NodeCount(t) - 1 else NodeCount(t)
  {
    CutUnits(t, num);
    BelowUnits(t.l, t.index);
    AboveUnits(t.r, t.index + t.count);
    if t.count == num {
      JoinWf(t);
    } else {
      LowerWf(t, num);
    }
  }

  lemma {:induction false} CutUnits(t: Tree, num: nat)
    requires t.Node? && 1 <= num <= t.count
    ensures Units(Cut(t, num)) == Units(t.l) + Run(t.index + num, t.index + t.count) + Units(t.r)
    ensures NodeCount(Cut(t, num)) == if num == t.count then NodeCount(t) - 1 else NodeCount(t)
  {
    if t.count == num {
      JoinUnits(t.l, t.r);
      assert Run(t.index + num, t.index + t.count) == {};
    } else {
      var i, c := t.index + num, t.count - num;
      assert i + c == t.index + t.count;
      LowerUnits(t.l, i, c, t.r);
      LowerNodeCount(t.l, i, c, t.r);
    }
  }

  lemma {:induction false} JoinWf(t: Tree)
    requires Wf(t) && t.Node?
    ensures Wf(Join(t.l, t.r)) && RootCount(Join(t.l, t.r)) <= t.count
  {
    JoinHeap(t.l, t.r);
    AboveTrans(t.r, t.index + t.count, t.index);
    JoinOrdered(t.l, t.index, t.r);
  }

  lemma {:induction false} LowerWf(t: Tree, num: nat)
    requires Wf(t) && t.Node? && 1 <= num < t.count
    ensures var s := Lower(t.l, t.index + num, t.count - num, t.r); Wf(s) && RootCount(s) <= t.count
  {
    LowerHeap(t.l, t.index + num, t.count - num, t.r);
    BelowTrans(t.l, t.index, t.index + num);
    assert t.index + num + (t.count - num) == t.index + t.count;
    LowerOrdered(t.l, t.index + num, t.count - num, t.r);
  }

  lemma {:induction false} TakenCorrect(slot: Slot, num: nat, blocks: nat)
    requires slot.node.Node? && 1 <= num <= slot.node.count
    requires Wf(Plug(slot.path, slot.node)) && Units(Plug(slot.path, slot.node)) <= Run(0, blocks)
    ensures var t, s := Plug(slot.path, slot.node), Plug(slot.path, Cut(slot.node, num));
      && RunTaken(t, slot.node.index, num, s) && slot.node.index + slot.node.count <= blocks
      && TotalCount(s) == TotalCount(t) - num
      && NodeCount(s) == NodeCount(t) - (if num == slot.node.count then 1 else 0)
  {
    var t, s := Plug(slot.path, slot.node), Plug(slot.path, Cut(slot.node, num));
    RunInside(t, slot.path, slot.node, blocks);
    PlugWf(slot.path, slot.node);
    CutShrinks(slot.node, num);
    PlugShrinks(slot.path, slot.node, Cut(slot.node, num));
    PlugNodes(slot.path, slot.node);
    assert Interval(slot.node.index, slot.node.count) in Nodes(t);
    TakenTotal(t, s, slot.node.index, num);
  }

  lemma {:induction false} PlugNodes(ctx: seq<Frame>, t: Tree)
    ensures Nodes(t) <= Nodes(Plug(ctx, t))
    decreases |ctx|
  {
    if ctx != [] {
      PlugNodes(ctx[..|ctx| - 1], Wrap(ctx[|ctx| - 1], t));
    }
  }

  lemma {:induction false} TakenTotal(t: Tree, s: Tree, idx: nat, num: nat)
    requires Ordered(t) && Ordered(s) && Run(idx, idx + num) <= Units(t)
    requires Units(s) == Units(t) - Run(idx, idx + num)
    ensures TotalCount(s) == TotalCount(t) - num
  {
    TotalIsSize(t);
    TotalIsSize(s);
    TakenSize(Units(t), Units(s), idx, num);
  }

  lemma {:induction false} TakenSize(a: set<nat>, b: set<nat>, idx: nat, num: nat)
    requires Run(idx, idx + num) <= a && b == a - Run(idx, idx + num)
    ensures |b| == |a| - num
  {
    RunSize(idx, idx + num);
    assert a == b + Run(idx, idx + num);
    DisjointSize(b, Run(idx, idx + num));
  }

  // ---------- the whole walk ----------

  /** The runs of a list of nodes, and of whole subtrees, with their multiplicities. */
  function RunBag(order: seq<Tree>): multiset<Interval> {
    if order == [] then multiset{}
    else if order[0].Leaf? then RunBag(order[1..])
    else multiset{Interval(order[0].index, order[0].count)} + RunBag(order[1..])
  }

  function TreeBag(t: Tree): multiset<Interval> {
    if t.Leaf? then multiset{} else TreeBag(t.l) + multiset{Interval(t.index, t.count)} + TreeBag(t.r)
  }

  function QueueBag(queue: seq<Tree>): multiset<Interval> {
    if queue == [] then multiset{} else TreeBag(queue[0]) + QueueBag(queue[1..])
  }

  lemma {:induction false} QueueBagConcat(a: seq<Tree>, b: seq<Tree>)
    ensures QueueBag(a + b) == QueueBag(a) + QueueBag(b)
  {
    if a == [] {
      assert a + b == b;
    } else {
      assert (a + b)[1..] == a[1..] + b;
      QueueBagConcat(a[1..], b);
    }
  }

  lemma {:induction false} KidsBag(t: Tree)
    requires t.Node?
    ensures TreeBag(t) == multiset{Interval(t.index, t.count)} + QueueBag(Kids(t))
  {
    var r, l := if t.r.Node? then [t.r] else [], if t.l.Node? then [t.l] else [];
    QueueBagConcat(r, l);
    OneBag(t.r);
    OneBag(t.l);
    BagSum(TreeBag(t.l), Interval(t.index, t.count), TreeBag(t.r));
  }

  lemma {:induction false} OneBag(t: Tree)
    ensures QueueBag(if t.Node? then [t] else []) == TreeBag(t)
  {
    assert t.Node? ==> [t][1..] == [];
  }

  lemma {:induction false} BagSum(l: multiset<Interval>, n: Interval, r: multiset<Interval>)
    ensures l + multiset{n} + r == multiset{n} + (r + l)
  {
  }

  lemma {:induction false} VisitNext(done: seq<Tree>, next: Tree, rest: seq<Tree>)
    ensures done + ([next] + rest) == done + [next] + rest
  {
  }

  /** The level order lists every node of the queued subtrees, and each as often as it occurs
      there. */
  lemma {:induction false} LevelOrderComplete(queue: seq<Tree>)
    requires forall t :: t in queue ==> t.Node?
    ensures RunBag(LevelOrder(queue)) == QueueBag(queue) && |LevelOrder(queue)| == Weight(queue)
    decreases Weight(queue)
  {
    if queue != [] {
      var front, rest := queue[0], queue[1..];
      ServedWeight(front, rest);
      assert [front] + rest == queue;
      LevelOrderComplete(rest + Kids(front));
      WeightConcat(rest, Kids(front));
      KidsWeight(front);
      assert RunBag(LevelOrder(queue)) == QueueBag(queue) by {
        var after := LevelOrder(rest + Kids(front));
        assert ([front] + after)[1..] == after;
        QueueBagConcat(rest, Kids(front));
        KidsBag(front);
      }
    }
  }

  lemma {:induction false} BagInOrder(t: Tree)
    ensures TreeBag(t) == multiset(InOrder(t))
  {
    if t.Node? {
      BagInOrder(t.l);
      BagInOrder(t.r);
      assert multiset(InOrder(t)) == multiset(InOrder(t.l)) + multiset([Interval(t.index, t.count)]) + multiset(InOrder(t.r));
    }
  }

  lemma {:induction false} KidsWeight(t: Tree)
    requires t.Node?
    ensures Weight(Kids(t)) == NodeCount(t) - 1
  {
    var r, l := if t.r.Node? then [t.r] else [], if t.l.Node? then [t.l] else [];
    WeightConcat(r, l);
  }
}
