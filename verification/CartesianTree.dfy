/** The native Cartesian tree of free runs: the object with its root, its running total and
    its node budget, and the operations that change them. */
module CartesianTree {
  import opened Common
  import opened Intervals
  import opened Treap
  import opened TreeOps
  import opened TreeInsert
  import opened TreeSlots
  import opened BestFit
  import opened NodeMemory
  import opened WalkOrder

  /** What a descent finds at a node. */
  datatype Side = Grown(merged: Tree) | Blocked | Down(frame: Frame, child: Tree)

  ghost predicate Descends(side: Side, node: Tree, idx: nat, num: nat)
    requires side.Down?
  {
    && Wrap(side.frame, side.child) == node && side.child < node
    && Insert(node, idx, num) == Climb(side.frame, Insert(side.child, idx, num))
    && Beside(side.frame, idx, idx + num)
  }

  datatype MergeResult = MergeSuccess | MergeMiss | MergeError

  function RunOf(best: Option<Slot>): Option<Interval>
    requires best.Some? ==> best.value.node.Node?
  {
    if best.None? then None else Some(Run1(best.value.node))
  }

  lemma {:induction false} StartSearch(t: Tree, num: nat, stack: seq<Tree>)
    requires Wf(t) && t.Node?
    requires stack == if t.count >= num then [t] else []
    ensures Searching(t, num, None, stack)
  {
    RootIsMax(t);
    if t.count >= num {
      assert stack[..0] == [];
    }
  }

  lemma {:induction false} FinishSearch(t: Tree, num: nat, best: Option<Interval>, stack: seq<Tree>)
    requires Searching(t, num, best, stack) && stack == []
    ensures best.Some? ==> Best(t, num, best.value)
    ensures best.None? ==> forall n :: n in Nodes(t) ==> n.count < num
  {
  }

  lemma {:induction false} PushedWeight(below: seq<Tree>, cur: Tree, num: nat, exact: bool)
    requires cur.Node?
    ensures Weight(below + Pushed(cur, num, exact)) < Weight(below + [cur])
  {
    WeightConcat(below, [cur]);
    WeightConcat(below, Pushed(cur, num, exact));
    var right := if !exact && cur.r.Node? && cur.r.count >= num then [cur.r] else [];
    var left := if cur.l.Node? && cur.l.count >= num then [cur.l] else [];
    WeightConcat(right, left);
  }

  lemma {:induction false} DroppedRoot(t: Tree)
    requires Ordered(t) && t.Node?
    ensures Nodes(Join(t.l, t.r)) == Nodes(t) - {Run1(t)}
  {
    JoinUnits(t.l, t.r);
    NodesBelow(t.l, t.index);
    NodesAbove(t.r, t.index + t.count);
  }

  /** What the level iterator starts from. */
  function Roots(t: Tree): seq<Tree> { if t.Node? then [t] else [] }

  lemma {:induction false} StartWalk(t: Tree)
    ensures var queue := if t.Node? then [Slot([], t)] else [];
      AllIn(queue, t) && Subtrees(queue) == Roots(t) && |LevelOrder(Roots(t))| == NodeCount(t)
  {
    LevelOrderComplete(Roots(t));
    assert t.Node? ==> Roots(t)[1..] == [];
  }

  lemma {:induction false} EndWalk(t: Tree, visited: seq<Tree>)
    requires Ordered(t) && visited + LevelOrder([]) == LevelOrder(Roots(t))
    ensures |visited| == NodeCount(t)
    ensures forall n :: RunBag(visited)[n] == if n in Nodes(t) then 1 else 0
  {
    assert visited + [] == visited;
    LevelOrderComplete(Roots(t));
    OneBag(t);
    EachOnce(t);
    StartWalk(t);
  }

  /** No two nodes of an ordered tree hold the same run. */
  lemma {:induction false} EachOnce(t: Tree)
    requires Ordered(t)
    ensures forall n :: TreeBag(t)[n] == if n in Nodes(t) then 1 else 0
  {
    if t.Node? {
      EachOnce(t.l);
      EachOnce(t.r);
      NodesBelow(t.l, t.index);
      NodesAbove(t.r, t.index + t.count);
    }
  }

  /** Insertion next to the root of a tree. */
  lemma {:induction false} InsertAtEnds(t: Tree, idx: nat, num: nat)
    requires t.Node?
    ensures idx == t.index + t.count ==>
      var a := AbsorbRight(t.r, idx + num);
      Insert(t, idx, num) == if a.AbsorbError? then Clash else Done(Node(t.l, t.index, t.count + num + a.count, a.rest), true)
    ensures idx != t.index + t.count && idx + num == t.index ==>
      var a := AbsorbLeft(t.l, idx);
      Insert(t, idx, num) == if a.AbsorbError? then Clash else Done(Node(a.rest, idx - a.count, t.count + num + a.count, t.r), true)
  {
  }

  class CartesianTree {
    var totalCount: nat
    var root: Tree
    var arena: Arena
    const blocks: nat

    /** The node budget that `Init` computes for `blocks` memory blocks. */
    function NodeCapacity(): nat { blocks / 2 + 1 }

    function LiveNodes(): nat
      reads this
    {
      |arena.live|
    }

    /** The node memory is sound, and has developed from `before` without a new mapping. */
    ghost predicate Kept(before: Arena)
      reads this
    {
      Sound(arena, NodeCapacity()) && Evolved(before, arena)
    }

    ghost predicate Valid()
      reads this
    {
      && Wf(root) && Units(root) <= Run(0, blocks) && blocks < INDEX_LIMIT
      && totalCount == TotalCount(root) && LiveNodes() == NodeCount(root) <= NodeCapacity()
      && Sound(arena, NodeCapacity())
    }

    constructor (memoryBlockCount: nat)
      requires memoryBlockCount < INDEX_LIMIT
      ensures Valid() && blocks == memoryBlockCount && root == Leaf && arena == Fresh
      ensures NodeCapacity() == memoryBlockCount / 2 + 1
    {
      blocks := memoryBlockCount;
      totalCount, root, arena := 0, Leaf, Fresh;
      FreshSound(memoryBlockCount / 2 + 1);
    }

    /** A later `Init`, with or without `Fini` before it: node memory for another number of
        blocks, while the root, the total and the list of free slots stay. Alone it keeps the
        tree well formed exactly if the runs fit the new number of blocks; after `Fini`,
        exactly if no slot was cut from the memory that `Fini` unmapped. */
    constructor Again(was: CartesianTree, memoryBlockCount: nat)
      requires (was.Valid() || was.Finished()) && memoryBlockCount < INDEX_LIMIT
      ensures blocks == memoryBlockCount && root == was.root && totalCount == was.totalCount && arena == Inited(was.arena)
      ensures was.Valid() ==> (Valid() <==> Units(was.root) <= Run(0, memoryBlockCount))
      ensures was.Finished() ==> root.Leaf? && (Valid() <==> was.arena.bump == 0)
    {
      blocks := memoryBlockCount;
      totalCount, root, arena := was.totalCount, was.root, Inited(was.arena);
      new;
      if was.Valid() {
        InitKeepsSound(was.arena, was.NodeCapacity(), NodeCapacity());
        if Units(root) <= Run(0, blocks) {
          NodeBudget(root, 0, blocks);
        }
      } else {
        ghost var mapped: Arena :| Sound(mapped, was.NodeCapacity()) && was.arena == Finied(mapped);
        FiniInitExactly(mapped, was.NodeCapacity(), NodeCapacity());
      }
    }

    /** The state between `Fini` and `Init`: no nodes, and the node memory unmapped. */
    ghost predicate Finished()
      reads this
    {
      && root.Leaf? && totalCount == 0 && arena.live == {} && arena.current !in arena.mapped
      && exists mapped: Arena :: Sound(mapped, NodeCapacity()) && arena == Finied(mapped)
    }

    /** Gives back all nodes, then unmaps the node memory. */
    method Fini() returns (ghost freed: seq<Tree>)
      requires Valid()
      modifies this
      ensures Finished() && (Touched(arena) <==> Touched(old(arena)))
      ensures OneMapping(old(arena)) ==> OneMapping(arena)
    {
      freed := ClearTree();
      ghost var cleared := arena;
      arena := Finied(arena);
      assert forall c :: InUse(cleared, c) <==> InUse(arena, c);
    }

    /** Takes a slot for a new node. */
    method AllocateNode()
      requires Sound(arena, NodeCapacity()) && LiveNodes() < NodeCapacity()
      modifies this`arena
      ensures Kept(old(arena)) && LiveNodes() == old(LiveNodes()) + 1 && Touched(arena)
    {
      AllocateSound(arena, NodeCapacity());
      arena := Allocated(arena);
    }

    /** Gives back the slot of some node. */
    method DeallocateNode()
      requires Sound(arena, NodeCapacity()) && LiveNodes() > 0
      modifies this`arena
      ensures Kept(old(arena)) && LiveNodes() == old(LiveNodes()) - 1
    {
      assert arena.live != {};
      var c :| c in arena.live;
      FreeSound(arena, c, NodeCapacity());
      arena := Freed(arena, c);
    }

    /** Adds the run idx..idx+num unless one of its blocks is already there. */
    method MergeInsert(idx: nat, num: nat) returns (ok: bool)
      requires Valid() && idx + num <= blocks
      modifies this
      ensures ok == (old(root).Leaf? || (num >= 1 && Units(old(root)) !! Run(idx, idx + num)))
      ensures old(root).Leaf? ==> root == Node(Leaf, idx, num, Leaf)
      ensures old(root).Node? && ok ==> Insert(old(root), idx, num).Done? && root == Insert(old(root), idx, num).t
      ensures !ok ==> root == old(root)
      ensures Units(root) == if ok then Units(old(root)) + Run(idx, idx + num) else Units(old(root))
      ensures Valid() <==> num >= 1 || old(root).Node?
      ensures num >= 1 ==> totalCount == if ok then old(totalCount) + num else old(totalCount)
      ensures Kept(old(arena)) && (if ok then Touched(arena) else arena == old(arena))
    {
      if root.Leaf? {
        AllocateNode();
        root := Node(Leaf, idx, num, Leaf);
        totalCount := Add32(totalCount, num);
        return true;
      }
      if num == 0 {
        return false;
      }
      InsertIff(root, idx, num);
      MissesUnits(root, idx, idx + num);
      ok := MergeInsertInternal(idx, num);
    }

    /** Walks down to the place of the new run, then rotates on the way back. */
    method MergeInsertInternal(idx: nat, num: nat) returns (ok: bool)
      requires Valid() && num >= 1 && idx + num <= blocks
      modifies this
      ensures Valid() && ok == Insert(old(root), idx, num).Done?
      ensures root == if ok then Insert(old(root), idx, num).t else old(root)
      ensures Units(root) == if ok then Units(old(root)) + Run(idx, idx + num) else Units(old(root))
      ensures totalCount == if ok then old(totalCount) + num else old(totalCount)
      ensures Kept(old(arena)) && (!ok ==> arena == old(arena))
    {
      var stack, node;
      ok, stack, node := Descend(idx, num);
      if ok {
        UnwindNodeCount(stack, node, true);
        InsertKeepsValid(root, idx, num, blocks);
        NoWrap(TotalCount(root), num);
        var endIdx := Sum32(idx, num);
        Rise(stack, node, idx, endIdx, Insert(root, idx, num));
      }
    }

    static lemma {:induction false} NoWrap(a: nat, b: nat)
      requires a + b < INDEX_LIMIT
      ensures Add32(a, b) == a + b
    {
    }

    /** The first loop: finds the node that the run touches, or the empty slot for it. */
    method Descend(idx: nat, num: nat) returns (ok: bool, stack: seq<Frame>, node: Tree)
      requires Valid() && num >= 1 && idx + num <= blocks
      modifies this`totalCount, this`arena
      ensures ok == Insert(root, idx, num).Done?
      ensures ok ==> node.Node? && Insert(root, idx, num) == Unwind(stack, Done(node, true))
      ensures ok ==> Sides(stack, idx, idx + num)
      ensures ok ==> totalCount == Add32(old(totalCount), num)
      ensures ok ==> LiveNodes() == NodeCount(Plug(stack, node)) <= NodeCapacity()
      ensures Kept(old(arena)) && (!ok ==> totalCount == old(totalCount) && arena == old(arena))
    {
      node, stack := root, [];
      var endIdx := Add32(idx, num);
      while true
        invariant totalCount == old(totalCount) && arena == old(arena)
        invariant Plug(stack, node) == root
        invariant Insert(root, idx, num) == Unwind(stack, Insert(node, idx, num))
        invariant Sides(stack, idx, endIdx)
        decreases node
      {
        if node.Leaf? {
          node := NewNode(stack, idx, num);
          return true, stack, node;
        }
        var side := Look(stack, node, idx, num);
        match side
        case Grown(merged) =>
          return true, stack, merged;
        case Blocked =>
          UnwindClash(stack);
          return false, stack, node;
        case Down(frame, child) =>
          PushStep(stack, frame, child, Insert(child, idx, num));
          stack, node := stack + [frame], child;
      }
    }

    /** One round of the descent at a node: the run grows it, or goes on below it, or
        collides with a run. */
    method Look(ghost stack: seq<Frame>, node: Tree, idx: nat, num: nat) returns (side: Side)
      requires Valid() && node.Node? && Plug(stack, node) == root
      requires num >= 1 && idx + num <= blocks
      modifies this`totalCount, this`arena
      ensures side.Blocked? ==> Insert(node, idx, num) == Clash
      ensures side.Down? ==> Descends(side, node, idx, num)
      ensures Kept(old(arena)) && (!side.Grown? ==> totalCount == old(totalCount) && arena == old(arena))
      ensures side.Grown? ==>
        && side.merged.Node? && Insert(node, idx, num) == Done(side.merged, true)
        && totalCount == Add32(old(totalCount), num)
        && LiveNodes() == NodeCount(Plug(stack, side.merged)) <= NodeCapacity()
        && Unwind(stack, Done(side.merged, true)).Done?
    {
      InPlug(stack, node);
      WithinBlocks(node, blocks);
      var result, merged := MergeAt(node, idx, num);
      if result == MergeSuccess {
        UnwindNodeCount(stack, merged, true);
        PlugNodeCount(stack, node, merged);
        return Grown(merged);
      } else if result == MergeError {
        return Blocked;
      }
      side := Turn(node, idx, Add32(idx, num), num);
    }

    /** Which way on from a node that the run does not touch. */
    static method Turn(node: Tree, idx: nat, endIdx: nat, num: nat) returns (side: Side)
      requires node.Node? && endIdx == idx + num && idx != node.index + node.count && endIdx != node.index
      requires node.index + node.count < INDEX_LIMIT
      ensures side.Blocked? ==> Insert(node, idx, num) == Clash
      ensures !side.Grown? && (side.Down? ==> Descends(side, node, idx, num))
    {
      if endIdx < node.index {
        return Down(WentLeft(node.index, node.count, node.r), node.l);
      } else if idx > Add32(node.index, node.count) {
        return Down(WentRight(node.l, node.index, node.count), node.r);
      }
      return Blocked;
    }

    /** A fresh node for an empty slot; the budget of nodes always has one left. */
    method NewNode(ghost stack: seq<Frame>, idx: nat, num: nat) returns (node: Tree)
      requires Valid() && num >= 1 && idx + num <= blocks
      requires Plug(stack, Leaf) == root && Insert(root, idx, num) == Unwind(stack, Insert(Leaf, idx, num))
      modifies this`totalCount, this`arena
      ensures node == Node(Leaf, idx, num, Leaf) && Insert(root, idx, num) == Unwind(stack, Done(node, true))
      ensures Insert(root, idx, num).Done?
      ensures totalCount == Add32(old(totalCount), num)
      ensures LiveNodes() == NodeCount(Plug(stack, node)) <= NodeCapacity() && Kept(old(arena))
    {
      node := Node(Leaf, idx, num, Leaf);
      UnwindNodeCount(stack, node, true);
      PlugNodeCount(stack, Leaf, node);
      assert LiveNodes() + 1 == NodeCount(Plug(stack, node)) <= NodeCapacity() by {
        GrownBudget(root, idx, num, blocks);
      }
      AllocateNode();
      totalCount := Add32(totalCount, num);
    }

    /** The second loop: lifts the grown node while it is larger than its parent. */
    method Rise(path: seq<Frame>, grown: Tree, idx: nat, endIdx: nat, ghost goal: Ins)
      requires grown.Node? && Sides(path, idx, endIdx)
      requires goal == Unwind(path, Done(grown, true)) && goal.Done?
      modifies this`root
      ensures root == goal.t
    {
      var node, stack := grown, path;
      while stack != []
        invariant node.Node? && Sides(stack, idx, endIdx)
        invariant goal == Unwind(stack, Done(node, true))
        decreases |stack|
      {
        var f := stack[|stack| - 1];
        stack := stack[..|stack| - 1];
        if f.WentLeft? && endIdx < f.index {
          if f.count >= node.count {
            node := Wrap(f, node);
            break;
          }
        } else if f.WentRight? && idx > f.index + f.count {
          if f.count >= node.count {
            node := Wrap(f, node);
            break;
          }
        } else {
          assert false;
        }
        node := RotateUp(f, node);
      }
      root := Plug(stack, node);
      UnwindSettled(stack, node);
    }

    /** Merges the run into `node` if the two touch, absorbing a neighbour on the far side. */
    method MergeAt(node: Tree, idx: nat, num: nat) returns (result: MergeResult, merged: Tree)
      requires Wf(node) && node.Node? && Units(node) <= Run(0, blocks) && blocks < INDEX_LIMIT
      requires num >= 1 && idx + num <= blocks && NodeCount(node) <= LiveNodes() && Sound(arena, NodeCapacity())
      modifies this`totalCount, this`arena
      ensures result == MergeMiss <==> idx != node.index + node.count && idx + num != node.index
      ensures result == MergeError ==> Insert(node, idx, num) == Clash
      ensures result == MergeSuccess ==> Insert(node, idx, num) == Done(merged, true)
      ensures totalCount == if result == MergeSuccess then Add32(old(totalCount), num) else old(totalCount)
      ensures result == MergeSuccess ==> LiveNodes() - NodeCount(merged) == old(LiveNodes()) - NodeCount(node)
      ensures LiveNodes() <= old(LiveNodes()) && Kept(old(arena)) && (result != MergeSuccess ==> arena == old(arena))
    {
      WithinBlocks(node, blocks);
      var endIdx := Sum32(idx, num);
      var nodeEnd := Sum32(node.index, node.count);
      merged := node;
      InsertAtEnds(node, idx, num);
      if idx == nodeEnd {
        result, merged := MergeToRight(node, endIdx, num);
      } else if endIdx == node.index {
        result, merged := MergeToLeft(node, idx, num);
      } else {
        result := MergeMiss;
      }
    }

    method MergeToRight(node: Tree, endIdx: nat, num: nat) returns (result: MergeResult, merged: Tree)
      requires Wf(node) && node.Node? && Units(node) <= Run(0, blocks) && blocks < INDEX_LIMIT
      requires num >= 1 && endIdx == node.index + node.count + num <= blocks && NodeCount(node) <= LiveNodes() && Sound(arena, NodeCapacity())
      modifies this`totalCount, this`arena
      ensures result != MergeMiss
      ensures var a := AbsorbRight(node.r, endIdx);
        && (result == MergeError <==> a.AbsorbError?)
        && (a.Absorbed? ==> merged == Node(node.l, node.index, node.count + num + a.count, a.rest))
      ensures totalCount == if result == MergeSuccess then Add32(old(totalCount), num) else old(totalCount)
      ensures result == MergeSuccess ==> LiveNodes() - NodeCount(merged) == old(LiveNodes()) - NodeCount(node)
      ensures LiveNodes() <= old(LiveNodes()) && Kept(old(arena)) && (result != MergeSuccess ==> arena == old(arena))
    {
      var clash, path, nearest := FirstOnRight(node.r, endIdx);
      if clash {
        return MergeError, node;
      }
      WithinBlocks(node, blocks);
      var count := Sum32(node.count, num);
      var right := node.r;
      totalCount := Add32(totalCount, num);
      if nearest.Node? {
        RunInside(node.r, path, nearest, blocks);
        count := Sum32(count, nearest.count);
        right := Plug(path, nearest.r);
        PlugNodeCount(path, nearest, nearest.r);
        DeallocateNode();
      }
      return MergeSuccess, Node(node.l, node.index, count, right);
    }

    /** A 32-bit sum that does not wrap. */
    static method Sum32(a: nat, b: nat) returns (r: nat)
      requires a + b < INDEX_LIMIT
      ensures r == a + b
    {
      return Add32(a, b);
    }

    /** The leftmost node of the right subtree, as far as it can matter: `nearest` is
        either that node, starting at `endIdx`, or the empty slot before all others. */
    static method FirstOnRight(t: Tree, endIdx: nat) returns (clash: bool, path: seq<Frame>, nearest: Tree)
      ensures clash <==> AbsorbRight(t, endIdx).AbsorbError?
      ensures !clash ==> Plug(path, nearest) == t
      ensures !clash && nearest.Leaf? ==> AbsorbRight(t, endIdx) == Absorbed(0, t)
      ensures !clash && nearest.Node? ==>
        nearest.l.Leaf? && nearest.index == endIdx && AbsorbRight(t, endIdx) == Absorbed(nearest.count, Plug(path, nearest.r))
    {
      nearest, path := t, [];
      while nearest.Node?
        invariant Plug(path, nearest) == t
        invariant AbsorbRight(t, endIdx) == PlugAbsorb(path, AbsorbRight(nearest, endIdx))
        decreases nearest
      {
        if nearest.index == endIdx {
          return nearest.l.Node?, path, nearest;
        } else if nearest.index < endIdx {
          return true, path, nearest;
        }
        PushAbsorb(path, WentLeft(nearest.index, nearest.count, nearest.r), nearest.l, AbsorbRight(nearest.l, endIdx));
        path := path + [WentLeft(nearest.index, nearest.count, nearest.r)];
        nearest := nearest.l;
      }
      return false, path, nearest;
    }

    method MergeToLeft(node: Tree, startIdx: nat, num: nat) returns (result: MergeResult, merged: Tree)
      requires Wf(node) && node.Node? && Units(node) <= Run(0, blocks) && blocks < INDEX_LIMIT
      requires num >= 1 && startIdx + num == node.index && NodeCount(node) <= LiveNodes() && Sound(arena, NodeCapacity())
      modifies this`totalCount, this`arena
      ensures result != MergeMiss
      ensures var a := AbsorbLeft(node.l, startIdx);
        && (result == MergeError <==> a.AbsorbError?)
        && (a.Absorbed? ==> merged == Node(a.rest, startIdx - a.count, node.count + num + a.count, node.r))
      ensures totalCount == if result == MergeSuccess then Add32(old(totalCount), num) else old(totalCount)
      ensures result == MergeSuccess ==> LiveNodes() - NodeCount(merged) == old(LiveNodes()) - NodeCount(node)
      ensures LiveNodes() <= old(LiveNodes()) && Kept(old(arena)) && (result != MergeSuccess ==> arena == old(arena))
    {
      var clash, path, nearest := LastOnLeft(node.l, startIdx, blocks);
      if clash {
        return MergeError, node;
      }
      WithinBlocks(node, blocks);
      var index, left := startIdx, node.l;
      var count := Sum32(node.count, num);
      totalCount := Add32(totalCount, num);
      if nearest.Node? {
        left := Plug(path, nearest.l);
        index := nearest.index;
        count := Sum32(count, nearest.count);
        PlugNodeCount(path, nearest, nearest.l);
        DeallocateNode();
      }
      return MergeSuccess, Node(left, index, count, node.r);
    }

    /** The mirror image: the rightmost node of the left subtree if it ends at `startIdx`. */
    static method LastOnLeft(t: Tree, startIdx: nat, ghost blocks: nat) returns (clash: bool, path: seq<Frame>, nearest: Tree)
      requires Wf(t) && Units(t) <= Run(0, blocks) && blocks < INDEX_LIMIT
      ensures clash <==> AbsorbLeft(t, startIdx).AbsorbError?
      ensures !clash ==> Plug(path, nearest) == t
      ensures !clash && nearest.Leaf? ==> AbsorbLeft(t, startIdx) == Absorbed(0, t)
      ensures !clash && nearest.Node? ==>
        && nearest.r.Leaf? && nearest.index + nearest.count == startIdx
        && AbsorbLeft(t, startIdx) == Absorbed(nearest.count, Plug(path, nearest.l))
    {
      nearest, path := t, [];
      while nearest.Node?
        invariant Plug(path, nearest) == t
        invariant AbsorbLeft(t, startIdx) == PlugAbsorb(path, AbsorbLeft(nearest, startIdx))
        decreases nearest
      {
        RunInside(t, path, nearest, blocks);
        var nearestEnd := Add32(nearest.index, nearest.count);
        if nearestEnd == startIdx {
          return nearest.r.Node?, path, nearest;
        } else if nearestEnd > startIdx {
          return true, path, nearest;
        }
        PushAbsorb(path, WentRight(nearest.l, nearest.index, nearest.count), nearest.r, AbsorbLeft(nearest.r, startIdx));
        path := path + [WentRight(nearest.l, nearest.index, nearest.count)];
        nearest := nearest.r;
      }
      return false, path, nearest;
    }

    // ---------- taking units ----------

    /** Hands out the low end of some run of at least `num` blocks. */
    method TakeUnits(num: nat) returns (ok: bool, idx: nat)
      requires Valid() || root.Leaf?
      modifies this
      ensures old(Valid()) ==> Valid()
      ensures ok <==> num >= 1 && exists n :: n in Nodes(old(root)) && n.count >= num
      ensures !ok ==> root == old(root) && totalCount == old(totalCount) && arena == old(arena)
      ensures Evolved(old(arena), arena) && (ok ==> old(Valid()) && Touched(old(arena)))
      ensures ok ==> Picked(old(root), num, idx)
      ensures ok ==> exists k: nat ::
        && LastFit(LevelOrder([old(root)]), num, k)
        && idx == LevelOrder([old(root)])[k].index
      ensures ok ==> RunTaken(old(root), idx, num, root) && totalCount == old(totalCount) - num
    {
      RootIsMax(root);
      if root.Leaf? || num == 0 {
        return false, 0;
      }
      ok, idx := TakeUnitsImpl(num);
    }

    method TakeUnitsImpl(num: nat) returns (ok: bool, idx: nat)
      requires Valid() && root.Node? && num >= 1
      modifies this
      ensures Valid() && (ok <==> num <= old(root).count)
      ensures !ok ==> root == old(root) && totalCount == old(totalCount) && arena == old(arena)
      ensures Evolved(old(arena), arena)
      ensures ok ==> Picked(old(root), num, idx)
      ensures ok ==> exists k: nat ::
        && LastFit(LevelOrder([old(root)]), num, k)
        && idx == LevelOrder([old(root)])[k].index
      ensures ok ==> RunTaken(old(root), idx, num, root) && totalCount == old(totalCount) - num
    {
      if root.count < num {
        return false, 0;
      }
      var slot, k := LastFitting(root, num);
      StopIsPicked(root, num, k);
      idx := slot.node.index;
      TakeFrom(slot, num);
      return true, idx;
    }

    /** Walks the tree level by level, right child first, for as long as the runs are
        large enough, and stops at the last one reached. */
    static method LastFitting(t: Tree, num: nat) returns (slot: Slot, ghost k: nat)
      requires t.Node? && num <= t.count
      ensures slot.In(t) && LastFit(LevelOrder([t]), num, k) && slot.node == LevelOrder([t])[k]
    {
      assert Subtrees([Slot([], t)]) == [t];
      var queue: seq<Slot>;
      slot, queue := Next([Slot([], t)], t);
      ghost var done := [slot.node];
      while queue != []
        invariant slot.In(t) && AllIn(queue, t)
        invariant done != [] && done[|done| - 1] == slot.node && Fitting(done, num)
        invariant LevelOrder([t]) == done + LevelOrder(Subtrees(queue))
        decreases Weight(Subtrees(queue))
      {
        var next, rest := Next(queue, t);
        WalkStep(done, next.node, LevelOrder(Subtrees(rest)), num);
        if next.node.count < num {
          return slot, |done| - 1;
        }
        slot, queue, done := next, rest, done + [next.node];
      }
      k := |done| - 1;
    }

    /** One step of the level iterator over the slots of `t`. */
    static method Next(queue: seq<Slot>, ghost t: Tree) returns (front: Slot, rest: seq<Slot>)
      requires queue != [] && AllIn(queue, t)
      ensures front == queue[0] && front.In(t) && AllIn(rest, t)
      ensures LevelOrder(Subtrees(queue)) == [front.node] + LevelOrder(Subtrees(rest))
      ensures Weight(Subtrees(rest)) < Weight(Subtrees(queue))
    {
      front := queue[0];
      var kids := KidSlots(front, t);
      rest := queue[1..] + kids;
      AllInConcat(queue[1..], kids, t);
      Served(queue, rest, kids);
    }

    /** The children of a slot, right before left. */
    static method KidSlots(slot: Slot, ghost t: Tree) returns (kids: seq<Slot>)
      requires slot.In(t)
      ensures AllIn(kids, t) && Subtrees(kids) == Kids(slot.node)
    {
      kids := [];
      ChildrenIn(slot, t);
      if slot.node.r.Node? {
        OneMoreSlot(kids, slot.RightSlot(), t);
        kids := kids + [slot.RightSlot()];
      }
      if slot.node.l.Node? {
        OneMoreSlot(kids, slot.LeftSlot(), t);
        kids := kids + [slot.LeftSlot()];
      }
    }

    /** Shrinks the run of a slot from below; the node then sinks to where heap order wants
        it, or out of the tree when nothing is left of it. */
    method TakeFrom(slot: Slot, num: nat)
      requires Valid() && slot.In(root) && 1 <= num <= slot.node.count
      modifies this
      ensures Valid() && root == Plug(slot.path, Cut(slot.node, num))
      ensures RunTaken(old(root), slot.node.index, num, root)
      ensures totalCount == old(totalCount) - num && Evolved(old(arena), arena)
    {
      TakenCorrect(slot, num, blocks);
      var start := Sum32(slot.node.index, num);
      var node := slot.node.(index := start, count := slot.node.count - num);
      var aborts := DecTotalCount(num);
      assert !aborts;
      if node.count == 0 {
        RemoveZeroNode(Slot(slot.path, node));
      } else {
        MaintainHeapPropertyForNonZeroNode(Slot(slot.path, node));
      }
    }

    /** Refuses to go below zero; the callers' abort on that is unreachable. */
    method DecTotalCount(cnt: nat) returns (aborts: bool)
      modifies this`totalCount
      ensures aborts <==> old(totalCount) < cnt
      ensures totalCount == if aborts then old(totalCount) else old(totalCount) - cnt
    {
      if totalCount < cnt {
        return true;
      }
      totalCount := totalCount - cnt;
      return false;
    }

    method MaintainHeapPropertyForNonZeroNode(slot: Slot)
      requires slot.node.Node?
      modifies this`root
      ensures root == Plug(slot.path, Lower(slot.node.l, slot.node.index, slot.node.count, slot.node.r))
    {
      var current := slot;
      while !Proper(current.node)
        invariant current.node.Node?
        invariant Plug(current.path, LowerSlot(current)) == Plug(slot.path, LowerSlot(slot))
        decreases NodeCount(current.node)
      {
        current := LowerImproperNodeOnce(current);
      }
      root := Plug(current.path, current.node);
    }

    /** Lets an emptied node sink to a leaf position and unlinks it there. */
    method RemoveZeroNode(slot: Slot)
      requires slot.node.Node? && slot.node.count == 0 && LiveNodes() >= 1 && Sound(arena, NodeCapacity())
      modifies this`root, this`arena
      ensures root == Plug(slot.path, Join(slot.node.l, slot.node.r))
      ensures LiveNodes() == old(LiveNodes()) - 1 && Kept(old(arena))
    {
      var current := slot;
      while current.node.l.Node? || current.node.r.Node?
        invariant current.node.Node? && root == old(root) && arena == old(arena)
        invariant Plug(current.path, JoinSlot(current)) == Plug(slot.path, JoinSlot(slot))
        decreases NodeCount(current.node)
      {
        current := LowerImproperNodeOnce(current);
      }
      DeallocateNode();
      root := Plug(current.path, Leaf);
    }

    /** One rotation below the larger child, if there is one; returns the slot where the node
        now hangs. */
    static method LowerImproperNodeOnce(slot: Slot) returns (lowered: Slot)
      requires slot.node.Node?
      ensures slot.node.l.Leaf? && slot.node.r.Leaf? ==> lowered == slot
      ensures lowered.node.Node?
      ensures slot.node.l.Node? || slot.node.r.Node? ==> NodeCount(lowered.node) < NodeCount(slot.node)
      ensures lowered.node.index == slot.node.index && lowered.node.count == slot.node.count
      ensures Plug(lowered.path, JoinSlot(lowered)) == Plug(slot.path, JoinSlot(slot))
      ensures !Proper(slot.node) ==> Plug(lowered.path, LowerSlot(lowered)) == Plug(slot.path, LowerSlot(slot))
    {
      var node := slot.node;
      var f;
      if node.l.Node? && !(node.r.Node? && node.r.count >= node.l.count) {
        f := WentRight(node.l.l, node.l.index, node.l.count);
        lowered := Slot(slot.path + [f], node.(l := node.l.r));
      } else if node.r.Leaf? {
        return slot;
      } else {
        f := WentLeft(node.r.index, node.r.count, node.r.r);
        lowered := Slot(slot.path + [f], node.(r := node.r.l));
      }
      PlugPush(slot.path, f, JoinSlot(lowered));
      PlugPush(slot.path, f, LowerSlot(lowered));
    }

    // ---------- best fit ----------

    /** Hands out the low end of the smallest run that is large enough, the lowest one
        among equals. */
    method TakeUnitsLowAddr(num: nat) returns (ok: bool, idx: nat)
      requires Valid()
      modifies this
      ensures Valid()
      ensures ok <==> num >= 1 && exists n :: n in Nodes(old(root)) && n.count >= num
      ensures !ok ==> root == old(root) && totalCount == old(totalCount)
      ensures ok ==> exists n :: Best(old(root), num, n) && n.index == idx
      ensures ok ==> exists n ::
        && n in Nodes(old(root)) && n.index == idx && n.count >= num
        && forall m :: m in Nodes(old(root)) && m.count >= num ==> n.count < m.count || (n.count == m.count && n.index <= m.index)
      ensures ok ==> RunTaken(old(root), idx, num, root) && totalCount == old(totalCount) - num
    {
      if root.Leaf? || num == 0 {
        return false, 0;
      }
      var best := FindBestFitLowAddrPtr(num);
      match best
      case None =>
        return false, 0;
      case Some(slot) =>
        ghost var n := Run1(slot.node);
        assert Best(root, num, n) && n.index == slot.node.index;
        assert forall m :: m in Nodes(root) && m.count >= num ==> NoWorse(n, m);
        idx := slot.node.index;
        TakeFrom(slot, num);
        return true, idx;
    }

    /** Depth-first search that skips subtrees with too small a root and, once an exact fit
        is known, everything to the right. */
    method FindBestFitLowAddrPtr(num: nat) returns (best: Option<Slot>)
      requires Valid() && root.Node?
      ensures best.Some? ==> best.value.In(root) && Best(root, num, Run1(best.value.node))
      ensures best.None? ==> forall n :: n in Nodes(root) ==> n.count < num
    {
      best := None;
      var stack: seq<Slot> := [];
      if root.count >= num {
        stack := [Slot([], root)];
      }
      StartSearch(root, num, Subtrees(stack));
      while stack != []
        invariant AllIn(stack, root)
        invariant best.Some? ==> best.value.In(root)
        invariant Searching(root, num, RunOf(best), Subtrees(stack))
        decreases Weight(Subtrees(stack))
      {
        best, stack := VisitTop(best, stack, num, root);
      }
      FinishSearch(root, num, RunOf(best), Subtrees(stack));
    }

    /** Looks at the slot on top of the stack and replaces it by its promising children. */
    static method VisitTop(best: Option<Slot>, stack: seq<Slot>, num: nat, ghost t: Tree)
      returns (best': Option<Slot>, stack': seq<Slot>)
      requires stack != [] && AllIn(stack, t) && (best.Some? ==> best.value.In(t))
      requires Searching(t, num, RunOf(best), Subtrees(stack))
      ensures AllIn(stack', t) && (best'.Some? ==> best'.value.In(t))
      ensures Searching(t, num, RunOf(best'), Subtrees(stack'))
      ensures Weight(Subtrees(stack')) < Weight(Subtrees(stack))
    {
      var current, below := stack[|stack| - 1], stack[..|stack| - 1];
      AllInConcat(below, [current], t);
      assert stack == below + [current] && Subtrees([current]) == [current.node];
      SubtreesConcat(below, [current]);
      PlugNodes(current.path, current.node);
      SearchStep(t, num, RunOf(best), Subtrees(below), current.node);
      best' := best;
      if best.None? || current.node.count < best.value.node.count ||
         (current.node.count == best.value.node.count && current.node.index < best.value.node.index) {
        best' := Some(current);
      }
      assert RunOf(best') == Update(RunOf(best), Run1(current.node));
      stack' := PushChildren(below, current, num, best'.value.node.count == num, t);
      PushedWeight(Subtrees(below), current.node, num, best'.value.node.count == num);
    }

    /** The children of `current` that are large enough, left one on top. */
    static method PushChildren(below: seq<Slot>, current: Slot, num: nat, exact: bool, ghost t: Tree) returns (stack: seq<Slot>)
      requires current.In(t) && AllIn(below, t)
      ensures AllIn(stack, t) && Subtrees(stack) == Subtrees(below) + Pushed(current.node, num, exact)
    {
      stack := below;
      ChildrenIn(current, t);
      if !exact && current.node.r.Node? && current.node.r.count >= num {
        OneMoreSlot(stack, current.RightSlot(), t);
        stack := stack + [current.RightSlot()];
      }
      if current.node.l.Node? && current.node.l.count >= num {
        OneMoreSlot(stack, current.LeftSlot(), t);
        stack := stack + [current.LeftSlot()];
      }
    }

    // ---------- whole-tree operations ----------

    /** Drops the root, which is a largest run. */
    method ReleaseRootNode()
      requires Valid() && root.Node?
      modifies this
      ensures Valid() && root == Join(old(root).l, old(root).r)
      ensures Nodes(root) == Nodes(old(root)) - {Run1(old(root))}
      ensures RunTaken(old(root), old(root).index, old(root).count, root)
      ensures totalCount == old(totalCount) - old(root).count
    {
      TakenCorrect(Slot([], root), root.count, blocks);
      DroppedRoot(root);
      var aborts := DecTotalCount(root.count);
      assert !aborts;
      RemoveZeroNode(Slot([], root.(count := 0)));
    }

    /** Gives back every node, each once, and empties the tree. */
    method ClearTree() returns (ghost freed: seq<Tree>)
      requires Valid()
      modifies this
      ensures Valid() && root == Leaf && totalCount == 0 && arena.live == {} && Evolved(old(arena), arena)
      ensures arena == old(arena) || Touched(old(arena))
      ensures forall n :: RunBag(freed)[n] == if n in Nodes(old(root)) then 1 else 0
    {
      freed := [];
      var queue := if root.Node? then [Slot([], root)] else [];
      StartWalk(root);
      while queue != []
        invariant root == old(root) && AllIn(queue, root)
        invariant LevelOrder(Roots(root)) == freed + LevelOrder(Subtrees(queue))
        invariant LiveNodes() == |LevelOrder(Subtrees(queue))| && Kept(old(arena))
        invariant arena == old(arena) || Touched(old(arena))
        decreases Weight(Subtrees(queue))
      {
        var node, rest := Next(queue, root);
        ghost var before := arena;
        assert arena.live != {};
        DeallocateNode();
        EvolvedOn(old(arena), before, arena);
        VisitNext(freed, node.node, LevelOrder(Subtrees(rest)));
        queue, freed := rest, freed + [node.node];
      }
      EndWalk(root, freed);
      root, totalCount := Leaf, 0;
    }

    /** Counts by walking the level iterator to its end. */
    method GetNodeCount() returns (nodeCount: nat, ghost visited: seq<Tree>)
      requires Valid()
      ensures nodeCount == |visited| == |InOrder(root)|
      ensures forall n :: RunBag(visited)[n] == if n in Nodes(root) then 1 else 0
    {
      InOrderUnits(root);
      nodeCount, visited := 0, [];
      var queue := if root.Node? then [Slot([], root)] else [];
      StartWalk(root);
      while queue != []
        invariant AllIn(queue, root)
        invariant LevelOrder(Roots(root)) == visited + LevelOrder(Subtrees(queue))
        invariant nodeCount == |visited|
        decreases Weight(Subtrees(queue))
      {
        var node, rest := Next(queue, root);
        VisitNext(visited, node.node, LevelOrder(Subtrees(rest)));
        queue, nodeCount, visited := rest, nodeCount + 1, visited + [node.node];
      }
      EndWalk(root, visited);
    }
  }
}
