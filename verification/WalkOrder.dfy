/** The order of the level iterator, and the run that `TakeUnits` takes, said by depth and
    index alone. */
module WalkOrder {
  import opened Intervals
  import opened Treap
  import opened TreeSlots
  import opened BestFit

  /** How many steps a search for an index takes from the root. */
  function DepthOf(t: Tree, index: nat): nat {
    if t.Leaf? || index == t.index then 0
    else if index < t.index then 1 + DepthOf(t.l, index)
    else 1 + DepthOf(t.r, index)
  }

  /** Less deep, or as deep and farther to the right. */
  predicate Earlier(t: Tree, i: nat, j: nat) {
    DepthOf(t, i) < DepthOf(t, j) || (DepthOf(t, i) == DepthOf(t, j) && i > j)
  }

  /** The run at `idx` is the last of the leading runs of at least `num` blocks: it and all
      earlier ones are large enough, and no later one can be reached past large enough runs. */
  ghost predicate Picked(t: Tree, num: nat, idx: nat) {
    && (exists n :: n in Nodes(t) && n.index == idx && n.count >= num)
    && (forall m :: m in Nodes(t) && Earlier(t, m.index, idx) ==> m.count >= num)
    && forall m :: m in Nodes(t) && Earlier(t, idx, m.index) ==> SmallBetween(t, num, idx, m.index)
  }

  ghost predicate SmallBetween(t: Tree, num: nat, idx: nat, upTo: nat) {
    exists m :: m in Nodes(t) && m.count < num && Earlier(t, idx, m.index) && (m.index == upTo || Earlier(t, m.index, upTo))
  }

  // ---------- the queue of the walk ----------

  /** `s` hangs in `t` at depth `d`. */
  ghost predicate Hangs(t: Tree, s: Tree, d: nat) {
    && s.Node? && Ordered(s)
    && forall n :: n in Nodes(s) ==> DepthOf(t, n.index) == d + DepthOf(s, n.index)
  }

  ghost predicate AllHang(t: Tree, q: seq<Tree>, d: nat) { forall i :: 0 <= i < |q| ==> Hangs(t, q[i], d) }

  /** All of `a` lies to the right of all of `b`. */
  ghost predicate RightOf(a: Tree, b: Tree) {
    forall m, n :: m in Nodes(a) && n in Nodes(b) ==> m.index > n.index
  }

  ghost predicate Leftward(q: seq<Tree>) { forall i, j :: 0 <= i < j < |q| ==> RightOf(q[i], q[j]) }

  lemma {:induction false} LeftHangs(t: Tree, s: Tree, d: nat)
    requires Hangs(t, s, d)
    ensures s.l.Node? ==> Hangs(t, s.l, d + 1)
  {
    NodesBelow(s.l, s.index);
    forall n | n in Nodes(s.l)
      ensures DepthOf(t, n.index) == d + 1 + DepthOf(s.l, n.index)
    {
      assert n in Nodes(s) && n.index < s.index;
    }
  }

  lemma {:induction false} RightHangs(t: Tree, s: Tree, d: nat)
    requires Hangs(t, s, d)
    ensures s.r.Node? ==> Hangs(t, s.r, d + 1)
  {
    NodesAbove(s.r, s.index + s.count);
    forall n | n in Nodes(s.r)
      ensures DepthOf(t, n.index) == d + 1 + DepthOf(s.r, n.index)
    {
      assert n in Nodes(s) && n.index > s.index;
    }
  }

  lemma {:induction false} KidsApart(s: Tree)
    requires Ordered(s) && s.Node?
    ensures RightOf(s.r, s.l)
  {
    NodesBelow(s.l, s.index);
    NodesAbove(s.r, s.index + s.count);
  }

  lemma {:induction false} KidsHang(t: Tree, s: Tree, d: nat)
    requires Hangs(t, s, d)
    ensures AllHang(t, Kids(s), d + 1) && Leftward(Kids(s))
    ensures forall i :: 0 <= i < |Kids(s)| ==> Nodes(Kids(s)[i]) <= Nodes(s)
  {
    LeftHangs(t, s, d);
    RightHangs(t, s, d);
    KidsApart(s);
  }

  ghost predicate InQueue(q: seq<Tree>, n: Interval) { exists i :: 0 <= i < |q| && n in Nodes(q[i]) }

  lemma {:induction false} BagNodes(t: Tree, n: Interval)
    ensures n in TreeBag(t) <==> n in Nodes(t)
  {
    if t.Node? {
      BagNodes(t.l, n);
      BagNodes(t.r, n);
    }
  }

  lemma {:induction false} QueueNodes(q: seq<Tree>, n: Interval)
    ensures n in QueueBag(q) <==> InQueue(q, n)
  {
    if q != [] {
      BagNodes(q[0], n);
      QueueNodes(q[1..], n);
      if InQueue(q[1..], n) {
        var i :| 0 <= i < |q[1..]| && n in Nodes(q[1..][i]);
        assert n in Nodes(q[i + 1]);
      }
      if InQueue(q, n) && n !in Nodes(q[0]) {
        var i :| 0 <= i < |q| && n in Nodes(q[i]);
        assert n in Nodes(q[1..][i - 1]);
      }
    }
  }

  lemma {:induction false} ListedInBag(order: seq<Tree>, j: nat)
    requires j < |order| && order[j].Node?
    ensures Interval(order[j].index, order[j].count) in RunBag(order)
  {
    if j > 0 {
      ListedInBag(order[1..], j - 1);
    }
  }

  lemma {:induction false} AllNodes(q: seq<Tree>, j: nat)
    requires forall t :: t in q ==> t.Node?
    requires j < |LevelOrder(q)|
    ensures LevelOrder(q)[j].Node?
    decreases Weight(q)
  {
    if j > 0 {
      ServedWeight(q[0], q[1..]);
      assert [q[0]] + q[1..] == q;
      AllNodes(q[1..] + Kids(q[0]), j - 1);
    }
  }

  /** Every place of the level order holds a node of the queued subtrees. */
  lemma {:induction false} ListedInQueue(q: seq<Tree>, j: nat)
    requires forall t :: t in q ==> t.Node?
    requires j < |LevelOrder(q)|
    ensures LevelOrder(q)[j].Node? && InQueue(q, Run1(LevelOrder(q)[j]))
  {
    AllNodes(q, j);
    ListedInBag(LevelOrder(q), j);
    LevelOrderComplete(q);
    QueueNodes(q, Run1(LevelOrder(q)[j]));
  }

  /** The front of the queue comes before all that is left in it. */
  lemma {:induction false} FrontFirst(t: Tree, front: seq<Tree>, back: seq<Tree>, d: nat, n: Interval)
    requires front != [] && AllHang(t, front, d) && AllHang(t, back, d + 1) && Leftward(front)
    requires InQueue(front[1..] + back + Kids(front[0]), n)
    ensures Earlier(t, front[0].index, n.index)
  {
    var f := front[0];
    var q := front[1..] + back + Kids(f);
    KidsHang(t, f, d);
    assert Run1(f) in Nodes(f);
    var i :| 0 <= i < |q| && n in Nodes(q[i]);
    if i < |front| - 1 {
      assert q[i] == front[i + 1] && RightOf(front[0], front[i + 1]);
    } else if i < |front| - 1 + |back| {
      assert q[i] == back[i - (|front| - 1)];
    } else {
      assert q[i] == Kids(f)[i - (|front| - 1) - |back|];
    }
  }

  ghost predicate AllRightOf(a: seq<Tree>, b: seq<Tree>) {
    forall i, j :: 0 <= i < |a| && 0 <= j < |b| ==> RightOf(a[i], b[j])
  }

  lemma {:induction false} LeftwardConcat(a: seq<Tree>, b: seq<Tree>)
    ensures Leftward(a + b) <==> Leftward(a) && Leftward(b) && AllRightOf(a, b)
  {
    var c := a + b;
    if Leftward(c) {
      forall i, j | 0 <= i < j < |a|
        ensures RightOf(a[i], a[j])
      {
        assert a[i] == c[i] && a[j] == c[j];
      }
      forall i, j | 0 <= i < j < |b|
        ensures RightOf(b[i], b[j])
      {
        assert b[i] == c[|a| + i] && b[j] == c[|a| + j];
      }
      forall i, j | 0 <= i < |a| && 0 <= j < |b|
        ensures RightOf(a[i], b[j])
      {
        assert a[i] == c[i] && b[j] == c[|a| + j];
      }
    }
  }

  /** The subtrees of `f` lie where `f` lies. */
  lemma {:induction false} InPlaceOf(a: seq<Tree>, f: Tree, kids: seq<Tree>, b: seq<Tree>)
    requires AllRightOf(a, [f]) && AllRightOf([f], b)
    requires forall i :: 0 <= i < |kids| ==> Nodes(kids[i]) <= Nodes(f)
    ensures AllRightOf(a, kids) && AllRightOf(kids, b)
  {
    forall i, j | 0 <= i < |a| && 0 <= j < |kids|
      ensures RightOf(a[i], kids[j])
    {
      assert RightOf(a[i], [f][0]);
    }
    forall i, j | 0 <= i < |kids| && 0 <= j < |b|
      ensures RightOf(kids[i], b[j])
    {
      assert RightOf([f][0], b[j]);
    }
  }

  /** Serving the front keeps the queue in two layers, each from right to left. */
  lemma {:induction false} LayersKept(t: Tree, front: seq<Tree>, back: seq<Tree>, d: nat)
    requires front != [] && AllHang(t, front, d) && AllHang(t, back, d + 1) && Leftward(back + front)
    ensures AllHang(t, front[1..], d) && AllHang(t, back + Kids(front[0]), d + 1)
    ensures Leftward(back + Kids(front[0]) + front[1..]) && Leftward(front)
  {
    var f, kids, rest := front[0], Kids(front[0]), front[1..];
    KidsHang(t, f, d);
    assert front == [f] + rest;
    LeftwardConcat(back, front);
    LeftwardConcat([f], rest);
    assert AllRightOf(back, [f]) && AllRightOf(back, rest) by {
      assert forall i :: 0 <= i < |back| ==> RightOf(back[i], front[0]);
      forall i, j | 0 <= i < |back| && 0 <= j < |rest|
        ensures RightOf(back[i], rest[j])
      {
        assert rest[j] == front[j + 1] && RightOf(back[i], front[j + 1]);
      }
    }
    InPlaceOf(back, f, kids, rest);
    LeftwardConcat(back, kids);
    LeftwardConcat(back + kids, rest);
  }

  /** Two places of a list of nodes, in the order of depth and index. */
  predicate GoesBefore(t: Tree, order: seq<Tree>, j: nat, k: nat) {
    j < k < |order| && order[j].Node? && order[k].Node? && Earlier(t, order[j].index, order[k].index)
  }

  lemma {:induction false} WalkSorted(t: Tree, front: seq<Tree>, back: seq<Tree>, d: nat, j: nat, k: nat)
    requires AllHang(t, front, d) && AllHang(t, back, d + 1) && Leftward(back + front)
    requires j < k < |LevelOrder(front + back)|
    ensures GoesBefore(t, LevelOrder(front + back), j, k)
    decreases Weight(front + back), if front == [] then 1 else 0
  {
    if front == [] {
      assert front + back == back + front == back + [] == [] + back;
      WalkSorted(t, back, [], d + 1, j, k);
    } else {
      var f, rest := front[0], front[1..];
      var next := rest + back + Kids(f);
      ServedWeight(f, rest + back);
      assert front + back == [f] + (rest + back);
      assert LevelOrder(front + back) == [f] + LevelOrder(next);
      LayersKept(t, front, back, d);
      assert next == rest + (back + Kids(f));
      if j > 0 {
        WalkSorted(t, rest, back + Kids(f), d, j - 1, k - 1);
      } else {
        assert forall s :: s in next ==> s.Node?;
        ListedInQueue(next, k - 1);
        FrontFirst(t, front, back, d, Run1(LevelOrder(next)[k - 1]));
      }
    }
  }

  /** The level order goes down the tree, and at each depth from right to left. */
  lemma {:induction false} LevelOrderSorted(t: Tree, j: nat, k: nat)
    requires Ordered(t) && t.Node? && j < k < |LevelOrder([t])|
    ensures GoesBefore(t, LevelOrder([t]), j, k)
    ensures var a, b := LevelOrder([t])[j].index, LevelOrder([t])[k].index;
      DepthOf(t, a) < DepthOf(t, b) || (DepthOf(t, a) == DepthOf(t, b) && a > b)
  {
    assert [t] + [] == [t] == [] + [t];
    WalkSorted(t, [t], [], 0, j, k);
  }

  // ---------- which run is taken ----------

  lemma {:induction false} PlaceOf(order: seq<Tree>, n: Interval) returns (j: nat)
    requires n in RunBag(order)
    ensures j < |order| && order[j].Node? && Run1(order[j]) == n
  {
    if order[0].Node? && Run1(order[0]) == n {
      j := 0;
    } else {
      var i := PlaceOf(order[1..], n);
      j := i + 1;
    }
  }

  lemma {:induction false} OneTree(t: Tree, n: Interval)
    requires t.Node?
    ensures n in RunBag(LevelOrder([t])) <==> n in Nodes(t)
  {
    LevelOrderComplete([t]);
    OneBag(t);
    BagNodes(t, n);
  }

  /** The place where the walk stops gives the run that is picked. */
  lemma {:induction false} StopIsPicked(t: Tree, num: nat, k: nat)
    requires Ordered(t) && t.Node? && LastFit(LevelOrder([t]), num, k)
    ensures Picked(t, num, LevelOrder([t])[k].index)
  {
    var order := LevelOrder([t]);
    var idx := order[k].index;
    assert order[..k + 1][k] == order[k];
    ListedInBag(order, k);
    OneTree(t, Run1(order[k]));
    forall m | m in Nodes(t) && Earlier(t, m.index, idx)
      ensures m.count >= num
    {
      OneTree(t, m);
      var j := PlaceOf(order, m);
      if j > k {
        LevelOrderSorted(t, k, j);
      }
      assert order[..k + 1][j] == order[j];
    }
    forall m | m in Nodes(t) && Earlier(t, idx, m.index)
      ensures SmallBetween(t, num, idx, m.index)
    {
      OneTree(t, m);
      var j := PlaceOf(order, m);
      if j < k {
        LevelOrderSorted(t, j, k);
      }
      LevelOrderSorted(t, k, k + 1);
      ListedInBag(order, k + 1);
      OneTree(t, Run1(order[k + 1]));
      if j > k + 1 {
        LevelOrderSorted(t, k + 1, j);
      }
    }
  }

  lemma {:induction false} SameIndex(t: Tree, m: Interval, n: Interval)
    requires Ordered(t) && m in Nodes(t) && n in Nodes(t) && m.index == n.index
    ensures m == n
  {
    NodesBelow(t.l, t.index);
    NodesAbove(t.r, t.index + t.count);
    if m in Nodes(t.l) {
      SameIndex(t.l, m, n);
    } else if m in Nodes(t.r) {
      SameIndex(t.r, m, n);
    }
  }

  /** That run is determined by the tree. */
  lemma {:induction false} PickedOnce(t: Tree, num: nat, a: nat, b: nat)
    requires Ordered(t) && Picked(t, num, a) && Picked(t, num, b)
    ensures a == b
  {
    if Earlier(t, a, b) {
      NotBefore(t, num, a, b);
    } else if Earlier(t, b, a) {
      NotBefore(t, num, b, a);
    }
  }

  lemma {:induction false} NotBefore(t: Tree, num: nat, a: nat, b: nat)
    requires Ordered(t) && Picked(t, num, a) && Picked(t, num, b)
    ensures !Earlier(t, a, b)
  {
    var n :| n in Nodes(t) && n.index == b && n.count >= num;
    if Earlier(t, a, n.index) {
      var m :| m in Nodes(t) && m.count < num && Earlier(t, a, m.index) && (m.index == b || Earlier(t, m.index, b));
      if m.index == b {
        SameIndex(t, m, n);
      }
    }
  }

  lemma {:induction false} OneNode(n: Interval)
    ensures var s := Node(Leaf, n.index, n.count, Leaf);
      && Nodes(s) == {n} && DepthOf(s, n.index) == 0 && (n.count >= 1 ==> Ordered(s))
      && (forall k: nat :: n.End() < k ==> Below(s, k)) && forall k: nat :: k < n.index ==> Above(s, k)
  {
  }

  /** A root large enough with two leaves: the left leaf's run is picked if both are large
      enough, the right one's if it alone is, and else the root's. */
  lemma {:induction false} TwoLeaves(a: Interval, b: Interval, c: Interval, num: nat, idx: nat)
    requires a.End() < b.index && b.End() < c.index && a.count >= 1 && b.count >= num >= 1 && c.count >= 1
    ensures var t := Node(Node(Leaf, a.index, a.count, Leaf), b.index, b.count, Node(Leaf, c.index, c.count, Leaf));
      Picked(t, num, idx) <==> idx == if c.count < num then b.index else if a.count < num then c.index else a.index
  {
    var t := Node(Node(Leaf, a.index, a.count, Leaf), b.index, b.count, Node(Leaf, c.index, c.count, Leaf));
    var p := if c.count < num then b.index else if a.count < num then c.index else a.index;
    OneNode(a);
    OneNode(c);
    assert t.l == Node(Leaf, a.index, a.count, Leaf) && t.r == Node(Leaf, c.index, c.count, Leaf);
    assert Nodes(t) == {a, b, c};
    assert DepthOf(t, a.index) == 1 && DepthOf(t, b.index) == 0 && DepthOf(t, c.index) == 1;
    assert Picked(t, num, p) by {
      assert c.count < num ==> SmallBetween(t, num, b.index, c.index) && SmallBetween(t, num, b.index, a.index);
      assert a.count < num ==> SmallBetween(t, num, c.index, a.index);
    }
    if Picked(t, num, idx) {
      PickedOnce(t, num, idx, p);
    }
  }
}
