/** The page pool as threads see it: who holds which pages, which pages are not zero, and
    the steps of `GetPage`, of the two halves of `ReturnPage`, and of the clients. Pages are
    numbered across the whole address space; free pages are counted from the pool's base. */
module PoolProtocol {
  import opened Intervals

  /** What the pool object itself stores, in pages; `touched` says that the tree has had a
      slot for a node since the pool was constructed. */
  datatype Core = Core(base: nat, total: nat, used: nat, free: set<nat>, touched: bool)

  /** A block some thread holds; `cleared` between its decommit and its merge. */
  datatype Block = Block(pages: nat, owner: nat, cleared: bool)

  /** A thread that found no room under the lock and is about to map fresh memory. */
  datatype Miss = Miss(t: nat, n: nat)

  /** `start` is where `used` stood at the last `Init`. `stale` says that the list of free node
      slots reaches into node memory that a `Fini` has unmapped, and `corrupt` that a merge has
      used such a slot; what the pool does after that is not described. */
  datatype Pool = Pool(core: Core, start: nat, blocks: map<nat, Block>, missed: set<Miss>, nonzero: set<nat>, aborted: bool, stale: bool, corrupt: bool)

  /** The range check of `ReturnPage`. */
  predicate InPool(c: Core, p: nat) { c.base <= p < c.base + c.total }

  predicate Disjoint(p: nat, m: nat, q: nat, n: nat) { p + m <= q || q + n <= p }

  /** Page `x` belongs to the block at `p`. */
  predicate Has(s: Pool, p: nat, x: nat) { p in s.blocks && p <= x < p + s.blocks[p].pages }

  predicate FreeAt(free: set<nat>, i: nat, n: nat) { Run(i, i + n) <= free }

  /** Some `n` consecutive pages are free. */
  ghost predicate Fits(free: set<nat>, n: nat) { exists i: nat :: FreeAt(free, i, n) }

  // ---------- what the critical sections do ----------

  /** `GetPage` under the lock: from the free set if a run fits, else from the unused end;
      otherwise nothing changes and the caller maps fresh memory. */
  predicate TakenFromFree(c: Core, n: nat, c': Core, p: nat) {
    && n >= 1 && p >= c.base && FreeAt(c.free, p - c.base, n)
    && c' == c.(free := c.free - Run(p - c.base, p - c.base + n))
  }

  ghost predicate Bumped(c: Core, n: nat, c': Core, p: nat) {
    && !(n >= 1 && Fits(c.free, n)) && c.used + n <= c.total && c.base != 0
    && p == c.base + c.used && c' == c.(used := c.used + n)
  }

  ghost predicate Overflowed(c: Core, n: nat, c': Core) {
    && !(n >= 1 && Fits(c.free, n)) && !(c.used + n <= c.total && c.base != 0)
    && c' == c
  }

  /** The merge in `ReturnPage`, which may refuse. */
  predicate Merged(c: Core, i: nat, n: nat, c': Core, inserted: bool) {
    && (inserted <==> c.free !! Run(i, i + n))
    && c' == if inserted then c.(free := c.free + Run(i, i + n), touched := true) else c
  }

  // ---------- steps ----------

  datatype Step =
    | GetFree(t: nat, n: nat, p: nat)
    | GetBump(t: nat, n: nat, p: nat)
    | GetMiss(t: nat, n: nat)
    | GetMap(t: nat, n: nat, p: nat)
    | Write(t: nat, p: nat, x: nat, toZero: bool)
    | ReturnOutside(t: nat, p: nat)
    | ReturnClear(t: nat, p: nat)
    | ReturnMerge(t: nat, p: nat)
    | FiniInit(base: nat, total: nat)

  /** What the system promises for new memory: it overlaps nothing in use. */
  predicate Unmapped(s: Pool, q: nat, n: nat) {
    && Disjoint(q, n, s.core.base, s.core.total)
    && forall p :: p in s.blocks ==> Disjoint(p, s.blocks[p].pages, q, n)
  }

  /** Thread `t` holds the block at `p` and is not giving it back. */
  predicate Holds(s: Pool, t: nat, p: nat) {
    p in s.blocks && s.blocks[p].owner == t && !s.blocks[p].cleared
  }

  function Give(s: Pool, c: Core, t: nat, n: nat, p: nat): Pool {
    s.(core := c, blocks := s.blocks[p := Block(n, t, false)])
  }

  function Zeroed(s: Pool, p: nat): set<nat>
    requires p in s.blocks
  {
    s.nonzero - Run(p, p + s.blocks[p].pages)
  }

  ghost predicate Next(s: Pool, step: Step, s': Pool) {
    !s.corrupt &&
    match step
    case GetFree(t, n, p) =>
      TakenFromFree(s.core, n, s'.core, p) && s' == Give(s, s'.core, t, n, p)
    case GetBump(t, n, p) =>
      n >= 1 && Bumped(s.core, n, s'.core, p) && s' == Give(s, s'.core, t, n, p)
    case GetMiss(t, n) =>
      n >= 1 && Overflowed(s.core, n, s'.core) && s' == s.(missed := s.missed + {Miss(t, n)})
    case GetMap(t, n, p) =>
      && n >= 1 && Miss(t, n) in s.missed && Unmapped(s, p, n)
      && s' == Give(s, s.core, t, n, p).(missed := s.missed - {Miss(t, n)}, nonzero := s.nonzero - Run(p, p + n))
    case Write(t, p, x, toZero) =>
      && Holds(s, t, p) && Has(s, p, x)
      && s' == s.(nonzero := if toZero then s.nonzero - {x} else s.nonzero + {x})
    case ReturnOutside(t, p) =>
      && Holds(s, t, p) && !InPool(s.core, p)
      && s' == s.(blocks := s.blocks - {p}, nonzero := Zeroed(s, p))
    case ReturnClear(t, p) =>
      && Holds(s, t, p) && InPool(s.core, p)
      && s' == s.(blocks := s.blocks[p := s.blocks[p].(cleared := true)], nonzero := Zeroed(s, p))
    case ReturnMerge(t, p) =>
      && p in s.blocks && s.blocks[p].owner == t && s.blocks[p].cleared && p >= s.core.base
      && (if s.stale then s' == s.(corrupt := true) else Returned(s, p, s'))
    case FiniInit(base, total) =>
      && (forall p :: p in s.blocks ==> !InPool(s.core, p) && Disjoint(p, s.blocks[p].pages, base, total))
      && s' == s.(core := Core(base, total, s.core.used, {}, s.core.touched), start := s.core.used, stale := s.core.touched,
                  nonzero := s.nonzero - Run(s.core.base, s.core.base + s.core.total) - Run(base, base + total))
  }

  /** The merge on node memory that is in order. */
  ghost predicate Returned(s: Pool, p: nat, s': Pool)
    requires p in s.blocks && p >= s.core.base
  {
    var inserted := s.core.free !! Run(p - s.core.base, p - s.core.base + s.blocks[p].pages);
    && Merged(s.core, p - s.core.base, s.blocks[p].pages, s'.core, inserted)
    && s' == s.(core := s'.core, blocks := s.blocks - {p}, aborted := s.aborted || !inserted)
  }

  predicate Initial(s: Pool) {
    s == Pool(Core(0, 0, 0, {}, false), 0, map[], {}, {}, false, false, false)
  }

  // ---------- the invariant ----------

  /** A block lies wholly in the handed-out part of the pool, clear of the free pages, or
      wholly outside the pool. */
  predicate Placed(s: Pool, p: nat) {
    p in s.blocks ==>
      var c, n := s.core, s.blocks[p].pages;
      && n >= 1
      && (if InPool(c, p) then
            && s.start <= p - c.base && p - c.base + n <= c.used <= c.total
            && c.free !! Run(p - c.base, p - c.base + n)
          else
            Disjoint(p, n, c.base, c.total) && !s.blocks[p].cleared)
  }

  /** Page `i` of the pool belongs to some block. */
  ghost predicate Taken(s: Pool, i: nat) {
    exists p :: Has(s, p, s.core.base + i) && InPool(s.core, p)
  }

  ghost predicate BlocksApart(s: Pool) {
    forall p, q :: p in s.blocks && q in s.blocks && p != q ==> Disjoint(p, s.blocks[p].pages, q, s.blocks[q].pages)
  }

  ghost predicate Accounted(s: Pool) {
    && s.start <= s.core.used && (s.core.used <= s.core.total || s.core.used == s.start)
    && s.core.free <= Run(s.start, s.core.used)
    && forall i: nat :: s.start <= i < s.core.used ==> i in s.core.free || Taken(s, i)
  }

  /** Only pages that a client may still be writing to are not zero. */
  ghost predicate ZeroElsewhere(s: Pool) {
    forall x :: x in s.nonzero ==> exists p :: Has(s, p, x) && !s.blocks[p].cleared
  }

  ghost predicate Inv(s: Pool) {
    !s.aborted && Accounted(s) && (forall p :: p in s.blocks ==> Placed(s, p)) && BlocksApart(s) && ZeroElsewhere(s)
  }

  // ---------- every step keeps it ----------

  lemma {:induction false} RunsApart(a: nat, m: nat, b: nat, n: nat)
    requires m >= 1 && n >= 1 && Run(a, a + m) !! Run(b, b + n)
    ensures Disjoint(a, m, b, n)
  {
    assert a in Run(a, a + m) && b in Run(b, b + n);
    assert b !in Run(a, a + m) && a !in Run(b, b + n);
  }

  /** A new block that overlaps no other: the old blocks stay apart and keep their pages. */
  lemma {:induction false} Given(s: Pool, c: Core, t: nat, n: nat, p: nat)
    requires Inv(s) && n >= 1 && c.base == s.core.base && c.total == s.core.total
    requires forall q :: q in s.blocks ==> Disjoint(q, s.blocks[q].pages, p, n)
    ensures var s' := Give(s, c, t, n, p);
      && p !in s.blocks && BlocksApart(s')
      && (forall q, x :: Has(s, q, x) ==> Has(s', q, x) && s'.blocks[q] == s.blocks[q])
      && (forall i: nat :: Taken(s, i) ==> Taken(s', i))
      && (forall x :: p <= x < p + n ==> Has(s', p, x))
  {
    assert p in s.blocks ==> Placed(s, p);
    var s' := Give(s, c, t, n, p);
    assert forall q, x :: Has(s, q, x) ==> Has(s', q, x);
    forall i: nat | Taken(s, i)
      ensures Taken(s', i)
    {
      var q :| Has(s, q, s.core.base + i) && InPool(s.core, q);
      assert Has(s', q, s'.core.base + i) && InPool(s'.core, q);
    }
  }

  /** Pages that leave the free set for a block `p` are accounted for. */
  lemma {:induction false} StillAccounted(s: Pool, s': Pool, p: nat)
    requires Accounted(s) && s'.start == s.start && s'.core.base == s.core.base && s'.core.total == s.core.total
    requires s'.core.used >= s.core.used && s'.core.free <= s.core.free && (s'.core.used <= s'.core.total || s'.core.used == s'.start)
    requires InPool(s'.core, p) && forall i: nat :: Taken(s, i) ==> Taken(s', i)
    requires forall i: nat :: s.start <= i < s'.core.used && !(i < s.core.used && (i in s'.core.free || Taken(s, i))) ==> Has(s', p, s.core.base + i)
    ensures Accounted(s')
  {
    forall i: nat | s'.start <= i < s'.core.used && i !in s'.core.free
      ensures Taken(s', i)
    {
      if !(i < s.core.used && Taken(s, i)) {
        assert Has(s', p, s'.core.base + i) && InPool(s'.core, p);
      }
    }
  }

  lemma {:induction false} GetFreeApart(s: Pool, n: nat, p: nat)
    requires Inv(s) && n >= 1 && p >= s.core.base && FreeAt(s.core.free, p - s.core.base, n)
    ensures InPool(s.core, p) && s.start <= p - s.core.base && p - s.core.base + n <= s.core.used <= s.core.total
    ensures forall q :: q in s.blocks ==> Disjoint(q, s.blocks[q].pages, p, n)
  {
    var c, i := s.core, p - s.core.base;
    assert i in c.free && i + n - 1 in c.free;
    forall q | q in s.blocks
      ensures Disjoint(q, s.blocks[q].pages, p, n)
    {
      assert Placed(s, q);
      if InPool(c, q) {
        assert Run(q - c.base, q - c.base + s.blocks[q].pages) !! Run(i, i + n);
        RunsApart(q - c.base, s.blocks[q].pages, i, n);
      }
    }
  }

  /** Where the blocks lie does not change when the free set shrinks. */
  lemma {:induction false} OthersPlaced(s: Pool, s': Pool, q: nat)
    requires Placed(s, q) && q in s.blocks && q in s'.blocks && s'.blocks[q] == s.blocks[q] && s'.start == s.start
    requires s'.core.base == s.core.base && s'.core.total == s.core.total && s.core.used <= s'.core.used
    requires s'.core.free <= s.core.free && (s'.core.used <= s'.core.total || s'.core.used == s.core.used)
    ensures Placed(s', q)
  {
  }

  lemma {:induction false} GetFreeKeeps(s: Pool, t: nat, n: nat, p: nat, s': Pool)
    requires Inv(s) && Next(s, GetFree(t, n, p), s')
    ensures Inv(s')
  {
    GetFreeApart(s, n, p);
    Given(s, s'.core, t, n, p);
    StillAccounted(s, s', p);
    forall q | q in s'.blocks
      ensures Placed(s', q)
    {
      if q != p {
        assert Placed(s, q);
        OthersPlaced(s, s', q);
      }
    }
  }

  lemma {:induction false} GetBumpKeeps(s: Pool, t: nat, n: nat, p: nat, s': Pool)
    requires Inv(s) && Next(s, GetBump(t, n, p), s')
    ensures Inv(s')
  {
    forall q | q in s.blocks
      ensures Disjoint(q, s.blocks[q].pages, p, n)
    {
      assert Placed(s, q);
    }
    Given(s, s'.core, t, n, p);
    StillAccounted(s, s', p);
    forall q | q in s'.blocks
      ensures Placed(s', q)
    {
      if q != p {
        assert Placed(s, q);
        OthersPlaced(s, s', q);
      }
    }
  }

  lemma {:induction false} GetMapKeeps(s: Pool, t: nat, n: nat, p: nat, s': Pool)
    requires Inv(s) && Next(s, GetMap(t, n, p), s')
    ensures Inv(s')
  {
    Given(s, s.core, t, n, p);
    assert forall j: nat :: Taken(s, j) ==> Taken(s', j);
    assert forall q :: q in s.blocks ==> Placed(s, q) && Placed(s', q);
  }

  lemma {:induction false} GetMissKeeps(s: Pool, t: nat, n: nat, s': Pool)
    requires Inv(s) && Next(s, GetMiss(t, n), s')
    ensures Inv(s')
  {
    assert forall q, y :: Has(s, q, y) ==> Has(s', q, y);
    assert forall q :: q in s.blocks ==> Placed(s, q) && Placed(s', q);
  }

  lemma {:induction false} WriteKeeps(s: Pool, t: nat, p: nat, x: nat, toZero: bool, s': Pool)
    requires Inv(s) && Next(s, Write(t, p, x, toZero), s')
    ensures Inv(s')
  {
    assert forall q, y :: Has(s, q, y) ==> Has(s', q, y);
    assert forall q :: q in s.blocks ==> Placed(s, q) && Placed(s', q);
  }

  lemma {:induction false} ReturnOutsideKeeps(s: Pool, t: nat, p: nat, s': Pool)
    requires Inv(s) && Next(s, ReturnOutside(t, p), s')
    ensures Inv(s')
  {
    assert forall q, y :: Has(s, q, y) && q != p ==> Has(s', q, y);
    assert forall q :: q in s'.blocks ==> Placed(s, q) && Placed(s', q);
  }

  lemma {:induction false} ReturnClearKeeps(s: Pool, t: nat, p: nat, s': Pool)
    requires Inv(s) && Next(s, ReturnClear(t, p), s')
    ensures Inv(s')
  {
    assert forall q, y :: Has(s, q, y) ==> Has(s', q, y);
    assert forall q :: q in s'.blocks ==> Placed(s, q) && Placed(s', q);
  }

  lemma {:induction false} ReturnMergeKeeps(s: Pool, t: nat, p: nat, s': Pool)
    requires Inv(s) && Next(s, ReturnMerge(t, p), s')
    ensures Inv(s') && (!s.stale ==> p !in s'.blocks && s'.core.touched)
  {
    if s.stale {
      OnlyFlags(s, s');
    } else {
      ReturnedKeeps(s, p, s');
    }
  }

  lemma {:induction false} OnlyFlags(s: Pool, s': Pool)
    requires Inv(s) && s' == s.(corrupt := true)
    ensures Inv(s')
  {
    assert forall q, y :: Has(s', q, y) == Has(s, q, y);
    assert forall i: nat :: Taken(s, i) ==> Taken(s', i);
    assert forall q :: q in s.blocks ==> Placed(s, q) && Placed(s', q);
  }

  lemma {:induction false} ReturnedKeeps(s: Pool, p: nat, s': Pool)
    requires Inv(s) && p in s.blocks && p >= s.core.base && s.blocks[p].cleared && Returned(s, p, s')
    ensures Inv(s') && p !in s'.blocks && s'.core.touched
  {
    var c, i, n := s.core, p - s.core.base, s.blocks[p].pages;
    assert Placed(s, p);
    assert forall q, y :: Has(s, q, y) && q != p ==> Has(s', q, y);
    forall q | q in s'.blocks
      ensures Placed(s', q)
    {
      assert Placed(s, q) && Disjoint(p, n, q, s.blocks[q].pages);
    }
    assert Accounted(s') by {
      forall j: nat | s.start <= j < c.used && j !in s'.core.free
        ensures Taken(s', j)
      {
        assert Taken(s, j);
      }
    }
    assert ZeroElsewhere(s');
  }

  lemma {:induction false} FiniInitKeeps(s: Pool, base: nat, total: nat, s': Pool)
    requires Inv(s) && Next(s, FiniInit(base, total), s')
    ensures Inv(s')
  {
    assert forall q, y :: Has(s, q, y) ==> Has(s', q, y);
    forall q | q in s'.blocks
      ensures Placed(s', q)
    {
      assert Placed(s, q);
    }
  }

  lemma {:induction false} NextKeeps(s: Pool, step: Step, s': Pool)
    requires Inv(s) && Next(s, step, s')
    ensures Inv(s')
  {
    match step
    case GetFree(t, n, p) => GetFreeKeeps(s, t, n, p, s');
    case GetBump(t, n, p) => GetBumpKeeps(s, t, n, p, s');
    case GetMap(t, n, p) => GetMapKeeps(s, t, n, p, s');
    case GetMiss(t, n) => GetMissKeeps(s, t, n, s');
    case Write(t, p, x, toZero) => WriteKeeps(s, t, p, x, toZero, s');
    case ReturnOutside(t, p) => ReturnOutsideKeeps(s, t, p, s');
    case ReturnClear(t, p) => ReturnClearKeeps(s, t, p, s');
    case ReturnMerge(t, p) => ReturnMergeKeeps(s, t, p, s');
    case FiniInit(base, total) => FiniInitKeeps(s, base, total, s');
  }

  // ---------- whole runs, from a freshly constructed pool ----------

  /** The steps lead from state to state; threads interleave freely. */
  ghost predicate IsRun(states: seq<Pool>, steps: seq<Step>) {
    && |states| == |steps| + 1 && Initial(states[0])
    && forall i :: 0 <= i < |steps| ==> Next(states[i], steps[i], states[i + 1])
  }

  lemma {:induction false} RunKeeps(states: seq<Pool>, steps: seq<Step>, k: nat)
    requires IsRun(states, steps) && k < |states|
    ensures Inv(states[k])
  {
    if k > 0 {
      RunKeeps(states, steps, k - 1);
      NextKeeps(states[k - 1], steps[k - 1], states[k]);
    }
  }

  predicate MergeAt(steps: seq<Step>, i: nat) { i < |steps| && steps[i].ReturnMerge? }

  predicate RestartAt(steps: seq<Step>, i: nat) { i < |steps| && steps[i].FiniInit? }

  ghost predicate MergedBy(steps: seq<Step>, k: nat) { exists i: nat :: i < k && MergeAt(steps, i) }

  ghost predicate StaleBy(steps: seq<Step>, k: nat) {
    exists i: nat, j: nat :: i < j < k && MergeAt(steps, i) && RestartAt(steps, j)
  }

  /** By its k-th step the run has merged, then re-initialised the pool, then merged again. */
  ghost predicate Troubled(steps: seq<Step>, k: nat) {
    exists i: nat, j: nat, l: nat :: i < j < l < k && MergeAt(steps, i) && RestartAt(steps, j) && MergeAt(steps, l)
  }

  /** How the last step adds to these. */
  lemma {:induction false} OneStepMore(steps: seq<Step>, k: nat)
    requires k < |steps|
    ensures MergedBy(steps, k + 1) <==> MergedBy(steps, k) || MergeAt(steps, k)
    ensures StaleBy(steps, k + 1) <==> StaleBy(steps, k) || (MergedBy(steps, k) && RestartAt(steps, k))
    ensures Troubled(steps, k + 1) <==> Troubled(steps, k) || (StaleBy(steps, k) && MergeAt(steps, k))
  {
    if StaleBy(steps, k + 1) && !StaleBy(steps, k) {
      var i: nat, j: nat :| i < j < k + 1 && MergeAt(steps, i) && RestartAt(steps, j);
      assert j == k;
    }
    if Troubled(steps, k + 1) && !Troubled(steps, k) {
      var i: nat, j: nat, l: nat :| i < j < l < k + 1 && MergeAt(steps, i) && RestartAt(steps, j) && MergeAt(steps, l);
      assert l == k;
    }
  }

  /** A run comes to use unmapped node memory exactly by merging, re-initialising the pool, and
      merging again. */
  lemma {:induction false} CorruptExactly(states: seq<Pool>, steps: seq<Step>, k: nat)
    requires IsRun(states, steps) && k < |states|
    ensures states[k].core.touched <==> MergedBy(steps, k)
    ensures states[k].stale <==> StaleBy(steps, k)
    ensures states[k].corrupt <==> Troubled(steps, k)
  {
    if k > 0 {
      CorruptExactly(states, steps, k - 1);
      OneStepMore(steps, k - 1);
      RunKeeps(states, steps, k - 1);
      FlagsMove(states[k - 1], steps[k - 1], states[k]);
      StaleMeansMerged(steps, k - 1);
    }
  }

  lemma {:induction false} StaleMeansMerged(steps: seq<Step>, k: nat)
    ensures StaleBy(steps, k) ==> MergedBy(steps, k)
  {
  }

  lemma {:induction false} FlagsMove(s: Pool, step: Step, s': Pool)
    requires Inv(s) && Next(s, step, s')
    ensures s'.stale == if step.FiniInit? then s.core.touched else s.stale
    ensures s'.corrupt == (step.ReturnMerge? && s.stale)
    ensures s'.core.touched == (s.core.touched || (step.ReturnMerge? && !s.stale))
  {
    if step.ReturnMerge? {
      ReturnMergeKeeps(s, step.t, step.p, s');
    }
  }

  /** In-pool blocks, held or being returned, are apart from every other block and from every
      free page, and lie below the high-water mark. */
  ghost predicate Separated(s: Pool, p: nat) {
    p in s.blocks ==>
      && (forall q :: q in s.blocks && q != p ==> Disjoint(p, s.blocks[p].pages, q, s.blocks[q].pages))
      && (InPool(s.core, p) ==>
            && p + s.blocks[p].pages <= s.core.base + s.core.used <= s.core.base + s.core.total
            && s.core.free !! Run(p - s.core.base, p - s.core.base + s.blocks[p].pages))
  }

  /** No interleaving reaches the abort after a refused merge, blocks never overlap, and node
      memory stays in order, up to a merge after a re-initialisation after a merge. */
  lemma {:induction false} RunSafe(states: seq<Pool>, steps: seq<Step>, k: nat)
    requires IsRun(states, steps) && k < |states|
    ensures states[k].corrupt <==> Troubled(steps, k)
    ensures !Troubled(steps, k) ==> !states[k].aborted && forall p :: Separated(states[k], p)
  {
    RunKeeps(states, steps, k);
    CorruptExactly(states, steps, k);
    var s := states[k];
    forall p
      ensures Separated(s, p)
    {
      assert p in s.blocks ==> Placed(s, p);
    }
  }

  /** The block a step hands out. */
  predicate HandsOut(step: Step, p: nat, n: nat) {
    || (step.GetFree? && step.n == n && step.p == p)
    || (step.GetBump? && step.n == n && step.p == p)
    || (step.GetMap? && step.n == n && step.p == p)
  }

  /** Every block handed out, from any of the three sources, reads as all zero and overlaps
      no block that is held or being returned at that moment. */
  lemma {:induction false} HandedOutZero(states: seq<Pool>, steps: seq<Step>, k: nat, p: nat, n: nat)
    requires IsRun(states, steps) && k < |steps| && HandsOut(steps[k], p, n)
    ensures !Troubled(steps, k + 1) && states[k + 1].nonzero !! Run(p, p + n)
    ensures forall q :: q in states[k].blocks ==> Disjoint(q, states[k].blocks[q].pages, p, n)
  {
    RunKeeps(states, steps, k);
    RunKeeps(states, steps, k + 1);
    CorruptExactly(states, steps, k + 1);
    FlagsMove(states[k], steps[k], states[k + 1]);
    NewApart(states[k], steps[k], states[k + 1], p, n);
    assert forall x :: x in states[k].nonzero ==> exists q :: Has(states[k], q, x);
    assert forall x, q :: Has(states[k], q, x) ==> x !in Run(p, p + n);
  }

  lemma {:induction false} NewApart(s: Pool, step: Step, s': Pool, p: nat, n: nat)
    requires Inv(s) && Inv(s') && Next(s, step, s') && HandsOut(step, p, n)
    ensures forall q :: q in s.blocks ==> Disjoint(q, s.blocks[q].pages, p, n)
    ensures s'.nonzero <= s.nonzero
  {
    forall q | q in s.blocks
      ensures Disjoint(q, s.blocks[q].pages, p, n)
    {
      assert Placed(s, q);
      if step.GetFree? && InPool(s.core, q) {
        assert Run(q - s.core.base, q - s.core.base + s.blocks[q].pages) !! Run(p - s.core.base, p - s.core.base + n);
        RunsApart(q - s.core.base, s.blocks[q].pages, p - s.core.base, n);
      } else if step.GetFree? {
        assert p - s.core.base in s.core.free && p - s.core.base + n - 1 in s.core.free;
      }
    }
  }

  /** The high-water mark never falls, not even across `Fini` and `Init`. */
  lemma {:induction false} UsedNeverFalls(states: seq<Pool>, steps: seq<Step>, j: nat, k: nat)
    requires IsRun(states, steps) && j <= k < |states|
    ensures states[j].core.used <= states[k].core.used
    decreases k - j
  {
    if j < k {
      UsedNeverFalls(states, steps, j, k - 1);
      assert Next(states[k - 1], steps[k - 1], states[k]);
    }
  }

  // ---------- conservation ----------

  ghost function InPoolBlocks(s: Pool): set<nat> {
    set p | p in s.blocks && InPool(s.core, p)
  }

  ghost function Pick(keys: set<nat>): (p: nat)
    requires keys != {}
    ensures p in keys
  {
    var p :| p in keys;
    p
  }

  /** Blocks above the pool's base. */
  predicate Known(s: Pool, keys: set<nat>) { forall p :: p in keys ==> p in s.blocks && s.core.base <= p }

  /** The number of pages in the blocks at `keys`. */
  ghost function PagesHeld(s: Pool, keys: set<nat>): nat
    requires Known(s, keys)
  {
    if keys == {} then 0 else
      var p := Pick(keys);
      s.blocks[p].pages + PagesHeld(s, keys - {p})
  }

  /** The pages of the block at `p`, counted from the pool's base. */
  function PagesOf(s: Pool, p: nat): set<nat>
    requires p in s.blocks && s.core.base <= p
  {
    Run(p - s.core.base, p - s.core.base + s.blocks[p].pages)
  }

  ghost function Cover(s: Pool, keys: set<nat>): set<nat>
    requires Known(s, keys)
  {
    if keys == {} then {} else
      var p := Pick(keys);
      PagesOf(s, p) + Cover(s, keys - {p})
  }

  lemma {:induction false} CoverMembers(s: Pool, keys: set<nat>, x: nat)
    requires Known(s, keys)
    ensures x in Cover(s, keys) <==> exists p :: p in keys && Has(s, p, s.core.base + x)
  {
    if keys != {} {
      var p := Pick(keys);
      CoverMembers(s, keys - {p}, x);
      assert x in PagesOf(s, p) <==> Has(s, p, s.core.base + x);
      assert forall q :: q in keys <==> q in keys - {p} || q == p;
    }
  }

  lemma {:induction false} CoverApart(s: Pool, keys: set<nat>, p: nat)
    requires BlocksApart(s) && Known(s, keys) && Known(s, {p}) && p !in keys
    ensures p in s.blocks && PagesOf(s, p) !! Cover(s, keys)
  {
    assert p in {p};
    forall x | x in Cover(s, keys)
      ensures x !in PagesOf(s, p)
    {
      CoverMembers(s, keys, x);
      var q :| q in keys && Has(s, q, s.core.base + x);
      assert Disjoint(p, s.blocks[p].pages, q, s.blocks[q].pages);
    }
  }

  lemma {:induction false} CoverSize(s: Pool, keys: set<nat>)
    requires BlocksApart(s) && Known(s, keys)
    ensures |Cover(s, keys)| == PagesHeld(s, keys)
  {
    if keys != {} {
      var p := Pick(keys);
      var rest := keys - {p};
      var c, n := Cover(s, rest), PagesHeld(s, rest);
      assert |c| == n by { CoverSize(s, rest); }
      CoverApart(s, rest, p);
      var lo, m := p - s.core.base, s.blocks[p].pages;
      assert Cover(s, keys) == Run(lo, lo + m) + c;
      assert PagesHeld(s, keys) == m + n;
      OneMore(lo, m, c);
    } else { assert Cover(s, keys) == {}; assert PagesHeld(s, keys) == 0; }
  }

  /** The free pages and the pages of in-pool blocks partition what has been handed out
      since `Init`. */
  lemma {:induction false} Partition(s: Pool)
    requires Inv(s)
    ensures Cover(s, InPoolBlocks(s)) !! s.core.free
    ensures Cover(s, InPoolBlocks(s)) + s.core.free == Run(s.start, s.core.used)
  {
    var cover := Cover(s, InPoolBlocks(s));
    forall x | x in cover
      ensures x in Run(s.start, s.core.used) && x !in s.core.free
    {
      CoverMembers(s, InPoolBlocks(s), x);
      var p :| p in InPoolBlocks(s) && Has(s, p, s.core.base + x);
      assert Placed(s, p) && x in Run(p - s.core.base, p - s.core.base + s.blocks[p].pages);
    }
    forall x | x in Run(s.start, s.core.used) && x !in s.core.free
      ensures x in cover
    {
      assert Taken(s, x);
      var p :| Has(s, p, s.core.base + x) && InPool(s.core, p);
      assert p in InPoolBlocks(s);
      CoverMembers(s, InPoolBlocks(s), x);
    }
  }

  /** No page is lost or counted twice in any run: the growth of the high-water mark since
      `Init` is the number of free pages plus the pages of all in-pool blocks. */
  lemma {:induction false} Conservation(states: seq<Pool>, steps: seq<Step>, k: nat)
    requires IsRun(states, steps) && k < |states| && !Troubled(steps, k)
    ensures var s := states[k];
      s.core.used - s.start == |s.core.free| + PagesHeld(s, InPoolBlocks(s))
  {
    var s := states[k];
    RunKeeps(states, steps, k);
    Partition(s);
    CoverSize(s, InPoolBlocks(s));
    RunSize(s.start, s.core.used);
    DisjointSize(Cover(s, InPoolBlocks(s)), s.core.free);
  }

  /** Once every in-pool block is back, the free set is exactly what was ever handed out, so
      any canonical list of it is one interval, or none if nothing was handed out. */
  lemma {:induction false} AllReturned(states: seq<Pool>, steps: seq<Step>, k: nat, list: seq<Interval>)
    requires IsRun(states, steps) && k < |states| && !Troubled(steps, k)
    requires forall p :: p in states[k].blocks ==> !InPool(states[k].core, p)
    requires Canonical(list) && Listed(list) == states[k].core.free
    ensures var s := states[k];
      && s.core.free == Run(s.start, s.core.used)
      && s.start <= s.core.used
      && list == if s.start == s.core.used then [] else [Interval(s.start, s.core.used - s.start)]
  {
    var s := states[k];
    RunKeeps(states, steps, k);
    Partition(s);
    assert InPoolBlocks(s) == {};
    var one := if s.start == s.core.used then [] else [Interval(s.start, s.core.used - s.start)];
    assert Listed(one) == Run(s.start, s.core.used);
    CanonicalUnique(list, one);
  }

  /** Pages below the mark at the last `Init` are never handed out again: a second `Init`
      loses as many pages as were used before it. */
  lemma {:induction false} LostPages(states: seq<Pool>, steps: seq<Step>, k: nat, p: nat)
    requires IsRun(states, steps) && k < |states| && !Troubled(steps, k)
    requires p in states[k].blocks && InPool(states[k].core, p)
    ensures states[k].core.base + states[k].start <= p
  {
    RunKeeps(states, steps, k);
    assert Placed(states[k], p);
  }

  // ---------- the run that goes wrong ----------

  /** A pool of which one page has gone out since `Init`, or none. */
  function Small(base: nat, used: nat, start: nat, free: set<nat>, touched: bool, block: map<nat, Block>): Pool {
    Pool(Core(base, 2, used, free, touched), start, block, {}, {}, false, touched && start > 0, false)
  }

  lemma {:induction false} OutAndBack(base: nat, used: nat, touched: bool)
    requires base >= 1 && used < 2
    ensures var p := base + used;
      var idle, held, cleared := Small(base, used, used, {}, touched, map[]), Small(base, used + 1, used, {}, touched, map[p := Block(1, 0, false)]), Small(base, used + 1, used, {}, touched, map[p := Block(1, 0, true)]);
      Next(idle, GetBump(0, 1, p), held) && Next(held, ReturnClear(0, p), cleared)
  {
    forall i: nat
      ensures !FreeAt({}, i, 1)
    {
      assert i in Run(i, i + 1);
    }
  }

  lemma {:induction false} FirstMerge(base: nat)
    ensures var cleared, idle := Small(base, 1, 0, {}, false, map[base := Block(1, 0, true)]), Small(base, 1, 0, {0}, true, map[]);
      Next(cleared, ReturnMerge(0, base), idle)
  {
    assert Run(0, 1) == {0};
    assert map[base := Block(1, 0, true)] - {base} == map[];
  }

  lemma {:induction false} Longer(states: seq<Pool>, steps: seq<Step>, step: Step, s: Pool)
    requires IsRun(states, steps) && Next(states[|steps|], step, s)
    ensures IsRun(states + [s], steps + [step])
  {
  }

  /** From an idle pool: set it up again, and let a one-page block go out and be cleared. */
  lemma {:induction false} Round(states: seq<Pool>, steps: seq<Step>, base: nat, used: nat, touched: bool)
    returns (states': seq<Pool>)
    requires IsRun(states, steps) && base >= 1 && used < 2 && (touched <==> used > 0)
    requires states[|steps|].blocks == map[] && states[|steps|].missed == {} && states[|steps|].nonzero == {}
    requires states[|steps|].core.used == used && states[|steps|].core.touched == touched
    requires !states[|steps|].aborted && !states[|steps|].corrupt
    ensures IsRun(states', steps + RoundSteps(base, base + used)) && |states'| == |steps| + 4
    ensures states'[|steps| + 3] == Small(base, used + 1, used, {}, touched, map[base + used := Block(1, 0, true)])
  {
    var p := base + used;
    var idle, held, cleared := Small(base, used, used, {}, touched, map[]), Small(base, used + 1, used, {}, touched, map[p := Block(1, 0, false)]), Small(base, used + 1, used, {}, touched, map[p := Block(1, 0, true)]);
    OutAndBack(base, used, touched);
    Longer(states, steps, FiniInit(base, 2), idle);
    Longer(states + [idle], steps + [FiniInit(base, 2)], GetBump(0, 1, p), held);
    Longer(states + [idle] + [held], steps + [FiniInit(base, 2)] + [GetBump(0, 1, p)], ReturnClear(0, p), cleared);
    states' := states + [idle] + [held] + [cleared];
    assert steps + RoundSteps(base, p) == steps + [FiniInit(base, 2)] + [GetBump(0, 1, p)] + [ReturnClear(0, p)];
  }

  function RoundSteps(base: nat, p: nat): seq<Step> { [FiniInit(base, 2), GetBump(0, 1, p), ReturnClear(0, p)] }

  function TroubleSteps(a: nat, b: nat): seq<Step> {
    RoundSteps(a, a) + [ReturnMerge(0, a)] + RoundSteps(b, b + 1) + [ReturnMerge(0, b + 1)]
  }

  lemma {:induction false} StaleMerge(b: nat)
    ensures var s := Small(b, 2, 1, {}, true, map[b + 1 := Block(1, 0, true)]);
      Next(s, ReturnMerge(0, b + 1), s.(corrupt := true))
  {
  }

  lemma {:induction false} TroubleSeen(a: nat, b: nat)
    ensures |TroubleSteps(a, b)| == 8 && Troubled(TroubleSteps(a, b), 8)
  {
    var steps := TroubleSteps(a, b);
    assert steps[3] == ReturnMerge(0, a) && steps[4] == FiniInit(b, 2) && steps[7] == ReturnMerge(0, b + 1);
    assert MergeAt(steps, 3) && RestartAt(steps, 4) && MergeAt(steps, 7);
  }

  function FirstSteps(a: nat): seq<Step> { RoundSteps(a, a) + [ReturnMerge(0, a)] }

  lemma {:induction false} FirstRound(a: nat) returns (states: seq<Pool>)
    requires a >= 1
    ensures IsRun(states, RoundSteps(a, a)) && states[3] == Small(a, 1, 0, {}, false, map[a := Block(1, 0, true)])
  {
    states := [Pool(Core(0, 0, 0, {}, false), 0, map[], {}, {}, false, false, false)];
    states := Round(states, [], a, 0, false);
    assert [] + RoundSteps(a, a) == RoundSteps(a, a);
  }

  lemma {:induction false} FirstHalf(a: nat) returns (states: seq<Pool>)
    requires a >= 1
    ensures IsRun(states, FirstSteps(a)) && |states| == 5 && states[4] == Small(a, 1, 0, {0}, true, map[])
  {
    states := FirstRound(a);
    FirstMerge(a);
    Longer(states, RoundSteps(a, a), ReturnMerge(0, a), Small(a, 1, 0, {0}, true, map[]));
    states := states + [Small(a, 1, 0, {0}, true, map[])];
  }

  /** A one-page block goes out and comes back, the pool is set up again, and the same happens
      once more: a legal run, with no client at fault. */
  lemma {:induction false} TroubleIsRun(a: nat, b: nat) returns (states: seq<Pool>)
    requires a >= 1 && b >= 1
    ensures IsRun(states, TroubleSteps(a, b)) && states[8].corrupt && Troubled(TroubleSteps(a, b), 8)
  {
    states := FirstHalf(a);
    states := Round(states, FirstSteps(a), b, 1, true);
    StaleMerge(b);
    Longer(states, FirstSteps(a) + RoundSteps(b, b + 1), ReturnMerge(0, b + 1), states[7].(corrupt := true));
    states := states + [states[7].(corrupt := true)];
    TroubleSeen(a, b);
  }
}
