/** The page pool of the native allocator: requests in bytes, addresses in bytes, one free
    set of page runs, a high-water mark, and fresh mappings when both are exhausted. */
module PagePool {
  import opened Words
  import opened Intervals
  import opened Treap
  import opened NodeMemory
  import opened WalkOrder
  import opened PoolProtocol
  import Heap = CartesianTree

  // ---------- page rounding ----------

  /** The number of pages for a request: a sum that wraps, then a division. */
  function PageCount(bytes: nat, ps: nat): nat
    requires ps >= 1
  {
    Wrap64(bytes + ps - 1) / ps
  }

  /** The same for pages of 2^shift bytes. */
  ghost function PageCountFor(bytes: nat, shift: nat): nat {
    PowPositive(shift);
    PageCount(bytes, Pow2(shift))
  }

  /** The rounded size of a request: the same sum, then a mask. */
  function PageBytes(bytes: nat, ps: nat): nat {
    BitAnd(Wrap64(bytes + ps - 1), Wrap64(0 - ps))
  }

  lemma {:induction false} Negated(shift: nat)
    requires shift < 64
    ensures 1 <= Pow2(shift) <= WORD / 2 && Wrap64(0 - Pow2(shift)) == WORD - Pow2(shift)
  {
    PowPositive(shift);
    PowMonotone(shift, 63);
    WordIsPow();
    assert Pow2(64) == 2 * Pow2(63);
  }

  lemma {:induction false} MaskOfWord(x: nat, shift: nat)
    requires shift < 64 && x < WORD
    ensures 1 <= Pow2(shift) <= WORD && BitAnd(x, WORD - Pow2(shift)) == x / Pow2(shift) * Pow2(shift)
  {
    Negated(shift);
    WordIsPow();
    MaskIsFloor(x, shift, 64);
  }

  /** The two forms of rounding agree on every request, wrapping or not. */
  lemma {:induction false} RoundingAgrees(bytes: nat, shift: nat)
    requires shift < 64
    ensures Pow2(shift) >= 1 && PageBytes(bytes, Pow2(shift)) == PageCount(bytes, Pow2(shift)) * Pow2(shift)
  {
    Negated(shift);
    MaskOfWord(Wrap64(bytes + Pow2(shift) - 1), shift);
  }

  /** The rounded size covers the request, by less than a page, exactly when the sum does not
      wrap. A request gets a page at all exactly when it is not zero and the sum does not wrap. */
  lemma {:induction false} RoundingCovers(bytes: nat, shift: nat)
    requires shift < 64 && bytes < WORD
    ensures var ps := Pow2(shift);
      && ps >= 1
      && (bytes <= PageCount(bytes, ps) * ps <==> bytes <= WORD - ps)
      && (bytes <= WORD - ps ==> PageCount(bytes, ps) * ps < bytes + ps)
      && (PageCount(bytes, ps) >= 1 <==> 1 <= bytes <= WORD - ps)
      && PageCountFor(bytes, shift) == PageCount(bytes, ps)
  {
    var ps := Pow2(shift);
    PowPositive(shift);
    PowMonotone(shift, 63);
    WordIsPow();
    if bytes <= WORD - ps {
      assert Wrap64(bytes + ps - 1) == bytes + ps - 1;
      WholePages(bytes, ps);
    } else {
      assert Wrap64(bytes + ps - 1) == bytes + ps - 1 - WORD;
      Quotient(bytes + ps - 1 - WORD, ps, 0, bytes + ps - 1 - WORD);
    }
  }

  lemma {:induction false} WholePages(bytes: nat, ps: nat)
    requires ps >= 1
    ensures var n := (bytes + ps - 1) / ps;
      bytes <= n * ps < bytes + ps && (n >= 1 <==> bytes >= 1)
  {
    var n, r := (bytes + ps - 1) / ps, (bytes + ps - 1) % ps;
    assert bytes + ps - 1 == n * ps + r;
    if bytes == 0 {
      Quotient(ps - 1, ps, 0, ps - 1);
    }
  }

  // ---------- free runs and tree nodes ----------

  /** Consecutive free pages lie in one interval of a canonical list. */
  lemma {:induction false} RunInOne(s: seq<Interval>, i: nat, n: nat)
    requires Canonical(s) && n >= 1 && FreeAt(Listed(s), i, n)
    ensures exists v :: v in s && v.count >= n
  {
    assert i in Run(i, i + n);
    FirstRun(s);
    if s[0].index <= i < s[0].End() {
      assert s[0].End() !in Run(i, i + n);
      assert s[0].End() >= i + n;
    } else {
      assert Run(i, i + n) !! Run(s[0].index, s[0].End()) by {
        assert s[0].End() <= i;
      }
      RunInOne(s[1..], i, n);
      var v :| v in s[1..] && v.count >= n;
      assert v in s;
    }
  }

  /** So a request fits the free set exactly when some node of the tree is large enough. */
  lemma {:induction false} FitsIffNode(t: Tree, n: nat)
    requires Wf(t) && n >= 1
    ensures Fits(Units(t), n) <==> exists v :: v in Nodes(t) && v.count >= n
  {
    InOrderCanonical(t);
    InOrderUnits(t);
    if Fits(Units(t), n) {
      var i: nat :| FreeAt(Units(t), i, n);
      RunInOne(InOrder(t), i, n);
    }
    InOrderNodes(t);
    if v :| v in Nodes(t) && v.count >= n {
      NodeInside(t, v);
      assert Run(v.index, v.index + n) <= Run(v.index, v.End());
      assert FreeAt(Units(t), v.index, n);
    }
  }

  // ---------- the pool object ----------

  /** A rounded count below 2^32 - 1 keeps all sizes far from the end of a word. */
  lemma {:induction false} SmallProduct(n: nat, shift: nat)
    requires n < INDEX_LIMIT && shift <= 30
    ensures 1 <= Pow2(shift) <= 0x4000_0000 && Product(n, Pow2(shift)) < 0x4000_0000_0000_0000
  {
    PageSizeBound(shift);
    ProductIsTimes(n, Pow2(shift));
    ProductBound(n, Pow2(shift));
  }

  lemma {:induction false} PageSizeBound(shift: nat)
    requires shift <= 30
    ensures 1 <= Pow2(shift) <= 0x4000_0000
  {
    PowPositive(shift);
    PowMonotone(shift, 30);
    assert Pow2(10) == 1024;
    PowAdd(10, 10);
    PowAdd(20, 10);
  }

  lemma {:induction false} ProductBound(n: nat, d: nat)
    requires n < INDEX_LIMIT && d <= 0x4000_0000
    ensures n * d < 0x4000_0000_0000_0000
  {
    MulMonotone(n, INDEX_LIMIT - 1, d);
  }

  /** The count and the size of a request of `bytes` bytes, as `GetPage` computes them. */
  method Rounded(bytes: nat, shift: nat) returns (count: nat, size: nat)
    requires shift <= 30
    ensures count == PageCountFor(bytes, shift) && size == Product(count, Pow2(shift))
  {
    PowPositive(shift);
    count, size := PageCount(bytes, Pow2(shift)), PageBytes(bytes, Pow2(shift));
    RoundingAgrees(bytes, shift);
    ProductIsTimes(count, Pow2(shift));
  }

  method Times(n: nat, d: nat) returns (r: nat)
    ensures r == Product(n, d)
  {
    ProductIsTimes(n, d);
    return n * d;
  }

  lemma {:induction false} SameOrder(m: nat, n: nat, shift: nat)
    ensures m <= n <==> Product(m, Pow2(shift)) <= Product(n, Pow2(shift))
    ensures Product(m + n, Pow2(shift)) == Product(m, Pow2(shift)) + Product(n, Pow2(shift))
  {
    PowPositive(shift);
    ProductOrder(m, n, Pow2(shift));
  }

  /** The test for room at the unused end, in bytes and in pages. */
  lemma {:induction false} BumpFits(at: nat, used: nat, n: nat, total: nat, shift: nat)
    requires shift <= 30 && total < INDEX_LIMIT
    ensures var ps := Pow2(shift);
      && (Product(used, ps) + Product(n, ps) <= Product(total, ps) <==> used + n <= total)
      && (Product(at, ps) == 0 <==> at == 0)
      && Product(at + used, ps) == Product(at, ps) + Product(used, ps)
      && Product(used + n, ps) == Product(used, ps) + Product(n, ps)
      && Product(total, ps) < 0x4000_0000_0000_0000
  {
    SameOrder(used, n, shift);
    SameOrder(used + n, total, shift);
    SameOrder(at, 0, shift);
    SameOrder(at, used, shift);
    SmallProduct(total, shift);
  }

  method Divide(x: nat, d: nat) returns (q: nat)
    requires d >= 1
    ensures Product(q, d) <= x < Product(q + 1, d)
  {
    QuotientBounds(x, d);
    return x / d;
  }

  /** The page of a pool that a byte offset falls in. */
  method PageIndex(offset: nat, total: nat, ghost at: nat, shift: nat) returns (idx: nat)
    requires shift <= 30 && offset < Product(total, Pow2(shift))
    ensures idx < total
    ensures var ps := Pow2(shift);
      Product(at + idx, ps) <= Product(at, ps) + offset < Product(at + idx + 1, ps)
  {
    PowPositive(shift);
    idx := Divide(offset, Pow2(shift));
    SameOrder(at, idx, shift);
    SameOrder(at, idx + 1, shift);
    SameOrder(total, idx, shift);
  }

  /** What `ReturnPage` does before it takes the lock. */
  datatype Plan = Unmap(size: nat) | TooLarge | Decommit(idx: nat, num: nat, size: nat)

  datatype Got = Page(address: nat) | Aborted

  class PagePool {
    const shift: nat
    var freePagesTree: Heap.CartesianTree
    var base: nat
    var totalSize: nat
    var usedZone: nat
    var totalPageCount: nat
    ghost var at: nat
    ghost var used: nat

    function PS(): nat { Pow2(shift) }

    /** The fields in whole pages, `at` and `used` being the page numbers of `base` and
        `usedZone`; says nothing about the tree's shape. */
    ghost predicate Laid()
      reads this
    {
      && shift <= 30 && totalPageCount < INDEX_LIMIT
      && totalSize == Product(totalPageCount, PS())
      && base == Product(at, PS()) && usedZone == Product(used, PS())
      && base + totalSize < WORD && usedZone < 0x8000_0000_0000_0000
      && freePagesTree.blocks == totalPageCount
    }

    ghost predicate Valid()
      reads this, freePagesTree
    {
      Laid() && freePagesTree.Valid()
    }

    /** Between `Fini` and `Init`. */
    ghost predicate Finished()
      reads this, freePagesTree
    {
      Laid() && freePagesTree.Finished()
    }

    /** Good for requests, which need no node memory while the tree is empty. */
    ghost predicate Serving()
      reads this, freePagesTree
    {
      Laid() && (freePagesTree.Valid() || freePagesTree.root.Leaf?)
    }

    /** All node slots ever cut are of the current mapping: there was never an `Init` without
        `Fini` once a block had been returned. */
    ghost predicate OneNodeMapping()
      reads this, freePagesTree
    {
      OneMapping(freePagesTree.arena)
    }

    ghost function Pages(): Core
      reads this, freePagesTree
    {
      Core(at, totalPageCount, used, Units(freePagesTree.root), Touched(freePagesTree.arena))
    }

    constructor (pageShift: nat)
      requires pageShift <= 30
      ensures Valid() && Pages() == Core(0, 0, 0, {}, false) && OneNodeMapping() && fresh(freePagesTree) && shift == pageShift
    {
      shift := pageShift;
      freePagesTree := new Heap.CartesianTree(0);
      base, totalSize, usedZone, totalPageCount, at, used := 0, 0, 0, 0, 0, 0;
      new;
      FreshSound(1);
    }

    /** Sets the pool up over the fresh mapping at page `q`. The high-water mark stays, and so
        do the tree's nodes and the list of free node slots. Without `Fini` before it the pool
        is in order exactly if its free pages fit the new page count; after `Fini`, exactly if
        no node slot was ever cut, and else the next node gets a slot in unmapped memory. */
    method Init(pageCount: nat, mapped: nat, ghost q: nat)
      requires (Valid() || Finished()) && pageCount < INDEX_LIMIT
      requires mapped == Product(q, PS()) && mapped + Product(pageCount, PS()) < WORD
      modifies this
      ensures old(Finished()) ==> Serving()
      ensures Laid() && fresh(freePagesTree) && freePagesTree.root == old(freePagesTree.root)
      ensures old(Valid()) ==> (Valid() <==> old(Pages()).free <= Run(0, pageCount))
      ensures old(Finished()) && old(OneNodeMapping()) ==>
        && (Valid() <==> !old(Pages()).touched) && (Valid() ==> OneNodeMapping())
        && (!Valid() ==> NextCell(freePagesTree.arena).m !in freePagesTree.arena.mapped)
      ensures old(OneNodeMapping()) && !old(Pages()).touched ==> OneNodeMapping()
      ensures Pages() == Core(q, pageCount, old(used), old(Pages()).free, old(Pages()).touched) && usedZone == old(usedZone)
    {
      RestartPool(freePagesTree, pageCount / 2 + 1);
      EmptyOrNot(freePagesTree);
      totalPageCount := pageCount;
      freePagesTree := new Heap.CartesianTree.Again(freePagesTree, pageCount);
      base, at := mapped, q;
      ProductIsTimes(pageCount, PS());
      totalSize := pageCount * PS();
    }

    /** Empties the free set, unmaps the node memory and names the mapping to unmap; no other
        field changes. */
    method Fini() returns (address: nat, size: nat)
      requires Valid()
      modifies freePagesTree
      ensures Finished() && Pages() == old(Pages()).(free := {})
      ensures address == base && size == totalSize && (old(OneNodeMapping()) ==> OneNodeMapping())
    {
      ghost var freed := freePagesTree.Fini();
      ProductIsTimes(totalPageCount, PS());
      return base, totalPageCount * PS();
    }

    /** `Fini` and then `Init`: the pool is in order again exactly if nothing was ever merged. */
    method Restart(pageCount: nat, mapped: nat, ghost q: nat)
      requires Valid() && OneNodeMapping() && pageCount < INDEX_LIMIT
      requires mapped == Product(q, PS()) && mapped + Product(pageCount, PS()) < WORD
      modifies this, freePagesTree
      ensures Serving() && (Valid() <==> !old(Pages()).touched)
      ensures Pages() == Core(q, pageCount, old(used), {}, old(Pages()).touched)
      ensures !Valid() ==> NextCell(freePagesTree.arena).m !in freePagesTree.arena.mapped
    {
      var _, _ := Fini();
      Init(pageCount, mapped, q);
    }

    /** Serves a request of `bytes` bytes with the block at page `p`. `mapped` is where the
        system would put a fresh mapping; it is used only when neither the free set nor the
        unused end has room. */
    method GetPage(bytes: nat, mapped: nat) returns (out: Got, ghost p: nat)
      requires Serving() && bytes < WORD
      modifies this`usedZone, this`used, freePagesTree
      ensures Serving() && (old(Valid()) ==> Valid()) && (old(OneNodeMapping()) ==> OneNodeMapping())
      ensures out.Aborted? <==> PageCountFor(bytes, shift) >= 0xffff_ffff
      ensures out.Aborted? ==> Pages() == old(Pages())
      // Where the block is put: at the run that `TakeUnits` picks; if no run is large enough, at
      // the unused end of a pool that is mapped and has that many bytes left; else at `mapped`.
      ensures out.Page? ==>
        var n, size := PageCountFor(bytes, shift), Product(PageCountFor(bytes, shift), PS());
        if n >= 1 && exists v :: v in Nodes(old(freePagesTree.root)) && v.count >= n then
          usedZone == old(usedZone) && exists idx: nat :: Picked(old(freePagesTree.root), n, idx) && out.address == base + Product(idx, PS())
        else if base != 0 && old(usedZone) + size <= totalSize then
          out.address == base + old(usedZone) && usedZone == old(usedZone) + size
        else
          out.address == mapped && usedZone == old(usedZone)
      ensures out.Page? ==>
        var n := PageCountFor(bytes, shift);
        || (TakenFromFree(old(Pages()), n, Pages(), p) && out.address == Product(p, PS()))
        || (Bumped(old(Pages()), n, Pages(), p) && out.address == Product(p, PS()))
        || (Overflowed(old(Pages()), n, Pages()) && out.address == mapped)
    {
      var count, pageSize := Rounded(bytes, shift);
      if count >= INDEX_LIMIT - 1 {
        return Aborted, 0;
      }
      var address;
      address, p := Serve(count, pageSize, mapped);
      return Page(address), p;
    }

    /** The locked part of `GetPage`. */
    method Serve(count: nat, pageSize: nat, mapped: nat) returns (address: nat, ghost p: nat)
      requires Serving() && count < INDEX_LIMIT && pageSize == Product(count, PS())
      modifies this`usedZone, this`used, freePagesTree
      ensures Serving() && (old(Valid()) ==> Valid()) && (old(OneNodeMapping()) ==> OneNodeMapping())
      ensures
        || (TakenFromFree(old(Pages()), count, Pages(), p) && address == Product(p, PS()))
        || (Bumped(old(Pages()), count, Pages(), p) && address == Product(p, PS()))
        || (Overflowed(old(Pages()), count, Pages()) && address == mapped)
      ensures
        if count >= 1 && exists v :: v in Nodes(old(freePagesTree.root)) && v.count >= count then
          usedZone == old(usedZone) && exists idx: nat :: Picked(old(freePagesTree.root), count, idx) && address == base + Product(idx, PS())
        else if base != 0 && old(usedZone) + pageSize <= totalSize then
          address == base + old(usedZone) && usedZone == old(usedZone) + pageSize
        else
          address == mapped && usedZone == old(usedZone)
    {
      var taken;
      taken, address, p := TakeFree(count);
      if !taken {
        address, p := Extend(count, pageSize, mapped);
      }
    }

    /** From the free set, if some run is large enough. */
    method TakeFree(count: nat) returns (taken: bool, address: nat, ghost p: nat)
      requires Serving() && count < INDEX_LIMIT
      modifies freePagesTree
      ensures Serving() && (old(Valid()) ==> Valid()) && (old(OneNodeMapping()) ==> OneNodeMapping())
      ensures taken <==> count >= 1 && exists v :: v in Nodes(old(freePagesTree.root)) && v.count >= count
      ensures taken <==> count >= 1 && Fits(old(Pages()).free, count)
      ensures taken ==> TakenFromFree(old(Pages()), count, Pages(), p) && address == Product(p, PS())
      ensures taken ==> exists idx: nat :: Picked(old(freePagesTree.root), count, idx) && address == base + Product(idx, PS())
      ensures !taken ==> Pages() == old(Pages())
    {
      if count >= 1 {
        FitsIffNode(freePagesTree.root, count);
      }
      var idx;
      taken, idx := freePagesTree.TakeUnits(count);
      var offset := Times(idx, PS());
      SameOrder(at, idx, shift);
      address, p := base + offset, at + idx;
    }

    /** Nothing free is large enough: the unused end, or a fresh mapping. */
    method Extend(count: nat, pageSize: nat, mapped: nat) returns (address: nat, ghost p: nat)
      requires Laid() && count < INDEX_LIMIT && pageSize == Product(count, PS())
      requires !(count >= 1 && Fits(Pages().free, count))
      modifies this`usedZone, this`used
      ensures Laid()
      ensures
        || (Bumped(old(Pages()), count, Pages(), p) && address == Product(p, PS()))
        || (Overflowed(old(Pages()), count, Pages()) && address == mapped)
      ensures if base != 0 && old(usedZone) + pageSize <= totalSize then
          address == base + old(usedZone) && usedZone == old(usedZone) + pageSize
        else
          address == mapped && usedZone == old(usedZone)
    {
      BumpFits(at, used, count, totalPageCount, shift);
      if usedZone + pageSize <= totalSize && base != 0 {
        address, p := base + usedZone, at + used;
        usedZone, used := usedZone + pageSize, used + count;
      } else {
        address, p := mapped, 0;
      }
    }

    /** The unlocked half of `ReturnPage`. Outside the pool the block is to be unmapped; inside
        it is decommitted, all its pages, before anything is published. */
    method Prepare(page: nat, bytes: nat) returns (plan: Plan)
      requires Laid() && bytes < WORD && page < WORD
      ensures Planned(page, PageCountFor(bytes, shift), plan)
    {
      var num, size := Rounded(bytes, shift);
      plan := Decide(page, num, size);
    }

    ghost predicate Planned(page: nat, num: nat, plan: Plan)
      reads this
    {
      match plan
      case Unmap(size) =>
        !(base <= page < base + totalSize) && size == Wrap64(Product(num, PS()))
      case TooLarge =>
        base <= page < base + totalSize && num >= 0xffff_ffff
      case Decommit(idx, n, size) =>
        && base <= page < base + totalSize && num < 0xffff_ffff
        && n == num && size == Product(num, PS()) && idx < totalPageCount
        && Product(at + idx, PS()) <= page < Product(at + idx + 1, PS())
    }

    method Decide(page: nat, num: nat, size: nat) returns (plan: Plan)
      requires Laid() && page < WORD && size == Product(num, PS())
      ensures Planned(page, num, plan)
    {
      var end := Wrap64(base + totalSize);
      if page < base || page >= end {
        return Unmap(Wrap64(size));
      }
      if num >= INDEX_LIMIT - 1 {
        return TooLarge;
      }
      var idx := PageIndex(page - base, totalPageCount, at, shift);
      return Decommit(idx, num, size);
    }

    /** The locked half: the block becomes free, unless one of its pages already is. */
    method Merge(idx: nat, num: nat) returns (aborts: bool)
      requires Valid() && idx + num <= totalPageCount
      modifies freePagesTree
      ensures num >= 1 ==> Valid() && Merged(old(Pages()), idx, num, Pages(), !aborts)
      ensures old(OneNodeMapping()) ==> OneNodeMapping()
      ensures num == 0 ==> Pages() == old(Pages()).(touched := Pages().touched)
      ensures num == 0 ==> (aborts <==> old(Pages()).free != {}) && (Valid() <==> aborts)
    {
      NonEmpty(freePagesTree.root);
      var inserted := freePagesTree.MergeInsert(idx, num);
      return !inserted;
    }

    /** The whole of `ReturnPage`, run without interference, for a caller whose block, which
        starts in page `p`, does not run past the pool's end. A block of no pages aborts on a
        free set that is not empty and spoils the tree of an empty one. */
    method ReturnPage(page: nat, bytes: nat, ghost p: nat) returns (plan: Plan, aborts: bool)
      requires Valid() && bytes < WORD && page < WORD && Product(p, PS()) <= page < Product(p + 1, PS())
      requires InPool(Pages(), p) ==> p + PageCountFor(bytes, shift) <= at + totalPageCount
      modifies freePagesTree
      ensures plan.Unmap? <==> !InPool(old(Pages()), p)
      ensures plan.Unmap? ==> Valid() && !aborts && Pages() == old(Pages())
      ensures plan.TooLarge? ==> Valid() && aborts && Pages() == old(Pages())
      ensures plan.Decommit? && PageCountFor(bytes, shift) >= 1 ==>
        && Valid() && plan.size == Product(PageCountFor(bytes, shift), PS())
        && Merged(old(Pages()), p - at, PageCountFor(bytes, shift), Pages(), !aborts)
      ensures plan.Decommit? && PageCountFor(bytes, shift) == 0 ==>
        Pages() == old(Pages()).(touched := Pages().touched) && (aborts <==> old(Pages()).free != {}) && (Valid() <==> aborts)
    {
      plan := Prepare(page, bytes);
      InPoolBytes(p, page);
      match plan
      case Unmap(_) =>
        aborts := false;
      case TooLarge =>
        aborts := true;
      case Decommit(idx, num, _) =>
        SamePage(p, at + idx, page, shift);
        aborts := Merge(idx, num);
    }

    /** The range check on addresses is the range check on pages. */
    lemma {:induction false} InPoolBytes(p: nat, page: nat)
      requires Laid() && Product(p, PS()) <= page < Product(p + 1, PS())
      ensures InPool(Pages(), p) <==> base <= page < base + totalSize
    {
      SameOrder(at, totalPageCount, shift);
      Inside(at, p, page, shift);
      Inside(at + totalPageCount, p, page, shift);
    }
  }

  lemma {:induction false} EmptyOrNot(tree: Heap.CartesianTree)
    requires tree.Valid() || tree.Finished()
    ensures tree.root.Leaf? <==> Units(tree.root) == {}
    ensures Touched(Inited(tree.arena)) <==> Touched(tree.arena)
    ensures OneMapping(tree.arena) && !Touched(tree.arena) ==> OneMapping(Inited(tree.arena))
  {
    NonEmpty(tree.root);
  }

  /** What `Init` will make of a finished tree. */
  lemma {:induction false} RestartPool(tree: Heap.CartesianTree, capacity: nat)
    ensures tree.Finished() && OneMapping(tree.arena) ==>
      && (Sound(Inited(tree.arena), capacity) <==> !Touched(tree.arena))
      && (tree.arena.bump == 0 <==> !Touched(tree.arena))
      && (Touched(tree.arena) ==> NextCell(Inited(tree.arena)).m !in Inited(tree.arena).mapped)
      && (!Touched(tree.arena) ==> OneMapping(Inited(tree.arena)))
  {
    if tree.Finished() && OneMapping(tree.arena) {
      var a: Arena :| Sound(a, tree.NodeCapacity()) && tree.arena == Finied(a);
      assert forall c :: InUse(a, c) <==> InUse(tree.arena, c);
      Restarted(tree.arena, a, tree.NodeCapacity(), capacity);
      NeverTouched(a, tree.NodeCapacity());
    }
  }

  /** The effects that the calls promise are exactly what the protocol's steps do. */
  lemma {:induction false} CallsAreSteps(s: Pool, c': Core, t: nat, n: nat, p: nat, inserted: bool)
    requires n >= 1
    requires !s.corrupt
    ensures TakenFromFree(s.core, n, c', p) ==> Next(s, GetFree(t, n, p), Give(s, c', t, n, p))
    ensures Bumped(s.core, n, c', p) ==> Next(s, GetBump(t, n, p), Give(s, c', t, n, p))
    ensures Overflowed(s.core, n, c') ==> Next(s, GetMiss(t, n), s.(missed := s.missed + {Miss(t, n)}))
    ensures !s.stale && p >= s.core.base && Merged(s.core, p - s.core.base, n, c', inserted) && p in s.blocks && s.blocks[p] == Block(n, t, true) ==>
      Next(s, ReturnMerge(t, p), s.(core := c', blocks := s.blocks - {p}, aborted := s.aborted || !inserted))
  {
  }

  /** Once every in-pool block is back, the tree is empty or a single node that spans all the
      pool has handed out since `Init`. */
  lemma {:induction false} TreeWhenAllReturned(states: seq<Pool>, steps: seq<Step>, k: nat, tree: Tree)
    requires IsRun(states, steps) && k < |states| && !Troubled(steps, k)
    requires forall p :: p in states[k].blocks ==> !InPool(states[k].core, p)
    requires Wf(tree) && Units(tree) == states[k].core.free
    ensures var s := states[k];
      && s.start <= s.core.used
      && tree == if s.start == s.core.used then Leaf else Node(Leaf, s.start, s.core.used - s.start, Leaf)
  {
    InOrderCanonical(tree);
    AllReturned(states, steps, k, InOrder(tree));
    InOrderUnits(tree);
    if tree.Node? {
      assert |InOrder(tree)| == NodeCount(tree.l) + 1 + NodeCount(tree.r) == 1;
      assert tree.l.Leaf? && tree.r.Leaf?;
      assert InOrder(tree) == [Interval(tree.index, tree.count)];
    }
  }

  /** An address lies at or above a page boundary exactly when its page does. */
  lemma {:induction false} Inside(bound: nat, p: nat, page: nat, shift: nat)
    requires Product(p, Pow2(shift)) <= page < Product(p + 1, Pow2(shift))
    ensures bound <= p <==> Product(bound, Pow2(shift)) <= page
  {
    SameOrder(bound, p, shift);
    SameOrder(p + 1, bound, shift);
  }

  lemma {:induction false} SamePage(p: nat, q: nat, page: nat, shift: nat)
    requires Product(p, Pow2(shift)) <= page < Product(p + 1, Pow2(shift))
    requires Product(q, Pow2(shift)) <= page < Product(q + 1, Pow2(shift))
    ensures p == q
  {
    Inside(q, p, page, shift);
    Inside(p, q, page, shift);
  }

  lemma {:induction false} NonEmpty(t: Tree)
    requires Wf(t)
    ensures t.Leaf? <==> Units(t) == {}
  {
    if t.Node? {
      assert t.index in Units(t);
    }
  }
}
