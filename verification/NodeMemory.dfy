/** The memory behind a tree's nodes: slots cut from a mapping one after the other, and a list
    of slots given back. The list outlives the mapping that its slots lie in. */
module NodeMemory {
  import opened Intervals

  /** The k-th slot of the m-th mapping that the allocator has had. */
  datatype Cell = Cell(m: nat, k: nat)

  /** The list of free slots, the number of slots cut from the current mapping, and which
      mappings are still mapped; `live` are the slots that hold a node. */
  datatype Arena = Arena(free: seq<Cell>, bump: nat, current: nat, mapped: set<nat>, live: set<Cell>)

  /** What a freshly constructed allocator becomes by its first `Init`. */
  const Fresh: Arena := Arena([], 0, 0, {0}, {})

  /** The slot that the next node gets: the head of the list, else the next one to be cut. */
  function NextCell(a: Arena): Cell {
    if a.free != [] then a.free[0] else Cell(a.current, a.bump)
  }

  function Allocated(a: Arena): Arena {
    if a.free != [] then a.(free := a.free[1..], live := a.live + {NextCell(a)})
    else a.(bump := a.bump + 1, live := a.live + {NextCell(a)})
  }

  function Freed(a: Arena, c: Cell): Arena {
    a.(free := [c] + a.free, live := a.live - {c})
  }

  /** `Init` maps new memory and cuts from its start; the list stays as it is. */
  function Inited(a: Arena): Arena {
    a.(bump := 0, current := a.current + 1, mapped := a.mapped + {a.current + 1})
  }

  /** `Fini` unmaps the current mapping, and no more. */
  function Finied(a: Arena): Arena { a.(mapped := a.mapped - {a.current}) }

  // ---------- soundness ----------

  predicate InUse(a: Arena, c: Cell) { c in a.free || c in a.live }

  /** Slots are in mapped memory, each in one place, and those of the current mapping are the
      ones that have been cut from it, no more than `capacity` of them. */
  ghost predicate Sound(a: Arena, capacity: nat) {
    && a.current in a.mapped && a.bump <= capacity
    && (forall m :: m in a.mapped ==> m <= a.current)
    && (forall i, j :: 0 <= i < j < |a.free| ==> a.free[i] != a.free[j])
    && (forall c :: c in a.free ==> c !in a.live)
    && (forall c :: InUse(a, c) ==> c.m in a.mapped)
    && forall k: nat :: InUse(a, Cell(a.current, k)) <==> k < a.bump
  }

  /** Some slot has been cut. */
  predicate Touched(a: Arena) { a.free != [] || a.live != {} }

  /** All slots are of the current mapping. */
  ghost predicate OneMapping(a: Arena) { forall c :: InUse(a, c) ==> c.m == a.current }

  /** What allocating and giving back leave as it is. */
  ghost predicate Evolved(a: Arena, b: Arena) {
    && b.current == a.current && b.mapped == a.mapped && a.bump <= b.bump
    && (Touched(a) ==> Touched(b)) && (OneMapping(a) ==> OneMapping(b))
  }

  lemma {:induction false} EvolvedOn(a: Arena, b: Arena, c: Arena)
    requires Evolved(a, b) && Evolved(b, c)
    ensures Evolved(a, c)
  {
  }

  lemma {:induction false} CutsAreLive(a: Arena, capacity: nat)
    requires Sound(a, capacity) && a.free == []
    ensures a.bump <= |a.live|
  {
    CutSize(a.current, a.bump);
    SubsetSize(Cuts(a.current, a.bump), a.live);
  }

  function Cuts(m: nat, n: nat): set<Cell> {
    if n == 0 then {} else Cuts(m, n - 1) + {Cell(m, n - 1)}
  }

  lemma {:induction false} CutSize(m: nat, n: nat)
    ensures |Cuts(m, n)| == n && forall c :: c in Cuts(m, n) <==> c.m == m && c.k < n
  {
    if n > 0 {
      CutSize(m, n - 1);
    }
  }

  /** While fewer nodes are alive than slots fit, allocating gives a mapped slot that no other
      node has. */
  lemma {:induction false} AllocateSound(a: Arena, capacity: nat)
    requires Sound(a, capacity) && |a.live| < capacity
    ensures NextCell(a).m in a.mapped && NextCell(a) !in a.live
    ensures Sound(Allocated(a), capacity) && |Allocated(a).live| == |a.live| + 1
    ensures Evolved(a, Allocated(a)) && Touched(Allocated(a))
  {
    var b, next := Allocated(a), NextCell(a);
    if a.free != [] {
      assert next in a.free;
      assert a.free == [next] + a.free[1..];
      forall c
        ensures InUse(b, c) <==> InUse(a, c)
        ensures c in b.free ==> c !in b.live
      {
        assert c in b.free ==> c in a.free && c != next;
      }
    } else {
      CutsAreLive(a, capacity);
      assert !InUse(a, next);
      forall c
        ensures InUse(b, c) <==> InUse(a, c) || c == next
      {
      }
    }
  }

  lemma {:induction false} FreeSound(a: Arena, c: Cell, capacity: nat)
    requires Sound(a, capacity) && c in a.live
    ensures Sound(Freed(a, c), capacity) && |Freed(a, c).live| == |a.live| - 1
    ensures Evolved(a, Freed(a, c)) && Touched(Freed(a, c))
  {
    var b := Freed(a, c);
    forall d
      ensures InUse(b, d) <==> InUse(a, d)
      ensures d in b.free ==> d !in b.live
    {
    }
  }

  // ---------- starting over ----------

  lemma {:induction false} FreshSound(capacity: nat)
    ensures Sound(Fresh, capacity) && OneMapping(Fresh) && !Touched(Fresh)
  {
  }

  /** A second `Init` alone leaves all memory mapped, so nothing is lost. */
  lemma {:induction false} InitKeepsSound(a: Arena, was: nat, capacity: nat)
    requires Sound(a, was)
    ensures Sound(Inited(a), capacity)
  {
    var b := Inited(a);
    assert forall c :: InUse(b, c) <==> InUse(a, c);
    assert forall c :: InUse(a, c) ==> c.m <= a.current;
  }

  /** After `Fini` and `Init` the allocator is sound exactly if no slot was ever cut from the
      memory that `Fini` unmapped. */
  lemma {:induction false} FiniInitExactly(a: Arena, was: nat, capacity: nat)
    requires Sound(a, was)
    ensures Sound(Inited(Finied(a)), capacity) <==> a.bump == 0
  {
    var b := Inited(Finied(a));
    assert forall c :: InUse(b, c) <==> InUse(a, c);
    if a.bump > 0 {
      assert InUse(b, Cell(a.current, 0)) && a.current !in b.mapped;
    } else {
      forall c | InUse(b, c)
        ensures c.m in b.mapped && c.m <= a.current
      {
        assert c == Cell(c.m, c.k);
      }
    }
  }

  /** With a single mapping, that is exactly if no slot was ever cut at all. */
  lemma {:induction false} NeverTouched(a: Arena, capacity: nat)
    requires Sound(a, capacity) && OneMapping(a)
    ensures a.bump == 0 <==> !Touched(a)
  {
    if a.bump == 0 {
      forall c
        ensures !InUse(a, c)
      {
        assert c == Cell(c.m, c.k);
      }
      if a.free != [] {
        assert InUse(a, a.free[0]);
      }
      if a.live != {} {
        var c :| c in a.live;
        assert InUse(a, c);
      }
    } else {
      assert InUse(a, Cell(a.current, 0));
    }
  }

  /** Otherwise, with no node alive, the very next node gets a slot in unmapped memory. */
  lemma {:induction false} StaleServed(a: Arena, capacity: nat)
    requires Sound(a, capacity) && OneMapping(a) && a.live == {} && a.bump > 0
    ensures var b := Inited(Finied(a));
      a.free != [] && NextCell(b) == a.free[0] && NextCell(b).m == a.current && a.current !in b.mapped
  {
    assert InUse(a, Cell(a.current, 0));
    assert InUse(a, a.free[0]);
  }

  /** Both together, for an allocator whose memory `Fini` has unmapped: `Init` makes it sound
      exactly if it was never touched, and else the next slot served is in unmapped memory. */
  lemma {:induction false} Restarted(f: Arena, a: Arena, was: nat, capacity: nat)
    requires Sound(a, was) && OneMapping(a) && a.live == {} && f == Finied(a)
    ensures Sound(Inited(f), capacity) <==> !Touched(f)
    ensures Touched(f) ==> NextCell(Inited(f)).m !in Inited(f).mapped
    ensures !Touched(f) ==> OneMapping(Inited(f))
  {
    FiniInitExactly(a, was, capacity);
    NeverTouched(a, was);
    if a.bump > 0 {
      StaleServed(a, was);
    }
  }

  // ---------- memory mapped to the old place ----------

  const NODE_SIZE: nat := 24

  /** The address of a slot, given where each mapping begins. */
  function Address(bases: seq<nat>, c: Cell): nat
    requires c.m < |bases|
  {
    bases[c.m] + NODE_SIZE * c.k
  }

  function AllocatedTimes(a: Arena, n: nat): Arena {
    if n == 0 then a else Allocated(AllocatedTimes(a, n - 1))
  }

  lemma {:induction false} CutsOneByOne(a: Arena, n: nat)
    requires a.free == []
    ensures var b := AllocatedTimes(a, n);
      b.free == [] && b.bump == a.bump + n && b.current == a.current && NextCell(b) == Cell(a.current, a.bump + n) && a.live <= b.live
  {
    if n > 0 {
      CutsOneByOne(a, n - 1);
    }
  }

  /** Even if the new mapping lands where the old one was, the stale slot `c` is served now and
      again when the cutting gets to its place, `c.k` nodes later: two live nodes share it.
      The list ends at `c`, since fresh memory reads as zero there. */
  lemma {:induction false} ServedTwice(b: Arena, c: Cell, bases: seq<nat>)
    requires b.free != [] && b.free[0] == c && b.bump == 0 && c.m < b.current < |bases|
    requires bases[c.m] == bases[b.current]
    ensures var after := AllocatedTimes(Allocated(b).(free := []), c.k);
      c in after.live && NextCell(after) != c && NextCell(after).m == b.current && Address(bases, NextCell(after)) == Address(bases, c)
  {
    CutsOneByOne(Allocated(b).(free := []), c.k);
  }
}
