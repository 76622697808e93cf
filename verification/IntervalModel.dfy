/** The reference free set of the parity driver: a sorted array of intervals, edited in
    place. */
module IntervalModel {
  import opened Common
  import opened Intervals

  // ---------- replacing a stretch of the list ----------

  function Splice(s: seq<Interval>, a: nat, mid: seq<Interval>, b: nat): seq<Interval>
    requires a <= b <= |s|
  {
    s[..a] + mid + s[b..]
  }

  /** Overwriting an entry and dropping the next one. */
  lemma {:induction false} SpliceNext(s: seq<Interval>, a: nat, n: Interval)
    requires a + 2 <= |s|
    ensures Splice(Splice(s, a, [n], a + 1), a + 1, [], a + 2) == Splice(s, a, [n], a + 2)
  {
  }

  /** Overwriting an entry and dropping it. */
  lemma {:induction false} SpliceAway(s: seq<Interval>, a: nat, n: Interval)
    requires a < |s|
    ensures Splice(Splice(s, a, [n], a + 1), a, [], a + 1) == Splice(s, a, [], a + 1)
  {
  }

  lemma {:induction false} SpliceUnits(s: seq<Interval>, a: nat, mid: seq<Interval>, b: nat)
    requires a <= b <= |s|
    ensures Listed(Splice(s, a, mid, b)) == Listed(s[..a]) + Listed(mid) + Listed(s[b..])
    ensures Listed(s) == Listed(s[..a]) + Listed(s[a..b]) + Listed(s[b..])
  {
    UnitsConcat(s[..a] + mid, s[b..]);
    UnitsConcat(s[..a], mid);
    assert s == s[..a] + s[a..b] + s[b..];
    UnitsConcat(s[..a] + s[a..b], s[b..]);
    UnitsConcat(s[..a], s[a..b]);
  }

  lemma {:induction false} SpliceCanonical(s: seq<Interval>, a: nat, mid: seq<Interval>, b: nat)
    requires Canonical(s) && Canonical(mid) && a <= b <= |s|
    requires mid != [] && a > 0 ==> s[a - 1].End() < mid[0].index
    requires mid != [] && b < |s| ==> mid[|mid| - 1].End() < s[b].index
    ensures Canonical(Splice(s, a, mid, b))
  {
    Slices(s, a, b);
    ThreeParts(s[..a], mid, s[b..]);
  }

  lemma {:induction false} Slices(s: seq<Interval>, a: nat, b: nat)
    requires Canonical(s) && a <= b <= |s|
    ensures Canonical(s[..a]) && Canonical(s[b..])
    ensures a > 0 && b < |s| ==> s[a - 1].End() < s[b].index
  {
    assert s == s[..a] + s[a..] && s == s[..b] + s[b..];
    CanonicalConcat(s[..a], s[a..]);
    CanonicalConcat(s[..b], s[b..]);
    CanonicalPairs(s);
  }

  lemma {:induction false} ThreeParts(x: seq<Interval>, y: seq<Interval>, z: seq<Interval>)
    requires Canonical(x) && Canonical(y) && Canonical(z)
    requires x != [] && y != [] ==> x[|x| - 1].End() < y[0].index
    requires y != [] && z != [] ==> y[|y| - 1].End() < z[0].index
    requires x != [] && z != [] ==> x[|x| - 1].End() < z[0].index
    ensures Canonical(x + y + z)
  {
    CanonicalConcat(x, y);
    CanonicalConcat(x + y, z);
  }

  lemma {:induction false} One(n: Interval)
    ensures Listed([n]) == Run(n.index, n.End())
  {
    assert [n][1..] == [];
  }

  /** The stretch `mid` and the new run index..end fill exactly the interval `n`. */
  predicate Fills(mid: seq<Interval>, n: Interval, index: nat, end: nat) {
    match |mid|
    case 0 => n.index == index && n.End() == end
    case 1 => (mid[0].End() == index && n.index == mid[0].index && n.End() == end)
      || (end == mid[0].index && n.index == index && n.End() == mid[0].End())
    case 2 => mid[0].End() == index && end == mid[1].index && n.index == mid[0].index && n.End() == mid[1].End()
    case _ => false
  }

  lemma {:induction false} FillsUnits(mid: seq<Interval>, n: Interval, index: nat, end: nat)
    requires Fills(mid, n, index, end) && index < end
    ensures Listed([n]) == Listed(mid) + Run(index, end)
  {
    One(n);
    if |mid| == 1 {
      assert mid == [mid[0]];
      One(mid[0]);
    } else if |mid| == 2 {
      assert mid == [mid[0]] + [mid[1]];
      UnitsConcat([mid[0]], [mid[1]]);
      One(mid[0]);
      One(mid[1]);
    }
  }

  lemma {:induction false} Joined(s: seq<Interval>, a: nat, n: Interval, b: nat, index: nat, end: nat)
    requires Canonical(s) && a <= b <= |s| && index < end && n.count >= 1
    requires Fills(s[a..b], n, index, end)
    requires a > 0 ==> s[a - 1].End() < n.index
    requires b < |s| ==> n.End() < s[b].index
    ensures Canonical(Splice(s, a, [n], b))
    ensures Listed(Splice(s, a, [n], b)) == Listed(s) + Run(index, end)
  {
    SpliceCanonical(s, a, [n], b);
    SpliceUnits(s, a, [n], b);
    FillsUnits(s[a..b], n, index, end);
  }

  /** With `pos` the first interval that starts at or above `index`, only its two
      neighbours can overlap the run. */
  lemma {:induction false} Clashes(s: seq<Interval>, pos: nat, index: nat, end: nat)
    requires Canonical(s) && pos <= |s| && index < end
    requires forall i :: 0 <= i < pos ==> s[i].index < index
    requires forall i :: pos <= i < |s| ==> index <= s[i].index
    ensures Listed(s) !! Run(index, end) <==> !(pos > 0 && index < s[pos - 1].End()) && !(pos < |s| && end > s[pos].index)
  {
    UnitsAt(s);
    CanonicalPairs(s);
    if pos > 0 && index < s[pos - 1].End() {
      assert Within(s, pos - 1, index);
      assert index in Run(index, end);
    } else if pos < |s| && end > s[pos].index {
      assert Within(s, pos, s[pos].index);
      assert s[pos].index in Run(index, end);
    } else {
      forall x | x in Listed(s)
        ensures x !in Run(index, end)
      {
        var i: nat :| Within(s, i, x);
        assert i < pos ==> s[i].End() <= s[pos - 1].End();
        assert i > pos ==> s[pos].index <= s[i].index;
      }
    }
  }

  /** The run touches or overlaps nothing in the list, so it needs an entry of its own. */
  ghost predicate Isolated(s: seq<Interval>, index: nat, count: nat) {
    forall i :: 0 <= i < |s| ==> s[i].End() < index || index + count < s[i].index
  }

  /** `n` is the smallest interval of at least `count` blocks, the lowest among equals. */
  ghost predicate IsBestFit(s: seq<Interval>, count: nat, n: Interval) {
    && n in s && n.count >= count
    && forall m :: m in s && m.count >= count ==> n.count < m.count || (n.count == m.count && n.index <= m.index)
  }

  /** A 32-bit sum that does not wrap. */
  method Sum32(a: nat, b: nat) returns (sum: nat)
    requires a + b < INDEX_LIMIT
    ensures sum == a + b
  {
    sum := Add32(a, b);
  }

  class Model {
    const intervals: array<Interval>
    var size: nat

    ghost predicate Valid()
      reads this, intervals
    {
      && size <= intervals.Length && Canonical(intervals[..size])
      && Listed(intervals[..size]) <= Run(0, INDEX_LIMIT - 1)
    }

    function Contents(): seq<Interval>
      requires size <= intervals.Length
      reads this, intervals
    {
      intervals[..size]
    }

    constructor (capacity: nat)
      ensures Valid() && fresh(intervals) && intervals.Length == capacity && Contents() == []
    {
      intervals := new Interval[capacity](_ => Interval(0, 0));
      size := 0;
    }

    /** Adds a run unless one of its blocks is already covered. A run of no blocks is
        stored by an empty list and refused by any other. */
    method Insert(index: nat, count: nat) returns (ok: bool)
      requires Valid() && index + count < INDEX_LIMIT
      requires Isolated(Contents(), index, count) ==> size < intervals.Length
      modifies this, intervals
      ensures size <= intervals.Length
      ensures ok == (old(size) == 0 || (count >= 1 && Listed(old(Contents())) !! Run(index, index + count)))
      ensures Listed(Contents()) == if ok then Listed(old(Contents())) + Run(index, index + count) else Listed(old(Contents()))
      ensures !ok ==> Contents() == old(Contents())
      ensures size <= old(size) + 1
      ensures old(size) == 0 ==> Contents() == [Interval(index, count)]
      ensures Valid() <==> count >= 1 || old(size) > 0
    {
      if size == 0 {
        intervals[0], size := Interval(index, count), 1;
        assert Contents() == [Interval(index, count)];
        One(Interval(index, count));
        return true;
      }
      if count == 0 {
        return false;
      }
      ghost var was := Contents();
      var end := Sum32(index, count);
      var pos := Position(index);
      Clashes(was, pos, index, end);
      var leftEnd := EndBefore(pos);
      if pos > 0 && index < leftEnd {
        return false;
      }
      if pos < size && end > intervals[pos].index {
        return false;
      }
      Place(pos, index, count);
      return true;
    }

    /** The number of intervals that start below `index`. */
    method Position(index: nat) returns (pos: nat)
      requires Valid()
      ensures pos <= size
      ensures forall i :: 0 <= i < pos ==> intervals[i].index < index
      ensures forall i :: pos <= i < size ==> index <= intervals[i].index
    {
      pos := 0;
      while pos < size && intervals[pos].index < index
        invariant pos <= size
        invariant forall i :: 0 <= i < pos ==> intervals[i].index < index
      {
        pos := pos + 1;
      }
      CanonicalPairs(Contents());
      assert forall i :: pos <= i < size ==> Contents()[pos].index <= Contents()[i].index;
    }

    /** Stores a run that is known to be free, joining it with the neighbours it touches. */
    method Place(pos: nat, index: nat, count: nat)
      requires Valid() && pos <= size && count >= 1 && index + count < INDEX_LIMIT
      requires pos > 0 ==> intervals[pos - 1].End() <= index
      requires pos < size ==> index + count <= intervals[pos].index
      requires Isolated(Contents(), index, count) ==> size < intervals.Length
      modifies this, intervals
      ensures Valid() && Listed(Contents()) == Listed(old(Contents())) + Run(index, index + count)
      ensures size <= old(size) + 1
    {
      var end := Sum32(index, count);
      var leftEnd := EndBefore(pos);
      var joinLeft := pos > 0 && leftEnd == index;
      var joinRight := pos < size && end == intervals[pos].index;
      if joinLeft && joinRight {
        Bridge(pos, index, count);
      } else if joinLeft {
        GrowUp(pos, index, count);
      } else if joinRight {
        GrowDown(pos, index, count);
      } else {
        ghost var was := Contents();
        Gaps(was, pos);
        Joined(was, pos, Interval(index, count), pos, index, end);
        Alone(was, pos, index, count);
        OpenGap(pos, Interval(index, count));
      }
    }

    /** The run continues the entry before `pos` upwards. */
    method GrowUp(pos: nat, index: nat, count: nat)
      requires Valid() && 0 < pos <= size && count >= 1 && index + count < INDEX_LIMIT
      requires intervals[pos - 1].End() == index && (pos < size ==> index + count < intervals[pos].index)
      modifies intervals
      ensures Valid() && Listed(Contents()) == Listed(old(Contents())) + Run(index, index + count)
    {
      ghost var was := Contents();
      Gaps(was, pos);
      var sum := Sum32(intervals[pos - 1].count, count);
      var n := Interval(intervals[pos - 1].index, sum);
      Joined(was, pos - 1, n, pos, index, index + count);
      Overwrite(pos - 1, n);
    }

    /** The run continues the entry at `pos` downwards. */
    method GrowDown(pos: nat, index: nat, count: nat)
      requires Valid() && pos < size && count >= 1 && index + count == intervals[pos].index
      requires pos > 0 ==> intervals[pos - 1].End() < index
      modifies intervals
      ensures Valid() && Listed(Contents()) == Listed(old(Contents())) + Run(index, index + count)
    {
      ghost var was := Contents();
      Gaps(was, pos);
      assert was[pos].End() < INDEX_LIMIT by { Ends(was); }
      var sum := Sum32(intervals[pos].count, count);
      Joined(was, pos, Interval(index, sum), pos + 1, index, index + count);
      Overwrite(pos, Interval(index, sum));
    }

    /** The run fills the whole gap between the entries `pos - 1` and `pos`. */
    method Bridge(pos: nat, index: nat, count: nat)
      requires Valid() && 0 < pos < size && count >= 1
      requires intervals[pos - 1].End() == index && index + count == intervals[pos].index
      modifies this`size, intervals
      ensures Valid() && Listed(Contents()) == Listed(old(Contents())) + Run(index, index + count)
      ensures size < old(size)
    {
      ghost var was := Contents();
      assert was[pos].End() < INDEX_LIMIT by { Ends(was); }
      Gaps(was, pos);
      var added := Sum32(count, intervals[pos].count);
      var sum := Sum32(intervals[pos - 1].count, added);
      var n := Interval(intervals[pos - 1].index, sum);
      Joined(was, pos - 1, n, pos + 1, index, index + count);
      Overwrite(pos - 1, n);
      CloseGap(pos);
      SpliceNext(was, pos - 1, n);
    }

    /** Where the interval before `pos` ends. */
    method EndBefore(pos: nat) returns (end: nat)
      requires Valid() && pos <= size
      ensures pos > 0 ==> end == intervals[pos - 1].End()
    {
      Ends(Contents());
      end := 0;
      if pos > 0 {
        assert Contents()[pos - 1] == intervals[pos - 1];
        end := Sum32(intervals[pos - 1].index, intervals[pos - 1].count);
      }
    }

    method Overwrite(pos: nat, n: Interval)
      requires pos < size <= intervals.Length
      modifies intervals
      ensures Contents() == Splice(old(Contents()), pos, [n], pos + 1)
    {
      intervals[pos] := n;
    }

    /** Moves the entries above `pos` down by one. */
    method CloseGap(pos: nat)
      requires pos < size <= intervals.Length
      modifies this`size, intervals
      ensures size == old(size) - 1
      ensures Contents() == Splice(old(Contents()), pos, [], pos + 1)
    {
      var i := pos;
      while i + 1 < size
        invariant pos <= i < size == old(size)
        invariant forall k :: 0 <= k < pos ==> intervals[k] == old(intervals[k])
        invariant forall k :: pos <= k < i ==> intervals[k] == old(intervals[k + 1])
        invariant forall k :: i <= k < size ==> intervals[k] == old(intervals[k])
      {
        intervals[i] := intervals[i + 1];
        i := i + 1;
      }
      size := size - 1;
    }

    /** Moves the entries from `pos` on up by one and stores `n` in the gap. */
    method OpenGap(pos: nat, n: Interval)
      requires pos <= size < intervals.Length
      modifies this`size, intervals
      ensures size == old(size) + 1
      ensures Contents() == Splice(old(Contents()), pos, [n], pos)
    {
      var i := size;
      while i > pos
        invariant pos <= i <= size == old(size)
        invariant forall k :: 0 <= k < i ==> intervals[k] == old(intervals[k])
        invariant forall k :: i < k <= size ==> intervals[k] == old(intervals[k - 1])
      {
        intervals[i] := intervals[i - 1];
        i := i - 1;
      }
      intervals[pos] := n;
      size := size + 1;
      Opened(old(Contents()), Contents(), pos, n);
    }

    /** Takes `count` blocks from the low end of the interval that starts at `index`. */
    method TakeAt(index: nat, count: nat) returns (ok: bool)
      requires Valid()
      modifies this, intervals
      ensures Valid()
      ensures ok <==> exists n :: n in old(Contents()) && n.index == index && n.count >= count
      ensures Listed(Contents()) == if ok then Listed(old(Contents())) - Run(index, index + count) else Listed(old(Contents()))
      ensures ok ==> Run(index, index + count) <= Listed(old(Contents()))
      ensures !ok ==> Contents() == old(Contents())
      ensures size <= old(size)
      ensures ok && Isolated(Contents(), index, count) ==> size < old(size)
    {
      ghost var was := Contents();
      for i := 0 to size
        invariant Contents() == was && size == old(size)
        invariant forall k :: 0 <= k < i ==> !(was[k].index == index && was[k].count >= count)
      {
        if intervals[i].index == index && intervals[i].count >= count {
          assert was[i] in was;
          TakeFrom(i, count);
          return true;
        }
      }
      return false;
    }

    method TakeFrom(i: nat, count: nat)
      requires Valid() && i < size && count <= intervals[i].count
      modifies this`size, intervals
      ensures Valid() && size <= old(size)
      ensures Isolated(Contents(), old(intervals[i]).index, count) ==> size < old(size)
      ensures var n := old(intervals[i]);
        && Listed(Contents()) == Listed(old(Contents())) - Run(n.index, n.index + count)
        && Run(n.index, n.index + count) <= Listed(old(Contents()))
    {
      ghost var was := Contents();
      assert was[i] == intervals[i] && was[i].End() < INDEX_LIMIT by { Ends(was); }
      Shortened(was, i, count);
      var start := Sum32(intervals[i].index, count);
      Overwrite(i, Interval(start, intervals[i].count - count));
      assert Contents()[i].index == was[i].index + count;
      if intervals[i].count == 0 {
        CloseGap(i);
        SpliceAway(was, i, Interval(start, 0));
      }
    }

    method Total() returns (total: nat)
      requires Valid()
      ensures total == ListTotal(Contents())
    {
      total := 0;
      for i := 0 to size
        invariant total == ListTotal(Contents()[..i])
      {
        assert Contents()[..i + 1] == Contents()[..i] + [intervals[i]];
        UnitsConcat(Contents()[..i], [intervals[i]]);
        assert [intervals[i]][1..] == [];
        total := total + intervals[i].count;
      }
      assert Contents()[..size] == Contents();
    }

    method AnyFit(count: nat) returns (fits: bool)
      requires Valid()
      ensures fits <==> exists n :: n in Contents() && n.count >= count
    {
      for i := 0 to size
        invariant forall k :: 0 <= k < i ==> intervals[k].count < count
      {
        if intervals[i].count >= count {
          assert Contents()[i] in Contents();
          return true;
        }
      }
      return false;
    }

    method BestFit(count: nat, given: nat) returns (found: bool, index: nat)
      requires Valid()
      ensures found <==> exists n :: n in Contents() && n.count >= count
      ensures found ==> exists n :: IsBestFit(Contents(), count, n) && n.index == index
      ensures !found ==> index == given
    {
      found, index := false, given;
      var bestCount: nat := 0;
      for i := 0 to size
        invariant found ==> Interval(index, bestCount) in Contents() && bestCount >= count
        invariant forall k :: 0 <= k < i && intervals[k].count >= count ==>
          found && (bestCount < intervals[k].count || (bestCount == intervals[k].count && index <= intervals[k].index))
        invariant !found ==> index == given
      {
        if intervals[i].count >= count &&
           (!found || intervals[i].count < bestCount || (intervals[i].count == bestCount && intervals[i].index < index)) {
          found, bestCount, index := true, intervals[i].count, intervals[i].index;
          assert Contents()[i] == Interval(index, bestCount);
        }
      }
      if found {
        assert IsBestFit(Contents(), count, Interval(index, bestCount));
      }
    }
  }

  /** Ends of stored intervals stay below the 32-bit limit. */
  lemma {:induction false} Ends(s: seq<Interval>)
    requires Canonical(s) && Listed(s) <= Run(0, INDEX_LIMIT - 1)
    ensures forall i :: 0 <= i < |s| ==> s[i].End() < INDEX_LIMIT
  {
    Bounds(s);
  }

  lemma {:induction false} Opened(was: seq<Interval>, now: seq<Interval>, pos: nat, n: Interval)
    requires pos <= |was| && |now| == |was| + 1 && now[pos] == n
    requires forall k :: 0 <= k < pos ==> now[k] == was[k]
    requires forall k :: pos < k < |now| ==> now[k] == was[k - 1]
    ensures now == Splice(was, pos, [n], pos)
  {
  }

  /** The gaps on both sides of the entries around `pos`. */
  lemma {:induction false} Gaps(s: seq<Interval>, pos: nat)
    requires Canonical(s) && pos <= |s|
    ensures pos > 1 ==> s[pos - 2].End() < s[pos - 1].index
    ensures 0 < pos < |s| ==> s[pos - 1].End() < s[pos].index
    ensures pos + 1 < |s| ==> s[pos].End() < s[pos + 1].index
  {
    CanonicalPairs(s);
  }

  lemma {:induction false} Alone(s: seq<Interval>, pos: nat, index: nat, count: nat)
    requires Canonical(s) && pos <= |s|
    requires pos > 0 ==> s[pos - 1].End() < index
    requires pos < |s| ==> index + count < s[pos].index
    ensures Isolated(s, index, count)
  {
    CanonicalPairs(s);
    forall i | 0 <= i < |s|
      ensures s[i].End() < index || index + count < s[i].index
    {
      assert i < pos ==> s[i].End() <= s[pos - 1].End();
      assert i > pos ==> s[pos].index <= s[i].index;
    }
  }

  /** What is left of an interval after its low end has gone. */
  function LeftOver(n: Interval, count: nat): seq<Interval>
    requires count <= n.count
  {
    if count == n.count then [] else [Interval(n.index + count, n.count - count)]
  }

  /** Taking from the low end of the i-th interval. */
  lemma {:induction false} Shortened(s: seq<Interval>, i: nat, count: nat)
    requires Canonical(s) && i < |s| && count <= s[i].count
    ensures Canonical(Splice(s, i, LeftOver(s[i], count), i + 1))
    ensures Listed(Splice(s, i, LeftOver(s[i], count), i + 1)) == Listed(s) - Run(s[i].index, s[i].index + count)
    ensures Run(s[i].index, s[i].index + count) <= Listed(s)
  {
    var left := LeftOver(s[i], count);
    CanonicalPairs(s);
    assert Canonical(left) by { assert left == [] || left[1..] == []; }
    SpliceCanonical(s, i, left, i + 1);
    SpliceUnits(s, i, left, i + 1);
    assert s[i..i + 1] == [s[i]];
    One(s[i]);
    OtherUnits(s, i);
    CutOut(Listed(s[..i]), s[i], count, Listed(s[i + 1..]));
  }

  lemma {:induction false} OtherUnits(s: seq<Interval>, i: nat)
    requires Canonical(s) && i < |s|
    ensures Listed(s[..i]) !! Run(s[i].index, s[i].End()) && Listed(s[i + 1..]) !! Run(s[i].index, s[i].End())
  {
    CanonicalPairs(s);
    UnitsAt(s[..i]);
    UnitsAt(s[i + 1..]);
    assert forall k: nat, x: nat :: Within(s[..i], k, x) ==> x < s[k].End() < s[i].index;
    var tail := s[i + 1..];
    forall k: nat, x: nat | Within(tail, k, x)
      ensures s[i].End() < x
    {
      assert tail[k] == s[i + 1 + k];
    }
  }

  lemma {:induction false} CutOut(a: set<nat>, n: Interval, count: nat, b: set<nat>)
    requires count <= n.count && a !! Run(n.index, n.End()) && b !! Run(n.index, n.End())
    ensures a + Listed(LeftOver(n, count)) + b == a + Run(n.index, n.End()) + b - Run(n.index, n.index + count)
  {
    if count < n.count {
      One(LeftOver(n, count)[0]);
    }
  }
}
