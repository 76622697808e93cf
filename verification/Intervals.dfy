/** Runs of memory blocks, and the sorted interval list that the allocator's parity
    driver uses as the reference for its free set. */
module Intervals {
  import opened Common

  /** The blocks lo, lo+1, ..., hi-1. */
  function Run(lo: nat, hi: nat): (s: set<nat>)
    ensures forall x: nat :: x in s <==> lo <= x < hi
  {
    set x: nat | lo <= x < hi && Between(lo, x, hi)
  }

  predicate Between(lo: nat, x: nat, hi: nat) { lo <= x < hi }

  lemma {:induction false} RunSize(lo: nat, hi: nat)
    requires lo <= hi
    ensures |Run(lo, hi)| == hi - lo
    decreases hi - lo
  {
    if lo < hi {
      RunSize(lo, hi - 1);
      assert Run(lo, hi) == Run(lo, hi - 1) + {hi - 1};
    }
  }

  /** A finite set of blocks below `hi` has at most `hi` members. */
  lemma {:induction false} BoundedSize(s: set<nat>, hi: nat)
    requires s <= Run(0, hi)
    ensures |s| <= hi
  {
    RunSize(0, hi);
    SubsetSize(s, Run(0, hi));
  }

  lemma {:induction false} DisjointSize<T>(a: set<T>, b: set<T>)
    requires a !! b
    ensures |a + b| == |a| + |b|
  {
  }

  lemma {:induction false} SubsetSize<T>(a: set<T>, b: set<T>)
    requires a <= b
    ensures |a| <= |b|
  {
    if a != {} {
      var x :| x in a;
      SubsetSize(a - {x}, b - {x});
    }
  }

  /** Indices and counts are 32-bit unsigned numbers. */
  const INDEX_LIMIT: nat := WORD32

  datatype Interval = Interval(index: nat, count: nat) {
    function End(): nat { index + count }
  }

  function Blocks(n: Interval): set<nat> { Run(n.index, n.End()) }

  /** Sorted, positive, and with a gap between neighbours. */
  predicate Canonical(s: seq<Interval>) {
    s != [] ==>
      && s[0].count >= 1
      && (|s| > 1 ==> s[0].End() < s[1].index)
      && Canonical(s[1..])
  }

  lemma {:induction false} CanonicalPairs(s: seq<Interval>)
    requires Canonical(s)
    ensures forall i :: 0 <= i < |s| ==> s[i].count >= 1
    ensures forall i, j :: 0 <= i < j < |s| ==> s[i].End() < s[j].index
  {
    if s != [] {
      var tail := s[1..];
      CanonicalPairs(tail);
      assert forall i :: 0 < i < |s| ==> s[i] == tail[i - 1];
    }
  }

  lemma {:induction false} CanonicalConcat(a: seq<Interval>, b: seq<Interval>)
    ensures Canonical(a + b) <==> Canonical(a) && Canonical(b) && (a != [] && b != [] ==> a[|a| - 1].End() < b[0].index)
  {
    if a == [] {
      assert a + b == b;
    } else {
      assert (a + b)[1..] == a[1..] + b;
      CanonicalConcat(a[1..], b);
    }
  }

  /** The blocks a list of intervals covers. */
  function Listed(s: seq<Interval>): set<nat> {
    if s == [] then {} else Run(s[0].index, s[0].End()) + Listed(s[1..])
  }

  function ListTotal(s: seq<Interval>): nat {
    if s == [] then 0 else s[0].count + ListTotal(s[1..])
  }

  /** Block `x` lies in the i-th interval. */
  predicate Within(s: seq<Interval>, i: nat, x: nat) {
    i < |s| && s[i].index <= x < s[i].End()
  }

  lemma {:induction false} UnitsAt(s: seq<Interval>)
    ensures forall x :: x in Listed(s) <==> exists i: nat :: Within(s, i, x)
  {
    if s != [] {
      UnitsAt(s[1..]);
      forall x | x in Listed(s)
        ensures exists i: nat :: Within(s, i, x)
      {
        if !Within(s, 0, x) {
          assert x in Listed(s[1..]);
          var i: nat :| Within(s[1..], i, x);
          assert Within(s, i + 1, x);
        }
      }
      forall x, i: nat | Within(s, i, x)
        ensures x in Listed(s)
      {
        if i > 0 {
          assert Within(s[1..], i - 1, x);
        }
      }
    }
  }

  lemma {:induction false} UnitsConcat(a: seq<Interval>, b: seq<Interval>)
    ensures Listed(a + b) == Listed(a) + Listed(b)
    ensures ListTotal(a + b) == ListTotal(a) + ListTotal(b)
  {
    if a == [] {
      assert a + b == b;
    } else {
      assert (a + b)[1..] == a[1..] + b;
      UnitsConcat(a[1..], b);
    }
  }

  /** The representation is canonical: the covered blocks determine the list. */
  lemma {:induction false} CanonicalUnique(a: seq<Interval>, b: seq<Interval>)
    requires Canonical(a) && Canonical(b) && Listed(a) == Listed(b)
    ensures a == b
  {
    if a != [] {
      FirstRun(a);
    }
    if b != [] {
      FirstRun(b);
    }
    if a != [] && b != [] {
      CanonicalUnique(a[1..], b[1..]);
    }
  }

  /** The first interval is read off the covered set: its start is the least member,
      its end the least non-member above the start. */
  lemma {:induction false} FirstRun(s: seq<Interval>)
    requires Canonical(s) && s != []
    ensures s[0].index in Listed(s) && s[0].End() - 1 in Listed(s) && s[0].End() !in Listed(s)
    ensures forall x :: x in Listed(s) ==> s[0].index <= x
    ensures forall x: nat :: s[0].index <= x < s[0].End() ==> x in Listed(s)
    ensures Canonical(s[1..]) && Listed(s[1..]) == Listed(s) - Run(s[0].index, s[0].End())
  {
    TailAbove(s);
  }

  lemma {:induction false} TailAbove(s: seq<Interval>)
    requires Canonical(s) && s != []
    ensures forall x :: x in Listed(s[1..]) ==> s[0].End() < x
  {
    if |s| > 1 {
      TailAbove(s[1..]);
    }
  }

  lemma {:induction false} OneMore(lo: nat, n: nat, rest: set<nat>)
    requires Run(lo, lo + n) !! rest
    ensures |Run(lo, lo + n) + rest| == n + |rest|
  {
    RunSize(lo, lo + n);
    DisjointSize(Run(lo, lo + n), rest);
  }

  lemma {:induction false} FirstApart(s: seq<Interval>)
    requires Canonical(s) && s != []
    ensures Run(s[0].index, s[0].index + s[0].count) !! Listed(s[1..])
  {
    TailAbove(s);
  }

  /** The blocks of a canonical list are as many as its counts add up to. */
  lemma {:induction false} ListSize(s: seq<Interval>)
    requires Canonical(s)
    ensures |Listed(s)| == ListTotal(s)
  {
    if s != [] {
      var lo, n, rest, m := s[0].index, s[0].count, Listed(s[1..]), ListTotal(s[1..]);
      assert |rest| == m by { ListSize(s[1..]); }
      FirstApart(s);
      assert |Run(lo, lo + n) + rest| == n + m by { OneMore(lo, n, rest); }
      assert Listed(s) == Run(lo, lo + n) + rest;
    }
  }

  /** The ends of every interval of a canonical list are covered blocks. */
  lemma {:induction false} Bounds(s: seq<Interval>)
    requires Canonical(s)
    ensures forall i :: 0 <= i < |s| ==> s[i].index in Listed(s) && s[i].End() - 1 in Listed(s)
  {
    if s != [] {
      Bounds(s[1..]);
      assert forall i :: 0 < i < |s| ==> s[i] == s[1..][i - 1];
    }
  }
}
