/** Any number of runs inserted into the reference list, in any order. */
module InsertOrder {
  import opened Intervals
  import opened IntervalModel

  /** The runs miss the blocks in `free` and each other. */
  ghost predicate Apart(free: set<nat>, runs: seq<Interval>) {
    && (forall i :: 0 <= i < |runs| ==> free !! Blocks(runs[i]))
    && forall i, j :: 0 <= i < j < |runs| ==> Blocks(runs[i]) !! Blocks(runs[j])
  }

  /** The same, one run after the other. */
  predicate Spread(free: set<nat>, runs: seq<Interval>)
    decreases |runs|
  {
    runs != [] ==> free !! Blocks(runs[0]) && Spread(free + Blocks(runs[0]), runs[1..])
  }

  lemma {:induction false} SpreadMeans(free: set<nat>, runs: seq<Interval>)
    ensures Spread(free, runs) <==> Apart(free, runs)
    decreases |runs|
  {
    if runs != [] {
      var first, rest := Blocks(runs[0]), runs[1..];
      SpreadMeans(free + first, rest);
      if Apart(free, runs) {
        forall i | 0 <= i < |rest|
          ensures free + first !! Blocks(rest[i])
        {
          assert rest[i] == runs[i + 1] && first !! Blocks(runs[i + 1]);
        }
        assert Apart(free + first, rest);
      }
      if free !! first && Apart(free + first, rest) {
        forall i, j | 0 <= i < j < |runs|
          ensures Blocks(runs[i]) !! Blocks(runs[j])
        {
          assert runs[j] == rest[j - 1] && free + first !! Blocks(rest[j - 1]);
          assert i > 0 ==> runs[i] == rest[i - 1];
        }
        assert forall i :: 0 < i < |runs| ==> runs[i] == rest[i - 1] && free + first !! Blocks(rest[i - 1]);
      }
    }
  }

  lemma {:induction false} Swap(free: set<nat>, x: Interval, y: Interval, rest: seq<Interval>)
    ensures Spread(free, [x] + ([y] + rest)) <==> Spread(free, [y] + ([x] + rest))
    ensures Listed([x] + ([y] + rest)) == Listed([y] + ([x] + rest))
  {
    Front(free, x, [y] + rest);
    Front(free + Blocks(x), y, rest);
    Front(free, y, [x] + rest);
    Front(free + Blocks(y), x, rest);
    assert free + Blocks(x) + Blocks(y) == free + Blocks(y) + Blocks(x);
  }

  lemma {:induction false} Front(free: set<nat>, x: Interval, rest: seq<Interval>)
    ensures Spread(free, [x] + rest) <==> free !! Blocks(x) && Spread(free + Blocks(x), rest)
    ensures Listed([x] + rest) == Blocks(x) + Listed(rest)
  {
    assert ([x] + rest)[1..] == rest;
  }

  /** Any run may go first. */
  lemma {:induction false} PullOut(free: set<nat>, runs: seq<Interval>, i: nat)
    requires i < |runs|
    ensures var pulled := [runs[i]] + (runs[..i] + runs[i + 1..]);
      (Spread(free, runs) <==> Spread(free, pulled)) && Listed(runs) == Listed(pulled)
    decreases |runs|
  {
    var others := runs[..i] + runs[i + 1..];
    if i == 0 {
      assert [runs[0]] + others == runs;
    } else {
      var x, rest := runs[0], runs[1..];
      var fewer := rest[..i - 1] + rest[i..];
      assert runs == [x] + rest && rest[i - 1] == runs[i];
      assert others == [x] + fewer;
      PullOut(free + Blocks(x), rest, i - 1);
      Front(free, x, rest);
      Front(free, x, [runs[i]] + fewer);
      Swap(free, x, runs[i], fewer);
    }
  }

  lemma {:induction false} Without(runs: seq<Interval>, i: nat)
    requires i < |runs|
    ensures multiset(runs) == multiset{runs[i]} + multiset(runs[..i] + runs[i + 1..])
  {
    assert runs == runs[..i] + [runs[i]] + runs[i + 1..];
  }

  lemma {:induction false} Cancel(n: Interval, a: multiset<Interval>, b: multiset<Interval>)
    requires multiset{n} + a == multiset{n} + b
    ensures a == b
  {
    assert a == multiset{n} + a - multiset{n} && b == multiset{n} + b - multiset{n};
  }

  /** Order matters neither to whether the runs fit nor to what they cover. */
  lemma {:induction false} Reordered(free: set<nat>, a: seq<Interval>, b: seq<Interval>)
    requires multiset(a) == multiset(b)
    ensures (Spread(free, a) <==> Spread(free, b)) && Listed(a) == Listed(b)
    decreases |a|
  {
    if a == [] {
      assert |multiset(b)| == 0;
    } else {
      assert a[0] in multiset(b);
      var i :| 0 <= i < |b| && b[i] == a[0];
      var rest, others := a[1..], b[..i] + b[i + 1..];
      assert a == [a[0]] + rest && a[..0] + a[1..] == rest;
      Without(a, 0);
      Without(b, i);
      Cancel(a[0], multiset(rest), multiset(others));
      PullOut(free, b, i);
      Reordered(free + Blocks(a[0]), rest, others);
      Front(free, a[0], rest);
      Front(free, a[0], others);
    }
  }

  /** The i-th run joins those before it. */
  lemma {:induction false} NextRun(free: set<nat>, runs: seq<Interval>, i: nat)
    requires i < |runs|
    ensures free + Listed(runs[..i + 1]) == free + Listed(runs[..i]) + Blocks(runs[i])
    ensures Spread(free + Listed(runs[..i]), runs[i..]) <==>
      free + Listed(runs[..i]) !! Blocks(runs[i]) && Spread(free + Listed(runs[..i + 1]), runs[i + 1..])
  {
    Front(free + Listed(runs[..i]), runs[i], runs[i + 1..]);
    assert runs[i..] == [runs[i]] + runs[i + 1..] && runs[..i + 1] == runs[..i] + [runs[i]];
    UnitsConcat(runs[..i], [runs[i]]);
    One(runs[i]);
  }

  predicate Storable(runs: seq<Interval>) {
    forall n :: n in runs ==> n.count >= 1 && n.End() < INDEX_LIMIT
  }

  /** Inserts the runs one by one and stops at the first refusal. */
  method InsertAll(model: Model, runs: seq<Interval>) returns (all: bool)
    requires model.Valid() && Storable(runs) && model.size + |runs| <= model.intervals.Length
    modifies model, model.intervals
    ensures model.Valid() && (all <==> Apart(Listed(old(model.Contents())), runs))
    ensures all ==> Listed(model.Contents()) == Listed(old(model.Contents())) + Listed(runs)
  {
    ghost var free := Listed(model.Contents());
    SpreadMeans(free, runs);
    for i := 0 to |runs|
      invariant model.Valid() && model.size + (|runs| - i) <= model.intervals.Length
      invariant Listed(model.Contents()) == free + Listed(runs[..i])
      invariant Spread(free, runs) <==> Spread(free + Listed(runs[..i]), runs[i..])
    {
      NextRun(free, runs, i);
      var ok := model.Insert(runs[i].index, runs[i].count);
      if !ok {
        return false;
      }
    }
    assert runs[..|runs|] == runs;
    return true;
  }

  /** The same runs in two orders: both lists take them all exactly when the runs miss the
      list and each other, and then they are equal element for element. */
  method InsertOrders(m: Model, m': Model, a: seq<Interval>, b: seq<Interval>) returns (all: bool, all': bool)
    requires m != m' && m.intervals != m'.intervals && m.Valid() && m'.Valid() && m.Contents() == m'.Contents()
    requires multiset(a) == multiset(b) && Storable(a) && Storable(b)
    requires m.size + |a| <= m.intervals.Length && m'.size + |b| <= m'.intervals.Length
    modifies m, m.intervals, m', m'.intervals
    ensures all <==> Apart(Listed(old(m.Contents())), a)
    ensures all' == all && m.Valid() && m'.Valid()
    ensures all ==> m.Contents() == m'.Contents() && Listed(m.Contents()) == Listed(old(m.Contents())) + Listed(a)
  {
    ghost var free := Listed(m.Contents());
    Reordered(free, a, b);
    SpreadMeans(free, a);
    SpreadMeans(free, b);
    all := InsertAll(m, a);
    all' := InsertAll(m', b);
    if all {
      CanonicalUnique(m.Contents(), m'.Contents());
    }
  }
}
