/** The two trees of free units as threads see them: units change hands under one lock at a
    time, and a run that is being released is in neither tree for a while. */
module FreeRegionProtocol {
  import opened Intervals

  /** `used` are the units in neither tree that some client may hand in; `flight` is the run
      that a releasing thread has taken from the dirty tree and not yet put into the other. */
  datatype State = State(units: nat, dirty: set<nat>, released: set<nat>, used: set<nat>, flight: map<nat, Interval>, fatal: bool)

  /** A run leaves a tree; a run joins one, which is fatal exactly when one of its units is
      there already. */
  predicate Leaves(tree: set<nat>, n: Interval, tree': set<nat>) {
    n.count >= 1 && Blocks(n) <= tree && tree' == tree - Blocks(n)
  }

  predicate Joins(tree: set<nat>, n: Interval, tree': set<nat>, fatal: bool) {
    (fatal <==> !(tree !! Blocks(n))) && tree' == if fatal then tree else tree + Blocks(n)
  }

  datatype Step =
    | TakeDirty(n: Interval)
    | TakeReleased(n: Interval)
    | AddGarbage(n: Interval)
    | AddRelease(n: Interval)
    | PopRoot(t: nat, n: Interval)
    | PushReleased(t: nat)

  /** A merge is fatal when a unit is in the tree already. Clients hand in units that they
      have; nothing else is asked of them. */
  ghost predicate Next(s: State, step: Step, s': State) {
    match step
    case TakeDirty(n) =>
      Leaves(s.dirty, n, s'.dirty) && s' == s.(dirty := s'.dirty, used := s.used + Blocks(n))
    case TakeReleased(n) =>
      Leaves(s.released, n, s'.released) && s' == s.(released := s'.released, used := s.used + Blocks(n))
    case AddGarbage(n) =>
      && n.count >= 1 && Blocks(n) <= s.used && Joins(s.dirty, n, s'.dirty, s'.fatal) && !s.fatal
      && s' == s.(dirty := s'.dirty, used := if s'.fatal then s.used else s.used - Blocks(n), fatal := s'.fatal)
    case AddRelease(n) =>
      && n.count >= 1 && Blocks(n) <= s.used && Joins(s.released, n, s'.released, s'.fatal) && !s.fatal
      && s' == s.(released := s'.released, used := if s'.fatal then s.used else s.used - Blocks(n), fatal := s'.fatal)
    case PopRoot(t, n) =>
      && t !in s.flight && Leaves(s.dirty, n, s'.dirty)
      && s' == s.(dirty := s'.dirty, flight := s.flight[t := n])
    case PushReleased(t) =>
      && t in s.flight && Joins(s.released, s.flight[t], s'.released, s'.fatal) && !s.fatal
      && s' == s.(released := s'.released, flight := if s'.fatal then s.flight else s.flight - {t}, fatal := s'.fatal)
  }

  predicate Initial(s: State) {
    s == State(s.units, {}, {}, Run(0, s.units), map[], false)
  }

  /** Unit `x` is under way in the hands of thread `t`. */
  predicate Carries(s: State, t: nat, x: nat) { t in s.flight && x in Blocks(s.flight[t]) }

  ghost predicate UnderWay(s: State, x: nat) { exists t :: Carries(s, t, x) }

  /** Every unit is in exactly one place. */
  ghost predicate Placed(s: State, x: nat) {
    && (x in s.dirty ==> x !in s.released && x !in s.used && !UnderWay(s, x))
    && (x in s.released ==> x !in s.used && !UnderWay(s, x))
    && (x in s.used ==> !UnderWay(s, x))
    && (x < s.units <==> x in s.dirty || x in s.released || x in s.used || UnderWay(s, x))
  }

  ghost predicate Inv(s: State) {
    && !s.fatal && (forall x :: Placed(s, x))
    && forall t, u, x :: Carries(s, t, x) && Carries(s, u, x) ==> t == u
  }

  lemma {:induction false} TakeKeeps(s: State, step: Step, s': State)
    requires Inv(s) && Next(s, step, s') && (step.TakeDirty? || step.TakeReleased? || step.AddGarbage? || step.AddRelease?)
    ensures Inv(s') && s'.units == s.units
  {
    assert forall t, x :: Carries(s, t, x) <==> Carries(s', t, x);
    assert forall x :: x in Blocks(step.n) ==> Placed(s, x);
    forall x: nat
      ensures Placed(s', x)
    {
      assert Placed(s, x) && (UnderWay(s, x) <==> UnderWay(s', x));
    }
  }

  lemma {:induction false} PopKeeps(s: State, t: nat, n: Interval, s': State)
    requires Inv(s) && Next(s, PopRoot(t, n), s')
    ensures Inv(s') && s'.units == s.units
  {
    assert forall u, x :: u != t ==> (Carries(s, u, x) <==> Carries(s', u, x));
    assert forall x :: Carries(s', t, x) <==> x in Blocks(n);
    forall x
      ensures Placed(s', x) && (UnderWay(s', x) <==> UnderWay(s, x) || x in Blocks(n))
    {
      assert Placed(s, x);
      if x in Blocks(n) {
        assert Carries(s', t, x);
      }
      if UnderWay(s, x) {
        var u :| Carries(s, u, x);
        assert Carries(s', u, x);
      }
    }
    forall u, v, x | Carries(s', u, x) && Carries(s', v, x)
      ensures u == v
    {
      assert Placed(s, x);
      assert (u != t ==> Carries(s, u, x)) && (v != t ==> Carries(s, v, x));
    }
  }

  lemma {:induction false} PushKeeps(s: State, t: nat, s': State)
    requires Inv(s) && Next(s, PushReleased(t), s')
    ensures Inv(s') && s'.units == s.units
  {
    var run := Blocks(s.flight[t]);
    forall x | x in run
      ensures x !in s.released
    {
      assert Placed(s, x) && Carries(s, t, x);
    }
    assert forall u, x :: Carries(s', u, x) <==> u != t && Carries(s, u, x);
    forall x
      ensures Placed(s', x)
    {
      assert Placed(s, x);
      if x in run {
        assert Carries(s, t, x);
      }
      if UnderWay(s, x) {
        var u :| Carries(s, u, x);
        assert u != t ==> Carries(s', u, x);
      }
    }
  }

  lemma {:induction false} NextKeeps(s: State, step: Step, s': State)
    requires Inv(s) && Next(s, step, s')
    ensures Inv(s') && s'.units == s.units
  {
    match step
    case PopRoot(t, n) => PopKeeps(s, t, n, s');
    case PushReleased(t) => PushKeeps(s, t, s');
    case _ => TakeKeeps(s, step, s');
  }

  // ---------- whole runs ----------

  ghost predicate IsRun(states: seq<State>, steps: seq<Step>) {
    && |states| == |steps| + 1 && Initial(states[0])
    && forall k :: 0 <= k < |steps| ==> Next(states[k], steps[k], states[k + 1])
  }

  /** In every interleaving neither merge is fatal, and every unit is at every moment in
      exactly one of the trees, in use, or under way with exactly one thread. */
  lemma {:induction false} RunSafe(states: seq<State>, steps: seq<Step>, k: nat)
    requires IsRun(states, steps) && k < |states|
    ensures Inv(states[k]) && states[k].units == states[0].units
  {
    if k > 0 {
      RunSafe(states, steps, k - 1);
      NextKeeps(states[k - 1], steps[k - 1], states[k]);
    } else {
      assert forall x :: !UnderWay(states[0], x);
    }
  }

  /** With nothing under way the three places add up. */
  lemma {:induction false} Conservation(states: seq<State>, steps: seq<Step>, k: nat)
    requires IsRun(states, steps) && k < |states| && states[k].flight == map[]
    ensures var s := states[k]; |s.dirty| + |s.released| + |s.used| == states[0].units
  {
    RunSafe(states, steps, k);
    var s := states[k];
    forall x: nat
      ensures x in s.dirty + s.released + s.used <==> x < s.units
      ensures !(x in s.dirty && x in s.released) && !(x in s.dirty + s.released && x in s.used)
    {
      assert Placed(s, x) && !UnderWay(s, x);
    }
    assert s.dirty + s.released + s.used == Run(0, s.units);
    RunSize(0, s.units);
    DisjointSize(s.dirty, s.released);
    DisjointSize(s.dirty + s.released, s.used);
  }
}
