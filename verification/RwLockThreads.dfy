/** Any number of threads running the reader/writer lock's code, one atomic access at a time,
    against the lock as a client thinks of it. */
module RwLockThreads {
  import opened RwLock

  datatype State = State(lock: int, threads: seq<Thread>)

  datatype Step = Step(t: nat, action: Action)

  predicate Next(s: State, step: Step, s': State) {
    && step.t < |s.threads| && |s'.threads| == |s.threads|
    && s'.threads == s.threads[step.t := s'.threads[step.t]]
    && Moves(s.lock, s.threads[step.t], step.action, s'.lock, s'.threads[step.t])
  }

  predicate Initial(s: State) {
    s.lock == 0 && forall i :: 0 <= i < |s.threads| ==> s.threads[i] == Thread(Idle, 0, false)
  }

  // ---------- counting holds ----------

  function Reads(ts: seq<Thread>): nat {
    if ts == [] then 0 else Reads(ts[1..]) + ts[0].readHolds
  }

  function Writers(ts: seq<Thread>): nat {
    if ts == [] then 0 else Writers(ts[1..]) + Bit(ts[0])
  }

  function Bit(th: Thread): nat { if th.writes then 1 else 0 }

  lemma {:induction false} Updated(ts: seq<Thread>, i: nat, th: Thread)
    requires i < |ts|
    ensures Reads(ts[i := th]) == Reads(ts) - ts[i].readHolds + th.readHolds
    ensures Writers(ts[i := th]) == Writers(ts) - Bit(ts[i]) + Bit(th)
    ensures ts[i].readHolds <= Reads(ts) && Bit(ts[i]) <= Writers(ts)
  {
    if i > 0 {
      Updated(ts[1..], i - 1, th);
      assert ts[i := th][1..] == ts[1..][i - 1 := th];
    } else {
      assert ts[i := th][1..] == ts[1..];
    }
  }

  lemma {:induction false} NoneHold(ts: seq<Thread>)
    ensures Reads(ts) == 0 <==> forall i :: 0 <= i < |ts| ==> ts[i].readHolds == 0
    ensures Writers(ts) == 0 <==> forall i :: 0 <= i < |ts| ==> !ts[i].writes
  {
    if ts != [] {
      NoneHold(ts[1..]);
      assert forall i :: 0 < i < |ts| ==> ts[i] == ts[1..][i - 1];
    }
  }

  /** Threads that hold the lock at most once each cannot overflow it. */
  lemma {:induction false} OneEach(ts: seq<Thread>)
    requires forall i :: 0 <= i < |ts| ==> ts[i].readHolds <= 1
    ensures Reads(ts) <= |ts|
  {
    if ts != [] {
      OneEach(ts[1..]);
    }
  }

  // ---------- the invariant ----------

  /** The word says who holds the lock. */
  predicate WordTells(s: State) {
    && Writers(s.threads) <= 1
    && (Writers(s.threads) == 1 ==> Reads(s.threads) == 0 && s.lock == WRITE_LOCKED)
    && (Writers(s.threads) == 0 ==> s.lock == Reads(s.threads) <= MAX)
  }

  predicate Sound(th: Thread) {
    && !th.pc.Dead?
    && (th.pc.Swapping? ==> th.pc.count != WRITE_LOCKED)
    && (th.pc.Subtracting? ==> th.readHolds > 0)
    && (th.pc.Checking? || th.pc.Storing? ==> th.writes)
  }

  predicate Inv(s: State) {
    WordTells(s) && forall i :: 0 <= i < |s.threads| ==> Sound(s.threads[i])
  }

  /** The step does not take one read hold more than the word can count. */
  predicate Counts(s: State, step: Step) {
    step.action.Swap? ==> Reads(s.threads) < MAX
  }

  lemma {:induction false} NextKeeps(s: State, step: Step, s': State)
    requires Inv(s) && Next(s, step, s') && Counts(s, step)
    ensures Inv(s')
  {
    Updated(s.threads, step.t, s'.threads[step.t]);
    assert Sound(s.threads[step.t]);
    assert Sound(s'.threads[step.t]);
    assert forall i :: 0 <= i < |s.threads| && i != step.t ==> s'.threads[i] == s.threads[i];
  }

  /** The limit is exact: the one read hold too many turns the word negative. */
  lemma {:induction false} OneTooMany(s: State, step: Step, s': State)
    requires Inv(s) && Next(s, step, s') && !Counts(s, step) && s.threads[step.t].pc.count == s.lock
    ensures s'.lock == -0x8000_0000 && !Inv(s')
  {
    Updated(s.threads, step.t, s'.threads[step.t]);
    assert Writers(s.threads) == 0;
  }

  // ---------- refinement ----------

  /** The lock as its clients think of it: who holds it how. */
  datatype Hold = Hold(readHolds: nat, writes: bool)

  datatype Event = AcquireRead | AcquireWrite | ReleaseRead | ReleaseWrite

  predicate SpecNext(h: seq<Hold>, t: nat, e: Event, h': seq<Hold>) {
    && t < |h|
    && match e
       case AcquireRead =>
         (forall i :: 0 <= i < |h| ==> !h[i].writes) && h' == h[t := Hold(h[t].readHolds + 1, false)]
       case AcquireWrite =>
         (forall i :: 0 <= i < |h| ==> h[i] == Hold(0, false)) && h' == h[t := Hold(0, true)]
       case ReleaseRead =>
         h[t].readHolds > 0 && h' == h[t := Hold(h[t].readHolds - 1, h[t].writes)]
       case ReleaseWrite =>
         h[t].writes && h' == h[t := Hold(h[t].readHolds, false)]
  }

  function Holds(ts: seq<Thread>): seq<Hold> {
    seq(|ts|, i requires 0 <= i < |ts| => Hold(ts[i].readHolds, ts[i].writes))
  }

  /** The event, if any, that a step is to its caller. */
  predicate Happens(s: State, step: Step, e: Event) {
    step.t < |s.threads| &&
    var th := s.threads[step.t];
    match step.action
    case Swap => th.pc.Swapping? && s.lock == th.pc.count && e == AcquireRead
    case SwapWrite => s.lock == 0 && e == AcquireWrite
    case Subtract => e == ReleaseRead
    case Store => e == ReleaseWrite
    case _ => false
  }

  /** Every step of every thread is one event of the abstract lock, or invisible. */
  lemma {:induction false} Refines(s: State, step: Step, s': State)
    requires Inv(s) && Next(s, step, s')
    ensures forall e :: Happens(s, step, e) ==> SpecNext(Holds(s.threads), step.t, e, Holds(s'.threads))
    ensures (forall e :: !Happens(s, step, e)) ==> Holds(s'.threads) == Holds(s.threads)
  {
    var h, h' := Holds(s.threads), Holds(s'.threads);
    var th' := s'.threads[step.t];
    NoneHold(s.threads);
    assert Sound(s.threads[step.t]);
    assert h' == h[step.t := Hold(th'.readHolds, th'.writes)];
    if step.action.Swap? && s.lock == s.threads[step.t].pc.count {
      assert Happens(s, step, AcquireRead);
    }
    if step.action.SwapWrite? && s.lock == 0 {
      assert Happens(s, step, AcquireWrite);
    }
    if step.action.Subtract? {
      assert Happens(s, step, ReleaseRead);
    }
    if step.action.Store? {
      assert Happens(s, step, ReleaseWrite);
    }
  }

  // ---------- whole runs ----------

  ghost predicate IsRun(states: seq<State>, steps: seq<Step>) {
    && |states| == |steps| + 1 && Initial(states[0])
    && forall k :: 0 <= k < |steps| ==> Next(states[k], steps[k], states[k + 1]) && Counts(states[k], steps[k])
  }

  lemma {:induction false} RunKeeps(states: seq<State>, steps: seq<Step>, k: nat)
    requires IsRun(states, steps) && k < |states|
    ensures Inv(states[k])
  {
    if k > 0 {
      RunKeeps(states, steps, k - 1);
      NextKeeps(states[k - 1], steps[k - 1], states[k]);
    } else {
      NoneHold(states[0].threads);
    }
  }

  /** In every run the word is -1 exactly while one thread writes and nobody reads, and else
      counts the read holds; neither of the lock's aborts is reachable. */
  lemma {:induction false} RunSafe(states: seq<State>, steps: seq<Step>, k: nat)
    requires IsRun(states, steps) && k < |states|
    ensures var s := states[k];
      && (s.lock == -1 <==> Writers(s.threads) == 1 && Reads(s.threads) == 0)
      && (s.lock != -1 ==> s.lock == Reads(s.threads) && Writers(s.threads) == 0)
      && forall i :: 0 <= i < |s.threads| ==> !s.threads[i].pc.Dead?
  {
    RunKeeps(states, steps, k);
    var s := states[k];
    assert forall i :: 0 <= i < |s.threads| ==> Sound(s.threads[i]);
  }

  /** A thread that writes is alone: nobody else writes, and nobody at all reads. */
  lemma {:induction false} Exclusive(states: seq<State>, steps: seq<Step>, k: nat, i: nat, j: nat)
    requires IsRun(states, steps) && k < |states|
    requires i < |states[k].threads| && j < |states[k].threads| && states[k].threads[i].writes
    ensures states[k].lock == -1 && states[k].threads[j].readHolds == 0
    ensures i != j ==> !states[k].threads[j].writes
  {
    RunKeeps(states, steps, k);
    var ts := states[k].threads;
    var rest := ts[i := ts[i].(writes := false)];
    Updated(ts, i, ts[i].(writes := false));
    NoneHold(ts);
    NoneHold(rest);
    assert i != j ==> rest[j] == ts[j];
  }

  /** Thread `t` holds a copy of the word in a local variable. */
  predicate HasCopy(th: Thread, count: int) {
    (th.pc.Testing? || th.pc.Swapping?) && th.pc.count == count
  }

  /** At step `j` thread `t` loads the word, and up to `k` it does no more than look at its
      copy, so all of this lies within one call. */
  predicate LastLoad(steps: seq<Step>, t: nat, j: nat, k: nat) {
    && j < k <= |steps| && steps[j] == Step(t, Load)
    && forall i :: j < i < k && steps[i].t == t ==> steps[i].action == Test
  }

  /** A local copy is what the thread's last load met. */
  lemma {:induction false} CopyIsLoaded(states: seq<State>, steps: seq<Step>, t: nat, k: nat) returns (j: nat)
    requires IsRun(states, steps) && k < |states| && t < |states[k].threads|
    requires var pc := states[k].threads[t].pc; pc.Testing? || pc.Swapping?
    ensures LastLoad(steps, t, j, k) && t < |states[j].threads|
    ensures HasCopy(states[k].threads[t], states[j].lock)
  {
    if k == 0 {
      assert false;
    } else {
      assert Next(states[k - 1], steps[k - 1], states[k]);
      CopyStays(states[k - 1], steps[k - 1], states[k], t);
      if steps[k - 1] == Step(t, Load) {
        j := k - 1;
      } else {
        j := CopyIsLoaded(states, steps, t, k - 1);
      }
    }
  }

  /** A copy comes from a load, and is otherwise only looked at. */
  lemma {:induction false} CopyStays(s: State, step: Step, s': State, t: nat)
    requires Next(s, step, s') && t < |s'.threads|
    requires var pc := s'.threads[t].pc; pc.Testing? || pc.Swapping?
    ensures step == Step(t, Load) ==> HasCopy(s'.threads[t], s.lock)
    ensures step != Step(t, Load) ==> HasCopy(s.threads[t], s'.threads[t].pc.count) && (step.t == t ==> step.action == Test)
  {
  }

  lemma {:induction false} FindChange(states: seq<State>, j: nat, k: nat) returns (m: nat)
    requires j <= k < |states| && states[j].lock != states[k].lock
    ensures j <= m < k && states[m].lock != states[m + 1].lock
    decreases k - j
  {
    if states[j].lock != states[j + 1].lock {
      m := j;
    } else {
      m := FindChange(states, j + 1, k);
    }
  }

  /** A reader's swap fails only because another thread changed the word after that reader's
      last load: every failed attempt is somebody else's success. */
  lemma {:induction false} FailureIsProgress(states: seq<State>, steps: seq<Step>, k: nat) returns (j: nat, m: nat)
    requires IsRun(states, steps) && k < |steps| && steps[k].action.Swap?
    requires states[k + 1].threads[steps[k].t].pc.Loading?
    ensures LastLoad(steps, steps[k].t, j, k) && j < m < k
    ensures steps[m].t != steps[k].t && states[m].lock != states[m + 1].lock
  {
    assert Next(states[k], steps[k], states[k + 1]);
    j := CopyIsLoaded(states, steps, steps[k].t, k);
    assert Next(states[j], steps[j], states[j + 1]);
    m := FindChange(states, j + 1, k);
    assert Next(states[m], steps[m], states[m + 1]);
  }

  /** `TryLockRead` returns false only if, at its last load, a thread was writing. */
  lemma {:induction false} TryReadRefusal(states: seq<State>, steps: seq<Step>, k: nat) returns (j: nat, w: nat)
    requires IsRun(states, steps) && k < |steps| && steps[k].action.Test?
    requires states[k + 1].threads[steps[k].t].pc.Idle?
    ensures LastLoad(steps, steps[k].t, j, k)
    ensures w < |states[j].threads| && states[j].threads[w].writes
  {
    assert Next(states[k], steps[k], states[k + 1]);
    j := CopyIsLoaded(states, steps, steps[k].t, k);
    RunKeeps(states, steps, j);
    NoneHold(states[j].threads);
    w :| w < |states[j].threads| && states[j].threads[w].writes;
  }

  /** `TryLockWrite` returns false exactly when some thread holds the lock at that moment. */
  lemma {:induction false} TryWriteRefusal(states: seq<State>, steps: seq<Step>, k: nat)
    requires IsRun(states, steps) && k < |steps| && steps[k].action.SwapWrite?
    ensures var s := states[k];
      s.lock != 0 <==> exists i :: 0 <= i < |s.threads| && (s.threads[i].writes || s.threads[i].readHolds > 0)
  {
    RunKeeps(states, steps, k);
    NoneHold(states[k].threads);
  }

  // ---------- fewer than 2^31 threads ----------

  /** Runs of at most 2^31 - 1 threads that never ask for a second read hold. Nothing is
      assumed about the count itself. */
  ghost predicate IsModestRun(states: seq<State>, steps: seq<Step>) {
    && |states| == |steps| + 1 && Initial(states[0]) && |states[0].threads| <= MAX
    && forall k :: 0 <= k < |steps| ==> Next(states[k], steps[k], states[k + 1]) && Modest(states[k], steps[k])
  }

  predicate Modest(s: State, step: Step) {
    step.t < |s.threads| && step.action.CallRead? ==> s.threads[step.t].readHolds == 0
  }

  /** At most one hold, and none while asking for one. */
  predicate HoldsOne(th: Thread) {
    th.readHolds <= 1 && (th.pc.Loading? || th.pc.Testing? || th.pc.Swapping? ==> th.readHolds == 0)
  }

  predicate AllHoldOne(s: State) { forall i :: 0 <= i < |s.threads| ==> HoldsOne(s.threads[i]) }

  lemma {:induction false} StaysModest(s: State, step: Step, s': State)
    requires AllHoldOne(s) && Next(s, step, s') && Modest(s, step)
    ensures AllHoldOne(s')
  {
    assert HoldsOne(s.threads[step.t]);
    forall i | 0 <= i < |s'.threads|
      ensures HoldsOne(s'.threads[i])
    {
      assert i != step.t ==> s'.threads[i] == s.threads[i] && HoldsOne(s.threads[i]);
    }
  }

  lemma {:induction false} EnoughRoom(s: State, step: Step, s': State)
    requires Next(s, step, s') && |s.threads| <= MAX && AllHoldOne(s)
    ensures Counts(s, step)
  {
    assert HoldsOne(s.threads[step.t]);
    if step.action.Swap? {
      Updated(s.threads, step.t, s.threads[step.t].(readHolds := 1));
      OneEach(s.threads[step.t := s.threads[step.t].(readHolds := 1)]);
    }
  }

  lemma {:induction false} ModestKeeps(states: seq<State>, steps: seq<Step>, k: nat)
    requires IsModestRun(states, steps) && k < |states|
    ensures AllHoldOne(states[k]) && |states[k].threads| <= MAX
  {
    if k > 0 {
      ModestKeeps(states, steps, k - 1);
      StaysModest(states[k - 1], steps[k - 1], states[k]);
    }
  }

  /** Such a run never takes a read hold too many, so it is safe: the word tells exactly who
      holds the lock, and neither abort is reachable. */
  lemma {:induction false} ModestRunSafe(states: seq<State>, steps: seq<Step>, k: nat)
    requires IsModestRun(states, steps) && k < |states|
    ensures IsRun(states, steps)
    ensures var s := states[k];
      && (s.lock == -1 <==> Writers(s.threads) == 1 && Reads(s.threads) == 0)
      && (s.lock != -1 ==> s.lock == Reads(s.threads) && Writers(s.threads) == 0)
      && forall i :: 0 <= i < |s.threads| ==> !s.threads[i].pc.Dead?
  {
    forall j | 0 <= j < |steps|
      ensures Counts(states[j], steps[j])
    {
      ModestKeeps(states, steps, j);
      EnoughRoom(states[j], steps[j], states[j + 1]);
    }
    RunSafe(states, steps, k);
  }

  // ---------- the limit is reached ----------

  lemma {:induction false} Longer(states: seq<State>, steps: seq<Step>, step: Step, s: State)
    requires IsRun(states, steps) && Next(states[|steps|], step, s) && Counts(states[|steps|], step)
    ensures IsRun(states + [s], steps + [step])
  {
  }

  /** One thread alone can take any number of read holds that the word can count, one after
      the other. */
  lemma {:induction false} ManyReads(n: nat) returns (states: seq<State>, steps: seq<Step>)
    requires n <= MAX
    ensures IsRun(states, steps) && states[|steps|] == State(n, [Thread(Idle, n, false)])
  {
    if n == 0 {
      states, steps := [State(0, [Thread(Idle, 0, false)])], [];
    } else {
      states, steps := ManyReads(n - 1);
      states, steps := Asking(states, steps, n - 1);
      var s := State(n, [Thread(Idle, n, false)]);
      assert Wrap32(n) == n;
      Longer(states, steps, Step(0, Swap), s);
      states, steps := states + [s], steps + [Step(0, Swap)];
    }
  }

  /** And stand before the swap for another one. */
  lemma {:induction false} Asking(states: seq<State>, steps: seq<Step>, n: nat) returns (states': seq<State>, steps': seq<Step>)
    requires n <= MAX && IsRun(states, steps) && states[|steps|] == State(n, [Thread(Idle, n, false)])
    ensures IsRun(states', steps') && states'[|steps'|] == State(n, [Thread(Swapping(n, false), n, false)])
    ensures Reads(states'[|steps'|].threads) == n
  {
    var s1, s2, s3 := State(n, [Thread(Loading(false), n, false)]), State(n, [Thread(Testing(n, false), n, false)]), State(n, [Thread(Swapping(n, false), n, false)]);
    Longer(states, steps, Step(0, CallRead(false)), s1);
    Longer(states + [s1], steps + [Step(0, CallRead(false))], Step(0, Load), s2);
    Longer(states + [s1] + [s2], steps + [Step(0, CallRead(false))] + [Step(0, Load)], Step(0, Test), s3);
    states', steps' := states + [s1] + [s2] + [s3], steps + [Step(0, CallRead(false))] + [Step(0, Load)] + [Step(0, Test)];
    assert Reads(s3.threads[1..]) == 0;
  }

  /** So the read hold that is one too many can be asked for, and the word wraps. */
  lemma {:induction false} LimitReached() returns (states: seq<State>, steps: seq<Step>, s': State)
    ensures IsRun(states, steps) && Next(states[|steps|], Step(0, Swap), s') && s'.lock == -0x8000_0000
  {
    states, steps := ManyReads(MAX);
    states, steps := Asking(states, steps, MAX);
    s' := State(-0x8000_0000, [Thread(Idle, MAX + 1, false)]);
  }
}
