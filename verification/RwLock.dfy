/** The reader/writer lock: one 32-bit word, changed only by atomic accesses. This is the
    code of one thread against whatever the other threads do to the word meanwhile. */
module RwLock {

  const WRITE_LOCKED := -1
  const MAX: nat := 0x7fff_ffff

  /** Signed 32-bit wrap-around. */
  function Wrap32(x: int): int {
    (x + 0x8000_0000) % 0x1_0000_0000 - 0x8000_0000
  }

  // ---------- the code as moves ----------

  /** Where a thread stands in the lock's code; `count` is its local copy of the word. */
  datatype PC =
    | Idle
    | Loading(try: bool)
    | Testing(count: int, try: bool)
    | Swapping(count: int, try: bool)
    | SwappingWrite(try: bool)
    | Subtracting
    | Checking
    | Storing
    | Dead

  /** `readHolds` and `writes` are what the thread's finished calls have given it. */
  datatype Thread = Thread(pc: PC, readHolds: nat, writes: bool)

  datatype Action =
    | CallRead(try: bool) | CallWrite(try: bool) | CallUnlockRead | CallUnlockWrite
    | Load | Test | Swap | SwapWrite | Subtract | Check | Store

  /** One thread's move: the word and the thread, before and after. Callers only unlock what
      they hold; that is all that is asked of them. */
  predicate Moves(lock: int, th: Thread, a: Action, lock': int, th': Thread) {
    match a
    case CallRead(try) =>
      th.pc.Idle? && lock' == lock && th' == th.(pc := Loading(try))
    case CallWrite(try) =>
      th.pc.Idle? && lock' == lock && th' == th.(pc := SwappingWrite(try))
    case CallUnlockRead =>
      th.pc.Idle? && th.readHolds > 0 && lock' == lock && th' == th.(pc := Subtracting)
    case CallUnlockWrite =>
      th.pc.Idle? && th.writes && lock' == lock && th' == th.(pc := Checking)
    case Load =>
      th.pc.Loading? && lock' == lock && th' == th.(pc := Testing(lock, th.pc.try))
    case Test =>
      && th.pc.Testing? && lock' == lock
      && th'.readHolds == th.readHolds && th'.writes == th.writes
      && th'.pc == (if th.pc.count != WRITE_LOCKED then Swapping(th.pc.count, th.pc.try)
                    else if th.pc.try then Idle else Loading(false))
    case Swap =>
      && th.pc.Swapping?
      && (if lock == th.pc.count then
            lock' == Wrap32(lock + 1) && th' == Thread(Idle, th.readHolds + 1, th.writes)
          else
            lock' == lock && th' == th.(pc := Loading(th.pc.try)))
    case SwapWrite =>
      && th.pc.SwappingWrite?
      && (if lock == 0 then
            lock' == WRITE_LOCKED && th' == Thread(Idle, th.readHolds, true)
          else
            lock' == lock && th' == th.(pc := if th.pc.try then Idle else SwappingWrite(false)))
    case Subtract =>
      && th.pc.Subtracting? && th.readHolds > 0 && lock' == Wrap32(lock - 1)
      && th' == Thread(if lock < 0 then Dead else Idle, th.readHolds - 1, th.writes)
    case Check =>
      && th.pc.Checking? && lock' == lock
      && th' == th.(pc := if lock == WRITE_LOCKED then Storing else Dead)
    case Store =>
      th.pc.Storing? && lock' == 0 && th' == Thread(Idle, th.readHolds, false)
  }

  /** One move of the thread that runs the code. */
  datatype Move = Move(before: int, from: Thread, action: Action, after: int, to: Thread)

  /** The moves of a call so far. */
  datatype Trace = Start | Then(before: Trace, last: Move)

  /** Calls and tests touch only the thread's own state. */
  predicate Local(a: Action) { a.CallRead? || a.CallWrite? || a.CallUnlockRead? || a.CallUnlockWrite? || a.Test? }

  /** The moves lead the thread from one state to another, and their accesses meet the first
      `k` values of `seen`. */
  predicate Follows(p: Trace, seen: seq<int>, k: nat, from: Thread, to: Thread) {
    match p
    case Start => k == 0 && from == to
    case Then(q, m) =>
      && Moves(m.before, m.from, m.action, m.after, m.to) && m.to == to
      && (if Local(m.action) then
            Follows(q, seen, k, from, m.from)
          else
            0 < k <= |seen| && m.before == seen[k - 1] && Follows(q, seen, k - 1, from, m.from))
  }

  // ---------- the code itself ----------

  /** How far a call has come: still waiting when the list ended, over with or without the
      lock, or with a fresh copy of the word to go on with. */
  datatype Try = Waiting | Got | Refused | Loaded

  /** The methods run against a list `seen` of what the thread meets in the word, access by
      access, for as long as that lasts: a call that is not over by then is still waiting. The
      ghost `path` says that every access is the move that the thread machine makes there. */
  class RwLock {
    var lockCount: int
    ghost var self: Thread

    constructor ()
      ensures lockCount == 0 && self == Thread(Idle, 0, false)
    {
      lockCount, self := 0, Thread(Idle, 0, false);
    }

    /** A step of the code that does not touch the word. */
    ghost method Think(path: Trace, seen: seq<int>, k: nat, from: Thread, a: Action, to: Thread) returns (path': Trace)
      requires Follows(path, seen, k, from, self) && Local(a) && Moves(lockCount, self, a, lockCount, to)
      modifies this`self
      ensures self == to && Follows(path', seen, k, from, to)
    {
      path' := Then(path, Move(lockCount, self, a, lockCount, to));
      self := to;
    }

    /** The k-th access, after which the word is `lockCount`. */
    ghost method Touch(path: Trace, seen: seq<int>, k: nat, from: Thread, a: Action, to: Thread) returns (path': Trace)
      requires k < |seen| && Follows(path, seen, k, from, self) && !Local(a) && Moves(seen[k], self, a, lockCount, to)
      modifies this`self
      ensures self == to && Follows(path', seen, k + 1, from, to)
    {
      path' := Then(path, Move(seen[k], self, a, lockCount, to));
      self := to;
    }

    method Load(seen: seq<int>, k: nat, ghost path: Trace, ghost from: Thread) returns (count: int, ghost path': Trace)
      requires k < |seen| && Follows(path, seen, k, from, self) && self.pc.Loading?
      modifies this
      ensures count == lockCount == seen[k] && self == old(self).(pc := Testing(count, old(self).pc.try))
      ensures Follows(path', seen, k + 1, from, self)
    {
      lockCount := seen[k];
      count := lockCount;
      path' := Touch(path, seen, k, from, Action.Load, self.(pc := Testing(count, self.pc.try)));
    }

    /** The swap of `count` for `count + 1`. */
    method Swap(seen: seq<int>, k: nat, count: int, ghost path: Trace, ghost from: Thread) returns (ok: bool, ghost path': Trace)
      requires k < |seen| && Follows(path, seen, k, from, self) && self.pc.Swapping? && self.pc.count == count
      modifies this
      ensures ok == (seen[k] == count) && lockCount == if ok then Wrap32(seen[k] + 1) else seen[k]
      ensures self == if ok then Thread(Idle, old(self).readHolds + 1, old(self).writes) else old(self).(pc := Loading(old(self).pc.try))
      ensures Follows(path', seen, k + 1, from, self)
    {
      lockCount := seen[k];
      ok := lockCount == count;
      ghost var to := self.(pc := Loading(self.pc.try));
      if ok {
        lockCount := Wrap32(count + 1);
        to := Thread(Idle, self.readHolds + 1, self.writes);
      }
      path' := Touch(path, seen, k, from, Action.Swap, to);
    }

    /** The swap of 0 for write-locked. */
    method SwapWrite(seen: seq<int>, k: nat, ghost path: Trace, ghost from: Thread) returns (ok: bool, ghost path': Trace)
      requires k < |seen| && Follows(path, seen, k, from, self) && self.pc.SwappingWrite?
      modifies this
      ensures ok == (seen[k] == 0) && lockCount == if ok then WRITE_LOCKED else seen[k]
      ensures self == if ok then Thread(Idle, old(self).readHolds, true)
                      else old(self).(pc := if old(self).pc.try then Idle else SwappingWrite(false))
      ensures Follows(path', seen, k + 1, from, self)
    {
      lockCount := seen[k];
      ok := lockCount == 0;
      ghost var to := self.(pc := if self.pc.try then Idle else SwappingWrite(false));
      if ok {
        lockCount := WRITE_LOCKED;
        to := Thread(Idle, self.readHolds, true);
      }
      path' := Touch(path, seen, k, from, Action.SwapWrite, to);
    }

    /** Spins while a writer holds the lock, then adds a reader to the very value it loaded.
        It cannot keep waiting once it meets the same value, not write-locked, three times. */
    method LockRead(seen: seq<int>) returns (done: bool, k: nat, ghost path: Trace)
      requires self.pc.Idle?
      modifies this
      ensures k <= |seen| && Follows(path, seen, k, old(self), self)
      ensures done ==> Acquired(seen, k, lockCount, old(self), self)
      ensures !done ==> k == |seen| && Unsettled(seen, k) && Pending(old(self), self)
      ensures done ==> k > 0 && seen[k - 1] != -1 && (-0x8000_0000 <= seen[k - 1] < 0x7fff_ffff ==> lockCount == seen[k - 1] + 1)
    {
      var r, count;
      r, k, count, path := FirstLoad(seen, false);
      while r.Loaded?
        invariant k <= |seen| && Follows(path, seen, k, old(self), self) && !r.Refused?
        invariant r.Loaded? ==> AfterLoad(self, old(self), count, seen, k, false)
        invariant r.Got? ==> Acquired(seen, k, lockCount, old(self), self)
        invariant r.Waiting? ==> k == |seen| && Unsettled(seen, k) && Pending(old(self), self)
        decreases |seen| - k, r.Loaded?
      {
        r, k, count, path := AwaitNoWriter(seen, k, count, path, old(self));
        if r.Loaded? {
          r, k, count, path := Attempt(seen, k, count, path, old(self), false);
        }
      }
      done := r.Got?;
      if done {
        OneReaderMore(seen, k, lockCount, old(self), self);
      }
    }

    /** The call and its first load. */
    method FirstLoad(seen: seq<int>, try: bool) returns (r: Try, k: nat, count: int, ghost path: Trace)
      requires self.pc.Idle?
      modifies this
      ensures k <= |seen| && Follows(path, seen, k, old(self), self) && (r.Loaded? || r.Waiting?)
      ensures r.Loaded? ==> k == 1 && lockCount == count && AfterLoad(self, old(self), count, seen, k, try)
      ensures r.Waiting? ==> k == |seen| == 0 && Pending(old(self), self)
    {
      r, k, count := Waiting, 0, 0;
      path := Think(Start, seen, 0, self, CallRead(try), self.(pc := Loading(try)));
      if |seen| > 0 {
        count, path := Load(seen, 0, path, old(self));
        r, k := Loaded, 1;
      }
    }

    /** The inner loop: loads for as long as the word is write-locked. */
    method AwaitNoWriter(seen: seq<int>, k: nat, count: int, ghost path: Trace, ghost from: Thread)
      returns (r: Try, k': nat, count': int, ghost path': Trace)
      requires Follows(path, seen, k, from, self) && AfterLoad(self, from, count, seen, k, false)
      modifies this
      ensures k <= k' <= |seen| && Follows(path', seen, k', from, self) && (r.Loaded? || r.Waiting?)
      ensures r.Loaded? ==> count' != WRITE_LOCKED && AfterLoad(self, from, count', seen, k', false)
      ensures r.Waiting? ==> k' == |seen| && Unsettled(seen, k') && Pending(from, self)
    {
      k', count', path' := k, count, path;
      while count' == WRITE_LOCKED
        invariant k <= k' <= |seen| && Follows(path', seen, k', from, self)
        invariant AfterLoad(self, from, count', seen, k', false)
        decreases |seen| - k'
      {
        path' := Think(path', seen, k', from, Test, self.(pc := Loading(false)));
        if k' == |seen| {
          return Waiting, k', count', path';
        }
        count', path' := Load(seen, k', path', from);
        k' := k' + 1;
      }
      r := Loaded;
    }

    /** One swap and, when it fails, the load that prepares the next. */
    method Attempt(seen: seq<int>, k: nat, count: int, ghost path: Trace, ghost from: Thread, try: bool)
      returns (r: Try, k': nat, count': int, ghost path': Trace)
      requires Follows(path, seen, k, from, self) && AfterLoad(self, from, count, seen, k, try) && count != WRITE_LOCKED
      modifies this
      ensures k <= k' <= |seen| && Follows(path', seen, k', from, self) && !r.Refused?
      ensures r.Got? ==> Acquired(seen, k', lockCount, from, self)
      ensures r.Loaded? ==> k' == k + 2 && lockCount == count' && AfterLoad(self, from, count', seen, k', try)
      ensures r.Waiting? ==> k' == |seen| && Unsettled(seen, k') && Pending(from, self)
    {
      k', count' := k, count;
      path' := Think(path, seen, k, from, Test, self.(pc := Swapping(count, try)));
      if k' == |seen| {
        return Waiting, k', count', path';
      }
      var acquired;
      acquired, path' := Swap(seen, k', count, path', from);
      k' := k' + 1;
      if acquired {
        return Got, k', count', path';
      }
      if k' == |seen| {
        return Waiting, k', count', path';
      }
      count', path' := Load(seen, k', path', from);
      r, k' := Loaded, k' + 1;
    }

    /** One attempt per failed swap; gives up exactly when a load meets a writer. */
    method TryLockRead(seen: seq<int>) returns (r: Try, k: nat, ghost path: Trace)
      requires self.pc.Idle?
      modifies this
      ensures k <= |seen| && Follows(path, seen, k, old(self), self) && !r.Loaded?
      ensures r.Got? ==> Acquired(seen, k, lockCount, old(self), self)
      ensures r.Refused? ==> k > 0 && seen[k - 1] == lockCount == -1 && self == old(self)
      ensures r.Waiting? ==> k == |seen| && Unsettled(seen, k) && Pending(old(self), self)
      ensures r.Got? ==> k > 0 && seen[k - 1] != -1 && (-0x8000_0000 <= seen[k - 1] < 0x7fff_ffff ==> lockCount == seen[k - 1] + 1)
    {
      var count;
      r, k, count, path := FirstLoad(seen, true);
      while r.Loaded?
        invariant k <= |seen| && Follows(path, seen, k, old(self), self) && !r.Refused?
        invariant TryingRead(r, seen, k, count, lockCount, old(self), self)
        decreases |seen| - k, r.Loaded?
      {
        if count == WRITE_LOCKED {
          path := Think(path, seen, k, old(self), Test, self.(pc := Idle));
          return Refused, k, path;
        }
        r, k, count, path := Attempt(seen, k, count, path, old(self), true);
      }
      if r.Got? {
        OneReaderMore(seen, k, lockCount, old(self), self);
      }
    }

    /** Swaps free for write-locked, however long that takes. */
    method LockWrite(seen: seq<int>) returns (done: bool, k: nat, ghost path: Trace)
      requires self.pc.Idle?
      modifies this
      ensures k <= |seen| && Follows(path, seen, k, old(self), self)
      ensures forall j :: 0 <= j < (if done then k - 1 else k) ==> seen[j] != 0
      ensures done ==> k > 0 && seen[k - 1] == 0 && lockCount == -1 && self == Thread(Idle, old(self).readHolds, true)
      ensures !done ==> k == |seen| && self == old(self).(pc := SwappingWrite(false))
    {
      k, done := 0, false;
      path := Think(Start, seen, 0, self, CallWrite(false), self.(pc := SwappingWrite(false)));
      while !done && k < |seen|
        invariant k <= |seen| && Follows(path, seen, k, old(self), self)
        invariant forall j :: 0 <= j < (if done then k - 1 else k) ==> seen[j] != 0
        invariant done ==> k > 0 && seen[k - 1] == 0 && lockCount == WRITE_LOCKED && self == Thread(Idle, old(self).readHolds, true)
        invariant !done ==> self == old(self).(pc := SwappingWrite(false))
        decreases |seen| - k
      {
        done, path := SwapWrite(seen, k, path, old(self));
        k := k + 1;
      }
    }

    /** One attempt on the word `w`. */
    method TryLockWrite(w: int) returns (ok: bool, ghost path: Trace)
      requires self.pc.Idle?
      modifies this
      ensures Follows(path, [w], 1, old(self), self) && self.pc.Idle?
      ensures (ok <==> w == 0) && lockCount == if ok then -1 else w
      ensures self == old(self).(writes := ok || old(self).writes)
    {
      path := Think(Start, [w], 0, self, CallWrite(true), self.(pc := SwappingWrite(true)));
      ok, path := SwapWrite([w], 0, path, old(self));
    }

    /** Takes one away from the word met, and aborts if that was negative. A thread that holds
        a read lock makes the machine's moves. */
    method UnlockRead(w: int) returns (aborts: bool, ghost path: Trace)
      requires self.pc.Idle?
      modifies this
      ensures lockCount == Wrap32(w - 1) && (aborts <==> w < 0)
      ensures -0x8000_0000 < w <= 0x7fff_ffff ==> lockCount == w - 1
      ensures old(self).readHolds > 0 ==>
        && Follows(path, [w], 1, old(self), self)
        && self == Thread(if aborts then Dead else Idle, old(self).readHolds - 1, old(self).writes)
    {
      path := Start;
      if self.readHolds > 0 {
        path := Think(path, [w], 0, self, CallUnlockRead, self.(pc := Subtracting));
      }
      lockCount := w;
      var count := lockCount;
      lockCount := Wrap32(lockCount - 1);
      aborts := count < 0;
      if self.readHolds > 0 {
        path := Touch(path, [w], 0, old(self), Subtract, Thread(if aborts then Dead else Idle, self.readHolds - 1, self.writes));
      }
    }

    /** Checks the word `w`, then stores; the store wipes out whatever `w'` has come in
        between. A thread that holds the write lock makes the machine's moves. */
    method UnlockWrite(w: int, w': int) returns (fatal: bool, ghost path: Trace)
      requires self.pc.Idle?
      modifies this
      ensures (fatal <==> w != -1) && lockCount == if fatal then w else 0
      ensures old(self).writes ==>
        && Follows(path, [w, w'], if fatal then 1 else 2, old(self), self)
        && self == if fatal then old(self).(pc := Dead) else Thread(Idle, old(self).readHolds, false)
    {
      path := Start;
      ghost var disciplined := self.writes;
      if disciplined {
        path := Think(path, [w, w'], 0, self, CallUnlockWrite, self.(pc := Checking));
      }
      lockCount := w;
      fatal := lockCount != WRITE_LOCKED;
      if disciplined {
        path := Touch(path, [w, w'], 0, old(self), Check, self.(pc := if fatal then Dead else Storing));
      }
      if !fatal {
        lockCount := w';
        lockCount := 0;
        if disciplined {
          path := Touch(path, [w, w'], 1, old(self), Store, Thread(Idle, self.readHolds, false));
        }
      }
    }
  }

  /** Right after a load: the copy is what was met, and what was met just before was either
      write-locked or had changed since the load before it. */
  predicate AfterLoad(th: Thread, was: Thread, count: int, seen: seq<int>, k: nat, try: bool) {
    && was.pc.Idle? && th == was.(pc := Testing(count, try)) && 0 < k <= |seen| && count == seen[k - 1]
    && (k >= 2 && seen[k - 2] != WRITE_LOCKED ==> k >= 3 && seen[k - 3] != seen[k - 2])
  }

  /** The last access turned the value met into one reader more. */
  predicate Acquired(seen: seq<int>, k: nat, lock: int, was: Thread, th: Thread) {
    && 0 < k <= |seen| && seen[k - 1] != WRITE_LOCKED && lock == Wrap32(seen[k - 1] + 1)
    && th == Thread(Idle, was.readHolds + 1, was.writes)
  }

  lemma {:induction false} OneReaderMore(seen: seq<int>, k: nat, lock: int, was: Thread, th: Thread)
    requires Acquired(seen, k, lock, was, th)
    ensures k > 0 && seen[k - 1] != -1 && (-0x8000_0000 <= seen[k - 1] < 0x7fff_ffff ==> lock == seen[k - 1] + 1)
  {
  }

  /** Where `TryLockRead` stands between two attempts. */
  predicate TryingRead(r: Try, seen: seq<int>, k: nat, count: int, lock: int, was: Thread, th: Thread) {
    match r
    case Loaded => lock == count && AfterLoad(th, was, count, seen, k, true)
    case Got => Acquired(seen, k, lock, was, th)
    case Waiting => k == |seen| && Unsettled(seen, k) && Pending(was, th)
    case Refused => false
  }

  /** The call is not over and has given the thread nothing. */
  predicate Pending(was: Thread, th: Thread) {
    th.readHolds == was.readHolds && th.writes == was.writes && !th.pc.Idle?
  }

  /** The last three values met are not one and the same that is free for readers. */
  predicate Unsettled(seen: seq<int>, k: nat) {
    3 <= k <= |seen| ==> !(seen[k - 1] == seen[k - 2] == seen[k - 3] != WRITE_LOCKED)
  }
}
