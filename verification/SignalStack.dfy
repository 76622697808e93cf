/** The runtime's layer over signal dispositions, masks and delivery. */
module SignalStack {
  import opened Common
  import opened SignalTable
  import opened SignalDelivery

  /** What the runtime asks to have installed for a marked signal: its own handler, with
      everything blocked that the library puts in a full set. */
  const ENTRY: nat := 2
  const Request: Act := Act(ENTRY, {Restart, SigInfo, OnStack}, FullSet())

  function FullSet(): set<nat> { set i: nat | i < NSIG && ValidSignal(i) && !Reserved(i) }

  /** The signals whose disposition the runtime cannot take over. */
  predicate Untakable(sig: int) { Fixed(sig) || Reserved(sig) }

  /** The kernel's dispositions and the runtime's records, by signal number. */
  datatype World = World(kernel: seq<Act>, stacks: seq<Stack>)

  predicate Sized(w: World) { |w.kernel| == |w.stacks| == NSIG }

  /** The answer a user call gets. */
  function ReplyOf(w: World, call: Call): Reply
    requires Sized(w)
  {
    if !ValidSignal(call.sig) then Failed
    else if !w.stacks[call.sig].marked then Answer(w.kernel, call)
    else if call.Signal? then OldHandler(w.stacks[call.sig].sigAction.handler)
    else Old(w.stacks[call.sig].sigAction)
  }

  function Save(w: World, sig: nat, act: Act): World
    requires Sized(w) && sig < NSIG
  {
    w.(stacks := w.stacks[sig := w.stacks[sig].(sigAction := act)])
  }

  /** What a user call changes. */
  function AfterCall(w: World, call: Call): (w': World)
    requires Sized(w)
    ensures Sized(w')
  {
    if !ValidSignal(call.sig) then w
    else if !w.stacks[call.sig].marked then w.(kernel := Changed(w.kernel, call))
    else if call.Signal? then Save(w, call.sig, Simple(call.handler))
    else if call.act.Some? then Save(w, call.sig, call.act.value)
    else w
  }

  /** What marking a signal changes: for a signal that cannot be taken over the real call
      fails, and it is marked all the same, with nothing saved. */
  function AfterMark(w: World, sig: nat): (w': World)
    requires Sized(w) && ValidSignal(sig)
    ensures Sized(w')
  {
    if w.stacks[sig].marked then w
    else if Untakable(sig) then w.(stacks := w.stacks[sig := w.stacks[sig].(marked := true)])
    else World(w.kernel[sig := Trim(Request)], w.stacks[sig := w.stacks[sig].(marked := true, sigAction := w.kernel[sig])])
  }

  class SignalStacks {
    /** The kernel's dispositions, the runtime's records, and the current thread's blocked
        set and handling flag. */
    var kernel: seq<Act>
    var stacks: seq<Stack>
    var mask: set<nat>
    var handling: bool

    function Records(): World
      reads this
    {
      World(kernel, stacks)
    }

    predicate Valid()
      reads this
    {
      Sized(Records())
    }

    /** The real `sigaction`. */
    method Linked(sig: int, act: Option<Act>) returns (reply: Reply)
      requires Valid()
      modifies this`kernel
      ensures Valid()
      ensures reply == Answer(old(kernel), Sigaction(sig, act))
      ensures kernel == Changed(old(kernel), Sigaction(sig, act))
    {
      if !ValidSignal(sig) || Reserved(sig) || (Fixed(sig) && act.Some?) {
        return Failed;
      }
      reply := Old(kernel[sig]);
      if act.Some? {
        kernel := kernel[sig := Trim(act.value)];
      }
    }

    /** The real `sigprocmask`. */
    method LinkedMask(how: How, s: Option<set<nat>>) returns (ok: bool, oldMask: set<nat>)
      modifies this`mask
      ensures oldMask == old(mask) && ok == (s.None? || how != Unknown)
      ensures mask == if s.None? then old(mask) else Remasked(old(mask), how, s.value)
    {
      oldMask, ok := mask, s.None? || how != Unknown;
      if s.Some? {
        mask := Remasked(mask, how, s.value);
      }
    }

    /** Saves the current disposition and installs the runtime's own; only once. */
    method MarkSig(sig: nat)
      requires Valid() && ValidSignal(sig)
      modifies this`kernel, this`stacks
      ensures Valid() && Records() == AfterMark(old(Records()), sig)
    {
      if !stacks[sig].marked {
        Register(sig);
        stacks := stacks[sig := stacks[sig].(marked := true)];
      }
    }

    method Register(sig: nat)
      requires Valid() && ValidSignal(sig)
      modifies this`kernel, this`stacks
      ensures Valid()
      ensures Untakable(sig) ==> kernel == old(kernel) && stacks == old(stacks)
      ensures !Untakable(sig) ==>
        && kernel == old(kernel)[sig := Trim(Request)]
        && stacks == old(stacks)[sig := old(stacks)[sig].(sigAction := old(kernel)[sig])]
    {
      var reply := Linked(sig, Some(Request));
      if reply.Old? {
        stacks := stacks[sig := stacks[sig].(sigAction := reply.act)];
      }
      var current := Linked(sig, None);
    }

    /** `sigaction`: a marked signal only has its saved action read and replaced. */
    method SigactionImpl(sig: int, act: Option<Act>) returns (reply: Reply)
      requires Valid()
      modifies this`kernel, this`stacks
      ensures Valid() && Records() == AfterCall(old(Records()), Sigaction(sig, act))
      ensures reply == ReplyOf(old(Records()), Sigaction(sig, act))
    {
      if sig <= 0 || sig >= NSIG {
        return Failed;
      }
      if stacks[sig].marked {
        reply := Old(stacks[sig].sigAction);
        if act.Some? {
          stacks := stacks[sig := stacks[sig].(sigAction := act.value)];
        }
        return;
      }
      reply := Linked(sig, act);
    }

    /** `signal`, likewise. */
    method Signal(sig: int, handler: nat) returns (reply: Reply)
      requires Valid()
      modifies this`kernel, this`stacks
      ensures Valid() && Records() == AfterCall(old(Records()), Call.Signal(sig, handler))
      ensures reply == ReplyOf(old(Records()), Call.Signal(sig, handler))
    {
      if sig <= 0 || sig >= NSIG {
        return Failed;
      }
      var sa := Simple(handler);
      if stacks[sig].marked {
        reply := OldHandler(stacks[sig].sigAction.handler);
        stacks := stacks[sig := stacks[sig].(sigAction := sa)];
        return;
      }
      reply := Linked(sig, Some(sa));
      if reply.Old? {
        reply := OldHandler(reply.act.handler);
      }
    }

    method AddHandler(sig: nat, h: Handler)
      requires Valid() && sig < NSIG
      modifies this`stacks
      ensures Valid() && stacks == old(stacks)[sig := old(stacks)[sig].(handlers := old(stacks)[sig].handlers + [h])]
    {
      stacks := stacks[sig := stacks[sig].(handlers := stacks[sig].handlers + [h])];
    }

    /** Removes the oldest registration of `fn`, if there is one. */
    method RemoveHandler(sig: nat, fn: nat) returns (ghost at: Option<nat>)
      requires Valid() && sig < NSIG
      modifies this`stacks
      ensures Valid()
      ensures at.None? ==> stacks == old(stacks) && forall h :: h in stacks[sig].handlers ==> h.fn != fn
      ensures at.Some? ==>
        var hs, k := old(stacks)[sig].handlers, at.value;
        && k < |hs| && hs[k].fn == fn && (forall j :: 0 <= j < k ==> hs[j].fn != fn)
        && stacks == old(stacks)[sig := old(stacks)[sig].(handlers := hs[..k] + hs[k + 1..])]
    {
      var hs := stacks[sig].handlers;
      for k := 0 to |hs|
        invariant stacks == old(stacks)
        invariant forall j :: 0 <= j < k ==> hs[j].fn != fn
      {
        if hs[k].fn == fn {
          stacks := stacks[sig := stacks[sig].(handlers := hs[..k] + hs[k + 1..])];
          return Some(k);
        }
      }
      return None;
    }

    /** Drops every marked signal from a set. */
    method AdjustSignalMask(s: set<nat>) returns (r: set<nat>)
      requires Valid()
      ensures r == s - MarkedSet(stacks)
      ensures forall x :: x in r <==> x in s && !(0 < x < 65 && stacks[x].marked)
    {
      r := s;
      for i := 1 to NSIG
        invariant forall x :: x in r <==> x in s && !(0 < x < i && stacks[x].marked)
      {
        if stacks[i].marked && i in r {
          r := r - {i};
        }
      }
    }

    /** `sigprocmask`. `written` is the caller's own set afterwards: the adjusted set is
        stored through the caller's pointer. */
    method SigProcMask(how: How, s: Option<set<nat>>) returns (ok: bool, oldMask: set<nat>, written: Option<set<nat>>)
      requires Valid()
      modifies this`mask
      ensures oldMask == old(mask)
      ensures ok == (s.None? || how != Unknown)
      ensures s.None? ==> written.None? && mask == old(mask)
      ensures s.Some? && handling ==> written == s && mask == Remasked(old(mask), how, s.value)
      ensures s.Some? && !handling ==>
        && written == Some(Adjusted(MarkedSet(stacks), how, s.value))
        && mask == AfterMask(old(mask), MarkedSet(stacks), how, s.value)
      // Signal by signal: unblocking opens what the caller asks for, marked or not, but for
      // the library's two, opens nothing else, and leaves the caller's set alone.
      ensures s.Some? && how == Unblock ==>
        && written == s
        && forall x :: x in mask <==> x in old(mask) && !(x in s.value && x != 32 && x != 33)
      // Blocking and setting outside a handler leave marked signals out, for the caller too.
      ensures s.Some? && !handling && (how == Block || how == SetMask) ==>
        && written.Some? && (forall x :: x in written.value <==> x in s.value && !(0 < x < 65 && stacks[x].marked))
        && forall x :: x in mask <==>
             (how == Block && x in old(mask)) || (x in s.value && !(0 < x < 65 && stacks[x].marked) && x !in {9, 19, 32, 33})
      // In a handler the set goes through as it is.
      ensures s.Some? && handling && (how == Block || how == SetMask) ==>
        && written == s
        && forall x :: x in mask <==> (how == Block && x in old(mask)) || (x in s.value && x !in {9, 19, 32, 33})
      ensures s.Some? && how == Unknown ==> written == s && mask == old(mask)
    {
      written := s;
      if s.Some? && !handling && (how == Block || how == SetMask) {
        var adjusted := AdjustSignalMask(s.value);
        written := Some(adjusted);
      }
      ok, oldMask := LinkedMask(how, written);
    }

    // ---------- delivery ----------

    /** Delivers a signal: runtime handlers newest first, each under its own mask and, for a
        synchronous signal, with the thread flagged; then the user's saved action. Whatever
        foreign code does meanwhile, further deliveries included, is in `d`; what came of it
        is in the report. */
    method HandlerImpl(d: Delivery, interrupted: set<nat>) returns (r: Report)
      requires Valid() && mask !! Unblockable
      modifies this`mask, this`handling, this`kernel
      ensures Valid() && mask !! Unblockable && handling == old(handling)
      ensures r.interrupted == interrupted && r.mask == old(mask) && r.exitMask == mask
      ensures r.flagged == old(handling) && Tells(r, d, stacks)
      ensures OnlyDefaults(old(kernel), kernel)
      ensures r.outcome.DefaultRaised? && !Untakable(d.sig) ==> kernel[d.sig] == Default
      decreases d, 2
    {
      var entryMask, entryFlag := mask, handling;
      var runs: seq<Ran>, accepted := [], false;
      if !handling {
        runs, accepted := RunChain(d);
      }
      if accepted {
        return Report(d.sig, interrupted, entryMask, entryFlag, runs, mask, Accepted, [], mask, handling);
      }
      var restored := mask;
      var outcome, after := UserAction(d, interrupted);
      r := Report(d.sig, interrupted, entryMask, entryFlag, runs, restored, outcome, after, mask, handling);
    }

    /** A handler that has just been registered is the first to run. */
    method AddThenDeliver(h: Handler, d: Delivery, interrupted: set<nat>) returns (r: Report)
      requires Valid() && mask !! Unblockable && !handling && h.fn != 0
      modifies this`stacks, this`mask, this`handling, this`kernel
      ensures Valid() && r.sig == d.sig && r.runs != [] && r.runs[0].handler == h
      ensures r.runs[0].accepted ==> |r.runs| == 1
      ensures forall i :: 0 < i < |r.runs| ==> i <= |old(stacks)[d.sig].handlers| && r.runs[i].handler == old(stacks)[d.sig].handlers[|old(stacks)[d.sig].handlers| - i]
    {
      AddHandler(d.sig, h);
      r := HandlerImpl(d, interrupted);
      LatestFirst(r, d, stacks);
    }

    /** The loop over the handlers of a thread that is not handling a signal. */
    method RunChain(d: Delivery) returns (runs: seq<Ran>, accepted: bool)
      requires Valid() && mask !! Unblockable && !handling
      modifies this`mask, this`handling, this`kernel
      ensures Valid() && mask !! Unblockable && !handling && OnlyDefaults(old(kernel), kernel)
      ensures RunsOf(runs, accepted, d, stacks[d.sig].handlers, stacks)
      ensures if accepted then mask == runs[|runs| - 1].endMask else mask == old(mask)
      decreases d, 1
    {
      var hs := stacks[d.sig].handlers;
      runs, accepted := [], false;
      var i := |hs|;
      while i > 0
        invariant Valid() && mask == old(mask) && !handling && OnlyDefaults(old(kernel), kernel)
        invariant i + |runs| == |hs| && Declined(runs, d, hs, stacks)
      {
        var h := hs[i - 1];
        if h.fn == 0 {
          break;
        }
        var run := RunOne(d, |runs|, h);
        runs := runs + [run];
        if run.accepted {
          return runs, true;
        }
        i := i - 1;
      }
    }

    /** One handler, between saving mask and flag and, unless it accepts, restoring them; the
        flag is restored even then. */
    method RunOne(d: Delivery, k: nat, h: Handler) returns (run: Ran)
      requires Valid() && mask !! Unblockable && !handling
      modifies this`mask, this`handling, this`kernel
      ensures Valid() && mask !! Unblockable && !handling && OnlyDefaults(old(kernel), kernel)
      ensures run.handler == h && run.mask == h.mask - Unblockable && TellsRun(run, d, k, false, stacks)
      ensures mask == if run.accepted then run.endMask else old(mask)
      decreases d, 0
    {
      var previousMask := mask;
      var _, _ := LinkedMask(SetMask, Some(h.mask));
      var previousValue := handling;
      if !d.isAsync {
        handling := true;
      }
      run := Ran(h, mask, handling, false, [], mask);
      if k < |d.responses| {
        var effects := RunForeign(d.responses[k]);
        run := run.(accepted := d.responses[k].accepts, effects := effects, endMask := mask);
      }
      if run.accepted {
        handling := previousValue;
      } else {
        var _, _ := LinkedMask(SetMask, Some(previousMask));
        handling := previousValue;
      }
    }

    /** Foreign code: its mask calls go through `sigprocmask`, and signals arrive. */
    method RunForeign(resp: Response) returns (effects: seq<Effect>)
      requires Valid() && mask !! Unblockable
      modifies this`mask, this`handling, this`kernel
      ensures Valid() && mask !! Unblockable && handling == old(handling) && OnlyDefaults(old(kernel), kernel)
      ensures TellsDoings(effects, resp, handling, stacks) && Chained(old(mask), effects, mask)
      decreases resp
    {
      effects := [];
      for i := 0 to |resp.doings|
        invariant Valid() && mask !! Unblockable && handling == old(handling) && OnlyDefaults(old(kernel), kernel)
        invariant |effects| == i && Chained(old(mask), effects, mask)
        invariant forall j :: 0 <= j < i ==> TellsDoing(effects[j], resp.doings[j], handling, stacks)
      {
        var before, effect := mask, Masked(mask, mask);
        match resp.doings[i] {
          case CallMask(how, s) =>
            var _, _, _ := SigProcMask(how, Some(s));
            effect := Masked(before, mask);
          case Arrive(d) =>
            var report := Arrival(d);
            effect := Delivered(before, report);
        }
        ChainOn(old(mask), effects, before, effect);
        effects := effects + [effect];
      }
    }

    /** A signal interrupts the thread: the kernel blocks what the runtime's entry asks for,
        and brings the interrupted mask back at the end. */
    method Arrival(d: Delivery) returns (r: Report)
      requires Valid() && mask !! Unblockable
      modifies this`mask, this`handling, this`kernel
      ensures Valid() && mask == old(mask) && handling == old(handling) && OnlyDefaults(old(kernel), kernel)
      ensures r.interrupted == mask && r.flagged == handling && Tells(r, d, stacks)
      ensures forall x :: x in r.mask <==> x in mask || (0 < x < 65 && x !in {9, 19, 32, 33})
      decreases d, 3
    {
      var interrupted := mask;
      mask := mask + Trim(Request).mask;
      r := HandlerImpl(d, interrupted);
      mask := interrupted;
    }

    /** The second half: the saved user action under the combined mask. */
    method UserAction(d: Delivery, interrupted: set<nat>) returns (outcome: Outcome, after: seq<Effect>)
      requires Valid() && mask !! Unblockable
      modifies this`mask, this`handling, this`kernel
      ensures Valid() && mask !! Unblockable && handling == old(handling) && OnlyDefaults(old(kernel), kernel)
      ensures outcome == UserOutcome(d.sig, stacks[d.sig].sigAction, interrupted, handling)
      ensures RunsUser(outcome) ==> TellsDoings(after, d.user, handling, stacks) && Chained(outcome.mask, after, mask)
      ensures !RunsUser(outcome) ==> after == [] && mask == old(mask)
      ensures outcome.DefaultRaised? && !Untakable(d.sig) ==> kernel[d.sig] == Default
      decreases d, 1
    {
      var act := stacks[d.sig].sigAction;
      var combined: set<nat> := interrupted + act.mask;
      after := [];
      if NoDefer !in act.flags {
        combined := combined + {d.sig};
      }
      if SigInfo in act.flags {
        var _, _ := LinkedMask(SetMask, Some(combined));
        outcome := UserInfo(act.handler, mask, handling);
        after := RunForeign(d.user);
        return;
      }
      if act.handler == SIG_IGN {
        return Ignored, after;
      }
      if act.handler == SIG_DFL {
        var reply := Linked(d.sig, Some(Default));
        return DefaultRaised, after;
      }
      var _, _ := LinkedMask(SetMask, Some(combined));
      outcome := UserPlain(act.handler, mask, handling);
      after := RunForeign(d.user);
    }
  }

  /** Deliveries touch the kernel's entries only to put some back to the default. */
  predicate OnlyDefaults(before: seq<Act>, now: seq<Act>) {
    |now| == |before| && forall i :: 0 <= i < |now| ==> now[i] == before[i] || now[i] == Default
  }
}
