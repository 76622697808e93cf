/** Interposition seen from user code: runs over the runtime's layer against runs over a plain
    table. */
module SignalRuns {
  import opened Common
  import opened SignalTable
  import opened SignalDelivery
  import opened SignalStack

  /** The dispositions as user code should see them: the saved one if the signal is marked,
      as the kernel would have stored it, else the kernel's. */
  function View(w: World): (v: seq<Act>)
    requires Sized(w)
    ensures |v| == NSIG
    ensures forall i :: 0 <= i < NSIG ==> v[i] == if w.stacks[i].marked then Trim(w.stacks[i].sigAction) else w.kernel[i]
  {
    seq(NSIG, i requires 0 <= i < NSIG => if w.stacks[i].marked then Trim(w.stacks[i].sigAction) else w.kernel[i])
  }

  /** The runtime's handler is in place for every marked signal. */
  predicate InPlace(w: World)
    requires Sized(w)
  {
    forall i :: 0 <= i < NSIG && w.stacks[i].marked ==> w.kernel[i] == Trim(Request)
  }

  /** What the kernel stores is trimmed. */
  predicate KernelTrimmed(w: World)
    requires Sized(w)
  {
    forall i :: 0 <= i < NSIG ==> Trimmed(w.kernel[i])
  }

  /** Only signals that can be taken over are marked. */
  predicate Markable(w: World)
    requires Sized(w)
  {
    forall i :: 0 <= i < NSIG && w.stacks[i].marked ==> !Untakable(i)
  }

  /** And none of their saved masks holds SIGKILL or SIGSTOP. */
  predicate Faithful(w: World)
    requires Sized(w)
  {
    Markable(w) && forall i :: 0 < i < NSIG && w.stacks[i].marked ==> Trimmed(w.stacks[i].sigAction)
  }

  // ---------- single calls ----------

  /** Whatever user code asks next, it is answered as by a plain table. */
  ghost predicate PlainAnswers(w: World)
    requires Sized(w)
  {
    forall call :: ReplyOf(w, call) == Answer(View(w), call)
  }

  lemma {:induction false} TrimIdle(act: Act)
    ensures Trim(act) == act <==> Trimmed(act)
  {
  }

  /** Every possible call is answered plainly exactly when only signals that can be taken over
      are marked and no saved mask holds SIGKILL or SIGSTOP. */
  lemma {:induction false} TransparentExactly(w: World)
    requires Sized(w)
    ensures PlainAnswers(w) <==> Faithful(w)
  {
    if Faithful(w) {
      forall call
        ensures ReplyOf(w, call) == Answer(View(w), call)
      {
        if ValidSignal(call.sig) && w.stacks[call.sig].marked {
          TrimIdle(w.stacks[call.sig].sigAction);
        }
      }
    }
    if PlainAnswers(w) {
      forall i | 0 < i < NSIG && w.stacks[i].marked
        ensures !Untakable(i) && Trimmed(w.stacks[i].sigAction)
      {
        assert ReplyOf(w, Signal(i, SIG_IGN)) == Answer(View(w), Signal(i, SIG_IGN));
        assert ReplyOf(w, Sigaction(i, None)) == Answer(View(w), Sigaction(i, None));
        TrimIdle(w.stacks[i].sigAction);
      }
    }
  }

  /** The state that user code sees changes as the plain table does, whatever is passed. */
  lemma {:induction false} CallTransparent(w: World, call: Call)
    requires Sized(w) && Markable(w)
    ensures View(AfterCall(w, call)) == Changed(View(w), call)
    ensures Markable(AfterCall(w, call)) && (InPlace(w) ==> InPlace(AfterCall(w, call)))
    ensures TrimReply(ReplyOf(w, call)) == TrimReply(Answer(View(w), call))
  {
  }

  /** An answer up to the two signals in a mask. */
  function TrimReply(r: Reply): Reply { if r.Old? then Old(Trim(r.act)) else r }

  lemma {:induction false} MarkTransparent(w: World, sig: nat)
    requires Sized(w) && ValidSignal(sig) && !Untakable(sig) && KernelTrimmed(w)
    ensures View(AfterMark(w, sig)) == View(w)
    ensures Markable(w) ==> Markable(AfterMark(w, sig))
    ensures InPlace(w) ==> InPlace(AfterMark(w, sig))
  {
    TrimIdle(w.kernel[sig]);
  }

  /** What a query returns after a successful call, marked or not, and that nothing else has
      changed: the handler asked for, its flags, and its mask up to the two signals. The call
      itself returns what a query returned before it. */
  lemma {:induction false} QueryAfter(w: World, call: Call, other: nat)
    requires Sized(w) && Markable(w) && !Refused(call) && other < NSIG && other != call.sig
    ensures var w' := AfterCall(w, call);
      && (call.Sigaction? && call.act.Some? ==>
            ReplyOf(w', Sigaction(call.sig, None)).Old? &&
            var got := ReplyOf(w', Sigaction(call.sig, None)).act;
            && got.handler == call.act.value.handler && got.flags == call.act.value.flags
            && forall x :: x != 9 && x != 19 ==> (x in got.mask <==> x in call.act.value.mask))
      && (call.Signal? ==>
            ReplyOf(w', Sigaction(call.sig, None)) == Old(Act(call.handler, {Restart, OnStack}, {}))
            && ReplyOf(w', Call.Signal(call.sig, 0)) == OldHandler(call.handler))
      && (call.Sigaction? && call.act.None? ==> w' == w)
      && ReplyOf(w, Sigaction(call.sig, None)).Old?
      && (call.Sigaction? ==> ReplyOf(w, call) == ReplyOf(w, Sigaction(call.sig, None)))
      && (call.Signal? ==> ReplyOf(w, call) == OldHandler(ReplyOf(w, Sigaction(call.sig, None)).act.handler))
      && w'.kernel[other] == w.kernel[other] && w'.stacks[other] == w.stacks[other]
      && w'.stacks[call.sig].marked == w.stacks[call.sig].marked && w'.stacks[call.sig].handlers == w.stacks[call.sig].handlers
  {
  }

  /** The calls that are refused, in numbers, on signals that are not marked. */
  lemma {:induction false} RefusedCalls(w: World, sig: int, act: Act, handler: nat)
    requires Sized(w) && (0 < sig < 65 ==> !w.stacks[sig].marked)
    ensures ReplyOf(w, Sigaction(sig, None)) == Failed <==> sig < 1 || sig > 64 || sig == 32 || sig == 33
    ensures ReplyOf(w, Sigaction(sig, Some(act))) == Failed <==> sig < 1 || sig > 64 || sig in {9, 19, 32, 33}
    ensures ReplyOf(w, Call.Signal(sig, handler)) == Failed <==> sig < 1 || sig > 64 || sig in {9, 19, 32, 33}
  {
  }

  /** What marking installs in the kernel, and saves. */
  lemma {:induction false} MarkInstalls(w: World, sig: nat)
    requires Sized(w) && 0 < sig < 65 && sig !in {9, 19, 32, 33} && !w.stacks[sig].marked
    ensures var w' := AfterMark(w, sig);
      && w'.kernel[sig].flags == {Restart, SigInfo, OnStack}
      && (forall x :: x in w'.kernel[sig].mask <==> 0 < x < 65 && x !in {9, 19, 32, 33})
      && w'.stacks[sig].marked && w'.stacks[sig].sigAction == w.kernel[sig]
  {
    assert forall x: nat :: x in FullSet() <==> x < 65 && ValidSignal(x) && !Reserved(x);
  }

  // ---------- whole runs ----------

  datatype Event = Mark(sig: nat) | User(call: Call)

  predicate Possible(es: seq<Event>) { forall i :: 0 <= i < |es| && es[i].Mark? ==> ValidSignal(es[i].sig) }

  /** What can be checked before an event: it does not mark a signal that cannot be taken over,
      and it does not give a marked signal a mask with SIGKILL or SIGSTOP. */
  predicate Harmless(w: World, e: Event)
    requires Sized(w) && Possible([e])
  {
    assert e == [e][0];
    match e
    case Mark(sig) => w.stacks[sig].marked || !Untakable(sig)
    case User(call) => call.Sigaction? && call.act.Some? && ValidSignal(call.sig) && w.stacks[call.sig].marked ==> Trimmed(call.act.value)
  }

  function After(w: World, e: Event): (w': World)
    requires Sized(w) && Possible([e])
    ensures Sized(w')
  {
    assert e == [e][0];
    if e.Mark? then AfterMark(w, e.sig) else AfterCall(w, e.call)
  }

  lemma {:induction false} FirstPossible(es: seq<Event>)
    requires Possible(es) && es != []
    ensures Possible([es[0]]) && Possible(es[1..])
  {
  }

  predicate AllHarmless(w: World, es: seq<Event>)
    requires Sized(w) && Possible(es)
    decreases |es|
  {
    es != [] ==>
      (FirstPossible(es); Harmless(w, es[0]) && AllHarmless(After(w, es[0]), es[1..]))
  }

  /** At every point of the run, all questions are answered plainly. */
  ghost predicate AllPlain(w: World, es: seq<Event>)
    requires Sized(w) && Possible(es)
    decreases |es|
  {
    PlainAnswers(w) && (es != [] ==> (FirstPossible(es); AllPlain(After(w, es[0]), es[1..])))
  }

  lemma {:induction false} StepExactly(w: World, e: Event)
    requires Sized(w) && Possible([e]) && Faithful(w) && KernelTrimmed(w)
    ensures KernelTrimmed(After(w, e)) && (Faithful(After(w, e)) <==> Harmless(w, e))
  {
    assert e == [e][0];
    if e.Mark? {
      MarkExactly(w, e.sig);
    } else {
      CallExactly(w, e.call);
    }
  }

  lemma {:induction false} MarkExactly(w: World, sig: nat)
    requires Sized(w) && ValidSignal(sig) && Faithful(w) && KernelTrimmed(w)
    ensures KernelTrimmed(AfterMark(w, sig))
    ensures Faithful(AfterMark(w, sig)) <==> w.stacks[sig].marked || !Untakable(sig)
  {
    assert Trimmed(w.kernel[sig]);
    assert AfterMark(w, sig).stacks[sig].marked;
  }

  lemma {:induction false} CallExactly(w: World, call: Call)
    requires Sized(w) && Faithful(w) && KernelTrimmed(w)
    ensures KernelTrimmed(AfterCall(w, call))
    ensures Faithful(AfterCall(w, call)) <==>
      (call.Sigaction? && call.act.Some? && ValidSignal(call.sig) && w.stacks[call.sig].marked ==> Trimmed(call.act.value))
  {
    var w' := AfterCall(w, call);
    assert forall i :: 0 <= i < NSIG ==> w'.stacks[i].marked == w.stacks[i].marked;
    assert forall i :: 0 <= i < NSIG && i != call.sig ==> w'.stacks[i] == w.stacks[i];
  }

  /** From a faithful state: user code can at no point of a run tell the layer from a plain
      table exactly when all events of the run are harmless. */
  lemma {:induction false} RunExactly(w: World, es: seq<Event>)
    requires Sized(w) && Possible(es) && Faithful(w) && KernelTrimmed(w)
    ensures AllPlain(w, es) <==> AllHarmless(w, es)
    decreases |es|
  {
    TransparentExactly(w);
    if es != [] {
      FirstPossible(es);
      StepExactly(w, es[0]);
      TransparentExactly(After(w, es[0]));
      if Harmless(w, es[0]) {
        RunExactly(After(w, es[0]), es[1..]);
      }
    }
  }

  /** A full mask given to a marked signal comes back with SIGKILL in it, which no kernel would
      have kept. */
  lemma {:induction false} FullMaskShows(w: World, sig: nat, handler: nat)
    requires Sized(w) && ValidSignal(sig) && !Untakable(sig) && w.stacks[sig].marked
    ensures var act := Act(handler, {}, FullSet());
      var w' := AfterCall(w, Sigaction(sig, Some(act)));
      ReplyOf(w', Sigaction(sig, None)) == Old(act) && !Trimmed(act) && Answer(View(w'), Sigaction(sig, None)) == Old(Trim(act)) != Old(act)
  {
    assert SIGKILL in FullSet();
    TrimIdle(Act(handler, {}, FullSet()));
  }

  /** The state after a run over the runtime's layer, and the answers it gave. */
  function Outcome(w: World, es: seq<Event>): (r: (World, seq<Reply>))
    requires Sized(w) && Possible(es)
    ensures Sized(r.0)
    decreases |es|
  {
    if es == [] then (w, []) else
      FirstPossible(es);
      var rest := Outcome(After(w, es[0]), es[1..]);
      (rest.0, (if es[0].User? then [ReplyOf(w, es[0].call)] else []) + rest.1)
  }

  /** The same user calls on a plain table. */
  function PlainOutcome(table: seq<Act>, es: seq<Event>): (r: (seq<Act>, seq<Reply>))
    requires |table| == NSIG
    ensures |r.0| == NSIG
    decreases |es|
  {
    if es == [] then (table, []) else if es[0].Mark? then PlainOutcome(table, es[1..]) else
      var rest := PlainOutcome(Changed(table, es[0].call), es[1..]);
      (rest.0, [Answer(table, es[0].call)] + rest.1)
  }

  /** For every interleaving of harmless user calls and markings, user code gets the answers of
      the plain table and sees its state, and the runtime's handlers stay installed. */
  lemma {:induction false} RunTransparent(w: World, es: seq<Event>)
    requires Sized(w) && Possible(es) && Faithful(w) && KernelTrimmed(w) && AllHarmless(w, es)
    ensures Outcome(w, es).1 == PlainOutcome(View(w), es).1
    ensures View(Outcome(w, es).0) == PlainOutcome(View(w), es).0
    ensures Faithful(Outcome(w, es).0) && (InPlace(w) ==> InPlace(Outcome(w, es).0))
    decreases |es|
  {
    if es != [] {
      FirstPossible(es);
      StepExactly(w, es[0]);
      TransparentExactly(w);
      StepSeen(w, es[0]);
      RunTransparent(After(w, es[0]), es[1..]);
    }
  }

  lemma {:induction false} StepSeen(w: World, e: Event)
    requires Sized(w) && Possible([e]) && Markable(w) && KernelTrimmed(w) && (e.Mark? ==> !Untakable(e.sig) || w.stacks[e.sig].marked)
    ensures View(After(w, e)) == if e.Mark? then View(w) else Changed(View(w), e.call)
    ensures InPlace(w) ==> InPlace(After(w, e))
    ensures Markable(After(w, e)) && KernelTrimmed(After(w, e))
  {
    assert e == [e][0];
    if e.User? {
      CallTransparent(w, e.call);
    } else if !Untakable(e.sig) {
      MarkTransparent(w, e.sig);
    }
  }

  predicate Takable(es: seq<Event>) { forall i :: 0 <= i < |es| && es[i].Mark? ==> !Untakable(es[i].sig) }

  function TrimReplies(rs: seq<Reply>): seq<Reply> {
    seq(|rs|, i requires 0 <= i < |rs| => TrimReply(rs[i]))
  }

  lemma {:induction false} TrimConcat(a: seq<Reply>, b: seq<Reply>)
    ensures TrimReplies(a + b) == TrimReplies(a) + TrimReplies(b)
  {
  }

  /** Whatever masks are passed, only those two signals in a returned mask can differ. */
  lemma {:induction false} RunUpToMasks(w: World, es: seq<Event>)
    requires Sized(w) && Possible(es) && Takable(es) && Markable(w) && KernelTrimmed(w)
    ensures TrimReplies(Outcome(w, es).1) == TrimReplies(PlainOutcome(View(w), es).1)
    ensures View(Outcome(w, es).0) == PlainOutcome(View(w), es).0
    ensures InPlace(w) ==> InPlace(Outcome(w, es).0)
    decreases |es|
  {
    if es != [] {
      FirstPossible(es);
      StepSeen(w, es[0]);
      RunUpToMasks(After(w, es[0]), es[1..]);
      if es[0].User? {
        var call := es[0].call;
        CallTransparent(w, call);
        TrimConcat([ReplyOf(w, call)], Outcome(After(w, es[0]), es[1..]).1);
        TrimConcat([Answer(View(w), call)], PlainOutcome(Changed(View(w), call), es[1..]).1);
        assert TrimReplies([ReplyOf(w, call)]) == TrimReplies([Answer(View(w), call)]);
      }
    }
  }

  /** No run touches the kernel's entry for a signal that is already marked. */
  lemma {:induction false} EntryStays(w: World, es: seq<Event>, sig: nat)
    requires Sized(w) && Possible(es) && sig < NSIG && w.stacks[sig].marked
    ensures Outcome(w, es).0.stacks[sig].marked
    ensures Outcome(w, es).0.kernel[sig] == w.kernel[sig]
    decreases |es|
  {
    if es != [] {
      FirstPossible(es);
      assert After(w, es[0]).stacks[sig].marked && After(w, es[0]).kernel[sig] == w.kernel[sig];
      EntryStays(After(w, es[0]), es[1..], sig);
    }
  }

  /** Delivery of a defaulted signal puts the kernel's entry back to the default while the
      signal stays marked. If the process survives, nothing user code does afterwards reaches
      the kernel any more, though user code is told that it did. */
  lemma {:induction false} DefaultSticks(w: World, es: seq<Event>, sig: nat, act: Act)
    requires Sized(w) && Possible(es) && ValidSignal(sig)
    requires w.stacks[sig].marked && w.kernel[sig] == Default
    ensures var w' := AfterCall(Outcome(w, es).0, Sigaction(sig, Some(act)));
      w'.kernel[sig] == Default && View(w')[sig] == Trim(act) && !InPlace(w')
  {
    EntryStays(w, es, sig);
  }

  // ---------- masks ----------

  datatype MaskCall = MaskCall(how: How, s: set<nat>)

  /** A thread's mask after a run of `sigprocmask` calls outside any handler. */
  function MaskAfter(mask: set<nat>, marked: set<nat>, cs: seq<MaskCall>): set<nat>
    decreases |cs|
  {
    if cs == [] then mask else MaskAfter(AfterMask(mask, marked, cs[0].how, cs[0].s), marked, cs[1..])
  }

  function PlainMaskAfter(mask: set<nat>, cs: seq<MaskCall>): set<nat>
    decreases |cs|
  {
    if cs == [] then mask else PlainMaskAfter(Remasked(mask, cs[0].how, cs[0].s), cs[1..])
  }

  /** No such run blocks a marked signal that was open, and on all other signals it does what
      the plain calls do. */
  lemma {:induction false} MaskRun(mask: set<nat>, plain: set<nat>, marked: set<nat>, cs: seq<MaskCall>)
    requires mask - marked == plain - marked
    ensures MaskAfter(mask, marked, cs) * marked <= mask * marked
    ensures MaskAfter(mask, marked, cs) - marked == PlainMaskAfter(plain, cs) - marked
    decreases |cs|
  {
    if cs != [] {
      var c := cs[0];
      var mask', plain' := AfterMask(mask, marked, c.how, c.s), Remasked(plain, c.how, c.s);
      forall x | x !in marked
        ensures x in mask' <==> x in plain'
      {
        assert x in mask - marked <==> x in plain - marked;
      }
      assert mask' - marked == plain' - marked;
      MaskRun(mask', plain', marked, cs[1..]);
    }
  }

  /** What becomes of a marked signal that was blocked: it stays so until a call names it to
      unblock it, or sets a whole mask. */
  lemma {:induction false} MarkedRun(mask: set<nat>, marked: set<nat>, cs: seq<MaskCall>, x: nat)
    requires x in marked && x != 32 && x != 33
    ensures x in MaskAfter(mask, marked, cs) <==>
      x in mask && forall i :: 0 <= i < |cs| ==> cs[i].how != SetMask && !(cs[i].how == Unblock && x in cs[i].s)
    decreases |cs|
  {
    if cs != [] {
      MarkedRun(AfterMask(mask, marked, cs[0].how, cs[0].s), marked, cs[1..], x);
      assert forall i :: 0 < i < |cs| ==> cs[i] == cs[1..][i - 1];
    }
  }

  // ---------- delivery ----------

  /** What a kernel does for a signal with this disposition: ignoring and defaulting come
      first, whatever the flags say. */
  function PlainDelivery(sig: nat, act: Act, interrupted: set<nat>, flagged: bool): SignalDelivery.Outcome {
    var mask := interrupted + act.mask + (if NoDefer in act.flags then {} else {sig}) - {SIGKILL, SIGSTOP};
    if act.handler == SIG_IGN then Ignored
    else if act.handler == SIG_DFL then DefaultRaised
    else if SigInfo in act.flags then UserInfo(act.handler, mask, flagged)
    else UserPlain(act.handler, mask, flagged)
  }

  /** Dispositions that the runtime delivers as a kernel would: ignoring or defaulting without
      `SA_SIGINFO`, for which the runtime would call address 0 or 1, or a handler whose mask
      leaves out the two signals that the library never blocks. */
  predicate PlainlyDelivered(act: Act) {
    if act.handler == SIG_IGN || act.handler == SIG_DFL then SigInfo !in act.flags
    else SIGCANCEL !in act.mask && SIGSETXID !in act.mask
  }

  lemma {:induction false} DeliveryExactly(sig: Signo, act: Act, interrupted: set<nat>, flagged: bool)
    requires !Untakable(sig) && interrupted !! Unblockable
    ensures UserOutcome(sig, act, interrupted, flagged) == PlainDelivery(sig, Trim(act), interrupted, flagged) <==> PlainlyDelivered(act)
  {
    var own: set<nat> := if NoDefer in act.flags then {} else {sig};
    var ours, plain := interrupted + act.mask + own - Unblockable, interrupted + (act.mask - {SIGKILL, SIGSTOP}) + own - {SIGKILL, SIGSTOP};
    assert SIGCANCEL !in ours && SIGSETXID !in ours;
    assert (SIGCANCEL in plain <==> SIGCANCEL in act.mask) && (SIGSETXID in plain <==> SIGSETXID in act.mask);
    assert plain - {SIGCANCEL, SIGSETXID} == ours;
    if SIGCANCEL !in act.mask && SIGSETXID !in act.mask {
      assert ours == plain;
    }
  }

  /** For every marked signal, at every depth of nested deliveries: if no runtime handler
      accepts it, user code meets what a kernel would do for the disposition it sees exactly
      if that disposition is plainly delivered. */
  lemma {:induction false} DeliveryTransparent(c: seq<Report>, w: World)
    requires Sized(w) && Lineage(c) && Told(c[0], w.stacks)
    requires var r := c[|c| - 1]; w.stacks[r.sig].marked && !Untakable(r.sig) && !r.outcome.Accepted? && r.interrupted !! Unblockable
    ensures var r := c[|c| - 1];
      r.outcome == PlainDelivery(r.sig, View(w)[r.sig], r.interrupted, r.flagged) <==> PlainlyDelivered(w.stacks[r.sig].sigAction)
  {
    var r := c[|c| - 1];
    EveryDelivery(c, w.stacks);
    DeliveryExactly(r.sig, w.stacks[r.sig].sigAction, r.interrupted, r.flagged);
  }

  /** The user's action, signal by signal: the mask it runs under, and when it runs at all. */
  lemma {:induction false} ActionSeen(sig: Signo, act: Act, interrupted: set<nat>, flagged: bool)
    ensures var o := UserOutcome(sig, act, interrupted, flagged);
      && (o.UserInfo? <==> SigInfo in act.flags)
      && (o.Ignored? <==> SigInfo !in act.flags && act.handler == 1)
      && (o.DefaultRaised? <==> SigInfo !in act.flags && act.handler == 0)
      && (o.UserPlain? <==> SigInfo !in act.flags && act.handler > 1)
      && (RunsUser(o) ==> o.handler == act.handler && o.flagged == flagged)
      && (RunsUser(o) ==> forall x :: x in o.mask <==>
            x !in {9, 19, 32, 33} && (x in interrupted || x in act.mask || (x == sig && NoDefer !in act.flags)))
  {
  }
}
