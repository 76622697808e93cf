/** Deliveries that nest: what handlers do while a signal is being handled, and a report of
    what ran under which mask and flag. */
module SignalDelivery {
  import opened SignalTable

  /** A registered runtime handler; word 0 is the null function. */
  datatype Handler = Handler(fn: nat, mask: set<nat>)

  /** The state kept for one signal. */
  datatype Stack = Stack(marked: bool, sigAction: Act, handlers: seq<Handler>)

  /** One delivery: how each invocation of a runtime handler will behave, in the order of the
      invocations, and how the user's action will. */
  datatype Delivery = Delivery(sig: Signo, isAsync: bool, responses: seq<Response>, user: Response)

  datatype Response = Response(accepts: bool, doings: seq<Doing>)

  /** What happens while foreign code runs: it changes its mask, or another signal arrives. */
  datatype Doing = CallMask(how: How, s: set<nat>) | Arrive(d: Delivery)

  // ---------- reports ----------

  datatype Outcome =
    | Accepted
    | UserInfo(handler: nat, mask: set<nat>, flagged: bool)
    | UserPlain(handler: nat, mask: set<nat>, flagged: bool)
    | Ignored
    | DefaultRaised

  /** One delivery: mask and flag at its entry, the mask it interrupted, the handlers that ran,
      the mask when the search was over, and mask and flag at its end. */
  datatype Report = Report(
    sig: Signo, interrupted: set<nat>, mask: set<nat>, flagged: bool,
    runs: seq<Ran>, restored: set<nat>, outcome: Outcome, after: seq<Effect>,
    exitMask: set<nat>, exitFlag: bool)

  /** One handler run: mask and flag at its start, and what happened during it. */
  datatype Ran = Ran(handler: Handler, mask: set<nat>, flagged: bool, accepted: bool, effects: seq<Effect>, endMask: set<nat>)

  datatype Effect = Masked(before: set<nat>, after: set<nat>) | Delivered(at: set<nat>, report: Report)

  function MaskBefore(e: Effect): set<nat> { if e.Masked? then e.before else e.at }

  /** Returning from a signal brings back the mask that it interrupted. */
  function MaskAfterEffect(e: Effect): set<nat> { if e.Masked? then e.after else e.at }

  /** The effects follow one another from mask to mask. */
  predicate Chained(start: set<nat>, es: seq<Effect>, end: set<nat>) {
    && end == EndOf(start, es)
    && forall i :: 0 <= i < |es| ==> MaskBefore(es[i]) == EndOf(start, es[..i])
  }

  function EndOf(start: set<nat>, es: seq<Effect>): set<nat> {
    if es == [] then start else MaskAfterEffect(es[|es| - 1])
  }

  lemma {:induction false} ChainOn(start: set<nat>, es: seq<Effect>, mid: set<nat>, e: Effect)
    requires Chained(start, es, mid) && MaskBefore(e) == mid
    ensures Chained(start, es + [e], MaskAfterEffect(e))
  {
    forall i | 0 <= i < |es + [e]|
      ensures MaskBefore((es + [e])[i]) == EndOf(start, (es + [e])[..i])
    {
      assert (es + [e])[..i] == es[..i];
      assert es[..|es|] == es;
    }
  }

  // ---------- what the dispatcher promises ----------

  function MarkedSet(stacks: seq<Stack>): set<nat> {
    set i | 0 <= i < |stacks| && i > 0 && stacks[i].marked
  }

  /** The set a thread outside any handler really asks for. */
  function Adjusted(marked: set<nat>, how: How, s: set<nat>): set<nat> {
    if how == Block || how == SetMask then s - marked else s
  }

  /** Its mask afterwards. */
  function AfterMask(mask: set<nat>, marked: set<nat>, how: How, s: set<nat>): set<nat> {
    Remasked(mask, how, Adjusted(marked, how, s))
  }

  /** Newest first. */
  function Newest(hs: seq<Handler>, i: nat): Handler
    requires i < |hs|
  {
    hs[|hs| - 1 - i]
  }

  /** The action for a signal that no runtime handler accepted. */
  function UserOutcome(sig: nat, act: Act, interrupted: set<nat>, flagged: bool): Outcome {
    var mask := interrupted + act.mask + (if NoDefer in act.flags then {} else {sig});
    if SigInfo in act.flags then UserInfo(act.handler, mask - Unblockable, flagged)
    else if act.handler == SIG_IGN then Ignored
    else if act.handler == SIG_DFL then DefaultRaised
    else UserPlain(act.handler, mask - Unblockable, flagged)
  }

  predicate RunsUser(o: Outcome) { o.UserInfo? || o.UserPlain? }

  /** The search went newest first, every handler under its own mask, and ended at the first
      acceptance, at a null entry, or at the end of the list. */
  predicate Searched(r: Report, hs: seq<Handler>) {
    && |r.runs| <= |hs|
    && (forall i :: 0 <= i < |r.runs| ==> RanAs(r, hs, i))
    && (r.outcome.Accepted? ==> r.runs != [] && r.runs[|r.runs| - 1].accepted && r.exitMask == r.runs[|r.runs| - 1].endMask)
    && (!r.outcome.Accepted? ==> |r.runs| == |hs| || Newest(hs, |r.runs|).fn == 0)
  }

  predicate RanAs(r: Report, hs: seq<Handler>, i: nat)
    requires i < |r.runs| <= |hs|
  {
    && r.runs[i].handler == Newest(hs, i) && r.runs[i].handler.fn != 0
    && r.runs[i].mask == r.runs[i].handler.mask - Unblockable
    && (r.runs[i].accepted ==> i == |r.runs| - 1 && r.outcome.Accepted?)
  }

  /** The report tells the delivery `d` and everything that nested in it. */
  ghost predicate Tells(r: Report, d: Delivery, stacks: seq<Stack>)
    requires |stacks| == NSIG
    decreases d
  {
    var act, hs := stacks[d.sig].sigAction, stacks[d.sig].handlers;
    && r.sig == d.sig && r.exitFlag == r.flagged
    && (r.flagged ==> r.runs == [] && !r.outcome.Accepted?)
    && (!r.flagged ==> Searched(r, hs))
    && (!r.outcome.Accepted? ==> r.restored == r.mask && r.outcome == UserOutcome(d.sig, act, r.interrupted, r.flagged))
    && (forall i :: 0 <= i < |r.runs| ==> TellsRun(r.runs[i], d, i, r.flagged, stacks))
    && (if RunsUser(r.outcome) then TellsDoings(r.after, d.user, r.flagged, stacks) && Chained(r.outcome.mask, r.after, r.exitMask)
        else r.after == [] && (r.outcome.Accepted? || r.exitMask == r.mask))
  }

  ghost predicate TellsRun(run: Ran, d: Delivery, i: nat, flagged: bool, stacks: seq<Stack>)
    requires |stacks| == NSIG
    decreases d, 0
  {
    && run.flagged == (flagged || !d.isAsync)
    && Chained(run.mask, run.effects, run.endMask)
    && (if i < |d.responses| then
          run.accepted == d.responses[i].accepts && TellsDoings(run.effects, d.responses[i], run.flagged, stacks)
        else
          !run.accepted && run.effects == [])
  }

  ghost predicate TellsDoings(es: seq<Effect>, resp: Response, flagged: bool, stacks: seq<Stack>)
    requires |stacks| == NSIG
    decreases resp
  {
    |es| == |resp.doings| && forall i :: 0 <= i < |es| ==> TellsDoing(es[i], resp.doings[i], flagged, stacks)
  }

  ghost predicate TellsDoing(e: Effect, doing: Doing, flagged: bool, stacks: seq<Stack>)
    requires |stacks| == NSIG
    decreases doing
  {
    match doing
    case CallMask(how, s) =>
      && e.Masked?
      && e.after == if flagged then Remasked(e.before, how, s) else AfterMask(e.before, MarkedSet(stacks), how, s)
    case Arrive(d) =>
      e.Delivered? && e.report.flagged == flagged && e.report.interrupted == e.at && Tells(e.report, d, stacks)
  }

  /** Handlers that ran and declined, newest first. */
  ghost predicate Declined(runs: seq<Ran>, d: Delivery, hs: seq<Handler>, stacks: seq<Stack>)
    requires |stacks| == NSIG
  {
    |runs| <= |hs| && forall i :: 0 <= i < |runs| ==> RunsAt(runs, i, d, hs, stacks) && !runs[i].accepted
  }

  ghost predicate RunsAt(runs: seq<Ran>, i: nat, d: Delivery, hs: seq<Handler>, stacks: seq<Stack>)
    requires |stacks| == NSIG && i < |runs| <= |hs|
  {
    && runs[i].handler == Newest(hs, i) && runs[i].handler.fn != 0
    && runs[i].mask == runs[i].handler.mask - Unblockable
    && TellsRun(runs[i], d, i, false, stacks)
  }

  /** A whole search on a thread that is not flagged. */
  ghost predicate RunsOf(runs: seq<Ran>, accepted: bool, d: Delivery, hs: seq<Handler>, stacks: seq<Stack>)
    requires |stacks| == NSIG
  {
    if accepted then
      && runs != [] && |runs| <= |hs| && Declined(runs[..|runs| - 1], d, hs, stacks)
      && RunsAt(runs, |runs| - 1, d, hs, stacks) && runs[|runs| - 1].accepted
    else
      Declined(runs, d, hs, stacks) && (|runs| == |hs| || Newest(hs, |runs|).fn == 0)
  }

  // ---------- the whole tree of nested deliveries ----------

  ghost predicate Told(r: Report, stacks: seq<Stack>)
    requires |stacks| == NSIG
  {
    exists d :: Tells(r, d, stacks)
  }

  /** `y` arrived while the k-th handler of `r` ran, or while its user action did. */
  ghost predicate DuringRun(y: Report, r: Report, k: nat) {
    k < |r.runs| && exists i :: 0 <= i < |r.runs[k].effects| && r.runs[k].effects[i].Delivered? && r.runs[k].effects[i].report == y
  }

  ghost predicate DuringUser(y: Report, r: Report) {
    exists i :: 0 <= i < |r.after| && r.after[i].Delivered? && r.after[i].report == y
  }

  /** Each delivery of `c` arrived during the one before it. */
  ghost predicate Lineage(c: seq<Report>)
    decreases |c|
  {
    && c != []
    && (|c| > 1 ==> ((exists k :: DuringRun(c[1], c[0], k)) || DuringUser(c[1], c[0])) && Lineage(c[1..]))
  }

  lemma {:induction false} DoingTold(es: seq<Effect>, resp: Response, i: nat, flagged: bool, stacks: seq<Stack>)
    requires |stacks| == NSIG && TellsDoings(es, resp, flagged, stacks)
    requires i < |es| && es[i].Delivered?
    ensures Told(es[i].report, stacks) && es[i].report.flagged == flagged
  {
    assert TellsDoing(es[i], resp.doings[i], flagged, stacks);
    match resp.doings[i]
    case CallMask(_, _) =>
    case Arrive(d) =>
      assert Tells(es[i].report, d, stacks);
  }

  lemma {:induction false} RunsTold(r: Report, d: Delivery, k: nat, stacks: seq<Stack>)
    requires |stacks| == NSIG && Tells(r, d, stacks) && k < |r.runs|
    ensures TellsRun(r.runs[k], d, k, r.flagged, stacks)
  {
  }

  lemma {:induction false} RunTold(y: Report, r: Report, k: nat, stacks: seq<Stack>)
    requires |stacks| == NSIG && Told(r, stacks) && DuringRun(y, r, k)
    ensures Told(y, stacks) && y.flagged == r.runs[k].flagged
  {
    var d :| Tells(r, d, stacks);
    RunsTold(r, d, k, stacks);
    var es := r.runs[k].effects;
    var i :| 0 <= i < |es| && es[i].Delivered? && es[i].report == y;
    DoingTold(es, d.responses[k], i, r.runs[k].flagged, stacks);
  }

  lemma {:induction false} AfterTold(r: Report, d: Delivery, stacks: seq<Stack>)
    requires |stacks| == NSIG && Tells(r, d, stacks) && r.after != []
    ensures TellsDoings(r.after, d.user, r.flagged, stacks)
  {
  }

  lemma {:induction false} UserTold(y: Report, r: Report, stacks: seq<Stack>)
    requires |stacks| == NSIG && Told(r, stacks) && DuringUser(y, r)
    ensures Told(y, stacks) && y.flagged == r.flagged
  {
    var d :| Tells(r, d, stacks);
    var i :| 0 <= i < |r.after| && r.after[i].Delivered? && r.after[i].report == y;
    AfterTold(r, d, stacks);
    DoingTold(r.after, d.user, i, r.flagged, stacks);
  }

  lemma {:induction false} FlagGoesDown(c: seq<Report>, stacks: seq<Stack>)
    requires |stacks| == NSIG && Lineage(c) && Told(c[0], stacks) && c[0].flagged
    ensures c[|c| - 1].flagged && c[|c| - 1].runs == []
    decreases |c|
  {
    var d :| Tells(c[0], d, stacks);
    if |c| > 1 {
      assert DuringUser(c[1], c[0]);
      UserTold(c[1], c[0], stacks);
      FlagGoesDown(c[1..], stacks);
    }
  }

  /** While a synchronous handler runs, no runtime handler starts on the thread: not in a
      signal that arrives then, and not in one that arrives during that one, at any depth. */
  lemma {:induction false} NoHandlerInside(c: seq<Report>, k: nat, stacks: seq<Stack>)
    requires |stacks| == NSIG && Lineage(c) && Told(c[0], stacks)
    requires |c| > 1 && DuringRun(c[1], c[0], k) && c[0].runs[k].flagged
    ensures c[|c| - 1].runs == [] && c[|c| - 1].flagged
  {
    RunTold(c[1], c[0], k, stacks);
    FlagGoesDown(c[1..], stacks);
  }

  /** At every depth: the flag is restored at the end, the search goes newest first and stops
      as it should, and the user's action is reached with the mask and the flag that its own
      delivery began with. */
  lemma {:induction false} EveryDelivery(c: seq<Report>, stacks: seq<Stack>)
    requires |stacks| == NSIG && Lineage(c) && Told(c[0], stacks)
    ensures var r := c[|c| - 1];
      && r.exitFlag == r.flagged
      && (r.flagged ==> r.runs == [] && !r.outcome.Accepted?)
      && (!r.flagged ==> Searched(r, stacks[r.sig].handlers))
      && (!r.outcome.Accepted? ==>
            r.restored == r.mask && r.outcome == UserOutcome(r.sig, stacks[r.sig].sigAction, r.interrupted, r.flagged))
    decreases |c|
  {
    var d :| Tells(c[0], d, stacks);
    if |c| > 1 {
      if DuringUser(c[1], c[0]) {
        UserTold(c[1], c[0], stacks);
      } else {
        var k :| DuringRun(c[1], c[0], k);
        RunTold(c[1], c[0], k, stacks);
      }
      EveryDelivery(c[1..], stacks);
    }
  }

  ghost predicate UnderOwnMask(run: Ran) {
    forall x :: x in run.mask <==> x in run.handler.mask && x !in {9, 19, 32, 33}
  }

  /** The same in plain places of the list of registrations: the i-th handler that runs is the
      i-th from its end, so one registered later never runs after an earlier one. All but the
      last one decline, and the search ends at an acceptance, before a null entry, or at the
      list's beginning. A handler runs flagged exactly if the delivery is synchronous. */
  lemma {:induction false} LatestFirst(r: Report, d: Delivery, stacks: seq<Stack>)
    requires |stacks| == NSIG && Tells(r, d, stacks) && !r.flagged
    ensures var hs, n := stacks[d.sig].handlers, |r.runs|;
      && n <= |hs|
      && (forall i :: 0 <= i < n ==> r.runs[i].handler == hs[|hs| - 1 - i] && r.runs[i].handler.fn != 0)
      && (forall i :: 0 <= i < n ==> (r.runs[i].flagged <==> !d.isAsync))
      && (forall i :: 0 <= i < n ==> UnderOwnMask(r.runs[i]))
      && (forall i :: 0 <= i < n - 1 ==> !r.runs[i].accepted)
      && (if r.outcome.Accepted? then n > 0 && r.runs[n - 1].accepted
          else (n > 0 ==> !r.runs[n - 1].accepted) && (n == |hs| || hs[|hs| - 1 - n].fn == 0))
  {
    var hs := stacks[d.sig].handlers;
    forall i | 0 <= i < |r.runs|
      ensures r.runs[i].handler == hs[|hs| - 1 - i] && r.runs[i].handler.fn != 0 && (r.runs[i].flagged <==> !d.isAsync)
      ensures r.runs[i].accepted ==> i == |r.runs| - 1 && r.outcome.Accepted?
      ensures UnderOwnMask(r.runs[i])
    {
      assert RanAs(r, hs, i);
      RunsTold(r, d, i, stacks);
    }
  }
}
