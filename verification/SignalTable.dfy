/** Signal dispositions and masks as user code is promised them: one table and one mask, kept
    by the kernel and the C library, no runtime underneath. */
module SignalTable {
  import opened Common

  const NSIG: nat := 65

  /** Signals run from 1 to 64. */
  predicate ValidSignal(sig: int) { 0 < sig < NSIG }

  type Signo = s: nat | ValidSignal(s) witness 1

  /** The kernel lets nobody redirect or block these two. */
  const SIGKILL: nat := 9
  const SIGSTOP: nat := 19

  /** The C library keeps these two to itself. */
  const SIGCANCEL: nat := 32
  const SIGSETXID: nat := 33

  predicate Fixed(sig: int) { sig == SIGKILL || sig == SIGSTOP }

  predicate Reserved(sig: int) { sig == SIGCANCEL || sig == SIGSETXID }

  /** Handler words with a meaning of their own. */
  const SIG_DFL: nat := 0
  const SIG_IGN: nat := 1

  datatype Flag = Restart | SigInfo | OnStack | NoDefer | ResetHand

  /** A `struct sigaction`: the handler word, its flags and its mask. */
  datatype Act = Act(handler: nat, flags: set<Flag>, mask: set<nat>)

  const Default: Act := Act(SIG_DFL, {}, {})

  /** The kernel stores a mask without the two signals that cannot be blocked. */
  function Trim(act: Act): Act { act.(mask := act.mask - {SIGKILL, SIGSTOP}) }

  predicate Trimmed(act: Act) { SIGKILL !in act.mask && SIGSTOP !in act.mask }

  datatype Call =
    | Sigaction(sig: int, act: Option<Act>)
    | Signal(sig: int, handler: nat)

  /** `Old` is what `sigaction` stores for the caller, `OldHandler` what `signal` returns. */
  datatype Reply = Failed | Old(act: Act) | OldHandler(handler: nat)

  /** What `signal` asks for. */
  function Simple(handler: nat): Act { Act(handler, {Restart, OnStack}, {}) }

  predicate Refused(call: Call) {
    || !ValidSignal(call.sig) || Reserved(call.sig)
    || (Fixed(call.sig) && (call.Signal? || call.act.Some?))
  }

  /** The answer of a plain table. */
  function Answer(table: seq<Act>, call: Call): Reply
    requires |table| == NSIG
  {
    if Refused(call) then Failed
    else if call.Signal? then OldHandler(table[call.sig].handler)
    else Old(table[call.sig])
  }

  /** The table afterwards. */
  function Changed(table: seq<Act>, call: Call): (r: seq<Act>)
    requires |table| == NSIG
    ensures |r| == NSIG
  {
    if Refused(call) then table
    else if call.Signal? then table[call.sig := Trim(Simple(call.handler))]
    else if call.act.Some? then table[call.sig := Trim(call.act.value)]
    else table
  }

  // ---------- masks ----------

  datatype How = Block | Unblock | SetMask | Unknown

  /** Never blocked by a `sigprocmask` call. */
  const Unblockable: set<nat> := {SIGKILL, SIGSTOP, SIGCANCEL, SIGSETXID}

  /** The rule for a thread's mask. */
  function Remasked(mask: set<nat>, how: How, s: set<nat>): set<nat> {
    match how
    case Block => mask + (s - Unblockable)
    case Unblock => mask - (s - {SIGCANCEL, SIGSETXID})
    case SetMask => s - Unblockable
    case Unknown => mask
  }
}
