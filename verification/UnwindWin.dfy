/** Windows unwind codes: 16-bit slots that describe a function's prologue, and the stack
    space that `GetStackOffset` reads from them. */
module UnwindWin {
  import opened Common

  const SLOT: nat := 0x1_0000

  /** Operation codes. */
  const PUSH_NON_VOL := 0
  const ALLOC_LARGE := 1
  const ALLOC_SMALL := 2
  const SET_FP_REG := 3
  const SAVE_NON_VOL := 4
  const SAVE_NON_VOL_FAR := 5
  const SAVE_XMM128 := 8
  const SAVE_XMM128_FAR := 9
  const PUSH_MACH_FRAME := 10

  /** Bits 8-11 and 12-15 of a slot; the low byte is the offset in the prologue. */
  function UnwindOp(slot: nat): nat { slot / 256 % 16 }

  function OpInfo(slot: nat): nat { slot / 4096 % 16 }

  /** The number of slots an operation takes; none for a code that is not valid. */
  function SlotsNum(slot: nat): (r: Option<nat>)
    ensures r.Some? ==> 1 <= r.value <= 3
  {
    var op := UnwindOp(slot);
    if op == PUSH_NON_VOL || op == ALLOC_SMALL || op == SET_FP_REG || op == PUSH_MACH_FRAME then Some(1)
    else if op == SAVE_NON_VOL || op == SAVE_XMM128 then Some(2)
    else if op == SAVE_NON_VOL_FAR || op == SAVE_XMM128_FAR then Some(3)
    else if op == ALLOC_LARGE then Some(if OpInfo(slot) == 0 then 2 else 3)
    else None
  }

  // ---------- prologue operations ----------

  /** One prologue operation. An allocation has three encodings: up to 128 bytes, a 16-bit
      count of 8-byte units, and a 32-bit count of bytes. */
  datatype Op =
    | Push(reg: nat)
    | AllocSmall(units: nat)
    | AllocLarge(units: nat)
    | AllocHuge(low: nat, high: nat)
    | SetFrame(info: nat)
    | Save(xmm: bool, reg: nat, offset: nat)
    | SaveFar(xmm: bool, reg: nat, low: nat, high: nat)
    | MachFrame(info: nat)

  predicate ValidOp(op: Op) {
    match op
    case Push(reg) => reg < 16
    case AllocSmall(units) => 1 <= units <= 16
    case AllocLarge(units) => 1 <= units < SLOT
    case AllocHuge(low, high) => low < SLOT && high < SLOT && low + high > 0
    case SetFrame(info) => info < 16
    case Save(_, reg, offset) => reg < 16 && offset < SLOT
    case SaveFar(_, reg, low, high) => reg < 16 && low < SLOT && high < SLOT
    case MachFrame(info) => info < 2
  }

  predicate ValidOps(ops: seq<Op>) { forall i :: 0 <= i < |ops| ==> ValidOp(ops[i]) }

  /** The stack space an allocation takes. */
  function AllocSize(op: Op): nat {
    match op
    case AllocSmall(units) => units * 8
    case AllocLarge(units) => units * 8
    case AllocHuge(low, high) => low + high * SLOT
    case _ => 0
  }

  predicate IsAlloc(op: Op) { op.AllocSmall? || op.AllocLarge? || op.AllocHuge? }

  /** The stack space an operation takes; a machine frame is five words, and one more with an
      error code. */
  function Size(op: Op): nat {
    match op
    case Push(_) => 8
    case MachFrame(info) => 40 + 8 * info
    case _ => AllocSize(op)
  }

  function FrameSize(ops: seq<Op>): nat {
    if ops == [] then 0 else FrameSize(ops[..|ops| - 1]) + Size(ops[|ops| - 1])
  }

  function Pushes(ops: seq<Op>): nat {
    if ops == [] then 0 else Pushes(ops[..|ops| - 1]) + if ops[|ops| - 1].Push? then 1 else 0
  }

  /** The allocation listed last. */
  function LastAlloc(ops: seq<Op>): nat {
    if ops == [] then 0
    else if IsAlloc(ops[|ops| - 1]) then AllocSize(ops[|ops| - 1])
    else LastAlloc(ops[..|ops| - 1])
  }

  function Allocs(ops: seq<Op>): nat {
    if ops == [] then 0 else Allocs(ops[..|ops| - 1]) + if IsAlloc(ops[|ops| - 1]) then 1 else 0
  }

  // ---------- encoding ----------

  /** A slot with an operation, its info and the prologue offset. */
  function Code(op: nat, info: nat, at: nat): nat { at + op * 256 + info * 4096 }

  /** The slots of one operation at prologue offset `at`. */
  function EncodeOp(op: Op, at: nat): seq<nat> {
    match op
    case Push(reg) => [Code(PUSH_NON_VOL, reg, at)]
    case AllocSmall(units) => [Code(ALLOC_SMALL, if units > 0 then units - 1 else 0, at)]
    case AllocLarge(units) => [Code(ALLOC_LARGE, 0, at), units]
    case AllocHuge(low, high) => [Code(ALLOC_LARGE, 1, at), low, high]
    case SetFrame(info) => [Code(SET_FP_REG, info, at)]
    case Save(xmm, reg, offset) => [Code(if xmm then SAVE_XMM128 else SAVE_NON_VOL, reg, at), offset]
    case SaveFar(xmm, reg, low, high) => [Code(if xmm then SAVE_XMM128_FAR else SAVE_NON_VOL_FAR, reg, at), low, high]
    case MachFrame(info) => [Code(PUSH_MACH_FRAME, info, at)]
  }

  /** The slots of a list of operations; `ats` are their prologue offsets. */
  function Encode(ops: seq<Op>, ats: seq<nat>): seq<nat>
    requires |ats| == |ops|
  {
    if ops == [] then [] else EncodeOp(ops[0], ats[0]) + Encode(ops[1..], ats[1..])
  }

  // ---------- decoding ----------

  datatype Parse = Ops(ops: seq<Op>) | Invalid | Overrun

  function SlotAt(slots: seq<nat>, i: nat): nat { if i < |slots| then slots[i] else 0 }

  /** The operation that starts at slot `i`, where `SlotsNum` accepts it. */
  function OpAt(slots: seq<nat>, i: nat): Op {
    var s, s1, s2 := SlotAt(slots, i), SlotAt(slots, i + 1), SlotAt(slots, i + 2);
    var op, info := UnwindOp(s), OpInfo(s);
    if op == PUSH_NON_VOL then Push(info)
    else if op == ALLOC_SMALL then AllocSmall(info + 1)
    else if op == ALLOC_LARGE && info == 0 then AllocLarge(s1)
    else if op == ALLOC_LARGE then AllocHuge(s1, s2)
    else if op == SET_FP_REG then SetFrame(info)
    else if op == SAVE_NON_VOL || op == SAVE_XMM128 then Save(op == SAVE_XMM128, info, s1)
    else if op == SAVE_NON_VOL_FAR || op == SAVE_XMM128_FAR then SaveFar(op == SAVE_XMM128_FAR, info, s1, s2)
    else MachFrame(info)
  }

  /** An allocation whose operand lies past the slots. */
  predicate Cut(slots: seq<nat>, i: nat) {
    i < |slots| && UnwindOp(slots[i]) == ALLOC_LARGE && i + (if OpInfo(slots[i]) == 0 then 1 else 2) >= |slots|
  }

  /** The operations from slot `i` on, of which `count` slots are codes. */
  function Decode(slots: seq<nat>, i: nat, count: nat): Parse
    requires count <= |slots|
    decreases count - i
  {
    if i >= count then Ops([])
    else if Cut(slots, i) then Overrun
    else if SlotsNum(slots[i]).None? then Invalid
    else Before([OpAt(slots, i)], Decode(slots, i + SlotsNum(slots[i]).value, count))
  }

  function Before(done: seq<Op>, rest: Parse): Parse {
    if rest.Ops? then Ops(done + rest.ops) else rest
  }

  lemma {:induction false} CodeFields(op: nat, info: nat, at: nat)
    requires op < 16 && info < 16 && at < 256
    ensures UnwindOp(Code(op, info, at)) == op && OpInfo(Code(op, info, at)) == info
  {
    assert Code(op, info, at) / 256 == op + 16 * info;
    HighPart(Code(op, info, at), op * 256 + at, info);
  }

  lemma {:induction false} HighPart(slot: nat, low: nat, info: nat)
    requires slot == low + info * 4096 && low < 4096 && info < 16
    ensures slot / 4096 % 16 == info
  {
  }

  /** One encoded operation is read back, whatever slots follow. */
  lemma {:induction false} OneOp(op: Op, at: nat, before: seq<nat>, tail: seq<nat>)
    requires ValidOp(op) && at < 256
    ensures var slots, i := before + EncodeOp(op, at) + tail, |before|;
      !Cut(slots, i) && SlotsNum(slots[i]) == Some(|EncodeOp(op, at)|) && OpAt(slots, i) == op
  {
    var code := EncodeOp(op, at)[0];
    match op
    case Push(reg) => CodeFields(PUSH_NON_VOL, reg, at);
    case AllocSmall(units) => CodeFields(ALLOC_SMALL, units - 1, at);
    case AllocLarge(_) => CodeFields(ALLOC_LARGE, 0, at);
    case AllocHuge(_, _) => CodeFields(ALLOC_LARGE, 1, at);
    case SetFrame(info) => CodeFields(SET_FP_REG, info, at);
    case Save(xmm, reg, _) => CodeFields(if xmm then SAVE_XMM128 else SAVE_NON_VOL, reg, at);
    case SaveFar(xmm, reg, _, _) => CodeFields(if xmm then SAVE_XMM128_FAR else SAVE_NON_VOL_FAR, reg, at);
    case MachFrame(info) => CodeFields(PUSH_MACH_FRAME, info, at);
    assert (before + EncodeOp(op, at) + tail)[|before|] == code;
  }

  lemma {:induction false} Regroup(a: seq<nat>, b: seq<nat>, c: seq<nat>, d: seq<nat>)
    ensures a + (b + c) + d == a + b + (c + d)
    ensures a + (b + c) + d == (a + b) + c + d
  {
  }

  /** Decoding visits exactly the operation boundaries of what was encoded. */
  lemma {:induction false} RoundTrip(ops: seq<Op>, ats: seq<nat>, before: seq<nat>, tail: seq<nat>)
    requires ValidOps(ops) && |ats| == |ops| && forall i :: 0 <= i < |ats| ==> ats[i] < 256
    ensures var slots := before + Encode(ops, ats) + tail;
      Decode(slots, |before|, |before| + |Encode(ops, ats)|) == Ops(ops)
    decreases |ops|
  {
    if ops != [] {
      var first, rest := EncodeOp(ops[0], ats[0]), Encode(ops[1..], ats[1..]);
      Regroup(before, first, rest, tail);
      assert ValidOp(ops[0]);
      OneOp(ops[0], ats[0], before, rest + tail);
      RoundTrip(ops[1..], ats[1..], before + first, tail);
      assert [ops[0]] + ops[1..] == ops;
    }
  }

  // ---------- the loop ----------

  datatype Offset = Offset(bytes: nat) | Fatal | PastEnd

  /** The slots to skip for a code: as many as the operation it starts was encoded in. */
  method GetSlotsNum(slot: nat) returns (r: Option<nat>)
    ensures r == SlotsNum(slot)
    ensures r.None? <==> UnwindOp(slot) == 6 || UnwindOp(slot) == 7 || UnwindOp(slot) > 10
    ensures forall op, at :: ValidOp(op) && at < 256 && slot == EncodeOp(op, at)[0] ==> r == Some(|EncodeOp(op, at)|)
  {
    forall op, at | ValidOp(op) && at < 256 && slot == EncodeOp(op, at)[0]
      ensures SlotsNum(slot) == Some(|EncodeOp(op, at)|)
    {
      OneOp(op, at, [], []);
      assert [] + EncodeOp(op, at) + [] == EncodeOp(op, at);
    }
    r := SlotsNum(slot);
  }

  /** What a parse means for the caller: the pushes, and the allocation listed last. */
  function Meaning(p: Parse): Offset {
    match p
    case Ops(ops) => Offset((8 * Pushes(ops) + LastAlloc(ops)) % WORD32)
    case Invalid => Fatal
    case Overrun => PastEnd
  }

  /** The stack offset that the codes describe. `PastEnd` is a read past the slots, `Fatal` an
      invalid code. */
  method GetStackOffset(slots: seq<nat>, codesCount: nat) returns (r: Offset)
    requires codesCount < 256 && codesCount <= |slots|
    requires forall i :: 0 <= i < |slots| ==> slots[i] < SLOT
    ensures r == Meaning(Decode(slots, 0, codesCount)) == OffsetFrom(slots, 0, codesCount, 0, 0)
  {
    var pushRegOffset, allocSize, i := 0, 0, 0;
    ghost var done: seq<Op>, whole := [], Decode(slots, 0, codesCount);
    BeforeNothing(whole);
    while i < codesCount
      invariant whole == Before(done, Decode(slots, i, codesCount))
      invariant pushRegOffset == 8 * Pushes(done) && Pushes(done) <= |done| <= i
      invariant allocSize == LastAlloc(done) < WORD32
      decreases codesCount - i
    {
      DecodeStep(slots, i, codesCount, done);
      ghost var op := OpAt(slots, i);
      var pastEnd;
      pastEnd, pushRegOffset, allocSize := Account(slots, i, pushRegOffset, allocSize);
      if pastEnd {
        return PastEnd;
      }
      var n := GetSlotsNum(slots[i]);
      if n.None? {
        return Fatal;
      }
      i, done := i + n.value, done + [op];
    }
    AllDone(done);
    NoAllocs(done);
    var bytes := Sum(allocSize, pushRegOffset);
    return Offset(bytes);
  }

  /** One more code, after the operations already read. */
  lemma {:induction false} DecodeStep(slots: seq<nat>, i: nat, count: nat, done: seq<Op>)
    requires i < count <= |slots|
    ensures var whole, op := Before(done, Decode(slots, i, count)), OpAt(slots, i);
      if Cut(slots, i) then whole == Overrun
      else if SlotsNum(slots[i]).None? then whole == Invalid
      else
        && whole == Before(done + [op], Decode(slots, i + SlotsNum(slots[i]).value, count))
        && Pushes(done + [op]) == Pushes(done) + (if op.Push? then 1 else 0)
        && LastAlloc(done + [op]) == if IsAlloc(op) then AllocSize(op) else LastAlloc(done)
  {
    if !Cut(slots, i) && SlotsNum(slots[i]).Some? {
      OneMore(done, OpAt(slots, i), Decode(slots, i + SlotsNum(slots[i]).value, count));
    }
  }

  lemma {:induction false} BeforeNothing(p: Parse)
    ensures Before([], p) == p
  {
    if p.Ops? {
      assert [] + p.ops == p.ops;
    }
  }

  lemma {:induction false} AllDone(done: seq<Op>)
    ensures Before(done, Ops([])) == Ops(done)
  {
    assert done + [] == done;
  }

  method Sum(a: nat, b: nat) returns (r: nat)
    ensures r == (b + a) % WORD32
  {
    return Add32(a, b);
  }

  /** The loop's switch: what the code at slot `i` adds. */
  method Account(slots: seq<nat>, i: nat, pushes: nat, alloc: nat) returns (pastEnd: bool, pushes': nat, alloc': nat)
    requires i < |slots| && pushes < 0x1_0000 && alloc < WORD32
    requires forall k :: 0 <= k < |slots| ==> slots[k] < SLOT
    ensures pastEnd == Cut(slots, i)
    ensures !pastEnd && SlotsNum(slots[i]).Some? ==>
      var op := OpAt(slots, i);
      && pushes' == pushes + (if op.Push? then 8 else 0)
      && alloc' == (if IsAlloc(op) then AllocSize(op) else alloc) < WORD32
  {
    var op, info := UnwindOp(slots[i]), OpInfo(slots[i]);
    pastEnd, pushes', alloc' := false, pushes, alloc;
    if op == PUSH_NON_VOL {
      pushes' := Add32(pushes, 8);
    } else if op == ALLOC_SMALL {
      alloc' := (info + 1) * 8;
    } else if op == ALLOC_LARGE {
      if i + (if info == 0 then 1 else 2) >= |slots| {
        pastEnd := true;
      } else if info == 0 {
        alloc' := slots[i + 1] * 8;
      } else {
        alloc' := Add32(slots[i + 1], slots[i + 2] * SLOT);
      }
    }
  }

  lemma {:induction false} OneMore(done: seq<Op>, op: Op, rest: Parse)
    ensures Before(done, Before([op], rest)) == Before(done + [op], rest)
    ensures Pushes(done + [op]) == Pushes(done) + if op.Push? then 1 else 0
    ensures LastAlloc(done + [op]) == if IsAlloc(op) then AllocSize(op) else LastAlloc(done)
  {
    assert (done + [op])[..|done|] == done;
    if rest.Ops? {
      assert done + ([op] + rest.ops) == (done + [op]) + rest.ops;
    }
  }

  // ---------- the codes in numbers ----------

  /** What the codes from slot `i` on make of `pushed` bytes of pushes and an allocation of
      `alloc` bytes found before. */
  function OffsetFrom(slots: seq<nat>, i: nat, count: nat, pushed: nat, alloc: nat): Offset
    requires count <= |slots|
  {
    match Decode(slots, i, count)
    case Ops(ops) => Offset((pushed + 8 * Pushes(ops) + (if Allocs(ops) == 0 then alloc else LastAlloc(ops))) % WORD32)
    case Invalid => Fatal
    case Overrun => PastEnd
  }

  lemma {:induction false} NoAllocs(ops: seq<Op>)
    ensures Allocs(ops) == 0 ==> LastAlloc(ops) == 0
  {
    if ops != [] {
      NoAllocs(ops[..|ops| - 1]);
    }
  }

  /** An operation in front of others: it counts as a push, and as an allocation unless
      another one follows. */
  lemma {:induction false} InFront(op: Op, rest: seq<Op>)
    ensures Pushes([op] + rest) == Pushes(rest) + if op.Push? then 1 else 0
    ensures Allocs([op] + rest) == Allocs(rest) + if IsAlloc(op) then 1 else 0
    ensures LastAlloc([op] + rest) == if Allocs(rest) == 0 then (if IsAlloc(op) then AllocSize(op) else 0) else LastAlloc(rest)
  {
    var all := [op] + rest;
    if rest == [] {
      assert all[..0] == [] && all[0] == op;
    } else {
      var front := rest[..|rest| - 1];
      assert all[..|all| - 1] == [op] + front && all[|all| - 1] == rest[|rest| - 1];
      InFront(op, front);
    }
  }

  lemma {:induction false} OneCode(slots: seq<nat>, i: nat, count: nat, pushed: nat, alloc: nat)
    requires i < count <= |slots|
    ensures var n, op := SlotsNum(slots[i]), OpAt(slots, i);
      OffsetFrom(slots, i, count, pushed, alloc) ==
        if Cut(slots, i) then PastEnd
        else if n.None? then Fatal
        else OffsetFrom(slots, i + n.value, count, pushed + (if op.Push? then 8 else 0), if IsAlloc(op) then AllocSize(op) else alloc)
  {
    if !Cut(slots, i) && SlotsNum(slots[i]).Some? {
      var rest := Decode(slots, i + SlotsNum(slots[i]).value, count);
      if rest.Ops? {
        InFront(OpAt(slots, i), rest.ops);
      }
    }
  }

  lemma {:induction false} SlotFields(slot: nat, at: nat, op: nat, info: nat)
    requires slot == at + 0x100 * op + 0x1000 * info && at < 0x100 && op < 0x10 && info < 0x10
    ensures UnwindOp(slot) == op && OpInfo(slot) == info
  {
    assert slot / 256 == op + 16 * info;
    HighPart(slot, op * 256 + at, info);
  }

  /** Every code in numbers: how many slots it takes and what it adds. With no code left, the
      result is the sum in 32 bits. */
  lemma {:induction false} CodeMeaning(slots: seq<nat>, i: nat, count: nat, pushed: nat, alloc: nat, at: nat, op: nat, info: nat)
    requires i < count <= |slots| && slots[i] == at + 0x100 * op + 0x1000 * info && at < 0x100 && op < 0x10 && info < 0x10
    ensures op == 0 ==> OffsetFrom(slots, i, count, pushed, alloc) == OffsetFrom(slots, i + 1, count, pushed + 8, alloc)
    ensures op == 1 && info == 0 && i + 1 < |slots| ==> OffsetFrom(slots, i, count, pushed, alloc) == OffsetFrom(slots, i + 2, count, pushed, 8 * slots[i + 1])
    ensures op == 1 && info > 0 && i + 2 < |slots| ==> OffsetFrom(slots, i, count, pushed, alloc) == OffsetFrom(slots, i + 3, count, pushed, slots[i + 1] + 65536 * slots[i + 2])
    ensures op == 1 && i + (if info == 0 then 1 else 2) >= |slots| ==> OffsetFrom(slots, i, count, pushed, alloc) == PastEnd
    ensures op == 2 ==> OffsetFrom(slots, i, count, pushed, alloc) == OffsetFrom(slots, i + 1, count, pushed, 8 * (info + 1))
    ensures op == 3 || op == 10 ==> OffsetFrom(slots, i, count, pushed, alloc) == OffsetFrom(slots, i + 1, count, pushed, alloc)
    ensures op == 4 || op == 8 ==> OffsetFrom(slots, i, count, pushed, alloc) == OffsetFrom(slots, i + 2, count, pushed, alloc)
    ensures op == 5 || op == 9 ==> OffsetFrom(slots, i, count, pushed, alloc) == OffsetFrom(slots, i + 3, count, pushed, alloc)
    ensures op == 6 || op == 7 || op > 10 ==> OffsetFrom(slots, i, count, pushed, alloc) == Fatal
  {
    SlotFields(slots[i], at, op, info);
    OneCode(slots, i, count, pushed, alloc);
  }

  /** The slots of each prologue operation, in numbers. */
  lemma {:induction false} EncodedSlots(at: nat, reg: nat, units: nat, low: nat, high: nat)
    requires units >= 1
    ensures EncodeOp(Push(reg), at) == [at + 0x1000 * reg]
    ensures EncodeOp(AllocSmall(units), at) == [at + 0x200 + 0x1000 * (units - 1)]
    ensures EncodeOp(AllocLarge(units), at) == [at + 0x100, units]
    ensures EncodeOp(AllocHuge(low, high), at) == [at + 0x1100, low, high]
    ensures EncodeOp(SetFrame(reg), at) == [at + 0x300 + 0x1000 * reg]
    ensures EncodeOp(Save(false, reg, low), at) == [at + 0x400 + 0x1000 * reg, low]
    ensures EncodeOp(Save(true, reg, low), at) == [at + 0x800 + 0x1000 * reg, low]
    ensures EncodeOp(SaveFar(false, reg, low, high), at) == [at + 0x500 + 0x1000 * reg, low, high]
    ensures EncodeOp(SaveFar(true, reg, low, high), at) == [at + 0x900 + 0x1000 * reg, low, high]
    ensures EncodeOp(MachFrame(reg), at) == [at + 0xa00 + 0x1000 * reg]
  {
  }

  /** What each further operation adds to a frame, in bytes. */
  lemma {:induction false} FrameGrows(ops: seq<Op>, op: Op)
    ensures FrameSize([]) == 0
    ensures op.Push? ==> FrameSize(ops + [op]) == FrameSize(ops) + 8
    ensures op.AllocSmall? ==> FrameSize(ops + [op]) == FrameSize(ops) + 8 * op.units
    ensures op.AllocLarge? ==> FrameSize(ops + [op]) == FrameSize(ops) + 8 * op.units
    ensures op.AllocHuge? ==> FrameSize(ops + [op]) == FrameSize(ops) + op.low + 65536 * op.high
    ensures op == MachFrame(0) ==> FrameSize(ops + [op]) == FrameSize(ops) + 40
    ensures op == MachFrame(1) ==> FrameSize(ops + [op]) == FrameSize(ops) + 48
    ensures op.SetFrame? || op.Save? || op.SaveFar? ==> FrameSize(ops + [op]) == FrameSize(ops)
  {
    assert (ops + [op])[..|ops|] == ops;
  }

  /** The prologue that takes 40 bytes, in one slot. */
  lemma {:induction false} FortyBytes(slots: seq<nat>)
    requires |slots| >= 1 && slots[0] == 0x4204
    ensures OffsetFrom(slots, 0, 1, 0, 0) == Offset(40)
  {
    CodeMeaning(slots, 0, 1, 0, 0, 4, 2, 4);
    NoCodeLeft(slots, 1, 1, 0, 40);
  }

  lemma {:induction false} NoCodeLeft(slots: seq<nat>, i: nat, count: nat, pushed: nat, alloc: nat)
    requires count <= i && count <= |slots|
    ensures OffsetFrom(slots, i, count, pushed, alloc) == Offset((pushed + alloc) % 0x1_0000_0000)
  {
  }

  /** The result is the real size of the frame exactly when the prologue allocates at most
      once and pushes no machine frame, as long as the size fits 32 bits. */
  lemma {:induction false} OffsetExact(ops: seq<Op>)
    requires ValidOps(ops) && FrameSize(ops) < WORD32
    ensures (8 * Pushes(ops) + LastAlloc(ops)) % WORD32 == FrameSize(ops)
            <==> Allocs(ops) <= 1 && forall i :: 0 <= i < |ops| ==> !ops[i].MachFrame?
  {
    Missed(ops);
  }

  /** For every prologue with at most one allocation, in any of its encodings, the slots give
      back the size of the frame, whatever follows them. */
  lemma {:induction false} PrologueOffset(ops: seq<Op>, ats: seq<nat>, tail: seq<nat>)
    requires ValidOps(ops) && |ats| == |ops| && forall i :: 0 <= i < |ats| ==> ats[i] < 256
    requires Allocs(ops) <= 1 && (forall i :: 0 <= i < |ops| ==> !ops[i].MachFrame?) && FrameSize(ops) < WORD32
    ensures Meaning(Decode(Encode(ops, ats) + tail, 0, |Encode(ops, ats)|)) == Offset(FrameSize(ops))
  {
    RoundTrip(ops, ats, [], tail);
    Unpadded(Encode(ops, ats), tail);
    OffsetExact(ops);
  }

  lemma {:induction false} Unpadded(a: seq<nat>, b: seq<nat>)
    ensures [] + a + b == a + b
  {
  }

  /** How far the result falls short. */
  function Shortfall(ops: seq<Op>): nat {
    if ops == [] then 0
    else if IsAlloc(ops[|ops| - 1]) then Shortfall(ops[..|ops| - 1]) + LastAlloc(ops[..|ops| - 1])
    else Shortfall(ops[..|ops| - 1]) + if ops[|ops| - 1].MachFrame? then Size(ops[|ops| - 1]) else 0
  }

  lemma {:induction false} Missed(ops: seq<Op>)
    requires ValidOps(ops)
    ensures FrameSize(ops) == 8 * Pushes(ops) + LastAlloc(ops) + Shortfall(ops)
    ensures LastAlloc(ops) == 0 <==> Allocs(ops) == 0
    ensures Shortfall(ops) == 0 <==> Allocs(ops) <= 1 && forall i :: 0 <= i < |ops| ==> !ops[i].MachFrame?
  {
    if ops != [] {
      Missed(ops[..|ops| - 1]);
      assert ValidOp(ops[|ops| - 1]);
    }
  }
}
