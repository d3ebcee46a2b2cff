/**
 Well-nested use of the stack: PUSH with POP, calls with RET, interrupts with RETI.

 A tree describes an execution by its nesting. Its leaves are instructions that leave the stack
 alone; what they do to registers, flags, control and memory outside the live stack is arbitrary.
 */
module CallStack {
  import opened Bytes
  import opened Bitwise
  import opened Alu
  import opened Memory
  import opened ProgramCounter
  import opened Instructions

  /** A store of one byte to a plain memory cell, or none. */
  datatype Store = NoStore | StoreByte(addr: nat, val: byte)

  /** The outcome of an instruction that does not use the stack. */
  datatype Effect = Effect(regs: seq<byte>, sreg: Sreg, pc: int, rampz: byte, cks: nat, store: Store)

  datatype Tree =
    | Done
    | Plain(effect: Effect, next: Tree)
    | Stacked(rs: nat, body: Tree, rd: nat, next: Tree)
    | Subroutine(kind: CallKind, body: Tree, next: Tree)
    | Interrupted(vector: int, body: Tree, next: Tree)

  function Apply(dev: Device, m: Cpu, e: Effect): (m': Cpu)
    requires Wf(dev, m) && |e.regs| == 32
    requires e.store.StoreByte? ==> PlainCell(dev, e.store.addr)
    ensures Wf(dev, m')
  {
    var m1 := if e.store.StoreByte? then Write(dev, m, e.store.addr, e.store.val) else m;
    m1.(regs := e.regs, sreg := e.sreg, pc := e.pc, rampz := e.rampz, cks := e.cks)
  }

  predicate InReach(dev: Device, pc: int) {
    -dev.pcMax <= pc < 2 * dev.pcMax
  }

  predicate InFlash(dev: Device, pc: int) {
    0 <= pc < dev.pcMax
  }

  /**
   The execution the tree describes can happen from m: stack bytes are plain cells, control stays
   within reach of the flash, vectoring finds I set, and no store hits the bytes in (sp, top] that
   are on the stack.
   */
  ghost predicate Nested(dev: Device, t: Tree, m: Cpu, top: word)
    requires Wf(dev, m) && dev.pcSize < 4
    decreases t, 0
  {
    match t
    case Done => true
    case Plain(e, next) =>
      && |e.regs| == 32 && InFlash(dev, e.pc)
      && (e.store.StoreByte? ==> PlainCell(dev, e.store.addr) && !(m.sp < e.store.addr <= top))
      && Nested(dev, next, Apply(dev, m, e), top)
    case Stacked(rs, body, rd, next) =>
      && rs < 32 && rd < 32 && PlainStack(dev, m.sp, 1) && InFlash(dev, m.pc)
      && Nested(dev, body, ExecPush(dev, m, rs), top)
      && Nested(dev, next, ExecPop(dev, RunTree(dev, body, ExecPush(dev, m, rs), top), rd), top)
    case Subroutine(kind, body, next) =>
      && CallAccepted(dev, kind) && InFlash(dev, m.pc) && InReach(dev, CallTarget(m, kind))
      && PlainStack(dev, m.sp, dev.pcSize)
      && Nested(dev, body, ExecCall(dev, m, kind), top)
      && Nested(dev, next, ExecRet(dev, RunTree(dev, body, ExecCall(dev, m, kind), top)), top)
    case Interrupted(vector, body, next) =>
      && m.sreg.i && InFlash(dev, m.pc) && InReach(dev, vector)
      && PlainStack(dev, m.sp, dev.pcSize)
      && Nested(dev, body, EnterInterrupt(dev, m, vector), top)
      && Nested(dev, next, ExecReti(dev, RunTree(dev, body, EnterInterrupt(dev, m, vector), top)), top)
  }

  /** The machine after the execution the tree describes. */
  ghost function RunTree(dev: Device, t: Tree, m: Cpu, top: word): (m': Cpu)
    requires Wf(dev, m) && dev.pcSize < 4 && Nested(dev, t, m, top)
    ensures Wf(dev, m')
    decreases t, 1
  {
    match t
    case Done => m
    case Plain(e, next) => RunTree(dev, next, Apply(dev, m, e), top)
    case Stacked(rs, body, rd, next) =>
      RunTree(dev, next, ExecPop(dev, RunTree(dev, body, ExecPush(dev, m, rs), top), rd), top)
    case Subroutine(kind, body, next) =>
      RunTree(dev, next, ExecRet(dev, RunTree(dev, body, ExecCall(dev, m, kind), top)), top)
    case Interrupted(vector, body, next) =>
      RunTree(dev, next, ExecReti(dev, RunTree(dev, body, EnterInterrupt(dev, m, vector), top)), top)
  }

  /** The number of stack bytes an execution uses. */
  function Depth(dev: Device, t: Tree): nat {
    match t
    case Done => 0
    case Plain(_, next) => Depth(dev, next)
    case Stacked(_, body, _, next) => Max(1 + Depth(dev, body), Depth(dev, next))
    case Subroutine(_, body, next) => Max(dev.pcSize + Depth(dev, body), Depth(dev, next))
    case Interrupted(_, body, next) => Max(dev.pcSize + Depth(dev, body), Depth(dev, next))
  }

  function Max(a: nat, b: nat): nat {
    if a < b then b else a
  }

  /** The addresses stored to by the leaves. */
  function Stores(t: Tree): set<nat> {
    match t
    case Done => {}
    case Plain(e, next) => (if e.store.StoreByte? then {e.store.addr} else {}) + Stores(next)
    case Stacked(_, body, _, next) => Stores(body) + Stores(next)
    case Subroutine(_, body, next) => Stores(body) + Stores(next)
    case Interrupted(_, body, next) => Stores(body) + Stores(next)
  }

  // ----- return addresses -----

  /** The word after an instruction of len words at pc. */
  function Following(dev: Device, pc: int, len: nat): int {
    if pc + len >= dev.pcMax then pc + len - dev.pcMax else pc + len
  }

  /** Where a return leads when the address pc + len was pushed: only pcSize bytes of it were kept. */
  function ReturnsTo(dev: Device, pc: int, len: nat): int
    requires pc + len >= 0
  {
    AdjustToMax((pc + len) % Pow256(dev.pcSize), dev.pcMax)
  }

  /** The counter's bytes hold every return address, or wrap exactly where the flash does. */
  predicate CounterFits(dev: Device) {
    dev.pcMax + 1 < Pow256(dev.pcSize) || dev.pcMax == Pow256(dev.pcSize)
  }

  lemma ReturnAddressExact(dev: Device, pc: int, len: nat)
    requires CounterFits(dev) && dev.pcMax >= 2 && InFlash(dev, pc) && len <= 2
    ensures ReturnsTo(dev, pc, len) == Following(dev, pc, len)
    ensures InFlash(dev, Following(dev, pc, len))
  {
    SmallRemainder(pc + len, Pow256(dev.pcSize));
  }

  /** Returns resume at the following word for all calls exactly when the counter fits. */
  lemma ReturnAddressIff(dev: Device)
    requires dev.pcMax >= 2
    ensures CounterFits(dev) <==>
            forall pc: int, len: nat {:trigger Following(dev, pc, len)} :: InFlash(dev, pc) && 1 <= len <= 2 ==>
              ReturnsTo(dev, pc, len) == Following(dev, pc, len)
  {
    var p := Pow256(dev.pcSize);
    if CounterFits(dev) {
      forall pc: int, len: nat | InFlash(dev, pc) && 1 <= len <= 2
        ensures ReturnsTo(dev, pc, len) == Following(dev, pc, len)
      {
        ReturnAddressExact(dev, pc, len);
      }
    } else if dev.pcMax + 1 == p {
      SmallRemainder(p, p);
      assert ReturnsTo(dev, dev.pcMax - 1, 2) != Following(dev, dev.pcMax - 1, 2);
    } else {
      SmallRemainder(p, p);
      assert ReturnsTo(dev, p - 1, 1) != Following(dev, p - 1, 1);
    }
  }

  // ----- the theorem -----

  /** Memory outside the stack bytes at and below sp, n of them, and outside the given addresses is as before. */
  ghost predicate SameOutside(m: Cpu, m': Cpu, n: nat, stored: set<nat>)
    requires |m.ram| == |m'.ram|
  {
    forall a :: 0 <= a < |m.ram| && !(m.sp - n < a <= m.sp) && a !in stored ==> m'.ram[a] == m.ram[a]
  }

  /** The bytes already on the stack are as before. */
  ghost predicate SameAbove(m: Cpu, m': Cpu, top: word)
    requires |m.ram| == |m'.ram|
  {
    forall a :: m.sp < a <= top && a < |m.ram| ==> m'.ram[a] == m.ram[a]
  }

  /** m' is m with the stack as it was. */
  ghost predicate Balanced(m: Cpu, m': Cpu, n: nat, stored: set<nat>, top: word)
    requires |m.ram| == |m'.ram|
  {
    m'.sp == m.sp && SameOutside(m, m', n, stored) && SameAbove(m, m', top)
  }

  /** Every POP gets its own PUSH, every return resumes after its own call, RETI where vectoring happened. */
  ghost predicate ComesHome(dev: Device, t: Tree, m: Cpu, top: word)
    requires Wf(dev, m) && dev.pcSize < 4 && Nested(dev, t, m, top)
  {
    match t
    case Done => true
    case Plain(e, next) => ComesHome(dev, next, Apply(dev, m, e), top)
    case Stacked(rs, body, rd, next) =>
      var m1 := ExecPush(dev, m, rs);
      var m2 := ExecPop(dev, RunTree(dev, body, m1, top), rd);
      && ComesHome(dev, body, m1, top)
      && m2.regs[rd] == m.regs[rs] && m2.sp == m.sp
      && ComesHome(dev, next, m2, top)
    case Subroutine(kind, body, next) =>
      var m1 := ExecCall(dev, m, kind);
      var m2 := ExecRet(dev, RunTree(dev, body, m1, top));
      && ComesHome(dev, body, m1, top)
      && m2.pc == Following(dev, m.pc, CallLength(kind)) && m2.sp == m.sp
      && ComesHome(dev, next, m2, top)
    case Interrupted(vector, body, next) =>
      var m1 := EnterInterrupt(dev, m, vector);
      var m2 := ExecReti(dev, RunTree(dev, body, m1, top));
      && !m1.sreg.i && ComesHome(dev, body, m1, top)
      && m2.pc == m.pc && m2.sp == m.sp && m2.sreg.i == m.sreg.i
      && ComesHome(dev, next, m2, top)
  }

  /** A push, anything balanced, and the bytes pushed are read back. */
  lemma PushedComesBack(dev: Device, m: Cpu, m1: Cpu, m2: Cpu, bytes: nat, val: nat, n: nat, stored: set<nat>, top: word)
    requires Wf(dev, m) && Wf(dev, m1) && Wf(dev, m2) && bytes < 4
    requires PlainStack(dev, m.sp, bytes) && m.sp <= top
    requires m1.ram == Push(dev, m, bytes, val).ram && m1.sp == Push(dev, m, bytes, val).sp
    requires Balanced(m1, m2, n, stored, top)
    ensures PopValue(dev, m2, bytes) == val % Pow256(bytes)
    ensures Popped(m2, bytes).sp == m.sp
    ensures Balanced(m, Popped(m2, bytes), bytes + n, stored, top)
  {
    var p := Push(dev, m, bytes, val);
    LoweredRaised(m.sp, bytes);
    PushFromPlain(dev, m, m.sp, bytes, val);
    PopAfterPush(dev, m, p, m2, bytes, val);
  }

  lemma BalancedThen(m: Cpu, m1: Cpu, m2: Cpu, n1: nat, n2: nat, s1: set<nat>, s2: set<nat>, top: word)
    requires |m.ram| == |m1.ram| == |m2.ram|
    requires Balanced(m, m1, n1, s1, top) && Balanced(m1, m2, n2, s2, top)
    ensures Balanced(m, m2, Max(n1, n2), s1 + s2, top)
  {
  }

  /** The devices the theorem is about: a counter of up to three bytes that fits, kept in an int32_t. */
  predicate GoodDevice(dev: Device) {
    dev.pcSize < 4 && CounterFits(dev) && 2 <= dev.pcMax < 0x7fff_ffff
  }

  lemma ReturnTakes(dev: Device, m: Cpu, target: nat, back: Cpu)
    requires Wf(dev, m) && dev.pcSize < 4
    requires target == PopValue(dev, m, dev.pcSize) && back == Popped(m, dev.pcSize)
    ensures var m' := ExecRet(dev, m);
            m'.pc == AdjustToMax(target, dev.pcMax) && m'.sp == back.sp && m'.ram == back.ram && m'.sreg == m.sreg
  {
  }

  lemma BalancedAs(m: Cpu, a: Cpu, b: Cpu, n: nat, stored: set<nat>, top: word)
    requires |m.ram| == |a.ram| && Balanced(m, a, n, stored, top)
    requires b.ram == a.ram && b.sp == a.sp
    ensures Balanced(m, b, n, stored, top)
  {
  }

  lemma AddressComesBack(dev: Device, m: Cpu, m1: Cpu, m2: Cpu, pushed: nat, len: nat, n: nat, stored: set<nat>, top: word)
    returns (target: nat, back: Cpu)
    requires Wf(dev, m) && Wf(dev, m1) && Wf(dev, m2) && GoodDevice(dev)
    requires PlainStack(dev, m.sp, dev.pcSize) && m.sp <= top && InFlash(dev, m.pc) && len <= 2
    requires pushed == m.pc + len
    requires m1.ram == Push(dev, m, dev.pcSize, pushed).ram && m1.sp == Push(dev, m, dev.pcSize, pushed).sp
    requires Balanced(m1, m2, n, stored, top)
    ensures target == PopValue(dev, m2, dev.pcSize) && back == Popped(m2, dev.pcSize)
    ensures AdjustToMax(target, dev.pcMax) == Following(dev, m.pc, len) && back.sp == m.sp
    ensures |back.ram| == |m.ram| && Balanced(m, back, dev.pcSize + n, stored, top)
  {
    target, back := PopValue(dev, m2, dev.pcSize), Popped(m2, dev.pcSize);
    PushedComesBack(dev, m, m1, m2, dev.pcSize, pushed, n, stored, top);
    ReturnAddressExact(dev, m.pc, len);
  }

  /** Calling, anything balanced, and returning. */
  lemma CallReturns(dev: Device, m: Cpu, m1: Cpu, m2: Cpu, pushed: nat, len: nat, n: nat, stored: set<nat>, top: word)
    requires Wf(dev, m) && Wf(dev, m1) && Wf(dev, m2) && GoodDevice(dev)
    requires PlainStack(dev, m.sp, dev.pcSize) && m.sp <= top && InFlash(dev, m.pc) && len <= 2
    requires pushed == m.pc + len
    requires m1.ram == Push(dev, m, dev.pcSize, pushed).ram && m1.sp == Push(dev, m, dev.pcSize, pushed).sp
    requires Balanced(m1, m2, n, stored, top)
    ensures var m3 := ExecRet(dev, m2);
            && m3.pc == Following(dev, m.pc, len) && m3.sp == m.sp && m3.sreg == m2.sreg
            && Balanced(m, m3, dev.pcSize + n, stored, top)
  {
    var target, back := AddressComesBack(dev, m, m1, m2, pushed, len, n, stored, top);
    ReturnTakes(dev, m2, target, back);
    BalancedAs(m, back, ExecRet(dev, m2), dev.pcSize + n, stored, top);
  }

  lemma PopReturns(dev: Device, m: Cpu, rs: nat, m2: Cpu, rd: nat, n: nat, stored: set<nat>, top: word)
    requires Wf(dev, m) && Wf(dev, m2) && rs < 32 && rd < 32
    requires PlainStack(dev, m.sp, 1) && m.sp <= top
    requires Balanced(ExecPush(dev, m, rs), m2, n, stored, top)
    ensures var m3 := ExecPop(dev, m2, rd);
            && m3.regs[rd] == m.regs[rs] && m3.sp == m.sp
            && Balanced(m, m3, 1 + n, stored, top)
  {
    PushedComesBack(dev, m, ExecPush(dev, m, rs), m2, 1, m.regs[rs], n, stored, top);
    assert Pow256(1) == 256 * Pow256(0);
  }

  lemma PlainBalanced(dev: Device, m: Cpu, e: Effect, top: word)
    requires Wf(dev, m) && |e.regs| == 32
    requires e.store.StoreByte? ==> PlainCell(dev, e.store.addr) && !(m.sp < e.store.addr <= top)
    ensures Balanced(m, Apply(dev, m, e), 0, if e.store.StoreByte? then {e.store.addr} else {}, top)
  {
    if e.store.StoreByte? {
      WritePlain(dev, m, e.store.addr, e.store.val);
    }
  }

  /** The stack pointer after a push of bytes on plain cells. */
  lemma PushLowers(dev: Device, m: Cpu, bytes: nat, val: nat)
    requires Wf(dev, m) && bytes < 4 && PlainStack(dev, m.sp, bytes)
    ensures Push(dev, m, bytes, val).sp == m.sp - bytes
    ensures Push(dev, m, bytes, val).sreg == m.sreg
  {
    LoweredRaised(m.sp, bytes);
    PushFromPlain(dev, m, m.sp, bytes, val);
  }

  lemma CallPushes(dev: Device, m: Cpu, kind: CallKind)
    requires Wf(dev, m) && GoodDevice(dev) && CallAccepted(dev, kind)
    requires PlainStack(dev, m.sp, dev.pcSize) && InFlash(dev, m.pc)
    ensures var m1 := ExecCall(dev, m, kind);
            var p := Push(dev, m, dev.pcSize, m.pc + CallLength(kind));
            m1.ram == p.ram && m1.sp == p.sp <= m.sp
  {
    PushLowers(dev, m, dev.pcSize, m.pc + CallLength(kind));
    assert ToUint32(m.pc + CallLength(kind)) == m.pc + CallLength(kind);
  }

  lemma EntryPushes(dev: Device, m: Cpu, vector: int)
    requires Wf(dev, m) && GoodDevice(dev)
    requires PlainStack(dev, m.sp, dev.pcSize) && InFlash(dev, m.pc)
    ensures var m1 := EnterInterrupt(dev, m, vector);
            var p := Push(dev, m, dev.pcSize, m.pc);
            m1.ram == p.ram && m1.sp == p.sp <= m.sp && m1.sreg == m.sreg.(i := false)
  {
    PushLowers(dev, m, dev.pcSize, m.pc);
    assert ToUint32(m.pc) == m.pc;
  }

  /**
   In every well-nested execution each RET resumes at the word after its own call, each POP returns
   its own PUSH, RETI resumes where the interrupt came with I set again, the stack pointer is
   restored, and memory outside the stack bytes used and the addresses stored to is unchanged.
   */
  lemma {:induction false} WellNested(dev: Device, t: Tree, m: Cpu, top: word)
    requires Wf(dev, m) && GoodDevice(dev) && m.sp <= top && Nested(dev, t, m, top)
    ensures ComesHome(dev, t, m, top)
    ensures Balanced(m, RunTree(dev, t, m, top), Depth(dev, t), Stores(t), top)
    decreases t, 1
  {
    match t
    case Done =>
    case Plain(_, _) => PlainNested(dev, t, m, top);
    case Stacked(_, _, _, _) => StackedNested(dev, t, m, top);
    case Subroutine(_, _, _) => SubroutineNested(dev, t, m, top);
    case Interrupted(_, _, _) => InterruptedNested(dev, t, m, top);
  }

  lemma {:induction false} PlainNested(dev: Device, t: Tree, m: Cpu, top: word)
    requires Wf(dev, m) && GoodDevice(dev) && m.sp <= top && Nested(dev, t, m, top) && t.Plain?
    ensures ComesHome(dev, t, m, top)
    ensures Balanced(m, RunTree(dev, t, m, top), Depth(dev, t), Stores(t), top)
    decreases t, 0
  {
    var Plain(e, next) := t;
    var m1 := Apply(dev, m, e);
    PlainBalanced(dev, m, e, top);
    WellNested(dev, next, m1, top);
    BalancedThen(m, m1, RunTree(dev, t, m, top), 0, Depth(dev, next),
                 if e.store.StoreByte? then {e.store.addr} else {}, Stores(next), top);
  }

  lemma {:induction false} StackedNested(dev: Device, t: Tree, m: Cpu, top: word)
    requires Wf(dev, m) && GoodDevice(dev) && m.sp <= top && Nested(dev, t, m, top) && t.Stacked?
    ensures ComesHome(dev, t, m, top)
    ensures Balanced(m, RunTree(dev, t, m, top), Depth(dev, t), Stores(t), top)
    decreases t, 0
  {
    var Stacked(rs, body, rd, next) := t;
    var m1 := ExecPush(dev, m, rs);
    PushLowers(dev, m, 1, m.regs[rs]);
    WellNested(dev, body, m1, top);
    var m2 := RunTree(dev, body, m1, top);
    PopReturns(dev, m, rs, m2, rd, Depth(dev, body), Stores(body), top);
    var m3 := ExecPop(dev, m2, rd);
    WellNested(dev, next, m3, top);
    BalancedThen(m, m3, RunTree(dev, next, m3, top), 1 + Depth(dev, body), Depth(dev, next), Stores(body), Stores(next), top);
  }

  lemma {:induction false} SubroutineNested(dev: Device, t: Tree, m: Cpu, top: word)
    requires Wf(dev, m) && GoodDevice(dev) && m.sp <= top && Nested(dev, t, m, top) && t.Subroutine?
    ensures ComesHome(dev, t, m, top)
    ensures Balanced(m, RunTree(dev, t, m, top), Depth(dev, t), Stores(t), top)
    decreases t, 0
  {
    var Subroutine(kind, body, next) := t;
    var m1 := ExecCall(dev, m, kind);
    CallPushes(dev, m, kind);
    WellNested(dev, body, m1, top);
    var m2 := RunTree(dev, body, m1, top);
    CallReturns(dev, m, m1, m2, m.pc + CallLength(kind), CallLength(kind), Depth(dev, body), Stores(body), top);
    var m3 := ExecRet(dev, m2);
    WellNested(dev, next, m3, top);
    BalancedThen(m, m3, RunTree(dev, next, m3, top), dev.pcSize + Depth(dev, body), Depth(dev, next), Stores(body), Stores(next), top);
  }

  lemma {:induction false} InterruptedNested(dev: Device, t: Tree, m: Cpu, top: word)
    requires Wf(dev, m) && GoodDevice(dev) && m.sp <= top && Nested(dev, t, m, top) && t.Interrupted?
    ensures ComesHome(dev, t, m, top)
    ensures Balanced(m, RunTree(dev, t, m, top), Depth(dev, t), Stores(t), top)
    decreases t, 0
  {
    var Interrupted(vector, body, next) := t;
    var m1 := EnterInterrupt(dev, m, vector);
    EntryPushes(dev, m, vector);
    WellNested(dev, body, m1, top);
    var m2 := RunTree(dev, body, m1, top);
    CallReturns(dev, m, m1, m2, m.pc, 0, Depth(dev, body), Stores(body), top);
    var m3 := ExecReti(dev, m2);
    WellNested(dev, next, m3, top);
    BalancedThen(m, m3, RunTree(dev, next, m3, top), dev.pcSize + Depth(dev, body), Depth(dev, next), Stores(body), Stores(next), top);
  }
}
