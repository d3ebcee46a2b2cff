/**
 Well-nested executions as code in flash: the words at the program counter, fetched one after
 another and interleaved with interrupts, perform exactly what the tree says.
 */
module NestedCode {
  import opened Bytes
  import opened Wrappers
  import opened Memory
  import opened Instructions
  import opened CallStack
  import F = FetchExecute
  import D = Decoder
  import DecoderInverse
  import I = Interrupts

  /** What the machine does next: the instruction at its program counter, or vectoring to an address. */
  datatype Action = Fetch | Vector(addr: int)

  /** Vectoring needs the I flag. */
  function Act(dev: Device, flash: seq<bv16>, m: Cpu, a: Action): (r: Option<Cpu>)
    requires Wf(dev, m) && dev.pcSize < 4
    ensures r.Some? ==> Wf(dev, r.value)
  {
    match a
    case Fetch => F.FetchExec(dev, flash, m)
    case Vector(addr) => if m.sreg.i then Some(EnterInterrupt(dev, m, addr)) else None
  }

  function Perform(dev: Device, flash: seq<bv16>, m: Cpu, acts: seq<Action>): (r: Option<Cpu>)
    requires Wf(dev, m) && dev.pcSize < 4
    ensures r.Some? ==> Wf(dev, r.value)
    decreases |acts|
  {
    if acts == [] then Some(m)
    else
      match Act(dev, flash, m, acts[0])
      case None => None
      case Some(m1) => Perform(dev, flash, m1, acts[1..])
  }

  lemma {:induction false} PerformConcat(dev: Device, flash: seq<bv16>, m: Cpu, first: seq<Action>, m1: Cpu, rest: seq<Action>)
    requires Wf(dev, m) && Wf(dev, m1) && dev.pcSize < 4
    requires Perform(dev, flash, m, first) == Some(m1)
    ensures Perform(dev, flash, m, first + rest) == Perform(dev, flash, m1, rest)
    decreases |first|
  {
    if first == [] {
      assert first + rest == rest;
    } else {
      assert (first + rest)[1..] == first[1..] + rest;
      PerformConcat(dev, flash, Act(dev, flash, m, first[0]).value, first[1..], m1, rest);
    }
  }

  lemma PerformOne(dev: Device, flash: seq<bv16>, m: Cpu, a: Action, m1: Cpu, rest: seq<Action>)
    requires Wf(dev, m) && Wf(dev, m1) && dev.pcSize < 4
    requires Act(dev, flash, m, a) == Some(m1)
    ensures Perform(dev, flash, m, [a] + rest) == Perform(dev, flash, m1, rest)
  {
    assert ([a] + rest)[1..] == rest;
  }

  ghost predicate OnlyFetches(acts: seq<Action>) {
    forall i :: 0 <= i < |acts| ==> acts[i] == Fetch
  }

  function Fetches(n: nat): (acts: seq<Action>)
    ensures |acts| == n
  {
    if n == 0 then [] else [Fetch] + Fetches(n - 1)
  }

  lemma {:induction false} OnlyFetchesIs(acts: seq<Action>)
    requires OnlyFetches(acts)
    ensures acts == Fetches(|acts|)
  {
    if acts != [] {
      OnlyFetchesIs(acts[1..]);
      assert acts == [acts[0]] + acts[1..];
    }
  }

  lemma {:induction false} FetchesRun(dev: Device, flash: seq<bv16>, m: Cpu, n: nat)
    requires Wf(dev, m) && dev.pcSize < 4
    ensures Perform(dev, flash, m, Fetches(n)) == F.Run(F.Fetching(dev, flash), m, n)
    decreases n
  {
    if n > 0 {
      assert ([Fetch] + Fetches(n - 1))[1..] == Fetches(n - 1);
      var r := F.FetchExec(dev, flash, m);
      if r.Some? {
        FetchesRun(dev, flash, r.value, n - 1);
      }
    }
  }

  /** Without interrupts it is the run of so many fetches. */
  lemma FetchesAreRun(dev: Device, flash: seq<bv16>, m: Cpu, acts: seq<Action>)
    requires Wf(dev, m) && dev.pcSize < 4 && OnlyFetches(acts)
    ensures Perform(dev, flash, m, acts) == F.Run(F.Fetching(dev, flash), m, |acts|)
  {
    OnlyFetchesIs(acts);
    FetchesRun(dev, flash, m, |acts|);
  }

  // ----- trees whose words are in flash -----

  /** The actions of an execution, in order. */
  function Actions(t: Tree): seq<Action> {
    match t
    case Done => []
    case Plain(_, next) => [Fetch] + Actions(next)
    case Stacked(_, body, _, next) => [Fetch] + (Actions(body) + ([Fetch] + Actions(next)))
    case Subroutine(_, body, next) => [Fetch] + (Actions(body) + ([Fetch] + Actions(next)))
    case Interrupted(vector, body, next) => [Vector(vector)] + (Actions(body) + ([Fetch] + Actions(next)))
  }

  /** The instruction at the program counter. */
  predicate At(flash: seq<bv16>, m: Cpu, i: D.Instr) {
    0 <= m.pc < |flash| && D.Decode(flash[m.pc]) == i
  }

  predicate StackInstrAt(flash: seq<bv16>, m: Cpu, op: D.OneRegOp, reg: nat) {
    && 0 <= m.pc < |flash|
    && var i := D.Decode(flash[m.pc]);
    i.OneReg? && i.op1 == op && i.d as int == reg
  }

  /** The instruction at pc, with the word after it for CALL, is a call of that kind. */
  predicate Calls(flash: seq<bv16>, pc: int, i: D.Instr, kind: CallKind)
    requires 0 <= pc < |flash|
  {
    match i
    case Relative(op, k) => op == D.RCALL && kind == Rcall(D.Displacement12(k))
    case NoOperand(op) => op == D.ICALL && kind == Icall
    case Long(op, k) => op == D.CALL && pc + 1 < |flash| && kind == F.LongCall(flash, pc, k as int)
    case _ => false
  }

  predicate CallAt(flash: seq<bv16>, m: Cpu, kind: CallKind) {
    0 <= m.pc < |flash| && Calls(flash, m.pc, D.Decode(flash[m.pc]), kind)
  }

  /** Each step of the execution is the instruction that is in flash where control is. */
  ghost predicate InCode(dev: Device, flash: seq<bv16>, t: Tree, m: Cpu, top: word)
    requires Wf(dev, m) && dev.pcSize < 4 && Nested(dev, t, m, top)
  {
    match t
    case Done => true
    case Plain(e, next) =>
      && F.FetchExec(dev, flash, m) == Some(Apply(dev, m, e))
      && InCode(dev, flash, next, Apply(dev, m, e), top)
    case Stacked(rs, body, rd, next) =>
      var m1 := ExecPush(dev, m, rs);
      var m2 := RunTree(dev, body, m1, top);
      && StackInstrAt(flash, m, D.PUSH, rs) && InCode(dev, flash, body, m1, top)
      && StackInstrAt(flash, m2, D.POP, rd) && InCode(dev, flash, next, ExecPop(dev, m2, rd), top)
    case Subroutine(kind, body, next) =>
      var m1 := ExecCall(dev, m, kind);
      var m2 := RunTree(dev, body, m1, top);
      && CallAt(flash, m, kind) && InCode(dev, flash, body, m1, top)
      && At(flash, m2, D.NoOperand(D.RET)) && InCode(dev, flash, next, ExecRet(dev, m2), top)
    case Interrupted(vector, body, next) =>
      var m1 := EnterInterrupt(dev, m, vector);
      var m2 := RunTree(dev, body, m1, top);
      && InCode(dev, flash, body, m1, top)
      && At(flash, m2, D.NoOperand(D.RETI)) && InCode(dev, flash, next, ExecReti(dev, m2), top)
  }

  lemma StackInstrFetched(dev: Device, flash: seq<bv16>, m: Cpu, op: D.OneRegOp, reg: nat)
    requires Wf(dev, m) && dev.pcSize < 4 && reg < 32 && StackInstrAt(flash, m, op, reg)
    ensures op == D.PUSH ==> F.FetchExec(dev, flash, m) == Some(ExecPush(dev, m, reg))
    ensures op == D.POP ==> F.FetchExec(dev, flash, m) == Some(ExecPop(dev, m, reg))
  {
  }

  lemma RcallExecuted(dev: Device, flash: seq<bv16>, m: Cpu, k: bv16)
    requires Wf(dev, m) && dev.pcSize < 4 && 0 <= m.pc < |flash| && D.Valid(D.Relative(D.RCALL, k))
    ensures F.Execute(dev, flash, m, D.Relative(D.RCALL, k)) == Some(ExecCall(dev, m, Rcall(D.Displacement12(k))))
  {
  }

  lemma IcallExecuted(dev: Device, flash: seq<bv16>, m: Cpu)
    requires Wf(dev, m) && dev.pcSize < 4 && 0 <= m.pc < |flash| && D.Valid(D.NoOperand(D.ICALL))
    ensures F.Execute(dev, flash, m, D.NoOperand(D.ICALL)) == Some(ExecCall(dev, m, Icall))
  {
  }

  lemma LongCallExecuted(dev: Device, flash: seq<bv16>, m: Cpu, k: bv16, kind: CallKind)
    requires Wf(dev, m) && dev.pcSize < 4 && 0 <= m.pc && m.pc + 1 < |flash| && D.Valid(D.Long(D.CALL, k))
    requires kind == F.LongCall(flash, m.pc, k as int) && CallAccepted(dev, kind)
    ensures F.Execute(dev, flash, m, D.Long(D.CALL, k)) == Some(ExecCall(dev, m, kind))
  {
    LongCallTaken(dev, flash, m, k as int, kind);
    assert F.Execute(dev, flash, m, D.Long(D.CALL, k)) == F.ExecuteCall(dev, flash, m, k as int);
  }

  lemma LongCallTaken(dev: Device, flash: seq<bv16>, m: Cpu, high: nat, kind: CallKind)
    requires Wf(dev, m) && dev.pcSize < 4 && 0 <= m.pc && m.pc + 1 < |flash|
    requires kind == F.LongCall(flash, m.pc, high) && CallAccepted(dev, kind)
    ensures F.ExecuteCall(dev, flash, m, high) == Some(ExecCall(dev, m, kind))
  {
  }

  lemma CallExecuted(dev: Device, flash: seq<bv16>, m: Cpu, i: D.Instr, kind: CallKind)
    requires Wf(dev, m) && dev.pcSize < 4 && CallAccepted(dev, kind) && D.Valid(i)
    requires 0 <= m.pc < |flash| && Calls(flash, m.pc, i, kind)
    ensures F.Execute(dev, flash, m, i) == Some(ExecCall(dev, m, kind))
  {
    match i
    case Relative(_, k) => RcallExecuted(dev, flash, m, k);
    case NoOperand(_) => IcallExecuted(dev, flash, m);
    case Long(_, k) => LongCallExecuted(dev, flash, m, k, kind);
  }

  lemma CallFetched(dev: Device, flash: seq<bv16>, m: Cpu, kind: CallKind)
    requires Wf(dev, m) && dev.pcSize < 4 && CallAccepted(dev, kind) && CallAt(flash, m, kind)
    ensures F.FetchExec(dev, flash, m) == Some(ExecCall(dev, m, kind))
  {
    DecoderInverse.EncodeDecode(flash[m.pc]);
    CallExecuted(dev, flash, m, D.Decode(flash[m.pc]), kind);
  }

  lemma ReturnFetched(dev: Device, flash: seq<bv16>, m: Cpu, op: D.NoOperandOp)
    requires Wf(dev, m) && dev.pcSize < 4 && At(flash, m, D.NoOperand(op))
    ensures op == D.RET ==> F.FetchExec(dev, flash, m) == Some(ExecRet(dev, m))
    ensures op == D.RETI ==> F.FetchExec(dev, flash, m) == Some(ExecReti(dev, m))
  {
  }

  /** An opening action, a body, a closing action, and the rest. */
  lemma Bracketed(dev: Device, flash: seq<bv16>, m: Cpu, open: Action, m1: Cpu, body: seq<Action>, m2: Cpu, m3: Cpu, rest: seq<Action>)
    requires Wf(dev, m) && Wf(dev, m1) && Wf(dev, m2) && Wf(dev, m3) && dev.pcSize < 4
    requires Act(dev, flash, m, open) == Some(m1)
    requires Perform(dev, flash, m1, body) == Some(m2)
    requires F.FetchExec(dev, flash, m2) == Some(m3)
    ensures Perform(dev, flash, m, [open] + (body + ([Fetch] + rest))) == Perform(dev, flash, m3, rest)
  {
    PerformOne(dev, flash, m, open, m1, body + ([Fetch] + rest));
    PerformConcat(dev, flash, m1, body, m2, [Fetch] + rest);
    PerformOne(dev, flash, m2, Fetch, m3, rest);
  }

  /** Fetching from flash, interrupted where the tree says, performs exactly the nested execution. */
  lemma {:induction false} NestedCodeRuns(dev: Device, flash: seq<bv16>, t: Tree, m: Cpu, top: word)
    requires Wf(dev, m) && dev.pcSize < 4 && Nested(dev, t, m, top) && InCode(dev, flash, t, m, top)
    ensures Perform(dev, flash, m, Actions(t)) == Some(RunTree(dev, t, m, top))
    decreases t, 1
  {
    match t
    case Done =>
    case Plain(_, _) => PlainCodeRuns(dev, flash, t, m, top);
    case Stacked(_, _, _, _) => StackedCodeRuns(dev, flash, t, m, top);
    case Subroutine(_, _, _) => SubroutineCodeRuns(dev, flash, t, m, top);
    case Interrupted(_, _, _) => InterruptedCodeRuns(dev, flash, t, m, top);
  }

  lemma {:induction false} PlainCodeRuns(dev: Device, flash: seq<bv16>, t: Tree, m: Cpu, top: word)
    requires Wf(dev, m) && dev.pcSize < 4 && Nested(dev, t, m, top) && InCode(dev, flash, t, m, top) && t.Plain?
    ensures Perform(dev, flash, m, Actions(t)) == Some(RunTree(dev, t, m, top))
    decreases t, 0
  {
    var Plain(e, next) := t;
    var m1 := Apply(dev, m, e);
    NestedCodeRuns(dev, flash, next, m1, top);
    PerformOne(dev, flash, m, Fetch, m1, Actions(next));
  }

  lemma {:induction false} StackedCodeRuns(dev: Device, flash: seq<bv16>, t: Tree, m: Cpu, top: word)
    requires Wf(dev, m) && dev.pcSize < 4 && Nested(dev, t, m, top) && InCode(dev, flash, t, m, top) && t.Stacked?
    ensures Perform(dev, flash, m, Actions(t)) == Some(RunTree(dev, t, m, top))
    decreases t, 0
  {
    var Stacked(rs, body, rd, next) := t;
    var m1 := ExecPush(dev, m, rs);
    var m2 := RunTree(dev, body, m1, top);
    var m3 := ExecPop(dev, m2, rd);
    StackInstrFetched(dev, flash, m, D.PUSH, rs);
    NestedCodeRuns(dev, flash, body, m1, top);
    StackInstrFetched(dev, flash, m2, D.POP, rd);
    NestedCodeRuns(dev, flash, next, m3, top);
    Bracketed(dev, flash, m, Fetch, m1, Actions(body), m2, m3, Actions(next));
  }

  lemma {:induction false} SubroutineCodeRuns(dev: Device, flash: seq<bv16>, t: Tree, m: Cpu, top: word)
    requires Wf(dev, m) && dev.pcSize < 4 && Nested(dev, t, m, top) && InCode(dev, flash, t, m, top) && t.Subroutine?
    ensures Perform(dev, flash, m, Actions(t)) == Some(RunTree(dev, t, m, top))
    decreases t, 0
  {
    var Subroutine(kind, body, next) := t;
    var m1 := ExecCall(dev, m, kind);
    var m2 := RunTree(dev, body, m1, top);
    var m3 := ExecRet(dev, m2);
    CallFetched(dev, flash, m, kind);
    NestedCodeRuns(dev, flash, body, m1, top);
    ReturnFetched(dev, flash, m2, D.RET);
    NestedCodeRuns(dev, flash, next, m3, top);
    Bracketed(dev, flash, m, Fetch, m1, Actions(body), m2, m3, Actions(next));
  }

  lemma {:induction false} InterruptedCodeRuns(dev: Device, flash: seq<bv16>, t: Tree, m: Cpu, top: word)
    requires Wf(dev, m) && dev.pcSize < 4 && Nested(dev, t, m, top) && InCode(dev, flash, t, m, top) && t.Interrupted?
    ensures Perform(dev, flash, m, Actions(t)) == Some(RunTree(dev, t, m, top))
    decreases t, 0
  {
    var Interrupted(vector, body, next) := t;
    var m1 := EnterInterrupt(dev, m, vector);
    var m2 := RunTree(dev, body, m1, top);
    var m3 := ExecReti(dev, m2);
    NestedCodeRuns(dev, flash, body, m1, top);
    ReturnFetched(dev, flash, m2, D.RETI);
    NestedCodeRuns(dev, flash, next, m3, top);
    Bracketed(dev, flash, m, Vector(vector), m1, Actions(body), m2, m3, Actions(next));
  }

  /**
   A call in flash whose body is well nested and ends in RET, however interrupted on the way: after
   its last action control is at the word after the call, the stack pointer is where it was, and
   memory outside the stack bytes used and the addresses stored to is unchanged.
   */
  lemma CallInFlashComesBack(dev: Device, flash: seq<bv16>, kind: CallKind, body: Tree, m: Cpu)
    requires Wf(dev, m) && GoodDevice(dev)
    requires Nested(dev, Subroutine(kind, body, Done), m, m.sp)
    requires InCode(dev, flash, Subroutine(kind, body, Done), m, m.sp)
    ensures var t := Subroutine(kind, body, Done);
            var r := Perform(dev, flash, m, Actions(t));
            && r.Some? && r.value.pc == Following(dev, m.pc, CallLength(kind))
            && Balanced(m, r.value, Depth(dev, t), Stores(t), m.sp)
  {
    var t := Subroutine(kind, body, Done);
    NestedCodeRuns(dev, flash, t, m, m.sp);
    WellNested(dev, t, m, m.sp);
  }

  // ----- the interrupt step machine over code in flash -----

  /** The action behind an event; a step that dozes has none. */
  function ActionsOf(irqOffset: int, log: seq<I.Event>): seq<Action> {
    if log == [] then []
    else
      (match log[0]
       case Instruction(_) => [Fetch]
       case Vectored(irq, _, _) => [Vector(irq.addr + irqOffset)]
       case _ => []) + ActionsOf(irqOffset, log[1..])
  }

  lemma {:induction false} ActionsOfConcat(irqOffset: int, first: seq<I.Event>, rest: seq<I.Event>)
    ensures ActionsOf(irqOffset, first + rest) == ActionsOf(irqOffset, first) + ActionsOf(irqOffset, rest)
  {
    if first == [] {
      assert first + rest == rest;
    } else {
      assert (first + rest)[1..] == first[1..] + rest && (first + rest)[0] == first[0];
      ActionsOfConcat(irqOffset, first[1..], rest);
    }
  }

  /** The executed instruction is the one in flash. */
  ghost predicate FromFlash(dev: Device, flash: seq<bv16>, m: Cpu, x: I.Executed)
    requires Wf(dev, m) && dev.pcSize < 4
  {
    match x
    case Reti => At(flash, m, D.NoOperand(D.RETI))
    case Other(after, _) => F.FetchExec(dev, flash, m) == Some(after)
  }

  /** Every instruction executed in the run is the one in flash. */
  ghost predicate RunFromFlash(dev: Device, flash: seq<bv16>, irqOffset: int, c: I.Core, inputs: seq<I.Input>)
    requires I.WfCore(dev, c) && I.WfInputs(dev, inputs)
    decreases |inputs|
  {
    inputs == [] ||
    (&& (c.status.Running? ==> FromFlash(dev, flash, c.cpu, inputs[0].executed))
     && RunFromFlash(dev, flash, irqOffset, I.Step(dev, irqOffset, c, inputs[0]).core, inputs[1..]))
  }

  lemma CheckActs(dev: Device, flash: seq<bv16>, irqOffset: int, c: I.Core)
    requires I.WfCore(dev, c)
    ensures var out := I.CheckInterrupts(dev, irqOffset, c);
            I.WasReset !in out.log ==> Perform(dev, flash, c.cpu, ActionsOf(irqOffset, out.log)) == Some(out.core.cpu)
  {
    var out := I.CheckInterrupts(dev, irqOffset, c);
    if |out.log| == 1 && out.log[0].Vectored? {
      assert out.log[1..] == [];
      var a := Vector(out.log[0].irq.addr + irqOffset);
      assert ActionsOf(irqOffset, out.log) == [a];
      PerformOne(dev, flash, c.cpu, a, out.core.cpu, []);
      assert [a] + [] == [a];
    } else if out.log != [] {
      assert out.log[0] == I.WasReset;
    }
  }

  lemma StepActs(dev: Device, flash: seq<bv16>, irqOffset: int, c: I.Core, input: I.Input)
    requires I.WfCore(dev, c) && I.WfInput(dev, input)
    requires c.status.Running? ==> FromFlash(dev, flash, c.cpu, input.executed)
    ensures var out := I.Step(dev, irqOffset, c, input);
            I.WasReset !in out.log ==> Perform(dev, flash, c.cpu, ActionsOf(irqOffset, out.log)) == Some(out.core.cpu)
  {
    var pending := I.RaiseAll(c.pending, input.raised);
    match c.status
    case Halted =>
    case Asleep(_) =>
      var c1 := c.(pending := pending);
      CheckActs(dev, flash, irqOffset, c1);
      EventThen(irqOffset, I.Dozed, I.CheckInterrupts(dev, irqOffset, c1).log);
    case Running =>
      match input.executed
      case Reti =>
        ReturnFetched(dev, flash, c.cpu, D.RETI);
        var m1 := ExecReti(dev, c.cpu);
        EventThen(irqOffset, I.Instruction(true), []);
        PerformOne(dev, flash, c.cpu, Fetch, m1, []);
      case Other(after, sleep) =>
        var c1 := I.Core(after, pending, I.StatusAfter(sleep));
        var log := I.CheckInterrupts(dev, irqOffset, c1).log;
        CheckActs(dev, flash, irqOffset, c1);
        EventThen(irqOffset, I.Instruction(false), log);
        PerformOne(dev, flash, c.cpu, Fetch, after, ActionsOf(irqOffset, log));
  }

  lemma EventThen(irqOffset: int, e: I.Event, log: seq<I.Event>)
    requires !e.Vectored?
    ensures ActionsOf(irqOffset, [e] + log) == (if e.Instruction? then [Fetch] else []) + ActionsOf(irqOffset, log)
    ensures I.WasReset !in [e] + log ==> I.WasReset !in log
  {
    assert ([e] + log)[1..] == log;
    if I.WasReset in log {
      assert I.WasReset in [e] + log;
    }
  }

  /**
   A run of the step machine over code in flash, free of resets, performs the fetches and vectorings
   of its log: what is proved of nested executions holds of its stretches.
   */
  lemma {:induction false} RunActs(dev: Device, flash: seq<bv16>, irqOffset: int, c: I.Core, inputs: seq<I.Input>)
    requires I.WfCore(dev, c) && I.WfInputs(dev, inputs)
    requires RunFromFlash(dev, flash, irqOffset, c, inputs)
    ensures var out := I.Run(dev, irqOffset, c, inputs);
            I.WasReset !in out.log ==> Perform(dev, flash, c.cpu, ActionsOf(irqOffset, out.log)) == Some(out.core.cpu)
    decreases |inputs|
  {
    if inputs != [] {
      var first := I.Step(dev, irqOffset, c, inputs[0]);
      var rest := I.Run(dev, irqOffset, first.core, inputs[1..]);
      StepActs(dev, flash, irqOffset, c, inputs[0]);
      RunActs(dev, flash, irqOffset, first.core, inputs[1..]);
      ActsCompose(dev, flash, irqOffset, c.cpu, first, rest);
    }
  }

  /**
   A call in flash run by the step machine, interrupts vectored to and returned from as the nesting has
   them: control ends at the word after the call, the stack pointer is where it was, and memory outside
   the stack bytes used and the addresses stored to is unchanged.
   */
  lemma CallInRunComesBack(dev: Device, flash: seq<bv16>, irqOffset: int, c: I.Core, inputs: seq<I.Input>, kind: CallKind, body: Tree)
    requires I.WfCore(dev, c) && I.WfInputs(dev, inputs) && GoodDevice(dev)
    requires RunFromFlash(dev, flash, irqOffset, c, inputs)
    requires Nested(dev, Subroutine(kind, body, Done), c.cpu, c.cpu.sp)
    requires InCode(dev, flash, Subroutine(kind, body, Done), c.cpu, c.cpu.sp)
    requires var log := I.Run(dev, irqOffset, c, inputs).log;
             I.WasReset !in log && ActionsOf(irqOffset, log) == Actions(Subroutine(kind, body, Done))
    ensures var t, m' := Subroutine(kind, body, Done), I.Run(dev, irqOffset, c, inputs).core.cpu;
            && m'.pc == Following(dev, c.cpu.pc, CallLength(kind))
            && Balanced(c.cpu, m', Depth(dev, t), Stores(t), c.cpu.sp)
  {
    RunActs(dev, flash, irqOffset, c, inputs);
    CallInFlashComesBack(dev, flash, kind, body, c.cpu);
  }

  lemma ActsCompose(dev: Device, flash: seq<bv16>, irqOffset: int, m: Cpu, first: I.Stepped, rest: I.Stepped)
    requires Wf(dev, m) && Wf(dev, first.core.cpu) && dev.pcSize < 4
    requires I.WasReset !in first.log ==> Perform(dev, flash, m, ActionsOf(irqOffset, first.log)) == Some(first.core.cpu)
    requires I.WasReset !in rest.log ==>
               Perform(dev, flash, first.core.cpu, ActionsOf(irqOffset, rest.log)) == Some(rest.core.cpu)
    ensures I.WasReset !in first.log + rest.log ==>
              Perform(dev, flash, m, ActionsOf(irqOffset, first.log + rest.log)) == Some(rest.core.cpu)
  {
    if I.WasReset !in first.log + rest.log {
      assert forall e :: e in first.log ==> e in first.log + rest.log;
      assert forall e :: e in rest.log ==> e in first.log + rest.log;
      ActionsOfConcat(irqOffset, first.log, rest.log);
      PerformConcat(dev, flash, m, ActionsOf(irqOffset, first.log), first.core.cpu, ActionsOf(irqOffset, rest.log));
    }
  }
}
