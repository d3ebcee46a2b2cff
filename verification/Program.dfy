/**
 Programs laid out in flash, and the skip instructions that step over one instruction of them.

 CALL, JMP, LDS and STS take two words; every other instruction takes one. A skip must step over
 the whole of the next instruction, so it looks at its first word to learn its length.
 */
module Program {
  import opened Decoder
  import opened DecoderInverse
  import opened ProgramCounter

  /** One instruction of a program; second is the word after it and is placed only where there is one. */
  datatype Line = Line(instr: Instr, second: bv16)

  predicate IsTwoWord(i: Instr) {
    i.Long? || (i.OneReg? && (i.op1 == LDS || i.op1 == STS))
  }

  predicate IsSkip(i: Instr) {
    || (i.TwoReg? && i.op2 == CPSE)
    || (i.IoBit? && (i.opa == SBIC || i.opa == SBIS))
    || (i.RegBit? && (i.opb == SBRC || i.opb == SBRS))
  }

  function Length(i: Instr): nat {
    if IsTwoWord(i) then 2 else 1
  }

  /** How instructions are written as words and read from them. The layout of a program depends on nothing else of it. */
  datatype Coding = Coding(encode: Instr -> bv16, decode: bv16 -> Instr)

  /** The opcode table. */
  function Avr(): Coding {
    Coding(Encode, Decode)
  }

  /** The words of one instruction. */
  function Words(c: Coding, line: Line): (w: seq<bv16>)
    ensures |w| == Length(line.instr)
  {
    [c.encode(line.instr)] + if IsTwoWord(line.instr) then [line.second] else []
  }

  /** The program as it stands in flash: the words of its instructions, one after another. */
  function Layout(c: Coding, program: seq<Line>): seq<bv16> {
    if program == [] then [] else Words(c, program[0]) + Layout(c, program[1..])
  }

  /** The address of instruction k, relative to the start of the program; k == |program| is its end. */
  function Start(program: seq<Line>, k: nat): nat
    requires k <= |program|
  {
    if k == 0 then 0 else Length(program[0].instr) + Start(program[1..], k - 1)
  }

  function Size(program: seq<Line>): nat {
    Start(program, |program|)
  }

  /** Every instruction has an encoding. */
  ghost predicate Encodable(program: seq<Line>) {
    forall k :: 0 <= k < |program| ==> Valid(program[k].instr)
  }

  /** A skip always has an instruction to skip. */
  predicate EndsWell(program: seq<Line>) {
    |program| > 0 ==> !IsSkip(program[|program| - 1].instr)
  }

  /** Flash holds the words of the program from address org on. */
  ghost predicate LaidAt(c: Coding, flash: seq<bv16>, org: nat, program: seq<Line>) {
    org + Size(program) <= |flash| && flash[org..org + Size(program)] == Layout(c, program)
  }

  /** The program occupies the flash from address org on. */
  ghost predicate LoadedAt(flash: seq<bv16>, org: nat, program: seq<Line>) {
    Encodable(program) && EndsWell(program) && LaidAt(Avr(), flash, org, program)
  }

  /** Each instruction of the program is read from its own encoding. */
  ghost predicate Reads(c: Coding, program: seq<Line>) {
    forall k :: 0 <= k < |program| ==> c.decode(c.encode(program[k].instr)) == program[k].instr
  }

  lemma AvrReads(program: seq<Line>)
    requires Encodable(program)
    ensures Reads(Avr(), program)
  {
    forall k | 0 <= k < |program| ensures Decode(Encode(program[k].instr)) == program[k].instr {
      DecodeEncode(program[k].instr);
    }
  }

  // ----- instruction boundaries -----

  lemma {:induction false} StartNext(program: seq<Line>, k: nat)
    requires k < |program|
    ensures Start(program, k) + Length(program[k].instr) == Start(program, k + 1) <= Size(program)
    decreases k
  {
    if k > 0 {
      StartNext(program[1..], k - 1);
    } else {
      assert Start(program[1..], 0) == 0;
    }
  }

  lemma {:induction false} LayoutSize(c: Coding, program: seq<Line>)
    ensures |Layout(c, program)| == Size(program)
  {
    if program != [] {
      LayoutSize(c, program[1..]);
    }
  }

  lemma {:induction false} LayoutAt(c: Coding, program: seq<Line>, k: nat, words: seq<bv16>, j: nat)
    requires k < |program| && words == Words(c, program[k]) && j < |words|
    ensures Start(program, k) + j < |Layout(c, program)|
    ensures Layout(c, program)[Start(program, k) + j] == words[j]
    decreases k
  {
    if k > 0 {
      LayoutAt(c, program[1..], k - 1, words, j);
    }
  }

  lemma WordInFlash(c: Coding, flash: seq<bv16>, org: nat, program: seq<Line>, k: nat, words: seq<bv16>, j: nat)
    requires LaidAt(c, flash, org, program)
    requires k < |program| && words == Words(c, program[k]) && j < |words|
    ensures org + Start(program, k) + j < |flash|
    ensures flash[org + Start(program, k) + j] == words[j]
  {
    var at := Start(program, k) + j;
    LayoutSize(c, program);
    LayoutAt(c, program, k, words, j);
    assert flash[org..org + Size(program)][at] == flash[org + at];
  }

  /** The first word of each instruction is in flash at its address and reads as it. */
  lemma LineReads(c: Coding, flash: seq<bv16>, org: nat, program: seq<Line>, k: nat)
    requires LaidAt(c, flash, org, program) && Reads(c, program) && k < |program|
    ensures org + Start(program, k) < |flash|
    ensures c.decode(flash[org + Start(program, k)]) == program[k].instr
  {
    WordInFlash(c, flash, org, program, k, Words(c, program[k]), 0);
  }

  lemma FirstWordDecodes(flash: seq<bv16>, org: nat, program: seq<Line>, k: nat)
    requires LoadedAt(flash, org, program) && k < |program|
    ensures org + Start(program, k) < |flash|
    ensures Decode(flash[org + Start(program, k)]) == program[k].instr
  {
    AvrReads(program);
    LineReads(Avr(), flash, org, program, k);
  }

  // ----- skips -----

  /** Where a skip instruction at pc leads: two = the next instruction has two words. */
  function SkipTarget(pc: nat, two: bool, met: bool): nat {
    if !met then pc + 1 else if two then pc + 3 else pc + 2
  }

  /** Whether the word after pc starts an instruction of two words. */
  predicate TwoWordsAfter(c: Coding, flash: seq<bv16>, pc: nat) {
    pc + 1 < |flash| && IsTwoWord(c.decode(flash[pc + 1]))
  }

  /**
   The program counter after a skip instruction at pc, whose condition is met or not. Met or not, the
   simulator reads past pc, and stops where the flash ends.
   */
  function AfterSkip(c: Coding, flash: seq<bv16>, pc: nat, met: bool): int
    requires pc + 1 < |flash|
  {
    AdjustToMax(SkipTarget(pc, TwoWordsAfter(c, flash, pc), met), |flash|)
  }

  /** A skip has a line after it, and where it leads starts a line or ends the program. */
  lemma SkipReaches(program: seq<Line>, k: nat, pc: nat, two: bool, met: bool)
    requires EndsWell(program) && k < |program| && IsSkip(program[k].instr) && pc >= Start(program, k)
    requires k + 1 < |program| ==> (two <==> IsTwoWord(program[k + 1].instr))
    ensures k + 1 < |program| && Start(program, k + 1) == Start(program, k) + 1
    ensures SkipTarget(pc, two, met) == pc - Start(program, k) + Start(program, if met then k + 2 else k + 1)
    ensures Start(program, if met then k + 2 else k + 1) <= Size(program)
  {
    StartNext(program, k);
    StartNext(program, k + 1);
  }

  lemma LengthSeen(c: Coding, flash: seq<bv16>, org: nat, program: seq<Line>, k: nat, pc: nat)
    requires LaidAt(c, flash, org, program) && Reads(c, program) && k < |program| && pc == org + Start(program, k)
    ensures k + 1 < |program| && Length(program[k].instr) == 1 ==>
              pc + 1 < |flash| && (TwoWordsAfter(c, flash, pc) <==> IsTwoWord(program[k + 1].instr))
  {
    if k + 1 < |program| && Length(program[k].instr) == 1 {
      StartNext(program, k);
      LineReads(c, flash, org, program, k + 1);
    }
  }

  lemma SkipLands(c: Coding, flash: seq<bv16>, org: nat, program: seq<Line>, k: nat, met: bool)
    requires LaidAt(c, flash, org, program) && Reads(c, program) && EndsWell(program)
    requires k < |program| && IsSkip(program[k].instr)
    ensures k + 1 < |program| && org + Start(program, k) + 1 < |flash|
    ensures var target := org + Start(program, if met then k + 2 else k + 1);
            AfterSkip(c, flash, org + Start(program, k), met) == if target == |flash| then 0 else target
  {
    var pc := org + Start(program, k);
    LengthSeen(c, flash, org, program, k, pc);
    SkipReaches(program, k, pc, TwoWordsAfter(c, flash, pc), met);
  }

  /**
   A skip lands on the instruction after the next one or on the next one, never inside a
   two-word instruction, wherever in flash the program lies.
   */
  lemma SkipLandsOnBoundary(flash: seq<bv16>, org: nat, program: seq<Line>, k: nat, met: bool)
    requires LoadedAt(flash, org, program) && k < |program| && IsSkip(program[k].instr)
    ensures k + 1 < |program| && org + Start(program, k) + 1 < |flash|
    ensures var target := org + Start(program, if met then k + 2 else k + 1);
            AfterSkip(Avr(), flash, org + Start(program, k), met) == if target == |flash| then 0 else target
  {
    AvrReads(program);
    SkipLands(Avr(), flash, org, program, k, met);
  }

  // ----- jumps -----

  /** Instructions whose target is in their own words: branches, relative and long jumps and calls. */
  predicate IsJump(i: Instr) {
    i.Branch? || i.Relative? || i.Long?
  }

  /** Returns and jumps through Z go wherever the machine's data say. */
  predicate IsComputed(i: Instr) {
    i.NoOperand? && (i.op0 == RET || i.op0 == RETI || i.op0 == ICALL || i.op0 == IJMP)
  }

  /** The simulator stops at these: they are not provided, or look up a register by name, which is refused. */
  predicate IsFatal(i: Instr) {
    i.NoOperand? && (i.op0 == EICALL || i.op0 == EIJMP || i.op0 == ESPM || i.op0 == SLEEP || i.op0 == WDR)
  }

  /** Where a jump at pc leads when it is taken, before the counter is wrapped; the word is the one after it. */
  type Target = (Instr, int, bv16) -> int

  function LongTarget(high: bv16, low: bv16): nat {
    high as nat * 0x1_0000 + low as nat
  }

  function StaticTarget(): Target {
    (i: Instr, pc: int, second: bv16) =>
      match i
      case Branch(_, _, k) => pc + Displacement7(k) + 1
      case Relative(_, k) => pc + Displacement12(k) + 1
      case Long(_, k) => LongTarget(k, second)
      case _ => pc
  }

  /** Only long jumps use the word after them. */
  ghost predicate OnlyLongReads(target: Target) {
    forall i: Instr, pc: int, second: bv16, other: bv16 {:trigger target(i, pc, second), target(i, pc, other)} ::
      !i.Long? ==> target(i, pc, second) == target(i, pc, other)
  }

  lemma StaticTargetReads()
    ensures OnlyLongReads(StaticTarget())
  {
  }

  /** Some instruction of the program starts at pc. */
  ghost predicate OnBoundary(org: nat, program: seq<Line>, pc: int) {
    exists k :: 0 <= k < |program| && pc == org + Start(program, k)
  }

  /** Every jump in the program leads to an instruction of it. */
  ghost predicate Closed(org: nat, program: seq<Line>, size: int, target: Target) {
    forall k :: 0 <= k < |program| && IsJump(program[k].instr) ==> JumpStaysInside(org, program, size, target, k)
  }

  ghost predicate JumpStaysInside(org: nat, program: seq<Line>, size: int, target: Target, k: nat)
    requires k < |program|
  {
    OnBoundary(org, program, AdjustToMax(target(program[k].instr, org + Start(program, k), program[k].second), size))
  }

  // ----- whole runs -----

  /** Skips look at the word after them, and instructions of two words have it. */
  predicate ReadsNext(i: Instr) {
    IsSkip(i) || IsTwoWord(i)
  }

  /**
   The instruction i at pc may lead to next; second is the word after it, and two says whether the
   instruction after it has two words. BREAK stays where it is.
   */
  ghost predicate LeadsBy(i: Instr, pc: nat, second: bv16, two: bool, met: bool, target: Target, size: int, next: int) {
    if IsComputed(i) then true
    else if IsFatal(i) then false
    else if i == NoOperand(BREAK) then next == pc
    else if IsJump(i) && (met || !i.Branch?) then next == AdjustToMax(target(i, pc, second), size)
    else if IsSkip(i) then next == AdjustToMax(SkipTarget(pc, two, met), size)
    else next == AdjustToMax(pc + Length(i), size)
  }

  /** The same inside the program; returns and jumps through Z lead to instructions. */
  ghost predicate StepBy(i: Instr, org: nat, program: seq<Line>, target: Target, size: int, pc: nat, second: bv16, two: bool,
                         met: bool, next: int)
  {
    && (ReadsNext(i) ==> pc + 1 < size)
    && LeadsBy(i, pc, second, two, met, target, size, next)
    && org <= next < org + Size(program)
    && (IsComputed(i) ==> OnBoundary(org, program, next))
  }

  function WordAfter(flash: seq<bv16>, pc: nat): bv16 {
    if pc + 1 < |flash| then flash[pc + 1] else 0
  }

  /** One step from pc to next, both inside the program. Reading past the flash stops the simulator. */
  ghost predicate StepInside(c: Coding, flash: seq<bv16>, org: nat, program: seq<Line>, target: Target, pc: int, met: bool, next: int) {
    org <= pc < |flash|
    && StepBy(c.decode(flash[pc]), org, program, target, |flash|, pc, WordAfter(flash, pc), TwoWordsAfter(c, flash, pc), met, next)
  }

  /** A run inside the program; met says which conditions the skips and branches found to hold. */
  ghost predicate Run(c: Coding, flash: seq<bv16>, org: nat, program: seq<Line>, target: Target, pcs: seq<int>, met: seq<bool>)
    requires |pcs| == |met| + 1
    decreases |met|
  {
    met == [] ||
    (&& StepInside(c, flash, org, program, target, pcs[0], met[0], pcs[1])
     && Run(c, flash, org, program, target, pcs[1..], met[1..]))
  }

  lemma SecondSeen(c: Coding, flash: seq<bv16>, org: nat, program: seq<Line>, k: nat, pc: nat)
    requires LaidAt(c, flash, org, program) && k < |program| && pc == org + Start(program, k)
    ensures IsTwoWord(program[k].instr) ==> WordAfter(flash, pc) == program[k].second
  {
    var words := Words(c, program[k]);
    if |words| == 2 {
      WordInFlash(c, flash, org, program, k, words, 1);
    }
  }

  lemma StartOnBoundary(org: nat, program: seq<Line>, size: nat, line: nat, next: int)
    requires 0 < line <= |program| && org + Size(program) <= size
    requires next == AdjustToMax(org + Start(program, line), size)
    requires org <= next < org + Size(program)
    ensures OnBoundary(org, program, next)
  {
    StartNext(program, line - 1);
    if next == org + Start(program, line) {
      assert line < |program|;
    } else {
      assert Start(program, 0) == 0;
      assert next == org + Start(program, 0);
    }
  }

  /** The line control reaches from line k unless it jumps. */
  lemma FallsTo(program: seq<Line>, k: nat, pc: nat, two: bool, met: bool) returns (line: nat)
    requires EndsWell(program) && k < |program| && pc >= Start(program, k)
    requires k + 1 < |program| && Length(program[k].instr) == 1 ==> (two <==> IsTwoWord(program[k + 1].instr))
    ensures 0 < line <= |program|
    ensures (if IsSkip(program[k].instr) then SkipTarget(pc, two, met) else pc + Length(program[k].instr))
            == pc - Start(program, k) + Start(program, line)
  {
    if IsSkip(program[k].instr) {
      SkipReaches(program, k, pc, two, met);
      line := if met then k + 2 else k + 1;
    } else {
      StartNext(program, k);
      line := k + 1;
    }
  }

  /** From line k control reaches a line, whichever way. */
  lemma LineKeepsBoundary(org: nat, program: seq<Line>, size: nat, target: Target, k: nat, second: bv16, two: bool, met: bool, next: int)
    requires EndsWell(program) && org + Size(program) <= size && Closed(org, program, size, target)
    requires k < |program| && (IsTwoWord(program[k].instr) ==> second == program[k].second)
    requires k + 1 < |program| && Length(program[k].instr) == 1 ==> (two <==> IsTwoWord(program[k + 1].instr))
    requires OnlyLongReads(target)
    requires StepBy(program[k].instr, org, program, target, size, org + Start(program, k), second, two, met, next)
    ensures OnBoundary(org, program, next)
  {
    var i := program[k].instr;
    if IsComputed(i) || i == NoOperand(BREAK) {
    } else if IsJump(i) && (met || !i.Branch?) {
      assert JumpStaysInside(org, program, size, target, k);
    } else {
      var line := FallsTo(program, k, org + Start(program, k), two, met);
      StartOnBoundary(org, program, size, line, next);
    }
  }

  lemma StepKeepsBoundary(c: Coding, flash: seq<bv16>, org: nat, program: seq<Line>, target: Target, pc: int, met: bool, next: int)
    requires LaidAt(c, flash, org, program) && Reads(c, program) && EndsWell(program)
    requires Closed(org, program, |flash|, target) && OnlyLongReads(target)
    requires OnBoundary(org, program, pc) && StepInside(c, flash, org, program, target, pc, met, next)
    ensures OnBoundary(org, program, next)
  {
    var k :| 0 <= k < |program| && pc == org + Start(program, k);
    LineReads(c, flash, org, program, k);
    SecondSeen(c, flash, org, program, k, pc);
    LengthSeen(c, flash, org, program, k, pc);
    LineKeepsBoundary(org, program, |flash|, target, k, WordAfter(flash, pc), TwoWordsAfter(c, flash, pc), met, next);
  }

  lemma {:induction false} RunKeepsBoundary(c: Coding, flash: seq<bv16>, org: nat, program: seq<Line>, target: Target,
                                            pcs: seq<int>, met: seq<bool>, j: nat)
    requires LaidAt(c, flash, org, program) && Reads(c, program) && EndsWell(program)
    requires Closed(org, program, |flash|, target) && OnlyLongReads(target)
    requires |pcs| == |met| + 1 && Run(c, flash, org, program, target, pcs, met)
    requires OnBoundary(org, program, pcs[0]) && j < |pcs|
    ensures OnBoundary(org, program, pcs[j])
    decreases j
  {
    if j > 0 {
      StepKeepsBoundary(c, flash, org, program, target, pcs[0], met[0], pcs[1]);
      RunKeepsBoundary(c, flash, org, program, target, pcs[1..], met[1..], j - 1);
    }
  }

  /**
   Skips, branches, jumps and calls keep a run on the instruction boundaries of a program whose jumps
   lead to its instructions, as long as it stays inside the program.
   */
  lemma RunStaysOnBoundaries(flash: seq<bv16>, org: nat, program: seq<Line>, pcs: seq<int>, met: seq<bool>)
    requires LoadedAt(flash, org, program) && Closed(org, program, |flash|, StaticTarget())
    requires |pcs| == |met| + 1 && Run(Avr(), flash, org, program, StaticTarget(), pcs, met)
    requires OnBoundary(org, program, pcs[0])
    ensures forall j :: 0 <= j < |pcs| ==> OnBoundary(org, program, pcs[j])
  {
    StaticTargetReads();
    AvrReads(program);
    forall j | 0 <= j < |pcs| ensures OnBoundary(org, program, pcs[j]) {
      RunKeepsBoundary(Avr(), flash, org, program, StaticTarget(), pcs, met, j);
    }
  }
}
