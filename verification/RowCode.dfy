/**
 The multiplication row as instruction words in flash.
 */
module RowCode {
  import opened Bytes
  import opened Memory
  import opened Instructions
  import opened Branches
  import opened RowProgram
  import F = FetchExecute
  import D = Decoder

  /** Where the row keeps the factor, the carry and a zero, as fields. */
  datatype PlaceFields = PlaceFields(b: bv16, c: bv16, z: bv16)

  predicate WfFields(p: PlaceFields) {
    p.b < 32 && p.c < 32 && p.z < 32
  }

  function PlacesOf(p: PlaceFields): Places
    requires WfFields(p)
  {
    Places(p.b as int, p.c as int, p.z as int)
  }

  // ----- the instructions and their effects -----

  ghost function MulEffect(dev: Device, d: bv16, r: bv16): F.Effect
    requires d < 32 && r < 32
  {
    (m: Cpu) => if Wf(dev, m) then ExecMul(dev, m, d as int, r as int) else m
  }

  ghost function MovEffect(dev: Device, d: bv16, r: bv16): F.Effect
    requires d < 32 && r < 32
  {
    (m: Cpu) => if Wf(dev, m) then ExecMov(dev, m, d as int, r as int) else m
  }

  /** The instruction has the effect and goes on to the next word. */
  ghost predicate Does(dev: Device, i: D.Instr, eff: F.Effect)
    requires dev.pcSize < 4
  {
    F.Means(dev, i, eff) && F.MovesOn(dev, eff)
  }

  lemma MulDoes(dev: Device, d: bv16, r: bv16)
    requires dev.pcSize < 4 && d < 32 && r < 32
    ensures Does(dev, D.TwoReg(D.MUL, d, r), MulEffect(dev, d, r))
  {
    F.TwoRegMeans(dev, D.MUL, d, r, MulEffect(dev, d, r));
    MulMovesOn(dev, d, r);
  }

  lemma MulMovesOn(dev: Device, d: bv16, r: bv16)
    requires d < 32 && r < 32
    ensures F.MovesOn(dev, MulEffect(dev, d, r))
  {
  }

  lemma MovDoes(dev: Device, d: bv16, r: bv16)
    requires dev.pcSize < 4 && d < 32 && r < 32
    ensures Does(dev, D.TwoReg(D.MOV, d, r), MovEffect(dev, d, r))
  {
    F.TwoRegMeans(dev, D.MOV, d, r, MovEffect(dev, d, r));
    MovMovesOn(dev, d, r);
  }

  lemma MovMovesOn(dev: Device, d: bv16, r: bv16)
    requires d < 32 && r < 32
    ensures F.MovesOn(dev, MovEffect(dev, d, r))
  {
  }

  lemma ArithDoes(dev: Device, op: ArithOp, d: bv16, r: bv16)
    requires dev.pcSize < 4 && d < 32 && r < 32
    ensures Does(dev, D.TwoReg(F.ArithOf(op), d, r), F.ArithEffect(dev, op, d, r))
  {
    F.ArithMeans(dev, op, d, r);
    F.ArithMovesOn(dev, op, d, r);
  }

  /** The instructions have these effects one by one, and all go on to the next word. */
  ghost predicate DoAll(dev: Device, code: seq<D.Instr>, effs: seq<F.Effect>)
    requires dev.pcSize < 4
    decreases |code|
  {
    |code| == |effs| && (code == [] || (Does(dev, code[0], effs[0]) && DoAll(dev, code[1..], effs[1..])))
  }

  lemma {:induction false} DoAllHasEffects(dev: Device, code: seq<D.Instr>, effs: seq<F.Effect>)
    requires dev.pcSize < 4 && DoAll(dev, code, effs)
    ensures F.Effects(dev, code, effs)
    decreases |code|
  {
    if code != [] {
      DoAllHasEffects(dev, code[1..], effs[1..]);
    }
  }

  lemma {:induction false} DoAllConcat(dev: Device, code: seq<D.Instr>, effs: seq<F.Effect>, more: seq<D.Instr>, moreEffs: seq<F.Effect>)
    requires dev.pcSize < 4 && DoAll(dev, code, effs) && DoAll(dev, more, moreEffs)
    ensures DoAll(dev, code + more, effs + moreEffs)
    decreases |code|
  {
    if code == [] {
      assert code + more == more && effs + moreEffs == moreEffs;
    } else {
      assert (code + more)[1..] == code[1..] + more && (effs + moreEffs)[1..] == effs[1..] + moreEffs;
      DoAllConcat(dev, code[1..], effs[1..], more, moreEffs);
    }
  }

  /** Effects that go on to the next word end as many words later. */
  lemma {:induction false} EndsAfter(dev: Device, code: seq<D.Instr>, effs: seq<F.Effect>, m: Cpu)
    requires dev.pcSize < 4 && DoAll(dev, code, effs) && Wf(dev, m) && 0 <= m.pc && m.pc + |code| < dev.pcMax
    ensures F.Apply(effs, m).pc == m.pc + |code|
    decreases |code|
  {
    if code != [] {
      EndsAfter(dev, code[1..], effs[1..], effs[0](m));
    }
  }

  lemma {:induction false} ApplyConcat(effs: seq<F.Effect>, more: seq<F.Effect>, m: Cpu)
    ensures F.Apply(effs + more, m) == F.Apply(more, F.Apply(effs, m))
    decreases |effs|
  {
    if effs == [] {
      assert effs + more == more;
    } else {
      assert (effs + more)[1..] == effs[1..] + more;
      ApplyConcat(effs[1..], more, effs[0](m));
    }
  }

  // ----- the row -----

  /** MUL a,b; ADD R0,c; ADC R1,z; MOV o,R0; MOV c,R1. */
  function ByteCode(p: PlaceFields, a: bv16, o: bv16): (code: seq<D.Instr>)
    ensures |code| == 5
  {
    [D.TwoReg(D.MUL, a, p.b), D.TwoReg(D.ADD, 0, p.c), D.TwoReg(D.ADC, 1, p.z), D.TwoReg(D.MOV, o, 0), D.TwoReg(D.MOV, p.c, 1)]
  }

  ghost function ByteEffects(dev: Device, p: PlaceFields, a: bv16, o: bv16): seq<F.Effect>
    requires WfFields(p) && a < 32 && o < 32
  {
    [MulEffect(dev, a, p.b), F.ArithEffect(dev, AddOp, 0, p.c), F.ArithEffect(dev, AdcOp, 1, p.z), MovEffect(dev, o, 0), MovEffect(dev, p.c, 1)]
  }

  function RowCode(p: PlaceFields, bytes: seq<bv16>, outs: seq<bv16>): (code: seq<D.Instr>)
    requires |outs| == |bytes| + 1
    ensures |code| == 5 * |bytes| + 1
    decreases |bytes|
  {
    if bytes == [] then [D.TwoReg(D.MOV, outs[0], p.c)]
    else ByteCode(p, bytes[0], outs[0]) + RowCode(p, bytes[1..], outs[1..])
  }

  ghost function RowEffects(dev: Device, p: PlaceFields, bytes: seq<bv16>, outs: seq<bv16>): seq<F.Effect>
    requires WfFields(p) && F.Fields(bytes) && F.Fields(outs) && |outs| == |bytes| + 1
    decreases |bytes|
  {
    if bytes == [] then [MovEffect(dev, outs[0], p.c)]
    else ByteEffects(dev, p, bytes[0], outs[0]) + RowEffects(dev, p, bytes[1..], outs[1..])
  }

  lemma DoAllCons(dev: Device, i: D.Instr, eff: F.Effect, code: seq<D.Instr>, effs: seq<F.Effect>)
    requires dev.pcSize < 4 && Does(dev, i, eff) && DoAll(dev, code, effs)
    ensures DoAll(dev, [i] + code, [eff] + effs)
  {
    assert ([i] + code)[1..] == code && ([eff] + effs)[1..] == effs;
  }

  lemma ByteDoes(dev: Device, p: PlaceFields, a: bv16, o: bv16)
    requires dev.pcSize < 4 && WfFields(p) && a < 32 && o < 32
    ensures DoAll(dev, ByteCode(p, a, o), ByteEffects(dev, p, a, o))
  {
    var c, e := ByteCode(p, a, o), ByteEffects(dev, p, a, o);
    MulDoes(dev, a, p.b);
    ArithDoes(dev, AddOp, 0, p.c);
    ArithDoes(dev, AdcOp, 1, p.z);
    MovDoes(dev, o, 0);
    MovDoes(dev, p.c, 1);
    DoAllCons(dev, c[4], e[4], [], []);
    DoAllCons(dev, c[3], e[3], [c[4]], [e[4]]);
    DoAllCons(dev, c[2], e[2], [c[3], c[4]], [e[3], e[4]]);
    DoAllCons(dev, c[1], e[1], [c[2], c[3], c[4]], [e[2], e[3], e[4]]);
    DoAllCons(dev, c[0], e[0], [c[1], c[2], c[3], c[4]], [e[1], e[2], e[3], e[4]]);
  }

  lemma ByteThenRest(dev: Device, p: PlaceFields, a: bv16, o: bv16, rest: seq<D.Instr>, restEffs: seq<F.Effect>)
    requires dev.pcSize < 4 && WfFields(p) && a < 32 && o < 32 && DoAll(dev, rest, restEffs)
    ensures DoAll(dev, ByteCode(p, a, o) + rest, ByteEffects(dev, p, a, o) + restEffs)
  {
    ByteDoes(dev, p, a, o);
    DoAllConcat(dev, ByteCode(p, a, o), ByteEffects(dev, p, a, o), rest, restEffs);
  }

  lemma {:induction false} RowDoes(dev: Device, p: PlaceFields, bytes: seq<bv16>, outs: seq<bv16>)
    requires dev.pcSize < 4 && WfFields(p) && F.Fields(bytes) && F.Fields(outs) && |outs| == |bytes| + 1
    ensures DoAll(dev, RowCode(p, bytes, outs), RowEffects(dev, p, bytes, outs))
    decreases |bytes|
  {
    if bytes == [] {
      MovDoes(dev, outs[0], p.c);
      DoAllCons(dev, D.TwoReg(D.MOV, outs[0], p.c), MovEffect(dev, outs[0], p.c), [], []);
    } else {
      var rest, restEffs := RowCode(p, bytes[1..], outs[1..]), RowEffects(dev, p, bytes[1..], outs[1..]);
      RowDoes(dev, p, bytes[1..], outs[1..]);
      ByteThenRest(dev, p, bytes[0], outs[0], rest, restEffs);
    }
  }

  lemma ApplyCons(eff: F.Effect, effs: seq<F.Effect>, m: Cpu)
    ensures F.Apply([eff] + effs, m) == F.Apply(effs, eff(m))
  {
    assert ([eff] + effs)[1..] == effs;
  }

  lemma ApplyFive(a: F.Effect, b: F.Effect, c: F.Effect, d: F.Effect, e: F.Effect, m: Cpu)
    ensures F.Apply([a, b, c, d, e], m) == e(d(c(b(a(m)))))
  {
    ApplyCons(a, [b, c, d, e], m);
    ApplyCons(b, [c, d, e], a(m));
    ApplyCons(c, [d, e], b(a(m)));
    ApplyCons(d, [e], c(b(a(m))));
    ApplyCons(e, [], d(c(b(a(m)))));
    assert [a] + [b, c, d, e] == [a, b, c, d, e] && [e] + [] == [e];
    assert [b] + [c, d, e] == [b, c, d, e] && [c] + [d, e] == [c, d, e] && [d] + [e] == [d, e];
  }

  lemma ByteApplies(dev: Device, m: Cpu, p: PlaceFields, a: bv16, o: bv16)
    requires Wf(dev, m) && WfFields(p) && WfPlaces(PlacesOf(p)) && a < 32 && o < 32 && Free(a as int) && Free(o as int)
    ensures F.Apply(ByteEffects(dev, p, a, o), m) == RunByte(dev, m, PlacesOf(p), a as int, o as int)
  {
    ApplyFive(MulEffect(dev, a, p.b), F.ArithEffect(dev, AddOp, 0, p.c), F.ArithEffect(dev, AdcOp, 1, p.z),
              MovEffect(dev, o, 0), MovEffect(dev, p.c, 1), m);
  }

  lemma NumbersCons(ds: seq<bv16>)
    requires F.Fields(ds) && ds != []
    ensures F.Fields(ds[1..]) && F.Numbers(ds) == [ds[0] as int] + F.Numbers(ds[1..])
    ensures F.Numbers(ds)[0] == ds[0] as int && F.Numbers(ds)[1..] == F.Numbers(ds[1..])
  {
  }

  lemma RowRest(p: Places, ins: seq<nat>, outs: seq<nat>)
    requires WfRow(p, ins, outs)
    ensures Free(outs[0])
    ensures ins != [] ==> Free(ins[0]) && WfRow(p, ins[1..], outs[1..])
  {
  }

  lemma {:induction false} RowApplies(dev: Device, m: Cpu, p: PlaceFields, bytes: seq<bv16>, outs: seq<bv16>)
    requires Wf(dev, m) && WfFields(p) && F.Fields(bytes) && F.Fields(outs) && |outs| == |bytes| + 1
    requires WfRow(PlacesOf(p), F.Numbers(bytes), F.Numbers(outs))
    ensures F.Apply(RowEffects(dev, p, bytes, outs), m) == RunRow(dev, m, PlacesOf(p), F.Numbers(bytes), F.Numbers(outs))
    decreases |bytes|
  {
    RowRest(PlacesOf(p), F.Numbers(bytes), F.Numbers(outs));
    NumbersCons(outs);
    if bytes == [] {
      var m1 := MovEffect(dev, outs[0], p.c)(m);
      assert F.Apply([], m1) == m1;
    } else {
      NumbersCons(bytes);
      RowFirst(dev, m, p, bytes, outs);
      RowApplies(dev, RunByte(dev, m, PlacesOf(p), bytes[0] as int, outs[0] as int), p, bytes[1..], outs[1..]);
    }
  }

  lemma RowFirst(dev: Device, m: Cpu, p: PlaceFields, bytes: seq<bv16>, outs: seq<bv16>)
    requires Wf(dev, m) && WfFields(p) && F.Fields(bytes) && F.Fields(outs) && |outs| == |bytes| + 1 && bytes != []
    requires WfPlaces(PlacesOf(p)) && Free(bytes[0] as int) && Free(outs[0] as int)
    ensures F.Apply(RowEffects(dev, p, bytes, outs), m) ==
            F.Apply(RowEffects(dev, p, bytes[1..], outs[1..]), RunByte(dev, m, PlacesOf(p), bytes[0] as int, outs[0] as int))
  {
    ByteApplies(dev, m, p, bytes[0], outs[0]);
    ApplyConcat(ByteEffects(dev, p, bytes[0], outs[0]), RowEffects(dev, p, bytes[1..], outs[1..]), m);
  }

  /**
   The words of the row in flash: 5n + 1 fetches later the n + 1 output registers hold the n-byte
   operand times the factor, plus the carry it started with, control is after the program, and no
   register but R0, R1, the carry's and the outputs has changed.
   */
  lemma RowInFlashMultiplies(dev: Device, flash: seq<bv16>, m: Cpu, p: PlaceFields, bytes: seq<bv16>, outs: seq<bv16>)
    requires dev.pcSize < 4 && Wf(dev, m) && WfFields(p) && F.Fields(bytes) && F.Fields(outs)
    requires WfRow(PlacesOf(p), F.Numbers(bytes), F.Numbers(outs)) && m.regs[PlacesOf(p).z] == 0
    requires 0 <= m.pc && m.pc + 5 * |bytes| + 1 < dev.pcMax && F.Holds(flash, m.pc, RowCode(p, bytes, outs))
    ensures var r := F.Run(F.Fetching(dev, flash), m, 5 * |bytes| + 1);
            var q, ins, out := PlacesOf(p), F.Numbers(bytes), F.Numbers(outs);
            && r.Some? && |r.value.regs| == 32 && r.value.pc == m.pc + 5 * |bytes| + 1
            && Value(Gather(r.value.regs, out)) == Value(Gather(m.regs, ins)) * m.regs[q.b] + m.regs[q.c]
            && (forall k :: 2 <= k < 32 && k != q.c && k !in out ==> r.value.regs[k] == m.regs[k])
            && r.value == m.(regs := r.value.regs, sreg := r.value.sreg, pc := r.value.pc, cks := r.value.cks)
  {
    var code, effs := RowCode(p, bytes, outs), RowEffects(dev, p, bytes, outs);
    RowDoes(dev, p, bytes, outs);
    DoAllHasEffects(dev, code, effs);
    F.CodeRuns(dev, flash, m, code, effs);
    EndsAfter(dev, code, effs, m);
    RowApplies(dev, m, p, bytes, outs);
    RowProgramMultiplies(dev, m, PlacesOf(p), F.Numbers(bytes), F.Numbers(outs));
  }
}
