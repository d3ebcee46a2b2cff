/**
 Breakpoints: a listed address has its flash word saved in the list and, while enabled, replaced by
 the BREAK opcode.
 */
module Breakpoints {
  import opened Bytes
  import opened FlashMemory
  import opened ListSpec
  import DList
  import Decoder
  import DecoderInverse
  import opened Wrappers

  const BREAK_OPCODE: word := 0x9598

  /** It is the word of the BREAK instruction, and no other word is. */
  lemma BreakOpcodeIsBreak(w: bv16)
    ensures w as int == BREAK_OPCODE <==> Decoder.Decode(w) == Decoder.NoOperand(Decoder.BREAK)
  {
    DecoderInverse.DecodeEncode(Decoder.NoOperand(Decoder.BREAK));
    if Decoder.Decode(w) == Decoder.NoOperand(Decoder.BREAK) {
      DecoderInverse.EncodeDecode(w);
    }
    assert w as int == 0x9598 <==> w == 0x9598;
  }

  /** A listed breakpoint and the word it replaced. */
  datatype BreakPt = BreakPt(pc: int, opcode: word)

  datatype Patched = Patched(words: seq<word>, list: seq<BreakPt>)

  function Pc(): BreakPt -> int {
    (b: BreakPt) => b.pc
  }

  // ----- what the operations do -----

  function Insert(s: Patched, pc: int): Patched
    requires 0 <= pc < |s.words|
  {
    Patched(s.words[pc := BREAK_OPCODE], Add(s.list, BreakPt(pc, s.words[pc]), Some(SameKey(Pc()))))
  }

  predicate InRange(s: Patched) {
    forall i :: 0 <= i < |s.list| ==> 0 <= s.list[i].pc < |s.words|
  }

  /** Removing an address that is not listed, in flash or not, does nothing. */
  function Remove(s: Patched, pc: int): (s': Patched)
    requires InRange(s)
    ensures InRange(s') && |s'.words| == |s.words|
  {
    match Lookup(s.list, BreakPt(pc, 0), SameKey(Pc()))
    case None => s
    case Some(bp) =>
      LookupFinds(s.list, BreakPt(pc, 0), Pc());
      DeleteOnlyDrops(s.list, BreakPt(pc, 0), SameKey(Pc()));
      Patched(s.words[pc := bp.opcode], Delete(s.list, BreakPt(pc, 0), SameKey(Pc())))
  }

  /** Enable or disable one listed breakpoint. Enabling saves the word found, unless it is BREAK already. */
  function SetEntry(s: Patched, i: nat, enable: bool): (s': Patched)
    requires i < |s.list| && InRange(s)
    ensures InRange(s') && |s'.list| == |s.list| && |s'.words| == |s.words|
  {
    var bp := s.list[i];
    var insn := s.words[bp.pc];
    if !enable then s.(words := s.words[bp.pc := bp.opcode])
    else if insn != BREAK_OPCODE then Patched(s.words[bp.pc := BREAK_OPCODE], s.list[i := bp.(opcode := insn)])
    else s
  }

  /** Enable or disable the first n listed breakpoints, in order. */
  function SetFirst(s: Patched, n: nat, enable: bool): (s': Patched)
    requires n <= |s.list| && InRange(s)
    ensures InRange(s') && |s'.list| == |s.list| && |s'.words| == |s.words|
  {
    if n == 0 then s else SetEntry(SetFirst(s, n - 1, enable), n - 1, enable)
  }

  datatype Op = InsertAt(pc: int) | RemoveAt(pc: int) | EnableAll | DisableAll

  /** Inserting outside the flash stops the simulator. */
  predicate Allowed(op: Op, size: nat) {
    op.InsertAt? ==> 0 <= op.pc < size
  }

  function Perform(s: Patched, op: Op): Patched
    requires InRange(s) && Allowed(op, |s.words|)
  {
    match op
    case InsertAt(pc) => Insert(s, pc)
    case RemoveAt(pc) => Remove(s, pc)
    case EnableAll => SetFirst(s, |s.list|, true)
    case DisableAll => SetFirst(s, |s.list|, false)
  }

  // ----- the logical program -----

  /**
   The flash stands for the program p: each listed address is listed once and saves its word of p,
   the flash has there that word or BREAK, and everywhere else the word of p.
   */
  ghost predicate StandsFor(s: Patched, p: seq<word>) {
    && |s.words| == |p|
    && InRange(s)
    && UniqueKeys(s.list, Pc())
    && (forall i :: 0 <= i < |s.list| ==> s.list[i].opcode == p[s.list[i].pc])
    && (forall a :: 0 <= a < |p| ==> s.words[a] == p[a] || (s.words[a] == BREAK_OPCODE && Listed(s.list, a)))
  }

  ghost predicate Listed(list: seq<BreakPt>, pc: int) {
    exists i :: 0 <= i < |list| && list[i].pc == pc
  }

  lemma InsertKeeps(s: Patched, p: seq<word>, pc: int)
    requires StandsFor(s, p) && 0 <= pc < |p|
    ensures StandsFor(Insert(s, pc), p)
    ensures Listed(Insert(s, pc).list, pc) && Insert(s, pc).words[pc] == BREAK_OPCODE
  {
    var bp := BreakPt(pc, s.words[pc]);
    var s' := Insert(s, pc);
    AddKeepsUnique(s.list, bp, Pc());
    if s'.list == s.list {
      var i :| 0 <= i < |s.list| && SameKey(Pc())(s.list[i], bp);
      assert s.list[i].pc == pc;
    } else {
      assert !Listed(s.list, pc) by {
        assert forall i :: 0 <= i < |s.list| ==> !SameKey(Pc())(s.list[i], bp);
      }
      assert s'.list[|s.list|].pc == pc;
      assert forall i :: 0 <= i < |s.list| ==> s'.list[i] == s.list[i];
    }
  }

  lemma RemoveKeeps(s: Patched, p: seq<word>, pc: int)
    requires StandsFor(s, p)
    ensures StandsFor(Remove(s, pc), p)
    ensures !Listed(Remove(s, pc).list, pc)
    ensures forall a :: Listed(Remove(s, pc).list, a) ==> Listed(s.list, a)
    ensures forall a :: Listed(s.list, a) && a != pc ==> Listed(Remove(s, pc).list, a)
  {
    var key := BreakPt(pc, 0);
    LookupFinds(s.list, key, Pc());
    match Lookup(s.list, key, SameKey(Pc()))
    case None =>
      assert forall i :: 0 <= i < |s.list| ==> s.list[i] in s.list;
    case Some(bp) =>
      var s' := Remove(s, pc);
      DeleteKeepsUnique(s.list, key, Pc());
      forall i | 0 <= i < |s'.list| ensures s'.list[i] in s.list && s'.list[i].pc != pc {
        DeleteMembers(s.list, key, Pc(), s'.list[i]);
        assert s'.list[i] in s'.list;
      }
      forall a | Listed(s.list, a) && a != pc ensures Listed(s'.list, a) {
        var i :| 0 <= i < |s.list| && s.list[i].pc == a;
        DeleteMembers(s.list, key, Pc(), s.list[i]);
        assert s.list[i] in s'.list;
      }
  }

  function Shown(p: seq<word>, bp: BreakPt, enable: bool): word
    requires 0 <= bp.pc < |p|
  {
    if enable then BREAK_OPCODE else p[bp.pc]
  }

  lemma SetEntryKeeps(s: Patched, p: seq<word>, i: nat, enable: bool)
    requires StandsFor(s, p) && i < |s.list|
    ensures StandsFor(SetEntry(s, i, enable), p)
    ensures SetEntry(s, i, enable).list == s.list
    ensures SetEntry(s, i, enable).words == s.words[s.list[i].pc := Shown(p, s.list[i], enable)]
  {
    var s' := SetEntry(s, i, enable);
    assert Listed(s.list, s.list[i].pc);
    assert s'.list == s.list;
    assert s'.words == s.words[s.list[i].pc := Shown(p, s.list[i], enable)];
  }

  /** The first n listed addresses show BREAK, or their own words. */
  ghost predicate FirstSet(s: Patched, p: seq<word>, n: nat, enable: bool)
    requires n <= |s.list| && InRange(s) && |s.words| == |p|
  {
    forall i :: 0 <= i < n ==> s.words[s.list[i].pc] == Shown(p, s.list[i], enable)
  }

  lemma FirstSetStep(s: Patched, s': Patched, p: seq<word>, n: nat, enable: bool)
    requires n < |s.list| && InRange(s) && |s.words| == |p|
    requires UniqueKeys(s.list, Pc()) && FirstSet(s, p, n, enable)
    requires s'.list == s.list && s'.words == s.words[s.list[n].pc := Shown(p, s.list[n], enable)]
    ensures FirstSet(s', p, n + 1, enable)
  {
    forall i | 0 <= i < n + 1 ensures s'.words[s'.list[i].pc] == Shown(p, s'.list[i], enable) {
      assert i < n ==> Pc()(s.list[i]) != Pc()(s.list[n]);
    }
  }

  lemma SetNextKeeps(s: Patched, s': Patched, p: seq<word>, n: nat, enable: bool)
    requires StandsFor(s, p) && n < |s.list| && FirstSet(s, p, n, enable)
    requires s' == SetEntry(s, n, enable)
    ensures StandsFor(s', p) && s'.list == s.list && FirstSet(s', p, n + 1, enable)
  {
    SetEntryKeeps(s, p, n, enable);
    FirstSetStep(s, s', p, n, enable);
  }

  lemma {:induction false} SetFirstKeeps(s: Patched, p: seq<word>, n: nat, enable: bool) returns (s': Patched)
    requires StandsFor(s, p) && n <= |s.list|
    ensures s' == SetFirst(s, n, enable)
    ensures StandsFor(s', p) && s'.list == s.list && FirstSet(s', p, n, enable)
  {
    if n == 0 {
      s' := s;
    } else {
      var s1 := SetFirstKeeps(s, p, n - 1, enable);
      s' := SetEntry(s1, n - 1, enable);
      SetNextKeeps(s1, s', p, n - 1, enable);
    }
  }

  /** Disabling the breakpoints leaves them listed and shows the program itself. */
  lemma DisablingShows(s: Patched, p: seq<word>)
    requires StandsFor(s, p)
    ensures Perform(s, DisableAll) == Patched(p, s.list)
  {
    var s' := SetFirstKeeps(s, p, |s.list|, false);
    forall a | 0 <= a < |p| ensures s'.words[a] == p[a] {
      if Listed(s.list, a) {
        var i :| 0 <= i < |s.list| && s.list[i].pc == a;
      }
    }
    assert s'.words == p;
  }

  /** Each operation leaves the flash standing for the same program. */
  lemma PerformKeeps(s: Patched, p: seq<word>, op: Op)
    requires StandsFor(s, p) && Allowed(op, |p|)
    ensures StandsFor(Perform(s, op), p)
  {
    match op
    case InsertAt(pc) => InsertKeeps(s, p, pc);
    case RemoveAt(pc) => RemoveKeeps(s, p, pc);
    case EnableAll => var s' := SetFirstKeeps(s, p, |s.list|, true);
    case DisableAll => var s' := SetFirstKeeps(s, p, |s.list|, false);
  }

  /** Some sequence of allowed operations leads from s to s'. */
  ghost predicate Leads(s: Patched, ops: seq<Op>, s': Patched, p: seq<word>)
    requires StandsFor(s, p)
    decreases |ops|
  {
    if ops == [] then s' == s
    else Allowed(ops[0], |p|) && (PerformKeeps(s, p, ops[0]); Leads(Perform(s, ops[0]), ops[1..], s', p))
  }

  /** Whatever the operations, the flash stands for the program it started with. */
  lemma {:induction false} RunKeeps(s: Patched, ops: seq<Op>, s': Patched, p: seq<word>)
    requires StandsFor(s, p) && Leads(s, ops, s', p)
    ensures StandsFor(s', p)
    decreases |ops|
  {
    if ops != [] {
      PerformKeeps(s, p, ops[0]);
      RunKeeps(Perform(s, ops[0]), ops[1..], s', p);
    }
  }

  /** Starting without breakpoints, once the list is empty again the flash is exactly as it was. */
  lemma EmptyListRestores(words: seq<word>, ops: seq<Op>, s': Patched)
    requires StandsFor(Patched(words, []), words) && Leads(Patched(words, []), ops, s', words)
    requires s'.list == []
    ensures s'.words == words
  {
    RunKeeps(Patched(words, []), ops, s', words);
  }

  function RemoveEach(s: Patched, pcs: seq<int>): (s': Patched)
    requires InRange(s)
    decreases |pcs|
  {
    if pcs == [] then s else RemoveEach(Remove(s, pcs[0]), pcs[1..])
  }

  lemma HeadListed(list: seq<BreakPt>)
    ensures list != [] ==> exists a :: Listed(list, a)
  {
    if list != [] {
      assert Listed(list, list[0].pc);
    }
  }

  /** Removing every listed breakpoint, in any order, empties the list and restores the flash. */
  lemma {:induction false} RemovingAllRestores(s: Patched, p: seq<word>, pcs: seq<int>)
    requires StandsFor(s, p)
    requires forall a :: Listed(s.list, a) ==> a in pcs
    ensures RemoveEach(s, pcs) == Patched(p, [])
    decreases |pcs|
  {
    if pcs == [] {
      HeadListed(s.list);
      assert s.words == p;
    } else {
      RemoveKeeps(s, p, pcs[0]);
      assert pcs == [pcs[0]] + pcs[1..];
      RemovingAllRestores(Remove(s, pcs[0]), p, pcs[1..]);
    }
  }

  // ----- the simulator's own form -----

  class Core {
    const flash: Flash
    const breakpoints: DList.List<BreakPt>

    constructor (flash: Flash)
      ensures this.flash == flash && fresh(breakpoints) && breakpoints.Valid() && breakpoints.contents == []
    {
      this.flash := flash;
      breakpoints := new DList.List<BreakPt>();
    }

    ghost function State(): Patched
      reads this, flash.data, breakpoints
    {
      Patched(flash.Words(), breakpoints.contents)
    }

    /** The word is saved in the list, unless the address is listed, and replaced. */
    method InsertBreakpoint(pc: int)
      requires breakpoints.Valid() && 0 <= pc < |State().words|
      modifies flash.data, breakpoints, breakpoints.nodes
      ensures breakpoints.Valid() && State() == Insert(old(State()), pc)
      ensures forall n :: n in breakpoints.nodes ==> n in old(breakpoints.nodes) || fresh(n)
    {
      var insn := flash.Read(pc);
      breakpoints.Add(BreakPt(pc, insn), Some(SameKey(Pc())));
      flash.Write(pc, BREAK_OPCODE);
    }

    /** The saved word is written back and its list node unlinked. */
    method RemoveBreakpoint(pc: int)
      requires breakpoints.Valid() && InRange(State())
      modifies flash.data, breakpoints, breakpoints.nodes
      ensures breakpoints.Valid() && State() == Remove(old(State()), pc)
    {
      var found := breakpoints.Lookup(BreakPt(pc, 0), SameKey(Pc()));
      LookupFinds(breakpoints.contents, BreakPt(pc, 0), Pc());
      if found.Some? {
        ghost var at := breakpoints.Delete(BreakPt(pc, 0), SameKey(Pc()));
        flash.Write(pc, found.value.opcode);
      }
    }

    /** What the iterator is given to do to the breakpoint of a node; it overwrites the saved word in the list. */
    method SetBreakpoint(node: DList.Node<BreakPt>, enable: bool, ghost i: nat)
      requires breakpoints.Valid() && i < |breakpoints.nodes| && node == breakpoints.nodes[i] && InRange(State())
      modifies flash.data, node`data, breakpoints`contents
      ensures breakpoints.Valid() && State() == SetEntry(old(State()), i, enable)
    {
      var bp := node.data;
      assert bp == breakpoints.contents[i];
      if enable {
        var insn := flash.Read(bp.pc);
        if insn != BREAK_OPCODE {
          breakpoints.SetData(node, bp.(opcode := insn), i);
          flash.Write(bp.pc, BREAK_OPCODE);
        }
      } else {
        flash.Write(bp.pc, bp.opcode);
      }
    }

    /** Enables or disables every listed breakpoint, from the head of the list on; none is removed. */
    method SetBreakpoints(enable: bool)
      requires breakpoints.Valid() && InRange(State())
      modifies flash.data, breakpoints`contents, breakpoints.nodes
      ensures breakpoints.Valid() && breakpoints.nodes == old(breakpoints.nodes)
      ensures State() == SetFirst(old(State()), |old(breakpoints.contents)|, enable)
    {
      var node := breakpoints.head;
      ghost var i := 0;
      while node != null
        invariant breakpoints.Valid() && breakpoints.nodes == old(breakpoints.nodes)
        invariant 0 <= i <= |breakpoints.nodes| && node == breakpoints.NodeAt(i)
        invariant InRange(State()) && State() == SetFirst(old(State()), i, enable)
        decreases |breakpoints.nodes| - i
      {
        SetBreakpoint(node, enable, i);
        node, i := node.next, i + 1;
      }
    }
  }
}
