/**
 The watchdog control register and its turn-off procedure.
 */
module Watchdog {
  import opened ListSpec
  import opened OwnCallback
  import DList
  import StatusByte
  import opened Wrappers

  const MASK_WDE: bv8 := 0x08
  const MASK_WDTOE: bv8 := 0x10
  const BIT_WDTOE: bv3 := 4

  const TOE_CLKS := 4

  /** timerCb and toeCb mean that a callback is noted as installed. */
  datatype Wdt = Wdt(wdtcr: bv8, toeClk: nat, timerCb: bool, toeCb: bool)

  /** The watchdog, the clock callback list, and a bound on the callbacks made. */
  datatype Machine = Machine(wd: Wdt, clk: seq<Callback>, made: nat)

  predicate Has(reg: bv8, mask: bv8) {
    reg & mask != 0
  }

  /** What a write of val is taken as: on a device with a turn-off bit WDE stays set unless that bit is. */
  function Effective(wd: Wdt, mask: bv8, val: bv8): bv8 {
    if Has(mask, MASK_WDTOE) && Has(wd.wdtcr, MASK_WDE) && !Has(wd.wdtcr, MASK_WDTOE) then val | MASK_WDE else val
  }

  /** The write opens the turn-off window. */
  predicate OpensWindow(mask: bv8, val: bv8) {
    Has(mask, MASK_WDTOE) && Has(val, MASK_WDTOE)
  }

  /** Whether the watchdog's own timer callback is noted after a write that takes WDE from enabled to enable. */
  function TimerNoted(noted: bool, enabled: bool, enable: bool): bool {
    if !enabled && enable then true
    else if enabled && !enable then false
    else noted
  }

  /** Open the window: the count starts, and the callback is installed unless it is. */
  function Opened(m: Machine): Machine {
    var m1 := if m.wd.toeCb then m else m.(clk := Add(m.clk, Own(m.made), None), made := m.made + 1);
    m1.(wd := m.wd.(toeClk := TOE_CLKS, toeCb := true))
  }

  function Write(m: Machine, mask: bv8, val: bv8): Machine {
    var v := Effective(m.wd, mask, val);
    var m1 := if OpensWindow(mask, v) then Opened(m) else m;
    m1.(wd := Stored(m1.wd, mask, v))
  }

  /** The register takes its value, and the timer's callback is noted or forgotten. */
  function Stored(wd: Wdt, mask: bv8, v: bv8): Wdt {
    wd.(wdtcr := v & mask, timerCb := TimerNoted(wd.timerCb, Has(wd.wdtcr, MASK_WDE), Has(v, MASK_WDE)))
  }

  /** The callback that clears the turn-off bit when its count has run out. */
  function ToeTick(mask: bv8): Tick<Wdt> {
    (wd: Wdt) =>
      if !wd.toeCb then (true, wd)
      else if wd.toeClk > 0 then (false, wd.(toeClk := wd.toeClk - 1))
      else (true, wd.(wdtcr := StatusByte.SetBitInByte(wd.wdtcr, BIT_WDTOE, false) & mask, toeCb := false))
  }

  datatype Event = WriteWdtcr(val: bv8) | ClockTick(others: Others) | OtherInstalls

  function Happen(m: Machine, mask: bv8, e: Event): Machine {
    match e
    case WriteWdtcr(val) => Write(m, mask, val)
    case ClockTick(others) =>
      var v := RunAll(m.clk, ToeTick(mask), others, m.wd);
      m.(wd := v.state, clk := v.kept)
    case OtherInstalls => m.(clk := Add(m.clk, Other(m.made), None), made := m.made + 1)
  }

  function Run(m: Machine, mask: bv8, events: seq<Event>): Machine
    decreases |events|
  {
    if events == [] then m
    else Happen(Run(m, mask, events[..|events| - 1]), mask, events[|events| - 1])
  }

  /**
   The callback is listed once exactly when it is noted, its count never exceeds four, and the
   turn-off bit is set only while it is. The bit can be clear while the callback stays: a write clears
   the bit alone.
   */
  ghost predicate Linked(m: Machine) {
    && Sound(m.clk, m.made)
    && Copies(m.clk) == (if m.wd.toeCb then 1 else 0)
    && (m.wd.toeCb ==> m.wd.toeClk <= TOE_CLKS)
    && (Has(m.wd.wdtcr, MASK_WDTOE) ==> m.wd.toeCb)
  }

  lemma ClearedBit(reg: bv8, mask: bv8)
    ensures !Has(StatusByte.SetBitInByte(reg, BIT_WDTOE, false) & mask, MASK_WDTOE)
    ensures Has(StatusByte.SetBitInByte(reg, BIT_WDTOE, false) & mask, MASK_WDE) == Has(reg & mask, MASK_WDE)
  {
  }

  lemma MaskedBit(val: bv8, mask: bv8, bit: bv8)
    requires bit == MASK_WDE || bit == MASK_WDTOE
    ensures Has(val & mask, bit) <==> Has(val, bit) && Has(mask, bit)
    ensures Has(val | MASK_WDE, MASK_WDTOE) == Has(val, MASK_WDTOE) && Has(val | MASK_WDE, MASK_WDE)
  {
  }

  /** What a clock does when the callback is listed as it should be. */
  lemma TickIs(m: Machine, mask: bv8, others: Others)
    requires Linked(m)
    ensures var m' := Happen(m, mask, ClockTick(others));
            Linked(m') && m'.wd == if m.wd.toeCb then ToeTick(mask)(m.wd).1 else m.wd
  {
    Runs(m.clk, m.made, ToeTick(mask), others, m.wd);
    ClearedBit(m.wd.wdtcr, mask);
  }

  lemma HappenLinked(m: Machine, mask: bv8, e: Event)
    requires Linked(m)
    ensures Linked(Happen(m, mask, e))
  {
    match e
    case WriteWdtcr(val) =>
      Appended(m.clk, m.made, Own(m.made));
      MaskedBit(Effective(m.wd, mask, val), mask, MASK_WDTOE);
    case ClockTick(others) => TickIs(m, mask, others);
    case OtherInstalls => Appended(m.clk, m.made, Other(m.made));
  }

  lemma {:induction false} RunLinked(m: Machine, mask: bv8, events: seq<Event>)
    requires Linked(m)
    ensures Linked(Run(m, mask, events))
    decreases |events|
  {
    if events != [] {
      RunLinked(m, mask, events[..|events| - 1]);
      HappenLinked(Run(m, mask, events[..|events| - 1]), mask, events[|events| - 1]);
    }
  }

  /** In every run the watchdog's own callback is noted exactly while WDE is set. */
  lemma {:induction false} TimerFollowsEnable(m: Machine, mask: bv8, events: seq<Event>)
    requires Linked(m) && Has(mask, MASK_WDE) && m.wd.timerCb == Has(m.wd.wdtcr, MASK_WDE)
    ensures var wd := Run(m, mask, events).wd; wd.timerCb == Has(wd.wdtcr, MASK_WDE)
    decreases |events|
  {
    if events != [] {
      var before, e := events[..|events| - 1], events[|events| - 1];
      TimerFollowsEnable(m, mask, before);
      RunLinked(m, mask, before);
      TimerStep(Run(m, mask, before), mask, e);
    }
  }

  lemma TimerStep(m: Machine, mask: bv8, e: Event)
    requires Linked(m) && Has(mask, MASK_WDE) && m.wd.timerCb == Has(m.wd.wdtcr, MASK_WDE)
    ensures var wd := Happen(m, mask, e).wd; wd.timerCb == Has(wd.wdtcr, MASK_WDE)
  {
    match e
    case WriteWdtcr(val) =>
      var v := Effective(m.wd, mask, val);
      StoredTimer(if OpensWindow(mask, v) then Opened(m).wd else m.wd, mask, v);
    case ClockTick(others) =>
      TickIs(m, mask, others);
      TickTimer(m.wd, mask);
    case OtherInstalls =>
  }

  lemma StoredTimer(wd: Wdt, mask: bv8, v: bv8)
    requires Has(mask, MASK_WDE) && wd.timerCb == Has(wd.wdtcr, MASK_WDE)
    ensures Stored(wd, mask, v).timerCb == Has(Stored(wd, mask, v).wdtcr, MASK_WDE)
  {
    MaskedBit(v, mask, MASK_WDE);
  }

  lemma TickTimer(wd: Wdt, mask: bv8)
    requires Has(mask, MASK_WDE) && wd.timerCb == Has(wd.wdtcr, MASK_WDE)
    ensures var wd' := ToeTick(mask)(wd).1; wd'.timerCb == Has(wd'.wdtcr, MASK_WDE)
  {
    ClearedBit(wd.wdtcr, mask);
    MaskedBit(wd.wdtcr, mask, MASK_WDE);
  }

  /** On a device with both bits a write clears a set WDE exactly if it has the bit clear and the turn-off bit is set. */
  lemma WriteClearsIff(m: Machine, mask: bv8, val: bv8)
    requires Has(mask, MASK_WDTOE) && Has(mask, MASK_WDE) && Has(m.wd.wdtcr, MASK_WDE)
    ensures !Has(Write(m, mask, val).wd.wdtcr, MASK_WDE) <==> !Has(val, MASK_WDE) && Has(m.wd.wdtcr, MASK_WDTOE)
  {
    MaskedBit(Effective(m.wd, mask, val), mask, MASK_WDE);
    MaskedBit(val, mask, MASK_WDE);
  }

  // ----- the window -----

  function ClockTicks(events: seq<Event>): nat
    decreases |events|
  {
    if events == [] then 0
    else ClockTicks(events[..|events| - 1]) + if events[|events| - 1].ClockTick? then 1 else 0
  }

  predicate Opens(mask: bv8, e: Event) {
    e.WriteWdtcr? && OpensWindow(mask, e.val)
  }

  /** Event k is the latest write that set the turn-off bit. */
  ghost predicate LatestOpening(mask: bv8, events: seq<Event>, k: nat) {
    k < |events| && Opens(mask, events[k]) && forall i :: k < i < |events| ==> !Opens(mask, events[i])
  }

  /** While the callback is installed its count tells how many clocks ago the window was opened. */
  ghost predicate Accounted(mask: bv8, events: seq<Event>, wd: Wdt) {
    wd.toeCb ==> exists k: nat :: LatestOpening(mask, events, k) && ClockTicks(events[k + 1..]) + wd.toeClk == TOE_CLKS
  }

  lemma OpeningExtends(mask: bv8, events: seq<Event>, e: Event, k: nat)
    requires LatestOpening(mask, events, k) && !Opens(mask, e)
    ensures LatestOpening(mask, events + [e], k)
    ensures ClockTicks((events + [e])[k + 1..]) == ClockTicks(events[k + 1..]) + if e.ClockTick? then 1 else 0
  {
    var tail := (events + [e])[k + 1..];
    assert tail == events[k + 1..] + [e] && tail[..|tail| - 1] == events[k + 1..];
  }

  lemma CountAfter(m: Machine, mask: bv8, e: Event)
    requires Linked(m)
    ensures var wd := Happen(m, mask, e).wd;
            if Opens(mask, e) then wd.toeCb && wd.toeClk == TOE_CLKS
            else wd.toeCb ==> m.wd.toeCb && wd.toeClk + (if e.ClockTick? then 1 else 0) == m.wd.toeClk
  {
    match e
    case WriteWdtcr(val) => MaskedBit(val, mask, MASK_WDTOE);
    case ClockTick(others) => TickIs(m, mask, others);
    case OtherInstalls =>
  }

  lemma AccountedStep(mask: bv8, before: seq<Event>, e: Event, wd: Wdt, wd': Wdt)
    requires Accounted(mask, before, wd)
    requires if Opens(mask, e) then wd'.toeCb && wd'.toeClk == TOE_CLKS
             else wd'.toeCb ==> wd.toeCb && wd'.toeClk + (if e.ClockTick? then 1 else 0) == wd.toeClk
    ensures Accounted(mask, before + [e], wd')
  {
    var events := before + [e];
    if Opens(mask, e) {
      assert LatestOpening(mask, events, |before|) && events[|before| + 1..] == [];
    } else if wd'.toeCb {
      var k: nat :| LatestOpening(mask, before, k) && ClockTicks(before[k + 1..]) + wd.toeClk == TOE_CLKS;
      OpeningExtends(mask, before, e, k);
    }
  }

  lemma {:induction false} RunAccounted(m: Machine, mask: bv8, events: seq<Event>)
    requires Linked(m) && !m.wd.toeCb
    ensures Accounted(mask, events, Run(m, mask, events).wd)
    decreases |events|
  {
    if events != [] {
      var before, e := events[..|events| - 1], events[|events| - 1];
      var m1 := Run(m, mask, before);
      assert events == before + [e];
      RunLinked(m, mask, before);
      RunAccounted(m, mask, before);
      CountAfter(m1, mask, e);
      AccountedStep(mask, before, e, m1.wd, Happen(m1, mask, e).wd);
    }
  }

  /**
   In every run from a state without a window open, on a device with a turn-off bit, WDE once set is
   cleared only by a write, and at most four clocks after the latest write that set the turn-off bit.
   */
  lemma ClearedOnlyInWindow(m: Machine, mask: bv8, events: seq<Event>, e: Event)
    requires Linked(m) && !m.wd.toeCb && Has(mask, MASK_WDTOE) && Has(mask, MASK_WDE)
    requires Has(Run(m, mask, events).wd.wdtcr, MASK_WDE) && !Has(Happen(Run(m, mask, events), mask, e).wd.wdtcr, MASK_WDE)
    ensures e.WriteWdtcr? && exists k: nat :: LatestOpening(mask, events, k) && ClockTicks(events[k + 1..]) <= TOE_CLKS
  {
    var m1 := Run(m, mask, events);
    RunLinked(m, mask, events);
    RunAccounted(m, mask, events);
    match e {
      case WriteWdtcr(val) => WriteClearsIff(m1, mask, val);
      case ClockTick(others) =>
        TickIs(m1, mask, others);
        ClearedBit(m1.wd.wdtcr, mask);
        MaskedBit(m1.wd.wdtcr, mask, MASK_WDE);
      case OtherInstalls =>
    }
  }

  /** Clocks only, whatever the other callbacks do. */
  predicate OnlyTicks(events: seq<Event>) {
    forall i :: 0 <= i < |events| ==> events[i].ClockTick?
  }

  lemma {:induction false} TurnOffBitLasts(m: Machine, mask: bv8, events: seq<Event>)
    requires Linked(m) && OnlyTicks(events) && Has(m.wd.wdtcr, MASK_WDTOE) && Has(m.wd.wdtcr, MASK_WDE)
    requires Has(mask, MASK_WDE)
    ensures var wd := Run(m, mask, events).wd;
            && (Has(wd.wdtcr, MASK_WDTOE) <==> |events| <= m.wd.toeClk)
            && (|events| <= m.wd.toeClk ==> wd.toeCb && wd.toeClk == m.wd.toeClk - |events|)
            && Has(wd.wdtcr, MASK_WDE)
    decreases |events|
  {
    if events != [] {
      var before, e := events[..|events| - 1], events[|events| - 1];
      var m1 := Run(m, mask, before);
      TurnOffBitLasts(m, mask, before);
      RunLinked(m, mask, before);
      TickIs(m1, mask, e.others);
      ClearedBit(m1.wd.wdtcr, mask);
      MaskedBit(m1.wd.wdtcr, mask, MASK_WDE);
    }
  }

  /**
   The turn-off procedure works exactly within four clocks: set WDTOE and WDE, let the clocks go by,
   write with WDE clear.
   */
  lemma TurnOffProcedure(m: Machine, mask: bv8, both: bv8, events: seq<Event>, off: bv8)
    requires Linked(m) && Has(mask, MASK_WDTOE) && Has(mask, MASK_WDE)
    requires Has(both, MASK_WDTOE) && Has(both, MASK_WDE) && OnlyTicks(events) && !Has(off, MASK_WDE)
    ensures !Has(Write(Run(Write(m, mask, both), mask, events), mask, off).wd.wdtcr, MASK_WDE) <==> |events| <= TOE_CLKS
  {
    var armed := Write(m, mask, both);
    HappenLinked(m, mask, WriteWdtcr(both));
    MaskedBit(Effective(m.wd, mask, both), mask, MASK_WDTOE);
    MaskedBit(Effective(m.wd, mask, both), mask, MASK_WDE);
    MaskedBit(both, mask, MASK_WDTOE);
    TurnOffBitLasts(armed, mask, events);
    WriteClearsIff(Run(armed, mask, events), mask, off);
  }

  lemma MasksAre(mask: bv8)
    ensures mask & 0x18 == 0x18 <==> Has(mask, MASK_WDTOE) && Has(mask, MASK_WDE)
    ensures mask & 0x08 == 0 <==> !Has(mask, MASK_WDE)
    ensures mask & 0x10 == 0 <==> !Has(mask, MASK_WDTOE)
  {
  }

  /** By the register's values: 0x18, then clocks, then 0 disables exactly up to four clocks; 0 alone does not. */
  lemma TurnOffValues(m: Machine, mask: bv8, events: seq<Event>)
    requires Linked(m) && mask & 0x18 == 0x18 && OnlyTicks(events)
    ensures Write(Run(Write(m, mask, 0x18), mask, events), mask, 0).wd.wdtcr & 0x08 == 0 <==> |events| <= 4
    ensures m.wd.wdtcr & 0x08 != 0 && m.wd.wdtcr & 0x10 == 0 ==> Write(m, mask, 0).wd.wdtcr & 0x08 != 0
  {
    MasksAre(mask);
    MasksAre(m.wd.wdtcr);
    MasksAre(Write(m, mask, 0).wd.wdtcr);
    MasksAre(Write(Run(Write(m, mask, 0x18), mask, events), mask, 0).wd.wdtcr);
    TurnOffProcedure(m, mask, 0x18, events, 0);
    if Has(m.wd.wdtcr, MASK_WDE) {
      WriteClearsIff(m, mask, 0);
    }
  }

  // ----- the simulator's own form -----

  class Wdtcr {
    const funcMask: bv8
    var wdtcr: bv8
    var toeClk: nat
    var timerCb: bool
    var toeCb: bool
    const clk: DList.List<Callback>
    var made: nat

    ghost function Registers(): Wdt
      reads this
    {
      Wdt(wdtcr, toeClk, timerCb, toeCb)
    }

    ghost function State(): Machine
      reads this, clk
    {
      Machine(Registers(), clk.contents, made)
    }

    constructor (mask: bv8)
      ensures funcMask == mask && Linked(State()) && wdtcr == 0 && !toeCb
      ensures clk.Valid() && fresh(clk)
    {
      funcMask := mask;
      wdtcr, toeClk, timerCb, toeCb, made := 0, TOE_CLKS, false, false, 0;
      clk := new DList.List<Callback>();
    }

    method StartToe()
      requires clk.Valid()
      modifies `toeClk, `toeCb, `made, clk, clk.nodes
      ensures clk.Valid() && State() == Opened(old(State()))
    {
      toeClk := TOE_CLKS;
      if !toeCb {
        toeCb := true;
        clk.Add(Own(made), None);
        made := made + 1;
      }
    }

    /** The value a write is taken as; it opens the turn-off window if the device has one. */
    method TakeValue(val: bv8) returns (v: bv8)
      requires clk.Valid()
      modifies `toeClk, `toeCb, `made, clk, clk.nodes
      ensures clk.Valid()
      ensures v == Effective(old(Registers()), funcMask, val)
      ensures State() == if OpensWindow(funcMask, v) then Opened(old(State())) else old(State())
    {
      v := val;
      if Has(funcMask, MASK_WDTOE) {
        if Has(wdtcr, MASK_WDE) && !Has(wdtcr, MASK_WDTOE) {
          v := v | MASK_WDE;
        }
        if Has(v, MASK_WDTOE) {
          StartToe();
        }
      }
    }

    method Store(v: bv8)
      modifies `wdtcr, `timerCb
      ensures Registers() == Stored(old(Registers()), funcMask, v)
    {
      var wdEnabled := Has(wdtcr, MASK_WDE);
      wdtcr := v & funcMask;
      if !wdEnabled && Has(v, MASK_WDE) && !timerCb {
        timerCb := true;
      }
      if wdEnabled && !Has(v, MASK_WDE) && timerCb {
        timerCb := false;
      }
    }

    method WriteReg(val: bv8)
      requires clk.Valid()
      modifies this, clk, clk.nodes
      ensures clk.Valid() && State() == Write(old(State()), funcMask, val)
    {
      var v := TakeValue(val);
      Store(v);
    }

    /** The turn-off callback; the result asks for its removal. */
    method ToeClrCb() returns (remove: bool)
      modifies `wdtcr, `toeClk, `toeCb
      ensures (remove, Registers()) == ToeTick(funcMask)(old(Registers()))
    {
      if !toeCb {
        return true;
      }
      if toeClk > 0 {
        toeClk := toeClk - 1;
      } else {
        wdtcr := StatusByte.SetBitInByte(wdtcr, BIT_WDTOE, false) & funcMask;
        toeCb := false;
        return true;
      }
      remove := false;
    }
  }
}
