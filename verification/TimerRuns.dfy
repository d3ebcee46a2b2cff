/**
 Runs of the simulator with timer 0: register writes by instructions, and the clocks between them.
 At the end of every step the clock list holds one callback of a running timer and none of a stopped
 one, so no clock is counted twice.
 */
module TimerRuns {
  import opened Bytes
  import opened ListSpec
  import opened Clock
  import opened OwnCallback
  import opened TimerCounter0
  import opened Wrappers

  /** The timer, the clock list, a bound on the callbacks made so far, and the clock count. */
  datatype Core = Core(t: Timer, list: seq<Callback>, made: nat, ck: nat)

  /** What an instruction does: write a register of the timer, or make another peripheral install a callback. */
  datatype RegWrite = NoWrite | WriteTcnt(val: byte) | WriteTccr(val: byte) | OtherInstalls

  /** Stopped stands for the errors that end the simulator. */
  datatype Applied = Applied(core: Core) | Stopped

  function DivisorOf(cs: nat): (d: nat)
    requires CS_CK <= cs <= CS_CK_1024
    ensures IsDivisor(d)
  {
    if cs == CS_CK then 1
    else if cs == CS_CK_8 then 8
    else if cs == CS_CK_64 then 64
    else if cs == CS_CK_256 then 256
    else 1024
  }

  /** The three clock select bits of a value. */
  function ClockSelect(val: byte): nat {
    val % 8
  }

  function Install(c: Core, cb: Callback): Core
  {
    c.(list := Add(c.list, cb, None), made := c.made + 1)
  }

  /** A clock selection sets the divisor, and installs a callback if none is noted as installed. */
  function Apply(c: Core, w: RegWrite): Applied {
    match w
    case NoWrite => Applied(c)
    case WriteTcnt(val) => Applied(c.(t := c.t.(tcnt := val)))
    case OtherInstalls => Applied(Install(c, Other(c.made)))
    case WriteTccr(val) =>
      var cs := ClockSelect(val);
      if cs == CS_STOP then Applied(c.(t := c.t.(tccr := cs, live := false, divisor := 0)))
      else if cs > CS_CK_1024 then Stopped
      else
        var t: Timer := c.t.(tccr := cs, divisor := DivisorOf(cs), live := true);
        Applied((if c.t.live then c else Install(c, Own(c.made))).(t := t))
  }

  function Clocks(c: Core, n: nat, others: TimedOthers): Core {
    var v := ClockLoop(c.list, Visits(others), c.t, c.ck, n);
    c.(t := v.state, list := v.kept, ck := c.ck + n)
  }

  /**
   One step: an instruction with at most one such write, then its clocks, then the asynchronous
   callbacks, of which that of the timer interrupts may raise the overflow interrupt and clear its flag.
   */
  datatype Step = Step(w: RegWrite, clocks: nat, others: TimedOthers, served: bool)

  function Serve(c: Core, served: bool): Core {
    if served then c.(t := c.t.(tov := false)) else c
  }

  /** An instruction that writes a register takes at least one clock. */
  predicate Possible(s: Step) {
    s.w != NoWrite ==> s.clocks > 0
  }

  function Perform(c: Core, s: Step): Applied {
    var r := Apply(c, s.w);
    if r.Applied? then Applied(Serve(Clocks(r.core, s.clocks, s.others), s.served)) else Stopped
  }

  function PerformAll(c: Core, steps: seq<Step>): Applied
    decreases |steps|
  {
    if steps == [] then Applied(c)
    else
      var r := Perform(c, steps[0]);
      if r.Applied? then PerformAll(r.core, steps[1..]) else Stopped
  }

  /** What holds between steps. */
  ghost predicate OneCallback(c: Core) {
    Sound(c.list, c.made) && Copies(c.list) == if c.t.live then 1 else 0
  }

  /** A write adds a callback of the timer exactly if it starts a timer that is not running. */
  lemma ApplyCopies(c: Core, w: RegWrite)
    requires Sound(c.list, c.made) && Apply(c, w).Applied?
    ensures var c' := Apply(c, w).core;
            Sound(c'.list, c'.made) && c'.ck == c.ck
            && Copies(c'.list) == Copies(c.list) + if !c.t.live && c'.t.live then 1 else 0
  {
    if w.OtherInstalls? {
      Appended(c.list, c.made, Other(c.made));
    } else if w.WriteTccr? && !c.t.live {
      Appended(c.list, c.made, Own(c.made));
    }
  }

  /** Clocks leave a running timer its callbacks, and even one takes all of them from a stopped timer. */
  lemma ClocksCopies(c: Core, n: nat, others: TimedOthers)
    requires Sound(c.list, c.made)
    ensures var c' := Clocks(c, n, others);
            Sound(c'.list, c'.made) && c'.t.live == c.t.live
            && Copies(c'.list) <= Copies(c.list)
            && (c.t.live || n == 0 ==> Copies(c'.list) == Copies(c.list))
            && (!c.t.live && n > 0 ==> Copies(c'.list) == 0)
  {
    LoopOnlyDrops(c.list, Visits(others), c.t, c.ck, n);
    if c.t.live {
      CountsMultiples(c.list, others, c.t, c.ck, n);
    } else {
      StoppedStays(c.list, others, c.t, c.ck, n);
    }
  }

  lemma PerformKeeps(c: Core, s: Step)
    requires OneCallback(c) && Possible(s) && Perform(c, s).Applied?
    ensures OneCallback(Perform(c, s).core)
  {
    ApplyCopies(c, s.w);
    ClocksCopies(Apply(c, s.w).core, s.clocks, s.others);
  }

  /** At the end of every step of every run, a running timer has one callback in the clock list and a stopped one has none. */
  lemma {:induction false} RunKeeps(c: Core, steps: seq<Step>)
    requires OneCallback(c) && PerformAll(c, steps).Applied?
    requires forall i :: 0 <= i < |steps| ==> Possible(steps[i])
    ensures OneCallback(PerformAll(c, steps).core)
    decreases |steps|
  {
    if steps != [] {
      PerformKeeps(c, steps[0]);
      RunKeeps(Perform(c, steps[0]).core, steps[1..]);
    }
  }

  /**
   Between writes a timer with divisor d, over the clocks c.ck up to c.ck + n, counts
   ceil((ck + n) / d) - ceil(ck / d) modulo 256, and the overflow flag is set if it was or if the
   count passed 255. A stopped timer keeps its registers.
   */
  lemma CountsEachClockOnce(c: Core, n: nat, others: TimedOthers)
    requires OneCallback(c)
    ensures var t' := Clocks(c, n, others).t;
            if c.t.live then
              var counted := Ceil(c.ck + n, c.t.divisor) - Ceil(c.ck, c.t.divisor);
              && t'.tcnt == (c.t.tcnt + counted) % 256
              && (t'.tov <==> c.t.tov || c.t.tcnt + counted >= 256)
              && t' == c.t.(tcnt := t'.tcnt, tov := t'.tov)
            else t' == c.t
  {
    if c.t.live {
      CountsMultiples(c.list, others, c.t, c.ck, n);
    } else {
      StoppedStays(c.list, others, c.t, c.ck, n);
    }
  }

  /**
   After a write of val to the clock select register, n clocks count once for each multiple of 1, 8, 64,
   256 or 1024 among them, for selections 1 to 5, and not at all for selection 0; 6 and 7 stop the simulator.
   */
  lemma SelectedCounts(c: Core, val: byte, n: nat, others: TimedOthers)
    requires OneCallback(c)
    ensures var r, s := Apply(c, RegWrite.WriteTccr(val)), val % 8;
            if s > 5 then r == Stopped
            else
              var d := [0, 1, 8, 64, 256, 1024][s];
              var counted := if s == 0 then 0 else (c.ck + n + d - 1) / d - (c.ck + d - 1) / d;
              r.Applied? && Clocks(r.core, n, others).t.tcnt == (c.t.tcnt + counted) % 256
  {
    var r := Selected(c, val);
    if r.Applied? && r.core.t.live {
      CountsEachClockOnce(r.core, n, others);
    } else if r.Applied? {
      StoppedStays(r.core.list, others, r.core.t, r.core.ck, n);
    }
  }

  lemma Selected(c: Core, val: byte) returns (r: Applied)
    requires OneCallback(c)
    ensures r == Apply(c, RegWrite.WriteTccr(val)) && (r == Stopped <==> val % 8 > 5)
    ensures r.Applied? ==>
              && Sound(r.core.list, r.core.made) && r.core.ck == c.ck && r.core.t.tcnt == c.t.tcnt
              && (r.core.t.live <==> val % 8 > 0)
              && (r.core.t.live ==> OneCallback(r.core) && r.core.t.divisor == [0, 1, 8, 64, 256, 1024][val % 8])
  {
    r := Apply(c, RegWrite.WriteTccr(val));
    if r.Applied? {
      ApplyCopies(c, RegWrite.WriteTccr(val));
    }
  }

  /** A running timer given a count goes on from it, and serving its interrupt clears the overflow flag. */
  lemma WrittenCounts(c: Core, val: byte, n: nat, others: TimedOthers, served: bool)
    requires OneCallback(c) && c.t.live && n > 0
    ensures var r, d := Perform(c, Step(RegWrite.WriteTcnt(val), n, others, served)), c.t.divisor;
            var counted := (c.ck + n + d - 1) / d - (c.ck + d - 1) / d;
            && r.Applied? && r.core.t.tcnt == (val + counted) % 256
            && (r.core.t.tov <==> !served && (c.t.tov || val + counted >= 256))
  {
    CountsEachClockOnce(c.(t := c.t.(tcnt := val)), n, others);
  }

  /** The step does not write a register of the timer. */
  predicate Quiet(s: Step) {
    Possible(s) && (s.w == NoWrite || s.w == OtherInstalls)
  }

  ghost predicate AllQuiet(steps: seq<Step>) {
    forall s :: s in steps ==> Quiet(s)
  }

  /** The clocks of all steps. */
  function TotalClocks(steps: seq<Step>): nat {
    if steps == [] then 0 else steps[0].clocks + TotalClocks(steps[1..])
  }

  predicate SomeServed(steps: seq<Step>) {
    exists i :: 0 <= i < |steps| && steps[i].served
  }

  lemma {:induction false} MultiplesAdd(c: nat, n: nat, k: nat, d: nat)
    requires d > 0
    ensures MultiplesIn(c, n, d) + MultiplesIn(c + n, k, d) == MultiplesIn(c, n + k, d)
  {
    CeilGrows(c, n, d);
    CeilGrows(c + n, k, d);
  }

  /** What a timer counts over n clocks from count c on. */
  function CountedIn(t: Timer, c: nat, n: nat): nat {
    if t.live then MultiplesIn(c, n, t.divisor) else 0
  }

  /** The timer apart from its overflow flag, if that was served. */
  function Unserved(t: Timer, served: bool): Timer {
    if served then t.(tov := false) else t
  }

  /** From t to t' so much was counted; the overflow flag is known unless it was served. */
  predicate Counted(t: Timer, t': Timer, n: nat, served: bool) {
    Unserved(t', served) == Unserved(Bump(t, n), served)
  }

  lemma CountedThen(t: Timer, t1: Timer, t2: Timer, a: nat, b: nat, served: bool, later: bool)
    requires Counted(t, t1, a, served) && Counted(t1, t2, b, later)
    ensures Counted(t, t2, a + b, served || later)
  {
    BumpTwice(t, a, b);
  }

  lemma QuietApply(c: Core, w: RegWrite) returns (c1: Core)
    requires OneCallback(c) && (w == NoWrite || w == OtherInstalls)
    ensures Apply(c, w) == Applied(c1) && OneCallback(c1) && c1.t == c.t && c1.ck == c.ck
  {
    ApplyCopies(c, w);
    c1 := Apply(c, w).core;
  }

  lemma ClocksCount(c: Core, n: nat, others: TimedOthers)
    requires OneCallback(c)
    ensures Clocks(c, n, others).t == Bump(c.t, CountedIn(c.t, c.ck, n))
    ensures Clocks(c, n, others).ck == c.ck + n
  {
    if c.t.live {
      CountsMultiples(c.list, others, c.t, c.ck, n);
    } else {
      StoppedStays(c.list, others, c.t, c.ck, n);
      assert Bump(c.t, 0) == c.t;
    }
  }

  /** The machine after the first step. */
  lemma QuietFirst(c: Core, steps: seq<Step>) returns (c1: Core)
    requires OneCallback(c) && AllQuiet(steps) && steps != []
    ensures OneCallback(c1) && AllQuiet(steps[1..]) && c1.ck == c.ck + steps[0].clocks && PerformAll(c, steps) == PerformAll(c1, steps[1..])
    ensures Counted(c.t, c1.t, CountedIn(c.t, c.ck, steps[0].clocks), steps[0].served)
  {
    var s := steps[0];
    assert s in steps;
    var c0 := QuietApply(c, s.w);
    ClocksCount(c0, s.clocks, s.others);
    PerformKeeps(c, s);
    c1 := Serve(Clocks(c0, s.clocks, s.others), s.served);
  }

  lemma CountedAdd(t: Timer, t1: Timer, c: nat, n: nat, k: nat)
    requires t1.live == t.live && t1.divisor == t.divisor
    ensures CountedIn(t, c, n) + CountedIn(t1, c + n, k) == CountedIn(t, c, n + k)
  {
    if t.live {
      MultiplesAdd(c, n, k, t.divisor);
    }
  }

  /** What a quiet step leaves. */
  predicate StepCounted(c: Core, s: Step, c': Core) {
    c'.ck == c.ck + s.clocks && Counted(c.t, c'.t, CountedIn(c.t, c.ck, s.clocks), s.served)
  }

  ghost predicate Trace(cs: seq<Core>, steps: seq<Step>) {
    |cs| == |steps| + 1 && forall i :: 0 <= i < |steps| ==> StepCounted(cs[i], steps[i], cs[i + 1])
  }

  /** The machines between the steps. */
  lemma {:induction false} QuietTrace(c: Core, steps: seq<Step>) returns (cs: seq<Core>)
    requires OneCallback(c) && AllQuiet(steps)
    ensures Trace(cs, steps) && cs[0] == c && PerformAll(c, steps) == Applied(cs[|steps|])
    decreases |steps|
  {
    if steps == [] {
      cs := [c];
    } else {
      var c1 := QuietFirst(c, steps);
      var rest := QuietTrace(c1, steps[1..]);
      cs := [c] + rest;
      forall i | 0 <= i < |steps| ensures StepCounted(cs[i], steps[i], cs[i + 1]) {
        assert i > 0 ==> StepCounted(rest[i - 1], steps[1..][i - 1], rest[i]);
      }
    }
  }

  lemma TraceTail(cs: seq<Core>, steps: seq<Step>)
    requires Trace(cs, steps) && steps != []
    ensures Trace(cs[1..], steps[1..])
  {
    forall i | 0 <= i < |steps| - 1 ensures StepCounted(cs[1..][i], steps[1..][i], cs[1..][i + 1]) {
      var j := i + 1;
      assert StepCounted(cs[j], steps[j], cs[j + 1]);
    }
  }

  lemma StepThenRest(c: Core, s: Step, c1: Core, end: Core, k: nat, later: bool)
    requires StepCounted(c, s, c1) && Counted(c1.t, end.t, CountedIn(c1.t, c1.ck, k), later)
    ensures Counted(c.t, end.t, CountedIn(c.t, c.ck, s.clocks + k), s.served || later)
  {
    CountedAdd(c.t, c1.t, c.ck, s.clocks, k);
    CountedThen(c.t, c1.t, end.t, CountedIn(c.t, c.ck, s.clocks), CountedIn(c1.t, c1.ck, k), s.served, later);
  }

  lemma {:induction false} TraceCounts(cs: seq<Core>, steps: seq<Step>)
    requires Trace(cs, steps)
    ensures Counted(cs[0].t, cs[|steps|].t, CountedIn(cs[0].t, cs[0].ck, TotalClocks(steps)), SomeServed(steps))
    decreases |steps|
  {
    if steps != [] {
      var rest := steps[1..];
      assert StepCounted(cs[0], steps[0], cs[1]);
      TraceTail(cs, steps);
      TraceCounts(cs[1..], rest);
      ServedLater(steps);
      StepThenRest(cs[0], steps[0], cs[1], cs[|steps|], TotalClocks(rest), SomeServed(rest));
    }
  }

  /**
   Over any number of steps without writes to the timer, taking n clocks from count c on, TCNT of a
   running timer advances by ceil((c + n) / d) - ceil(c / d) modulo 256, whatever happens to its
   overflow flag; and if the flag is not served meanwhile it is set at the end exactly if it was at the
   start or the sum reached 256. A stopped timer keeps its count.
   */
  lemma RunCountsEachClockOnce(c: Core, steps: seq<Step>) returns (end: Core)
    requires OneCallback(c) && AllQuiet(steps)
    ensures PerformAll(c, steps) == Applied(end)
    ensures var n := CountedIn(c.t, c.ck, TotalClocks(steps));
            && end.t.live == c.t.live && end.t.divisor == c.t.divisor
            && end.t.tcnt == (c.t.tcnt + n) % 256
            && (!SomeServed(steps) ==> (end.t.tov <==> c.t.tov || c.t.tcnt + n >= 256))
  {
    var cs := QuietTrace(c, steps);
    TraceCounts(cs, steps);
    end := cs[|steps|];
  }

  lemma ServedLater(steps: seq<Step>)
    requires steps != []
    ensures SomeServed(steps) <==> steps[0].served || SomeServed(steps[1..])
  {
    if i :| 0 < i < |steps| && steps[i].served {
      assert steps[1..][i - 1].served;
    }
    if i :| 0 <= i < |steps[1..]| && steps[1..][i].served {
      assert steps[i + 1].served;
    }
  }

  // ----- without the rule that a write is followed by a clock -----

  datatype Event = Write(w: RegWrite) | Tick(others: TimedOthers)

  function Happen(c: Core, e: Event): Applied {
    match e
    case Write(w) => Apply(c, w)
    case Tick(others) => Applied(Clocks(c, 1, others))
  }

  /** What the events so far say of the timer: it runs, was stopped with no clock since, or has been stopped for a clock. */
  datatype Phase = Runs | JustStopped | Off

  predicate Selects(e: Event) {
    e.Write? && e.w.WriteTccr?
  }

  predicate Starts(e: Event) {
    Selects(e) && CS_CK <= ClockSelect(e.w.val) <= CS_CK_1024
  }

  predicate Stops(e: Event) {
    Selects(e) && ClockSelect(e.w.val) == CS_STOP
  }

  /** Selecting an external clock source ends the run: the simulator stops. */
  predicate Breaks(e: Event) {
    Selects(e) && ClockSelect(e.w.val) > CS_CK_1024
  }

  function NextPhase(p: Phase, e: Event): Phase {
    if Starts(e) then Runs
    else if Stops(e) && p == Runs then JustStopped
    else if e.Tick? && p == JustStopped then Off
    else p
  }

  /** Among the events is a start that follows a stop of the running timer with no clock between. */
  predicate Restarts(p: Phase, events: seq<Event>)
    decreases |events|
  {
    events != [] && !Breaks(events[0]) &&
    ((p == JustStopped && Starts(events[0])) || Restarts(NextPhase(p, events[0]), events[1..]))
  }

  /** The phase in which the machine is. */
  function PhaseOf(c: Core): Phase {
    if c.t.live then Runs else if Copies(c.list) > 0 then JustStopped else Off
  }

  /** Throughout the run the timer has at most one callback listed. */
  predicate NeverTwo(c: Core, events: seq<Event>)
    decreases |events|
  {
    Copies(c.list) <= 1 &&
    (events == [] ||
     var r := Happen(c, events[0]);
     r.Applied? ==> NeverTwo(r.core, events[1..]))
  }

  ghost predicate AtMostOne(c: Core) {
    Sound(c.list, c.made) && Copies(c.list) <= 1 && (c.t.live ==> Copies(c.list) == 1)
  }

  /** Two callbacks of the timer are listed at some point of a run exactly if it restarts with no clock since the stop. */
  lemma {:induction false} TwoCallbacksIff(c: Core, events: seq<Event>)
    requires AtMostOne(c)
    ensures NeverTwo(c, events) <==> !Restarts(PhaseOf(c), events)
    decreases |events|
  {
    if events != [] {
      var e := events[0];
      var r := Happen(c, e);
      assert r.Applied? <==> !Breaks(e);
      if r.Applied? {
        EventCopies(c, e);
        if PhaseOf(c) == JustStopped && Starts(e) {
          assert Copies(r.core.list) == 2;
          assert !NeverTwo(r.core, events[1..]);
        } else {
          TwoCallbacksIff(r.core, events[1..]);
        }
      }
    }
  }

  lemma EventCopies(c: Core, e: Event)
    requires AtMostOne(c) && Happen(c, e).Applied?
    ensures var c' := Happen(c, e).core;
            if PhaseOf(c) == JustStopped && Starts(e) then Copies(c'.list) == 2
            else AtMostOne(c') && PhaseOf(c') == NextPhase(PhaseOf(c), e)
  {
    match e
    case Write(w) => ApplyCopies(c, w);
    case Tick(others) => ClocksCopies(c, 1, others);
  }

  /** A running timer that is stopped and started with no clock between. */
  function Restarted(c: Core): (c': Core)
    ensures c'.ck == c.ck && c'.t == c.t.(tccr := 1, divisor := 1, live := true)
  {
    Apply(Apply(c, WriteTccr(0)).core, WriteTccr(1)).core
  }

  lemma RestartedCopies(c: Core)
    requires OneCallback(c) && c.t.live
    ensures Sound(Restarted(c).list, Restarted(c).made) && Copies(Restarted(c).list) == 2
  {
    ApplyCopies(c, WriteTccr(0));
    ApplyCopies(Apply(c, WriteTccr(0)).core, WriteTccr(1));
  }

  lemma EveryClockIsMultipleOfOne(ck: nat)
    ensures MultiplesIn(ck, 1, 1) == 1
  {
    CeilNext(ck, 1);
  }

  /** It counts twice at the next clock. */
  lemma StopStartCountsTwice(c: Core, others: TimedOthers)
    requires OneCallback(c) && c.t.live
    ensures Clocks(Restarted(c), 1, others).t.tcnt == (c.t.tcnt + 2) % 256
  {
    var c' := Restarted(c);
    RestartedCopies(c);
    CountsMultiples(c'.list, others, c'.t, c.ck, 1);
    EveryClockIsMultipleOfOne(c.ck);
  }
}
