/**
 The clock of the simulator: for every clock an instruction took, the listed callbacks are run with
 the clock count, and the count goes up by one.
 */
module Clock {
  import opened ListSpec

  /** What the callbacks do at each clock count. */
  type TimedVisit<!T, !U> = nat -> Visit<T, U>

  /** n clocks, starting at count ck. */
  function ClockLoop<T(==), U>(list: seq<T>, visit: TimedVisit<T, U>, u: U, ck: nat, n: nat): Visited<T, U>
    decreases n
  {
    if n == 0 then Visited(list, u)
    else
      var v := Iterate([], list, visit(ck), u);
      ClockLoop(v.kept, visit, v.state, ck + 1, n - 1)
  }

  lemma {:induction false} FilterKeepsDistinct<T, U>(xs: seq<T>, visit: Visit<T, U>, u: U)
    requires Distinct(xs)
    ensures Distinct(Filter(xs, visit, u).kept)
    ensures forall x :: x in Filter(xs, visit, u).kept ==> x in xs
  {
    if xs != [] {
      var (remove, u') := visit(xs[0], u);
      var rest := Filter(xs[1..], visit, u').kept;
      FilterKeepsDistinct(xs[1..], visit, u');
      assert xs[0] !in rest by {
        assert forall i :: 0 <= i < |xs[1..]| ==> xs[1..][i] == xs[i + 1];
      }
    }
  }

  /** One clock over distinct callbacks: each runs once, in order, and the retained ones stay. */
  lemma OneClock<T, U>(list: seq<T>, visit: Visit<T, U>, u: U)
    requires Distinct(list)
    ensures Iterate([], list, visit, u) == Filter(list, visit, u)
    ensures Distinct(Filter(list, visit, u).kept)
  {
    assert [] + list == list;
    DistinctIsContiguous(list);
    IterateFilters([], list, visit, u);
    assert [] + Filter(list, visit, u).kept == Filter(list, visit, u).kept;
    FilterKeepsDistinct(list, visit, u);
  }

  /** Over any number of clocks the list stays distinct and gains nothing. */
  lemma {:induction false} LoopOnlyDrops<T, U>(list: seq<T>, visit: TimedVisit<T, U>, u: U, ck: nat, n: nat)
    requires Distinct(list)
    ensures Distinct(ClockLoop(list, visit, u, ck, n).kept)
    ensures forall x :: x in ClockLoop(list, visit, u, ck, n).kept ==> x in list
    decreases n
  {
    if n > 0 {
      OneClock(list, visit(ck), u);
      FilterKeepsDistinct(list, visit(ck), u);
      var v := Filter(list, visit(ck), u);
      LoopOnlyDrops(v.kept, visit, v.state, ck + 1, n - 1);
    }
  }

  // ----- every count is passed to every callback exactly once -----

  /** Who was run at which count. */
  type Log<T> = seq<(T, nat)>

  /** What the callbacks do, with every call logged. */
  function Logged<T, U>(visit: TimedVisit<T, U>): TimedVisit<T, (U, Log<T>)> {
    (ck: nat) => LoggedAt(visit(ck), ck)
  }

  function LoggedAt<T, U>(visit: Visit<T, U>, ck: nat): Visit<T, (U, Log<T>)> {
    (x: T, s: (U, Log<T>)) => (visit(x, s.0).0, (visit(x, s.0).1, s.1 + [(x, ck)]))
  }

  /** The counts at which x was run, in order. */
  function CallsOf<T(==)>(log: Log<T>, x: T): seq<nat> {
    if log == [] then []
    else CallsOf(log[..|log| - 1], x) + if log[|log| - 1].0 == x then [log[|log| - 1].1] else []
  }

  /** m counts from ck on. */
  function Counts(ck: nat, m: nat): (counts: seq<nat>)
    ensures |counts| == m
  {
    seq(m, i requires 0 <= i < m => ck + i)
  }

  lemma CallsOfMore<T>(log: Log<T>, y: T, ck: nat, x: T)
    ensures CallsOf(log + [(y, ck)], x) == CallsOf(log, x) + if y == x then [ck] else []
  {
    assert (log + [(y, ck)])[..|log|] == log;
  }

  lemma DistinctTail<T>(list: seq<T>)
    requires Distinct(list) && list != []
    ensures Distinct(list[1..]) && list[0] !in list[1..] && list == [list[0]] + list[1..]
  {
    assert forall i :: 0 <= i < |list[1..]| ==> list[1..][i] == list[i + 1];
  }

  /** At one clock a callback in the list is run once, and one that is not there is not run. */
  lemma {:induction false} OneClockLogs<T, U>(list: seq<T>, visit: Visit<T, U>, u: U, log: Log<T>, ck: nat, x: T)
    requires Distinct(list)
    ensures var v := Filter(list, LoggedAt(visit, ck), (u, log));
            CallsOf(v.state.1, x) == CallsOf(log, x) + if x in list then [ck] else []
  {
    if list == [] {
      assert CallsOf(log, x) + [] == CallsOf(log, x);
    } else {
      var y, rest, calls := list[0], list[1..], CallsOf(log, x);
      DistinctTail(list);
      CallsOfMore(log, y, ck, x);
      OneClockLogs(rest, visit, visit(y, u).1, log + [(y, ck)], ck, x);
      assert x in list <==> x == y || x in rest;
      assert calls + [] == calls && calls + [] + [ck] == calls + [ck];
    }
  }

  lemma CountsCons(ck: nat, m: nat, calls: seq<nat>)
    requires m > 0
    ensures calls + [ck] + Counts(ck + 1, m - 1) == calls + Counts(ck, m)
  {
    assert Counts(ck, m) == [ck] + Counts(ck + 1, m - 1);
  }

  lemma {:induction false} NotListedNotRun<T, U>(list: seq<T>, visit: TimedVisit<T, U>, u: U, log: Log<T>, ck: nat, n: nat, x: T)
    requires Distinct(list) && x !in list
    ensures CallsOf(ClockLoop(list, Logged(visit), (u, log), ck, n).state.1, x) == CallsOf(log, x)
    decreases n
  {
    if n > 0 {
      var v := Filter(list, LoggedAt(visit(ck), ck), (u, log));
      OneClock(list, LoggedAt(visit(ck), ck), (u, log));
      FilterKeepsDistinct(list, LoggedAt(visit(ck), ck), (u, log));
      OneClockLogs(list, visit(ck), u, log, ck, x);
      NotListedNotRun(v.kept, visit, v.state.0, v.state.1, ck + 1, n - 1, x);
    }
  }

  /** The first of n clocks. */
  lemma FirstClock<T, U>(list: seq<T>, visit: TimedVisit<T, U>, u: U, log: Log<T>, ck: nat, n: nat, x: T)
    returns (v: Visited<T, (U, Log<T>)>, calls: seq<nat>)
    requires Distinct(list) && x in list && n > 0
    ensures Distinct(v.kept) && calls == CallsOf(log, x) && CallsOf(v.state.1, x) == calls + [ck]
    ensures ClockLoop(list, Logged(visit), (u, log), ck, n) == ClockLoop(v.kept, Logged(visit), v.state, ck + 1, n - 1)
  {
    v, calls := Filter(list, LoggedAt(visit(ck), ck), (u, log)), CallsOf(log, x);
    OneClock(list, LoggedAt(visit(ck), ck), (u, log));
    OneClockLogs(list, visit(ck), u, log, ck, x);
  }

  /** Logging changes nothing else. */
  lemma {:induction false} LoggingIteratesSame<T, U>(done: seq<T>, todo: seq<T>, visit: Visit<T, U>, u: U, log: Log<T>, ck: nat)
    ensures var v := Iterate(done, todo, LoggedAt(visit, ck), (u, log));
            Visited(v.kept, v.state.0) == Iterate(done, todo, visit, u)
    decreases |todo|
  {
    if todo != [] {
      var (remove, u') := visit(todo[0], u);
      LoggingIteratesSame(if remove then KeptAfterRemoval(done, todo[0]) else done + [todo[0]], todo[1..],
                          visit, u', log + [(todo[0], ck)], ck);
    }
  }

  lemma {:induction false} LoggingLoopsSame<T, U>(list: seq<T>, visit: TimedVisit<T, U>, u: U, log: Log<T>, ck: nat, n: nat)
    ensures var v := ClockLoop(list, Logged(visit), (u, log), ck, n);
            Visited(v.kept, v.state.0) == ClockLoop(list, visit, u, ck, n)
    decreases n
  {
    if n > 0 {
      LoggingIteratesSame([], list, visit(ck), u, log, ck);
      var v := Iterate([], list, LoggedAt(visit(ck), ck), (u, log));
      LoggingLoopsSame(v.kept, visit, v.state.0, v.state.1, ck + 1, n - 1);
    }
  }

  /**
   Whatever the callbacks do, the loop runs each listed one at ck, ck + 1, and so on, every count
   exactly once, until it asks for its removal; one that is still listed was run at all n counts.
   m is the number of its calls.
   */
  lemma {:induction false} EachCountOnce<T, U>(list: seq<T>, visit: TimedVisit<T, U>, u: U, log: Log<T>, ck: nat, n: nat, x: T)
    returns (m: nat)
    requires Distinct(list) && x in list && n > 0
    ensures var v := ClockLoop(list, Logged(visit), (u, log), ck, n);
            && 1 <= m <= n && CallsOf(v.state.1, x) == CallsOf(log, x) + Counts(ck, m)
            && (x in v.kept ==> m == n)
    decreases n
  {
    var v, calls := FirstClock(list, visit, u, log, ck, n, x);
    assert Counts(ck, 1) == [ck];
    if n == 1 {
      m := 1;
    } else if x in v.kept {
      var rest := EachCountOnce(v.kept, visit, v.state.0, v.state.1, ck + 1, n - 1, x);
      m := rest + 1;
      CountsCons(ck, m, calls);
    } else {
      m := 1;
      NotListedNotRun(v.kept, visit, v.state.0, v.state.1, ck + 1, n - 1, x);
      LoopOnlyDrops(v.kept, Logged(visit), v.state, ck + 1, n - 1);
    }
  }
}
