/**
 Timer/counter 0: its clock select register, its callback in the clock list, and what it counts.
 */
module TimerCounter0 {
  import opened Bytes
  import opened Bitwise
  import opened ListSpec
  import opened Clock
  import opened OwnCallback

  const CS_STOP := 0
  const CS_CK := 1
  const CS_CK_8 := 2
  const CS_CK_64 := 3
  const CS_CK_256 := 4
  const CS_CK_1024 := 5

  predicate IsDivisor(d: nat) {
    d == 1 || d == 8 || d == 64 || d == 256 || d == 1024
  }

  /** The registers; live means a clock callback is installed. tov is the overflow flag in TIFR. */
  datatype Registers = Registers(tcnt: byte, tccr: byte, divisor: nat, live: bool, tov: bool)

  /** A live timer has one of the five divisors, so the bad divisor error cannot come up. */
  type Timer = t: Registers | t.live ==> IsDivisor(t.divisor) witness Registers(0, 0, 0, false, false)

  // ----- counting -----

  /** The prescaler's test: no bit of ck below the divisor is set. */
  predicate Hit(ck: nat, divisor: nat)
    requires divisor > 0
  {
    And(ck, divisor - 1) == 0
  }

  /** The bitwise test is divisibility. */
  lemma HitIsMultiple(ck: nat, divisor: nat)
    requires IsDivisor(divisor)
    ensures Hit(ck, divisor) <==> ck % divisor == 0
  {
    var k := if divisor == 1 then 0 else if divisor == 8 then 3 else if divisor == 64 then 6
             else if divisor == 256 then 8 else 10;
    Pow2Values();
    AndLowMask(ck, k);
  }

  /** The timer's callback. It asks for its removal when the timer has been stopped. */
  function Increment(t: Timer, ck: nat): (bool, Timer) {
    if !t.live then (true, t)
    else
      var tcnt := if Hit(ck, t.divisor) then (t.tcnt + 1) % 256 else t.tcnt;
      (false, t.(tcnt := tcnt, tov := t.tov || (tcnt == 0 && tcnt != t.tcnt)))
  }

  /** Which of the others' callbacks ask for removal, at each count. */
  type TimedOthers = nat -> Others

  function VisitAt(others: TimedOthers, ck: nat): Visit<Callback, Timer> {
    Visiting((t: Timer) => Increment(t, ck), others(ck))
  }

  function Visits(others: TimedOthers): TimedVisit<Callback, Timer> {
    (ck: nat) => VisitAt(others, ck)
  }

  /** n counts more, wrapping at 256. */
  function Bump(t: Timer, n: nat): Timer {
    t.(tcnt := (t.tcnt + n) % 256, tov := t.tov || t.tcnt + n >= 256)
  }

  lemma BumpTwice(t: Timer, a: nat, b: nat)
    ensures Bump(Bump(t, a), b) == Bump(t, a + b)
  {
    var sum := t.tcnt + a;
    Division(sum, 256);
    Division(sum + b, 256);
    Division(sum % 256 + b, 256);
  }

  lemma IncrementBumps(t: Timer, ck: nat)
    requires t.live
    ensures Increment(t, ck) == (false, Bump(t, if ck % t.divisor == 0 then 1 else 0))
  {
    HitIsMultiple(ck, t.divisor);
  }

  /** At one clock every callback the timer has in the list counts. */
  lemma {:induction false} ClockCounts(list: seq<Callback>, others: TimedOthers, t: Timer, ck: nat, hit: bool)
    requires t.live && (hit <==> ck % t.divisor == 0)
    ensures var v := Filter(list, VisitAt(others, ck), t);
            Copies(v.kept) == Copies(list) && v.state == Bump(t, if hit then Copies(list) else 0)
  {
    if list != [] {
      IncrementBumps(t, ck);
      var (remove, t1) := VisitAt(others, ck)(list[0], t);
      ClockCounts(list[1..], others, t1, ck, hit);
      var rest := Filter(list[1..], VisitAt(others, ck), t1);
      var one, more := if hit && list[0].Own? then 1 else 0, if hit then Copies(list[1..]) else 0;
      assert t1 == Bump(t, one);
      BumpTwice(t, one, more);
      CopiesCons(list[0], rest.kept);
    }
  }

  /** At one clock a stopped timer loses its callbacks and does not count. */
  lemma {:induction false} ClockClears(list: seq<Callback>, others: TimedOthers, t: Timer, ck: nat)
    requires !t.live
    ensures Copies(Filter(list, VisitAt(others, ck), t).kept) == 0 && Filter(list, VisitAt(others, ck), t).state == t
  {
    if list != [] {
      var cb := list[0];
      assert cb.Own? ==> VisitAt(others, ck)(cb, t) == Increment(t, ck);
      assert Increment(t, ck) == (true, t);
      assert !cb.Own? ==> VisitAt(others, ck)(cb, t) == (others(ck)(cb), t);
      ClockClears(list[1..], others, t, ck);
      CopiesCons(list[0], Filter(list[1..], VisitAt(others, ck), t).kept);
    }
  }

  /** a divided by d, rounded up. */
  function Ceil(a: nat, d: nat): nat
    requires d > 0
  {
    (a + d - 1) / d
  }

  lemma CeilNext(a: nat, d: nat)
    requires d > 0
    ensures Ceil(a + 1, d) == Ceil(a, d) + if a % d == 0 then 1 else 0
  {
    Division(a, d);
    CeilIs(a, d, a / d, a % d);
  }

  lemma CeilIs(a: nat, d: nat, q: nat, r: nat)
    requires a == d * q + r && r < d
    ensures Ceil(a, d) == if r == 0 then q else q + 1
    ensures Ceil(a + 1, d) == q + 1
  {
    var next := d * (q + 1);
    assert next == d * q + d;
    DivModUnique(a + d, d, q + 1, r);
    if r == 0 {
      DivModUnique(a + d - 1, d, q, d - 1);
    } else {
      DivModUnique(a + d - 1, d, q + 1, r - 1);
    }
  }

  lemma {:induction false} CeilGrows(a: nat, n: nat, d: nat)
    requires d > 0
    ensures Ceil(a + n, d) >= Ceil(a, d)
    decreases n
  {
    if n > 0 {
      CeilNext(a, d);
      CeilGrows(a + 1, n - 1, d);
    }
  }

  /** The multiples of d from c on, up to but not including c + n. */
  function MultiplesIn(c: nat, n: nat, d: nat): nat
    requires d > 0
  {
    CeilGrows(c, n, d);
    Ceil(c + n, d) - Ceil(c, d)
  }

  lemma MultiplesNext(ck: nat, n: nat, d: nat)
    requires n > 0 && d > 0
    ensures MultiplesIn(ck, n, d) == (if ck % d == 0 then 1 else 0) + MultiplesIn(ck + 1, n - 1, d)
  {
    CeilNext(ck, d);
  }

  lemma BumpsAddUp(t: Timer, copies: nat, hit: nat, rest: nat)
    requires hit <= 1
    ensures Bump(Bump(t, if hit == 1 then copies else 0), copies * rest) == Bump(t, copies * (hit + rest))
  {
    var more := copies * rest;
    assert copies * (1 + rest) == copies + more;
    BumpTwice(t, if hit == 1 then copies else 0, more);
  }

  /**
   Over n clocks without register writes a live timer counts each multiple of its divisor, once for
   every callback it has in the list, and sets the overflow flag exactly when the count passes 255.
   */
  lemma {:induction false} CountsMultiples(list: seq<Callback>, others: TimedOthers, t: Timer, ck: nat, n: nat)
    requires Distinct(list) && t.live
    ensures var v := ClockLoop(list, Visits(others), t, ck, n);
            && v.state == Bump(t, Copies(list) * MultiplesIn(ck, n, t.divisor))
            && Copies(v.kept) == Copies(list) && Distinct(v.kept)
    decreases n
  {
    var d, copies := t.divisor, Copies(list);
    if n == 0 {
      assert Bump(t, 0) == t;
    } else {
      OneClock(list, VisitAt(others, ck), t);
      ClockCounts(list, others, t, ck, ck % d == 0);
      var v := Filter(list, VisitAt(others, ck), t);
      CountsMultiples(v.kept, others, v.state, ck + 1, n - 1);
      MultiplesNext(ck, n, d);
      BumpsAddUp(t, copies, if ck % d == 0 then 1 else 0, MultiplesIn(ck + 1, n - 1, d));
    }
  }

  /** After the first clock a stopped timer has no callback left, and it never counts. */
  lemma {:induction false} StoppedStays(list: seq<Callback>, others: TimedOthers, t: Timer, ck: nat, n: nat)
    requires Distinct(list) && !t.live
    ensures var v := ClockLoop(list, Visits(others), t, ck, n);
            v.state == t && Distinct(v.kept) && (n > 0 || Copies(list) == 0 ==> Copies(v.kept) == 0)
    decreases n
  {
    if n > 0 {
      OneClock(list, VisitAt(others, ck), t);
      ClockClears(list, others, t, ck);
      StoppedStays(Filter(list, VisitAt(others, ck), t).kept, others, t, ck + 1, n - 1);
    }
  }
}
