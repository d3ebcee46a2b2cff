/**
 Timer 0 and the clock loop in the simulator's own form.
 */
module TimerCore {
  import opened Bytes
  import opened Bitwise
  import opened ListSpec
  import opened Clock
  import opened OwnCallback
  import DList
  import opened TimerCounter0
  import opened TimerRuns
  import opened Wrappers

  class Machine {
    var tcnt: byte
    var tccr: byte
    var divisor: nat
    var clkCb: bool
    var tov: bool
    const clkList: DList.List<Callback>
    var made: nat
    var ck: nat
    var instCks: int

    ghost predicate Valid()
      reads this, clkList, clkList.nodes
    {
      TimerValid() && clkList.Valid()
    }

    ghost predicate TimerValid()
      reads this
    {
      clkCb ==> IsDivisor(divisor)
    }

    ghost function TimerState(): Timer
      requires TimerValid()
      reads this
    {
      Registers(tcnt, tccr, divisor, clkCb, tov)
    }

    ghost function State(): Core
      requires TimerValid()
      reads this, clkList
    {
      Core(TimerState(), clkList.contents, made, ck)
    }

    constructor ()
      ensures Valid() && State() == Core(Registers(0, 0, 0, false, false), [], 0, 0) && instCks == 0
      ensures fresh(clkList)
    {
      tcnt, tccr, divisor, clkCb, tov := 0, 0, 0, false, false;
      made, ck, instCks := 0, 0, 0;
      clkList := new DList.List<Callback>();
    }

    method WriteTcnt(val: byte)
      requires Valid()
      modifies `tcnt
      ensures Valid() && Applied(State()) == Apply(old(State()), RegWrite.WriteTcnt(val))
    {
      tcnt := val;
    }

    /** Write the clock select register; false where the simulator stops. */
    method WriteTccr(val: byte) returns (ok: bool)
      requires Valid()
      modifies `tccr, `divisor, `clkCb, `made, clkList, clkList.nodes
      ensures ok ==> Valid() && Applied(State()) == Apply(old(State()), RegWrite.WriteTccr(val))
      ensures !ok ==> Apply(old(State()), RegWrite.WriteTccr(val)) == Stopped
      ensures forall n :: n in clkList.nodes ==> n in old(clkList.nodes) || fresh(n)
    {
      tccr := ClockSelect(val);
      match tccr {
        case 0 =>
          clkCb := false;
          divisor := 0;
          return true;
        case 1 => divisor := 1;
        case 2 => divisor := 8;
        case 3 => divisor := 64;
        case 4 => divisor := 256;
        case 5 => divisor := 1024;
        case _ => return false;
      }
      Install();
      ok := true;
    }

    /** The callback is installed unless it is thought to be. */
    method Install()
      requires clkList.Valid() && IsDivisor(divisor)
      modifies `clkCb, `made, clkList, clkList.nodes
      ensures clkCb && clkList.Valid() && forall n :: n in clkList.nodes ==> n in old(clkList.nodes) || fresh(n)
      ensures clkList.contents == if old(clkCb) then old(clkList.contents) else Add(old(clkList.contents), Own(old(made)), None)
      ensures made == if old(clkCb) then old(made) else old(made) + 1
    {
      if !clkCb {
        clkCb := true;
        clkList.Add(Own(made), None);
        made := made + 1;
      }
    }

    /** The timer's callback; the result asks for its removal. */
    method ClkIncrCb(time: nat) returns (remove: bool)
      requires TimerValid()
      modifies `tcnt, `tov
      ensures TimerValid() && (remove, TimerState()) == Increment(old(TimerState()), time)
    {
      var last := tcnt;
      if !clkCb {
        return true;
      }
      if And(time, divisor - 1) == 0 {
        tcnt := (tcnt + 1) % 256;
      }
      if tcnt == 0 && tcnt != last {
        tov := true;
      }
      remove := false;
    }

    /** Run one listed callback: the timer's own or another's. */
    method Execute(cb: Callback, others: TimedOthers) returns (remove: bool)
      requires TimerValid()
      modifies `tcnt, `tov
      ensures TimerValid() && (remove, TimerState()) == VisitAt(others, ck)(cb, old(TimerState()))
    {
      if cb.Own? {
        remove := ClkIncrCb(ck);
      } else {
        remove := others(ck)(cb);
      }
    }

    /** Execute the callback of one node, unlink it if asked to, and move on to the node after it. */
    method ExecuteNode(node: DList.Node<Callback>, others: TimedOthers, ghost done: seq<Callback>, ghost todo: seq<Callback>,
                       ghost all: set<DList.Node<Callback>>)
      returns (next: DList.Node?<Callback>, ghost done': seq<Callback>)
      requires Valid() && clkList.Within(all) && clkList.contents == done + todo && todo != [] && node == clkList.nodes[|done|]
      modifies `tcnt, `tov, clkList, clkList.nodes
      ensures Valid() && clkList.Within(all) && clkList.contents == done' + todo[1..] && next == clkList.NodeAt(|done'|)
      ensures Iterate(done, todo, VisitAt(others, ck), old(TimerState())) == Iterate(done', todo[1..], VisitAt(others, ck), TimerState())
    {
      var cb := node.data;
      assert cb == clkList.contents[|done|] == todo[0];
      var remove := Execute(cb, others);
      if remove {
        done' := KeptAfterRemoval(done, todo[0]);
        clkList.RemoveVisited(node, done, todo, all);
      } else {
        done' := done + [todo[0]];
        assert todo == [todo[0]] + todo[1..];
        DList.Regroup(done, todo[0], todo[1..]);
      }
      next := node.next;
    }

    /** Run every listed callback once, from the head of the list on, unlinking those that ask for it. */
    method ClkCbExec(others: TimedOthers, ghost all: set<DList.Node<Callback>>)
      requires Valid() && clkList.Within(all)
      modifies `tcnt, `tov, clkList, all
      ensures Valid() && clkList.Within(all)
      ensures Visited(clkList.contents, TimerState()) == Iterate([], old(clkList.contents), VisitAt(others, ck), old(TimerState()))
    {
      var node := clkList.head;
      ghost var visit := VisitAt(others, ck);
      ghost var done, todo: seq<Callback> := [], clkList.contents;
      assert clkList.contents == [] + clkList.contents;
      while node != null
        invariant Valid() && clkList.contents == done + todo
        invariant clkList.Within(all)
        invariant node == clkList.NodeAt(|done|)
        invariant Iterate(done, todo, visit, TimerState()) == Iterate([], old(clkList.contents), visit, old(TimerState()))
        decreases |todo|
      {
        node, done := ExecuteNode(node, others, done, todo, all);
        todo := todo[1..];
      }
      assert done + [] == done;
    }

    /** One clock, of which left are still to come. */
    method OneClock(others: TimedOthers, ghost left: nat, ghost all: set<DList.Node<Callback>>)
      requires Valid() && left > 0 && clkList.Within(all)
      modifies `tcnt, `tov, `ck, `instCks, clkList, all
      ensures clkList.Within(all)
      ensures Valid() && ck == old(ck) + 1 && instCks == old(instCks) - 1
      ensures ClockLoop(clkList.contents, Visits(others), TimerState(), ck, left - 1)
              == old(ClockLoop(clkList.contents, Visits(others), TimerState(), ck, left))
    {
      ClkCbExec(others, all);
      ck := ck + 1;
      instCks := instCks - 1;
    }

    /** The clocks of one step. */
    method PropagateClocks(others: TimedOthers)
      requires Valid()
      modifies `tcnt, `tov, `ck, `instCks, clkList, clkList.nodes
      ensures Valid()
      ensures State() == Clocks(old(State()), if old(instCks) > 0 then old(instCks) else 0, others)
      ensures instCks == if old(instCks) > 0 then 0 else old(instCks)
    {
      ghost var start := State();
      ghost var all := set n | n in clkList.nodes;
      ghost var left: nat := if instCks > 0 then instCks else 0;
      ghost var n := left;
      ghost var whole := ClockLoop(start.list, Visits(others), start.t, start.ck, n);
      while instCks > 0
        invariant Valid() && clkList.Within(all) && all == set n | n in old(clkList.nodes)
        invariant if n == 0 then instCks == old(instCks) && left == 0 else instCks == left
        invariant ck + left == start.ck + n
        invariant ClockLoop(clkList.contents, Visits(others), TimerState(), ck, left) == whole
        decreases left
      {
        OneClock(others, left, all);
        left := left - 1;
      }
    }
  }
}
