/**
 A callback list seen by one peripheral: its own callback among those of others.
 */
module OwnCallback {
  import opened ListSpec
  import opened Clock
  import opened Wrappers

  datatype Callback = Own(id: nat) | Other(id: nat)

  /** Which of the others' callbacks ask for removal. They do not touch the peripheral's state. */
  type Others = Callback -> bool

  /** The peripheral's callback: whether to remove it, and the new state. */
  type Tick<!U> = U -> (bool, U)

  function Visiting<U>(own: Tick<U>, others: Others): Visit<Callback, U> {
    (cb: Callback, u: U) => if cb.Own? then own(u) else (others(cb), u)
  }

  /** Run every listed callback once. */
  function RunAll<U>(list: seq<Callback>, own: Tick<U>, others: Others, u: U): Visited<Callback, U> {
    Iterate([], list, Visiting(own, others), u)
  }

  function Copies(list: seq<Callback>): nat {
    if list == [] then 0 else (if list[0].Own? then 1 else 0) + Copies(list[1..])
  }

  lemma CopiesCons(cb: Callback, list: seq<Callback>)
    ensures Copies([cb] + list) == (if cb.Own? then 1 else 0) + Copies(list)
    ensures Copies([] + list) == Copies(list)
  {
    assert ([cb] + list)[1..] == list;
    assert [] + list == list;
  }

  lemma {:induction false} CopiesAppend(list: seq<Callback>, cb: Callback)
    ensures Copies(list + [cb]) == Copies(list) + if cb.Own? then 1 else 0
  {
    if list == [] {
      assert list + [cb] == [cb];
      assert [cb][1..] == [];
    } else {
      CopiesAppend(list[1..], cb);
      assert (list + [cb])[1..] == list[1..] + [cb];
    }
  }

  /** Without a callback of its own in the list the peripheral is left alone. */
  lemma {:induction false} FilterNoCopy<U>(list: seq<Callback>, own: Tick<U>, others: Others, u: U)
    requires Copies(list) == 0
    ensures var v := Filter(list, Visiting(own, others), u); v.state == u && Copies(v.kept) == 0
  {
    if list != [] {
      FilterNoCopy(list[1..], own, others, u);
      CopiesCons(list[0], Filter(list[1..], Visiting(own, others), u).kept);
    }
  }

  /** With one it is run once, and stays listed unless it asks for its removal. */
  lemma {:induction false} FilterOneCopy<U>(list: seq<Callback>, own: Tick<U>, others: Others, u: U)
    requires Copies(list) == 1
    ensures var v := Filter(list, Visiting(own, others), u);
            v.state == own(u).1 && Copies(v.kept) == if own(u).0 then 0 else 1
  {
    if list[0].Own? {
      FilterNoCopy(list[1..], own, others, own(u).1);
      CopiesCons(list[0], Filter(list[1..], Visiting(own, others), own(u).1).kept);
    } else {
      FilterOneCopy(list[1..], own, others, u);
      CopiesCons(list[0], Filter(list[1..], Visiting(own, others), u).kept);
    }
  }

  /** The callbacks are different objects, all made before the next. */
  ghost predicate Sound(list: seq<Callback>, made: nat) {
    Distinct(list) && forall cb :: cb in list ==> cb.id < made
  }

  /** How a sound list with at most one callback of the peripheral runs. */
  lemma Runs<U>(list: seq<Callback>, made: nat, own: Tick<U>, others: Others, u: U)
    requires Sound(list, made) && Copies(list) <= 1
    ensures var v := RunAll(list, own, others, u);
            && Sound(v.kept, made)
            && (if Copies(list) == 1 then v.state == own(u).1 && Copies(v.kept) == (if own(u).0 then 0 else 1)
                else v.state == u && Copies(v.kept) == 0)
  {
    OneClock(list, Visiting(own, others), u);
    FilterKeepsDistinct(list, Visiting(own, others), u);
    if Copies(list) == 1 {
      FilterOneCopy(list, own, others, u);
    } else {
      FilterNoCopy(list, own, others, u);
    }
  }

  lemma Appended(list: seq<Callback>, made: nat, cb: Callback)
    requires Sound(list, made) && cb.id == made
    ensures Add(list, cb, None) == list + [cb] && Sound(list + [cb], made + 1)
    ensures Copies(list + [cb]) == Copies(list) + if cb.Own? then 1 else 0
  {
    CopiesAppend(list, cb);
    var longer := list + [cb];
    assert forall i :: 0 <= i < |list| ==> longer[i] == list[i] && longer[i] in list;
  }

  lemma SoundLater(list: seq<Callback>, made: nat)
    requires Sound(list, made)
    ensures Sound(list, made + 1)
  {
  }
}
