/**
 What the list operations do to the sequence of elements a list holds.
 */
module ListSpec {
  import opened Wrappers

  /** Append x, unless a comparison is given and some element compares equal to x. */
  function Add<T>(xs: seq<T>, x: T, same: Option<(T, T) -> bool>): seq<T> {
    if same.Some? && exists i :: 0 <= i < |xs| && same.value(xs[i], x) then xs else xs + [x]
  }

  /** Drop the first element that compares equal to x. */
  function Delete<T>(xs: seq<T>, x: T, same: (T, T) -> bool): seq<T> {
    if xs == [] then []
    else if same(xs[0], x) then xs[1..]
    else [xs[0]] + Delete(xs[1..], x, same)
  }

  /** The first element that compares equal to x. */
  function Lookup<T>(xs: seq<T>, x: T, same: (T, T) -> bool): Option<T> {
    if xs == [] then None
    else if same(xs[0], x) then Some(xs[0])
    else Lookup(xs[1..], x, same)
  }

  /** An iterator callback: whether to remove the element, and the state it leaves. */
  type Visit<!T, !U> = (T, U) -> (bool, U)

  /** The iterator's own comparison: being the same element. */
  function Identical<T(==)>(): (T, T) -> bool {
    (x, y) => x == y
  }

  datatype Visited<T, U> = Visited(kept: seq<T>, state: U)

  /** What stands before the next element once x, just visited, is removed. */
  function KeptAfterRemoval<T(==)>(done: seq<T>, x: T): seq<T> {
    if x in done then Delete(done, x, Identical()) + [x] else done
  }

  /**
   Visit the elements of todo in order, done having been visited and kept. To remove an element the
   first one identical to it is deleted, which is an earlier one if the list holds it twice.
   */
  function Iterate<T(==), U>(done: seq<T>, todo: seq<T>, visit: Visit<T, U>, u: U): Visited<T, U>
    decreases |todo|
  {
    if todo == [] then Visited(done, u)
    else
      var (remove, u') := visit(todo[0], u);
      Iterate(if remove then KeptAfterRemoval(done, todo[0]) else done + [todo[0]], todo[1..], visit, u')
  }

  /** The promise of the iterator: each element visited once, in order; the retained ones stay. */
  function Filter<T, U>(xs: seq<T>, visit: Visit<T, U>, u: U): Visited<T, U> {
    if xs == [] then Visited([], u)
    else
      var (remove, u') := visit(xs[0], u);
      var rest := Filter(xs[1..], visit, u');
      Visited((if remove then [] else [xs[0]]) + rest.kept, rest.state)
  }

  ghost predicate Distinct<T>(xs: seq<T>) {
    forall i, j :: 0 <= i < j < |xs| ==> xs[i] != xs[j]
  }

  /** Equal elements stand together. */
  ghost predicate Contiguous<T>(xs: seq<T>) {
    forall i, j, k :: 0 <= i < j < k < |xs| && xs[i] == xs[k] ==> xs[j] == xs[i]
  }

  lemma DistinctIsContiguous<T>(xs: seq<T>)
    requires Distinct(xs)
    ensures Contiguous(xs)
  {
  }

  lemma {:induction false} DeleteAt<T>(xs: seq<T>, at: nat, x: T, same: (T, T) -> bool)
    requires at < |xs| && same(xs[at], x) && forall j :: 0 <= j < at ==> !same(xs[j], x)
    ensures Delete(xs, x, same) == xs[..at] + xs[at + 1..]
  {
    if at > 0 {
      DeleteAt(xs[1..], at - 1, x, same);
      assert xs[..at] == [xs[0]] + xs[1..][..at - 1];
    }
  }

  lemma {:induction false} FirstIndex<T>(xs: seq<T>, x: T) returns (at: nat)
    requires x in xs
    ensures at < |xs| && xs[at] == x && forall j :: 0 <= j < at ==> xs[j] != x
  {
    if xs[0] == x {
      at := 0;
    } else {
      var rest := FirstIndex(xs[1..], x);
      at := rest + 1;
    }
  }

  /** If the element's equals end what was kept, deleting the first of them and appending it changes nothing. */
  lemma RemovalKeeps<T>(done: seq<T>, todo: seq<T>)
    requires todo != [] && Contiguous(done + todo)
    ensures KeptAfterRemoval(done, todo[0]) == done
  {
    var x := todo[0];
    if x in done {
      var at := FirstIndex(done, x);
      var all := done + todo;
      forall j | at <= j < |done| ensures done[j] == x {
        assert all[at] == x && all[|done|] == x && all[j] == done[j];
      }
      DeleteAt(done, at, x, Identical());
    }
  }

  lemma DropMiddle<T>(done: seq<T>, todo: seq<T>)
    requires todo != [] && Contiguous(done + todo)
    ensures Contiguous(done + todo[1..])
  {
    var all, fewer := done + todo, done + todo[1..];
    assert forall i :: 0 <= i < |done| ==> fewer[i] == all[i];
    assert forall i :: |done| <= i < |fewer| ==> fewer[i] == all[i + 1];
  }

  /** Over elements whose equals stand together, distinct ones among them, the iterator keeps its promise. */
  lemma {:induction false} IterateFilters<T, U>(done: seq<T>, todo: seq<T>, visit: Visit<T, U>, u: U)
    requires Contiguous(done + todo)
    ensures Iterate(done, todo, visit, u) ==
            Visited(done + Filter(todo, visit, u).kept, Filter(todo, visit, u).state)
    decreases |todo|
  {
    if todo == [] {
      assert done + [] == done;
    } else {
      var x := todo[0];
      var (remove, u') := visit(x, u);
      if remove {
        RemovalKeeps(done, todo);
        DropMiddle(done, todo);
        IterateFilters(done, todo[1..], visit, u');
      } else {
        assert done + [x] + todo[1..] == done + todo;
        IterateFilters(done + [x], todo[1..], visit, u');
        assert done + [x] + Filter(todo[1..], visit, u').kept == done + ([x] + Filter(todo[1..], visit, u').kept);
      }
    }
  }

  /** The visit that counts up and asks for removal at count k alone. */
  function RemoveAt<T>(k: nat): Visit<T, nat> {
    (x: T, n: nat) => (n == k, n + 1)
  }

  lemma {:induction false} FilterDropsOne<T>(xs: seq<T>, k: nat, n: nat)
    requires n <= k < n + |xs|
    ensures Filter(xs, RemoveAt<T>(k), n).kept == xs[..k - n] + xs[k - n + 1..]
    decreases |xs|
  {
    if n == k {
      FilterKeepsAll(xs[1..], k, n + 1);
      assert xs[..0] + xs[1..] == xs[1..];
    } else {
      FilterDropsOne(xs[1..], k, n + 1);
      assert [xs[0]] + (xs[1..][..k - n - 1] + xs[1..][k - n..]) == xs[..k - n] + xs[k - n + 1..];
    }
  }

  lemma {:induction false} FilterKeepsAll<T>(xs: seq<T>, k: nat, n: nat)
    requires k < n
    ensures Filter(xs, RemoveAt<T>(k), n).kept == xs
    decreases |xs|
  {
    if xs != [] {
      FilterKeepsAll(xs[1..], k, n + 1);
    }
  }

  lemma {:induction false} IterateDropsOne<T>(done: seq<T>, todo: seq<T>, k: nat, n: nat)
    requires n <= k < n + |todo|
    ensures Iterate(done, todo, RemoveAt<T>(k), n).kept ==
            KeptAfterRemoval(done + todo[..k - n], todo[k - n]) + todo[k - n + 1..]
    decreases |todo|
  {
    if n == k {
      assert done + todo[..0] == done;
      IterateKeepsAll(KeptAfterRemoval(done, todo[0]), todo[1..], k, n + 1);
    } else {
      IterateDropsOne(done + [todo[0]], todo[1..], k, n + 1);
      assert done + [todo[0]] + todo[1..][..k - n - 1] == done + todo[..k - n];
    }
  }

  lemma {:induction false} IterateKeepsAll<T>(done: seq<T>, todo: seq<T>, k: nat, n: nat)
    requires k < n
    ensures Iterate(done, todo, RemoveAt<T>(k), n).kept == done + todo
    decreases |todo|
  {
    if todo == [] {
      assert done + [] == done;
    } else {
      IterateKeepsAll(done + [todo[0]], todo[1..], k, n + 1);
      assert done + [todo[0]] + todo[1..] == done + todo;
    }
  }

  /** A sequence that is its own left shift with x after it, from a place that holds x on, holds only x there. */
  lemma {:induction false} ShiftedIsConstant<T>(done: seq<T>, x: T, at: nat, j: nat)
    requires at <= j < |done| && done[at] == x
    requires done[..at] + done[at + 1..] + [x] == done
    ensures done[j] == x
    decreases j
  {
    if j > at {
      ShiftedIsConstant(done, x, at, j - 1);
      assert (done[..at] + done[at + 1..] + [x])[j - 1] == done[j];
    }
  }

  lemma RemovalMoves<T>(done: seq<T>, x: T, i: nat, j: nat)
    requires i < j < |done| && done[i] == x && done[j] != x
    ensures |KeptAfterRemoval(done, x)| == |done| && KeptAfterRemoval(done, x) != done
  {
    var at := FirstIndex(done, x);
    DeleteAt(done, at, x, Identical());
    var moved := done[..at] + done[at + 1..] + [x];
    if moved == done {
      ShiftedIsConstant(done, x, at, j);
    }
  }

  lemma SameTail<T>(a: seq<T>, b: seq<T>, tail: seq<T>)
    requires |a| == |b| && a != b
    ensures a + tail != b + tail
  {
    assert (a + tail)[..|a|] == a && (b + tail)[..|b|] == b;
  }

  /** Where unequal elements stand between equal ones, removing the last of these goes wrong. */
  lemma GapBreaksPromise<T>(xs: seq<T>, i: nat, j: nat, k: nat)
    requires i < j < k < |xs| && xs[i] == xs[k] && xs[j] != xs[i]
    ensures Iterate([], xs, RemoveAt<T>(k), 0).kept != Filter(xs, RemoveAt<T>(k), 0).kept
  {
    var done, x := xs[..k], xs[k];
    BothDropOne(xs, k);
    assert done[i] == x && done[j] != x;
    RemovalMoves(done, x, i, j);
    SameTail(KeptAfterRemoval(done, x), done, xs[k + 1..]);
  }

  lemma BothDropOne<T>(xs: seq<T>, k: nat)
    requires k < |xs|
    ensures Iterate([], xs, RemoveAt<T>(k), 0).kept == KeptAfterRemoval(xs[..k], xs[k]) + xs[k + 1..]
    ensures Filter(xs, RemoveAt<T>(k), 0).kept == xs[..k] + xs[k + 1..]
  {
    IterateDropsOne([], xs, k, 0);
    assert [] + xs[..k] == xs[..k];
    FilterDropsOne(xs, k, 0);
  }

  /** The iterator keeps its promise for every function it may be given exactly if equal elements stand together. */
  lemma PromiseIffContiguous<T>(xs: seq<T>)
    ensures Contiguous(xs) <==>
            forall visit: Visit<T, nat>, u: nat :: Iterate([], xs, visit, u) == Filter(xs, visit, u)
  {
    if Contiguous(xs) {
      forall visit: Visit<T, nat>, u: nat ensures Iterate([], xs, visit, u) == Filter(xs, visit, u) {
        assert [] + xs == xs;
        IterateFilters([], xs, visit, u);
        assert [] + Filter(xs, visit, u).kept == Filter(xs, visit, u).kept;
      }
    } else {
      var i, j, k :| 0 <= i < j < k < |xs| && xs[i] == xs[k] && xs[j] != xs[i];
      GapBreaksPromise(xs, i, j, k);
    }
  }

  /** The smallest such list: the element just retained goes instead of the one to be removed. */
  lemma IterateDropsRetained()
    ensures Iterate([], [7, 8, 7], RemoveAt<int>(2), 0).kept == [8, 7]
    ensures Filter([7, 8, 7], RemoveAt<int>(2), 0).kept == [7, 8]
  {
    var xs := [7, 8, 7];
    IterateDropsOne([], xs, 2, 0);
    FilterDropsOne(xs, 2, 0);
    DeleteAt([7, 8], 0, 7, Identical());
    assert [] + xs[..2] == [7, 8] && xs[3..] == [];
  }

  // ----- lists kept free of duplicates by a key -----

  /** No two elements have the same key. */
  ghost predicate UniqueKeys<T>(xs: seq<T>, key: T -> int) {
    forall i, j :: 0 <= i < j < |xs| ==> key(xs[i]) != key(xs[j])
  }

  function SameKey<T>(key: T -> int): (T, T) -> bool {
    (x, y) => key(x) == key(y)
  }

  lemma AddKeepsUnique<T>(xs: seq<T>, x: T, key: T -> int)
    requires UniqueKeys(xs, key)
    ensures UniqueKeys(Add(xs, x, Some(SameKey(key))), key)
  {
  }

  lemma {:induction false} DeleteOnlyDrops<T>(xs: seq<T>, x: T, same: (T, T) -> bool)
    ensures |Delete(xs, x, same)| <= |xs|
    ensures forall i :: 0 <= i < |Delete(xs, x, same)| ==> Delete(xs, x, same)[i] in xs
  {
    if xs != [] && !same(xs[0], x) {
      DeleteOnlyDrops(xs[1..], x, same);
      var rest := Delete(xs[1..], x, same);
      forall i | 0 <= i < |rest| ensures rest[i] in xs {
        assert rest[i] in xs[1..];
      }
    }
  }

  lemma {:induction false} DeleteKeepsUnique<T>(xs: seq<T>, x: T, key: T -> int)
    requires UniqueKeys(xs, key)
    ensures UniqueKeys(Delete(xs, x, SameKey(key)), key)
  {
    if xs != [] && key(xs[0]) != key(x) {
      DeleteKeepsUnique(xs[1..], x, key);
      DeleteOnlyDrops(xs[1..], x, SameKey(key));
      var rest := Delete(xs[1..], x, SameKey(key));
      forall i | 0 <= i < |rest| ensures key(rest[i]) != key(xs[0]) {
        assert rest[i] in xs[1..];
      }
    }
  }

  /** In a list with unique keys deleting drops exactly the elements with the key. */
  lemma {:induction false} DeleteMembers<T>(xs: seq<T>, x: T, key: T -> int, y: T)
    requires UniqueKeys(xs, key)
    ensures y in Delete(xs, x, SameKey(key)) <==> y in xs && key(y) != key(x)
  {
    if xs != [] {
      DeleteMembers(xs[1..], x, key, y);
      assert y in xs <==> y == xs[0] || y in xs[1..];
      if key(xs[0]) != key(x) {
        assert y in [xs[0]] + Delete(xs[1..], x, SameKey(key)) <==> y == xs[0] || y in Delete(xs[1..], x, SameKey(key));
      }
    }
  }

  lemma {:induction false} LookupFinds<T>(xs: seq<T>, x: T, key: T -> int)
    ensures var found := Lookup(xs, x, SameKey(key));
            if found.Some? then found.value in xs && key(found.value) == key(x)
            else forall y :: y in xs ==> key(y) != key(x)
  {
    if xs != [] {
      LookupFinds(xs[1..], x, key);
      assert xs == [xs[0]] + xs[1..];
    }
  }
}
