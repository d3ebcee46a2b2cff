/**
 The doubly linked list under the breakpoints, the pending interrupts and the callbacks.

 A list is known by its head node. The ghost fields name its nodes and elements in order; the
 methods are proved to do to the elements what ListSpec says.
 */
module DList {
  import opened ListSpec
  import opened Wrappers

  class Node<T> {
    var prev: Node?<T>
    var next: Node?<T>
    var data: T

    constructor (data: T)
      ensures this.prev == null && this.next == null && this.data == data
    {
      this.prev, this.next, this.data := null, null, data;
    }
  }

  class List<T(==)> {
    var head: Node?<T>
    ghost var nodes: seq<Node<T>>
    ghost var contents: seq<T>

    /** Neighbours point at each other, the ends point nowhere, and no node occurs twice. */
    ghost predicate Valid()
      reads this, nodes
    {
      && |nodes| == |contents|
      && head == NodeAt(0)
      && (forall i :: 0 <= i < |nodes| ==> nodes[i].data == contents[i])
      && (forall i {:trigger nodes[i].next} :: 0 <= i < |nodes| ==> nodes[i].next == NodeAt(i + 1))
      && (forall i {:trigger nodes[i].prev} :: 0 <= i < |nodes| ==> nodes[i].prev == NodeAt(i - 1))
      && (forall i, j :: 0 <= i < j < |nodes| ==> nodes[i] != nodes[j])
    }

    /** The node at position i; null before the first and after the last. */
    ghost function NodeAt(i: int): Node?<T>
      reads this
    {
      if 0 <= i < |nodes| then nodes[i] else null
    }

    /** The nodes are all among the given ones. */
    ghost predicate Within(all: set<Node<T>>)
      reads this
    {
      forall i :: 0 <= i < |nodes| ==> nodes[i] in all
    }

    /** The empty list. */
    constructor ()
      ensures Valid() && contents == [] && nodes == []
    {
      head, nodes, contents := null, [], [];
    }

    /** Add at the tail. With a comparison, an element that compares equal keeps data out. */
    method Add(data: T, same: Option<(T, T) -> bool>)
      requires Valid()
      modifies this, nodes
      ensures Valid() && contents == ListSpec.Add(old(contents), data, same)
      ensures forall n :: n in nodes ==> n in old(nodes) || fresh(n)
    {
      if head == null {
        var first := new Node(data);
        head, nodes, contents := first, [first], [data];
        return;
      }
      var node := head;
      ghost var i := 0;
      while true
        invariant Valid() && nodes == old(nodes) && contents == old(contents)
        invariant 0 <= i < |nodes| && node == nodes[i]
        invariant same.Some? ==> forall j :: 0 <= j < i ==> !same.value(contents[j], data)
        decreases |nodes| - i
      {
        if same.Some? && same.value(node.data, data) {
          assert same.value(contents[i], data);
          return;
        }
        if node.next == null {
          var tail := new Node(data);
          node.next := tail;
          tail.prev := node;
          nodes, contents := nodes + [tail], contents + [data];
          return;
        }
        node, i := node.next, i + 1;
      }
    }

    /** Add at the head. */
    method AddHead(data: T)
      requires Valid()
      modifies this, nodes
      ensures Valid() && contents == [data] + old(contents)
      ensures forall n :: n in nodes ==> n in old(nodes) || fresh(n)
    {
      var first := new Node(data);
      if head != null {
        head.prev := first;
        first.next := head;
      }
      head, nodes, contents := first, [first] + nodes, [data] + contents;
    }

    /**
     Unlink the first element that compares equal to data. at is its position, or the length of the
     list if there is none; the unlinked node keeps its own link to the node after it.
     */
    method Delete(data: T, same: (T, T) -> bool) returns (ghost at: nat)
      requires Valid()
      modifies this, nodes
      ensures Valid() && contents == ListSpec.Delete(old(contents), data, same)
      ensures at <= |old(contents)|
      ensures forall j :: 0 <= j < at ==> !same(old(contents)[j], data)
      ensures at < |old(contents)| ==>
                && same(old(contents)[at], data)
                && nodes == Dropped(old(nodes), at)
                && contents == Dropped(old(contents), at)
                && old(nodes)[at].next == old(nodes[at].next)
      ensures at == |old(contents)| ==> nodes == old(nodes) && contents == old(contents)
    {
      var node := head;
      at := 0;
      while node != null
        invariant Valid() && nodes == old(nodes) && contents == old(contents)
        invariant forall n :: n in nodes ==> n.next == old(n.next) && n.prev == old(n.prev)
        invariant 0 <= at <= |nodes| && node == NodeAt(at)
        invariant forall j :: 0 <= j < at ==> !same(contents[j], data)
        decreases |nodes| - at
      {
        if same(node.data, data) {
          DeleteAt(contents, at, data, same);
          Unlink(node, at);
          CloseGap(at);
          return;
        }
        node, at := node.next, at + 1;
      }
      DeleteNone(contents, data, same);
    }

    /** As Valid, except that the links lead past the node at position at. */
    ghost predicate Bypassed(at: nat)
      reads this, nodes
    {
      && |nodes| == |contents| && at < |nodes|
      && head == (if at == 0 then NodeAt(1) else NodeAt(0))
      && (forall i :: 0 <= i < |nodes| ==> nodes[i].data == contents[i])
      && (forall i {:trigger nodes[i].next} :: 0 <= i < |nodes| && i != at ==>
            nodes[i].next == if i + 1 == at then NodeAt(i + 2) else NodeAt(i + 1))
      && (forall i {:trigger nodes[i].prev} :: 0 <= i < |nodes| && i != at ==>
            nodes[i].prev == if i - 1 == at then NodeAt(i - 2) else NodeAt(i - 1))
      && (forall i, j :: 0 <= i < j < |nodes| ==> nodes[i] != nodes[j])
    }

    /** Lead the links past one node; whether it has neighbours decides which links change. */
    method Unlink(node: Node<T>, ghost at: nat)
      requires Valid() && at < |nodes| && node == nodes[at]
      modifies this`head, nodes
      ensures Bypassed(at)
      ensures node.next == old(node.next)
    {
      if node.prev == null && node.next == null {
        head := null;
      } else if node.prev == null {
        node.next.prev := null;
        head := node.next;
      } else if node.next == null {
        node.prev.next := null;
      } else {
        node.prev.next := node.next;
        node.next.prev := node.prev;
      }
    }

    /** A bypassed node is no longer in the list. */
    ghost method CloseGap(at: nat)
      requires Bypassed(at)
      modifies this`nodes, this`contents
      ensures Valid()
      ensures nodes == Dropped(old(nodes), at) && contents == Dropped(old(contents), at)
    {
      Without(nodes, at);
      Without(contents, at);
      nodes, contents := Dropped(nodes, at), Dropped(contents, at);
    }

    /** Give up every node. */
    method DeleteAll()
      requires Valid()
      modifies this
      ensures Valid() && contents == [] && nodes == []
    {
      head, nodes, contents := null, [], [];
    }

    /** The first element that compares equal to data. */
    method Lookup(data: T, same: (T, T) -> bool) returns (found: Option<T>)
      requires Valid()
      ensures found == ListSpec.Lookup(contents, data, same)
    {
      var node := head;
      ghost var i := 0;
      while node != null
        invariant 0 <= i <= |nodes| && node == NodeAt(i)
        invariant ListSpec.Lookup(contents, data, same) == ListSpec.Lookup(contents[i..], data, same)
        decreases |nodes| - i
      {
        if same(node.data, data) {
          return Some(node.data);
        }
        node, i := node.next, i + 1;
      }
      return None;
    }

    /** Delete by identity, as the iterator does. */
    method DeleteSame(data: T, ghost k: nat) returns (ghost at: nat)
      requires Valid() && k < |contents| && contents[k] == data
      modifies this, nodes
      ensures Valid()
      ensures at <= k && old(contents)[at] == data && forall j :: 0 <= j < at ==> old(contents)[j] != data
      ensures nodes == Dropped(old(nodes), at) && contents == Dropped(old(contents), at)
      ensures old(nodes)[at].next == old(nodes[at].next)
    {
      assert Identical()(contents[k], data);
      at := Delete(data, Identical());
    }

    /** Remove the element just visited, at position |done|, by deleting the first one identical to it. */
    method RemoveVisited(node: Node<T>, ghost done: seq<T>, ghost todo: seq<T>, ghost all: set<Node<T>>)
      requires Valid() && Within(all) && contents == done + todo && todo != [] && node == nodes[|done|]
      modifies this, nodes
      ensures Valid() && Within(all) && contents == KeptAfterRemoval(done, todo[0]) + todo[1..]
      ensures node.next == NodeAt(|done|) && |KeptAfterRemoval(done, todo[0])| == |done|
    {
      ghost var k, before, ring := |done|, contents, nodes;
      assert before[k] == node.data == todo[0];
      ghost var at := DeleteSame(node.data, k);
      RemovalSplits(before, done, todo, at);
      Without(ring, at);
      if at < k {
        assert node == nodes[k - 1];
      }
    }

    /** Visit one element, remove it if asked to, and move on to the node after it. */
    method VisitOne<U>(node: Node<T>, visit: Visit<T, U>, u: U, ghost done: seq<T>, ghost todo: seq<T>, ghost all: set<Node<T>>)
      returns (next: Node?<T>, u': U, ghost done': seq<T>)
      requires Valid() && Within(all) && contents == done + todo && todo != [] && node == nodes[|done|]
      modifies this, nodes
      ensures Valid() && Within(all) && contents == done' + todo[1..] && next == NodeAt(|done'|)
      ensures ListSpec.Iterate(done, todo, visit, u) == ListSpec.Iterate(done', todo[1..], visit, u')
    {
      assert node.data == contents[|done|] == todo[0];
      var (remove, state) := visit(node.data, u);
      u' := state;
      if remove {
        done' := KeptAfterRemoval(done, todo[0]);
        RemoveVisited(node, done, todo, all);
      } else {
        done' := done + [todo[0]];
        assert todo == [todo[0]] + todo[1..];
        Regroup(done, todo[0], todo[1..]);
      }
      next := node.next;
    }

    /** Overwrite the element a node holds. */
    method SetData(node: Node<T>, data: T, ghost at: nat)
      requires Valid() && at < |nodes| && node == nodes[at]
      modifies node`data, this`contents
      ensures Valid() && contents == old(contents)[at := data]
    {
      node.data := data;
      contents := contents[at := data];
    }

    /** Visit every element in order; those for which visit says so are removed on the way. */
    method Iterate<U>(visit: Visit<T, U>, start: U) returns (u: U)
      requires Valid()
      modifies this, nodes
      ensures Valid()
      ensures Visited(contents, u) == ListSpec.Iterate([], old(contents), visit, start)
    {
      var node := head;
      u := start;
      ghost var done, todo: seq<T>, all := [], contents, set n | n in nodes;
      assert contents == [] + contents;
      while node != null
        invariant Valid() && contents == done + todo
        invariant Within(all) && all == set n | n in old(nodes)
        invariant node == NodeAt(|done|)
        invariant ListSpec.Iterate(done, todo, visit, u) == ListSpec.Iterate([], old(contents), visit, start)
        decreases |todo|
      {
        node, u, done := VisitOne(node, visit, u, done, todo, all);
        todo := todo[1..];
      }
      assert done + [] == done;
    }
  }

  function Dropped<T>(s: seq<T>, at: nat): seq<T>
    requires at < |s|
  {
    s[..at] + s[at + 1..]
  }

  lemma Without<T>(s: seq<T>, at: nat)
    requires at < |s|
    ensures |Dropped(s, at)| == |s| - 1
    ensures forall i :: 0 <= i < |s| - 1 ==> Dropped(s, at)[i] == if i < at then s[i] else s[i + 1]
  {
  }

  lemma {:induction false} DeleteNone<T>(xs: seq<T>, x: T, same: (T, T) -> bool)
    requires forall j :: 0 <= j < |xs| ==> !same(xs[j], x)
    ensures ListSpec.Delete(xs, x, same) == xs
  {
    if xs != [] {
      DeleteNone(xs[1..], x, same);
    }
  }

  lemma Regroup<T>(done: seq<T>, x: T, rest: seq<T>)
    ensures done + ([x] + rest) == (done + [x]) + rest
  {
  }

  lemma DropMoves<T>(done: seq<T>, x: T, tail: seq<T>, at: nat)
    requires at < |done|
    ensures Dropped(done + ([x] + tail), at) == done[..at] + done[at + 1..] + [x] + tail
  {
    var before := done + ([x] + tail);
    assert before[..at] == done[..at];
    assert before[at + 1..] == done[at + 1..] + ([x] + tail);
  }

  lemma DropLast<T>(done: seq<T>, x: T, tail: seq<T>)
    ensures Dropped(done + ([x] + tail), |done|) == done + tail
  {
    var before := done + ([x] + tail);
    assert before[..|done|] == done && before[|done| + 1..] == tail;
  }

  lemma RemovalSplits<T>(before: seq<T>, done: seq<T>, todo: seq<T>, at: nat)
    requires before == done + todo && todo != [] && at < |before|
    requires before[at] == todo[0] && forall j :: 0 <= j < at ==> before[j] != todo[0]
    ensures at <= |done|
    ensures |KeptAfterRemoval(done, todo[0])| == |done|
    ensures Dropped(before, at) == KeptAfterRemoval(done, todo[0]) + todo[1..]
  {
    var x := todo[0];
    assert before[|done|] == x;
    assert forall j :: 0 <= j < |done| ==> before[j] == done[j];
    assert todo == [x] + todo[1..];
    if at < |done| {
      assert done[at] == x;
      DeleteAt(done, at, x, Identical());
      DropMoves(done, x, todo[1..], at);
    } else {
      assert x !in done;
      DropLast(done, x, todo[1..]);
    }
  }
}
