/** The doubly linked list behind route tables and queues, refined to a sequence. */
module Lists {
  import opened Common

  class Node<T> {
    var next: Node?<T>
    var prev: Node?<T>
    var value: T

    constructor (v: T)
      ensures next == null && prev == null && value == v
    {
      next, prev, value := null, null, v;
    }
  }

  // One round of destroying a list: a node is freed in between the two reads of another.
  datatype Round<T> = Round(read: Option<T>, freed: Option<T>)

  // No node is read, or freed again, once it has been freed.
  ghost predicate NeverAfterFree<T>(rounds: seq<Round<T>>) {
    && (forall i, j :: 0 <= i <= j < |rounds| && rounds[i].freed.Some? ==> rounds[j].read != rounds[i].freed)
    && (forall i, j :: 0 <= i < j < |rounds| && rounds[i].freed.Some? ==> rounds[j].freed != rounds[i].freed)
  }

  class List<T> {
    var count: int
    var first: Node?<T>
    var last: Node?<T>
    ghost var nodes: seq<Node<T>>
    ghost var contents: seq<T>
    ghost var Repr: set<object>

    ghost predicate Valid()
      reads this, Repr
    {
      && this in Repr
      && (forall i :: 0 <= i < |nodes| ==> nodes[i] in Repr)
      && count == |nodes| == |contents|
      && (forall i, j :: 0 <= i < j < |nodes| ==> nodes[i] != nodes[j])
      && first == At(0)
      && last == At(|nodes| - 1)
      && (forall i {:trigger nodes[i].prev} :: 0 <= i < |nodes| ==> nodes[i].prev == At(i - 1))
      && (forall i {:trigger nodes[i].next} :: 0 <= i < |nodes| ==> nodes[i].next == At(i + 1))
      && (forall i {:trigger nodes[i].value} :: 0 <= i < |nodes| ==> nodes[i].value == contents[i])
    }

    // The node at position i, null past either end.
    ghost function At(i: int): Node?<T>
      reads this
    {
      if 0 <= i < |nodes| then nodes[i] else null
    }

    constructor ()
      ensures Valid() && fresh(Repr) && nodes == [] && contents == []
    {
      count, first, last, nodes, contents := 0, null, null, [], [];
      Repr := {this};
    }

    method Push(value: T)
      requires Valid()
      modifies Repr
      ensures Valid() && fresh(Repr - old(Repr)) && contents == old(contents) + [value]
      ensures |nodes| == |old(nodes)| + 1 && nodes[..|old(nodes)|] == old(nodes) && fresh(nodes[|old(nodes)|])
    {
      var node := new Node(value);
      if last == null {
        first := node;
        last := node;
      } else {
        last.next := node;
        node.prev := last;
        last := node;
      }
      count := count + 1;
      ghost var n := |nodes|;
      nodes, contents := nodes + [node], contents + [value];
      Repr := Repr + {node};
      assert nodes[n] == node && contents[n] == value;
      assert forall i :: 0 <= i < n ==> nodes[i] == old(nodes)[i] && contents[i] == old(contents)[i];
    }

    method Unshift(value: T)
      requires Valid()
      modifies Repr
      ensures Valid() && fresh(Repr - old(Repr)) && contents == [value] + old(contents)
      ensures |nodes| == |old(nodes)| + 1 && nodes[1..] == old(nodes) && fresh(nodes[0])
    {
      var node := new Node(value);
      if first == null {
        first := node;
        last := node;
      } else {
        node.next := first;
        first.prev := node;
        first := node;
      }
      count := count + 1;
      nodes, contents := [node] + nodes, [value] + contents;
      Repr := Repr + {node};
    }

    /** None for the source's NULL: nothing to remove. Otherwise the node must be one of the list's. */
    method Remove(node: Node?<T>) returns (result: Option<T>, ghost k: nat)
      requires Valid()
      requires node != null && nodes != [] ==> node in nodes
      modifies Repr
      ensures Valid() && Repr == old(Repr)
      ensures node == null || old(nodes) == [] ==>
        result.None? && nodes == old(nodes) && contents == old(contents)
      ensures node != null && old(nodes) != [] ==>
        && k < |old(nodes)| && old(nodes)[k] == node
        && nodes == old(nodes)[..k] + old(nodes)[k + 1..]
        && contents == old(contents)[..k] + old(contents)[k + 1..]
        && result == Some(old(contents)[k])
    {
      if first == null || last == null || node == null {
        return None, 0;
      }
      k :| 0 <= k < |nodes| && nodes[k] == node;
      var value := Unlink(node, k);
      result := Some(value);
    }

    method Unlink(node: Node<T>, ghost k: nat) returns (value: T)
      requires Valid() && k < |nodes| && nodes[k] == node
      modifies Repr
      ensures Valid() && Repr == old(Repr)
      ensures nodes == old(nodes)[..k] + old(nodes)[k + 1..]
      ensures contents == old(contents)[..k] + old(contents)[k + 1..] && value == old(contents)[k]
    {
      value := node.value;
      Bypass(node, k);
      count := count - 1;
      Drop(k);
    }

    method Bypass(node: Node<T>, ghost k: nat)
      requires Valid() && k < |nodes| && nodes[k] == node
      modifies Repr
      ensures Bypassed(k)
      ensures count == old(count) && nodes == old(nodes) && contents == old(contents) && Repr == old(Repr)
    {
      if node == first && node == last {
        first := null;
        last := null;
      } else if node == first {
        first := node.next;
        first.prev := null;
      } else if node == last {
        last := node.prev;
        last.next := null;
      } else {
        var after := node.next;
        var before := node.prev;
        after.prev := before;
        before.next := after;
      }
    }

    // Every list field but the ghosts is as it should be with node k bypassed.
    ghost predicate Bypassed(k: nat)
      reads this, Repr
    {
      && k < |nodes| == |contents|
      && this in Repr
      && (forall i :: 0 <= i < |nodes| ==> nodes[i] in Repr)
      && (forall i, j :: 0 <= i < j < |nodes| ==> nodes[i] != nodes[j])
      && first == (if k == 0 then At(1) else At(0))
      && last == (if k == |nodes| - 1 then At(k - 1) else At(|nodes| - 1))
      && (forall i {:trigger nodes[i].prev} :: 0 <= i < |nodes| && i != k ==>
           nodes[i].prev == if i == k + 1 then At(k - 1) else At(i - 1))
      && (forall i {:trigger nodes[i].next} :: 0 <= i < |nodes| && i != k ==>
           nodes[i].next == if i == k - 1 then At(k + 1) else At(i + 1))
      && (forall i {:trigger nodes[i].value} :: 0 <= i < |nodes| ==> nodes[i].value == contents[i])
    }

    ghost method Drop(k: nat)
      requires Bypassed(k) && count == |nodes| - 1
      modifies this`nodes, this`contents
      ensures Valid()
      ensures nodes == old(nodes)[..k] + old(nodes)[k + 1..]
      ensures contents == old(contents)[..k] + old(contents)[k + 1..]
    {
      nodes, contents := nodes[..k] + nodes[k + 1..], contents[..k] + contents[k + 1..];
      assert forall i :: 0 <= i < |nodes| ==> nodes[i] == old(nodes)[if i < k then i else i + 1];
    }

    method Pop() returns (result: Option<T>)
      requires Valid()
      modifies Repr
      ensures Valid() && Repr == old(Repr)
      ensures if old(contents) == [] then result.None? && contents == []
              else result == Some(old(contents)[|old(contents)| - 1])
                   && contents == old(contents)[..|old(contents)| - 1]
    {
      var node := last;
      if node != null {
        var r, k := Remove(node);
        result := r;
      } else {
        result := None;
      }
    }

    method Shift() returns (result: Option<T>)
      requires Valid()
      modifies Repr
      ensures Valid() && Repr == old(Repr)
      ensures if old(contents) == [] then result.None? && contents == []
              else result == Some(old(contents)[0]) && contents == old(contents)[1..]
    {
      var node := first;
      if node != null {
        var r, k := Remove(node);
        result := r;
      } else {
        result := None;
      }
    }

    /** Walks the list freeing each node's predecessor, and the last node at the end: every node is
        freed, once, in order, and none is read after it was freed. */
    method Destroy() returns (rounds: seq<Round<Node<T>>>)
      requires Valid()
      ensures |rounds| == |nodes| + 1 && rounds[0].freed.None?
      ensures forall i :: 0 <= i < |nodes| ==> rounds[i + 1].freed == Some(nodes[i])
      ensures forall i :: 0 <= i < |nodes| ==> rounds[i].read == Some(nodes[i])
      ensures rounds[|nodes|].read.None?
      ensures NeverAfterFree(rounds)
    {
      rounds := [];
      var cur := first;
      ghost var i := 0;
      while cur != null
        invariant 0 <= i <= |nodes| && cur == At(i) && |rounds| == i
        invariant forall k {:trigger rounds[k]} :: 0 <= k < i ==>
          rounds[k] == Round(Some(nodes[k]), if k == 0 then None else Some(nodes[k - 1]))
        decreases |nodes| - i
      {
        var freed: Option<Node<T>> := None;
        if cur.prev != null {
          freed := Some(cur.prev as Node<T>);
        }
        rounds := rounds + [Round(Some(cur as Node<T>), freed)];
        cur := cur.next;
        i := i + 1;
      }
      var freed: Option<Node<T>> := None;
      if last != null {
        freed := Some(last as Node<T>);
      }
      rounds := rounds + [Round(None, freed)];
      InOrder(nodes, rounds);
      hide NeverAfterFree;
    }
  }

  // Every node is freed one round after it is read.
  lemma InOrder<T>(nodes: seq<T>, rounds: seq<Round<T>>)
    requires |rounds| == |nodes| + 1 && forall i, j :: 0 <= i < j < |nodes| ==> nodes[i] != nodes[j]
    requires forall k {:trigger rounds[k]} :: 0 <= k <= |nodes| ==>
      rounds[k] == Round(if k < |nodes| then Some(nodes[k]) else None, if k == 0 then None else Some(nodes[k - 1]))
    ensures NeverAfterFree(rounds)
  {
  }

  // ---------------------------------------------------------------- the list as a queue

  function Reversed<T>(s: seq<T>): (r: seq<T>)
    ensures |r| == |s|
    ensures forall i :: 0 <= i < |s| ==> r[i] == s[|s| - 1 - i]
  {
    if s == [] then [] else [s[|s| - 1]] + Reversed(s[..|s| - 1])
  }

  ghost function OldestFirst<T>(queue: List<T>): seq<T>
    reads queue
  {
    Reversed(queue.contents)
  }

  /** Queue_send is unshift and Queue_recv is pop: what is sent first is received first. */
  method QueueSend<T>(queue: List<T>, value: T)
    requires queue.Valid()
    modifies queue.Repr
    ensures queue.Valid() && fresh(queue.Repr - old(queue.Repr))
    ensures OldestFirst(queue) == old(OldestFirst(queue)) + [value]
  {
    queue.Unshift(value);
  }

  method QueueRecv<T>(queue: List<T>) returns (value: Option<T>)
    requires queue.Valid()
    modifies queue.Repr
    ensures queue.Valid() && queue.Repr == old(queue.Repr)
    ensures if old(OldestFirst(queue)) == [] then value.None? && OldestFirst(queue) == []
            else value == Some(old(OldestFirst(queue))[0]) && OldestFirst(queue) == old(OldestFirst(queue))[1..]
  {
    value := queue.Pop();
  }
}
