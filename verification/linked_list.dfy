/**
 * A singly linked list with head and tail references (lab02). The ghost field
 * `nodes` lists the nodes from head to tail; `Contents` lists their data.
 */
module LinkedLists {
  import opened Common

  class Node<T> {
    var data: T
    var next: Node?<T>

    constructor (d: T)
      ensures data == d && next == null
    {
      data := d;
      next := null;
    }
  }

  class LinkedList<T> {
    var head: Node?<T>
    var tail: Node?<T>
    ghost var nodes: seq<Node<T>>
    ghost var Contents: seq<T>
    ghost var Repr: set<object>

    ghost predicate Valid()
      reads this, Repr
    {
      && this in Repr
      && (forall i :: 0 <= i < |nodes| ==> nodes[i] in Repr)
      && |nodes| == |Contents|
      && (forall i, j :: 0 <= i < j < |nodes| ==> nodes[i] != nodes[j])
      && (forall i :: 0 <= i < |nodes| ==> nodes[i].data == Contents[i])
      && (forall i :: 0 <= i < |nodes| - 1 ==> nodes[i].next == nodes[i + 1])
      && (nodes == [] ==> head == null && tail == null)
      && (nodes != [] ==> head == nodes[0] && tail == nodes[|nodes| - 1] && tail.next == null)
    }

    constructor ()
      ensures Valid() && fresh(Repr) && Contents == []
    {
      head, tail := null, null;
      nodes, Contents := [], [];
      Repr := {this};
    }

    method InsertAtStart(d: T)
      requires Valid()
      modifies this
      ensures Valid() && fresh(Repr - old(Repr))
      ensures Contents == [d] + old(Contents)
    {
      var n := new Node(d);
      if head == null {
        head, tail := n, n;
      } else {
        n.next := head;
        head := n;
      }
      nodes, Contents := [n] + nodes, [d] + Contents;
      Repr := Repr + {n};
    }

    method InsertAtEnd(d: T)
      requires Valid()
      modifies this, Repr
      ensures Valid() && fresh(Repr - old(Repr))
      ensures Contents == old(Contents) + [d]
    {
      var n := new Node(d);
      if tail == null {
        head, tail := n, n;
      } else {
        tail.next := n;
        tail := n;
      }
      nodes, Contents := nodes + [n], Contents + [d];
      Repr := Repr + {n};
    }

    /** `None` on an empty list, otherwise the first element, which is unlinked. */
    method DeleteFromStart() returns (r: Option<T>)
      requires Valid()
      modifies this
      ensures Valid() && Repr == old(Repr)
      ensures old(Contents) == [] ==> r == None && Contents == []
      ensures old(Contents) != [] ==> r == Some(old(Contents)[0]) && Contents == old(Contents)[1..]
    {
      if head == null {
        return None;
      }
      r := Some(head.data);
      head := head.next;
      if head == null {
        tail := null;
      }
      nodes, Contents := nodes[1..], Contents[1..];
    }
  }

  /**
   * Appending at the end and deleting from the start is a queue; inserting at
   * the start and deleting from the start is a stack.
   */
  method QueueAndStackOrder<T>(x: T, y: T) returns (q1: Option<T>, q2: Option<T>, s1: Option<T>, s2: Option<T>, empty: Option<T>)
    ensures q1 == Some(x) && q2 == Some(y)
    ensures s1 == Some(y) && s2 == Some(x)
    ensures empty == None
  {
    var queue := new LinkedList<T>();
    queue.InsertAtEnd(x);
    queue.InsertAtEnd(y);
    q1 := queue.DeleteFromStart();
    q2 := queue.DeleteFromStart();
    var stack := new LinkedList<T>();
    stack.InsertAtStart(x);
    stack.InsertAtStart(y);
    s1 := stack.DeleteFromStart();
    s2 := stack.DeleteFromStart();
    empty := stack.DeleteFromStart();
  }
}
