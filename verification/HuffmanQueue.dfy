/** The queue of the archiver: a list of linked nodes with links to its front and its back. */
module HuffmanQueue {

  class QNode<T> {
    var data: T
    var next: QNode?<T>

    constructor (data: T)
      ensures this.data == data && next == null
    {
      this.data, next := data, null;
    }
  }

  class Queue<T> {
    var frontNode: QNode?<T>
    var backNode: QNode?<T>
    var size: nat
    ghost var nodes: seq<QNode<T>>
    ghost var items: seq<T>
    ghost var Repr: set<QNode<T>>

    /** Distinct nodes are linked from the front to the back, and hold the items in order. */
    ghost predicate Valid()
      reads this, Repr
    {
      && (forall i :: 0 <= i < |nodes| ==> nodes[i] in Repr)
      && |nodes| == |items| == size
      && frontNode == At(0) && backNode == At(|nodes| - 1)
      && (forall i :: 0 <= i < |nodes| ==> nodes[i].data == items[i])
      && (forall i {:trigger nodes[i].next} :: 0 <= i < |nodes| ==> nodes[i].next == At(i + 1))
      && (forall i, j :: 0 <= i < j < |nodes| ==> nodes[i] != nodes[j])
    }

    ghost function At(i: int): QNode?<T>
      reads this
    {
      if 0 <= i < |nodes| then nodes[i] else null
    }

    constructor ()
      ensures Valid() && items == [] && Repr == {}
    {
      frontNode, backNode, size, nodes, items, Repr := null, null, 0, [], [], {};
    }

    /** The value comes behind all others. */
    method Push(value: T)
      requires Valid()
      modifies this, Repr
      ensures Valid() && items == old(items) + [value] && fresh(Repr - old(Repr))
    {
      var newNode := new QNode(value);
      if size == 0 {
        backNode := newNode;
        frontNode := newNode;
      } else {
        backNode.next := newNode;
        backNode := newNode;
      }
      size := size + 1;
      nodes := nodes + [newNode];
      items := items + [value];
      Repr := Repr + {newNode};
    }

    /** The first value comes out, and no node is changed. */
    method Pop() returns (value: T)
      requires Valid() && items != []
      modifies this
      ensures Valid() && value == old(items)[0] && items == old(items)[1..] && Repr == old(Repr)
    {
      var head := frontNode;
      value := head.data;
      frontNode := head.next;
      if frontNode == null {
        backNode := null;
      }
      size := size - 1;
      nodes := nodes[1..];
      items := items[1..];
    }

    function GetFront(): (value: T)
      requires Valid() && items != []
      reads this, Repr
      ensures value == items[0]
    {
      frontNode.data
    }

    predicate IsEmpty()
      requires Valid()
      reads this, Repr
      ensures IsEmpty() <==> items == []
    {
      frontNode == null
    }
  }
}
