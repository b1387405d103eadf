/** The doubly linked, double-ended list that backs every other container
    (DSALinkedList.py).  The list object holds `head`, `tail` and `size`; each
    node holds its payload and the `prev`/`next` links.  The ghost sequence
    `Nodes` names the nodes from head to tail and `Contents` their payloads;
    `Valid()` ties the pointers to them. */
module LinkedList {
  import opened Wrappers

  /** The list's own failure: removing from an empty list (ListEmptyError). */
  datatype ListError = ListEmpty

  /** `_DSAListNode`: a payload and two structural links. */
  class Node<T> {
    var data: T
    var prev: Node?<T>
    var next: Node?<T>

    constructor (inData: T)
      ensures data == inData && prev == null && next == null
    {
      data := inData;
      prev := null;
      next := null;
    }
  }

  class DList<T> {
    var head: Node?<T>
    var tail: Node?<T>
    var size: nat

    ghost var Nodes: seq<Node<T>>
    ghost var Contents: seq<T>
    ghost var Repr: set<object>

    /** Head and tail are the ends of `Nodes`, `size` counts them, adjacent
        nodes' `prev`/`next` agree, the ends' outer links are null, and no node
        occurs twice. */
    ghost predicate Valid()
      reads this, Repr
      ensures Valid() ==> this in Repr
    {
      && this in Repr
      && (forall i | 0 <= i < |Nodes| :: Nodes[i] in Repr)
      && size == |Nodes| == |Contents|
      && (if Nodes == [] then head == null && tail == null
          else head == Nodes[0] && tail == Nodes[|Nodes| - 1] &&
               head.prev == null && tail.next == null)
      && (forall i | 0 <= i < |Nodes| :: Nodes[i].data == Contents[i])
      && (forall i | 0 <= i < |Nodes| - 1 :: Nodes[i].next == Nodes[i + 1])
      && (forall i | 0 < i < |Nodes| :: Nodes[i].prev == Nodes[i - 1])
      && (forall i, j | 0 <= i < j < |Nodes| :: Nodes[i] != Nodes[j])
    }

    constructor ()
      ensures Valid() && fresh(Repr)
      ensures Contents == [] && Nodes == []
    {
      head := null;
      tail := null;
      size := 0;
      Nodes := [];
      Contents := [];
      Repr := {this};
    }

    /** Emptiness is decided by the head pointer alone; the invariant makes it
        agree with the size and the contents. */
    method IsEmpty() returns (b: bool)
      requires Valid()
      ensures b <==> head == null
      ensures b <==> size == 0
      ensures b <==> Contents == []
    {
      b := head == null;
    }

    /** The first payload, or `None` on an empty list; nothing changes. */
    method PeekFirst() returns (r: Option<T>)
      requires Valid()
      ensures Contents == [] ==> r == None
      ensures Contents != [] ==> r == Some(Contents[0])
    {
      r := None;
      var empty := IsEmpty();
      if !empty {
        r := Some(head.data);
      }
    }

    /** The last payload, or `None` on an empty list; nothing changes. */
    method PeekLast() returns (r: Option<T>)
      requires Valid()
      ensures Contents == [] ==> r == None
      ensures Contents != [] ==> r == Some(Contents[|Contents| - 1])
    {
      r := None;
      var empty := IsEmpty();
      if !empty {
        r := Some(tail.data);
      }
    }

    method InsertFirst(newData: T)
      requires Valid()
      modifies Repr
      ensures Valid() && fresh(Repr - old(Repr))
      ensures Contents == [newData] + old(Contents)
      ensures size == old(size) + 1
      ensures old(Contents) == [] ==> head == tail
    {
      var newNd := new Node(newData);
      var empty := IsEmpty();
      if empty {
        head := newNd;
        tail := newNd;
      } else {
        newNd.next := head;
        head.prev := newNd;
        head := newNd;
      }
      size := size + 1;
      Nodes := [newNd] + Nodes;
      Contents := [newData] + Contents;
      Repr := Repr + {newNd};
    }

    method InsertLast(newData: T)
      requires Valid()
      modifies Repr
      ensures Valid() && fresh(Repr - old(Repr))
      ensures Contents == old(Contents) + [newData]
      ensures size == old(size) + 1
      ensures old(Contents) == [] ==> head == tail
    {
      var newNd := new Node(newData);
      var empty := IsEmpty();
      if empty {
        head := newNd;
        tail := newNd;
      } else {
        tail.next := newNd;
        newNd.prev := tail;
        tail := newNd;
      }
      size := size + 1;
      Nodes := Nodes + [newNd];
      Contents := Contents + [newData];
      Repr := Repr + {newNd};
    }

    /** Removes and returns the first payload; on an empty list it fails with
        `ListEmpty` and changes nothing. */
    method RemoveFirst() returns (r: Result<T, ListError>)
      requires Valid()
      modifies Repr
      ensures Valid() && Repr == old(Repr)
      ensures old(Contents) == [] ==> r == Err(ListEmpty) && Contents == []
      ensures old(Contents) != [] ==>
                r == Ok(old(Contents)[0]) && Contents == old(Contents)[1..] &&
                size == old(size) - 1
    {
      var empty := IsEmpty();
      if empty {
        r := Err(ListEmpty);
        return;
      }
      var nodeData := head.data;
      assert |Nodes| > 1 ==> head.next == Nodes[1];
      head := head.next;
      if head != null {
        head.prev := null;
      } else {
        tail := null;
      }
      size := size - 1;
      Nodes := Nodes[1..];
      Contents := Contents[1..];
      r := Ok(nodeData);
    }

    /** Removes and returns the last payload; on an empty list it fails with
        `ListEmpty` and changes nothing.  A one-node list clears both ends. */
    method RemoveLast() returns (r: Result<T, ListError>)
      requires Valid()
      modifies Repr
      ensures Valid() && Repr == old(Repr)
      ensures old(Contents) == [] ==> r == Err(ListEmpty) && Contents == []
      ensures old(Contents) != [] ==>
                r == Ok(old(Contents)[|old(Contents)| - 1]) &&
                Contents == old(Contents)[..|old(Contents)| - 1] &&
                size == old(size) - 1
      ensures |old(Contents)| == 1 ==> head == null && tail == null
    {
      var empty := IsEmpty();
      if empty {
        r := Err(ListEmpty);
        return;
      }
      var nodeData;
      assert |Nodes| > 1 ==> head.next == Nodes[1];
      if head.next == null {
        nodeData := head.data;
        head := null;
        tail := null;
      } else {
        assert |Nodes| > 1 && tail.prev == Nodes[|Nodes| - 2];
        nodeData := tail.data;
        tail := tail.prev;
        tail.next := null;
      }
      size := size - 1;
      Nodes := Nodes[..|Nodes| - 1];
      Contents := Contents[..|Contents| - 1];
      r := Ok(nodeData);
    }
  }
}
