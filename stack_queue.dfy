/** The two thin adapters over the linked list (DSAStack.py, DSAQueue.py).
    Each wraps one list in its `linkedList` field and raises its own underflow
    error before the list could raise `ListEmpty`. */
module Stack {
  import opened Wrappers
  import opened LinkedList

  datatype StackError = StackUnderflow

  class DSAStack<T> {
    var linkedList: DList<T>
    ghost var Repr: set<object>

    ghost predicate Valid()
      reads this, Repr
      ensures Valid() ==> this in Repr
    {
      && this in Repr
      && linkedList in Repr
      && linkedList.Repr <= Repr
      && this !in linkedList.Repr
      && linkedList.Valid()
    }

    /** The stack's contents, top first. */
    ghost function Contents(): seq<T>
      reads this, linkedList
    {
      linkedList.Contents
    }

    constructor ()
      ensures Valid() && fresh(Repr)
      ensures Contents() == []
    {
      linkedList := new DList();
      new;
      Repr := {this} + linkedList.Repr;
    }

    /** Exactly the underlying list's emptiness. */
    method IsEmpty() returns (b: bool)
      requires Valid()
      ensures b <==> Contents() == []
    {
      b := linkedList.IsEmpty();
    }

    method Push(data: T)
      requires Valid()
      modifies Repr
      ensures Valid() && fresh(Repr - old(Repr))
      ensures Contents() == [data] + old(Contents())
    {
      linkedList.InsertFirst(data);
      Repr := Repr + linkedList.Repr;
    }

    /** Removes the most recently pushed value; on an empty stack it fails with
        `StackUnderflow` and changes nothing. */
    method Pop() returns (r: Result<T, StackError>)
      requires Valid()
      modifies Repr
      ensures Valid() && Repr == old(Repr)
      ensures old(Contents()) == [] ==> r == Err(StackUnderflow) && Contents() == []
      ensures old(Contents()) != [] ==>
                r == Ok(old(Contents())[0]) && Contents() == old(Contents())[1..]
    {
      var empty := IsEmpty();
      if empty {
        return Err(StackUnderflow);
      }
      var x := linkedList.RemoveFirst();
      r := Ok(x.value);
    }

    /** The most recently pushed value, left in place; `StackUnderflow` when
        the stack is empty. */
    method Top() returns (r: Result<T, StackError>)
      requires Valid()
      ensures Contents() == [] ==> r == Err(StackUnderflow)
      ensures Contents() != [] ==> r == Ok(Contents()[0])
    {
      var empty := IsEmpty();
      if empty {
        return Err(StackUnderflow);
      }
      var x := linkedList.PeekFirst();
      r := Ok(x.value);
    }
  }

  /** Last in, first out: a pop right after a push returns the pushed value
      and leaves the stack as it was. */
  method PushThenPop<T>(s: DSAStack<T>, x: T) returns (r: Result<T, StackError>)
    requires s.Valid()
    modifies s.Repr
    ensures s.Valid()
    ensures r == Ok(x) && s.Contents() == old(s.Contents())
  {
    s.Push(x);
    r := s.Pop();
  }
}

module Queue {
  import opened Wrappers
  import opened LinkedList

  datatype QueueError = QueueUnderflow

  class DSAQueue<T> {
    var linkedList: DList<T>
    ghost var Repr: set<object>

    ghost predicate Valid()
      reads this, Repr
      ensures Valid() ==> this in Repr
    {
      && this in Repr
      && linkedList in Repr
      && linkedList.Repr <= Repr
      && this !in linkedList.Repr
      && linkedList.Valid()
    }

    /** The queue's contents, front first. */
    ghost function Contents(): seq<T>
      reads this, linkedList
    {
      linkedList.Contents
    }

    constructor ()
      ensures Valid() && fresh(Repr)
      ensures Contents() == []
    {
      linkedList := new DList();
      new;
      Repr := {this} + linkedList.Repr;
    }

    /** Exactly the underlying list's emptiness. */
    method IsEmpty() returns (b: bool)
      requires Valid()
      ensures b <==> Contents() == []
    {
      b := linkedList.IsEmpty();
    }

    method Enqueue(data: T)
      requires Valid()
      modifies Repr
      ensures Valid() && fresh(Repr - old(Repr))
      ensures Contents() == old(Contents()) + [data]
    {
      linkedList.InsertLast(data);
      Repr := Repr + linkedList.Repr;
    }

    /** Removes the oldest value; on an empty queue it fails with
        `QueueUnderflow` and changes nothing. */
    method Dequeue() returns (r: Result<T, QueueError>)
      requires Valid()
      modifies Repr
      ensures Valid() && Repr == old(Repr)
      ensures old(Contents()) == [] ==> r == Err(QueueUnderflow) && Contents() == []
      ensures old(Contents()) != [] ==>
                r == Ok(old(Contents())[0]) && Contents() == old(Contents())[1..]
    {
      var empty := IsEmpty();
      if empty {
        return Err(QueueUnderflow);
      }
      var x := linkedList.RemoveFirst();
      r := Ok(x.value);
    }

    /** The oldest value, left in place; `QueueUnderflow` when empty. */
    method Peek() returns (r: Result<T, QueueError>)
      requires Valid()
      ensures Contents() == [] ==> r == Err(QueueUnderflow)
      ensures Contents() != [] ==> r == Ok(Contents()[0])
    {
      var empty := IsEmpty();
      if empty {
        return Err(QueueUnderflow);
      }
      var x := linkedList.PeekFirst();
      r := Ok(x.value);
    }
  }

  /** First in, first out: two values enqueued one after the other behind
      whatever the queue holds come out after it, in the order they went in. */
  method EnqueueTwiceDequeueTwice<T>(q: DSAQueue<T>, x: T, y: T) returns (r1: Result<T, QueueError>, r2: Result<T, QueueError>)
    requires q.Valid()
    modifies q.Repr
    ensures q.Valid()
    ensures |old(q.Contents())| == 0 ==> r1 == Ok(x) && r2 == Ok(y) && q.Contents() == []
    ensures |old(q.Contents())| == 1 ==>
              r1 == Ok(old(q.Contents())[0]) && r2 == Ok(x) && q.Contents() == [y]
    ensures |old(q.Contents())| >= 2 ==>
              r1 == Ok(old(q.Contents())[0]) && r2 == Ok(old(q.Contents())[1]) &&
              q.Contents() == old(q.Contents())[2..] + [x, y]
  {
    q.Enqueue(x);
    q.Enqueue(y);
    r1 := q.Dequeue();
    r2 := q.Dequeue();
  }
}
