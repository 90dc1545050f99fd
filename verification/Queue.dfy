/** The queue: a linked list that ends in a sentinel node, and the count of its semaphore. */
module Queue {

  import opened Wrappers

  class QueueNode<T> {
    var item: Option<T>
    var next: QueueNode?<T>

    constructor ()
      ensures item == None && next == null
    {
      item, next := None, null;
    }
  }

  /** enqueue writes at front and dequeue takes from rear, as the fields are named in queue.c. */
  class Queue<T> {
    var front: QueueNode<T>
    var rear: QueueNode<T>
    var items: nat
    var invalid: bool
    ghost var spine: seq<QueueNode<T>>

    /** The spine runs from rear to front, and only its last node, the sentinel, is without item and successor. */
    ghost predicate Valid()
      reads this, spine
    {
      && |spine| > 0 && rear == spine[0] && front == spine[|spine| - 1]
      && (forall i, j :: 0 <= i < j < |spine| ==> spine[i] != spine[j])
      && (forall i :: 0 <= i < |spine| - 1 ==> spine[i].next == spine[i + 1] && spine[i].item.Some?)
      && front.next == null && front.item == None
      && (!invalid ==> items == |spine| - 1)
    }

    ghost function Contents(): (c: seq<T>)
      reads this, spine
      requires Valid()
      ensures |c| == |spine| - 1
    {
      seq(|spine| - 1, i requires 0 <= i < |spine| - 1 reads this, spine requires Valid() => spine[i].item.value)
    }

    constructor ()
      ensures Valid() && !invalid && Contents() == [] && items == 0
      ensures fresh(spine)
    {
      var node := new QueueNode<T>();
      front, rear := node, node;
      items := 0;
      invalid := false;
      spine := [node];
    }

    /** The item goes into the sentinel, and a new sentinel behind it. */
    method Enqueue(item: Option<T>) returns (ok: bool)
      requires Valid()
      modifies this, spine
      ensures Valid() && invalid == old(invalid) && fresh(set n | n in spine && n !in old(spine))
      ensures ok == (item.Some? && !old(invalid))
      ensures Contents() == old(Contents()) + if ok then [item.value] else []
      ensures items == old(items) + if ok then 1 else 0
    {
      if item.None? || invalid {
        return false;
      }
      front.item := item;
      var node := new QueueNode<T>();
      front.next := node;
      front := node;
      spine := spine + [node];
      items := items + 1;
      ok := true;
    }

    /** What dequeue does once Sem_wait has let it through, that is with a positive count. */
    method Dequeue() returns (item: Option<T>)
      requires Valid() && items > 0
      modifies this, spine
      ensures Valid() && invalid == old(invalid) && items == old(items) - 1
      ensures old(invalid) ==> item == None && Contents() == old(Contents())
      ensures !old(invalid) ==> item.Some? && old(Contents()) == [item.value] + Contents()
    {
      items := items - 1;
      if invalid {
        return None;
      }
      item := rear.item;
      var next := rear.next;
      assert next == spine[1];
      rear := next;
      spine := spine[1..];
    }

    /** Every item is destroyed once, in order, and then the empty sentinel. */
    method Invalidate() returns (ok: bool, destroyed: seq<Option<T>>)
      requires Valid()
      modifies this
      ensures Valid() && invalid && ok == !old(invalid) && items == old(items)
      ensures Contents() == old(Contents())
      ensures !ok ==> destroyed == []
      ensures ok ==> |destroyed| == |Contents()| + 1 && destroyed[|Contents()|] == None
      ensures ok ==> forall i :: 0 <= i < |Contents()| ==> destroyed[i] == Some(Contents()[i])
    {
      destroyed := [];
      if invalid {
        return false, destroyed;
      }
      var node: QueueNode?<T> := rear;
      ghost var k := 0;
      while node != null
        invariant k == |destroyed| <= |spine|
        invariant node == if k < |spine| then spine[k] else null
        invariant forall i :: 0 <= i < k ==> destroyed[i] == spine[i].item
        decreases |spine| - k
      {
        destroyed := destroyed + [node.item];
        node := node.next;
        k := k + 1;
      }
      invalid := true;
      ok := true;
    }
  }
}
