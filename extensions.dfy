/**
 * NetcodeExtensions.PushFirst: puts a value at the head of a FIFO queue by
 * enqueuing it at the tail and then rotating every older element behind it.
 * The queue is System.Collections.Generic.Queue, reduced to what PushFirst
 * uses: its count, Enqueue and Dequeue.
 */
module NetcodeExtensions {
  import opened Wrappers

  /** A FIFO queue: items[0] is the head, the next to be dequeued. */
  class Queue<T> {
    var items: seq<T>

    constructor (items: seq<T>)
      ensures this.items == items
    {
      this.items := items;
    }

    function Count(): nat
      reads this
    {
      |items|
    }

    /** Enqueue: the value goes to the tail. */
    method Enqueue(value: T)
      modifies this
      ensures items == old(items) + [value]
    {
      items := items + [value];
    }

    /** Dequeue: removes and returns the head; on an empty queue it raises and removes nothing. */
    method Dequeue() returns (r: Result<T>)
      modifies this
      ensures old(items) == [] ==> r == Err(InvalidOperation) && items == old(items)
      ensures old(items) != [] ==> r == Ok(old(items)[0]) && items == old(items)[1..]
    {
      if items == [] {
        return Err(InvalidOperation);
      }
      r := Ok(items[0]);
      items := items[1..];
    }
  }

  /**
   * PushFirst: after the count older elements have gone round once, the new
   * value is the head and the older elements follow it in their old order.
   */
  method PushFirst<T>(queue: Queue<T>, value: T)
    modifies queue
    ensures queue.items == [value] + old(queue.items)
  {
    var count := queue.Count();
    queue.Enqueue(value);
    for i := 0 to count
      invariant queue.items == old(queue.items)[i..] + [value] + old(queue.items)[..i]
    {
      var head := queue.Dequeue();
      if head.Err? {
        assert false;
      }
      queue.Enqueue(head.value);
      assert old(queue.items)[..i] + [head.value] == old(queue.items)[..i + 1];
    }
  }
}
