/** The bounded queue that drops its oldest element when full, as the object whose methods
    run under its mutex. */
module BoundedQueues {
  import opened Common

  /** What the mutex protects. */
  datatype Buffer<T> = Buffer(capacity: nat, items: seq<T>, closed: bool) {

    predicate IsFull() {
      |items| >= capacity
    }

    function Push(value: T): Buffer<T>
      requires capacity > 0
    {
      if closed then this
      else this.(items := (if IsFull() then items[1..] else items) + [value])
    }

    function Pop(): Buffer<T>
      requires items != []
    {
      this.(items := items[1..])
    }
  }

  function Empty<T>(capacity: nat): Buffer<T> {
    Buffer(if capacity < 1 then 1 else capacity, [], false)
  }

  /** A blocking pop either returns, with or without an element, or goes to sleep. */
  datatype WaitOutcome = Sleeps | Returns(success: bool)

  class BoundedQueue<T> {
    const capacity: nat
    var closed: bool
    var queue: seq<T>

    function Contents(): Buffer<T>
      reads this
    {
      Buffer(capacity, queue, closed)
    }

    ghost predicate Valid()
      reads this
    {
      0 < capacity && |queue| <= capacity
    }

    constructor (capacity: nat)
      ensures Valid() && Contents() == Empty(capacity)
      ensures this.capacity == (if capacity == 0 then 1 else capacity) && queue == [] && !closed
    {
      this.capacity := if capacity < 1 then 1 else capacity;
      closed := false;
      queue := [];
    }

    method PushOrDropOldest(value: T) returns (accepted: bool)
      requires Valid()
      modifies this
      ensures Valid()
      ensures accepted == !old(closed) && closed == old(closed)
      ensures Contents() == old(Contents()).Push(value)
      ensures old(closed) ==> queue == old(queue)
      ensures !old(closed) && |old(queue)| < capacity ==> queue == old(queue) + [value]
      ensures !old(closed) && |old(queue)| == capacity ==> queue == old(queue)[1..] + [value]
    {
      if closed {
        return false;
      }
      if |queue| >= capacity {
        queue := queue[1..];
      }
      queue := queue + [value];
      return true;
    }

    /** One critical section of a blocking pop: the wait predicate is tested under the lock
        and, if it holds, the element is taken before the lock is released. */
    method WaitPop(value: Cell?<T>) returns (outcome: WaitOutcome)
      requires Valid()
      modifies this, if value == null then {} else {value}
      ensures Valid()
      ensures closed == old(closed)
      ensures value == null ==> outcome == Returns(false) && queue == old(queue)
      ensures value != null && old(queue) == [] ==>
                && outcome == (if closed then Returns(false) else Sleeps)
                && queue == [] && value.value == old(value.value)
      ensures value != null && old(queue) != [] ==>
                && outcome == Returns(true)
                && queue == old(queue)[1..] && value.value == old(queue)[0]
    {
      if value == null {
        return Returns(false);
      }
      if !(closed || |queue| != 0) {
        return Sleeps;
      }
      if |queue| == 0 {
        return Returns(false);
      }
      value.value := queue[0];
      queue := queue[1..];
      return Returns(true);
    }

    method TryPop(value: Cell?<T>) returns (success: bool)
      requires Valid()
      modifies this, if value == null then {} else {value}
      ensures Valid()
      ensures success == (value != null && old(queue) != [])
      ensures closed == old(closed)
      ensures success ==> queue == old(queue)[1..] && value.value == old(queue)[0]
      ensures !success ==> queue == old(queue) && (value != null ==> value.value == old(value.value))
    {
      if value == null {
        return false;
      }
      if |queue| == 0 {
        return false;
      }
      value.value := queue[0];
      queue := queue[1..];
      return true;
    }

    method Size() returns (n: nat)
      ensures n == |queue|
    {
      n := |queue|;
    }

    method Close()
      requires Valid()
      modifies this
      ensures Valid() && closed && queue == old(queue)
    {
      closed := true;
    }
  }
}
