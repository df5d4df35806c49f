/**
 * `CappedQueue<T>`: a first-in first-out queue with a fixed capacity that
 * drops its oldest item to make room for a new one. The wrapped
 * `Queue<T>` is the sequence `items`, oldest first.
 */
module CappedQueues {
  import opened Wrappers
  import opened Framework

  /**
   * The contents after enqueueing `x`: a full queue first loses its oldest
   * item, and dequeueing from an empty queue (capacity zero) fails.
   */
  function Pushed<T>(items: seq<T>, capacity: int, x: T): (r: Result<seq<T>, Exception>)
    ensures r.Failure? <==> |items| == capacity && items == []
    ensures r.Success? && |items| != capacity ==> r.value == items + [x]
    ensures r.Success? && |items| == capacity ==> r.value == items[1..] + [x]
  {
    if |items| == capacity then
      if items == [] then Failure(InvalidOperation("Queue empty."))
      else Success(items[1..] + [x])
    else Success(items + [x])
  }

  /** The last `n` elements of `s`, or all of `s` when it is shorter. */
  function Newest<T>(s: seq<T>, n: nat): (r: seq<T>)
    ensures |r| == if |s| <= n then |s| else n
    ensures r == s[|s| - |r|..]
  {
    if |s| <= n then s else s[|s| - n..]
  }

  /** Enqueueing into a queue with room to spare keeps `Count <= Capacity` and the newest `Capacity` items. */
  lemma PushedKeepsNewest<T>(items: seq<T>, capacity: int, x: T)
    requires capacity >= 1 && |items| <= capacity
    ensures Pushed(items, capacity, x).Success?
    ensures |Pushed(items, capacity, x).value| <= capacity
    ensures Pushed(items, capacity, x).value == Newest(items + [x], capacity)
  {
    if |items| == capacity {
      assert (items + [x])[|items + [x]| - capacity..] == items[1..] + [x];
    }
  }

  /** With capacity zero, enqueueing always fails. */
  lemma ZeroCapacityFails<T>(x: T)
    ensures Pushed([], 0, x) == Failure(InvalidOperation("Queue empty."))
  {
  }

  /** The contents after enqueueing `xs` one by one, or the first failure. */
  function PushedAll<T>(items: seq<T>, capacity: int, xs: seq<T>): Result<seq<T>, Exception>
    decreases |xs|
  {
    if xs == [] then Success(items)
    else match Pushed(items, capacity, xs[0])
      case Success(next) => PushedAll(next, capacity, xs[1..])
      case Failure(e) => Failure(e)
  }

  /** Any run of enqueues leaves exactly the newest `Capacity` items of everything enqueued, oldest first. */
  lemma {:induction false} PushedAllKeepsNewest<T>(items: seq<T>, capacity: int, xs: seq<T>)
    requires capacity >= 1 && |items| <= capacity
    ensures PushedAll(items, capacity, xs) == Success(Newest(items + xs, capacity))
    decreases |xs|
  {
    if xs != [] {
      PushedKeepsNewest(items, capacity, xs[0]);
      var next := Pushed(items, capacity, xs[0]).value;
      assert PushedAll(items, capacity, xs) == PushedAll(next, capacity, xs[1..]);
      PushedAllKeepsNewest(next, capacity, xs[1..]);
      assert next == Newest(items + [xs[0]], capacity);
      NewestOfNewest(items + [xs[0]], xs[1..], capacity);
      assert items + [xs[0]] + xs[1..] == items + xs;
      assert Newest(next + xs[1..], capacity) == Newest(items + xs, capacity);
    } else {
      assert items + xs == items;
    }
  }

  /** Trimming a prefix to its newest `n` elements first does not change the newest `n` elements of the whole. */
  lemma NewestOfNewest<T>(s: seq<T>, t: seq<T>, n: nat)
    ensures Newest(Newest(s, n) + t, n) == Newest(s + t, n)
  {
    if |s| > n {
      var k := |s| - n;
      var u := s + t;
      var w := s[k..] + t;
      assert Newest(s, n) == s[k..];
      assert u[k..] == w;
      assert |w| == n + |t| && |u| == k + |w|;
      assert Newest(w, n) == w[|t|..];
      assert Newest(u, n) == u[k + |t|..];
      assert u[k + |t|..] == u[k..][|t|..];
    }
  }

  /** The queue of the test that fills a ten-item queue with 0 to 10: the 0 has been dropped. */
  lemma TenOfEleven()
    ensures PushedAll([], 10, [0, 1, 2, 3, 4, 5, 6, 7, 8, 9, 10]) == Success([1, 2, 3, 4, 5, 6, 7, 8, 9, 10])
  {
    var all := [0, 1, 2, 3, 4, 5, 6, 7, 8, 9, 10];
    PushedAllKeepsNewest([], 10, all);
    assert [] + all == all;
    assert Newest(all, 10) == all[1..];
    assert all[1..] == [1, 2, 3, 4, 5, 6, 7, 8, 9, 10];
  }

  /** `CappedQueue<T>`: the wrapped queue's contents, oldest first, and the capacity fixed at construction. */
  class CappedQueue<T(==)> {
    var items: seq<T>
    const capacity: int

    /** The queue never holds more than its capacity. */
    predicate Valid()
      reads this
    {
      0 <= capacity && |items| <= capacity
    }

    /** `new CappedQueue<T>(capacity)` for a capacity the wrapped queue accepts. */
    constructor (capacity: int)
      requires capacity >= 0
      ensures Valid()
      ensures items == [] && this.capacity == capacity
    {
      items := [];
      this.capacity := capacity;
    }

    /** `new CappedQueue<T>(capacity)`: a negative capacity is refused by the wrapped queue's constructor. */
    static method Create(capacity: int) returns (r: Result<CappedQueue<T>, Exception>)
      ensures capacity < 0 <==> r == Failure(ArgumentOutOfRange("capacity"))
      ensures r.Success? ==> fresh(r.value) && r.value.Valid()
      ensures r.Success? ==> r.value.items == [] && r.value.capacity == capacity
    {
      if capacity < 0 {
        return Failure(ArgumentOutOfRange("capacity"));
      }
      var q := new CappedQueue(capacity);
      return Success(q);
    }

    /** `Count`: the number of items held. */
    function Count(): (n: nat)
      reads this
      ensures Valid() ==> n <= capacity
      ensures n == 0 <==> items == []
    {
      |items|
    }

    /** `Enqueue`: a full queue drops its oldest item, then `x` goes to the tail. */
    method Enqueue(x: T) returns (r: Outcome<Exception>)
      requires Valid()
      modifies this
      ensures Valid()
      ensures match Pushed(old(items), capacity, x)
        case Success(next) => r == Pass && items == next
        case Failure(e) => r == Fail(e) && items == old(items)
    {
      if |items| == capacity {
        if items == [] {
          return Fail(InvalidOperation("Queue empty."));
        }
        items := items[1..];
      }
      items := items + [x];
      return Pass;
    }

    /** `Dequeue`: removes and returns the oldest item; an empty queue is an error. */
    method Dequeue() returns (r: Result<T, Exception>)
      requires Valid()
      modifies this
      ensures Valid()
      ensures old(items) == [] ==> r == Failure(InvalidOperation("Queue empty.")) && items == old(items)
      ensures old(items) != [] ==> r == Success(old(items)[0]) && items == old(items)[1..]
    {
      if items == [] {
        return Failure(InvalidOperation("Queue empty."));
      }
      r := Success(items[0]);
      items := items[1..];
    }

    /** `Clear`: empties the queue; the capacity is a constant and stays. */
    method Clear()
      requires Valid()
      modifies this
      ensures Valid() && items == []
    {
      items := [];
    }

    /** `Contains`: whether `x` is one of the items held. */
    predicate Contains(x: T): (r: bool)
      reads this
      ensures r <==> exists i | 0 <= i < |items| :: items[i] == x
    {
      x in items
    }
  }
}
