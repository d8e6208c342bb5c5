/**
 The ring buffer behind the deferred-work queue. Submit and pop run with interrupts
 disabled, so each is one atomic step for everybody else.
 */
module WorkQueue {
  import opened Options

  /** A work function and its argument; function 0 is the null pointer. */
  datatype Work = Work(fn: nat, arg: nat)

  const NEVER: nat := 0xFFFF_FFFF_FFFF_FFFF

  predicate Accepts(queue: seq<Work>, w: Work, capacity: nat)
  {
    w.fn != 0 && |queue| < capacity
  }

  lemma ModSmall(x: nat, n: nat)
    requires 0 < n && x < 2 * n
    ensures x % n == if x < n then x else x - n
  {
    if x >= n { assert x == 1 * n + (x - n); }
  }

  class Ring {
    const capacity: nat
    const items: array<Work>
    var head: nat
    var tail: nat
    var count: nat
    var locked: bool
    var wake: nat     // deadline of the task that drains the queue
    var gie: bool     // interrupts are on
    var meie: bool    // external interrupts are enabled in MIE
    var msie: bool    // software interrupts are enabled in MIE
    var pended: bool  // a software interrupt has been requested

    ghost predicate Valid()
      reads this
    {
      Shape() && !locked
    }

    /** Head, tail and count agree. */
    ghost predicate Shape()
      reads this`head, this`tail, this`count
    {
      && 0 < capacity == items.Length
      && head < capacity && tail < capacity && count <= capacity
      && tail == Slot(count)
    }

    /** Index of the i-th queued item. */
    ghost function Slot(i: nat): int
      reads this`head
    {
      if head + i < capacity then head + i else head + i - capacity
    }

    /** The queued items, oldest first. */
    ghost function Contents(): (q: seq<Work>)
      requires Shape()
      reads this`head, this`tail, this`count, items
      ensures |q| == count && forall i :: 0 <= i < count ==> q[i] == items[Slot(i)]
    {
      var all, h, n, c := items[..], head, capacity, count;
      seq(c, i requires 0 <= i < c && c <= n == |all| && h < n => all[if h + i < n then h + i else h + i - n])
    }

    constructor (capacity: nat)
      requires 0 < capacity
      ensures Valid() && Contents() == [] && this.capacity == capacity && wake == 0 && fresh(items)
    {
      this.capacity := capacity;
      items := new Work[capacity](_ => Work(0, 0));
      head, tail, count, locked, wake := 0, 0, 0, false, 0;
      gie, meie, msie, pended := true, false, false, false;
    }

    method IsPending() returns (r: bool)
      requires Valid()
      ensures r <==> Contents() != []
    {
      r := count != 0;
    }

    /** Put an item behind the others. */
    method Store(w: Work)
      requires Shape() && count < capacity
      modifies this`tail, this`count, items
      ensures Shape() && Contents() == old(Contents()) + [w]
    {
      items[tail] := w;
      ModSmall(tail + 1, capacity);
      tail := (tail + 1) % capacity;
      count := count + 1;
      assert forall i :: 0 <= i < old(count) ==> Slot(i) != old(tail);
    }

    /** Accept the work unless the function is null or the ring is full; then wake the draining task at `now`. */
    method Submit(w: Work, now: nat) returns (ok: bool)
      requires Valid()
      modifies this`tail, this`count, this`locked, this`wake, this`gie, this`meie, this`msie, this`pended, items
      ensures Valid()
      ensures ok <==> Accepts(old(Contents()), w, capacity)
      ensures Contents() == if ok then old(Contents()) + [w] else old(Contents())
      ensures wake == if ok then now else old(wake)
      // accepted work requests a software interrupt
      ensures if ok then msie && pended else msie == old(msie) && pended == old(pended)
      // unless the function is null, interrupts are on afterwards, even if the caller had them off
      ensures gie == (w.fn != 0 || old(gie)) && meie == (w.fn != 0 || old(meie))
    {
      ok := false;
      if w.fn == 0 {
        return;
      }
      gie := false;
      if !locked {
        locked := true;
        if count < capacity {
          Store(w);
          wake := now;
          msie := true;
          pended := true;
          ok := true;
        }
        locked := false;
      }
      gie, meie := true, true;
    }

    /** Take the oldest item. */
    method Pop() returns (w: Option<Work>)
      requires Valid()
      modifies this`head, this`count
      ensures Valid()
      ensures old(Contents()) == [] ==> w == None && Contents() == []
      ensures old(Contents()) != [] ==> w == Some(old(Contents())[0]) && Contents() == old(Contents())[1..]
    {
      if count == 0 {
        return None;
      }
      w := Some(items[head]);
      ModSmall(head + 1, capacity);
      head := (head + 1) % capacity;
      count := count - 1;
    }

    /** The end of a drain: sleep until the next submission. */
    method Park()
      requires Valid()
      modifies this`wake
      ensures Valid() && wake == NEVER
    {
      wake := NEVER;
    }
  }
}
