/**
 The 64-bit machine timer registers behind 32-bit accesses, with a counter that keeps
 running while they are accessed (section 3.2.1 of the RISC-V Privileged Architecture 20211203).
 */
module Mtimer {
  import opened Widths

  function Hi(x: nat): nat { x / TWO32 }

  function Lo(x: nat): nat { x % TWO32 }

  /** The counter as seen by successive register accesses: it never runs backwards. */
  ghost predicate Running(clock: nat -> nat)
  {
    && (forall i :: clock(i) < TWO64)
    && (forall i, j :: i <= j ==> clock(i) <= clock(j))
  }

  lemma HiMonotone(a: nat, b: nat)
    requires a <= b
    ensures Hi(a) <= Hi(b)
  {
  }

  /** Reads until the high word is the same before and after the low word. `t` numbers the register accesses. */
  method GetMtime(clock: nat -> nat, t0: nat) returns (time: nat, t: nat, ghost when: nat)
    requires Running(clock)
    // the result is a value the counter held between call and return
    ensures t0 <= when < t && time == clock(when)
  {
    t, when := t0, t0;
    ghost var seen := Hi(clock(t0));
    HiMonotone(clock(t0), TWO64 - 1);
    while true
      invariant t0 <= t && seen <= Hi(clock(t)) && seen < TWO32
      decreases TWO32 - seen
    {
      var h := Hi(clock(t));
      var l := Lo(clock(t + 1));
      var h' := Hi(clock(t + 2));
      when := t + 1;
      HiMonotone(clock(t), clock(t + 1));
      HiMonotone(clock(t + 1), clock(t + 2));
      HiMonotone(clock(t + 2), clock(t + 3));
      HiMonotone(clock(t + 2), TWO64 - 1);
      t := t + 3;
      if h == h' {
        return h * TWO32 + l, t, when;
      }
      seen := h';
    }
  }

  /** Without the second look at the high word the result can be a time the counter never showed. */
  lemma SingleReadTears(clock: nat -> nat)
    requires clock(0) == TWO32 - 1 && forall i :: i > 0 ==> clock(i) == TWO32
    ensures forall when :: clock(when) != Hi(clock(0)) * TWO32 + Lo(clock(1))
  {
    forall when ensures clock(when) != Hi(clock(0)) * TWO32 + Lo(clock(1)) {
      if when > 0 { assert clock(when) == TWO32; }
    }
  }

  /** The timer registers as the program writes them. */
  class Registers {
    var compareL: nat
    var compareH: nat

    ghost predicate Valid()
      reads this
    {
      compareL < TWO32 && compareH < TWO32
    }

    ghost function Compare(): nat
      reads this
    {
      compareH * TWO32 + compareL
    }

    /** Three writes. `seen` lists the compare value after each of them. */
    method SetMtimeCompare(time: nat) returns (ghost seen: seq<nat>)
      requires Valid() && time < TWO64
      modifies this
      ensures Valid() && Compare() == time
      ensures |seen| == 3 && seen[2] == time
      // no pair that is ever visible is earlier than both the old and the new value
      ensures forall k :: 0 <= k < 3 ==> seen[k] >= Min(old(Compare()), time)
    {
      HiMonotone(time, TWO64 - 1);
      compareL := 0xFFFF_FFFF;
      seen := [Compare()];
      compareH := Hi(time);
      seen := seen + [Compare()];
      compareL := Lo(time);
      seen := seen + [Compare()];
    }
  }

  /** While the clock stays below both the old and the new value, no timer interrupt is raised on the way. */
  lemma NoEarlyInterrupt(was: nat, time: nat, seen: seq<nat>, clock: nat -> nat)
    requires Running(clock)
    requires forall k :: 0 <= k < |seen| ==> seen[k] >= Min(was, time)
    ensures forall k :: 0 <= k < |seen| && clock(k) >= seen[k] ==> clock(k) >= Min(was, time)
    ensures forall k :: 0 <= k < |seen| && clock(|seen|) < Min(was, time) ==> clock(k) < seen[k]
  {
    forall k | 0 <= k < |seen| ensures clock(k) <= clock(|seen|) {}
  }

  /** Writing the new low word first instead can show a compare value below both. */
  lemma LowFirstIsEarly()
    ensures var was, time := 1 * TWO32 + 9, 2 * TWO32 + 5;
            Hi(was) * TWO32 + Lo(time) < Min(was, time)
  {
  }

  // ---------------------------------------------------------------- setting the counter

  function WriteLow(c: nat, l: nat): nat { Hi(c) * TWO32 + l }

  function WriteHigh(c: nat, h: nat): nat { h * TWO32 + Lo(c) }

  /** The counter after the three writes of set-mtime, when it advances by d1 and d2 ticks between them. */
  function SetMtime(c: nat, time: nat, d1: nat, d2: nat): nat
  {
    var c1 := (WriteLow(c, 0) + d1) % TWO64;
    var c2 := (WriteHigh(c1, Hi(time)) + d2) % TWO64;
    WriteLow(c2, Lo(time))
  }

  /** Adding to a time changes its high word by the carry. */
  lemma HiOfSum(h: nat, x: nat)
    requires h < TWO32
    ensures Hi((h * TWO32 + x) % TWO64) == (h + Hi(x)) % TWO32
  {
    var q, r := h + Hi(x), Lo(x);
    assert h * TWO32 + x == q * TWO32 + r;
    var k, m := q / TWO32, q % TWO32;
    assert q * TWO32 + r == k * TWO64 + (m * TWO32 + r);
    assert (k * TWO64 + (m * TWO32 + r)) % TWO64 == m * TWO32 + r by { ModOf(k, m * TWO32 + r); }
  }

  lemma ModOf(k: nat, x: nat)
    requires x < TWO64
    ensures (k * TWO64 + x) % TWO64 == x
  {
  }

  lemma LoOfSum(h: nat, x: nat)
    ensures Lo((h * TWO32 + x) % TWO64) == Lo(x)
  {
    var y := h * TWO32 + x;
    assert y % TWO64 == y - (y / TWO64) * TWO64;
    assert y == (h + Hi(x)) * TWO32 + Lo(x);
    assert y % TWO64 == (h + Hi(x) - (y / TWO64) * TWO32) * TWO32 + Lo(x);
  }

  lemma HighKeptIff(h: nat, q: nat)
    requires h < TWO32
    ensures (h + q) % TWO32 == h <==> q % TWO32 == 0
  {
  }

  /** Clearing the low word first makes the result exact, for all delays, if and only if between the writes the low
      word's carries into the high word cancel out: after the high word is written, it overflows a multiple of 2^32
      times. For delays that stay below 2^32 in sum that is always the case. */
  lemma SetMtimeExact(c: nat, time: nat, d1: nat, d2: nat)
    requires c < TWO64 && time < TWO64
    ensures SetMtime(c, time, d1, d2) == time <==> Lo(Hi(Lo(d1) + d2)) == 0
    ensures d1 + d2 < TWO32 ==> SetMtime(c, time, d1, d2) == time
    ensures d1 < TWO32 && d2 < TWO32 ==> (SetMtime(c, time, d1, d2) == time <==> d1 + d2 < TWO32)
  {
    var c1 := (WriteLow(c, 0) + d1) % TWO64;
    HiMonotone(time, TWO64 - 1);
    LoOfSum(Hi(c), d1);
    var x := Lo(d1) + d2;
    assert WriteHigh(c1, Hi(time)) + d2 == Hi(time) * TWO32 + x;
    var c2 := (WriteHigh(c1, Hi(time)) + d2) % TWO64;
    HiOfSum(Hi(time), x);
    HighKeptIff(Hi(time), Hi(x));
    assert Hi(c2) == Hi(time) <==> Lo(Hi(x)) == 0;
    assert time == Hi(time) * TWO32 + Lo(time);
  }
}
