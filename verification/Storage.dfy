/**
 Byte-granular write and erase over a paged NOR device.
 */
module Storage {
  import opened Options
  import opened StorageDevice

  // ---------------------------------------------------------------- bits and pages

  /** Some bit has to go from 0 to 1. */
  predicate Rises(was: byte, want: byte)
  {
    want & !was != 0
  }

  /** `want` can be programmed over `was`: no bit has to go from 0 to 1. */
  predicate Programmable(was: seq<byte>, want: seq<byte>)
    requires |was| == |want|
  {
    forall i :: 0 <= i < |was| ==> !Rises(was[i], want[i])
  }

  /** The contents after a series of program operations, each an offset and its data. */
  ghost function ProgramAll(s: seq<byte>, ops: seq<(nat, seq<byte>)>): (r: seq<byte>)
    requires forall k :: 0 <= k < |ops| ==> ops[k].0 + |ops[k].1| <= |s|
    ensures |r| == |s|
    decreases |ops|
  {
    if ops == [] then s else ProgramAll(Program(s, ops[0].0, ops[0].1), ops[1..])
  }

  /** Some series of program operations, without any erase, turns `was` into `want`. */
  ghost predicate Reachable(was: seq<byte>, want: seq<byte>)
  {
    exists ops: seq<(nat, seq<byte>)> ::
      && (forall k :: 0 <= k < |ops| ==> ops[k].0 + |ops[k].1| <= |was|)
      && ProgramAll(was, ops) == want
  }

  lemma {:induction false} ProgramsOnlyClear(s: seq<byte>, ops: seq<(nat, seq<byte>)>)
    requires forall k :: 0 <= k < |ops| ==> ops[k].0 + |ops[k].1| <= |s|
    ensures Programmable(s, ProgramAll(s, ops))
    decreases |ops|
  {
    if ops != [] {
      var t := Program(s, ops[0].0, ops[0].1);
      ProgramsOnlyClear(t, ops[1..]);
      var r := ProgramAll(t, ops[1..]);
      forall i | 0 <= i < |s| ensures !Rises(s[i], r[i]) {
        assert !Rises(t[i], r[i]);
        assert !Rises(s[i], t[i]);
        SubsetTransitive(r[i], t[i], s[i]);
      }
    }
  }

  lemma SubsetTransitive(a: byte, b: byte, c: byte)
    requires !Rises(b, a) && !Rises(c, b)
    ensures !Rises(c, a)
  {
  }

  lemma MeetOfSubset(want: byte, was: byte)
    ensures !Rises(was, want) <==> Meet(was, want) == want
    ensures Meet(0xFF, want) == want
    ensures !Rises(was, 0xFF) ==> was == 0xFF
    ensures !Rises(want, want)
    ensures Meet(want, want) == want
  {
  }

  /** The bit test of the page scan decides exactly whether programming alone can do the job. */
  lemma ReachableIffProgrammable(was: seq<byte>, want: seq<byte>)
    requires |was| == |want|
    ensures Reachable(was, want) <==> Programmable(was, want)
  {
    if Programmable(was, want) {
      var ops: seq<(nat, seq<byte>)> := [(0, want)];
      forall i | 0 <= i < |was| ensures Program(was, 0, want)[i] == want[i] {
        MeetOfSubset(want[i], was[i]);
      }
      assert ProgramAll(was, ops) == ProgramAll(Program(was, 0, want), ops[1..]) == want;
    }
    if Reachable(was, want) {
      var ops: seq<(nat, seq<byte>)> :|
        && (forall k :: 0 <= k < |ops| ==> ops[k].0 + |ops[k].1| <= |was|)
        && ProgramAll(was, ops) == want;
      ProgramsOnlyClear(was, ops);
      assert Programmable(was, want);
    }
  }

  /** What one page holds after it has been processed, for any clean byte. */
  function PageAfter(clean: byte, was: seq<byte>, want: seq<byte>, erasing: bool): (r: seq<byte>)
    requires |was| == |want|
    ensures |r| == |was|
  {
    if was == want then was
    else if !Programmable(was, want) then Program(Fill(|was|, clean), 0, want)
    else if erasing then was
    else Program(was, 0, want)
  }

  /** With clean byte 0xFF a page always ends as wanted; an erase wants clean bytes wherever it differs. */
  lemma PageAfterIsWanted(was: seq<byte>, want: seq<byte>, erasing: bool)
    requires |was| == |want|
    requires erasing ==> forall i :: 0 <= i < |was| ==> want[i] == was[i] || want[i] == 0xFF
    ensures PageAfter(0xFF, was, want, erasing) == want
  {
    forall i | 0 <= i < |was| ensures PageAfter(0xFF, was, want, erasing)[i] == want[i] {
      MeetOfSubset(want[i], was[i]);
    }
  }

  /** 0xFF is the only clean byte for which every page write, or every page erase, works. */
  lemma CleanByteMustBeFF(clean: byte, n: nat)
    requires 0 < n
    ensures (forall was: seq<byte>, want: seq<byte> | |was| == |want| == n ::
               PageAfter(clean, was, want, false) == want)
            <==> clean == 0xFF
    ensures (forall was: seq<byte> | |was| == n :: PageAfter(clean, was, Fill(n, clean), true) == Fill(n, clean))
            <==> clean == 0xFF
  {
    if clean == 0xFF {
      forall was: seq<byte>, want: seq<byte> | |was| == |want| == n
        ensures PageAfter(clean, was, want, false) == want
      {
        PageAfterIsWanted(was, want, false);
      }
      forall was: seq<byte> | |was| == n ensures PageAfter(clean, was, Fill(n, clean), true) == Fill(n, clean) {
        PageAfterIsWanted(was, Fill(n, clean), true);
      }
    } else {
      var zero, ones := Fill(n, 0), Fill(n, 0xFF);
      assert zero[0] != ones[0] && Rises(zero[0], ones[0]);
      assert PageAfter(clean, zero, ones, false)[0] == Meet(clean, 0xFF) == clean;
      assert PageAfter(clean, zero, ones, false) != ones;
      assert ones[0] != Fill(n, clean)[0];
      assert Programmable(ones, Fill(n, clean));
      assert PageAfter(clean, ones, Fill(n, clean), true) == ones;
    }
  }

  // ---------------------------------------------------------------- page arithmetic

  lemma MulMonotone(a: nat, b: nat, k: nat)
    requires a <= b
    ensures a * k <= b * k
  {
  }

  lemma DivModUnique(x: nat, page: nat, q: nat, r: nat)
    requires page > 0 && r < page && x == q * page + r
    ensures x / page == q && x % page == r
  {
    var q', r' := x / page, x % page;
    assert x == q' * page + r';
    if q' < q {
      MulMonotone(q' + 1, q, page);
    } else if q' > q {
      MulMonotone(q + 1, q', page);
    }
  }

  /** Distinct multiples of the page size are at least a page apart. */
  lemma MultipleGap(a: nat, b: nat, page: nat)
    requires page > 0 && a % page == 0 && b % page == 0 && a < b
    ensures a + page <= b
  {
    var x, y := a / page, b / page;
    assert a == x * page && b == y * page;
    if y <= x {
      MulMonotone(y, x, page);
    } else {
      MulMonotone(x + 1, y, page);
      assert (x + 1) * page == x * page + page;
    }
  }

  lemma DivMod(a: nat, page: nat)
    requires page > 0
    ensures a == (a / page) * page + a % page
  {
  }

  lemma Distribute(x: nat, y: nat, page: nat)
    ensures (x + y) * page == x * page + y * page
  {
  }

  lemma AddMultiple(a: nat, b: nat, page: nat)
    requires page > 0 && b % page == 0
    ensures (a + b) % page == a % page
  {
    var x, y := a / page, b / page;
    DivMod(a, page);
    DivMod(b, page);
    Distribute(x, y, page);
    DivModUnique(a + b, page, x + y, a % page);
  }

  /** The start of the page that holds `addr`. */
  function PageStart(addr: nat, page: nat): (p: nat)
    requires page > 0
    ensures p <= addr < p + page && p % page == 0
  {
    assert addr % page <= addr && (addr - addr % page) % page == 0 by {
      assert addr == (addr / page) * page + addr % page;
      DivModUnique((addr / page) * page, page, addr / page, 0);
    }
    addr - addr % page
  }

  /** The page that holds an address of the device lies inside the device. */
  lemma PageInside(base: nat, size: nat, page: nat, addr: nat)
    requires page > 0 && base % page == 0 && size % page == 0
    requires base <= addr < base + size
    ensures base <= PageStart(addr, page) && PageStart(addr, page) + page <= base + size
  {
    var p := PageStart(addr, page);
    if p < base { MultipleGap(p, base, page); }
    AddMultiple(base, size, page);
    MultipleGap(p, base + size, page);
  }

  // ---------------------------------------------------------------- scans over the page buffer

  /** The bytes an operation puts at its range: the caller's data, or clean bytes for an erase. */
  function Target(buf: Option<seq<byte>>, clean: byte, len: nat): (r: seq<byte>)
    requires buf.Some? ==> |buf.value| == len
    ensures |r| == len
  {
    if buf.Some? then buf.value else Fill(len, clean)
  }

  method CompareScan(dev: Device, at: nat, buf: Option<seq<byte>>, len: nat) returns (noErase: bool, sameData: bool)
    requires dev.hasBuffer && at + len <= dev.buffer.Length
    requires buf.Some? ==> |buf.value| == len
    ensures sameData <==> dev.buffer[at..at + len] == Target(buf, dev.clean, len)
    ensures noErase <==> Programmable(dev.buffer[at..at + len], Target(buf, dev.clean, len))
  {
    hide Rises;
    noErase, sameData := true, true;
    ghost var now, target := dev.buffer[at..at + len], Target(buf, dev.clean, len);
    ghost var differs, rises := 0, 0;
    var i := 0;
    while (noErase || sameData) && i < len
      invariant 0 <= i <= len
      invariant if sameData then forall k :: 0 <= k < i ==> now[k] == target[k]
                else 0 <= differs < len && now[differs] != target[differs]
      invariant if noErase then forall k :: 0 <= k < i ==> !Rises(now[k], target[k])
                else 0 <= rises < len && Rises(now[rises], target[rises])
    {
      var btOld := dev.buffer[at + i];
      var btNew := if buf.Some? then buf.value[i] else dev.clean;
      assert btNew == target[i] && btOld == now[i];
      if sameData && btOld != btNew {
        sameData, differs := false, i;
      }
      if noErase && Rises(btOld, btNew) {
        noErase, rises := false, i;
      }
      i := i + 1;
    }
  }

  /** Counts the clean bytes at both ends of the page buffer: what is left is exactly the span from
      the first to the last byte that is not clean, and nothing is left of an all-clean page. */
  method TrimScan(dev: Device) returns (head: nat, tail: nat)
    requires dev.hasBuffer && 0 < dev.page == dev.buffer.Length
    ensures head + tail < dev.page <==> exists k :: 0 <= k < dev.page && dev.buffer[k] != dev.clean
    ensures head + tail < dev.page ==>
              && (forall k :: 0 <= k < head ==> dev.buffer[k] == dev.clean)
              && (forall k :: dev.page - tail <= k < dev.page ==> dev.buffer[k] == dev.clean)
              && dev.buffer[head] != dev.clean && dev.buffer[dev.page - 1 - tail] != dev.clean
  {
    head, tail := 0, 0;
    var headCount, tailCount := true, true;
    var i := 0;
    while (headCount || tailCount) && i < dev.page
      invariant 0 <= i <= dev.page
      invariant head + tail < dev.page
      invariant if headCount then head == i else head < i && dev.buffer[head] != dev.clean
      invariant if tailCount then tail == i else tail < i && dev.buffer[dev.page - 1 - tail] != dev.clean
      invariant forall k :: 0 <= k < head ==> dev.buffer[k] == dev.clean
      invariant forall k :: dev.page - tail <= k < dev.page ==> dev.buffer[k] == dev.clean
    {
      if dev.buffer[i] != dev.clean {
        headCount := false;
      }
      if dev.buffer[dev.page - 1 - i] != dev.clean {
        tailCount := false;
      }
      if headCount {
        head := head + 1;
      }
      if tailCount {
        tail := tail + 1;
      }
      if head + tail >= dev.page {
        break;
      }
      i := i + 1;
    }
  }

  // ---------------------------------------------------------------- one page

  /** Contents of the page that starts at address `p`. */
  function PageOf(mem: seq<byte>, base: nat, page: nat, p: nat): (r: seq<byte>)
    requires base <= p && p - base + page <= |mem|
    ensures |r| == page
    ensures forall i {:trigger r[i]} :: 0 <= i < page ==> r[i] == mem[p - base + i]
  {
    seq(page, i requires 0 <= i < page => mem[p - base + i])
  }

  /** `mem` with the page at `p` replaced. */
  function ReplacePage(mem: seq<byte>, base: nat, p: nat, contents: seq<byte>): (r: seq<byte>)
    requires base <= p && p - base + |contents| <= |mem|
  {
    Overwrite(mem, p - base, contents)
  }

  /** The request covers bytes `off` to `off + len` of the device page at `p`. */
  ghost predicate OnePage(dev: Device, p: nat, off: nat, buf: Option<seq<byte>>, len: nat)
    reads dev
  {
    && dev.Valid() && dev.Equipped() && dev.page > 0 && dev.base <= p && p + dev.page <= dev.base + dev.size
    && p % dev.page == 0
    && 0 < len && off + len <= dev.page
    && (buf.Some? ==> |buf.value| == len)
  }

  /** What that page should hold afterwards. */
  ghost function WantedPage(dev: Device, p: nat, off: nat, buf: Option<seq<byte>>, len: nat): (r: seq<byte>)
    requires OnePage(dev, p, off, buf, len)
    reads dev
    ensures |r| == dev.page
  {
    Overwrite(PageOf(dev.mem, dev.base, dev.page, p), off, Target(buf, dev.clean, len))
  }

  /** Copy `data` into the buffer. */
  method Merge(dst: array<byte>, at: nat, data: seq<byte>)
    requires at + |data| <= dst.Length
    modifies dst
    ensures forall j :: 0 <= j < dst.Length ==>
              dst[j] == if at <= j < at + |data| then data[j - at] else old(dst[j])
  {
    forall j | at <= j < at + |data| {
      dst[j] := data[j - at];
    }
  }

  /** Gather the wanted page in the buffer: head and tail come from the device, the middle from the request. */
  method GatherPage(dev: Device, p: nat, off: nat, buf: Option<seq<byte>>, len: nat) returns (rc: int)
    requires OnePage(dev, p, off, buf, len)
    modifies dev`count, dev`faults, dev.buffer
    ensures dev.Valid() && dev.Answered(rc, old(dev.faults))
    ensures rc == 0 ==> dev.buffer[..] == WantedPage(dev, p, off, buf, len)
  {
    ghost var want := WantedPage(dev, p, off, buf, len);
    rc := 0;
    if off > 0 {
      rc := dev.Read(p, dev.buffer, 0, off);
      if rc != 0 { return; }
    }
    assert forall j :: 0 <= j < off ==> dev.buffer[j] == want[j];
    Merge(dev.buffer, off, Target(buf, dev.clean, len));
    assert forall j :: 0 <= j < off + len ==> dev.buffer[j] == want[j];
    if off + len < dev.page {
      rc := dev.Read(p + off + len, dev.buffer, off + len, dev.page - (off + len));
      if rc != 0 { return; }
    }
    assert forall j :: 0 <= j < dev.page ==> dev.buffer[j] == want[j];
  }

  /** Bytes outside the page at `p` are as before. */
  twostate predicate OnlyPage(dev: Device, p: nat)
    reads dev
  {
    && |dev.mem| == |old(dev.mem)|
    && forall i :: 0 <= i < |dev.mem| && !(p <= dev.base + i < p + dev.page) ==> dev.mem[i] == old(dev.mem)[i]
  }

  /** `span` runs from the first to the last byte of the page contents that is not clean. */
  predicate Trimmed(span: Span, p: nat, contents: seq<byte>, clean: byte)
  {
    && p <= span.addr && 0 < span.len && span.addr - p + span.len <= |contents|
    && contents[span.addr - p] != clean && contents[span.addr - p + span.len - 1] != clean
    && forall k :: 0 <= k < |contents| && contents[k] != clean ==> span.addr - p <= k < span.addr - p + span.len
  }

  /** After an erase, programming only the span that is not clean gives the same as programming the whole page. */
  lemma TrimLosesNothing(was: seq<byte>, at: nat, clean: byte, contents: seq<byte>, head: nat, tail: nat)
    requires at + |contents| <= |was| && head + tail <= |contents|
    requires forall k :: 0 <= k < head ==> contents[k] == clean
    requires forall k :: |contents| - tail <= k < |contents| ==> contents[k] == clean
    ensures Program(Overwrite(was, at, Fill(|contents|, clean)), at + head, contents[head..|contents| - tail])
         == Overwrite(was, at, Program(Fill(|contents|, clean), 0, contents))
  {
    hide Meet;
    MeetOfSubset(clean, clean);
    var n := |contents|;
    var erased := Overwrite(was, at, Fill(n, clean));
    var mid := contents[head..n - tail];
    var x, y := Program(erased, at + head, mid), Overwrite(was, at, Program(Fill(n, clean), 0, contents));
    forall i | 0 <= i < |was| ensures x[i] == y[i] {
      if at <= i < at + n {
        var k := i - at;
        assert erased[i] == clean && y[i] == Meet(clean, contents[k]);
        if head <= k < n - tail { assert mid[k - head] == contents[k]; }
      }
    }
  }

  lemma NothingToRestore(n: nat, clean: byte)
    ensures Program(Fill(n, clean), 0, Fill(n, clean)) == Fill(n, clean)
  {
    MeetOfSubset(clean, clean);
  }

  /** Erase the page and program the buffer back, without its clean head and tail. */
  method EraseAndRestore(dev: Device, p: nat) returns (rc: int)
    requires dev.Valid() && dev.Equipped() && dev.EraseAllowed(p, dev.page)
    modifies dev`count, dev`faults, dev`erased, dev`written, dev`mem
    ensures dev.Valid() && dev.Answered(rc, old(dev.faults)) && OnlyPage(dev, p)
    ensures dev.erased == old(dev.erased) + [p]
    ensures rc == 0 ==>
              dev.mem == ReplacePage(old(dev.mem), dev.base, p, Program(Fill(dev.page, dev.clean), 0, dev.buffer[..]))
    ensures rc == 0 ==>
              if dev.buffer[..] == Fill(dev.page, dev.clean) then dev.written == old(dev.written)
              else |dev.written| == |old(dev.written)| + 1 && dev.written[..|old(dev.written)|] == old(dev.written)
                   && Trimmed(dev.written[|old(dev.written)|], p, dev.buffer[..], dev.clean)
  {
    hide Meet, Program, Overwrite, Fill;
    ghost var buffer, was := dev.buffer[..], dev.mem;
    rc := dev.Erase(p, dev.page);
    if rc != 0 { return; }
    var head, tail := TrimScan(dev);
    if head + tail < dev.page {
      TrimLosesNothing(was, p - dev.base, dev.clean, buffer, head, tail);
      assert (p + head) % dev.page + (dev.page - head - tail) <= dev.page by {
        DivModUnique(p + head, dev.page, p / dev.page, head);
      }
      rc := dev.Write(p + head, dev.buffer[head..dev.page - tail]);
      assert buffer[head] != dev.clean;
    } else {
      assert buffer == Fill(dev.page, dev.clean);
      NothingToRestore(dev.page, dev.clean);
    }
  }

  /** Comparing only the requested bytes decides the question for the whole page. */
  lemma RangeDecidesPage(was: seq<byte>, off: nat, data: seq<byte>)
    requires off + |data| <= |was|
    ensures was[off..off + |data|] == data <==> was == Overwrite(was, off, data)
    ensures Programmable(was[off..off + |data|], data) <==> Programmable(was, Overwrite(was, off, data))
  {
    hide Rises, Overwrite;
    var want, part := Overwrite(was, off, data), was[off..off + |data|];
    assert forall i :: off <= i < off + |data| ==> part[i - off] == was[i] && want[i] == data[i - off];
    forall i ensures 0 <= i < |data| ==> part[i] == was[off + i] && data[i] == want[off + i] {}
    forall i | 0 <= i < |was| && !(off <= i < off + |data|) ensures !Rises(was[i], want[i]) {
      MeetOfSubset(was[i], was[i]);
    }
  }

  /** Programming just the requested bytes is programming the wanted page. */
  lemma RangeProgramsPage(mem: seq<byte>, base: nat, page: nat, p: nat, off: nat, data: seq<byte>)
    requires base <= p && p - base + page <= |mem| && off + |data| <= page
    ensures var now := PageOf(mem, base, page, p);
            Program(mem, p - base + off, data) == ReplacePage(mem, base, p, Program(now, 0, Overwrite(now, off, data)))
  {
    hide Meet, Program, Overwrite, PageOf;
    var now := PageOf(mem, base, page, p);
    var x := Program(mem, p - base + off, data);
    var y := ReplacePage(mem, base, p, Program(now, 0, Overwrite(now, off, data)));
    forall i | 0 <= i < |mem| ensures x[i] == y[i] {
      if p <= base + i < p + page {
        var k := base + i - p;
        assert now[k] == mem[i];
        MeetOfSubset(now[k], now[k]);
      }
    }
  }

  lemma ReplaceSame(mem: seq<byte>, base: nat, page: nat, p: nat)
    requires base <= p && p - base + page <= |mem|
    ensures ReplacePage(mem, base, p, PageOf(mem, base, page, p)) == mem
  {
    hide PageOf, Overwrite;
    var now := PageOf(mem, base, page, p);
    var r := ReplacePage(mem, base, p, now);
    assert forall k :: 0 <= k < page ==> now[k] == mem[p - base + k];
    assert forall i :: 0 <= i < |mem| ==> r[i] == mem[i];
  }

  lemma SelfProgrammable(s: seq<byte>)
    ensures Programmable(s, s)
  {
    forall i | 0 <= i < |s| ensures !Rises(s[i], s[i]) {
      MeetOfSubset(s[i], s[i]);
    }
  }

  /** Read the rest of the page, merge, erase, restore. */
  method RewritePage(dev: Device, p: nat, off: nat, buf: Option<seq<byte>>, len: nat) returns (rc: int)
    requires OnePage(dev, p, off, buf, len)
    modifies dev`count, dev`faults, dev`erased, dev`written, dev`mem, dev.buffer
    ensures dev.Valid() && dev.Answered(rc, old(dev.faults)) && OnlyPage(dev, p)
    ensures dev.erased == old(dev.erased) + [p] || (rc != 0 && dev.erased == old(dev.erased))
    ensures rc == 0 ==>
              var want := old(WantedPage(dev, p, off, buf, len));
              && dev.mem == ReplacePage(old(dev.mem), dev.base, p, Program(Fill(dev.page, dev.clean), 0, want))
              && if want == Fill(dev.page, dev.clean) then dev.written == old(dev.written)
                 else |dev.written| == |old(dev.written)| + 1 && dev.written[..|old(dev.written)|] == old(dev.written)
                      && Trimmed(dev.written[|old(dev.written)|], p, want, dev.clean)
  {
    hide Meet, Program, Overwrite, Fill, PageOf, Target, Trimmed, ReplacePage;
    rc := GatherPage(dev, p, off, buf, len);
    if rc != 0 { return; }
    rc := EraseAndRestore(dev, p);
  }

  /** Program the requested bytes over what the page holds. */
  method ProgramInPlace(dev: Device, p: nat, off: nat, data: seq<byte>) returns (rc: int)
    requires OnePage(dev, p, off, Some(data), |data|)
    modifies dev`count, dev`faults, dev`written, dev`mem
    ensures dev.Valid() && dev.Answered(rc, old(dev.faults)) && OnlyPage(dev, p)
    ensures rc == 0 ==>
              dev.mem == ReplacePage(old(dev.mem), dev.base, p,
                           Program(old(PageOf(dev.mem, dev.base, dev.page, p)), 0,
                                   old(WantedPage(dev, p, off, Some(data), |data|))))
  {
    hide Meet, Program, Overwrite, PageOf, ReplacePage, Fill;
    DivModUnique(p + off, dev.page, p / dev.page, off);
    RangeProgramsPage(dev.mem, dev.base, dev.page, p, off, data);
    rc := dev.Write(p + off, data);
  }

  /** Read the requested bytes and decide what has to be done. */
  method InspectPage(dev: Device, p: nat, off: nat, buf: Option<seq<byte>>, len: nat)
    returns (rc: int, noErase: bool, sameData: bool)
    requires OnePage(dev, p, off, buf, len)
    modifies dev`count, dev`faults, dev.buffer
    ensures dev.Valid() && dev.Answered(rc, old(dev.faults))
    ensures rc == 0 ==>
              var was, want := PageOf(dev.mem, dev.base, dev.page, p), WantedPage(dev, p, off, buf, len);
              (sameData <==> was == want) && (noErase <==> Programmable(was, want))
  {
    hide Meet, Rises, Overwrite, PageOf, Target, Programmable;
    noErase, sameData := true, true;
    ghost var was := PageOf(dev.mem, dev.base, dev.page, p);
    RangeDecidesPage(was, off, Target(buf, dev.clean, len));
    rc := dev.Read(p + off, dev.buffer, off, len);
    if rc != 0 { return; }
    assert dev.buffer[off..off + len] == was[off..off + len];
    noErase, sameData := CompareScan(dev, off, buf, len);
  }

  /** Process one page: skip it, program it in place, or erase and restore it. */
  method ModifyPage(dev: Device, p: nat, off: nat, buf: Option<seq<byte>>, len: nat) returns (rc: int)
    requires OnePage(dev, p, off, buf, len)
    modifies dev`count, dev`faults, dev`erased, dev`written, dev`mem, dev.buffer
    ensures dev.Valid() && dev.Answered(rc, old(dev.faults)) && OnlyPage(dev, p)
    ensures var was, want := old(PageOf(dev.mem, dev.base, dev.page, p)), old(WantedPage(dev, p, off, buf, len));
            && (rc == 0 ==> dev.mem == ReplacePage(old(dev.mem), dev.base, p,
                                                   PageAfter(dev.clean, was, want, buf.None?)))
            && (Programmable(was, want) ==> dev.erased == old(dev.erased))
            && (!Programmable(was, want) ==>
                  dev.erased == old(dev.erased) + [p] || (rc != 0 && dev.erased == old(dev.erased)))
            && (was == want ==> dev.written == old(dev.written))
  {
    hide Meet, Rises, Program, Overwrite, PageOf, Target, Trimmed, Fill, ReplacePage, Programmable;
    ReplaceSame(dev.mem, dev.base, dev.page, p);
    SelfProgrammable(PageOf(dev.mem, dev.base, dev.page, p));
    var noErase, sameData;
    rc, noErase, sameData := InspectPage(dev, p, off, buf, len);
    if rc != 0 { return; }
    if !sameData {
      if !noErase {
        rc := RewritePage(dev, p, off, buf, len);
      } else if buf.Some? {
        rc := ProgramInPlace(dev, p, off, buf.value);
      }
    }
  }

  // ---------------------------------------------------------------- any range

  /** `mem` already holds the new contents below offset `k`, and still the old ones from `k` on. */
  ghost predicate UpTo(mem: seq<byte>, was: seq<byte>, want: seq<byte>, k: int)
  {
    && |mem| == |was| == |want|
    && (forall i :: 0 <= i < |mem| && i < k ==> mem[i] == want[i])
    && (forall i :: 0 <= i < |mem| && k <= i ==> mem[i] == was[i])
  }

  /** One page of a larger overwrite: the page still holds its old bytes, overwriting its share of the
      data gives its new bytes, and replacing it moves the frontier past that share. */
  lemma PageStep(was: seq<byte>, at: nat, data: seq<byte>, mem: seq<byte>,
                 base: nat, page: nat, p: nat, off: nat, done: nat, n: nat)
    requires at + |data| <= |was| && done + n <= |data|
    requires base <= p && p - base + page <= |was| && p - base + off == at + done && off + n <= page
    requires done == 0 || off == 0
    requires done + n == |data| || off + n == page
    requires UpTo(mem, was, Overwrite(was, at, data), at + done)
    ensures var want := Overwrite(was, at, data);
            && PageOf(mem, base, page, p) == PageOf(was, base, page, p)
            && Overwrite(PageOf(mem, base, page, p), off, data[done..done + n]) == PageOf(want, base, page, p)
            && UpTo(ReplacePage(mem, base, p, PageOf(want, base, page, p)), was, want, at + done + n)
  {
    hide Overwrite, PageOf;
    var want := Overwrite(was, at, data);
    var part := data[done..done + n];
    var x, y, z := PageOf(mem, base, page, p), PageOf(was, base, page, p), PageOf(want, base, page, p);
    forall k | 0 <= k < page ensures x[k] == y[k] && Overwrite(x, off, part)[k] == z[k] {
      var i := p - base + k;
      assert x[k] == mem[i] && y[k] == was[i] && z[k] == want[i];
      if off <= k < off + n { assert part[k - off] == data[i - at]; }
    }
    var r := ReplacePage(mem, base, p, z);
    forall i | 0 <= i < |mem| ensures r[i] == if i < at + done + n then want[i] else was[i] {
      if p <= base + i < p + page { assert z[base + i - p] == want[i]; }
    }
  }

  /** The page at `q` cannot be brought from `was` to `want` by programming alone. */
  ghost predicate MustErase(was: seq<byte>, want: seq<byte>, base: nat, page: nat, q: nat)
  {
    && |was| == |want| && base <= q && q - base + page <= |was|
    && !Reachable(PageOf(was, base, page, q), PageOf(want, base, page, q))
  }

  /** What `ModifyPage` leaves, seen from the whole request. */
  lemma PageDone(was: seq<byte>, at: nat, data: seq<byte>, mem: seq<byte>,
                 base: nat, page: nat, p: nat, off: nat, done: nat, n: nat, erasing: bool)
    requires at + |data| <= |was| && done + n <= |data|
    requires base <= p && p - base + page <= |was| && p - base + off == at + done && off + n <= page
    requires done == 0 || off == 0
    requires done + n == |data| || off + n == page
    requires UpTo(mem, was, Overwrite(was, at, data), at + done)
    requires erasing ==> data == Fill(|data|, 0xFF)
    ensures var want := Overwrite(was, at, data);
            var now := PageOf(mem, base, page, p);
            var next := Overwrite(now, off, data[done..done + n]);
            && UpTo(ReplacePage(mem, base, p, PageAfter(0xFF, now, next, erasing)), was, want, at + done + n)
            && (Programmable(now, next) <==> !MustErase(was, want, base, page, p))
            && (was == want ==> now == next)
  {
    hide Overwrite, PageOf, PageAfter, Reachable, Programmable;
    PageStep(was, at, data, mem, base, page, p, off, done, n);
    var now := PageOf(mem, base, page, p);
    var next := Overwrite(now, off, data[done..done + n]);
    PageAfterIsWanted(now, next, erasing);
    ReachableIffProgrammable(now, next);
  }

  ghost predicate Ascending(s: seq<nat>)
  {
    forall i, j :: 0 <= i < j < |s| ==> s[i] < s[j]
  }

  /** `pages` lists, in ascending order, pages in [lo, hi) that had to be erased; all of them if `complete`. */
  ghost predicate MinimalErases(pages: seq<nat>, was: seq<byte>, want: seq<byte>, base: nat, page: nat,
                                lo: nat, hi: nat, complete: bool)
    requires page > 0
  {
    && Ascending(pages)
    && (forall q :: q in pages ==> lo <= q < hi && q % page == 0 && MustErase(was, want, base, page, q))
    && (complete ==> forall q :: lo <= q < hi && q % page == 0 && MustErase(was, want, base, page, q) ==> q in pages)
  }

  lemma NoErases(was: seq<byte>, want: seq<byte>, base: nat, page: nat, lo: nat)
    requires page > 0
    ensures MinimalErases([], was, want, base, page, lo, lo, true)
  {
  }

  lemma EraseStep(pages: seq<nat>, was: seq<byte>, want: seq<byte>, base: nat, page: nat,
                  lo: nat, p: nat, erases: bool, ok: bool)
    requires page > 0 && lo <= p && p % page == 0
    requires MinimalErases(pages, was, want, base, page, lo, p, true)
    requires erases ==> MustErase(was, want, base, page, p)
    requires ok && MustErase(was, want, base, page, p) ==> erases
    ensures MinimalErases(if erases then pages + [p] else pages, was, want, base, page, lo, p + page, ok)
  {
    hide MustErase;
    forall q: nat | p <= q < p + page && q % page == 0 ensures q == p {
      if p < q { MultipleGap(p, q, page); }
    }
    var all := if erases then pages + [p] else pages;
    assert forall i :: 0 <= i < |pages| ==> pages[i] in pages && all[i] == pages[i];
    assert forall q :: q in all ==> q in pages || (erases && q == p);
    assert forall q :: q in pages ==> q in all;
    assert erases ==> all[|pages|] == p;
  }

  /** Pages the request does not touch need no erase, so the list is right for the whole device. */
  lemma WidenErases(pages: seq<nat>, was: seq<byte>, at: nat, data: seq<byte>, base: nat, page: nat,
                    lo: nat, edge: nat, complete: bool)
    requires page > 0 && base <= lo && lo % page == 0 && at + |data| <= |was|
    requires lo <= base + at && (complete ==> base + at + |data| <= edge)
    requires MinimalErases(pages, was, Overwrite(was, at, data), base, page, lo, edge, complete)
    ensures MinimalErases(pages, was, Overwrite(was, at, data), base, page, base, base + |was|, complete)
  {
    hide Overwrite, PageOf, Reachable;
    var want := Overwrite(was, at, data);
    forall q: nat | complete && base <= q < base + |was| && q % page == 0 && MustErase(was, want, base, page, q)
      ensures q in pages
    {
      var x, y := PageOf(was, base, page, q), PageOf(want, base, page, q);
      if q < lo { MultipleGap(q, lo, page); }
      if q < lo || edge <= q {
        assert forall k :: 0 <= k < page ==> x[k] == was[q - base + k] && y[k] == want[q - base + k];
        assert x == y;
        SelfProgrammable(x);
        ReachableIffProgrammable(x, x);
      }
    }
  }

  lemma PageStartOfNext(p: nat, page: nat)
    requires page > 0 && p % page == 0
    ensures (p + page) % page == 0 && PageStart(p + page, page) == p + page
  {
    AddMultiple(page, p, page);
    DivModUnique(page, page, 1, 0);
  }

  /** What a range request finds: a valid paged NOR device and a non-empty range inside it. */
  ghost predicate Request(dev: Device, addr: nat, buf: Option<seq<byte>>, len: nat)
    reads dev
  {
    && dev.Valid() && dev.Equipped() && dev.page > 0 && dev.clean == 0xFF && dev.Inside(addr, len) && 0 < len
    && (buf.Some? ==> |buf.value| == len)
  }

  /** The contents a range request asks for. */
  ghost function Wanted(dev: Device, addr: nat, buf: Option<seq<byte>>, len: nat): (r: seq<byte>)
    requires Request(dev, addr, buf, len)
    reads dev
    ensures |r| == |dev.mem|
  {
    Overwrite(dev.mem, addr - dev.base, Target(buf, dev.clean, len))
  }

  /** Bytes before the page at `p` are new, bytes after that page are old. */
  ghost predicate TornAt(mem: seq<byte>, was: seq<byte>, want: seq<byte>, base: nat, page: nat, p: nat)
  {
    && |mem| == |was| == |want|
    && (forall i :: 0 <= i < |mem| && base + i < p ==> mem[i] == want[i])
    && (forall i :: 0 <= i < |mem| && p + page <= base + i ==> mem[i] == was[i])
  }

  /** `p` is a page that the request [addr, addr + len) touches. */
  predicate Touches(p: nat, page: nat, addr: nat, len: nat)
    requires page > 0
  {
    p % page == 0 && addr < p + page && p < addr + len
  }

  lemma TouchesStart(addr: nat, done: nat, len: nat, page: nat)
    requires page > 0 && done < len
    ensures Touches(PageStart(addr + done, page), page, addr, len)
  {
  }

  /** Whatever happens to the page at the frontier, the pages before it are new and those after it old. */
  lemma TornAtFrontier(mem: seq<byte>, before: seq<byte>, was: seq<byte>, want: seq<byte>,
                       base: nat, page: nat, p: nat, k: int)
    requires UpTo(before, was, want, k) && p <= base + k <= p + page && |mem| == |before|
    requires forall i :: 0 <= i < |mem| && !(p <= base + i < p + page) ==> mem[i] == before[i]
    ensures TornAt(mem, was, want, base, page, p)
  {
  }

  /** The part of the request that lies in its next page. */
  method NextShare(page: nat, addr: nat, buf: Option<seq<byte>>, len: nat, done: nat)
    returns (off: nat, n: nat, part: Option<seq<byte>>)
    requires page > 0 && done < len && (buf.Some? ==> |buf.value| == len)
    ensures PageStart(addr + done, page) + off == addr + done && off < page
    ensures 0 < n && done + n <= len && off + n <= page && (off + n == page || done + n == len)
    ensures part == if buf.Some? then Some(buf.value[done..done + n]) else None
  {
    off := (addr + done) % page;
    n := if len - done < page - off then len - done else page - off;
    part := if buf.Some? then Some(buf.value[done..done + n]) else None;
  }

  lemma PartOfTarget(buf: Option<seq<byte>>, clean: byte, len: nat, done: nat, n: nat, part: Option<seq<byte>>)
    requires (buf.Some? ==> |buf.value| == len) && done + n <= len
    requires part == if buf.Some? then Some(buf.value[done..done + n]) else None
    ensures Target(part, clean, n) == Target(buf, clean, len)[done..done + n]
    ensures buf.None? ==> Target(buf, clean, len) == Fill(len, clean)
  {
  }

  /** One turn of the page loop: the share of the request that lies in the page at `edge`. */
  method ModifyNext(dev: Device, addr: nat, buf: Option<seq<byte>>, len: nat, done: nat,
                    ghost was: seq<byte>, ghost edge: nat) returns (rc: int, n: nat, ghost erases: bool)
    requires Request(dev, addr, buf, len) && done < len && |was| == dev.size
    requires edge == PageStart(addr + done, dev.page) && (done == 0 || addr + done == edge)
    requires UpTo(dev.mem, was, Overwrite(was, addr - dev.base, Target(buf, dev.clean, len)), addr - dev.base + done)
    modifies dev`count, dev`faults, dev`erased, dev`written, dev`mem, dev.buffer
    ensures dev.Valid() && dev.Answered(rc, old(dev.faults))
    ensures 0 < n && done + n <= len
    ensures addr + done + n == edge + dev.page || (done + n == len && addr + len < edge + dev.page)
    ensures var want := Overwrite(was, addr - dev.base, Target(buf, dev.clean, len));
            && (rc == 0 ==> UpTo(dev.mem, was, want, addr - dev.base + done + n))
            && (rc != 0 ==> TornAt(dev.mem, was, want, dev.base, dev.page, edge))
            && (erases ==> MustErase(was, want, dev.base, dev.page, edge))
            && (rc == 0 && MustErase(was, want, dev.base, dev.page, edge) ==> erases)
            && (was == want ==> !erases && dev.written == old(dev.written))
    ensures dev.erased == old(dev.erased) + if erases then [edge] else []
  {
    hide Meet, Rises, Program, Overwrite, PageOf, ReplacePage, Fill, Programmable, MustErase;
    hide PageAfter, UpTo, TornAt, Target, PageStart;
    ghost var data, mem := Target(buf, dev.clean, len), dev.mem;
    ghost var want := Overwrite(was, addr - dev.base, data);
    var off, part;
    off, n, part := NextShare(dev.page, addr, buf, len, done);
    PageInside(dev.base, dev.size, dev.page, addr + done);
    PartOfTarget(buf, dev.clean, len, done, n, part);
    PageDone(was, addr - dev.base, data, mem, dev.base, dev.page, edge, off, done, n, buf.None?);
    SelfProgrammable(PageOf(mem, dev.base, dev.page, edge));
    rc := ModifyPage(dev, addr + done - off, off, part, n);
    erases := dev.erased != old(dev.erased);
    if rc != 0 { TornAtFrontier(dev.mem, mem, was, want, dev.base, dev.page, edge, addr + done - dev.base); }
  }

  lemma NothingDone(dev: Device, addr: nat, buf: Option<seq<byte>>, len: nat)
    requires Request(dev, addr, buf, len)
    ensures UpTo(dev.mem, dev.mem, Wanted(dev, addr, buf, len), addr - dev.base)
  {
  }

  lemma AllDone(mem: seq<byte>, was: seq<byte>, at: nat, data: seq<byte>)
    requires at + |data| <= |was| && UpTo(mem, was, Overwrite(was, at, data), at + |data|)
    ensures mem == Overwrite(was, at, data)
  {
  }

  /** The page loop. `at` is the page it stopped in, `pages` are the pages it erased. */
  method ModifyPages(dev: Device, addr: nat, buf: Option<seq<byte>>, len: nat)
    returns (rc: int, ghost at: nat, ghost pages: seq<nat>)
    requires Request(dev, addr, buf, len)
    modifies dev`count, dev`faults, dev`erased, dev`written, dev`mem, dev.buffer
    ensures dev.Valid() && dev.Answered(rc, old(dev.faults))
    // success: exactly the requested range has changed
    ensures rc == 0 ==> dev.mem == old(Wanted(dev, addr, buf, len))
    // failure: pages before the current one are new, pages after it are old
    ensures rc != 0 ==> Touches(at, dev.page, addr, len)
    ensures rc != 0 ==> TornAt(dev.mem, old(dev.mem), old(Wanted(dev, addr, buf, len)), dev.base, dev.page, at)
    // a page is erased at most once, and exactly when it has to be
    ensures dev.erased == old(dev.erased) + pages
    ensures MinimalErases(pages, old(dev.mem), old(Wanted(dev, addr, buf, len)),
                          dev.base, dev.page, dev.base, dev.base + dev.size, rc == 0)
    // nothing to change, nothing erased or written
    ensures old(dev.mem) == old(Wanted(dev, addr, buf, len)) ==>
              dev.erased == old(dev.erased) && dev.written == old(dev.written)
  {
    hide Overwrite, Target, MustErase, MinimalErases, PageStart, UpTo, TornAt, Touches;
    NothingDone(dev, addr, buf, len);
    ghost var was, data, want := dev.mem, Target(buf, dev.clean, len), Wanted(dev, addr, buf, len);
    ghost var lo := PageStart(addr, dev.page);
    ghost var edge := lo;
    pages := [];
    PageInside(dev.base, dev.size, dev.page, addr);
    NoErases(was, want, dev.base, dev.page, lo);
    var done, n := 0, 0;
    rc, at := 0, lo;
    while done < len
      invariant 0 <= done <= len && rc == 0
      invariant dev.Valid() && dev.faults == old(dev.faults)
      invariant UpTo(dev.mem, was, want, addr - dev.base + done)
      invariant done < len ==> edge == PageStart(addr + done, dev.page) && (done == 0 || addr + done == edge)
      invariant lo <= edge && edge % dev.page == 0 && addr + done <= edge + dev.page
      invariant done == len ==> addr + len <= edge
      invariant dev.erased == old(dev.erased) + pages
      invariant MinimalErases(pages, was, want, dev.base, dev.page, lo, edge, true)
      invariant was == want ==> pages == [] && dev.written == old(dev.written)
    {
      ghost var erases;
      at := edge;
      TouchesStart(addr, done, len, dev.page);
      rc, n, erases := ModifyNext(dev, addr, buf, len, done, was, edge);
      EraseStep(pages, was, want, dev.base, dev.page, lo, edge, erases, rc == 0);
      pages := if erases then pages + [edge] else pages;
      edge := edge + dev.page;
      if rc != 0 { break; }
      done := done + n;
      PageStartOfNext(at, dev.page);
    }
    WidenErases(pages, was, addr - dev.base, data, dev.base, dev.page, lo, edge, rc == 0);
    if rc == 0 { AllDone(dev.mem, was, addr - dev.base, data); }
  }
}
