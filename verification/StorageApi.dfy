/**
 The public storage operations: argument checks, device search, and the paged and page-less paths.
 */
module StorageApi {
  import opened Options
  import opened StorageDevice
  import opened StorageRegistry
  import opened Storage

  datatype Status = Done | InvalidArgument | NoDevice | NotSupported | DriverError(rc: int)

  /** The device the search finds for a range. */
  ghost function Found(reg: Registry, addr: nat, len: nat): (r: Option<Device>)
    reads reg
  {
    var k := First(reg.nodes, addr, len);
    if k < |reg.nodes| then reg.nodes[k].item else None
  }

  /** Only the device that is found, and its page buffer, may be touched. */
  ghost function Footprint(reg: Registry, addr: nat, len: nat): set<object>
    reads reg
  {
    var d := Found(reg, addr, len);
    if d.Some? then {d.value, d.value.buffer} else {}
  }

  /** Addresses and lengths are 32-bit. The device that is found, if any, is valid and contains the range, and if it
      is paged it is NOR flash. */
  ghost predicate Ready(reg: Registry, addr: nat, len: nat)
    reads reg, reg.list, reg.nodes, Footprint(reg, addr, len)
  {
    && reg.Valid()
    && addr < WORD && len < WORD
    && var d := Found(reg, addr, len);
       d.Some? ==> && d.value.Valid() && d.value.base + d.value.size <= WORD
                   && NoWrap(d.value, addr, len)
                   && (d.value.page > 0 ==> d.value.clean == 0xFF)
  }

  /** The request does not wrap around 4 GiB, or the device extends that far. */
  predicate NoWrap(d: Device, addr: nat, len: nat)
  {
    addr + len < WORD || d.base + d.size == WORD
  }

  /** The device found contains the whole range exactly if neither wraps around, or both end at 4 GiB. */
  lemma FoundContains(reg: Registry, addr: nat, len: nat)
    requires reg.Valid() && addr < WORD && len < WORD && Found(reg, addr, len).Some?
    requires var d := Found(reg, addr, len).value; d.base + d.size <= WORD
    ensures var d := Found(reg, addr, len).value; d.Inside(addr, len) <==> NoWrap(d, addr, len)
  {
    var d := Found(reg, addr, len).value;
    assert Passes(reg.nodes[First(reg.nodes, addr, len)], addr, len);
    if 0 < len { RangeTestExact(d.base, d.size, addr, len); }
  }

  function StatusOf(rc: int): Status
  {
    if rc == 0 then Done else DriverError(rc)
  }

  /** A page-less device is torn at a single gap: bytes before `lo` are new, bytes from `hi` on are old. */
  ghost predicate TornBetween(mem: seq<byte>, was: seq<byte>, want: seq<byte>, lo: nat, hi: nat)
  {
    && |mem| == |was| == |want|
    && (forall i :: 0 <= i < |mem| && i < lo ==> mem[i] == want[i])
    && (forall i :: 0 <= i < |mem| && hi <= i ==> mem[i] == was[i])
  }

  /** A failing write can damage its whole range, a failing erase only the chunk it was at. */
  function GapEnd(at: nat, end: nat, erasing: bool): nat
  {
    if erasing && at + DEFAULT_BUFFER_SIZE < end then at + DEFAULT_BUFFER_SIZE else end
  }

  method Read(reg: Registry, addr: nat, dst: array?<byte>, len: nat) returns (status: Status)
    requires Ready(reg, addr, len)
    requires dst != null ==> len <= dst.Length && dst as object !in Footprint(reg, addr, len)
    modifies if dst != null then {dst} else {}, set o | o in Footprint(reg, addr, len) && o is Device
    ensures status == InvalidArgument <==> dst == null || len == 0
    ensures status == NoDevice <==> dst != null && len > 0 && Found(reg, addr, len) == None
    ensures status == NotSupported <==>
              dst != null && len > 0 && Found(reg, addr, len).Some? && !Found(reg, addr, len).value.hasRead
    ensures Found(reg, addr, len).Some? ==>
              var d := Found(reg, addr, len).value;
              && d.Valid() && d.mem == old(d.mem) && d.erased == old(d.erased) && d.written == old(d.written)
              && d.Inside(addr, len)
              && (status == Done ==> dst != null && dst[..len] == d.mem[addr - d.base..addr - d.base + len])
              && d.faults == old(d.faults) + (if status.DriverError? then [(d.count - 1, status.rc)] else [])
              && (status.DriverError? ==> status.rc != 0)
    ensures dst != null ==> dst[len..] == old(dst[len..])
  {
    if Found(reg, addr, len).Some? { FoundContains(reg, addr, len); }
    if dst == null || len == 0 {
      return InvalidArgument;
    }
    var h := reg.Find(addr, len);
    if h == null {
      return NoDevice;
    }
    var dev := h.item.value;
    if !dev.hasRead {
      return NotSupported;
    }
    var rc := dev.Read(addr, dst, 0, len);
    return StatusOf(rc);
  }

  /** What a write (`buf` given) or an erase (`buf` absent) promises about the device it found. */
  twostate predicate Outcome(d: Device, addr: nat, buf: Option<seq<byte>>, len: nat, status: Status, at: nat)
    requires old(d.Valid()) && d.Valid() && d.Inside(addr, len) && (buf.Some? ==> |buf.value| == len)
    reads d
  {
    var was, want := old(d.mem), Overwrite(old(d.mem), addr - d.base, Target(buf, d.clean, len));
    match status
    case Done =>
      && d.mem == want && d.faults == old(d.faults)
      && (d.page > 0 ==> NoWorkIfSame(d, want) && MinimalErases(
             d.erased[|old(d.erased)|..], was, want, d.base, d.page, d.base, d.base + d.size, true))
    case DriverError(rc) =>
      && rc != 0 && d.Answered(rc, old(d.faults))
      && (d.page > 0 ==> NoWorkIfSame(d, want) && MinimalErases(
             d.erased[|old(d.erased)|..], was, want, d.base, d.page, d.base, d.base + d.size, false))
      && (if d.page > 0 then Touches(at, d.page, addr, len) && TornAt(d.mem, was, want, d.base, d.page, at)
          else addr - d.base <= at && TornBetween(d.mem, was, want, at, GapEnd(at, addr - d.base + len, buf.None?)))
    case _ =>
      d.mem == was && d.count == old(d.count) && d.erased == old(d.erased) && d.written == old(d.written)
  }

  /** If the device already held the wanted contents, nothing was erased and nothing was written. */
  twostate predicate NoWorkIfSame(d: Device, want: seq<byte>)
    reads d
  {
    && old(d.erased) <= d.erased
    && (old(d.mem) == want ==> d.erased == old(d.erased) && d.written == old(d.written))
  }

  /** A write to the device that was found. */
  method WriteDevice(dev: Device, addr: nat, buf: Option<seq<byte>>, len: nat) returns (status: Status, ghost at: nat)
    requires dev.Valid() && dev.Inside(addr, len) && 0 < len && buf.Some? && |buf.value| == len
    requires dev.page > 0 ==> dev.clean == 0xFF
    modifies dev, dev.buffer
    ensures dev.Valid()
    ensures status == NotSupported <==> if dev.page > 0 then !dev.Equipped() else !dev.hasWrite
    ensures status.Done? || status.DriverError? || status.NotSupported?
    ensures Outcome(dev, addr, buf, len, status, at)
  {
    hide MinimalErases, Overwrite, TornAt;
    at := 0;
    if dev.page == 0 {
      if !dev.hasWrite {
        return NotSupported, at;
      }
      at := addr - dev.base;
      var rc := dev.Write(addr, buf.value);
      status := StatusOf(rc);
    } else {
      if !dev.hasRead || !dev.hasBuffer || !dev.hasErase || !dev.hasWrite {
        return NotSupported, at;
      }
      var rc;
      ghost var pages;
      rc, at, pages := ModifyPages(dev, addr, buf, len);
      assert dev.erased[|old(dev.erased)|..] == pages;
      status := StatusOf(rc);
    }
  }

  method Write(reg: Registry, addr: nat, buf: Option<seq<byte>>, len: nat) returns (status: Status, ghost at: nat)
    requires Ready(reg, addr, len) && (buf.Some? ==> |buf.value| == len)
    modifies Footprint(reg, addr, len)
    ensures Ready(reg, addr, len)
    ensures status == InvalidArgument <==> buf.None? || len == 0
    ensures status == NoDevice <==> buf.Some? && len > 0 && Found(reg, addr, len) == None
    ensures status == NotSupported <==>
              && buf.Some? && len > 0 && Found(reg, addr, len).Some?
              && var d := Found(reg, addr, len).value;
                 if d.page > 0 then !d.hasRead || !d.hasErase || !d.hasWrite || !d.hasBuffer else !d.hasWrite
    ensures var d := Found(reg, addr, len);
            d.Some? && buf.Some? ==> d.value.Inside(addr, len) && Outcome(d.value, addr, buf, len, status, at)
  {
    hide MinimalErases, Overwrite, TornAt, TornBetween, Touches, GapEnd;
    at := 0;
    if Found(reg, addr, len).Some? { FoundContains(reg, addr, len); }
    if buf.None? || len == 0 {
      return InvalidArgument, at;
    }
    var h := reg.Find(addr, len);
    if h == null {
      return NoDevice, at;
    }
    status, at := WriteDevice(h.item.value, addr, buf, len);
  }

  /** Overwrite a page-less range with clean bytes, one default buffer at a time. */
  method EraseUnpaged(dev: Device, addr: nat, len: nat) returns (rc: int, ghost at: nat)
    requires dev.Valid() && dev.hasWrite && dev.hasBuffer && dev.page == 0 && dev.Inside(addr, len)
    modifies dev`count, dev`faults, dev`written, dev`mem, dev.buffer
    ensures dev.Valid() && dev.Answered(rc, old(dev.faults))
    ensures var want := Overwrite(old(dev.mem), addr - dev.base, Fill(len, dev.clean));
            if rc == 0 then dev.mem == want
            else && addr - dev.base <= at
                 && TornBetween(dev.mem, old(dev.mem), want, at, GapEnd(at, addr - dev.base + len, true))
  {
    hide Overwrite, Fill;
    ghost var was, want := dev.mem, Overwrite(dev.mem, addr - dev.base, Fill(len, dev.clean));
    var first := if len < DEFAULT_BUFFER_SIZE then len else DEFAULT_BUFFER_SIZE;
    Merge(dev.buffer, 0, Fill(first, dev.clean));
    var done := 0;
    rc, at := 0, addr - dev.base;
    while done < len
      invariant 0 <= done <= len && rc == 0 && at == addr - dev.base + done
      invariant dev.Valid() && dev.faults == old(dev.faults)
      invariant forall j :: 0 <= j < first ==> dev.buffer[j] == dev.clean
      invariant UpTo(dev.mem, was, want, addr - dev.base + done)
    {
      var n := if len - done < DEFAULT_BUFFER_SIZE then len - done else DEFAULT_BUFFER_SIZE;
      rc := dev.Write(addr + done, dev.buffer[..n]);
      if rc != 0 {
        return;
      }
      done := done + n;
      at := addr - dev.base + done;
    }
  }

  /** An erase of the device that was found. */
  method EraseDevice(dev: Device, addr: nat, len: nat) returns (status: Status, ghost at: nat)
    requires dev.Valid() && dev.Inside(addr, len) && 0 < len && (dev.page > 0 ==> dev.clean == 0xFF)
    modifies dev, dev.buffer
    ensures dev.Valid()
    ensures status == NotSupported <==> if dev.page > 0 then !dev.Equipped() else !(dev.hasWrite && dev.hasBuffer)
    ensures status.Done? || status.DriverError? || status.NotSupported?
    ensures Outcome(dev, addr, None, len, status, at)
  {
    hide MinimalErases, Overwrite, TornAt, TornBetween, Fill;
    at := 0;
    if dev.page == 0 {
      if !dev.hasWrite || !dev.hasBuffer {
        return NotSupported, at;
      }
      var rc;
      rc, at := EraseUnpaged(dev, addr, len);
      status := StatusOf(rc);
    } else {
      if !dev.hasRead || !dev.hasBuffer || !dev.hasErase || !dev.hasWrite {
        return NotSupported, at;
      }
      var rc;
      ghost var pages;
      rc, at, pages := ModifyPages(dev, addr, None, len);
      assert dev.erased[|old(dev.erased)|..] == pages;
      status := StatusOf(rc);
    }
  }

  method Erase(reg: Registry, addr: nat, len: nat) returns (status: Status, ghost at: nat)
    requires Ready(reg, addr, len)
    modifies Footprint(reg, addr, len)
    ensures Ready(reg, addr, len)
    ensures status == InvalidArgument <==> len == 0
    ensures status == NoDevice <==> len > 0 && Found(reg, addr, len) == None
    ensures status == NotSupported <==>
              && len > 0 && Found(reg, addr, len).Some?
              && var d := Found(reg, addr, len).value;
                 if d.page > 0 then !d.hasRead || !d.hasErase || !d.hasWrite || !d.hasBuffer
                 else !d.hasWrite || !d.hasBuffer
    ensures var d := Found(reg, addr, len);
            d.Some? ==> d.value.Inside(addr, len) && Outcome(d.value, addr, None, len, status, at)
  {
    hide MinimalErases, Overwrite, TornAt, TornBetween, Touches, GapEnd, Fill;
    at := 0;
    if Found(reg, addr, len).Some? { FoundContains(reg, addr, len); }
    if len == 0 {
      return InvalidArgument, at;
    }
    var h := reg.Find(addr, len);
    if h == null {
      return NoDevice, at;
    }
    status, at := EraseDevice(h.item.value, addr, len);
  }

  lemma OverwriteTwice(mem: seq<byte>, at: nat, data: seq<byte>)
    requires at + |data| <= |mem|
    ensures Overwrite(Overwrite(mem, at, data), at, data) == Overwrite(mem, at, data)
    ensures Overwrite(mem, at, data)[at..at + |data|] == data
  {
  }

  /** The range already holds these bytes. */
  ghost predicate Holds(d: Device, addr: nat, data: seq<byte>)
    reads d
  {
    d.Valid() && d.Inside(addr, |data|) && d.mem[addr - d.base..addr - d.base + |data|] == data
  }

  lemma HoldsMeansSame(d: Device, addr: nat, data: seq<byte>)
    requires d.Valid() && d.Inside(addr, |data|)
    ensures Holds(d, addr, data) <==> d.mem == Overwrite(d.mem, addr - d.base, data)
  {
    var at := addr - d.base;
    var part, after := d.mem[at..at + |data|], Overwrite(d.mem, at, data);
    assert after[at..at + |data|] == data;
    if part == data {
      forall i | 0 <= i < |d.mem| ensures d.mem[i] == after[i] {
        if at <= i < at + |data| { assert d.mem[i] == part[i - at]; }
      }
    }
  }

  /** Writing what a paged device already holds calls neither erase nor write, whether or not a read fails. */
  method WriteAgain(reg: Registry, addr: nat, data: seq<byte>) returns (status: Status)
    requires Ready(reg, addr, |data|) && Found(reg, addr, |data|).Some?
    requires var d := Found(reg, addr, |data|).value; d.page > 0 && Holds(d, addr, data)
    modifies Footprint(reg, addr, |data|)
    ensures Ready(reg, addr, |data|)
    ensures var d := Found(reg, addr, |data|).value;
            d.erased == old(d.erased) && d.written == old(d.written) && (status == Done ==> d.mem == old(d.mem))
  {
    hide MinimalErases, Overwrite, TornAt, TornBetween, Touches, GapEnd;
    ghost var at;
    HoldsMeansSame(Found(reg, addr, |data|).value, addr, data);
    status, at := Write(reg, addr, Some(data), |data|);
  }

  /** Erasing what is already clean calls neither erase nor write. */
  method EraseAgain(reg: Registry, addr: nat, len: nat) returns (status: Status)
    requires Ready(reg, addr, len) && Found(reg, addr, len).Some?
    requires var d := Found(reg, addr, len).value; d.page > 0 && Holds(d, addr, Fill(len, d.clean))
    modifies Footprint(reg, addr, len)
    ensures Ready(reg, addr, len)
    ensures var d := Found(reg, addr, len).value;
            d.erased == old(d.erased) && d.written == old(d.written) && (status == Done ==> d.mem == old(d.mem))
  {
    hide MinimalErases, Overwrite, TornAt, TornBetween, Touches, GapEnd, Fill;
    ghost var at;
    ghost var d := Found(reg, addr, len).value;
    HoldsMeansSame(d, addr, Fill(len, d.clean));
    status, at := Erase(reg, addr, len);
  }

  /** Repeating a successful write calls neither erase nor write: the histories after the first call, which erased
      the pages it had to, are those after both. */
  method WriteTwice(reg: Registry, addr: nat, data: seq<byte>)
    returns (once: Status, twice: Status, ghost erased: seq<nat>, ghost written: seq<Span>)
    requires Ready(reg, addr, |data|) && Found(reg, addr, |data|).Some? && Found(reg, addr, |data|).value.page > 0
    modifies Footprint(reg, addr, |data|)
    ensures Ready(reg, addr, |data|)
    ensures once == Done ==>
              var d := Found(reg, addr, |data|).value;
              && d.Inside(addr, |data|) && old(d.erased) <= erased
              && MinimalErases(erased[|old(d.erased)|..], old(d.mem), Overwrite(old(d.mem), addr - d.base, data),
                               d.base, d.page, d.base, d.base + d.size, true)
              && d.erased == erased && d.written == written
              && (twice == Done ==> d.mem == Overwrite(old(d.mem), addr - d.base, data))
  {
    hide MinimalErases, Overwrite, TornAt, TornBetween, Touches, GapEnd;
    ghost var at;
    FoundContains(reg, addr, |data|);
    ghost var d := Found(reg, addr, |data|).value;
    OverwriteTwice(d.mem, addr - d.base, data);
    once, at := Write(reg, addr, Some(data), |data|);
    erased, written, twice := d.erased, d.written, once;
    if once == Done {
      HoldsMeansSame(d, addr, data);
      twice := WriteAgain(reg, addr, data);
    }
  }

  /** The same for a repeated erase. */
  method EraseTwice(reg: Registry, addr: nat, len: nat)
    returns (once: Status, twice: Status, ghost erased: seq<nat>, ghost written: seq<Span>)
    requires Ready(reg, addr, len) && Found(reg, addr, len).Some? && Found(reg, addr, len).value.page > 0
    modifies Footprint(reg, addr, len)
    ensures Ready(reg, addr, len)
    ensures once == Done ==>
              var d := Found(reg, addr, len).value;
              && d.Inside(addr, len) && old(d.erased) <= erased
              && MinimalErases(erased[|old(d.erased)|..], old(d.mem),
                               Overwrite(old(d.mem), addr - d.base, Fill(len, d.clean)),
                               d.base, d.page, d.base, d.base + d.size, true)
              && d.erased == erased && d.written == written
              && (twice == Done ==> d.mem == Overwrite(old(d.mem), addr - d.base, Fill(len, d.clean)))
  {
    hide MinimalErases, Overwrite, TornAt, TornBetween, Touches, GapEnd, Fill;
    ghost var at;
    FoundContains(reg, addr, len);
    ghost var d := Found(reg, addr, len).value;
    OverwriteTwice(d.mem, addr - d.base, Fill(len, d.clean));
    once, at := Erase(reg, addr, len);
    erased, written, twice := d.erased, d.written, once;
    if once == Done {
      HoldsMeansSame(d, addr, Fill(len, d.clean));
      twice := EraseAgain(reg, addr, len);
    }
  }

  /** What was written reads back, and writing it a second time cost no erase. */
  method WriteTwiceThenRead(reg: Registry, addr: nat, data: seq<byte>, dst: array<byte>) returns (ok: bool)
    requires Ready(reg, addr, |data|) && Found(reg, addr, |data|).Some? && Found(reg, addr, |data|).value.page > 0
    requires |data| <= dst.Length && dst as object !in Footprint(reg, addr, |data|)
    modifies Footprint(reg, addr, |data|), dst
    ensures ok ==> dst[..|data|] == data
    ensures ok ==>
              var d := Found(reg, addr, |data|).value;
              && d.Valid() && d.Inside(addr, |data|) && old(d.erased) <= d.erased
              && MinimalErases(d.erased[|old(d.erased)|..], old(d.mem), Overwrite(old(d.mem), addr - d.base, data),
                               d.base, d.page, d.base, d.base + d.size, true)
  {
    hide MinimalErases, Overwrite;
    FoundContains(reg, addr, |data|);
    ghost var d := Found(reg, addr, |data|).value;
    OverwriteTwice(d.mem, addr - d.base, data);
    ghost var erased, written;
    var once, twice;
    once, twice, erased, written := WriteTwice(reg, addr, data);
    var read := Read(reg, addr, dst, |data|);
    ok := once == Done && twice == Done && read == Done;
  }
}
