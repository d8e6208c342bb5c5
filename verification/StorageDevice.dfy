/**
 The storage device: its geometry, its driver entry points and the contract
 that the device header states for them.

 Device memory is the field `mem`; address `a` is byte `a - base` of it. A paged
 device is NOR flash: a program operation can only clear bits, and an erase sets
 one whole page to the clean byte. A device without pages overwrites freely.
 Every driver call may fail; a failing call returns its error code and may leave
 anything at all in the range it was asked to change, and nothing elsewhere.
 */
module StorageDevice {
  import opened Options

  type byte = bv8

  const DEFAULT_BUFFER_SIZE: nat := 256

  /** A program request seen by the driver. */
  datatype Span = Span(addr: nat, len: nat)

  /** How the hardware answers: `rc(n)` is the result of the n-th call (0 is success), and
      `junk(n, i)` is what the n-th call leaves at byte i of its range when it fails. */
  datatype Hardware = Hardware(rc: nat -> int, junk: (nat, nat) -> byte)

  /** `s` with the bytes from `at` on replaced by `data`. */
  function Overwrite(s: seq<byte>, at: nat, data: seq<byte>): (r: seq<byte>)
    requires at + |data| <= |s|
    ensures |r| == |s|
    ensures forall i :: 0 <= i < |s| ==> r[i] == if at <= i < at + |data| then data[i - at] else s[i]
  {
    seq(|s|, i requires 0 <= i < |s| => if at <= i < at + |data| then data[i - at] else s[i])
  }

  /** A flash cell keeps a 1 only where it had one and is programmed with one. */
  function Meet(was: byte, data: byte): byte
  {
    was & data
  }

  /** What programming `data` at `at` leaves in flash: bits can only be cleared. */
  function Program(s: seq<byte>, at: nat, data: seq<byte>): (r: seq<byte>)
    requires at + |data| <= |s|
    ensures |r| == |s|
    ensures forall i :: 0 <= i < |s| ==> r[i] == if at <= i < at + |data| then Meet(s[i], data[i - at]) else s[i]
  {
    seq(|s|, i requires 0 <= i < |s| => if at <= i < at + |data| then Meet(s[i], data[i - at]) else s[i])
  }

  /** `n` copies of `b`. */
  function Fill(n: nat, b: byte): (r: seq<byte>)
    ensures |r| == n && forall i :: 0 <= i < n ==> r[i] == b
  {
    seq(n, _ => b)
  }

  class Device {
    const base: nat
    const size: nat
    const page: nat
    const clean: byte
    const hasRead: bool
    const hasErase: bool
    const hasWrite: bool
    const hasBuffer: bool
    const hardware: Hardware
    const buffer: array<byte>
    var mem: seq<byte>
    var count: nat               // driver calls so far
    var faults: seq<(int, int)>  // number and result of each call that failed
    var erased: seq<nat>         // addresses of the erase calls so far
    var written: seq<Span>       // spans of the write calls so far

    /** The device is well formed, and every erase and write the driver has received obeyed its contract. */
    ghost predicate Valid()
      reads this
    {
      && (forall n :: 0 <= n < |erased| ==> EraseAllowed(erased[n], page))
      && (forall n :: 0 <= n < |written| ==> WriteAllowed(written[n].addr, written[n].len))
      && |mem| == size
      && (page > 0 ==> base % page == 0 && size % page == 0)
      && buffer.Length == if page > 0 then page else DEFAULT_BUFFER_SIZE
    }

    constructor (base: nat, size: nat, page: nat, clean: byte, contents: seq<byte>,
                 hasRead: bool, hasErase: bool, hasWrite: bool, hasBuffer: bool, hardware: Hardware)
      requires |contents| == size
      requires page > 0 ==> base % page == 0 && size % page == 0
      ensures Valid() && mem == contents && count == 0 && faults == [] && erased == [] && written == []
      ensures this.base == base && this.size == size && this.page == page && this.clean == clean
      ensures this.hasErase == (hasErase && page > 0) && this.hasRead == hasRead
      ensures this.hasWrite == hasWrite && this.hasBuffer == hasBuffer && this.hardware == hardware
      ensures fresh(buffer)
    {
      this.base, this.size, this.page, this.clean := base, size, page, clean;
      this.hasRead, this.hasErase, this.hasWrite := hasRead, hasErase && page > 0, hasWrite;
      this.hasBuffer, this.hardware := hasBuffer, hardware;
      this.buffer := new byte[if page > 0 then page else DEFAULT_BUFFER_SIZE];
      this.mem, this.count, this.faults, this.erased, this.written := contents, 0, [], [], [];
    }

    /** The driver has all entry points, and the device a page buffer. */
    predicate Equipped()
    {
      hasRead && hasErase && hasWrite && hasBuffer
    }

    /** The whole range lies inside the device. */
    predicate Inside(addr: nat, len: nat)
    {
      base <= addr && addr + len <= base + size
    }

    /** The driver contract: a paged device erases exactly one aligned page ... */
    predicate EraseAllowed(addr: nat, len: nat)
    {
      Inside(addr, len) && page > 0 && addr % page == 0 && len == page
    }

    /** ... and programs at most up to the end of the page it starts in. */
    predicate WriteAllowed(addr: nat, len: nat)
    {
      Inside(addr, len) && 0 < len && (page > 0 ==> addr % page + len <= page)
    }

    /** No driver call has failed since then, or only the very last one has, with result `rc`. */
    predicate Answered(rc: int, faults0: seq<(int, int)>)
      reads this
    {
      faults == faults0 + if rc == 0 then [] else [(count - 1, rc)]
    }

    /** One driver call: what the hardware returns. */
    method Answer() returns (rc: int)
      modifies this`count, this`faults
      ensures Answered(rc, old(faults))
    {
      rc := hardware.rc(count);
      faults := faults + if rc == 0 then [] else [(count, rc)];
      count := count + 1;
    }

    /** Read `len` bytes at `addr` into `dst[at..]`. */
    method Read(addr: nat, dst: array<byte>, at: nat, len: nat) returns (rc: int)
      requires hasRead && Valid() && Inside(addr, len) && at + len <= dst.Length
      modifies this`count, this`faults, dst
      ensures Valid()
      ensures Answered(rc, old(faults))
      ensures forall j :: 0 <= j < dst.Length && !(at <= j < at + len) ==> dst[j] == old(dst[j])
      ensures rc == 0 ==> forall j :: at <= j < at + len ==> dst[j] == mem[addr - base + j - at]
    {
      var n := count;
      rc := Answer();
      forall j | at <= j < at + len {
        dst[j] := if rc == 0 then mem[addr - base + j - at] else hardware.junk(n, j - at);
      }
    }

    /** Set one page to the clean byte. */
    method Erase(addr: nat, len: nat) returns (rc: int)
      requires hasErase && Valid() && EraseAllowed(addr, len)
      modifies this`count, this`faults, this`erased, this`mem
      ensures Valid()
      ensures Answered(rc, old(faults))
      ensures erased == old(erased) + [addr]
      ensures forall i :: 0 <= i < size && !(addr - base <= i < addr - base + len) ==> mem[i] == old(mem)[i]
      ensures rc == 0 ==> mem == Overwrite(old(mem), addr - base, Fill(len, clean))
    {
      var n := count;
      rc := Answer();
      erased := erased + [addr];
      mem := Overwrite(mem, addr - base, seq(len, i requires 0 <= i => if rc == 0 then clean else hardware.junk(n, i)));
    }

    /** Program (paged device) or overwrite (page-less device) `data` at `addr`. */
    method Write(addr: nat, data: seq<byte>) returns (rc: int)
      requires hasWrite && Valid() && WriteAllowed(addr, |data|)
      modifies this`count, this`faults, this`written, this`mem
      ensures Valid()
      ensures Answered(rc, old(faults))
      ensures written == old(written) + [Span(addr, |data|)]
      ensures forall i :: 0 <= i < size && !(addr - base <= i < addr - base + |data|) ==> mem[i] == old(mem)[i]
      ensures rc == 0 && page > 0 ==> mem == Program(old(mem), addr - base, data)
      ensures rc == 0 && page == 0 ==> mem == Overwrite(old(mem), addr - base, data)
    {
      var n := count;
      rc := Answer();
      written := written + [Span(addr, |data|)];
      if rc != 0 {
        mem := Overwrite(mem, addr - base, seq(|data|, i requires 0 <= i => hardware.junk(n, i)));
      } else if page > 0 {
        mem := Program(mem, addr - base, data);
      } else {
        mem := Overwrite(mem, addr - base, data);
      }
    }
  }
}
