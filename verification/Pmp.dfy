/**
 Physical memory protection: address encoding, entry configuration and the save and restore
 around sleep, under the locking rules of section 3.7.1 of the RISC-V Privileged Architecture 20211203.
 */
module Pmp {

  const ENTRIES: nat := 8

  // ---------------------------------------------------------------- naturally aligned power-of-two regions

  /** The NAPOT macro; its casts to 32 bits truncate. */
  function Napot(base: bv32, size: bv64): bv32
  {
    if size == 0 then 0
    else
      var low := (size & 0xFFFF_FFFF) as bv32;
      var frame := (base & !(low - 1)) >> 2;
      (((frame as bv64) | ((size - 1) >> 3)) & 0xFFFF_FFFF) as bv32
  }

  /** How the hardware reads the encoding: the number of trailing ones gives the size, what is above them the base. */
  function TrailingOnes(a: bv32): bv64
    decreases a
  {
    if a & 1 == 0 then 0 else 1 + TrailingOnes(a >> 1)
  }

  function DecodedSize(a: bv32): bv64
  {
    var t := TrailingOnes(a);
    if t > 32 then 0 else 8 << t
  }

  function DecodedBase(a: bv32): bv64
  {
    var t := TrailingOnes(a);
    if t > 32 then 0 else ((a as bv64) & !((1 << t) - 1)) << 2
  }

  /** What the driver's header asks of the caller: a power of two of at least 8 bytes, and an aligned base. */
  predicate Regular(base: bv32, size: bv64)
  {
    size & (size - 1) == 0 && 8 <= size <= 0x8_0000_0000 && (base as bv64) & (size - 1) == 0
  }

  /** Exactly t ones at the end. */
  predicate Shape(a: bv32, t: bv64)
  {
    t <= 32 && (a as bv64) & ((1 << t) - 1) == (1 << t) - 1 && ((a as bv64) >> t) & 1 == 0
  }

  lemma ShapeZero(a: bv32)
    ensures if a & 1 == 0 then Shape(a, 0) else a >> 1 < a
  {
  }

  lemma ShapeUp(a: bv32, t: bv64)
    requires a & 1 != 0 && Shape(a >> 1, t)
    ensures Shape(a, 1 + t)
  {
  }

  lemma OnesStep(a: bv32)
    ensures TrailingOnes(a) == if a & 1 == 0 then 0 else 1 + TrailingOnes(a >> 1)
  {
  }

  lemma ShapeUnique(a: bv32, t: bv64, u: bv64)
    requires Shape(a, t) && Shape(a, u)
    ensures t == u && t <= 32
  {
  }

  lemma {:induction false} OnesShape(a: bv32)
    ensures Shape(a, TrailingOnes(a))
    decreases a
  {
    hide Shape, TrailingOnes;
    OnesStep(a);
    ShapeZero(a);
    if a & 1 != 0 {
      OnesShape(a >> 1);
      ShapeUp(a, TrailingOnes(a >> 1));
    }
  }

  lemma EncodedShape(base: bv32, k: bv64)
    requires 3 <= k <= 35 && (base as bv64) & ((1 << k) - 1) == 0
    ensures var a := Napot(base, 1 << k);
            Shape(a, k - 3) && ((a as bv64) & !((1 << (k - 3)) - 1)) << 2 == base as bv64
  {
  }

  /** A power of two, from 1 << k to 1 << 35. */
  predicate PowerFrom(size: bv64, k: bv64)
  {
    size & (size - 1) == 0 && k <= 35 && 1 << k <= size <= 0x8_0000_0000
  }

  lemma NextPower(size: bv64, k: bv64)
    requires PowerFrom(size, k) && size != 1 << k
    ensures k < 35 && PowerFrom(size, k + 1)
  {
  }

  /** The exponent of a power of two. */
  lemma {:induction false} Exponent(size: bv64, k: bv64) returns (j: bv64)
    requires k <= 35 && PowerFrom(size, k)
    ensures k <= j <= 35 && size == 1 << j
    decreases 35 - k
  {
    hide PowerFrom;
    if size == 1 << k {
      j := k;
    } else {
      NextPower(size, k);
      j := Exponent(size, k + 1);
    }
  }

  lemma DecodedIs(a: bv32, t: bv64)
    requires Shape(a, t)
    ensures t <= 32 && DecodedSize(a) == 8 << t && DecodedBase(a) == ((a as bv64) & !((1 << t) - 1)) << 2
  {
    hide TrailingOnes;
    OnesShape(a);
    ShapeUnique(a, t, TrailingOnes(a));
  }

  lemma RegularRoundTrips(base: bv32, size: bv64)
    requires Regular(base, size)
    ensures DecodedBase(Napot(base, size)) == base as bv64 && DecodedSize(Napot(base, size)) == size
  {
    hide Shape, Napot, DecodedBase, DecodedSize;
    var k := Exponent(size, 3);
    EncodedShape(base, k);
    DecodedIs(Napot(base, size), k - 3);
  }

  /** Whatever a register holds, it decodes to a regular region, if the base fits the address space. */
  lemma DecodedIsRegular(a: bv32, base: bv32, size: bv64)
    requires DecodedSize(a) == size && DecodedBase(a) == base as bv64
    ensures Regular(base, size)
  {
    hide TrailingOnes, DecodedBase, DecodedSize;
    OnesShape(a);
    DecodedIs(a, TrailingOnes(a));
  }

  /** The encoding round-trips exactly for the regions the header allows, the full 4 GiB included,
      where the cast size is 0. */
  lemma NapotRoundTrip(base: bv32, size: bv64)
    ensures (DecodedBase(Napot(base, size)) == base as bv64 && DecodedSize(Napot(base, size)) == size)
            <==> Regular(base, size)
  {
    hide Regular, Napot, DecodedBase, DecodedSize;
    if Regular(base, size) {
      RegularRoundTrips(base, size);
    } else if DecodedBase(Napot(base, size)) == base as bv64 && DecodedSize(Napot(base, size)) == size {
      DecodedIsRegular(Napot(base, size), base, size);
    }
  }

  // ---------------------------------------------------------------- registers and locks

  /** Eight configuration bytes and eight address registers. */
  datatype Pmp = Pmp(cfg: seq<bv8>, addr: seq<bv32>)

  predicate Valid(p: Pmp)
  {
    |p.cfg| == ENTRIES && |p.addr| == ENTRIES
  }

  /** Address matching modes, bits 4 and 3 of a configuration byte. */
  datatype Mode = Off | Tor | Na4 | NapotMode

  function ModeOf(c: bv8): Mode
  {
    var a := (c >> 3) & 3;
    if a == 0 then Off else if a == 1 then Tor else if a == 2 then Na4 else NapotMode
  }

  predicate Locked(c: bv8)
  {
    c & 0x80 != 0
  }

  /** Writes to the address are ignored: the entry is locked, or it is the lower bound of a locked TOR entry. */
  predicate AddrLocked(p: Pmp, i: nat)
    requires Valid(p) && i < ENTRIES
  {
    Locked(p.cfg[i]) || (i + 1 < ENTRIES && Locked(p.cfg[i + 1]) && ModeOf(p.cfg[i + 1]) == Tor)
  }

  function WriteAddr(p: Pmp, i: nat, v: bv32): (r: Pmp)
    requires Valid(p) && i < ENTRIES
    ensures Valid(r)
  {
    if AddrLocked(p, i) then p else p.(addr := p.addr[i := v])
  }

  lemma TopBitLocks(c: bv8)
    ensures Locked(c) <==> c >= 0x80
    ensures ModeOf(c) == Tor <==> c & 0x18 == 0x08
  {
  }

  /** An address write takes effect exactly if the entry's own lock bit is clear and the next entry is not a locked TOR
      entry, unless the value was there already; it never changes anything else. */
  lemma AddrWriteTakesIff(p: Pmp, i: nat, v: bv32)
    requires Valid(p) && i < ENTRIES
    ensures var q := WriteAddr(p, i, v);
            && (q.addr[i] == v <==>
                  || p.addr[i] == v
                  || !(p.cfg[i] >= 0x80 || (i + 1 < ENTRIES && p.cfg[i + 1] >= 0x80 && p.cfg[i + 1] & 0x18 == 0x08)))
            && q.cfg == p.cfg && forall j :: 0 <= j < ENTRIES && j != i ==> q.addr[j] == p.addr[j]
  {
    hide Locked, ModeOf;
    TopBitLocks(p.cfg[i]);
    if i + 1 < ENTRIES { TopBitLocks(p.cfg[i + 1]); }
  }

  /** A configuration register, as its four bytes. */
  function ReadCfg(p: Pmp, r: nat): (w: seq<bv8>)
    requires Valid(p) && r < 2
    ensures |w| == 4 && forall k :: 0 <= k < 4 ==> w[k] == p.cfg[4 * r + k]
  {
    p.cfg[4 * r..4 * r + 4]
  }

  /** A register write reaches only the entries that are not locked. */
  function WriteCfg(p: Pmp, r: nat, w: seq<bv8>): (q: Pmp)
    requires Valid(p) && r < 2 && |w| == 4
    ensures Valid(q) && q.addr == p.addr
    ensures forall i :: 0 <= i < ENTRIES ==>
              q.cfg[i] == if 4 * r <= i < 4 * r + 4 && !Locked(p.cfg[i]) then w[i - 4 * r] else p.cfg[i]
  {
    p.(cfg := seq(ENTRIES, i requires 0 <= i < ENTRIES =>
                    if 4 * r <= i < 4 * r + 4 && !Locked(p.cfg[i]) then w[i - 4 * r] else p.cfg[i]))
  }

  /** The driver's read-modify-write on the 32-bit register, with the byte at bit position s masked out and the new
      one shifted in, replaces that byte and keeps the others. */
  lemma MaskAndShiftIsByteUpdate(w: bv32, c: bv8, s: bv32, t: bv32)
    requires (s == 0 || s == 8 || s == 16 || s == 24) && (t == 0 || t == 8 || t == 16 || t == 24)
    ensures s == t ==> (((w & !(0xFF << s)) | ((c as bv32) << s)) >> t) & 0xFF == c as bv32
    ensures s != t ==> (((w & !(0xFF << s)) | ((c as bv32) << s)) >> t) & 0xFF == (w >> t) & 0xFF
  {
  }

  /** Byte k of a register word, and the word of four bytes. */
  function ByteOf(w: bv32, t: bv32): bv8
    requires t == 0 || t == 8 || t == 16 || t == 24
  {
    ((w >> t) & 0xFF) as bv8
  }

  function BytesOf(w: bv32): (r: seq<bv8>)
    ensures |r| == 4
  {
    [ByteOf(w, 0), ByteOf(w, 8), ByteOf(w, 16), ByteOf(w, 24)]
  }

  function WordOf(b: seq<bv8>): bv32
    requires |b| == 4
  {
    Join(b[0], b[1], b[2], b[3])
  }

  function Join(a: bv8, b: bv8, c: bv8, d: bv8): bv32
  {
    (a as bv32) | ((b as bv32) << 8) | ((c as bv32) << 16) | ((d as bv32) << 24)
  }

  lemma BytesOfJoin(a: bv8, b: bv8, c: bv8, d: bv8)
    ensures var w := Join(a, b, c, d);
            ByteOf(w, 0) == a && ByteOf(w, 8) == b && ByteOf(w, 16) == c && ByteOf(w, 24) == d
  {
  }

  /** The bit position of entry i in its configuration register. */
  function Shift(i: nat): (s: bv32)
    ensures s == 0 || s == 8 || s == 16 || s == 24
  {
    var k := i % 4;
    if k == 0 then 0 else if k == 1 then 8 else if k == 2 then 16 else 24
  }

  /** The driver's expression for the new register value. */
  function MaskAndShift(w: bv32, c: bv8, s: bv32): bv32
    requires s <= 24
  {
    (w & !(0xFF << s)) | ((c as bv32) << s)
  }

  lemma ByteAfterUpdate(w: bv32, c: bv8, s: bv32, t: bv32)
    requires (s == 0 || s == 8 || s == 16 || s == 24) && (t == 0 || t == 8 || t == 16 || t == 24)
    ensures ByteOf(MaskAndShift(w, c, s), t) == if s == t then c else ByteOf(w, t)
  {
    MaskAndShiftIsByteUpdate(w, c, s, t);
  }

  /** On the bytes of the register, masking and shifting replaces the byte of the entry. */
  lemma MaskAndShiftUpdates(b: seq<bv8>, i: nat, c: bv8)
    requires |b| == 4
    ensures BytesOf(MaskAndShift(WordOf(b), c, Shift(i))) == b[i % 4 := c]
  {
    hide ByteOf, MaskAndShift, Join;
    var w, s := WordOf(b), Shift(i);
    BytesOfJoin(b[0], b[1], b[2], b[3]);
    ByteAfterUpdate(w, c, s, 0);
    ByteAfterUpdate(w, c, s, 8);
    ByteAfterUpdate(w, c, s, 16);
    ByteAfterUpdate(w, c, s, 24);
  }

  // ---------------------------------------------------------------- configuring one entry

  /** The driver's configuration write: one byte changes, unless it is locked. */
  function WriteConfig(p: Pmp, i: nat, c: bv8): (q: Pmp)
    requires Valid(p) && i < ENTRIES
    ensures Valid(q)
  {
    WriteCfg(p, i / 4, ReadCfg(p, i / 4)[i % 4 := c])
  }

  lemma WriteConfigIs(p: Pmp, i: nat, c: bv8)
    requires Valid(p) && i < ENTRIES
    ensures WriteConfig(p, i, c) == if Locked(p.cfg[i]) then p else p.(cfg := p.cfg[i := c])
  {
    hide Locked, ReadCfg, WriteCfg;
    var q, want := WriteConfig(p, i, c), if Locked(p.cfg[i]) then p.cfg else p.cfg[i := c];
    var r, w := i / 4, ReadCfg(p, i / 4)[i % 4 := c];
    assert i == 4 * r + i % 4;
    forall j | 0 <= j < ENTRIES ensures q.cfg[j] == want[j] {
      if 4 * r <= j < 4 * r + 4 { assert w[j - 4 * r] == if j == i then c else p.cfg[j]; }
    }
    assert q.cfg == want;
  }

  /** Address first, configuration second. */
  function Configure(p: Pmp, i: nat, v: bv32, c: bv8): (q: Pmp)
    requires Valid(p) && i < ENTRIES
    ensures Valid(q)
  {
    WriteConfig(WriteAddr(p, i, v), i, c)
  }

  /** What an entry matches: nothing, the range between two addresses, or the region its address encodes. */
  datatype Match = NoMatch | Between(lo: bv32, hi: bv32) | Four(a: bv32) | Region(a: bv32)

  function Matches(p: Pmp, j: nat): Match
    requires Valid(p) && j < ENTRIES
  {
    match ModeOf(p.cfg[j])
    case Off => NoMatch
    case Tor => Between(if j == 0 then 0 else p.addr[j - 1], p.addr[j])
    case Na4 => Four(p.addr[j])
    case NapotMode => Region(p.addr[j])
  }

  /** Configuring entry i changes what no other entry matches, except that it moves the lower bound of the next one
      if that is an unlocked TOR entry; it changes no other entry's permissions or lock. */
  lemma ConfigureFrame(p: Pmp, i: nat, v: bv32, c: bv8, j: nat)
    requires Valid(p) && i < ENTRIES && j < ENTRIES && j != i
    ensures var q := Configure(p, i, v, c);
            && q.cfg[j] == p.cfg[j]
            && (!(j == i + 1 && ModeOf(p.cfg[j]) == Tor) ==> Matches(q, j) == Matches(p, j))
            && (j == i + 1 && ModeOf(p.cfg[j]) == Tor ==>
                  Matches(q, j) == Between(if AddrLocked(p, i) then p.addr[i] else v, p.addr[j]))
  {
    hide Locked, ModeOf, WriteConfig;
    WriteConfigIs(WriteAddr(p, i, v), i, c);
  }

  /** The entry ends up as asked exactly if neither its address nor its configuration is locked against a change. */
  lemma ConfigureTakesEffectIff(p: Pmp, i: nat, v: bv32, c: bv8)
    requires Valid(p) && i < ENTRIES
    ensures var q := Configure(p, i, v, c);
            (q.addr[i] == v && q.cfg[i] == c)
            <==> (AddrLocked(p, i) ==> p.addr[i] == v) && (Locked(p.cfg[i]) ==> p.cfg[i] == c)
  {
    hide Locked, ModeOf, WriteConfig;
    WriteConfigIs(WriteAddr(p, i, v), i, c);
  }

  /** A lock is final: once an entry is configured with the top bit set, configuring it again changes nothing of it. */
  lemma LockSticks(p: Pmp, i: nat, v: bv32, c: bv8, w: bv32, d: bv8)
    requires Valid(p) && i < ENTRIES && p.cfg[i] < 0x80
    ensures var q := Configure(p, i, v, c);
            var r := Configure(q, i, w, d);
            && q.cfg[i] == c
            && (c >= 0x80 ==> r == q)
            && (c < 0x80 ==> r.cfg[i] == d)
  {
    hide Locked, ModeOf, WriteConfig;
    TopBitLocks(p.cfg[i]);
    TopBitLocks(c);
    WriteConfigIs(WriteAddr(p, i, v), i, c);
    var q := Configure(p, i, v, c);
    WriteConfigIs(WriteAddr(q, i, w), i, d);
  }

  /** The scheme bits are OR-ed in: NAPOT always comes out right, TOR only if the caller's reserved bit 4 is clear. */
  lemma SchemeIsSet(config: bv8)
    ensures ModeOf(config | (1 << 3)) == Tor <==> config & 0x10 == 0
    ensures ModeOf(config | (3 << 3)) == NapotMode
  {
  }

  // ---------------------------------------------------------------- save and restore

  /** The first n addresses written back. */
  function RestoreAddrs(p: Pmp, kept: seq<bv32>, n: nat): (q: Pmp)
    requires Valid(p) && |kept| == ENTRIES && n <= ENTRIES
    ensures Valid(q)
  {
    if n == 0 then p else WriteAddr(RestoreAddrs(p, kept, n - 1), n - 1, kept[n - 1])
  }

  function RestoreCfgs(p: Pmp, kept: seq<seq<bv8>>): (q: Pmp)
    requires Valid(p) && |kept| == 2 && |kept[0]| == |kept[1]| == 4
    ensures Valid(q)
  {
    WriteCfg(WriteCfg(p, 0, kept[0]), 1, kept[1])
  }

  function SavedCfgs(p: Pmp): seq<seq<bv8>>
    requires Valid(p)
  {
    [ReadCfg(p, 0), ReadCfg(p, 1)]
  }

  /** Save, sleep, wake up in state `now`, restore. */
  function Restored(now: Pmp, saved: Pmp): (q: Pmp)
    requires Valid(now) && Valid(saved)
    ensures Valid(q)
  {
    RestoreCfgs(RestoreAddrs(now, saved.addr, ENTRIES), SavedCfgs(saved))
  }

  /** The order the driver does not use. */
  function RestoredConfigFirst(now: Pmp, saved: Pmp): (q: Pmp)
    requires Valid(now) && Valid(saved)
    ensures Valid(q)
  {
    RestoreAddrs(RestoreCfgs(now, SavedCfgs(saved)), saved.addr, ENTRIES)
  }

  lemma {:induction false} RestoreAddrsIs(p: Pmp, kept: seq<bv32>, n: nat)
    requires Valid(p) && |kept| == ENTRIES && n <= ENTRIES
    ensures var q := RestoreAddrs(p, kept, n);
            && q.cfg == p.cfg
            && forall i :: 0 <= i < ENTRIES ==> q.addr[i] == if i < n && !AddrLocked(p, i) then kept[i] else p.addr[i]
  {
    hide Locked, ModeOf;
    if n > 0 { RestoreAddrsIs(p, kept, n - 1); }
  }

  lemma RestoreCfgsIs(p: Pmp, saved: Pmp)
    requires Valid(p) && Valid(saved)
    ensures var q := RestoreCfgs(p, SavedCfgs(saved));
            && q.addr == p.addr
            && forall i :: 0 <= i < ENTRIES ==> q.cfg[i] == if Locked(p.cfg[i]) then p.cfg[i] else saved.cfg[i]
  {
    hide Locked;
  }

  /** The parts of `now` that cannot be written already hold the saved values. */
  predicate LockedPartsAgree(now: Pmp, saved: Pmp)
    requires Valid(now) && Valid(saved)
  {
    forall i :: 0 <= i < ENTRIES ==>
      (AddrLocked(now, i) ==> now.addr[i] == saved.addr[i]) && (Locked(now.cfg[i]) ==> now.cfg[i] == saved.cfg[i])
  }

  /** Restoring reproduces the saved state exactly if the locked parts already hold it. */
  lemma RestoreExactIff(now: Pmp, saved: Pmp)
    requires Valid(now) && Valid(saved)
    ensures Restored(now, saved) == saved <==> LockedPartsAgree(now, saved)
  {
    hide Locked, ModeOf, RestoreAddrs, RestoreCfgs, AddrLocked;
    RestoreAddrsIs(now, saved.addr, ENTRIES);
    var p := RestoreAddrs(now, saved.addr, ENTRIES);
    RestoreCfgsIs(p, saved);
    var q := Restored(now, saved);
    if q != saved { assert q.cfg != saved.cfg || q.addr != saved.addr; }
  }

  /** After reset nothing is locked, and after a sleep that keeps the registers nothing differs: both restore. */
  lemma RestoreFromResetOrRetention(now: Pmp, saved: Pmp)
    requires Valid(now) && Valid(saved)
    requires (forall i :: 0 <= i < ENTRIES ==> now.cfg[i] == 0) || now == saved
    ensures Restored(now, saved) == saved
  {
    RestoreExactIff(now, saved);
  }

  /** Configurations first would also need every address that the saved state locks to be in place already. */
  lemma ConfigFirstExactIff(now: Pmp, saved: Pmp)
    requires Valid(now) && Valid(saved)
    ensures RestoredConfigFirst(now, saved) == saved <==>
              forall i :: 0 <= i < ENTRIES ==>
                && (AddrLocked(saved, i) ==> now.addr[i] == saved.addr[i])
                && (Locked(now.cfg[i]) ==> now.cfg[i] == saved.cfg[i])
  {
    hide Locked, ModeOf, RestoreAddrs, RestoreCfgs;
    RestoreCfgsIs(now, saved);
    var p := RestoreCfgs(now, SavedCfgs(saved));
    RestoreAddrsIs(p, saved.addr, ENTRIES);
    var q := RestoredConfigFirst(now, saved);
    if p.cfg == saved.cfg {
      assert forall i :: 0 <= i < ENTRIES ==> (AddrLocked(p, i) <==> AddrLocked(saved, i));
      if q != saved { assert q.addr != saved.addr; }
    }
  }

  /** So from reset, with all addresses zero, it fails whenever the saved state locks an address that is not zero, while
      the driver's order restores it. */
  lemma ConfigFirstFails(now: Pmp, saved: Pmp, i: nat)
    requires Valid(now) && Valid(saved) && i < ENTRIES
    requires forall j :: 0 <= j < ENTRIES ==> now.cfg[j] == 0 && now.addr[j] == 0
    requires saved.cfg[i] >= 0x80 && saved.addr[i] != 0
    ensures RestoredConfigFirst(now, saved) != saved && Restored(now, saved) == saved
  {
    hide Locked, ModeOf, RestoredConfigFirst, Restored;
    TopBitLocks(saved.cfg[i]);
    ConfigFirstExactIff(now, saved);
    RestoreFromResetOrRetention(now, saved);
  }

  // ---------------------------------------------------------------- the driver

  /** The unit's registers and the copies kept in retention memory. */
  class Driver {
    var hw: Pmp
    var cfgKept: seq<seq<bv8>>
    var addrKept: seq<bv32>

    ghost predicate Ok()
      reads this
    {
      Valid(hw) && |cfgKept| == 2 && |cfgKept[0]| == |cfgKept[1]| == 4 && |addrKept| == ENTRIES
    }

    constructor (hw: Pmp)
      requires Valid(hw)
      ensures Ok() && this.hw == hw
    {
      this.hw := hw;
      cfgKept := [[0, 0, 0, 0], [0, 0, 0, 0]];
      addrKept := seq(ENTRIES, _ => 0);
    }

    /** Read, mask, shift and write one configuration register. */
    method WriteConfigRegister(i: nat, c: bv8)
      requires Ok() && i < ENTRIES
      modifies this`hw
      ensures Ok() && hw == WriteConfig(old(hw), i, c)
      ensures hw == if Locked(old(hw).cfg[i]) then old(hw) else old(hw).(cfg := old(hw).cfg[i := c])
    {
      hide MaskAndShift, WordOf, BytesOf, Locked, ReadCfg, WriteCfg;
      MaskAndShiftUpdates(ReadCfg(hw, i / 4), i, c);
      WriteConfigIs(hw, i, c);
      var word := WordOf(ReadCfg(hw, i / 4));
      hw := WriteCfg(hw, i / 4, BytesOf(MaskAndShift(word, c, Shift(i))));
    }

    method ConfigureTor(i: nat, address: bv32, config: bv8)
      requires Ok() && i < ENTRIES
      modifies this`hw
      ensures Ok() && hw == Configure(old(hw), i, address >> 2, config | (1 << 3))
      // an unlocked entry then matches from the address below it up to the one asked for, if reserved bit 4 was clear
      ensures !AddrLocked(old(hw), i) && !Locked(old(hw).cfg[i]) && config & 0x10 == 0 ==>
                Matches(hw, i) == Between(if i == 0 then 0 else old(hw).addr[i - 1], address >> 2)
    {
      hide Locked, WriteConfig, ModeOf;
      SchemeIsSet(config);
      WriteConfigIs(WriteAddr(hw, i, address >> 2), i, config | (1 << 3));
      hw := WriteAddr(hw, i, address >> 2);
      WriteConfigRegister(i, config | (1 << 3));
    }

    method ConfigureNapot(i: nat, address: bv32, size: bv64, config: bv8)
      requires Ok() && i < ENTRIES
      modifies this`hw
      ensures Ok() && hw == Configure(old(hw), i, Napot(address, size), config | (3 << 3))
      // an unlocked entry then matches exactly the region asked for
      ensures !AddrLocked(old(hw), i) && !Locked(old(hw).cfg[i]) && Regular(address, size) ==>
                && Matches(hw, i) == Region(hw.addr[i])
                && DecodedBase(hw.addr[i]) == address as bv64 && DecodedSize(hw.addr[i]) == size
    {
      hide Napot, DecodedBase, DecodedSize, Regular, Locked, WriteConfig, ModeOf;
      NapotRoundTrip(address, size);
      SchemeIsSet(config);
      hw := WriteAddr(hw, i, Napot(address, size));
      WriteConfigIs(hw, i, config | (3 << 3));
      WriteConfigRegister(i, config | (3 << 3));
    }

    method DisableEntry(i: nat, address: bv32)
      requires Ok() && i < ENTRIES
      modifies this`hw
      ensures Ok() && hw == Configure(old(hw), i, address >> 2, 0)
      ensures Matches(hw, i) == NoMatch || (Locked(old(hw).cfg[i]) && hw == old(hw))
    {
      WriteConfigIs(WriteAddr(hw, i, address >> 2), i, 0);
      hw := WriteAddr(hw, i, address >> 2);
      WriteConfigRegister(i, 0);
    }

    method Save()
      requires Ok()
      modifies this`cfgKept, this`addrKept
      ensures Ok() && cfgKept == SavedCfgs(hw) && addrKept == hw.addr
    {
      cfgKept := [ReadCfg(hw, 0), ReadCfg(hw, 1)];
      addrKept := hw.addr;
    }

    /** Addresses first, then configurations. */
    method Restore(ghost saved: Pmp)
      requires Ok() && Valid(saved) && cfgKept == SavedCfgs(saved) && addrKept == saved.addr
      modifies this`hw
      ensures Ok() && hw == Restored(old(hw), saved)
      ensures hw == saved <==> LockedPartsAgree(old(hw), saved)
    {
      RestoreExactIff(hw, saved);
      for i := 0 to ENTRIES
        invariant Ok() && hw == RestoreAddrs(old(hw), addrKept, i)
      {
        hw := WriteAddr(hw, i, addrKept[i]);
      }
      hw := WriteCfg(hw, 0, cfgKept[0]);
      hw := WriteCfg(hw, 1, cfgKept[1]);
    }
  }
}
