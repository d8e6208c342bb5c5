/**
 The registry of storage devices: a global list that refines a sequence of distinct devices.
 A device is known by its list node; the sentinel is the one node without a device.
 */
module StorageRegistry {
  import opened Options
  import opened Widths
  import opened StorageDevice
  import opened Dlist

  type Handle = DNode<Option<Device>>

  /** Addresses are 32 bits wide; sums wrap around. */
  const WORD: nat := TWO32

  /** The range test of the device search, as the 32-bit machine computes it. */
  predicate RangeTest(base: nat, size: nat, addr: nat, len: nat)
  {
    addr >= base && (addr + len) % WORD <= (base + size) % WORD
  }

  /** For a device that ends below 4 GiB the test is right exactly if the request does not wrap around into the
      addresses up to the device's end. For one that ends at 4 GiB the device's own end wraps to 0, and the test is
      right exactly if the request is not inside the device and short of its end. */
  lemma RangeTestExact(base: nat, size: nat, addr: nat, len: nat)
    requires base + size <= WORD && addr < WORD && len < WORD && (0 < len || base + size < WORD)
    ensures (RangeTest(base, size, addr, len) <==> base <= addr && addr + len <= base + size)
       <==> if base + size < WORD then !(base <= addr && WORD <= addr + len <= WORD + base + size)
            else !(base <= addr && addr + len < WORD)
  {
  }

  /** A device at the very top: a request at its start is contained and rejected. */
  lemma TopDeviceRejects()
    ensures !RangeTest(0xFFFF_0000, 0x1_0000, 0xFFFF_0000, 0x100)
    ensures 0xFFFF_0000 + 0x100 <= 0xFFFF_0000 + 0x1_0000 == WORD
  {
  }

  /** The wrap-around does happen: this request is far outside the device that is found for it. */
  lemma RangeTestWraps()
    ensures RangeTest(0x2000_0000, 0x1000, 0xFFFF_FF00, 0x200) && 0xFFFF_FF00 + 0x200 > 0x2000_0000 + 0x1000
  {
  }

  /** Position of the first device that passes the range test, or the length if there is none. */
  ghost function First(nodes: seq<Handle>, addr: nat, len: nat): (r: nat)
    ensures r <= |nodes|
    ensures forall i :: 0 <= i < r ==> !Passes(nodes[i], addr, len)
    ensures r < |nodes| ==> Passes(nodes[r], addr, len)
  {
    if nodes == [] then 0
    else if Passes(nodes[0], addr, len) then 0
    else 1 + First(nodes[1..], addr, len)
  }

  predicate Passes(d: Handle, addr: nat, len: nat)
  {
    d.item.Some? && RangeTest(d.item.value.base, d.item.value.size, addr, len)
  }

  class Registry {
    const list: Handle
    ghost var nodes: seq<Handle>

    ghost predicate Valid()
      reads this, list, nodes
    {
      && Linked(list, nodes)
      && list.item.None?
      && forall i :: 0 <= i < |nodes| ==> nodes[i].item.Some?
    }

    constructor ()
      ensures Valid() && nodes == [] && fresh(list)
    {
      list := new DNode(None);
      nodes := [];
    }

    /** Enumeration: null starts at the front, and null ends it. */
    method GetNext(d: DNode?<Option<Device>>, ghost k: int) returns (r: DNode?<Option<Device>>)
      requires Valid()
      requires -1 <= k < |nodes| && d == if k == -1 then null else nodes[k]
      ensures r == if k + 1 < |nodes| then nodes[k + 1] else null
    {
      assert At(list, nodes, k).next == At(list, nodes, k + 1);
      var n := if d != null then d.next else list.next;
      r := if n != list then n else null;
    }

    method IsExist(d: Handle) returns (result: bool)
      requires Valid()
      ensures result <==> d in nodes
    {
      result := false;
      ghost var k := 0;
      var e := GetNext(null, -1);
      while e != null
        invariant 0 <= k <= |nodes|
        invariant e == if k < |nodes| then nodes[k] else null
        invariant d !in nodes[..k]
        decreases |nodes| - k
      {
        if d == e {
          return true;
        }
        e := GetNext(e, k);
        k := k + 1;
      }
    }

    method Add(d: Handle)
      requires Valid() && d != list && d.item.Some?
      modifies this, list, nodes, d
      ensures Valid()
      ensures nodes == if d in old(nodes) then old(nodes) else old(nodes) + [d]
    {
      var known := IsExist(d);
      if !known {
        Append(list, d, nodes);
        nodes := nodes + [d];
      }
    }

    method Remove(d: Handle)
      requires Valid()
      modifies this, list, nodes
      ensures Valid() && d !in nodes
      ensures d !in old(nodes) ==> nodes == old(nodes)
      ensures forall k :: 0 <= k < |old(nodes)| && old(nodes)[k] == d ==>
                nodes == old(nodes)[..k] + old(nodes)[k + 1..] && d.next == null && d.prev == null
    {
      var known := IsExist(d);
      if known {
        ghost var k :| 0 <= k < |nodes| && nodes[k] == d;
        Dlist.Remove(d, list, nodes, k);
        nodes := nodes[..k] + nodes[k + 1..];
      }
    }

    /** The first registered device that passes the range test. */
    method Find(addr: nat, len: nat) returns (r: DNode?<Option<Device>>)
      requires Valid()
      ensures r == if First(nodes, addr, len) < |nodes| then nodes[First(nodes, addr, len)] else null
    {
      ghost var k := 0;
      var e := GetNext(null, -1);
      r := null;
      while e != null
        invariant 0 <= k <= |nodes| && r == null
        invariant e == if k < |nodes| then nodes[k] else null
        invariant forall i :: 0 <= i < k ==> !Passes(nodes[i], addr, len)
        decreases |nodes| - k
      {
        if RangeTest(e.item.value.base, e.item.value.size, addr, len) {
          r := e;
          return;
        }
        e := GetNext(e, k);
        k := k + 1;
      }
    }
  }

  /** Disjoint devices: at most one contains a given non-empty range, so the one found is the only one. */
  lemma FoundIsUnique(nodes: seq<Handle>, addr: nat, len: nat, j: nat)
    requires 0 < len && addr + len < WORD
    requires forall i :: 0 <= i < |nodes| ==>
               nodes[i].item.Some? && nodes[i].item.value.base + nodes[i].item.value.size < WORD
    requires forall i, k :: 0 <= i < k < |nodes| ==>
               var a, b := nodes[i].item.value, nodes[k].item.value;
               a.base + a.size <= b.base || b.base + b.size <= a.base
    requires j < |nodes| && nodes[j].item.value.Inside(addr, len)
    ensures First(nodes, addr, len) == j
  {
    var f := First(nodes, addr, len);
    RangeTestExact(nodes[j].item.value.base, nodes[j].item.value.size, addr, len);
    assert Passes(nodes[j], addr, len);
    RangeTestExact(nodes[f].item.value.base, nodes[f].item.value.size, addr, len);
  }
}
