/**
 The register generator: a tree of register descriptions with absolute offsets becomes the member
 list of a packed C struct, with reserved arrays in the holes. The compiler then decides where the
 members lie; what is proved is that they lie where the description says.
 */
module RegisterLayout {
  import opened Options

  /** The generator stops at the first error it reports. */
  datatype Result<+T> = Ok(value: T) | Error

  /** The `_repeated` block: absent or empty, or a map with a single count or numbered dimensions. */
  datatype Repeated = Absent | Present(count: Option<nat>, dims: seq<Option<nat>>)

  datatype Field = Field(name: string, width: nat)

  datatype Node =
    | Reg(name: string, offset: nat, len: Option<nat>, repeated: Repeated, bfld: Option<seq<Field>>)
    | Group(name: string, repeated: Repeated, children: seq<Node>)

  /** Members of the generated struct. A register with bit fields is a union of the same size. */
  datatype Member =
    | Reserved(gap: nat)
    | Plain(name: string, len: nat, total: nat)
    | Nested(name: string, members: seq<Member>, total: nat)

  datatype Emitted = Emitted(members: seq<Member>, end: nat)

  // ---------------------------------------------------------------- the generator

  /** The first numbered dimensions up to the first one that is missing. */
  function Leading(dims: seq<Option<nat>>): seq<nat>
  {
    if dims == [] || dims[0].None? then [] else [dims[0].value] + Leading(dims[1..])
  }

  function ParseRepeated(r: Repeated): Result<seq<nat>>
  {
    match r
    case Absent => Ok([])
    case Present(count, dims) =>
      if count.Some? then Ok([count.value])
      else
        var counts := Leading(dims);
        if counts == [] || |counts| > 3 then Error else Ok(counts)
  }

  function Times(a: nat, b: nat): nat { a * b }

  function Product(counts: seq<nat>): nat
  {
    if counts == [] then 1 else counts[0] * Product(counts[1..])
  }

  /** A group starts where its first register starts. */
  function NodeOffset(n: Node): Result<nat>
  {
    match n
    case Reg(_, offset, _, _, _) => Ok(offset)
    case Group(_, _, children) => if children == [] then Error else NodeOffset(children[0])
  }

  function BitSum(fields: seq<Field>): nat
  {
    if fields == [] then 0 else BitSum(fields[..|fields| - 1]) + fields[|fields| - 1].width
  }

  function Gap(pointer: nat, start: nat): seq<Member>
  {
    if start > pointer then [Reserved(start - pointer)] else []
  }

  function EmitNode(n: Node, pointer: nat): (r: Result<Emitted>)
    ensures r.Ok? ==> NodeOffset(n).Ok? && pointer <= NodeOffset(n).value <= r.value.end
    decreases n, 1
  {
    var counts, offset := ParseRepeated(n.repeated), NodeOffset(n);
    if counts.Error? || offset.Error? || offset.value < pointer then Error
    else
      var total, start := Product(counts.value), offset.value;
      match n
      case Reg(name, _, len, _, bfld) =>
        if len.None? || len.value !in {1, 2, 4, 8} then Error
        else if bfld.Some? && BitSum(bfld.value) != len.value * 8 then Error
        else Ok(Emitted(Gap(pointer, start) + [Plain(name, len.value, total)], start + Times(len.value, total)))
      case Group(name, _, children) =>
        var sub := EmitNodes(children, start);
        if sub.Error? then Error
        else Ok(Emitted(Gap(pointer, start) + [Nested(name, sub.value.members, total)],
                        start + Times(sub.value.end - start, total)))
  }

  function EmitNodes(ns: seq<Node>, pointer: nat): (r: Result<Emitted>)
    ensures r.Ok? ==> pointer <= r.value.end
    decreases ns, 0
  {
    if ns == [] then Ok(Emitted([], pointer))
    else
      var first := EmitNode(ns[0], pointer);
      if first.Error? then Error
      else
        var rest := EmitNodes(ns[1..], first.value.end);
        if rest.Error? then Error
        else Ok(Emitted(first.value.members + rest.value.members, rest.value.end))
  }

  function Prepend(done: seq<Member>, r: Result<Emitted>): Result<Emitted>
  {
    if r.Error? then Error else Ok(r.value.(members := done + r.value.members))
  }

  lemma PrependStep(done: seq<Member>, more: seq<Member>, r: Result<Emitted>)
    ensures Prepend([], r) == r
    ensures Prepend(done, Prepend(more, r)) == Prepend(done + more, r)
  {
    if r.Ok? {
      assert [] + r.value.members == r.value.members;
      assert done + (more + r.value.members) == (done + more) + r.value.members;
    }
  }

  /** The generator's loop over the fields of a node. */
  method ProcessNode(ns: seq<Node>, current: nat) returns (r: Result<Emitted>)
    ensures r == EmitNodes(ns, current)
    decreases ns, 0
  {
    var lines: seq<Member> := [];
    var pointer: nat := current;
    assert ns[0..] == ns;
    PrependStep([], [], EmitNodes(ns, current));
    for i := 0 to |ns|
      invariant EmitNodes(ns, current) == Prepend(lines, EmitNodes(ns[i..], pointer))
    {
      assert ns[i..][0] == ns[i] && ns[i..][1..] == ns[i + 1..];
      var field := ProcessField(ns[i], pointer);
      if field.Error? {
        return Error;
      }
      PrependStep(lines, field.value.members, EmitNodes(ns[i + 1..], field.value.end));
      lines, pointer := lines + field.value.members, field.value.end;
    }
    assert ns[|ns|..] == [] && lines + [] == lines;
    r := Ok(Emitted(lines, pointer));
  }

  /** One turn of that loop; a group recurses. */
  method ProcessField(n: Node, current: nat) returns (r: Result<Emitted>)
    ensures r == EmitNode(n, current)
    decreases n, 1
  {
    hide Times, Product, BitSum, NodeOffset, ParseRepeated;
    var counts, offset := ParseRepeated(n.repeated), NodeOffset(n);
    if counts.Error? || offset.Error? || offset.value < current {
      return Error;
    }
    var total := TotalElements(counts.value);
    var start := offset.value;
    var lines := [];
    if start > current {
      lines := [Reserved(start - current)];
    }
    if n.Reg? {
      if n.len.None? || n.len.value !in {1, 2, 4, 8} || (n.bfld.Some? && BitSum(n.bfld.value) != n.len.value * 8) {
        return Error;
      }
      r := Ok(Emitted(lines + [Plain(n.name, n.len.value, total)], start + Times(n.len.value, total)));
    } else {
      var sub := ProcessNode(n.children, start);
      if sub.Error? {
        return Error;
      }
      r := Ok(Emitted(lines + [Nested(n.name, sub.value.members, total)], start + Times(sub.value.end - start, total)));
    }
  }

  method TotalElements(counts: seq<nat>) returns (total: nat)
    ensures total == Product(counts)
  {
    total := 1;
    for k := 0 to |counts|
      invariant total * Product(counts[k..]) == Product(counts)
    {
      assert counts[k..][1..] == counts[k + 1..];
      MulAssociates(total, counts[k], Product(counts[k + 1..]));
      total := total * counts[k];
    }
  }

  lemma MulAssociates(a: nat, b: nat, c: nat)
    ensures a * (b * c) == (a * b) * c
  {
  }

  // ---------------------------------------------------------------- where the compiler puts the members

  /** One element of a register, or one hole: its path of names and array indices, its address and size. */
  datatype Cell = Cell(path: seq<(string, nat)>, addr: nat, len: nat, hole: bool)

  /** Element j of an array whose element 0 occupies `cells`. */
  function Element(name: string, cells: seq<Cell>, stride: nat, j: nat): (r: seq<Cell>)
    ensures |r| == |cells|
  {
    seq(|cells|, i requires 0 <= i < |cells| =>
      cells[i].(path := [(name, j)] + cells[i].path, addr := cells[i].addr + j * stride))
  }

  /** An array of n elements, one stride apart. */
  function Array(name: string, cells: seq<Cell>, stride: nat, n: nat): seq<Cell>
  {
    if n == 0 then [] else Array(name, cells, stride, n - 1) + Element(name, cells, stride, n - 1)
  }

  /** sizeof, for a packed struct. */
  function Size(m: Member): nat
    decreases m, 1
  {
    match m
    case Reserved(gap) => gap
    case Plain(_, len, total) => Times(len, total)
    case Nested(_, members, total) => Times(Sizes(members), total)
  }

  function Sizes(ms: seq<Member>): nat
    decreases ms, 0
  {
    if ms == [] then 0 else Size(ms[0]) + Sizes(ms[1..])
  }

  function LayMember(m: Member, at: nat): seq<Cell>
    decreases m, 1
  {
    match m
    case Reserved(gap) => [Cell([], at, gap, true)]
    case Plain(name, len, total) => Array(name, [Cell([], at, len, false)], len, total)
    case Nested(name, members, total) => Array(name, Lay(members, at), Sizes(members), total)
  }

  /** Packed members follow each other without padding. */
  function Lay(ms: seq<Member>, at: nat): seq<Cell>
    decreases ms, 0
  {
    if ms == [] then [] else LayMember(ms[0], at) + Lay(ms[1..], at + Size(ms[0]))
  }

  // ---------------------------------------------------------------- what the description says

  function Total(n: Node): nat
  {
    var counts := ParseRepeated(n.repeated);
    if counts.Ok? then Product(counts.value) else 0
  }

  function StartOf(n: Node): nat
  {
    if NodeOffset(n).Ok? then NodeOffset(n).value else 0
  }

  /** The first address after a node. */
  function EndOf(n: Node): nat
    decreases n, 1
  {
    match n
    case Reg(_, offset, len, _, _) => offset + Times(if len.Some? then len.value else 0, Total(n))
    case Group(_, _, children) => StartOf(n) + Times(Stride(n), Total(n))
  }

  /** The size of one element of a group: from its start to the end of its last register. */
  function Stride(n: Node): nat
    requires n.Group?
    decreases n, 0
  {
    if n.children == [] then 0
    else
      var end := EndOf(n.children[|n.children| - 1]);
      if end < StartOf(n) then 0 else end - StartOf(n)
  }

  /** Every register element at its declared offset, element j of an array j strides further. */
  function Declared(n: Node): seq<Cell>
    decreases n, 1
  {
    match n
    case Reg(name, offset, len, _, _) =>
      var l := if len.Some? then len.value else 0;
      Array(name, [Cell([], offset, l, false)], l, Total(n))
    case Group(name, _, children) => Array(name, DeclaredAll(children), Stride(n), Total(n))
  }

  function DeclaredAll(ns: seq<Node>): seq<Cell>
    decreases ns, 0
  {
    if ns == [] then [] else Declared(ns[0]) + DeclaredAll(ns[1..])
  }

  // ---------------------------------------------------------------- layout is as declared

  function Registers(cells: seq<Cell>): seq<Cell>
  {
    if cells == [] then []
    else (if cells[0].hole then [] else [cells[0]]) + Registers(cells[1..])
  }

  lemma {:induction false} RegistersAppend(a: seq<Cell>, b: seq<Cell>)
    ensures Registers(a + b) == Registers(a) + Registers(b)
  {
    if a == [] {
      assert a + b == b;
    } else {
      assert (a + b)[1..] == a[1..] + b;
      RegistersAppend(a[1..], b);
    }
  }

  lemma {:induction false} RegistersOfElement(name: string, cells: seq<Cell>, stride: nat, j: nat)
    ensures Registers(Element(name, cells, stride, j)) == Element(name, Registers(cells), stride, j)
  {
    if cells != [] {
      var e := Element(name, cells, stride, j);
      assert e[1..] == Element(name, cells[1..], stride, j);
      RegistersOfElement(name, cells[1..], stride, j);
    }
  }

  lemma {:induction false} RegistersOfArray(name: string, cells: seq<Cell>, stride: nat, n: nat)
    ensures Registers(Array(name, cells, stride, n)) == Array(name, Registers(cells), stride, n)
  {
    if n > 0 {
      RegistersOfArray(name, cells, stride, n - 1);
      RegistersOfElement(name, cells, stride, n - 1);
      RegistersAppend(Array(name, cells, stride, n - 1), Element(name, cells, stride, n - 1));
    }
  }

  lemma {:induction false} LayAppend(a: seq<Member>, b: seq<Member>, at: nat)
    ensures Sizes(a + b) == Sizes(a) + Sizes(b)
    ensures Lay(a + b, at) == Lay(a, at) + Lay(b, at + Sizes(a))
    decreases |a|
  {
    if a == [] {
      assert a + b == b;
    } else {
      assert (a + b)[1..] == a[1..] + b;
      LayAppend(a[1..], b, at + Size(a[0]));
    }
  }

  lemma TwoParts(a: seq<Member>, b: seq<Member>, at: nat)
    ensures Sizes(a + b) == Sizes(a) + Sizes(b)
    ensures Registers(Lay(a + b, at)) == Registers(Lay(a, at)) + Registers(Lay(b, at + Sizes(a)))
  {
    hide Sizes, Lay, Registers;
    LayAppend(a, b, at);
    RegistersAppend(Lay(a, at), Lay(b, at + Sizes(a)));
  }

  /** A hole of the right size in front of a member puts the member at its start. */
  lemma GapThenMember(pointer: nat, start: nat, m: Member)
    requires pointer <= start && !m.Reserved?
    ensures var ms := Gap(pointer, start) + [m];
            && pointer + Sizes(ms) == start + Size(m)
            && Registers(Lay(ms, pointer)) == Registers(LayMember(m, start))
  {
    hide LayMember, Size;
    var gap := Gap(pointer, start);
    LayAppend(gap, [m], pointer);
    assert Sizes([m]) == Size(m) && Lay([m], start) == LayMember(m, start) by { assert [m][1..] == []; }
    if start > pointer {
      GapIsHole(start - pointer, pointer);
    }
    RegistersAppend(Lay(gap, pointer), LayMember(m, start));
  }

  lemma GapIsHole(size: nat, at: nat)
    ensures Sizes([Reserved(size)]) == size && Registers(Lay([Reserved(size)], at)) == []
  {
    var ms := [Reserved(size)];
    assert ms[1..] == [];
    var cell := Cell([], at, size, true);
    assert LayMember(ms[0], at) == [cell] && Lay(ms[1..], at + size) == [];
    assert Lay(ms, at) == [cell] && [cell][1..] == [];
  }

  lemma PlainLaidOut(name: string, len: nat, total: nat, start: nat)
    ensures Registers(LayMember(Plain(name, len, total), start))
         == Array(name, [Cell([], start, len, false)], len, total)
  {
    hide Array;
    var cell := Cell([], start, len, false);
    assert Registers([cell]) == [cell] by { assert [cell][1..] == []; }
    RegistersOfArray(name, [cell], len, total);
  }

  /** The members of one node: their total size, and where they put its registers. */
  lemma {:induction false} NodeLaidOut(n: Node, pointer: nat)
    requires EmitNode(n, pointer).Ok?
    ensures var e := EmitNode(n, pointer).value;
            && e.end == pointer + Sizes(e.members) == EndOf(n)
            && Registers(Lay(e.members, pointer)) == Declared(n)
    decreases n, 1
  {
    hide Times, Array, Registers, Lay, Gap, Product, BitSum, NodeOffset, ParseRepeated, Sizes;
    var start, total := NodeOffset(n).value, Product(ParseRepeated(n.repeated).value);
    match n
    case Reg(name, offset, len, _, _) =>
      NodeOffsetIs(n);
      PlainLaidOut(name, len.value, total, start);
      GapThenMember(pointer, start, Plain(name, len.value, total));
    case Group(name, _, children) =>
      var sub := EmitNodes(children, start).value;
      NodesLaidOut(children, start);
      NodeOffsetIs(n);
      RegistersOfArray(name, Lay(sub.members, start), Sizes(sub.members), total);
      GapThenMember(pointer, start, Nested(name, sub.members, total));
  }

  lemma NodeOffsetIs(n: Node)
    requires NodeOffset(n).Ok?
    ensures if n.Reg? then NodeOffset(n).value == n.offset else n.children != []
  {
  }

  lemma {:induction false} NodesLaidOut(ns: seq<Node>, pointer: nat)
    requires EmitNodes(ns, pointer).Ok?
    ensures var e := EmitNodes(ns, pointer).value;
            && e.end == pointer + Sizes(e.members)
            && (ns != [] ==> e.end == EndOf(ns[|ns| - 1]))
            && Registers(Lay(e.members, pointer)) == DeclaredAll(ns)
    decreases ns, 0
  {
    hide EmitNode, EmitNodes, Declared, DeclaredAll, EndOf, Lay, Sizes, Registers;
    if ns == [] {
      NothingLaidOut(pointer);
      return;
    }
    EmittedParts(ns, pointer);
    var first := EmitNode(ns[0], pointer).value;
    var rest := EmitNodes(ns[1..], first.end).value;
    NodeLaidOut(ns[0], pointer);
    NodesLaidOut(ns[1..], first.end);
    TwoParts(first.members, rest.members, pointer);
    if |ns| > 1 { assert ns[1..][|ns| - 2] == ns[|ns| - 1]; }
  }

  lemma NothingLaidOut(pointer: nat)
    ensures EmitNodes([], pointer) == Ok(Emitted([], pointer)) && Sizes([]) == 0
    ensures Registers(Lay([], pointer)) == DeclaredAll([])
  {
  }

  lemma EmittedParts(ns: seq<Node>, pointer: nat)
    requires ns != [] && EmitNodes(ns, pointer).Ok?
    ensures EmitNode(ns[0], pointer).Ok?
    ensures var first := EmitNode(ns[0], pointer).value;
            && EmitNodes(ns[1..], first.end).Ok?
            && var rest := EmitNodes(ns[1..], first.end).value;
               && EmitNodes(ns, pointer).value == Emitted(first.members + rest.members, rest.end)
               && (|ns| == 1 ==> rest.end == first.end)
    ensures DeclaredAll(ns) == Declared(ns[0]) + DeclaredAll(ns[1..])
  {
    hide EmitNode, Declared;
  }

  // ---------------------------------------------------------------- members and holes tile the space

  /** The cells follow each other from `lo` to `hi` without gap or overlap. */
  predicate Chain(cells: seq<Cell>, lo: nat, hi: nat)
  {
    if cells == [] then lo == hi
    else cells[0].addr == lo && Chain(cells[1..], lo + cells[0].len, hi)
  }

  lemma {:induction false} ChainAppend(a: seq<Cell>, b: seq<Cell>, lo: nat, mid: nat, hi: nat)
    requires Chain(a, lo, mid) && Chain(b, mid, hi)
    ensures Chain(a + b, lo, hi)
    decreases |a|
  {
    if a == [] {
      assert a + b == b;
    } else {
      assert (a + b)[1..] == a[1..] + b;
      ChainAppend(a[1..], b, lo + a[0].len, mid, hi);
    }
  }

  lemma {:induction false} ChainElement(name: string, cells: seq<Cell>, stride: nat, j: nat, lo: nat, hi: nat)
    requires Chain(cells, lo, hi)
    ensures Chain(Element(name, cells, stride, j), lo + j * stride, hi + j * stride)
    decreases |cells|
  {
    if cells != [] {
      var e := Element(name, cells, stride, j);
      assert e[1..] == Element(name, cells[1..], stride, j);
      ChainElement(name, cells[1..], stride, j, lo + cells[0].len, hi);
    }
  }

  lemma TimesStep(stride: nat, n: nat)
    requires 0 < n
    ensures Times(stride, n - 1) == (n - 1) * stride && Times(stride, n) == Times(stride, n - 1) + stride
  {
  }

  lemma {:induction false} ChainArray(name: string, cells: seq<Cell>, stride: nat, n: nat, at: nat)
    requires Chain(cells, at, at + stride)
    ensures Chain(Array(name, cells, stride, n), at, at + Times(stride, n))
  {
    if n > 0 {
      hide Chain, Element, Times;
      TimesStep(stride, n);
      ChainArray(name, cells, stride, n - 1, at);
      ChainElement(name, cells, stride, n - 1, at, at + stride);
      ChainAppend(Array(name, cells, stride, n - 1), Element(name, cells, stride, n - 1),
                  at, at + Times(stride, n - 1), at + Times(stride, n));
    }
  }

  lemma {:induction false} MemberTiles(m: Member, at: nat)
    ensures Chain(LayMember(m, at), at, at + Size(m))
    decreases m, 1
  {
    match m
    case Reserved(gap) =>
      assert [Cell([], at, gap, true)][1..] == [];
    case Plain(name, len, total) =>
      var cells := [Cell([], at, len, false)];
      assert cells[1..] == [];
      ChainArray(name, cells, len, total, at);
    case Nested(name, members, total) =>
      MembersTile(members, at);
      ChainArray(name, Lay(members, at), Sizes(members), total, at);
  }

  /** However deep the struct, its members and holes cover exactly its size. */
  lemma {:induction false} MembersTile(ms: seq<Member>, at: nat)
    ensures Chain(Lay(ms, at), at, at + Sizes(ms))
    decreases ms, 0
  {
    if ms != [] {
      MemberTiles(ms[0], at);
      MembersTile(ms[1..], at + Size(ms[0]));
      ChainAppend(LayMember(ms[0], at), Lay(ms[1..], at + Size(ms[0])), at, at + Size(ms[0]), at + Sizes(ms));
    }
  }

  lemma {:induction false} ChainIsDisjoint(cells: seq<Cell>, lo: nat, hi: nat, i: nat, j: nat)
    requires Chain(cells, lo, hi) && i < j < |cells|
    ensures lo <= cells[i].addr && cells[i].addr + cells[i].len <= cells[j].addr && cells[j].addr + cells[j].len <= hi
    decreases |cells|
  {
    ChainBounds(cells, lo, hi, j);
    if i > 0 {
      ChainIsDisjoint(cells[1..], lo + cells[0].len, hi, i - 1, j - 1);
    } else {
      ChainBounds(cells[1..], lo + cells[0].len, hi, j - 1);
    }
  }

  lemma {:induction false} ChainBounds(cells: seq<Cell>, lo: nat, hi: nat, i: nat)
    requires Chain(cells, lo, hi) && i < |cells|
    ensures lo <= cells[i].addr && cells[i].addr + cells[i].len <= hi
    decreases |cells|
  {
    if i > 0 {
      ChainBounds(cells[1..], lo + cells[0].len, hi, i - 1);
    } else {
      ChainEnds(cells[1..], lo + cells[0].len, hi);
    }
  }

  lemma {:induction false} ChainEnds(cells: seq<Cell>, lo: nat, hi: nat)
    requires Chain(cells, lo, hi)
    ensures lo <= hi
    decreases |cells|
  {
    if cells != [] { ChainEnds(cells[1..], lo + cells[0].len, hi); }
  }

  /** Whenever the generator accepts a description, of any depth, the packed struct puts every register element
      where the description declares it, and elements and holes tile the struct without overlap. */
  lemma GeneratedLayoutIsDeclared(ns: seq<Node>)
    requires EmitNodes(ns, 0).Ok?
    ensures var e := EmitNodes(ns, 0).value;
            var cells := Lay(e.members, 0);
            && Registers(cells) == DeclaredAll(ns)
            && Chain(cells, 0, e.end)
            && forall i, j :: 0 <= i < j < |cells| ==> cells[i].addr + cells[i].len <= cells[j].addr
  {
    var e := EmitNodes(ns, 0).value;
    var cells := Lay(e.members, 0);
    NodesLaidOut(ns, 0);
    MembersTile(e.members, 0);
    forall i, j | 0 <= i < j < |cells| ensures cells[i].addr + cells[i].len <= cells[j].addr {
      ChainIsDisjoint(cells, 0, e.end, i, j);
    }
  }

  // ---------------------------------------------------------------- repetition

  lemma LengthStep(m: nat, n: nat)
    requires 0 < n
    ensures n * m == (n - 1) * m + m
  {
  }

  /** Element j of an array holds the j-th copy of the cells, j strides further on. */
  lemma {:induction false} ArrayIs(name: string, cells: seq<Cell>, stride: nat, n: nat, j: nat, i: nat)
    ensures |Array(name, cells, stride, n)| == n * |cells|
    ensures j < n && i < |cells| ==>
              && 0 <= j * |cells| + i < |Array(name, cells, stride, n)|
              && Array(name, cells, stride, n)[j * |cells| + i]
                 == Cell([(name, j)] + cells[i].path, cells[i].addr + j * stride, cells[i].len, cells[i].hole)
    decreases n
  {
    if n > 0 {
      var m, front, last := |cells|, Array(name, cells, stride, n - 1), Element(name, cells, stride, n - 1);
      LengthStep(m, n);
      ArrayIs(name, cells, stride, n - 1, j, i);
      if j == n - 1 && i < m {
        assert (front + last)[|front| + i] == last[i];
      }
    }
  }

  /** How often a repetition block repeats, written out: once if absent, `count` times if given, else the product of one
      to three numbered dimensions. */
  predicate Repeats(r: Repeated, n: nat)
  {
    match r
    case Absent => n == 1
    case Present(Some(c), _) => n == c
    case Present(None, d) =>
      || (|d| >= 1 && d[0].Some? && (|d| == 1 || d[1].None?) && n == d[0].value)
      || (|d| >= 2 && d[0].Some? && d[1].Some? && (|d| == 2 || d[2].None?) && n == d[0].value * d[1].value)
      || (|d| >= 3 && d[0].Some? && d[1].Some? && d[2].Some? && (|d| == 3 || d[3].None?)
          && n == d[0].value * d[1].value * d[2].value)
  }

  /** Leading dimensions, one by one. */
  lemma LeadingIs(d: seq<Option<nat>>)
    ensures |d| == 0 || d[0].None? ==> Leading(d) == []
    ensures |d| >= 1 && d[0].Some? ==> Leading(d) == [d[0].value] + Leading(d[1..])
  {
  }

  lemma ProductOfOne(a: nat)
    ensures Product([]) == 1 && Product([a]) == a
  {
    assert [a][1..] == [];
  }

  lemma ProductOfTwo(a: nat, b: nat)
    ensures Product([a, b]) == a * b
  {
    ProductOfOne(b);
    assert [a, b][1..] == [b];
  }

  lemma ProductOfThree(a: nat, b: nat, c: nat)
    ensures Product([a, b, c]) == a * b * c
  {
    ProductOfTwo(b, c);
    assert [a, b, c][1..] == [b, c];
    MulAssociates(a, b, c);
  }

  /** The generator's count is that number; it stops at a block that has none. */
  lemma CountIs(r: Repeated)
    ensures ParseRepeated(r).Ok? ==> Repeats(r, Product(ParseRepeated(r).value))
    ensures ParseRepeated(r).Error? ==> forall n :: !Repeats(r, n)
  {
    hide Product, Leading;
    match r
    case Absent => ProductOfOne(0);
    case Present(Some(c), _) => ProductOfOne(c);
    case Present(None, d) =>
      LeadingIs(d);
      if |d| >= 1 && d[0].Some? {
        var d1 := d[1..];
        LeadingIs(d1);
        ProductOfOne(d[0].value);
        var one := [d[0].value];
        assert Leading(d) == one + Leading(d1) && one + [] == one;
        if |d1| >= 1 && d1[0].Some? {
          var d2 := d1[1..];
          LeadingIs(d2);
          ProductOfTwo(d[0].value, d1[0].value);
          var two := [d[0].value, d1[0].value];
          assert Leading(d) == two + Leading(d2) && two + [] == two && d1[0] == d[1] && (|d2| >= 1 ==> d2[0] == d[2]);
          if |d2| >= 1 && d2[0].Some? {
            LeadingIs(d2[1..]);
            ProductOfThree(d[0].value, d1[0].value, d2[0].value);
            var three := [d[0].value, d1[0].value, d2[0].value];
            assert Leading(d) == three + Leading(d2[1..]);
            assert three + [] == three;
          }
        }
      }
  }

  lemma RepeatsOnce(r: Repeated, m: nat, n: nat)
    requires Repeats(r, m) && Repeats(r, n)
    ensures m == n
  {
  }

  /** A register that is accepted and repeats n times has exactly n elements in the struct, element j at its offset plus
      j times its length. */
  lemma RegisterRepeats(n: Node, pointer: nat, count: nat)
    requires n.Reg? && EmitNode(n, pointer).Ok? && Repeats(n.repeated, count)
    ensures n.len.Some?
    ensures var cells := Registers(Lay(EmitNode(n, pointer).value.members, pointer));
            && |cells| == count
            && forall j :: 0 <= j < count ==>
                 cells[j] == Cell([(n.name, j)], n.offset + j * n.len.value, n.len.value, false)
  {
    hide Lay, Registers, Sizes, EndOf;
    NodeLaidOut(n, pointer);
    CountIs(n.repeated);
    RepeatsOnce(n.repeated, count, Total(n));
    var one := [Cell([], n.offset, n.len.value, false)];
    ArrayIs(n.name, one, n.len.value, count, 0, 0);
    forall j | 0 <= j < count
      ensures Declared(n)[j] == Cell([(n.name, j)], n.offset + j * n.len.value, n.len.value, false)
    {
      ArrayIs(n.name, one, n.len.value, count, j, 0);
      assert [(n.name, j)] + [] == [(n.name, j)];
    }
  }

  /** A group that is accepted and repeats n times holds n copies of its registers, copy j as many times the packed size
      of one copy further on. */
  lemma GroupRepeats(n: Node, pointer: nat, count: nat, j: nat, i: nat)
    requires n.Group? && EmitNode(n, pointer).Ok? && Repeats(n.repeated, count)
    ensures n.children != [] && NodeOffset(n).Ok? && EmitNodes(n.children, NodeOffset(n).value).Ok?
    ensures var start := NodeOffset(n).value;
            var sub := EmitNodes(n.children, start).value;
            var inner := Registers(Lay(sub.members, start));
            var cells := Registers(Lay(EmitNode(n, pointer).value.members, pointer));
            && |cells| == count * |inner|
            && (j < count && i < |inner| ==>
                  && 0 <= j * |inner| + i < |cells|
                  && cells[j * |inner| + i] ==
                       Cell([(n.name, j)] + inner[i].path, inner[i].addr + j * Sizes(sub.members), inner[i].len,
                            inner[i].hole))
  {
    hide Lay, Registers, Array, Sizes;
    NodeOffsetIs(n);
    NodeLaidOut(n, pointer);
    CountIs(n.repeated);
    RepeatsOnce(n.repeated, count, Total(n));
    var start := NodeOffset(n).value;
    NodesLaidOut(n.children, start);
    StrideIs(n, start);
    var sub := EmitNodes(n.children, start).value;
    ArrayIs(n.name, Registers(Lay(sub.members, start)), Sizes(sub.members), count, j, i);
  }

  lemma StrideIs(n: Node, start: nat)
    requires n.Group? && n.children != [] && NodeOffset(n) == Ok(start) && EmitNodes(n.children, start).Ok?
    ensures Stride(n) == Sizes(EmitNodes(n.children, start).value.members)
    ensures Declared(n) == Array(n.name, DeclaredAll(n.children), Stride(n), Total(n))
  {
    hide Lay, Registers, Array, Sizes;
    NodesLaidOut(n.children, start);
  }

  // ---------------------------------------------------------------- which descriptions are accepted

  /** The offset of the first register of a node, going down first children. */
  predicate StartsAt(n: Node, start: nat)
  {
    match n
    case Reg(_, offset, _, _, _) => start == offset
    case Group(_, _, children) => children != [] && StartsAt(children[0], start)
  }

  /** The node has a first register, at `from` or later. */
  ghost predicate NotBefore(n: Node, from: nat)
  {
    exists start: nat :: from <= start && StartsAt(n, start)
  }

  /** A node that can be laid out by itself. */
  ghost predicate Sound(n: Node)
    decreases n, 1
  {
    && (exists count :: Repeats(n.repeated, count))
    && match n
       case Reg(_, _, len, _, bfld) =>
         && (len == Some(1) || len == Some(2) || len == Some(4) || len == Some(8))
         && (bfld.Some? ==> BitSum(bfld.value) == 8 * len.value)
       case Group(_, _, children) => exists start: nat :: StartsAt(n, start) && InOrder(children, start)
  }

  /** Nodes that can be laid out one after the other from `from` on: each starts where the one before has ended, or
      later. */
  ghost predicate InOrder(ns: seq<Node>, from: nat)
    decreases ns, 0
  {
    ns == [] ||
    (Sound(ns[0]) && NotBefore(ns[0], from) && InOrder(ns[1..], EndOf(ns[0])))
  }

  lemma {:induction false} StartsAtIs(n: Node, start: nat)
    ensures StartsAt(n, start) <==> NodeOffset(n) == Ok(start)
    decreases n
  {
    match n
    case Reg(_, _, _, _, _) =>
    case Group(_, _, children) => if children != [] { StartsAtIs(children[0], start); }
  }

  lemma StartExists(n: Node, from: nat)
    ensures NotBefore(n, from) <==> NodeOffset(n).Ok? && from <= NodeOffset(n).value
  {
    hide NodeOffset, StartsAt;
    if NotBefore(n, from) {
      var start: nat :| from <= start && StartsAt(n, start);
      StartsAtIs(n, start);
    }
    if NodeOffset(n).Ok? { StartsAtIs(n, NodeOffset(n).value); }
  }

  lemma RepeatsExists(r: Repeated)
    ensures (exists count :: Repeats(r, count)) <==> ParseRepeated(r).Ok?
  {
    hide Product, Leading, ParseRepeated, Repeats;
    CountIs(r);
    if ParseRepeated(r).Ok? { assert Repeats(r, Product(ParseRepeated(r).value)); }
  }

  /** A node is accepted exactly if it is sound and does not start before the pointer. */
  lemma {:induction false} NodeAcceptedIff(n: Node, pointer: nat)
    ensures EmitNode(n, pointer).Ok? <==> Sound(n) && NotBefore(n, pointer)
    decreases n, 1
  {
    hide ParseRepeated, NodeOffset, StartsAt, Repeats, Product, BitSum, Times, Gap, EmitNodes, InOrder, NotBefore;
    RepeatsExists(n.repeated);
    StartExists(n, pointer);
    match n
    case Reg(_, _, _, _, _) =>
    case Group(_, _, children) =>
      forall start: nat ensures StartsAt(n, start) <==> NodeOffset(n) == Ok(start) { StartsAtIs(n, start); }
      if NodeOffset(n).Ok? {
        DescriptionAcceptedIff(children, NodeOffset(n).value);
        assert StartsAt(n, NodeOffset(n).value);
      }
  }

  /** A description is accepted exactly if its nodes are sound, at every depth, and come in order. */
  lemma {:induction false} DescriptionAcceptedIff(ns: seq<Node>, pointer: nat)
    ensures EmitNodes(ns, pointer).Ok? <==> InOrder(ns, pointer)
    decreases ns, 0
  {
    hide EmitNode, Sound, StartsAt, EndOf, NotBefore;
    if ns != [] {
      NodeAcceptedIff(ns[0], pointer);
      if EmitNode(ns[0], pointer).Ok? {
        NodeLaidOut(ns[0], pointer);
        DescriptionAcceptedIff(ns[1..], EndOf(ns[0]));
      }
    }
  }

  // ---------------------------------------------------------------- bit fields

  function Lower(c: char): char
  {
    if 'A' <= c <= 'Z' then c + ('a' - 'A') else c
  }

  predicate IsReserved(name: string)
  {
    |name| >= 8 && forall i :: 0 <= i < 8 ==> Lower(name[i]) == "reserved"[i]
  }

  predicate IsFlag(f: Field)
  {
    f.width == 1 && !IsReserved(f.name)
  }

  /** Reserved names begin with that word, each letter in either case. */
  lemma ReservedIs(name: string)
    ensures IsReserved(name) <==>
              |name| >= 8 && forall i :: 0 <= i < 8 ==> name[i] == "reserved"[i] || name[i] == "RESERVED"[i]
  {
    forall i | 0 <= i < 8 && i < |name|
      ensures Lower(name[i]) == "reserved"[i] <==> name[i] == "reserved"[i] || name[i] == "RESERVED"[i]
    {
      LowerIs(name[i], "reserved"[i], "RESERVED"[i]);
    }
  }

  lemma LowerIs(c: char, small: char, big: char)
    requires 'a' <= small <= 'z' && 'A' <= big <= 'Z' && small == big + ('a' - 'A')
    ensures Lower(c) == small <==> c == small || c == big
  {
  }

  /** Field i occupies the bits from Position(i) to Position(i) + width. */
  function Position(fields: seq<Field>, i: nat): nat
    requires i <= |fields|
  {
    BitSum(fields[..i])
  }

  /** The fields lie side by side from bit 0 on, and the last one ends with the register. */
  lemma PositionsTile(fields: seq<Field>, i: nat)
    requires i < |fields|
    ensures Position(fields, 0) == 0 && Position(fields, i + 1) == Position(fields, i) + fields[i].width
    ensures Position(fields, |fields|) == BitSum(fields)
  {
    assert fields[..i + 1][..i] == fields[..i];
    assert fields[..|fields|] == fields;
  }

  lemma {:induction false} PositionsAscend(fields: seq<Field>, i: nat, j: nat)
    requires i < j <= |fields|
    ensures Position(fields, i) + fields[i].width <= Position(fields, j)
    decreases j
  {
    assert fields[..j][..j - 1] == fields[..j - 1];
    if i < j - 1 { PositionsAscend(fields, i, j - 1); }
  }

  /** The flag constants of a register: name and bit number of each one-bit field that is not reserved. */
  method FlagEnum(fields: seq<Field>) returns (flags: seq<(string, nat)>, ghost from: seq<nat>)
    ensures |from| == |flags|
    // every constant is the position of a one-bit field ...
    ensures forall k :: 0 <= k < |flags| ==>
              && from[k] < |fields| && fields[from[k]].width == 1 && !IsReserved(fields[from[k]].name)
              && flags[k] == (fields[from[k]].name, Position(fields, from[k]))
    // ... every such field has one ...
    ensures forall i :: 0 <= i < |fields| && fields[i].width == 1 && !IsReserved(fields[i].name) ==> i in from
    // ... and the masks are disjoint and within the register
    ensures forall k, l :: 0 <= k < l < |flags| ==> flags[k].1 < flags[l].1
    ensures forall k :: 0 <= k < |flags| ==> flags[k].1 < BitSum(fields)
  {
    var bit: nat := 0;
    flags, from := [], [];
    for i := 0 to |fields|
      invariant bit == Position(fields, i) && |from| == |flags|
      invariant forall k :: 0 <= k < |flags| ==>
                  && from[k] < i && IsFlag(fields[from[k]])
                  && flags[k] == (fields[from[k]].name, Position(fields, from[k]))
      invariant forall j :: 0 <= j < i && IsFlag(fields[j]) ==> j in from
      invariant forall k :: 0 <= k < |flags| ==> flags[k].1 < bit
      invariant forall k, l :: 0 <= k < l < |flags| ==> flags[k].1 < flags[l].1
    {
      assert fields[..i + 1][..i] == fields[..i];
      if IsFlag(fields[i]) {
        flags, from := flags + [(fields[i].name, bit)], from + [i];
        assert from[|from| - 1] == i;
      }
      bit := bit + fields[i].width;
    }
    assert fields[..|fields|] == fields;
  }
}
