/** The IT DMA program builder: AMDTP packets compiled to OHCI descriptor bytes (chapter 9 of
    OHCI 1.1), checked against an interpreter that fetches, decodes and follows branches.
    Bit fields that occupy disjoint bits are written as sums of scaled remainders. */
module ItProgram {
  import opened Arith
  import opened ByteStrings
  import opened Options

  type Quad = q: Bytes | |q| == 4 witness [0, 0, 0, 0]

  const WORD := 0x1_0000_0000

  // ----- Quadlets in memory -----

  predicate IsWord(v: int) {
    0 <= v < WORD
  }

  function LittleQuad(v: int): Quad
    requires IsWord(v)
  {
    [v % 256, v / 256 % 256, v / 0x1_0000 % 256, v / 0x100_0000]
  }

  function BigQuad(v: int): Quad
    requires IsWord(v)
  {
    [v / 0x100_0000, v / 0x1_0000 % 256, v / 256 % 256, v % 256]
  }

  function FromLittle(q: Quad): int {
    var a: int, b: int, c: int, d: int := q[0], q[1], q[2], q[3];
    a + 256 * b + 0x1_0000 * c + 0x100_0000 * d
  }

  function FromBig(q: Quad): int {
    var a: int, b: int, c: int, d: int := q[0], q[1], q[2], q[3];
    d + 256 * c + 0x1_0000 * b + 0x100_0000 * a
  }

  lemma LittleRoundTrip(v: int)
    requires IsWord(v)
    ensures FromLittle(LittleQuad(v)) == v
  {
    DivDiv(v, 256, 256);
    DivDiv(v, 0x1_0000, 256);
  }

  lemma BigRoundTrip(v: int)
    requires IsWord(v)
    ensures FromBig(BigQuad(v)) == v
  {
    DivDiv(v, 256, 256);
    DivDiv(v, 0x1_0000, 256);
  }

  /** Quadlets laid out in memory order. */
  function Flatten(qs: seq<Quad>): Bytes {
    if qs == [] then [] else Flatten(qs[..|qs| - 1]) + qs[|qs| - 1]
  }

  lemma {:induction false} FlattenAt(qs: seq<Quad>, k: nat)
    requires k < |qs|
    ensures |Flatten(qs)| == 4 * |qs|
    ensures Flatten(qs)[4 * k..4 * k + 4] == qs[k]
  {
    var n := |qs| - 1;
    FlattenLength(qs[..n]);
    if k < n {
      FlattenAt(qs[..n], k);
      assert Flatten(qs)[4 * k..4 * k + 4] == Flatten(qs[..n])[4 * k..4 * k + 4];
    } else {
      assert Flatten(qs)[4 * n..4 * n + 4] == qs[n];
    }
  }

  lemma {:induction false} FlattenLength(qs: seq<Quad>)
    ensures |Flatten(qs)| == 4 * |qs|
  {
    if qs == [] {
    } else {
      FlattenLength(qs[..|qs| - 1]);
    }
  }

  lemma {:induction false} FlattenAppend(a: seq<Quad>, b: seq<Quad>)
    ensures Flatten(a + b) == Flatten(a) + Flatten(b)
  {
    if b == [] {
      assert a + b == a;
    } else {
      var n := |b| - 1;
      assert (a + b)[..|a| + n] == a + b[..n];
      FlattenAppend(a, b[..n]);
    }
  }

  // ----- CIP headers (section 4.2 of IEC 61883-1) -----

  datatype Q0 = Q0(sid: int, dbs: int, fn: int, qpc: int, sph: int, rsv: int, dbc: int)
  datatype Q1 = Q1(fmt: int, fdf: int, syt: int)

  function BuildCipQ0(q: Q0): int {
    (q.sid % 64) * 0x100_0000 + (q.dbs % 256) * 0x1_0000 + (q.fn % 4) * 0x4000
    + (q.qpc % 8) * 0x800 + (q.sph % 2) * 0x400 + (q.rsv % 4) * 0x100 + q.dbc % 256
  }

  function BuildCipQ1(q: Q1): int {
    0x8000_0000 + (q.fmt % 64) * 0x100_0000 + (q.fdf % 256) * 0x1_0000 + q.syt % 0x1_0000
  }

  function DecodeCipQ0(w: int): Q0 {
    Q0(w / 0x100_0000 % 64, w / 0x1_0000 % 256, w / 0x4000 % 4, w / 0x800 % 8, w / 0x400 % 2, w / 0x100 % 4, w % 256)
  }

  /** The fields, and whether the two prefix bits are those of an AM824 second quadlet. */
  function DecodeCipQ1(w: int): (Q1, bool) {
    (Q1(w / 0x100_0000 % 64, w / 0x1_0000 % 256, w % 0x1_0000), w / 0x4000_0000 % 4 == 2)
  }

  /** A field of n values at scale b, with lo below it and hi above it. */
  lemma FieldAt(w: int, hi: int, f: int, lo: int, n: int, b: int)
    requires 0 <= lo < b && 0 <= f < n && w == (hi * n + f) * b + lo
    ensures w / b % n == f
  {
    DivUnique(w, b, hi * n + f);
    DivUnique(hi * n + f, n, hi);
  }

  /** Decoding what was built gives every field of the first quadlet reduced to its width. */
  lemma CipQ0RoundTrip(q: Q0)
    ensures IsWord(BuildCipQ0(q))
    ensures DecodeCipQ0(BuildCipQ0(q))
         == Q0(q.sid % 64, q.dbs % 256, q.fn % 4, q.qpc % 8, q.sph % 2, q.rsv % 4, q.dbc % 256)
  {
    var w := BuildCipQ0(q);
    var sid, dbs, fn, qpc := q.sid % 64, q.dbs % 256, q.fn % 4, q.qpc % 8;
    var sph, rsv, dbc := q.sph % 2, q.rsv % 4, q.dbc % 256;
    var x1 := dbc;
    var x2 := rsv * 0x100 + x1;
    var x3 := sph * 0x400 + x2;
    var x4 := qpc * 0x800 + x3;
    var x5 := fn * 0x4000 + x4;
    var x6 := dbs * 0x1_0000 + x5;
    FieldAt(w, 0, sid, x6, 64, 0x100_0000);
    FieldAt(w, sid, dbs, x5, 256, 0x1_0000);
    FieldAt(w, sid * 256 + dbs, fn, x4, 4, 0x4000);
    FieldAt(w, (sid * 256 + dbs) * 4 + fn, qpc, x3, 8, 0x800);
    FieldAt(w, ((sid * 256 + dbs) * 4 + fn) * 8 + qpc, sph, x2, 2, 0x400);
    FieldAt(w, (((sid * 256 + dbs) * 4 + fn) * 8 + qpc) * 2 + sph, rsv, x1, 4, 0x100);
    DivUnique(w, 0x100, ((((sid * 256 + dbs) * 4 + fn) * 8 + qpc) * 2 + sph) * 4 + rsv);
  }

  /** The same for the second quadlet, whose prefix is recognised. */
  lemma CipQ1RoundTrip(r: Q1)
    ensures IsWord(BuildCipQ1(r))
    ensures DecodeCipQ1(BuildCipQ1(r)) == (Q1(r.fmt % 64, r.fdf % 256, r.syt % 0x1_0000), true)
  {
    var w := BuildCipQ1(r);
    var fmt, fdf, syt := r.fmt % 64, r.fdf % 256, r.syt % 0x1_0000;
    FieldAt(w, 0, 2, fmt * 0x100_0000 + fdf * 0x1_0000 + syt, 4, 0x4000_0000);
    FieldAt(w, 2, fmt, fdf * 0x1_0000 + syt, 64, 0x100_0000);
    FieldAt(w, 2 * 64 + fmt, fdf, syt, 256, 0x1_0000);
    DivUnique(w, 0x1_0000, (2 * 64 + fmt) * 256 + fdf);
  }

  lemma Q0Digits(w: int)
    requires IsWord(w)
    ensures var q := DecodeCipQ0(w);
            w == w / 0x100_0000 * 0x100_0000 + q.dbs * 0x1_0000 + q.fn * 0x4000 + q.qpc * 0x800
                 + q.sph * 0x400 + q.rsv * 0x100 + q.dbc
  {
    DivDiv(w, 0x100, 4);
    DivDiv(w, 0x400, 2);
    DivDiv(w, 0x800, 8);
    DivDiv(w, 0x4000, 4);
    DivDiv(w, 0x1_0000, 256);
  }

  /** Building what was decoded gives the word back, exactly for words with clear top bits. */
  lemma CipQ0WordRoundTrip(w: int)
    requires IsWord(w)
    ensures BuildCipQ0(DecodeCipQ0(w)) == w <==> w < 0x4000_0000
  {
    Q0Digits(w);
    var q := DecodeCipQ0(w);
    ReducedBuild(q);
    DivGe(w, 0x100_0000, 64);
    DivUnique(q.sid, 64, 0);
    TopField(w / 0x100_0000);
  }

  lemma TopField(top: int)
    requires top >= 0
    ensures top % 64 == top <==> top < 64
  {}

  lemma ReducedBuild(q: Q0)
    requires 0 <= q.sid < 64 && 0 <= q.dbs < 256 && 0 <= q.fn < 4 && 0 <= q.qpc < 8
    requires 0 <= q.sph < 2 && 0 <= q.rsv < 4 && 0 <= q.dbc < 256
    ensures BuildCipQ0(q) == q.sid * 0x100_0000 + q.dbs * 0x1_0000 + q.fn * 0x4000 + q.qpc * 0x800
                             + q.sph * 0x400 + q.rsv * 0x100 + q.dbc
  {}

  lemma CipQ1WordRoundTrip(w: int)
    requires IsWord(w)
    ensures BuildCipQ1(DecodeCipQ1(w).0) == w <==> DecodeCipQ1(w).1
  {
    Q1Digits(w);
    Q1Rebuilt(w);
    TopBits(w);
  }

  lemma Q1Digits(w: int)
    requires IsWord(w)
    ensures var q := DecodeCipQ1(w).0;
            w == w / 0x4000_0000 * 0x4000_0000 + q.fmt * 0x100_0000 + q.fdf * 0x1_0000 + q.syt
  {
    DivDiv(w, 0x1_0000, 256);
    DivDiv(w, 0x100_0000, 64);
  }

  lemma Q1Rebuilt(w: int)
    ensures var q := DecodeCipQ1(w).0;
            BuildCipQ1(q) == 2 * 0x4000_0000 + q.fmt * 0x100_0000 + q.fdf * 0x1_0000 + q.syt
  {}

  lemma TopBits(w: int)
    requires IsWord(w)
    ensures w / 0x4000_0000 % 4 == w / 0x4000_0000
  {}

  // ----- Descriptors -----

  const OUTPUT_MORE := 0
  const OUTPUT_LAST := 1
  const KEY_STANDARD := 0
  const KEY_IMMEDIATE := 2
  const BLOCK_SIZE := 16

  datatype Descriptor =
    | OutputMoreImmediate(q0: int, q1: int)
    | OutputLast(reqCount: nat, dataAddress: int, branchAddress: int, branchZ: int, irq: bool)
    | OutputLastImmediate(q0: int, q1: int, branchAddress: int, branchZ: int, irq: bool)
  {
    function Size(): nat {
      if OutputLast? then 16 else 32
    }

    /** Every field that is packed without a mask fits in 32 bits. */
    predicate Packable() {
      match this
      case OutputLast(_, dataAddress, _, _, _) => IsWord(dataAddress)
      case _ => IsWord(q0) && IsWord(q1)
    }

    function Quads(): seq<Quad>
      requires Packable()
    {
      match this
      case OutputMoreImmediate(q0, q1) =>
        [LittleQuad(Control(OUTPUT_MORE, KEY_IMMEDIATE, false, 0, 8)), LittleQuad(0), LittleQuad(0), LittleQuad(0),
         BigQuad(q0), BigQuad(q1), LittleQuad(0), LittleQuad(0)]
      case OutputLast(reqCount, dataAddress, branchAddress, branchZ, irq) =>
        [LittleQuad(Control(OUTPUT_LAST, KEY_STANDARD, irq, 3, reqCount)), LittleQuad(dataAddress),
         LittleQuad(BranchPointer(branchAddress, branchZ)), LittleQuad(0)]
      case OutputLastImmediate(q0, q1, branchAddress, branchZ, irq) =>
        [LittleQuad(Control(OUTPUT_LAST, KEY_IMMEDIATE, irq, 3, 8)), LittleQuad(0),
         LittleQuad(BranchPointer(branchAddress, branchZ)), LittleQuad(0),
         BigQuad(q0), BigQuad(q1), LittleQuad(0), LittleQuad(0)]
    }
  }

  /** The control word: command, key, interrupt and branch fields above a 16-bit request count. */
  function Control(cmd: nat, key: nat, irq: bool, branch: nat, reqCount: nat): (w: int)
    requires cmd < 16 && key < 8 && branch < 4
    ensures IsWord(w)
  {
    cmd * 0x1000_0000 + key * 0x100_0000 + (if irq then 3 else 0) * 0x10_0000 + branch * 0x4_0000 + reqCount % 0x1_0000
  }

  /** Bits 4 to 31 of the branch address, with the Z nibble below them. */
  function BranchPointer(address: int, z: int): (w: int)
    ensures IsWord(w)
  {
    (address % WORD) / 16 * 16 + z % 16
  }

  datatype Block = Block(descriptors: seq<Descriptor>, address: int)

  function TotalSize(ds: seq<Descriptor>): nat {
    if ds == [] then 0 else TotalSize(ds[..|ds| - 1]) + ds[|ds| - 1].Size()
  }

  function ZValue(b: Block): nat {
    (TotalSize(b.descriptors) + 15) / 16
  }

  predicate BlockPackable(b: Block) {
    forall d :: d in b.descriptors ==> d.Packable()
  }

  function BlockQuads(ds: seq<Descriptor>): seq<Quad>
    requires forall d :: d in ds ==> d.Packable()
  {
    if ds == [] then [] else BlockQuads(ds[..|ds| - 1]) + ds[|ds| - 1].Quads()
  }

  function ToBytes(b: Block): Bytes
    requires BlockPackable(b)
  {
    Flatten(BlockQuads(b.descriptors))
  }

  // ----- Packets -----

  datatype Packet = Packet(header0: Q0, header1: Q1, noData: bool, payloadSize: nat)
  datatype Item = Item(packet: Packet, irq: bool)

  function Align16(x: nat): nat {
    (x + 15) / 16 * 16
  }

  /** Payload offset after the first i packets. */
  function PayloadEnd(items: seq<Item>, i: nat): nat
    requires i <= |items|
  {
    if i == 0 then 0
    else if items[i - 1].packet.noData then PayloadEnd(items, i - 1)
    else Align16(PayloadEnd(items, i - 1) + items[i - 1].packet.payloadSize)
  }

  /** Descriptor units (of 16 bytes) used by the first i packets. */
  function Units(items: seq<Item>, i: nat): nat
    requires i <= |items|
  {
    if i == 0 then 0 else Units(items, i - 1) + UnitsOf(items[i - 1])
  }

  function UnitsOf(item: Item): nat {
    if item.packet.noData then 2 else 3
  }

  const PAYLOAD_GAP := 0x1_0000

  function BlockAddress(base: int, items: seq<Item>, i: nat): int
    requires i <= |items|
  {
    base + 16 * Units(items, i)
  }

  function PayloadAddress(base: int, items: seq<Item>, i: nat): int
    requires i <= |items|
  {
    base + PAYLOAD_GAP + PayloadEnd(items, i)
  }

  /** Block of packet i, branching to the given address and Z value. */
  function BlockFor(base: int, items: seq<Item>, i: nat, branch: int, z: int): Block
    requires i < |items|
  {
    var p := items[i].packet;
    var q0, q1 := BuildCipQ0(p.header0), BuildCipQ1(p.header1);
    Block(
      if p.noData then [OutputLastImmediate(q0, q1, branch, z, items[i].irq)]
      else [OutputMoreImmediate(q0, q1),
            OutputLast(p.payloadSize, PayloadAddress(base, items, i), branch, z, items[i].irq)],
      BlockAddress(base, items, i))
  }

  /** The block that closes the ring behind packet i. */
  function Linked(base: int, items: seq<Item>, i: nat): Block
    requires i < |items|
  {
    var next := (i + 1) % |items|;
    BlockFor(base, items, i, BlockAddress(base, items, next), UnitsOf(items[next]))
  }

  lemma BlockForFacts(base: int, items: seq<Item>, i: nat, branch: int, z: int)
    requires i < |items|
    ensures ZValue(BlockFor(base, items, i, branch, z)) == UnitsOf(items[i])
    ensures BlockPackable(BlockFor(base, items, i, branch, z))
            <==> (items[i].packet.noData || IsWord(PayloadAddress(base, items, i)))
  {
    var b := BlockFor(base, items, i, branch, z);
    CipQ0RoundTrip(items[i].packet.header0);
    CipQ1RoundTrip(items[i].packet.header1);
    if items[i].packet.noData {
      assert TotalSize(b.descriptors) == TotalSize(b.descriptors[..0]) + 32;
    } else {
      assert TotalSize(b.descriptors) == TotalSize(b.descriptors[..1]) + 16;
      assert TotalSize(b.descriptors[..1]) == TotalSize(b.descriptors[..1][..0]) + 32;
      assert b.descriptors[1] in b.descriptors;
    }
  }

  lemma {:induction false} PrefixKeeps(items: seq<Item>, more: Item, i: nat)
    requires i <= |items|
    ensures Units(items + [more], i) == Units(items, i) && PayloadEnd(items + [more], i) == PayloadEnd(items, i)
  {
    if i == 0 {
    } else {
      PrefixKeeps(items, more, i - 1);
    }
  }

  // ----- The builder -----

  function BranchOf(b: Block): (int, int) {
    if b.descriptors == [] then (0, 0)
    else
      match b.descriptors[|b.descriptors| - 1]
      case OutputMoreImmediate(_, _) => (0, 0)
      case OutputLast(_, _, branch, z, _) => (branch, z)
      case OutputLastImmediate(_, _, branch, z, _) => (branch, z)
  }

  /** The block of packet i, whatever it currently branches to. */
  ghost predicate Shaped(b: Block, base: int, items: seq<Item>, i: nat)
    requires i < |items|
  {
    b == BlockFor(base, items, i, BranchOf(b).0, BranchOf(b).1)
  }

  /** The last descriptor of a block, branching to another block. */
  function Relink(b: Block, next: Block): Block
    requires b.descriptors != []
  {
    var n := |b.descriptors| - 1;
    match b.descriptors[n]
    case OutputMoreImmediate(_, _) => b
    case OutputLast(count, data, _, _, irq) =>
      b.(descriptors := b.descriptors[n := OutputLast(count, data, next.address, ZValue(next), irq)])
    case OutputLastImmediate(q0, q1, _, _, irq) =>
      b.(descriptors := b.descriptors[n := OutputLastImmediate(q0, q1, next.address, ZValue(next), irq)])
  }

  lemma RelinkShaped(b: Block, next: Block, base: int, items: seq<Item>, i: nat, j: nat)
    requires i < |items| && j < |items| && Shaped(b, base, items, i) && Shaped(next, base, items, j)
    ensures b.descriptors != []
    ensures Relink(b, next) == BlockFor(base, items, i, BlockAddress(base, items, j), UnitsOf(items[j]))
  {
    BlockForFacts(base, items, j, BranchOf(next).0, BranchOf(next).1);
  }

  lemma BlockForPrefix(base: int, items: seq<Item>, more: Item, i: nat, branch: int, z: int)
    requires i < |items|
    ensures BlockFor(base, items + [more], i, branch, z) == BlockFor(base, items, i, branch, z)
  {
    PrefixKeeps(items, more, i);
  }

  /** The blocks of the packets so far, with an unlinked block for one more. */
  lemma {:induction false} ShapesKept(blocks: seq<Block>, base: int, items: seq<Item>, more: Item)
    requires |blocks| == |items| && forall i :: 0 <= i < |items| ==> Shaped(blocks[i], base, items, i)
    ensures var after, b := items + [more], BlockFor(base, items + [more], |items|, 0, 0);
            forall i :: 0 <= i <= |items| ==> Shaped((blocks + [b])[i], base, after, i)
  {
    forall i | 0 <= i < |items|
      ensures Shaped(blocks[i], base, items + [more], i)
    {
      BlockForPrefix(base, items, more, i, BranchOf(blocks[i]).0, BranchOf(blocks[i]).1);
    }
  }

  /** Relinking block i gives the linked block, and leaves every block in shape. */
  lemma {:induction false} LinkBlock(blocks: seq<Block>, base: int, items: seq<Item>, i: nat)
    requires |blocks| == |items| && forall k :: 0 <= k < |items| ==> Shaped(blocks[k], base, items, k)
    requires i < |blocks|
    ensures blocks[i].descriptors != []
    ensures Relink(blocks[i], blocks[(i + 1) % |blocks|]) == Linked(base, items, i)
    ensures Shaped(Linked(base, items, i), base, items, i)
  {
    RelinkShaped(blocks[i], blocks[(i + 1) % |blocks|], base, items, i, (i + 1) % |items|);
  }

  class ITProgramBuilder {
    const baseAddress: int
    const payloadBase: int
    var blocks: seq<Block>
    var payloadOffset: nat
    ghost var items: seq<Item>

    ghost predicate Valid()
      reads this
    {
      && payloadBase == baseAddress + PAYLOAD_GAP
      && payloadOffset == PayloadEnd(items, |items|)
      && |blocks| == |items|
      && forall i :: 0 <= i < |items| ==> Shaped(blocks[i], baseAddress, items, i)
    }

    constructor (baseAddress: int)
      ensures Valid() && this.baseAddress == baseAddress && items == []
    {
      this.baseAddress, payloadBase := baseAddress, baseAddress + PAYLOAD_GAP;
      blocks, payloadOffset, items := [], 0, [];
    }

    /** The address right behind the last block. */
    method NextAddress() returns (addr: int)
      requires Valid()
      ensures addr == BlockAddress(baseAddress, items, |items|)
    {
      addr := baseAddress;
      if blocks != [] {
        var last := blocks[|blocks| - 1];
        BlockForFacts(baseAddress, items, |items| - 1, BranchOf(last).0, BranchOf(last).1);
        addr := last.address + ZValue(last) * BLOCK_SIZE;
      }
    }

    /** The block of a packet, with the payload offset behind it. */
    method NewBlock(packet: Packet, irq: bool, addr: int) returns (block: Block, offset: nat)
      requires Valid() && addr == BlockAddress(baseAddress, items, |items|)
      ensures block == BlockFor(baseAddress, items + [Item(packet, irq)], |items|, 0, 0)
      ensures offset == PayloadEnd(items + [Item(packet, irq)], |items| + 1)
    {
      offset := payloadOffset;
      var q0, q1 := BuildCipQ0(packet.header0), BuildCipQ1(packet.header1);
      if packet.noData {
        block := Block([OutputLastImmediate(q0, q1, 0, 0, irq)], addr);
      } else {
        var dataAddress := payloadBase + payloadOffset;
        offset := (payloadOffset + packet.payloadSize + 15) / 16 * 16;
        block := Block([OutputMoreImmediate(q0, q1), OutputLast(packet.payloadSize, dataAddress, 0, 0, irq)], addr);
      }
      PrefixKeeps(items, Item(packet, irq), |items|);
    }

    method AddPacket(packet: Packet, irq: bool)
      requires Valid()
      modifies this
      ensures Valid() && items == old(items) + [Item(packet, irq)]
      ensures blocks == old(blocks) + [BlockFor(baseAddress, items, |items| - 1, 0, 0)]
    {
      var addr := NextAddress();
      var block, offset := NewBlock(packet, irq, addr);
      ShapesKept(blocks, baseAddress, items, Item(packet, irq));
      items := items + [Item(packet, irq)];
      blocks := blocks + [block];
      payloadOffset := offset;
    }

    /** Links the blocks into a ring and packs them; nothing when an address does not fit 32 bits. */
    method Finalize() returns (program: Option<Bytes>)
      requires Valid()
      modifies this`blocks
      ensures Valid()
      ensures forall i :: 0 <= i < |items| ==> blocks[i] == Linked(baseAddress, items, i)
      ensures program == if Packs(baseAddress, items) then Some(Program(baseAddress, items)) else None
    {
      var i := 0;
      while i < |blocks|
        invariant Valid() && i <= |blocks|
        invariant forall k :: 0 <= k < i ==> blocks[k] == Linked(baseAddress, items, k)
      {
        var next := blocks[(i + 1) % |blocks|];
        LinkBlock(blocks, baseAddress, items, i);
        blocks := blocks[i := Relink(blocks[i], next)];
        i := i + 1;
      }
      program := PackLinked(blocks, baseAddress, items);
    }
  }

  /** Packs the linked blocks. */
  method PackLinked(blocks: seq<Block>, ghost base: int, ghost items: seq<Item>) returns (program: Option<Bytes>)
    requires |blocks| == |items| && forall i :: 0 <= i < |items| ==> blocks[i] == Linked(base, items, i)
    ensures program == if Packs(base, items) then Some(Program(base, items)) else None
  {
    AllPackIff(blocks, base, items);
    program := Join(blocks, PackBlock);
    if program.Some? {
      LinkedJoin(blocks, base, items);
    }
  }

  /** Every data address fits in 32 bits. */
  predicate Packs(base: int, items: seq<Item>) {
    forall i: nat :: i < |items| ==> ItemPacks(base, items, i)
  }

  function Concat(parts: seq<seq<Quad>>): seq<Quad> {
    if parts == [] then [] else Concat(parts[..|parts| - 1]) + parts[|parts| - 1]
  }

  function PartLengths(parts: seq<seq<Quad>>, k: nat): nat
    requires k <= |parts|
  {
    if k == 0 then 0 else PartLengths(parts, k - 1) + |parts[k - 1]|
  }

  lemma {:induction false} ConcatAt(parts: seq<seq<Quad>>, i: nat)
    requires i < |parts|
    ensures |Concat(parts)| == PartLengths(parts, |parts|)
    ensures PartLengths(parts, i) + |parts[i]| <= |Concat(parts)|
    ensures Concat(parts)[PartLengths(parts, i)..PartLengths(parts, i) + |parts[i]|] == parts[i]
  {
    var n := |parts| - 1;
    ConcatLength(parts[..n]);
    PartLengthsPrefix(parts, n, i);
    PartLengthsPrefix(parts, n, n);
    if i < n {
      ConcatAt(parts[..n], i);
      var a, b := PartLengths(parts, i), PartLengths(parts, i) + |parts[i]|;
      assert Concat(parts)[a..b] == Concat(parts[..n])[a..b];
    }
  }

  lemma {:induction false} ConcatLength(parts: seq<seq<Quad>>)
    ensures |Concat(parts)| == PartLengths(parts, |parts|)
  {
    if parts == [] {
    } else {
      var n := |parts| - 1;
      ConcatLength(parts[..n]);
      PartLengthsPrefix(parts, n, n);
    }
  }

  lemma {:induction false} PartLengthsPrefix(parts: seq<seq<Quad>>, n: nat, k: nat)
    requires k <= n <= |parts|
    ensures PartLengths(parts[..n], k) == PartLengths(parts, k)
  {
    if k == 0 {
    } else {
      PartLengthsPrefix(parts, n, k - 1);
    }
  }

  /** Quadlets of block i of the linked program; none while its address does not fit. */
  function LinkedQuads(base: int, items: seq<Item>, i: nat): seq<Quad>
    requires i < |items|
  {
    var b := Linked(base, items, i);
    if BlockPackable(b) then BlockQuads(b.descriptors) else []
  }

  function Parts(base: int, items: seq<Item>): seq<seq<Quad>> {
    seq(|items|, i requires 0 <= i < |items| => LinkedQuads(base, items, i))
  }

  /** The bytes of the linked program. */
  function Program(base: int, items: seq<Item>): Bytes {
    Flatten(Concat(Parts(base, items)))
  }

  lemma LinkedPackable(base: int, items: seq<Item>, i: nat)
    requires i < |items|
    ensures BlockPackable(Linked(base, items, i)) <==> ItemPacks(base, items, i)
  {
    var next := (i + 1) % |items|;
    BlockForFacts(base, items, i, BlockAddress(base, items, next), UnitsOf(items[next]));
  }

  predicate ItemPacks(base: int, items: seq<Item>, i: nat)
    requires i < |items|
  {
    items[i].packet.noData || IsWord(PayloadAddress(base, items, i))
  }

  /** The bytes of a block; none when a field does not fit. */
  function PackBlock(b: Block): Option<Bytes> {
    if BlockPackable(b) then Some(ToBytes(b)) else None
  }

  /** The bytes of the first i elements, one after the other. */
  function Joined<T>(xs: seq<T>, pack: T -> Option<Bytes>, i: nat): Bytes
    requires i <= |xs| && forall k :: 0 <= k < i ==> pack(xs[k]).Some?
  {
    if i == 0 then [] else Joined(xs, pack, i - 1) + pack(xs[i - 1]).value
  }

  /** Packs one element after the other; fails at the first that cannot be packed. */
  method Join<T>(xs: seq<T>, pack: T -> Option<Bytes>) returns (bytes: Option<Bytes>)
    ensures bytes.Some? <==> forall k :: 0 <= k < |xs| ==> pack(xs[k]).Some?
    ensures bytes.Some? ==> bytes.value == Joined(xs, pack, |xs|)
  {
    var joined: Bytes := [];
    for i := 0 to |xs|
      invariant forall k :: 0 <= k < i ==> pack(xs[k]).Some?
      invariant joined == Joined(xs, pack, i)
    {
      var packed := pack(xs[i]);
      if packed.None? {
        return None;
      }
      joined := joined + packed.value;
    }
    bytes := Some(joined);
  }

  lemma {:induction false} JoinedIsFlat<T>(xs: seq<T>, pack: T -> Option<Bytes>, parts: seq<seq<Quad>>, i: nat)
    requires i <= |xs| == |parts| && forall k :: 0 <= k < |xs| ==> pack(xs[k]) == Some(Flatten(parts[k]))
    ensures Joined(xs, pack, i) == Flatten(Concat(parts[..i]))
  {
    if i == 0 {
    } else {
      JoinedIsFlat(xs, pack, parts, i - 1);
      assert parts[..i][..i - 1] == parts[..i - 1];
      FlattenAppend(Concat(parts[..i - 1]), parts[i - 1]);
    }
  }

  lemma LinkedPacks(base: int, items: seq<Item>, i: nat)
    requires i < |items|
    ensures PackBlock(Linked(base, items, i))
         == if ItemPacks(base, items, i) then Some(Flatten(Parts(base, items)[i])) else None
  {
    LinkedPackable(base, items, i);
    assert Parts(base, items)[i] == LinkedQuads(base, items, i);
  }

  lemma {:induction false} AllPackIff(blocks: seq<Block>, base: int, items: seq<Item>)
    requires |blocks| == |items| && forall i :: 0 <= i < |items| ==> blocks[i] == Linked(base, items, i)
    ensures (forall k :: 0 <= k < |blocks| ==> PackBlock(blocks[k]).Some?) <==> Packs(base, items)
  {
    forall k: nat | k < |items|
      ensures PackBlock(blocks[k]).Some? <==> ItemPacks(base, items, k)
    {
      LinkedPacks(base, items, k);
    }
  }

  /** The linked blocks join into the program. */
  lemma {:induction false} LinkedJoin(blocks: seq<Block>, base: int, items: seq<Item>)
    requires |blocks| == |items| && forall i :: 0 <= i < |items| ==> blocks[i] == Linked(base, items, i)
    requires Packs(base, items) && forall k :: 0 <= k < |blocks| ==> PackBlock(blocks[k]).Some?
    ensures Joined(blocks, PackBlock, |blocks|) == Program(base, items)
  {
    var parts := Parts(base, items);
    forall k: nat | k < |items|
      ensures PackBlock(blocks[k]) == Some(Flatten(parts[k]))
    {
      LinkedPacks(base, items, k);
    }
    JoinedIsFlat(blocks, PackBlock, parts, |blocks|);
    assert parts[..|blocks|] == parts;
  }

  // ----- The interpreter -----

  datatype Emission = Emission(q0: int, q1: int, payload: Option<(int, int)>, irq: bool)
  datatype Step = Step(emission: Emission, branch: int, z: int)

  /** Fields of a control word. */
  function Command(w: int): int {
    w / 0x1000_0000 % 16
  }

  function Key(w: int): int {
    w / 0x100_0000 % 8
  }

  function Interrupts(w: int): bool {
    w / 0x10_0000 % 4 == 3
  }

  function Branches(w: int): bool {
    w / 0x4_0000 % 4 == 3
  }

  function RequestCount(w: int): int {
    w % 0x1_0000
  }

  /** Decodes a fetched block: OUTPUT_LAST-Immediate alone, or OUTPUT_MORE-Immediate and OUTPUT_LAST. */
  function DecodeBlock(qs: seq<Quad>): Option<Step> {
    if |qs| == 8 then
      var w, branch := FromLittle(qs[0]), FromLittle(qs[2]);
      if Command(w) == OUTPUT_LAST && Key(w) == KEY_IMMEDIATE && Branches(w) && RequestCount(w) == 8 then
        Some(Step(Emission(FromBig(qs[4]), FromBig(qs[5]), None, Interrupts(w)), branch / 16 * 16, branch % 16))
      else None
    else if |qs| == 12 then
      var v, w, branch := FromLittle(qs[0]), FromLittle(qs[8]), FromLittle(qs[10]);
      if Command(v) == OUTPUT_MORE && Key(v) == KEY_IMMEDIATE && RequestCount(v) == 8
         && Command(w) == OUTPUT_LAST && Key(w) == KEY_STANDARD && Branches(w) then
        Some(Step(Emission(FromBig(qs[4]), FromBig(qs[5]), Some((FromLittle(qs[9]), RequestCount(w))), Interrupts(w)),
                  branch / 16 * 16, branch % 16))
      else None
    else None
  }

  /** The z * 16 bytes at an address, as quadlets. */
  function Fetch(mem: Bytes, off: nat, z: nat): seq<Quad>
    requires off + 16 * z <= |mem|
  {
    seq(4 * z, k requires 0 <= k < 4 * z => mem[off + 4 * k..off + 4 * k + 4])
  }

  /** The block at an address, when it lies inside the image. */
  function FetchBlock(mem: Bytes, base: int, address: int, z: int): Option<seq<Quad>> {
    if base <= address && z >= 0 && address - base + 16 * z <= |mem| then Some(Fetch(mem, address - base, z)) else None
  }

  function Exec(mem: Bytes, base: int, address: int, z: int): Option<Step> {
    match FetchBlock(mem, base, address, z)
    case None => None
    case Some(qs) => DecodeBlock(qs)
  }

  /** What k steps emit, from a block address and its Z value; nothing if a step cannot be executed. */
  function Trace(exec: (int, int) -> Option<Step>, address: int, z: int, k: nat): Option<seq<Emission>>
    decreases k
  {
    if k == 0 then Some([])
    else
      match exec(address, z)
      case None => None
      case Some(step) =>
        match Trace(exec, step.branch, step.z, k - 1)
        case None => None
        case Some(rest) => Some([step.emission] + rest)
  }

  /** The controller over a memory image. */
  function Controller(mem: Bytes, base: int): (int, int) -> Option<Step> {
    (address, z) => Exec(mem, base, address, z)
  }

  /** What packet i asks to be sent; the request count has 16 bits. */
  function EmissionOf(base: int, items: seq<Item>, i: nat): Emission
    requires i < |items|
  {
    var p := items[i].packet;
    Emission(BuildCipQ0(p.header0), BuildCipQ1(p.header1),
             if p.noData then None else Some((PayloadAddress(base, items, i), p.payloadSize % 0x1_0000)),
             items[i].irq)
  }

  lemma ControlFields(cmd: nat, key: nat, irq: bool, branch: nat, reqCount: nat)
    requires cmd < 16 && key < 8 && branch < 4
    ensures var w := Control(cmd, key, irq, branch, reqCount);
            Command(w) == cmd && Key(w) == key && Interrupts(w) == irq && (Branches(w) <==> branch == 3)
            && RequestCount(w) == reqCount % 0x1_0000
  {
    var w := Control(cmd, key, irq, branch, reqCount);
    var i, r := if irq then 3 else 0, reqCount % 0x1_0000;
    FieldAt(w, 0, cmd, key * 0x100_0000 + i * 0x10_0000 + branch * 0x4_0000 + r, 16, 0x1000_0000);
    FieldAt(w, cmd * 2, key, i * 0x10_0000 + branch * 0x4_0000 + r, 8, 0x100_0000);
    FieldAt(w, (cmd * 16 + key) * 4, i, branch * 0x4_0000 + r, 4, 0x10_0000);
    FieldAt(w, (cmd * 256 + key * 16) + i, branch, r, 4, 0x4_0000);
    DivUnique(w, 0x1_0000, ((cmd * 256 + key * 16) + i) * 16 + branch * 4);
  }

  lemma BranchFields(address: int, z: int)
    requires IsWord(address) && address % 16 == 0 && 0 <= z < 16
    ensures BranchPointer(address, z) / 16 * 16 == address && BranchPointer(address, z) % 16 == z
  {}

  /** Decoding a packed block gives back the packet and the branch it was linked with. */
  lemma DecodeEncode(base: int, items: seq<Item>, i: nat, branch: int, z: int)
    requires i < |items| && BlockPackable(BlockFor(base, items, i, branch, z))
    requires IsWord(branch) && branch % 16 == 0 && 0 <= z < 16
    ensures var qs := BlockQuads(BlockFor(base, items, i, branch, z).descriptors);
            |qs| == 4 * UnitsOf(items[i]) && DecodeBlock(qs) == Some(Step(EmissionOf(base, items, i), branch, z))
  {
    var b := BlockFor(base, items, i, branch, z);
    var ds, p := b.descriptors, items[i].packet;
    BranchFields(branch, z);
    assert ds[0] in ds;
    if p.noData {
      DecodeImmediate(ds[0]);
      assert ds[..0] == [];
      assert BlockQuads(ds) == [] + ds[0].Quads() == ds[0].Quads();
    } else {
      TwoDescriptors(ds);
      DecodePair(ds[0], ds[1]);
    }
  }

  lemma DecodeImmediate(d: Descriptor)
    requires d.OutputLastImmediate? && d.Packable()
    ensures var branch := BranchPointer(d.branchAddress, d.branchZ);
            |d.Quads()| == 8 && DecodeBlock(d.Quads())
            == Some(Step(Emission(d.q0, d.q1, None, d.irq), branch / 16 * 16, branch % 16))
  {
    ImmediateQuads(d);
    ControlFields(OUTPUT_LAST, KEY_IMMEDIATE, d.irq, 3, 8);
  }

  lemma DecodePair(d: Descriptor, e: Descriptor)
    requires d.OutputMoreImmediate? && e.OutputLast? && d.Packable() && e.Packable()
    ensures var branch := BranchPointer(e.branchAddress, e.branchZ);
            |d.Quads() + e.Quads()| == 12 && DecodeBlock(d.Quads() + e.Quads())
            == Some(Step(Emission(d.q0, d.q1, Some((e.dataAddress, e.reqCount % 0x1_0000)), e.irq),
                         branch / 16 * 16, branch % 16))
  {
    ImmediateQuads(d);
    LastQuads(e);
    ControlFields(OUTPUT_MORE, KEY_IMMEDIATE, false, 0, 8);
    ControlFields(OUTPUT_LAST, KEY_STANDARD, e.irq, 3, e.reqCount);
  }

  /** The quadlets of an immediate descriptor, read back. */
  lemma ImmediateQuads(d: Descriptor)
    requires !d.OutputLast? && d.Packable()
    ensures |d.Quads()| == 8 && FromBig(d.Quads()[4]) == d.q0 && FromBig(d.Quads()[5]) == d.q1
    ensures d.OutputMoreImmediate? ==>
              FromLittle(d.Quads()[0]) == Control(OUTPUT_MORE, KEY_IMMEDIATE, false, 0, 8)
    ensures d.OutputLastImmediate? ==>
              && FromLittle(d.Quads()[0]) == Control(OUTPUT_LAST, KEY_IMMEDIATE, d.irq, 3, 8)
              && FromLittle(d.Quads()[2]) == BranchPointer(d.branchAddress, d.branchZ)
  {
    BigRoundTrip(d.q0);
    BigRoundTrip(d.q1);
    if d.OutputMoreImmediate? {
      LittleRoundTrip(Control(OUTPUT_MORE, KEY_IMMEDIATE, false, 0, 8));
    } else {
      LittleRoundTrip(Control(OUTPUT_LAST, KEY_IMMEDIATE, d.irq, 3, 8));
      LittleRoundTrip(BranchPointer(d.branchAddress, d.branchZ));
    }
  }

  lemma LastQuads(e: Descriptor)
    requires e.OutputLast? && e.Packable()
    ensures |e.Quads()| == 4 && FromLittle(e.Quads()[1]) == e.dataAddress
    ensures FromLittle(e.Quads()[0]) == Control(OUTPUT_LAST, KEY_STANDARD, e.irq, 3, e.reqCount)
    ensures FromLittle(e.Quads()[2]) == BranchPointer(e.branchAddress, e.branchZ)
  {
    LittleRoundTrip(Control(OUTPUT_LAST, KEY_STANDARD, e.irq, 3, e.reqCount));
    LittleRoundTrip(e.dataAddress);
    LittleRoundTrip(BranchPointer(e.branchAddress, e.branchZ));
  }

  lemma TwoDescriptors(ds: seq<Descriptor>)
    requires |ds| == 2 && forall d :: d in ds ==> d.Packable()
    ensures ds[0].Packable() && ds[1].Packable() && BlockQuads(ds) == ds[0].Quads() + ds[1].Quads()
  {
    assert ds[0] in ds && ds[1] in ds;
    assert ds[..1][..0] == [] && ds[..1] == [ds[0]];
    assert BlockQuads(ds[..1]) == [] + ds[0].Quads() == ds[0].Quads();
  }

  // ----- The compiled program runs -----

  /** A loadable program: packets to send, a 16-aligned base, and addresses that fit in 32 bits. */
  ghost predicate Loadable(base: int, items: seq<Item>) {
    && items != [] && base >= 0 && base % 16 == 0
    && Packs(base, items)
    && base + 16 * Units(items, |items|) <= WORD
  }

  lemma {:induction false} UnitsMono(items: seq<Item>, i: nat, j: nat)
    requires i <= j <= |items|
    ensures Units(items, i) + 2 * (j - i) <= Units(items, j)
  {
    if i == j {
    } else {
      UnitsMono(items, i, j - 1);
    }
  }

  lemma AddressFits(base: int, items: seq<Item>, i: nat)
    requires Loadable(base, items) && i < |items|
    ensures IsWord(BlockAddress(base, items, i)) && BlockAddress(base, items, i) % 16 == 0
  {
    UnitsMono(items, i, |items|);
    DivShift(base, 16, Units(items, i));
  }

  lemma LinkedDecodes(base: int, items: seq<Item>, i: nat)
    requires Loadable(base, items) && i < |items|
    ensures var next := (i + 1) % |items|;
            && |LinkedQuads(base, items, i)| == 4 * UnitsOf(items[i])
            && DecodeBlock(LinkedQuads(base, items, i))
               == Some(Step(EmissionOf(base, items, i), BlockAddress(base, items, next), UnitsOf(items[next])))
  {
    var next := (i + 1) % |items|;
    LinkedPackable(base, items, i);
    assert ItemPacks(base, items, i);
    AddressFits(base, items, next);
    DecodeEncode(base, items, i, BlockAddress(base, items, next), UnitsOf(items[next]));
  }

  lemma LinkedLength(base: int, items: seq<Item>, i: nat)
    requires Loadable(base, items) && i < |items|
    ensures |LinkedQuads(base, items, i)| == 4 * UnitsOf(items[i])
  {
    LinkedDecodes(base, items, i);
  }

  lemma {:induction false} LengthsAtUnits(parts: seq<seq<Quad>>, items: seq<Item>, i: nat)
    requires i <= |items| == |parts| && forall k :: 0 <= k < |items| ==> |parts[k]| == 4 * UnitsOf(items[k])
    ensures PartLengths(parts, i) == 4 * Units(items, i)
  {
    if i == 0 {
    } else {
      LengthsAtUnits(parts, items, i - 1);
    }
  }

  lemma PartsAtUnits(base: int, items: seq<Item>, i: nat)
    requires Loadable(base, items) && i <= |items|
    ensures PartLengths(Parts(base, items), i) == 4 * Units(items, i)
  {
    forall k | 0 <= k < |items|
      ensures |Parts(base, items)[k]| == 4 * UnitsOf(items[k])
    {
      LinkedLength(base, items, k);
    }
    LengthsAtUnits(Parts(base, items), items, i);
  }

  lemma FetchFlat(qs: seq<Quad>, u: nat, z: nat)
    requires 4 * u + 4 * z <= |qs|
    ensures |Flatten(qs)| == 4 * |qs|
    ensures Fetch(Flatten(qs), 16 * u, z) == qs[4 * u..4 * u + 4 * z]
  {
    FlattenLength(qs);
    forall k | 0 <= k < 4 * z
      ensures Fetch(Flatten(qs), 16 * u, z)[k] == qs[4 * u + k]
    {
      FlattenAt(qs, 4 * u + k);
    }
  }

  /** Block i of the program image is its linked block. */
  lemma ProgramBlock(base: int, items: seq<Item>, i: nat)
    requires Loadable(base, items) && i < |items|
    ensures 16 * Units(items, i) + 16 * UnitsOf(items[i]) <= |Program(base, items)|
    ensures Fetch(Program(base, items), 16 * Units(items, i), UnitsOf(items[i])) == LinkedQuads(base, items, i)
  {
    var parts := Parts(base, items);
    LinkedLength(base, items, i);
    PartsAtUnits(base, items, i);
    ConcatAt(parts, i);
    FetchFlat(Concat(parts), Units(items, i), UnitsOf(items[i]));
  }

  lemma FetchInside(mem: Bytes, base: int, address: int, u: nat, z: nat, qs: seq<Quad>)
    requires 16 * u + 16 * z <= |mem| && Fetch(mem, 16 * u, z) == qs && address == base + 16 * u
    ensures FetchBlock(mem, base, address, z) == Some(qs)
  {}

  lemma ProgramFetches(base: int, items: seq<Item>, i: nat)
    requires Loadable(base, items) && i < |items|
    ensures FetchBlock(Program(base, items), base, BlockAddress(base, items, i), UnitsOf(items[i]))
         == Some(LinkedQuads(base, items, i))
  {
    ProgramBlock(base, items, i);
    var address, u, z := BlockAddress(base, items, i), Units(items, i), UnitsOf(items[i]);
    FetchInside(Program(base, items), base, address, u, z, LinkedQuads(base, items, i));
  }

  /** Executing the block of packet i emits that packet and branches to the next block of the ring. */
  lemma BlockExecutes(base: int, items: seq<Item>, i: nat)
    requires Loadable(base, items) && i < |items|
    ensures var next := (i + 1) % |items|;
            Exec(Program(base, items), base, BlockAddress(base, items, i), UnitsOf(items[i]))
            == Some(Step(EmissionOf(base, items, i), BlockAddress(base, items, next), UnitsOf(items[next])))
  {
    ProgramFetches(base, items, i);
    LinkedDecodes(base, items, i);
  }

  datatype Node = Node(address: int, z: int, emission: Emission)

  function Succ(i: nat, n: nat): nat
    requires i < n
  {
    if i + 1 == n then 0 else i + 1
  }

  /** The node j steps round a ring of n from node i. */
  function Rotate(i: nat, j: nat, n: nat): (r: nat)
    requires i < n
    ensures r < n
    decreases j
  {
    if j == 0 then i else Rotate(Succ(i, n), j - 1, n)
  }

  lemma SuccIsMod(i: nat, n: nat)
    requires i < n
    ensures (i + 1) % n == Succ(i, n)
  {
    DivUnique(i + 1, n, if i + 1 == n then 1 else 0);
  }

  lemma {:induction false} RotateIsMod(i: nat, j: nat, n: nat)
    requires i < n
    ensures Rotate(i, j, n) == (i + j) % n
    decreases j
  {
    if j == 0 {
      DivUnique(i, n, 0);
    } else {
      RotateIsMod(Succ(i, n), j - 1, n);
      SuccIsMod(i, n);
      ModAbsorb(i + 1, j - 1, n);
    }
  }

  ghost predicate NodeExecutes(exec: (int, int) -> Option<Step>, ring: seq<Node>, i: nat)
    requires i < |ring|
  {
    var next := ring[Succ(i, |ring|)];
    exec(ring[i].address, ring[i].z) == Some(Step(ring[i].emission, next.address, next.z))
  }

  /** A ring of blocks, each executing and branching to the next. */
  ghost predicate IsRing(exec: (int, int) -> Option<Step>, ring: seq<Node>) {
    forall i: nat :: i < |ring| ==> NodeExecutes(exec, ring, i)
  }

  ghost predicate TraceFollows(exec: (int, int) -> Option<Step>, ring: seq<Node>, i: nat, k: nat)
    requires i < |ring|
  {
    var t := Trace(exec, ring[i].address, ring[i].z, k);
    t.Some? && |t.value| == k && forall j: nat :: j < k ==> t.value[j] == ring[Rotate(i, j, |ring|)].emission
  }

  lemma {:induction false} RingTrace(exec: (int, int) -> Option<Step>, ring: seq<Node>, i: nat, k: nat)
    requires IsRing(exec, ring) && i < |ring|
    ensures TraceFollows(exec, ring, i, k)
    decreases k
  {
    if k == 0 {
    } else {
      assert NodeExecutes(exec, ring, i);
      RingTrace(exec, ring, Succ(i, |ring|), k - 1);
    }
  }

  function Ring(base: int, items: seq<Item>): seq<Node> {
    seq(|items|, i requires 0 <= i < |items| =>
      Node(BlockAddress(base, items, i), UnitsOf(items[i]), EmissionOf(base, items, i)))
  }

  lemma ProgramIsRing(base: int, items: seq<Item>)
    requires Loadable(base, items)
    ensures IsRing(Controller(Program(base, items), base), Ring(base, items))
  {
    forall i: nat | i < |items|
      ensures NodeExecutes(Controller(Program(base, items), base), Ring(base, items), i)
    {
      BlockExecutes(base, items, i);
      SuccIsMod(i, |items|);
    }
  }

  lemma ProgramTraces(base: int, items: seq<Item>, k: nat)
    requires Loadable(base, items)
    ensures TraceFollows(Controller(Program(base, items), base), Ring(base, items), 0, k)
  {
    ProgramIsRing(base, items);
    RingTrace(Controller(Program(base, items), base), Ring(base, items), 0, k);
  }

  /** Run from its first block, the program emits exactly the input packets, in order, around the ring forever. */
  lemma ProgramEmitsPackets(base: int, items: seq<Item>, k: nat, j: nat)
    requires Loadable(base, items) && j < k
    ensures var t := Trace(Controller(Program(base, items), base), base, UnitsOf(items[0]), k);
            t.Some? && |t.value| == k && t.value[j] == EmissionOf(base, items, j % |items|)
  {
    ProgramTraces(base, items, k);
    FollowsAt(Controller(Program(base, items), base), base, items, k, j);
  }

  lemma FollowsAt(exec: (int, int) -> Option<Step>, base: int, items: seq<Item>, k: nat, j: nat)
    requires items != [] && j < k && TraceFollows(exec, Ring(base, items), 0, k)
    ensures var t := Trace(exec, base, UnitsOf(items[0]), k);
            t.Some? && |t.value| == k && t.value[j] == EmissionOf(base, items, j % |items|)
  {
    RotateIsMod(0, j, |items|);
    assert Ring(base, items)[0].address == base;
  }

  // ----- Memory layout -----

  lemma {:induction false} PayloadMono(items: seq<Item>, i: nat, j: nat)
    requires i < j <= |items|
    ensures PayloadEnd(items, i) + (if items[i].packet.noData then 0 else items[i].packet.payloadSize)
         <= PayloadEnd(items, j)
  {
    if i == j - 1 {
    } else {
      PayloadMono(items, i, j - 1);
    }
  }

  /** Bytes of packet i's payload. */
  predicate InPayload(base: int, items: seq<Item>, i: nat, a: int)
    requires i < |items|
  {
    var start := PayloadAddress(base, items, i);
    !items[i].packet.noData && start <= a < start + items[i].packet.payloadSize
  }

  predicate InDescriptors(base: int, items: seq<Item>, a: int) {
    base <= a < base + 16 * Units(items, |items|)
  }

  lemma PayloadsDisjoint(base: int, items: seq<Item>, i: nat, j: nat, a: int)
    requires i < |items| && j < |items| && InPayload(base, items, i, a) && InPayload(base, items, j, a)
    ensures i == j
  {
    if i < j {
      PayloadMono(items, i, j);
    } else if j < i {
      PayloadMono(items, j, i);
    }
  }

  /** No payload byte is a descriptor byte, exactly when the descriptors fit in the gap or there are no
      payload bytes. */
  lemma LayoutDisjointIff(base: int, items: seq<Item>)
    ensures (forall i: nat, a: int :: i < |items| && InPayload(base, items, i, a) ==> !InDescriptors(base, items, a))
            <==> (16 * Units(items, |items|) <= PAYLOAD_GAP
                  || forall i :: 0 <= i < |items| ==> items[i].packet.noData || items[i].packet.payloadSize == 0)
  {
    if 16 * Units(items, |items|) > PAYLOAD_GAP
       && exists i: nat :: i < |items| && !items[i].packet.noData && items[i].packet.payloadSize != 0 {
      var i: nat :| i < |items| && !items[i].packet.noData && items[i].packet.payloadSize != 0;
      var f := FirstPayload(items, i);
      assert InPayload(base, items, f, base + PAYLOAD_GAP) && InDescriptors(base, items, base + PAYLOAD_GAP);
    }
  }

  /** The first packet with payload bytes starts right after the gap. */
  lemma {:induction false} FirstPayload(items: seq<Item>, i: nat) returns (f: nat)
    requires i < |items| && !items[i].packet.noData && items[i].packet.payloadSize != 0
    ensures f <= i && !items[f].packet.noData && items[f].packet.payloadSize != 0 && PayloadEnd(items, f) == 0
    decreases i
  {
    if j: nat :| j < i && !items[j].packet.noData && items[j].packet.payloadSize != 0 {
      f := FirstPayload(items, j);
    } else {
      f := i;
      NoPayloadYet(items, i);
    }
  }

  lemma {:induction false} NoPayloadYet(items: seq<Item>, i: nat)
    requires i <= |items| && forall j: nat :: j < i ==> items[j].packet.noData || items[j].packet.payloadSize == 0
    ensures PayloadEnd(items, i) == 0
  {
    if i == 0 {
    } else {
      NoPayloadYet(items, i - 1);
    }
  }
}
