/** The bytes of an IT program, written out: every quadlet of every block at its place and with its value,
    against the packed image that the builder returns. */
module ItImage {
  import opened Arith
  import opened ByteStrings
  import opened ItProgram
  import opened Options

  // ----- The layout, in bytes -----

  /** Offset of the block of packet i: 32 bytes for a no-data packet before it, 48 for a data packet. */
  function BlockOffset(items: seq<Item>, i: nat): nat
    requires i <= |items|
  {
    if i == 0 then 0 else BlockOffset(items, i - 1) + if items[i - 1].packet.noData then 32 else 48
  }

  /** The least address from `at` on that lies a multiple of 16 bytes from the base. */
  function NextMultiple(base: int, at: int): (r: int)
    ensures at <= r < at + 16 && (r - base) % 16 == 0
  {
    AlignsUp(base, at);
    at + (base - at) % 16
  }

  lemma AlignsUp(base: int, at: int)
    ensures (at + (base - at) % 16 - base) % 16 == 0
  {}

  /** Where the payload of packet i starts: 0x10000 bytes behind the base, and each on the next multiple of 16
      behind the one before. */
  function DataStart(base: int, items: seq<Item>, i: nat): int
    requires i <= |items|
  {
    if i == 0 then base + 0x10000
    else
      var p := items[i - 1].packet;
      if p.noData then DataStart(base, items, i - 1)
      else NextMultiple(base, DataStart(base, items, i - 1) + p.payloadSize)
  }

  /** A quadlet least significant byte first. */
  function LittleEndian(v: int): Bytes
    requires 0 <= v < 0x1_0000_0000
  {
    [v % 256, v / 256 % 256, v / 65_536 % 256, v / 16_777_216]
  }

  function Zero8(): Bytes {
    [0, 0, 0, 0, 0, 0, 0, 0]
  }

  /** The two CIP quadlets, most significant byte first: two zero bits and the source, the block size, fraction,
      padding, header flag and reserved bits, the counter; then the bits 10 and the format, its field, the SYT. */
  function CipBytes(p: Packet): Bytes {
    var a, b := p.header0, p.header1;
    [a.sid % 64, a.dbs % 256, (a.fn % 4) * 64 + (a.qpc % 8) * 8 + (a.sph % 2) * 4 + a.rsv % 4, a.dbc % 256,
     128 + b.fmt % 64, b.fdf % 256, b.syt / 256 % 256, b.syt % 256]
  }

  /** Control word of the descriptor that ends a block: command 1 and branch 3, with interrupt 3 when asked for. */
  function LastControl(key: int, irq: bool, count: int): int {
    0x1000_0000 + key * 0x100_0000 + (if irq then 0x30_0000 else 0) + 0xC_0000 + count % 0x1_0000
  }

  /** Address of the next block of the ring, a multiple of 16, with its size in 16-byte units in the low bits. */
  function RingPointer(base: int, items: seq<Item>, i: nat): int
    requires i < |items|
  {
    var next := if i + 1 == |items| then 0 else i + 1;
    var address := (base + BlockOffset(items, next)) % 0x1_0000_0000;
    address - address % 16 + if items[next].packet.noData then 2 else 3
  }

  predicate AddressFits(base: int, items: seq<Item>, i: nat)
    requires i < |items|
  {
    items[i].packet.noData || 0 <= DataStart(base, items, i) < 0x1_0000_0000
  }

  lemma RingPointerFits(base: int, items: seq<Item>, i: nat)
    requires i < |items|
    ensures 0 <= RingPointer(base, items, i) < 0x1_0000_0000
  {
    var next := if i + 1 == |items| then 0 else i + 1;
    var address := (base + BlockOffset(items, next)) % 0x1_0000_0000;
    assert address - address % 16 <= 0xFFFF_FFF0;
  }

  /** The bytes of the block of packet i: one immediate OUTPUT_LAST, or an immediate OUTPUT_MORE with the header
      and an OUTPUT_LAST with the payload; all reserved quadlets are zero. */
  function BlockImage(base: int, items: seq<Item>, i: nat): Bytes
    requires i < |items| && AddressFits(base, items, i)
  {
    RingPointerFits(base, items, i);
    var p, irq := items[i].packet, items[i].irq;
    var pointer := LittleEndian(RingPointer(base, items, i));
    if p.noData then
      LittleEndian(LastControl(2, irq, 8)) + LittleEndian(0) + pointer + LittleEndian(0) + CipBytes(p) + Zero8()
    else
      [8, 0, 0, 2] + LittleEndian(0) + LittleEndian(0) + LittleEndian(0) + CipBytes(p) + Zero8()
      + LittleEndian(LastControl(0, irq, p.payloadSize)) + LittleEndian(DataStart(base, items, i)) + pointer
      + LittleEndian(0)
  }

  function JoinFirst(images: seq<Bytes>, i: nat): Bytes
    requires i <= |images|
  {
    if i == 0 then [] else JoinFirst(images, i - 1) + images[i - 1]
  }

  predicate AllFit(base: int, items: seq<Item>) {
    forall k: nat :: k < |items| ==> AddressFits(base, items, k)
  }

  function BlockImages(base: int, items: seq<Item>): seq<Bytes>
    requires AllFit(base, items)
  {
    seq(|items|, k requires 0 <= k < |items| && AddressFits(base, items, k) => BlockImage(base, items, k))
  }

  /** All blocks, one after the other. */
  function Image(base: int, items: seq<Item>): Bytes
    requires AllFit(base, items)
  {
    JoinFirst(BlockImages(base, items), |items|)
  }

  // ----- The builder's addresses -----

  lemma {:induction false} OffsetsAreUnits(items: seq<Item>, i: nat)
    requires i <= |items|
    ensures BlockOffset(items, i) == 16 * Units(items, i)
  {
    if i == 0 {
    } else {
      OffsetsAreUnits(items, i - 1);
    }
  }

  lemma {:induction false} DataStarts(base: int, items: seq<Item>, i: nat)
    requires i <= |items|
    ensures DataStart(base, items, i) == PayloadAddress(base, items, i)
  {
    if i == 0 {
    } else {
      DataStarts(base, items, i - 1);
      if !items[i - 1].packet.noData {
        AlignedFrom(base, PayloadEnd(items, i - 1) + items[i - 1].packet.payloadSize);
      }
    }
  }

  lemma AlignedFrom(base: int, x: nat)
    ensures NextMultiple(base, base + 0x10000 + x) == base + 0x10000 + Align16(x)
  {
    var at, r := base + 0x10000 + x, base + 0x10000 + Align16(x);
    assert at <= r < at + 16 && (r - base) % 16 == 0;
    OneMultiple(NextMultiple(base, at) - base, r - base);
  }

  lemma OneMultiple(a: int, b: int)
    requires a % 16 == 0 && b % 16 == 0 && -16 < a - b < 16
    ensures a == b
  {}

  // ----- One block -----

  lemma FlattenFour(a: Quad, b: Quad, c: Quad, d: Quad)
    ensures Flatten([a, b, c, d]) == a + b + c + d
  {
    FlattenTwo(a, b);
    FlattenTwo(c, d);
    FlattenAppend([a, b], [c, d]);
    assert [a, b] + [c, d] == [a, b, c, d];
  }

  lemma FlattenTwo(a: Quad, b: Quad)
    ensures Flatten([a, b]) == a + b
  {
    FlattenOne(a);
    FlattenOne(b);
    FlattenAppend([a], [b]);
    assert [a] + [b] == [a, b];
  }

  lemma FlattenOne(a: Quad)
    ensures Flatten([a]) == a
  {
    assert [a][..0] == [];
    var nothing: Bytes := [];
    assert Flatten([a]) == nothing + a;
  }

  function Pair(a: Bytes, b: Bytes): Bytes {
    a + b
  }

  lemma FlattenEight(q: seq<Quad>)
    requires |q| == 8
    ensures Flatten(q) == Pair(q[0], q[1]) + Pair(q[2], q[3]) + Pair(q[4], q[5]) + Pair(q[6], q[7])
  {
    FlattenFour(q[0], q[1], q[2], q[3]);
    FlattenFour(q[4], q[5], q[6], q[7]);
    FlattenAppend([q[0], q[1], q[2], q[3]], [q[4], q[5], q[6], q[7]]);
    assert [q[0], q[1], q[2], q[3]] + [q[4], q[5], q[6], q[7]] == q;
  }

  /** The CIP quadlets as built are the CIP bytes. */
  lemma CipQuads(p: Packet)
    ensures IsWord(BuildCipQ0(p.header0)) && IsWord(BuildCipQ1(p.header1))
    ensures BigQuad(BuildCipQ0(p.header0)) + BigQuad(BuildCipQ1(p.header1)) == CipBytes(p)
  {
    CipQ0RoundTrip(p.header0);
    CipQ1RoundTrip(p.header1);
    Q0Bytes(p.header0);
    Q1Bytes(p.header1);
  }

  lemma BytesOf(a: int, b: int, c: int, d: int)
    requires 0 <= a < 256 && 0 <= b < 256 && 0 <= c < 256 && 0 <= d < 256
    ensures var w := a * 0x100_0000 + b * 0x1_0000 + c * 0x100 + d;
            IsWord(w) && BigQuad(w) == [a, b, c, d]
  {
    LowDigits(a * 0x1_0000 + b * 0x100 + c, d, 256);
    LowDigits(a * 0x100 + b, c * 256 + d, 0x1_0000);
    LowDigits(a, b * 0x1_0000 + c * 256 + d, 0x100_0000);
    LowDigits(a * 0x100 + b, c, 256);
    LowDigits(a, b, 256);
  }

  lemma LowDigits(high: int, low: int, b: int)
    requires 0 <= low < b
    ensures (high * b + low) / b == high && (high * b + low) % b == low
  {
    DivUnique(high * b + low, b, high);
  }

  lemma Q0Bytes(q: Q0)
    ensures IsWord(BuildCipQ0(q))
    ensures BigQuad(BuildCipQ0(q))
         == [q.sid % 64, q.dbs % 256, (q.fn % 4) * 64 + (q.qpc % 8) * 8 + (q.sph % 2) * 4 + q.rsv % 4, q.dbc % 256]
  {
    var c := (q.fn % 4) * 64 + (q.qpc % 8) * 8 + (q.sph % 2) * 4 + q.rsv % 4;
    BytesOf(q.sid % 64, q.dbs % 256, c, q.dbc % 256);
    assert BuildCipQ0(q) == (q.sid % 64) * 0x100_0000 + (q.dbs % 256) * 0x1_0000 + c * 0x100 + q.dbc % 256;
  }

  lemma Q1Bytes(r: Q1)
    ensures IsWord(BuildCipQ1(r))
    ensures BigQuad(BuildCipQ1(r)) == [128 + r.fmt % 64, r.fdf % 256, r.syt / 256 % 256, r.syt % 256]
  {
    BytesOf(128 + r.fmt % 64, r.fdf % 256, r.syt / 256 % 256, r.syt % 256);
    LowSixteen(r.syt);
  }

  lemma LowSixteen(x: int)
    ensures x % 0x1_0000 == (x / 256 % 256) * 256 + x % 256
  {
    ModSplit(x, 256, 256);
  }

  lemma NoDataBlock(d: Descriptor, p: Packet, pointer: int)
    requires d.OutputLastImmediate? && d.q0 == BuildCipQ0(p.header0) && d.q1 == BuildCipQ1(p.header1)
    requires d.Packable() && BranchPointer(d.branchAddress, d.branchZ) == pointer
    ensures IsWord(pointer) && IsWord(LastControl(2, d.irq, 8))
    ensures Flatten(d.Quads())
         == LittleEndian(LastControl(2, d.irq, 8)) + LittleEndian(0) + LittleEndian(pointer) + LittleEndian(0)
            + CipBytes(p) + Zero8()
  {
    CipQuads(p);
    FlattenEight(d.Quads());
    assert LittleQuad(0) + LittleQuad(0) == Zero8();
  }

  lemma MoreBlock(d: Descriptor, p: Packet)
    requires d.OutputMoreImmediate? && d.q0 == BuildCipQ0(p.header0) && d.q1 == BuildCipQ1(p.header1)
    requires d.Packable()
    ensures Flatten(d.Quads())
         == [8, 0, 0, 2] + LittleEndian(0) + LittleEndian(0) + LittleEndian(0) + CipBytes(p) + Zero8()
  {
    CipQuads(p);
    FlattenEight(d.Quads());
    assert LittleQuad(0) + LittleQuad(0) == Zero8();
    assert d.Quads()[0] == [8, 0, 0, 2];
  }

  lemma LastBlock(d: Descriptor, pointer: int)
    requires d.OutputLast? && d.Packable() && BranchPointer(d.branchAddress, d.branchZ) == pointer
    ensures IsWord(pointer) && IsWord(LastControl(0, d.irq, d.reqCount)) && IsWord(d.dataAddress)
    ensures Flatten(d.Quads())
         == LittleEndian(LastControl(0, d.irq, d.reqCount)) + LittleEndian(d.dataAddress) + LittleEndian(pointer)
            + LittleEndian(0)
  {
    var q := d.Quads();
    FlattenFour(q[0], q[1], q[2], q[3]);
  }

  lemma PointerIsRing(base: int, items: seq<Item>, i: nat)
    requires i < |items|
    ensures var next := (i + 1) % |items|;
            BranchPointer(BlockAddress(base, items, next), UnitsOf(items[next])) == RingPointer(base, items, i)
  {
    SuccIsMod(i, |items|);
    OffsetsAreUnits(items, Succ(i, |items|));
  }

  lemma LinkedImage(base: int, items: seq<Item>, i: nat)
    requires i < |items|
    ensures ItemPacks(base, items, i) <==> AddressFits(base, items, i)
    ensures AddressFits(base, items, i) ==> Flatten(LinkedQuads(base, items, i)) == BlockImage(base, items, i)
  {
    DataStarts(base, items, i);
    LinkedPackable(base, items, i);
    if AddressFits(base, items, i) {
      LinkedImageFits(base, items, i);
    }
  }

  lemma LinkedImageFits(base: int, items: seq<Item>, i: nat)
    requires i < |items| && AddressFits(base, items, i) && BlockPackable(Linked(base, items, i))
    requires DataStart(base, items, i) == PayloadAddress(base, items, i)
    ensures Flatten(LinkedQuads(base, items, i)) == BlockImage(base, items, i)
  {
    var ds, p, pointer := Linked(base, items, i).descriptors, items[i].packet, RingPointer(base, items, i);
    PointerIsRing(base, items, i);
    assert ds[0] in ds;
    if p.noData {
      OneDescriptor(ds);
      NoDataBlock(ds[0], p, pointer);
    } else {
      TwoDescriptors(ds);
      MoreBlock(ds[0], p);
      LastBlock(ds[1], pointer);
      FlattenAppend(ds[0].Quads(), ds[1].Quads());
    }
  }

  lemma OneDescriptor(ds: seq<Descriptor>)
    requires |ds| == 1 && forall d :: d in ds ==> d.Packable()
    ensures ds[0].Packable() && BlockQuads(ds) == ds[0].Quads()
  {
    assert ds[0] in ds && ds[..0] == [];
    assert BlockQuads(ds) == [] + ds[0].Quads();
  }

  // ----- The whole image -----

  lemma {:induction false} FlatIsJoined(parts: seq<seq<Quad>>, images: seq<Bytes>, i: nat)
    requires i <= |images| == |parts| && forall k: nat :: k < |parts| ==> Flatten(parts[k]) == images[k]
    ensures Flatten(Concat(parts[..i])) == JoinFirst(images, i)
  {
    if i == 0 {
    } else {
      FlatIsJoined(parts, images, i - 1);
      assert parts[..i][..i - 1] == parts[..i - 1];
      FlattenAppend(Concat(parts[..i - 1]), parts[i - 1]);
    }
  }

  lemma PartImage(base: int, items: seq<Item>, k: nat)
    requires k < |items| && AddressFits(base, items, k)
    ensures Flatten(Parts(base, items)[k]) == BlockImage(base, items, k)
  {
    LinkedImage(base, items, k);
    assert Parts(base, items)[k] == LinkedQuads(base, items, k);
  }

  lemma ImageOfProgram(base: int, items: seq<Item>)
    requires AllFit(base, items)
    ensures Program(base, items) == Image(base, items)
  {
    var parts, images := Parts(base, items), BlockImages(base, items);
    forall k: nat | k < |items|
      ensures Flatten(parts[k]) == images[k]
    {
      assert AddressFits(base, items, k);
      PartImage(base, items, k);
    }
    FlatIsJoined(parts, images, |items|);
    assert parts[..|items|] == parts;
  }

  /** What the builder returns, byte for byte: the image when every payload address fits 32 bits, and only then. */
  lemma ProgramIsImage(base: int, items: seq<Item>)
    ensures Packs(base, items) <==> AllFit(base, items)
    ensures AllFit(base, items) ==> Program(base, items) == Image(base, items)
  {
    forall k: nat | k < |items|
      ensures ItemPacks(base, items, k) <==> AddressFits(base, items, k)
    {
      LinkedImage(base, items, k);
    }
    if AllFit(base, items) {
      ImageOfProgram(base, items);
    }
  }
}
