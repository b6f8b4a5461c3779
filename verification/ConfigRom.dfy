/** The configuration ROM directory walk (section 7.5 of IEEE 1212-2001). One endianness is fixed
    as a parameter: the two readers split block headers differently. */
module ConfigRom {
  import opened Arith
  import opened ByteStrings
  import opened Crc16
  import opened Options

  type Rom = Bytes

  datatype Endian = Big | Little

  const UNITS_BASE := 0xFFFF_F000_0000
  const CSR_OFFSET := 1
  const LEAF_OFFSET := 2
  const DIR_OFFSET := 3

  datatype Entry = Entry(
    offset: int, raw: nat, entryType: nat, keyId: nat, value: nat,
    resolvedUnits: Option<int>, target: Option<int>)

  datatype Directory = Directory(start: int, length: nat, crcHeader: nat, crcCalc: Word16, entries: seq<Entry>)
  datatype Leaf = Leaf(start: int, length: nat, crcHeader: nat, crcCalc: Word16, data: Rom)

  // ----- What the bytes say -----

  /** The quadlet reader accepts an offset inside the bytes, or one that counts back from their end. */
  predicate InBuffer(rom: Rom, off: int) {
    (0 <= off && off + 4 <= |rom|) || (-|rom| <= off && off + 4 <= 0)
  }

  function Read32(rom: Rom, off: int, e: Endian): (r: nat)
    requires InBuffer(rom, off)
    ensures r < 0x1_0000_0000
  {
    var at := if off < 0 then off + |rom| else off;
    var a: nat, b: nat, c: nat, d: nat := rom[at], rom[at + 1], rom[at + 2], rom[at + 3];
    if e.Big? then ((a * 256 + b) * 256 + c) * 256 + d else ((d * 256 + c) * 256 + b) * 256 + a
  }

  /** Length field of a directory or leaf header. */
  function BlockLength(rom: Rom, off: int, e: Endian): nat
    requires InBuffer(rom, off)
  {
    if e.Little? then Read32(rom, off, e) / 0x1_0000 else Read32(rom, off, e) % 0x1_0000
  }

  function BlockCrc(rom: Rom, off: int, e: Endian): nat
    requires InBuffer(rom, off)
  {
    if e.Little? then Read32(rom, off, e) % 0x1_0000 else Read32(rom, off, e) / 0x1_0000
  }

  /** Offset of quadlet i behind a header. */
  function QuadletOffset(off: int, i: nat): int {
    off + 4 * (i + 1)
  }

  /** Where the quadlets of a block may end: a block that counts back from the end runs on from the start of
      the ROM only when no quadlet straddles the two. */
  function BlockLimit(rom: Rom, off: int): int {
    if off < 0 && off % 4 != 0 then 0 else |rom|
  }

  /** The header and every quadlet that it announces can be read. */
  predicate Parses(rom: Rom, off: int, e: Endian) {
    InBuffer(rom, off) && off + 4 + 4 * BlockLength(rom, off, e) <= BlockLimit(rom, off)
  }

  lemma QuadletInBuffer(rom: Rom, off: int, i: nat)
    requires InBuffer(rom, off) && off + 4 + 4 * i <= BlockLimit(rom, off)
    ensures InBuffer(rom, QuadletOffset(off, i)) <==> QuadletOffset(off, i) + 4 <= BlockLimit(rom, off)
  {
    assert off % 4 == QuadletOffset(off, i) % 4;
  }

  lemma ParsesEach(rom: Rom, off: int, e: Endian)
    requires Parses(rom, off, e)
    ensures forall i: nat :: i < BlockLength(rom, off, e) ==> InBuffer(rom, QuadletOffset(off, i))
  {
    forall i: nat | i < BlockLength(rom, off, e)
      ensures InBuffer(rom, QuadletOffset(off, i))
    {
      QuadletInBuffer(rom, off, i);
    }
  }

  /** A block that lies inside the ROM. */
  predicate Readable(rom: Rom, off: int, e: Endian) {
    0 <= off && Parses(rom, off, e)
  }

  function Quadlets(rom: Rom, off: int, e: Endian): seq<nat>
    requires Parses(rom, off, e)
  {
    ParsesEach(rom, off, e);
    seq(BlockLength(rom, off, e), i requires 0 <= i < BlockLength(rom, off, e) => Read32(rom, QuadletOffset(off, i), e))
  }

  /** A quadlet as bits, most significant first. */
  function BitsOf(q: nat, n: nat): Bits {
    if n == 0 then [] else BitsOf(q / 2, n - 1) + [q % 2 == 1]
  }

  lemma {:induction false} BitsOfLength(q: nat, n: nat)
    ensures |BitsOf(q, n)| == n
  {
    if n == 0 {
    } else {
      BitsOfLength(q / 2, n - 1);
    }
  }

  function QuadletBits(q: nat): Quadlet {
    BitsOfLength(q, 32);
    BitsOf(q, 32)
  }

  function BlockCrcCalc(quadlets: seq<nat>): Word16 {
    Divide(Zeros(16), Stream(seq(|quadlets|, i requires 0 <= i < |quadlets| => QuadletBits(quadlets[i]))))
  }

  /** Entry i of the directory at an offset; leaf and directory targets are relative to the entry itself. */
  function EntryAt(off: int, i: nat, raw: nat): Entry {
    var at := QuadletOffset(off, i);
    var entryType, keyId, value := raw / 0x4000_0000 % 4, raw / 0x100_0000 % 64, raw % 0x100_0000;
    Entry(at, raw, entryType, keyId, value,
          if entryType == CSR_OFFSET then Some(UNITS_BASE + 4 * value) else None,
          if entryType == LEAF_OFFSET || entryType == DIR_OFFSET then Some(at + 4 * value) else None)
  }

  function EntriesAt(rom: Rom, off: int, e: Endian): (r: seq<Entry>)
    requires Parses(rom, off, e)
  {
    var qs := Quadlets(rom, off, e);
    seq(|qs|, i requires 0 <= i < |qs| => EntryAt(off, i, qs[i]))
  }

  /** A block as read: the fields of its header, and the checksum of its quadlets. */
  datatype RawBlock = RawBlock(length: nat, crcHeader: nat, crcCalc: Word16, quadlets: seq<nat>)

  function BlockAt(rom: Rom, off: int, e: Endian): RawBlock
    requires Parses(rom, off, e)
  {
    var qs := Quadlets(rom, off, e);
    RawBlock(BlockLength(rom, off, e), BlockCrc(rom, off, e), BlockCrcCalc(qs), qs)
  }

  function DirectoryAt(rom: Rom, off: int, e: Endian): Directory
    requires Parses(rom, off, e)
  {
    var b := BlockAt(rom, off, e);
    Directory(off, b.length, b.crcHeader, b.crcCalc, EntriesAt(rom, off, e))
  }

  /** The bytes between two offsets, each counted back from the end when negative and cut to the ROM. */
  function Slice(rom: Rom, from: int, to: int): Rom {
    var lo, hi := SliceIndex(rom, from), SliceIndex(rom, to);
    if lo < hi then rom[lo..hi] else []
  }

  function SliceIndex(rom: Rom, at: int): (i: nat)
    ensures i <= |rom|
  {
    if at < 0 then Max(0, at + |rom|) else Min(at, |rom|)
  }

  function LeafAt(rom: Rom, off: int, e: Endian): Leaf
    requires Parses(rom, off, e)
  {
    var b := BlockAt(rom, off, e);
    Leaf(off, b.length, b.crcHeader, b.crcCalc, Slice(rom, off + 4, off + 4 + 4 * b.length))
  }

  /** The data of a leaf inside the ROM are the bytes of its quadlets. */
  lemma LeafData(rom: Rom, off: int, e: Endian)
    requires Readable(rom, off, e)
    ensures LeafAt(rom, off, e).data == rom[off + 4..off + 4 + 4 * BlockLength(rom, off, e)]
  {}

  /** The in-bounds offset, if any, that an entry of the given type points at. */
  function Hit(rom: Rom, x: Entry, entryType: nat): set<int> {
    if x.entryType == entryType && x.target.Some? && 0 <= x.target.value < |rom| then {x.target.value} else {}
  }

  /** The in-bounds offsets that entries of one type point at. */
  function TargetsOf(rom: Rom, es: seq<Entry>, entryType: nat): set<int> {
    if es == [] then {} else TargetsOf(rom, es[..|es| - 1], entryType) + Hit(rom, es[|es| - 1], entryType)
  }

  /** What a readable directory points at; nothing for an unreadable one. */
  function Targets(rom: Rom, d: int, e: Endian, entryType: nat): set<int> {
    if Readable(rom, d, e) then TargetsOf(rom, EntriesAt(rom, d, e), entryType) else {}
  }

  // ----- Reachability -----

  /** A chain of directories, each readable and pointing at the next. */
  ghost predicate IsPath(rom: Rom, e: Endian, p: seq<int>) {
    |p| > 0 && forall i :: 0 <= i < |p| - 1 ==> p[i + 1] in Targets(rom, p[i], e, DIR_OFFSET)
  }

  ghost predicate Reachable(rom: Rom, e: Endian, root: int, x: int) {
    exists p :: IsPath(rom, e, p) && p[0] == root && p[|p| - 1] == x
  }

  lemma {:induction false} TargetIsEntry(rom: Rom, es: seq<Entry>, entryType: nat, t: int) returns (k: nat)
    requires t in TargetsOf(rom, es, entryType)
    ensures k < |es| && es[k].entryType == entryType && es[k].target == Some(t) && 0 <= t < |rom|
  {
    var n := |es| - 1;
    if t in TargetsOf(rom, es[..n], entryType) {
      k := TargetIsEntry(rom, es[..n], entryType, t);
    } else {
      k := n;
    }
  }

  lemma {:induction false} EntryIsTarget(rom: Rom, es: seq<Entry>, entryType: nat, k: nat)
    requires k < |es| && es[k].entryType == entryType && es[k].target.Some? && 0 <= es[k].target.value < |rom|
    ensures es[k].target.value in TargetsOf(rom, es, entryType)
  {
    if k == |es| - 1 {
    } else {
      EntryIsTarget(rom, es[..|es| - 1], entryType, k);
    }
  }

  /** The targets of a readable directory, entry by entry: the low 24 bits count quadlets from the entry itself. */
  lemma TargetsMeaning(rom: Rom, d: int, e: Endian, entryType: nat, t: int)
    requires Readable(rom, d, e) && (entryType == LEAF_OFFSET || entryType == DIR_OFFSET)
    ensures t in Targets(rom, d, e, entryType) <==>
            && 0 <= t < |rom|
            && exists k :: 0 <= k < BlockLength(rom, d, e)
                 && RawPointsAt(Quadlets(rom, d, e)[k], QuadletOffset(d, k), entryType, t)
  {
    var qs := Quadlets(rom, d, e);
    if t in Targets(rom, d, e, entryType) {
      var k := TargetIsPointed(rom, d, e, entryType, t);
    }
    if 0 <= t < |rom| && exists k :: 0 <= k < |qs| && RawPointsAt(qs[k], QuadletOffset(d, k), entryType, t) {
      var k :| 0 <= k < |qs| && RawPointsAt(qs[k], QuadletOffset(d, k), entryType, t);
      PointedIsTarget(rom, d, e, entryType, t, k);
    }
  }

  lemma TargetIsPointed(rom: Rom, d: int, e: Endian, entryType: nat, t: int) returns (k: nat)
    requires Readable(rom, d, e) && t in Targets(rom, d, e, entryType)
    ensures 0 <= t < |rom| && k < |Quadlets(rom, d, e)|
    ensures RawPointsAt(Quadlets(rom, d, e)[k], QuadletOffset(d, k), entryType, t)
  {
    k := TargetIsEntry(rom, EntriesAt(rom, d, e), entryType, t);
    assert EntriesAt(rom, d, e)[k] == EntryAt(d, k, Quadlets(rom, d, e)[k]);
  }

  lemma PointedIsTarget(rom: Rom, d: int, e: Endian, entryType: nat, t: int, k: nat)
    requires Readable(rom, d, e) && (entryType == LEAF_OFFSET || entryType == DIR_OFFSET)
    requires 0 <= t < |rom| && k < |Quadlets(rom, d, e)|
    requires RawPointsAt(Quadlets(rom, d, e)[k], QuadletOffset(d, k), entryType, t)
    ensures t in Targets(rom, d, e, entryType)
  {
    assert EntriesAt(rom, d, e)[k] == EntryAt(d, k, Quadlets(rom, d, e)[k]);
    EntryIsTarget(rom, EntriesAt(rom, d, e), entryType, k);
  }

  predicate RawPointsAt(raw: nat, at: int, entryType: nat, t: int) {
    raw / 0x4000_0000 % 4 == entryType && t == at + 4 * (raw % 0x100_0000)
  }

  /** Every followed edge goes strictly forward from its directory. */
  lemma EdgesGoForward(rom: Rom, d: int, e: Endian, entryType: nat, t: int)
    requires t in Targets(rom, d, e, entryType)
    ensures t > d
  {
    var k := TargetIsEntry(rom, EntriesAt(rom, d, e), entryType, t);
    assert EntriesAt(rom, d, e)[k] == EntryAt(d, k, Quadlets(rom, d, e)[k]);
  }

  lemma PathPrefix(rom: Rom, e: Endian, p: seq<int>)
    requires IsPath(rom, e, p) && |p| > 1
    ensures IsPath(rom, e, p[..|p| - 1])
    ensures p[|p| - 1] in Targets(rom, p[|p| - 2], e, DIR_OFFSET)
  {
    var q := p[..|p| - 1];
    forall i | 0 <= i < |q| - 1
      ensures q[i + 1] in Targets(rom, q[i], e, DIR_OFFSET)
    {
      assert q[i] == p[i] && q[i + 1] == p[i + 1];
    }
    var i := |p| - 2;
    assert p[i + 1] in Targets(rom, p[i], e, DIR_OFFSET);
  }

  /** So a chain of n edges ends at least n bytes further on, and no chain is longer than the ROM. */
  lemma {:induction false} PathsGoForward(rom: Rom, e: Endian, p: seq<int>)
    requires IsPath(rom, e, p)
    ensures p[|p| - 1] >= p[0] + |p| - 1
  {
    if |p| == 1 {
    } else {
      PathPrefix(rom, e, p);
      PathsGoForward(rom, e, p[..|p| - 1]);
      EdgesGoForward(rom, p[|p| - 2], e, DIR_OFFSET, p[|p| - 1]);
    }
  }

  lemma ReachableStep(rom: Rom, e: Endian, root: int, d: int, t: int)
    requires Reachable(rom, e, root, d) && t in Targets(rom, d, e, DIR_OFFSET)
    ensures Reachable(rom, e, root, t)
  {
    var p :| IsPath(rom, e, p) && p[0] == root && p[|p| - 1] == d;
    var q := p + [t];
    forall i | 0 <= i < |q| - 1
      ensures q[i + 1] in Targets(rom, q[i], e, DIR_OFFSET)
    {
      if i < |p| - 1 {
        assert p[i + 1] in Targets(rom, p[i], e, DIR_OFFSET);
      }
    }
    assert IsPath(rom, e, q) && q[0] == root && q[|q| - 1] == t;
  }

  lemma ReachableRoot(rom: Rom, e: Endian, root: int)
    ensures Reachable(rom, e, root, root)
  {
    assert IsPath(rom, e, [root]) && [root][0] == root;
  }

  /** A set that holds the root and the targets of its members holds all that is reachable. */
  lemma {:induction false} ClosedHoldsPath(rom: Rom, e: Endian, closed: set<int>, p: seq<int>)
    requires IsPath(rom, e, p) && p[0] in closed
    requires forall d: int :: d in closed ==> Targets(rom, d, e, DIR_OFFSET) <= closed
    ensures p[|p| - 1] in closed
  {
    if |p| == 1 {
    } else {
      PathPrefix(rom, e, p);
      ClosedHoldsPath(rom, e, closed, p[..|p| - 1]);
    }
  }

  // ----- Parsing -----

  /** Reads the quadlets that a block header announces, with their bits; false past the end of the ROM. */
  method ReadQuadlets(rom: Rom, off: int, e: Endian, length: nat)
    returns (ok: bool, quadlets: seq<nat>, bits: seq<Quadlet>)
    requires InBuffer(rom, off) && length == BlockLength(rom, off, e)
    ensures ok <==> Parses(rom, off, e)
    ensures ok ==> quadlets == Quadlets(rom, off, e)
    ensures |bits| == |quadlets| && forall k :: 0 <= k < |bits| ==> bits[k] == QuadletBits(quadlets[k])
  {
    quadlets, bits := [], [];
    for i := 0 to length
      invariant off + 4 + 4 * i <= BlockLimit(rom, off)
      invariant |quadlets| == i && forall k: nat :: k < i ==> QuadletIs(rom, off, e, k, quadlets[k])
      invariant |bits| == i && forall k :: 0 <= k < i ==> bits[k] == QuadletBits(quadlets[k])
    {
      QuadletInBuffer(rom, off, i);
      if !InBuffer(rom, QuadletOffset(off, i)) {
        return false, quadlets, bits;
      }
      var q := Read32(rom, QuadletOffset(off, i), e);
      quadlets, bits := quadlets + [q], bits + [QuadletBits(q)];
    }
    ok := true;
    QuadletsGathered(rom, off, e, quadlets);
  }

  lemma QuadletsGathered(rom: Rom, off: int, e: Endian, quadlets: seq<nat>)
    requires Parses(rom, off, e) && |quadlets| == BlockLength(rom, off, e)
    requires forall k: nat :: k < |quadlets| ==> QuadletIs(rom, off, e, k, quadlets[k])
    ensures quadlets == Quadlets(rom, off, e)
  {
    forall k: nat | k < |quadlets|
      ensures quadlets[k] == Quadlets(rom, off, e)[k]
    {
      assert QuadletIs(rom, off, e, k, quadlets[k]);
    }
  }

  /** Quadlet k behind a header. */
  predicate QuadletIs(rom: Rom, off: int, e: Endian, k: nat, q: nat) {
    InBuffer(rom, QuadletOffset(off, k)) && q == Read32(rom, QuadletOffset(off, k), e)
  }

  method DecodeEntries(off: int, quadlets: seq<nat>) returns (entries: seq<Entry>)
    ensures |entries| == |quadlets| && forall k :: 0 <= k < |entries| ==> entries[k] == EntryAt(off, k, quadlets[k])
  {
    entries := [];
    for i := 0 to |quadlets|
      invariant |entries| == i && forall k :: 0 <= k < i ==> entries[k] == EntryAt(off, k, quadlets[k])
    {
      entries := entries + [EntryAt(off, i, quadlets[i])];
    }
  }

  /** The checksum of the quadlets read. */
  method ChecksumOf(quadlets: seq<nat>, bits: seq<Quadlet>) returns (crc: Word16)
    requires |bits| == |quadlets| && forall k :: 0 <= k < |bits| ==> bits[k] == QuadletBits(quadlets[k])
    ensures crc == BlockCrcCalc(quadlets)
  {
    assert bits == seq(|quadlets|, i requires 0 <= i < |quadlets| => QuadletBits(quadlets[i]));
    crc := OverQuadlets(bits);
  }

  /** Reads the header and the quadlets of a block, with their checksum; nothing when the reader runs off the bytes. */
  method ReadBlock(rom: Rom, off: int, e: Endian) returns (block: Option<RawBlock>)
    ensures block == if Parses(rom, off, e) then Some(BlockAt(rom, off, e)) else None
  {
    if !InBuffer(rom, off) {
      return None;
    }
    var length := BlockLength(rom, off, e);
    var ok, quadlets, bits := ReadQuadlets(rom, off, e, length);
    if !ok {
      return None;
    }
    var crc := ChecksumOf(quadlets, bits);
    block := Some(RawBlock(length, BlockCrc(rom, off, e), crc, quadlets));
  }

  /** Reads a directory, or nothing when the reader runs off the bytes. */
  method ParseDirectory(rom: Rom, off: int, e: Endian) returns (d: Option<Directory>)
    ensures d == if Parses(rom, off, e) then Some(DirectoryAt(rom, off, e)) else None
  {
    var block := ReadBlock(rom, off, e);
    if block.None? {
      return None;
    }
    var b := block.value;
    var entries := DecodeEntries(off, b.quadlets);
    assert entries == EntriesAt(rom, off, e);
    d := Some(Directory(off, b.length, b.crcHeader, b.crcCalc, entries));
  }

  /** Reads a leaf, or nothing when the reader runs off the bytes. */
  method ParseLeaf(rom: Rom, off: int, e: Endian) returns (leaf: Option<Leaf>)
    ensures leaf == if Parses(rom, off, e) then Some(LeafAt(rom, off, e)) else None
  {
    var block := ReadBlock(rom, off, e);
    if block.None? {
      return None;
    }
    var b := block.value;
    var payload := Slice(rom, off + 4, off + 4 + 4 * b.length);
    leaf := Some(Leaf(off, b.length, b.crcHeader, b.crcCalc, payload));
  }

  // ----- The walk -----

  datatype Walk = Walked(dirs: map<int, Directory>, leaves: map<int, Leaf>) | Raised

  /** Leaves recorded so far: each is readable and parsed from its own offset. */
  ghost predicate LeavesParsed(rom: Rom, e: Endian, leaves: map<int, Leaf>) {
    forall t :: t in leaves ==> Readable(rom, t, e) && leaves[t] == LeafAt(rom, t, e)
  }

  ghost predicate DirsParsed(rom: Rom, e: Endian, dirs: map<int, Directory>) {
    forall d :: d in dirs ==> Readable(rom, d, e) && dirs[d] == DirectoryAt(rom, d, e)
  }

  /** The parse order names every directory once. */
  ghost predicate ListsOnce(order: seq<int>, dirs: set<int>) {
    && (forall d: int :: d in order <==> d in dirs)
    && (forall i, j :: 0 <= i < j < |order| ==> order[i] != order[j])
  }

  /** Reads a leaf not seen before and records it; false when it cannot be read. */
  method RecordLeaf(rom: Rom, e: Endian, t: int, leaves: map<int, Leaf>) returns (ok: bool, leaves': map<int, Leaf>)
    requires LeavesParsed(rom, e, leaves) && t >= 0
    ensures LeavesParsed(rom, e, leaves') && leaves'.Keys == if ok then leaves.Keys + {t} else leaves.Keys
    ensures !ok ==> !Readable(rom, t, e)
  {
    ok, leaves' := true, leaves;
    if t !in leaves {
      var leaf := ParseLeaf(rom, t, e);
      if leaf.None? {
        ok := false;
      } else {
        leaves' := leaves[t := leaf.value];
      }
    }
  }

  /** One directory into the record. */
  lemma RecordDirectory(rom: Rom, e: Endian, dirs: map<int, Directory>, order: seq<int>, off: int)
    requires DirsParsed(rom, e, dirs) && ListsOnce(order, dirs.Keys) && Readable(rom, off, e) && off !in dirs
    ensures DirsParsed(rom, e, dirs[off := DirectoryAt(rom, off, e)])
    ensures ListsOnce(order + [off], dirs[off := DirectoryAt(rom, off, e)].Keys)
    ensures dirs[off := DirectoryAt(rom, off, e)].Keys == dirs.Keys + {off}
  {}

  lemma TargetsStep(rom: Rom, es: seq<Entry>, i: nat, entryType: nat)
    requires i < |es|
    ensures TargetsOf(rom, es[..i + 1], entryType) == TargetsOf(rom, es[..i], entryType) + Hit(rom, es[i], entryType)
  {
    assert es[..i + 1][..i] == es[..i];
  }

  function Elements(s: seq<int>): set<int> {
    set x | x in s
  }

  /** One entry: a leaf target is recorded, a directory target is listed. */
  method ScanEntry(rom: Rom, e: Endian, x: Entry, added: seq<int>, leaves: map<int, Leaf>)
    returns (bad: Option<int>, added': seq<int>, leaves': map<int, Leaf>)
    requires LeavesParsed(rom, e, leaves)
    ensures bad.Some? ==> bad.value in Hit(rom, x, LEAF_OFFSET) && !Readable(rom, bad.value, e)
    ensures bad.None? ==> LeavesParsed(rom, e, leaves') && leaves'.Keys == leaves.Keys + Hit(rom, x, LEAF_OFFSET)
    ensures bad.None? ==> Elements(added') == Elements(added) + Hit(rom, x, DIR_OFFSET)
  {
    bad, added', leaves' := None, added, leaves;
    if x.target.Some? && 0 <= x.target.value < |rom| {
      var t := x.target.value;
      if x.entryType == LEAF_OFFSET {
        var ok;
        ok, leaves' := RecordLeaf(rom, e, t, leaves);
        if !ok {
          bad := Some(t);
        }
      } else if x.entryType == DIR_OFFSET {
        added' := added + [t];
      }
    }
  }

  /** The entries of one directory: leaves are parsed once each, directory targets are listed for the
      queue. An unreadable leaf raises out of the walk. */
  method ScanEntries(rom: Rom, e: Endian, es: seq<Entry>, leaves: map<int, Leaf>)
    returns (bad: Option<int>, added: seq<int>, leaves': map<int, Leaf>)
    requires LeavesParsed(rom, e, leaves)
    ensures bad.Some? ==> bad.value in TargetsOf(rom, es, LEAF_OFFSET) && !Readable(rom, bad.value, e)
    ensures bad.None? ==> LeavesParsed(rom, e, leaves') && leaves'.Keys == leaves.Keys + TargetsOf(rom, es, LEAF_OFFSET)
    ensures bad.None? ==> Elements(added) == TargetsOf(rom, es, DIR_OFFSET)
  {
    bad, added, leaves' := None, [], leaves;
    for i := 0 to |es|
      invariant LeavesParsed(rom, e, leaves') && leaves'.Keys == leaves.Keys + TargetsOf(rom, es[..i], LEAF_OFFSET)
      invariant Elements(added) == TargetsOf(rom, es[..i], DIR_OFFSET)
    {
      TargetsStep(rom, es, i, LEAF_OFFSET);
      TargetsStep(rom, es, i, DIR_OFFSET);
      bad, added, leaves' := ScanEntry(rom, e, es[i], added, leaves');
      if bad.Some? {
        EntryIsTarget(rom, es, LEAF_OFFSET, i);
        return;
      }
    }
    assert es[..|es|] == es;
    bad := None;
  }

  ghost function Below(n: nat): (r: set<int>)
    ensures forall x: int :: x in r <==> 0 <= x < n
  {
    if n == 0 then {} else Below(n - 1) + {n - 1}
  }

  ghost function Offsets(rom: Rom): set<int> {
    Below(|rom|)
  }

  lemma SeenGrows(rom: Rom, seen: set<int>, off: int)
    requires off in Offsets(rom) && off !in seen
    ensures |Offsets(rom) - (seen + {off})| < |Offsets(rom) - seen|
  {
    assert Offsets(rom) - (seen + {off}) == (Offsets(rom) - seen) - {off};
  }

  lemma SeenAgain(seen: set<int>, off: int)
    ensures off in seen ==> seen + {off} == seen
  {}

  /** What holds between two turns of the walk; `popped` are the offsets taken from the queue so far. */
  ghost predicate Progress(rom: Rom, e: Endian, root: int, queue: seq<int>, popped: set<int>, seen: set<int>,
                           dirs: set<int>, leaves: set<int>) {
    && (forall x :: x in queue || x in popped ==> Reachable(rom, e, root, x))
    && (root in queue || root in popped)
    && seen <= Offsets(rom)
    && (forall x :: x in seen <==> x in popped && 0 <= x && x + 4 <= |rom|)
    && (forall x :: x in dirs <==> x in seen && Readable(rom, x, e))
    && (forall d: int, t: int :: d in dirs && t in Targets(rom, d, e, DIR_OFFSET) ==> t in popped || t in queue)
    && (forall d: int, t: int :: d in dirs && t in Targets(rom, d, e, LEAF_OFFSET) ==> t in leaves)
    && (forall t: int :: t in leaves ==> exists d: int :: d in dirs && t in Targets(rom, d, e, LEAF_OFFSET))
  }

  /** An offset that is already seen, or too close to the end, or not a readable directory, adds nothing. */
  lemma SkipStep(rom: Rom, e: Endian, root: int, queue: seq<int>, popped: set<int>, seen: set<int>,
                 dirs: set<int>, leaves: set<int>)
    requires queue != [] && Progress(rom, e, root, queue, popped, seen, dirs, leaves)
    requires queue[0] in seen || !Readable(rom, queue[0], e)
    ensures var off := queue[0];
            Progress(rom, e, root, queue[1..], popped + {off},
                     if 0 <= off && off + 4 <= |rom| then seen + {off} else seen, dirs, leaves)
  {
    assert forall x :: x in queue ==> x == queue[0] || x in queue[1..];
  }

  lemma ParseStep(rom: Rom, e: Endian, root: int, queue: seq<int>, popped: set<int>, seen: set<int>,
                  dirs: set<int>, leaves: set<int>, added: seq<int>)
    requires queue != [] && Progress(rom, e, root, queue, popped, seen, dirs, leaves)
    requires Readable(rom, queue[0], e)
    requires Elements(added) == Targets(rom, queue[0], e, DIR_OFFSET)
    ensures var off := queue[0];
            Progress(rom, e, root, queue[1..] + added, popped + {off}, seen + {off}, dirs + {off},
                     leaves + Targets(rom, off, e, LEAF_OFFSET))
  {
    var off := queue[0];
    assert forall x :: x in queue ==> x == off || x in queue[1..];
    assert forall t :: t in added <==> t in Elements(added);
    forall t | t in added
      ensures Reachable(rom, e, root, t)
    {
      ReachableStep(rom, e, root, off, t);
    }
  }

  /** When the queue runs dry, the walk has popped exactly what is reachable. */
  lemma PoppedAllReachable(rom: Rom, e: Endian, root: int, popped: set<int>, seen: set<int>,
                           dirs: set<int>, leaves: set<int>)
    requires Progress(rom, e, root, [], popped, seen, dirs, leaves)
    ensures forall d: int :: d in popped <==> Reachable(rom, e, root, d)
  {
    forall d: int | d in popped
      ensures Targets(rom, d, e, DIR_OFFSET) <= popped
    {
      forall t | t in Targets(rom, d, e, DIR_OFFSET)
        ensures t in popped
      {
        assert d in seen && d in dirs;
      }
    }
    forall d: int | Reachable(rom, e, root, d)
      ensures d in popped
    {
      var p :| IsPath(rom, e, p) && p[0] == root && p[|p| - 1] == d;
      ClosedHoldsPath(rom, e, popped, p);
    }
  }

  lemma WalkIsComplete(rom: Rom, e: Endian, root: int, popped: set<int>, seen: set<int>,
                       dirs: set<int>, leaves: set<int>)
    requires Progress(rom, e, root, [], popped, seen, dirs, leaves)
    ensures forall d: int :: d in dirs <==> Reachable(rom, e, root, d) && Readable(rom, d, e)
    ensures forall t: int :: t in leaves <==> LeafReached(rom, e, root, t)
  {
    PoppedAllReachable(rom, e, root, popped, seen, dirs, leaves);
    forall t: int | t in leaves
      ensures LeafReached(rom, e, root, t)
    {
      var d: int :| d in dirs && t in Targets(rom, d, e, LEAF_OFFSET);
      assert Reachable(rom, e, root, d);
    }
  }

  /** An in-bounds leaf target of a readable reachable directory. */
  ghost predicate LeafReached(rom: Rom, e: Endian, root: int, t: int) {
    exists d: int :: Reachable(rom, e, root, d) && t in Targets(rom, d, e, LEAF_OFFSET)
  }

  /** The walk's working state. */
  datatype Work = Work(
    queue: seq<int>, seen: set<int>, dirs: map<int, Directory>, leaves: map<int, Leaf>, order: seq<int>)

  ghost predicate Working(rom: Rom, e: Endian, root: int, w: Work, popped: set<int>) {
    && Progress(rom, e, root, w.queue, popped, w.seen, w.dirs.Keys, w.leaves.Keys)
    && DirsParsed(rom, e, w.dirs) && LeavesParsed(rom, e, w.leaves) && ListsOnce(w.order, w.dirs.Keys)
  }

  /** Passing over an offset that is seen or out of bounds. */
  lemma Skip(rom: Rom, e: Endian, root: int, w: Work, popped: set<int>)
    requires w.queue != [] && Working(rom, e, root, w, popped)
    requires w.queue[0] in w.seen || w.queue[0] < 0 || w.queue[0] + 4 > |rom|
    ensures Working(rom, e, root, w.(queue := w.queue[1..]), popped + {w.queue[0]})
  {
    SkipStep(rom, e, root, w.queue, popped, w.seen, w.dirs.Keys, w.leaves.Keys);
    SeenAgain(w.seen, w.queue[0]);
  }

  /** Visiting an offset that has not been seen: parse it, and scan its entries when it is a directory. */
  method Visit(rom: Rom, e: Endian, root: int, w: Work, ghost popped: set<int>) returns (bad: Option<int>, w': Work)
    requires w.queue != [] && Working(rom, e, root, w, popped)
    requires w.queue[0] !in w.seen && 0 <= w.queue[0] && w.queue[0] + 4 <= |rom|
    ensures bad.Some? ==> LeafReached(rom, e, root, bad.value) && !Readable(rom, bad.value, e)
    ensures bad.None? ==> Working(rom, e, root, w', popped + {w.queue[0]}) && w'.seen == w.seen + {w.queue[0]}
  {
    var off := w.queue[0];
    bad, w' := None, w.(queue := w.queue[1..], seen := w.seen + {off});
    var d := ParseDirectory(rom, off, e);
    if d.None? {
      SkipStep(rom, e, root, w.queue, popped, w.seen, w.dirs.Keys, w.leaves.Keys);
      return;
    }
    var added, leaves;
    bad, added, leaves := ScanEntries(rom, e, d.value.entries, w.leaves);
    if bad.Some? {
      assert bad.value in Targets(rom, off, e, LEAF_OFFSET);
      return;
    }
    ParseStep(rom, e, root, w.queue, popped, w.seen, w.dirs.Keys, w.leaves.Keys, added);
    RecordDirectory(rom, e, w.dirs, w.order, off);
    w' := Work(w.queue[1..] + added, w.seen + {off}, w.dirs[off := d.value], leaves, w.order + [off]);
  }

  /** One turn of the walk: an offset that is seen or out of bounds is passed over, any other visited. */
  method Turn(rom: Rom, e: Endian, root: int, w: Work, ghost popped: set<int>) returns (bad: Option<int>, w': Work)
    requires w.queue != [] && Working(rom, e, root, w, popped)
    ensures bad.Some? ==> LeafReached(rom, e, root, bad.value) && !Readable(rom, bad.value, e)
    ensures bad.None? ==> Working(rom, e, root, w', popped + {w.queue[0]})
    ensures bad.None? ==> |Offsets(rom) - w'.seen| < |Offsets(rom) - w.seen|
                          || (w'.seen == w.seen && |w'.queue| < |w.queue|)
  {
    var off := w.queue[0];
    if off in w.seen || off < 0 || off + 4 > |rom| {
      Skip(rom, e, root, w, popped);
      bad, w' := None, w.(queue := w.queue[1..]);
    } else {
      SeenGrows(rom, w.seen, off);
      bad, w' := Visit(rom, e, root, w, popped);
    }
  }

  /** The walk over every ROM: it raises exactly when some reached leaf cannot be read; otherwise it
      returns exactly the readable reachable directories and exactly the reached leaves, each parsed
      once, from its own offset. */
  method WalkTree(rom: Rom, root: int, e: Endian) returns (r: Walk, order: seq<int>)
    ensures r.Raised? <==> exists t: int :: LeafReached(rom, e, root, t) && !Readable(rom, t, e)
    ensures r.Walked? ==> forall d: int :: d in r.dirs <==> Reachable(rom, e, root, d) && Readable(rom, d, e)
    ensures r.Walked? ==> forall t: int :: t in r.leaves <==> LeafReached(rom, e, root, t)
    ensures r.Walked? ==> DirsParsed(rom, e, r.dirs) && LeavesParsed(rom, e, r.leaves)
    ensures r.Walked? ==> ListsOnce(order, r.dirs.Keys)
  {
    var w := Work([root], {}, map[], map[], []);
    ghost var popped: set<int> := {};
    ReachableRoot(rom, e, root);
    while w.queue != []
      invariant Working(rom, e, root, w, popped)
      decreases |Offsets(rom) - w.seen|, |w.queue|
    {
      ghost var off := w.queue[0];
      var bad;
      bad, w := Turn(rom, e, root, w, popped);
      if bad.Some? {
        return Raised, w.order;
      }
      popped := popped + {off};
    }
    WalkIsComplete(rom, e, root, popped, w.seen, w.dirs.Keys, w.leaves.Keys);
    r, order := Walked(w.dirs, w.leaves), w.order;
  }
}
