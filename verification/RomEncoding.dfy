/** Blocks of a configuration ROM written as bytes, and read back: an encoder of its own for both
    endiannesses, against the readers of the walk. */
module RomEncoding {
  import opened Arith
  import opened ByteStrings
  import opened ConfigRom
  import opened Crc16
  import opened Options

  // ----- The encoder -----

  predicate IsWord(w: nat) {
    w < 0x1_0000_0000
  }

  /** A word as four bytes, the most significant first on a big-endian ROM and last on a little-endian one. */
  function WordBytes(w: nat, e: Endian): (r: Bytes)
    requires IsWord(w)
    ensures |r| == 4
  {
    match e
    case Big => [w / 0x100_0000, w / 0x1_0000 % 256, w / 256 % 256, w % 256]
    case Little => [w % 256, w / 256 % 256, w / 0x1_0000 % 256, w / 0x100_0000]
  }

  /** The header of a block: the CRC above the length on a big-endian ROM, below it on a little-endian one. */
  function Header(crc: nat, length: nat, e: Endian): nat {
    match e
    case Big => crc * 0x1_0000 + length
    case Little => length * 0x1_0000 + crc
  }

  /** The four bytes of a word at an offset of the ROM. */
  predicate HoldsWord(rom: Rom, at: int, w: nat, e: Endian) {
    0 <= at && at + 4 <= |rom| && IsWord(w) && rom[at..at + 4] == WordBytes(w, e)
  }

  /** A block of the ROM at an offset: its header, then its words one after the other. */
  ghost predicate HoldsBlock(rom: Rom, off: int, crc: nat, words: seq<nat>, e: Endian) {
    && crc < 0x1_0000 && |words| < 0x1_0000 && off + 4 + 4 * |words| <= |rom|
    && HoldsWord(rom, off, Header(crc, |words|, e), e)
    && forall i: nat :: i < |words| ==> HoldsWord(rom, off + 4 + 4 * i, words[i], e)
  }

  /** What an entry must say of its word: the type in the top two bits, the key in the next six, the value in the
      rest; an address of 0xFFFFF0000000 + 4 * value for type 1, and a target counted in quadlets from the entry
      itself for types 2 and 3. */
  predicate EntrySays(x: Entry, at: int, raw: nat) {
    && x.offset == at && x.raw == raw
    && raw == x.entryType * 0x4000_0000 + x.keyId * 0x100_0000 + x.value
    && x.entryType < 4 && x.keyId < 64 && x.value < 0x100_0000
    && x.resolvedUnits == (if x.entryType == 1 then Some(0xFFFFF0000000 + 4 * x.value) else None)
    && x.target == (if x.entryType == 2 || x.entryType == 3 then Some(at + 4 * x.value) else None)
  }

  function Pow2(n: nat): (r: nat)
    ensures r > 0
  {
    if n == 0 then 1 else 2 * Pow2(n - 1)
  }

  /** The words as a message, bit 31 of each first. */
  function MessageBits(words: seq<nat>): Bits {
    seq(32 * |words|, j requires 0 <= j < 32 * |words| => words[j / 32] / Pow2(31 - j % 32) % 2 == 1)
  }

  // ----- Reading back what was written -----

  lemma WordReadBack(rom: Rom, off: int, w: nat, e: Endian)
    requires HoldsWord(rom, off, w, e)
    ensures Read32(rom, off, e) == w
  {
    var bytes := rom[off..off + 4];
    assert bytes[0] == rom[off] && bytes[1] == rom[off + 1] && bytes[2] == rom[off + 2] && bytes[3] == rom[off + 3];
    WordDigits(w);
  }

  lemma WordDigits(w: nat)
    requires IsWord(w)
    ensures w == ((w / 0x100_0000 * 256 + w / 0x1_0000 % 256) * 256 + w / 256 % 256) * 256 + w % 256
  {
    DivDiv(w, 256, 256);
    DivDiv(w, 0x1_0000, 256);
  }

  lemma HeaderReadBack(rom: Rom, off: int, crc: nat, words: seq<nat>, e: Endian)
    requires HoldsBlock(rom, off, crc, words, e)
    ensures BlockLength(rom, off, e) == |words| && BlockCrc(rom, off, e) == crc && Readable(rom, off, e)
  {
    HeaderDigits(crc, |words|, e);
    WordReadBack(rom, off, Header(crc, |words|, e), e);
  }

  lemma HeaderDigits(crc: nat, length: nat, e: Endian)
    requires crc < 0x1_0000 && length < 0x1_0000
    ensures var w := Header(crc, length, e);
            && IsWord(w)
            && (e.Big? ==> w / 0x1_0000 == crc && w % 0x1_0000 == length)
            && (e.Little? ==> w / 0x1_0000 == length && w % 0x1_0000 == crc)
  {}

  lemma QuadletsReadBack(rom: Rom, off: int, crc: nat, words: seq<nat>, e: Endian)
    requires HoldsBlock(rom, off, crc, words, e)
    ensures Readable(rom, off, e) && Quadlets(rom, off, e) == words
  {
    HeaderReadBack(rom, off, crc, words, e);
    forall i: nat | i < |words|
      ensures Quadlets(rom, off, e)[i] == words[i]
    {
      assert HoldsWord(rom, off + 4 + 4 * i, words[i], e);
      WordReadBack(rom, off + 4 + 4 * i, words[i], e);
      assert QuadletOffset(off, i) == off + 4 + 4 * i;
    }
  }

  // ----- The message behind the checksum -----

  lemma {:induction false} BitsOfAt(q: nat, n: nat, k: nat)
    requires k < n
    ensures |BitsOf(q, n)| == n
    ensures BitsOf(q, n)[k] <==> q / Pow2(n - 1 - k) % 2 == 1
  {
    BitsOfLength(q, n);
    BitsOfLength(q / 2, n - 1);
    if k == n - 1 {
      assert Pow2(0) == 1;
    } else {
      BitsOfAt(q / 2, n - 1, k);
      DivDiv(q, 2, Pow2(n - 2 - k));
      assert Pow2(n - 1 - k) == 2 * Pow2(n - 2 - k);
    }
  }

  lemma ChecksumMessage(words: seq<nat>)
    ensures BlockCrcCalc(words) == Divide(Zeros(16), MessageBits(words))
  {
    var qs := seq(|words|, i requires 0 <= i < |words| => QuadletBits(words[i]));
    StreamIsQuadlets(qs);
    forall j | 0 <= j < 32 * |words|
      ensures Stream(qs)[j] == MessageBits(words)[j]
    {
      StreamAt(words, qs, j);
    }
    assert Stream(qs) == MessageBits(words);
  }

  lemma StreamAt(words: seq<nat>, qs: seq<Quadlet>, j: nat)
    requires |qs| == |words| && j < 32 * |words| && |Stream(qs)| == 32 * |qs|
    requires forall i :: 0 <= i < |words| ==> qs[i] == QuadletBits(words[i])
    ensures Stream(qs)[j] <==> words[j / 32] / Pow2(31 - j % 32) % 2 == 1
  {
    StreamIsQuadlets(qs);
    var i, k := j / 32, j % 32;
    assert Stream(qs)[32 * i..32 * i + 32][k] == qs[i][k];
    BitsOfAt(words[i], 32, k);
  }

  /** The remainder starts at zero, and a single one leaves the divisor: x^12, x^5 and 1. */
  lemma ChecksumOfOne()
    ensures Divide(Zeros(16), []) == [false, false, false, false, false, false, false, false,
                                      false, false, false, false, false, false, false, false]
    ensures Divide(Zeros(16), [true]) == [false, false, false, true, false, false, false, false,
                                          false, false, true, false, false, false, false, true]
  {
    assert Divide(Zeros(16), [true]) == Divide(BitStep(Zeros(16), true), []);
  }

  // ----- Round trips -----

  lemma BlockReadBack(rom: Rom, off: int, crc: nat, words: seq<nat>, e: Endian)
    requires HoldsBlock(rom, off, crc, words, e)
    ensures Readable(rom, off, e)
    ensures BlockAt(rom, off, e) == RawBlock(|words|, crc, Divide(Zeros(16), MessageBits(words)), words)
  {
    HeaderReadBack(rom, off, crc, words, e);
    QuadletsReadBack(rom, off, crc, words, e);
    ChecksumMessage(words);
  }

  /** A directory written at an offset is read back with its CRC field, its length, every entry with its type,
      key, value, address and target, and the checksum of its words. */
  lemma DirectoryRoundTrip(rom: Rom, off: int, crc: nat, words: seq<nat>, e: Endian)
    requires HoldsBlock(rom, off, crc, words, e)
    ensures Readable(rom, off, e)
    ensures var d := DirectoryAt(rom, off, e);
            && d.start == off && d.length == |words| && d.crcHeader == crc
            && d.crcCalc == Divide(Zeros(16), MessageBits(words))
            && |d.entries| == |words|
            && forall i: nat :: i < |words| ==> EntrySays(d.entries[i], off + 4 + 4 * i, words[i])
  {
    BlockReadBack(rom, off, crc, words, e);
    EntriesReadBack(rom, off, crc, words, e);
  }

  lemma EntriesReadBack(rom: Rom, off: int, crc: nat, words: seq<nat>, e: Endian)
    requires HoldsBlock(rom, off, crc, words, e) && Readable(rom, off, e)
    ensures |EntriesAt(rom, off, e)| == |words|
    ensures forall i: nat :: i < |words| ==> EntrySays(EntriesAt(rom, off, e)[i], off + 4 + 4 * i, words[i])
  {
    QuadletsReadBack(rom, off, crc, words, e);
    forall i: nat | i < |words|
      ensures EntrySays(EntriesAt(rom, off, e)[i], off + 4 + 4 * i, words[i])
    {
      assert HoldsWord(rom, off + 4 + 4 * i, words[i], e);
      EntryReadBack(off, i, words[i]);
    }
  }

  lemma EntryReadBack(off: int, i: nat, raw: nat)
    requires IsWord(raw)
    ensures EntrySays(EntryAt(off, i, raw), off + 4 + 4 * i, raw)
  {
    DivDiv(raw, 0x100_0000, 64);
  }

  /** A leaf written at an offset is read back with its CRC field, its length, the bytes of its words and their
      checksum. */
  lemma LeafRoundTrip(rom: Rom, off: int, crc: nat, words: seq<nat>, e: Endian)
    requires HoldsBlock(rom, off, crc, words, e)
    ensures Readable(rom, off, e)
    ensures LeafAt(rom, off, e)
         == Leaf(off, |words|, crc, Divide(Zeros(16), MessageBits(words)), rom[off + 4..off + 4 + 4 * |words|])
  {
    BlockReadBack(rom, off, crc, words, e);
    HeaderReadBack(rom, off, crc, words, e);
    LeafData(rom, off, e);
  }

  /** And every block that can be read is one that could have been written. */
  lemma ReadableIsWritten(rom: Rom, off: int, e: Endian)
    requires Readable(rom, off, e)
    ensures HoldsBlock(rom, off, BlockCrc(rom, off, e), Quadlets(rom, off, e), e)
  {
    WordWritten(rom, off, e);
    HeaderFields(Read32(rom, off, e), e);
    var words := Quadlets(rom, off, e);
    forall i: nat | i < |words|
      ensures HoldsWord(rom, off + 4 + 4 * i, words[i], e)
    {
      WordWritten(rom, off + 4 + 4 * i, e);
      assert QuadletOffset(off, i) == off + 4 + 4 * i;
    }
  }

  lemma WordWritten(rom: Rom, off: int, e: Endian)
    requires 0 <= off && off + 4 <= |rom|
    ensures HoldsWord(rom, off, Read32(rom, off, e), e)
  {
    var a: nat, b: nat, c: nat, d: nat := rom[off], rom[off + 1], rom[off + 2], rom[off + 3];
    if e.Big? {
      FourDigits(a, b, c, d);
    } else {
      FourDigits(d, c, b, a);
    }
    var bytes := rom[off..off + 4];
    assert bytes[0] == a && bytes[1] == b && bytes[2] == c && bytes[3] == d;
  }

  lemma FourDigits(a: nat, b: nat, c: nat, d: nat)
    requires a < 256 && b < 256 && c < 256 && d < 256
    ensures var w := ((a * 256 + b) * 256 + c) * 256 + d;
            && w / 0x100_0000 == a && w / 0x1_0000 % 256 == b && w / 256 % 256 == c && w % 256 == d
  {
    var w := ((a * 256 + b) * 256 + c) * 256 + d;
    DivUnique(w, 256, (a * 256 + b) * 256 + c);
    DivUnique(w, 0x1_0000, a * 256 + b);
    DivUnique(w, 0x100_0000, a);
  }

  lemma HeaderFields(w: nat, e: Endian)
    requires IsWord(w)
    ensures e.Big? ==> Header(w / 0x1_0000, w % 0x1_0000, e) == w
    ensures e.Little? ==> Header(w % 0x1_0000, w / 0x1_0000, e) == w
  {}

  /** An offset counted back from the end reads the same bytes as the offset it stands for. */
  lemma ReadFromEnd(rom: Rom, off: int, e: Endian)
    requires off < 0 && InBuffer(rom, off)
    ensures InBuffer(rom, off + |rom|) && Read32(rom, off, e) == Read32(rom, off + |rom|, e)
  {}

  /** What the walk follows from a directory: type 3 entries to directories, type 2 entries to leaves. */
  lemma TargetsReadBack(rom: Rom, off: int, crc: nat, words: seq<nat>, e: Endian, t: int)
    requires HoldsBlock(rom, off, crc, words, e)
    ensures t in Targets(rom, off, e, DIR_OFFSET) <==> 0 <= t < |rom| && PointsFrom(off, words, 3, t)
    ensures t in Targets(rom, off, e, LEAF_OFFSET) <==> 0 <= t < |rom| && PointsFrom(off, words, 2, t)
  {
    PointsReadBack(rom, off, crc, words, e, DIR_OFFSET, t);
    PointsReadBack(rom, off, crc, words, e, LEAF_OFFSET, t);
  }

  lemma PointsReadBack(rom: Rom, off: int, crc: nat, words: seq<nat>, e: Endian, entryType: nat, t: int)
    requires HoldsBlock(rom, off, crc, words, e) && (entryType == LEAF_OFFSET || entryType == DIR_OFFSET)
    ensures t in Targets(rom, off, e, entryType) <==> 0 <= t < |rom| && PointsFrom(off, words, entryType, t)
  {
    QuadletsReadBack(rom, off, crc, words, e);
    HeaderReadBack(rom, off, crc, words, e);
    if t in Targets(rom, off, e, entryType) {
      var i := TargetIsPointed(rom, off, e, entryType, t);
      PointsSame(off, words, i, entryType, t);
    }
    if 0 <= t < |rom| && PointsFrom(off, words, entryType, t) {
      var i: nat :| i < |words| && EntryPoints(off, words, i, entryType, t);
      PointsSame(off, words, i, entryType, t);
      PointedIsTarget(rom, off, e, entryType, t, i);
    }
  }

  lemma PointsSame(off: int, words: seq<nat>, i: nat, entryType: nat, t: int)
    requires i < |words| && IsWord(words[i])
    ensures RawPointsAt(words[i], QuadletOffset(off, i), entryType, t) <==> EntryPoints(off, words, i, entryType, t)
  {
    TopBits(words[i]);
  }

  lemma TopBits(w: nat)
    requires IsWord(w)
    ensures w / 0x4000_0000 % 4 == w / 0x4000_0000
  {}

  predicate EntryPoints(off: int, words: seq<nat>, i: nat, entryType: nat, t: int)
    requires i < |words|
  {
    words[i] / 0x4000_0000 == entryType && t == off + 4 + 4 * i + 4 * (words[i] % 0x100_0000)
  }

  ghost predicate PointsFrom(off: int, words: seq<nat>, entryType: nat, t: int) {
    exists i: nat :: i < |words| && EntryPoints(off, words, i, entryType, t)
  }
}
