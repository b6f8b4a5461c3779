/** The SD-DV frame in numbers: sizes, block positions and the bytes of a completed frame, stated apart
    from the assembler's own tables. */
module DvFrameLayout {
  import opened ByteStrings
  import opened DvFrameAssembler
  import opened Options

  // ----- Positions -----

  /** Position within a DIF sequence: header, two subcode blocks, three auxiliary video blocks, then nine groups of
      an audio block and fifteen video blocks. */
  predicate WithinAt(section: nat, block: nat, w: int) {
    || (section == 0 && block == 0 && w == 0)
    || (section == 1 && block < 2 && w == 1 + block)
    || (section == 2 && block < 3 && w == 3 + block)
    || (section == 3 && block < 9 && w == 6 + 16 * block)
    || (section == 4 && block < 135 && w == 6 + 16 * (block / 15) + 1 + block % 15)
  }

  /** A block names a position exactly when its sequence is one of 12 or 10 and its section and number are in range:
      the top three bits of its first byte, the top four of its second, and its third. */
  lemma IndexMeaning(pal: bool, b: Block, p: nat)
    ensures var section: nat, sequence: nat, block: nat := b[0] / 32, b[1] / 16, b[2];
            IndexOf(pal, b) == Some(p) <==>
            sequence < (if pal then 12 else 10) && WithinAt(section, block, p - 150 * sequence)
  {
    var section: nat, sequence: nat, block: nat := b[0] / 32, b[1] / 16, b[2];
    if section == 4 {
      assert 7 + block / 15 + block == 6 + 16 * (block / 15) + 1 + block % 15;
    }
  }

  /** In the order of the frame each block is followed by the next of its section, or by the first of the next one;
      after each fifteen video blocks comes an audio block, and after the last the next sequence. */
  lemma FrameOrder(p: nat)
    ensures Identifier(0) == (0, 0, 0)
    ensures var (section, sequence, block) := Identifier(p);
            Identifier(p + 1)
            == if section == 0 then (1, sequence, 0)
               else if section == 1 then (if block == 0 then (1, sequence, 1) else (2, sequence, 0))
               else if section == 2 then (if block < 2 then (2, sequence, block + 1) else (3, sequence, 0))
               else if section == 3 then (4, sequence, 15 * block)
               else if block % 15 < 14 then (4, sequence, block + 1)
               else if block < 134 then (3, sequence, block / 15 + 1)
               else (0, sequence + 1, 0)
  {
    var s, w := p / 150, p % 150;
    assert p + 1 == 150 * s + (w + 1);
    if w < 149 {
      assert (p + 1) / 150 == s && (p + 1) % 150 == w + 1;
    } else {
      assert (p + 1) / 150 == s + 1 && (p + 1) % 150 == 0;
    }
    if w >= 6 {
      VideoGroups(w);
    }
  }

  lemma VideoGroups(w: nat)
    requires 6 <= w < 150
    ensures var k, j := (w - 6) / 16, (w - 6) % 16;
            && (j > 0 ==> (k * 15 + j - 1) / 15 == k && (k * 15 + j - 1) % 15 == j - 1)
            && (j < 15 ==> (w - 5) / 16 == k && (w - 5) % 16 == j + 1)
            && (j == 15 ==> (w - 5) / 16 == k + 1 && (w - 5) % 16 == 0)
  {}

  // ----- Packets -----

  /** A frame start is a packet of 480 bytes whose first block is section 0, sequence 0, block 0. */
  lemma StartMeaning(chunk: Bytes)
    ensures Starts(chunk) <==> |chunk| == 480 && chunk[0] < 32 && chunk[1] < 16 && chunk[2] == 0
  {}

  /** A packet carries six blocks of 80 bytes. */
  lemma PacketBlocks(chunk: Bytes)
    requires |chunk| == 480
    ensures |BlocksOf(chunk)| == 6
    ensures forall k :: 0 <= k < 6 ==> BlocksOf(chunk)[k] == chunk[80 * k..80 * k + 80]
  {}

  /** A packet of any other size is counted as one invalid block. */
  lemma OtherSizes(h: History, chunk: Bytes, r: AssemblyResult)
    requires |chunk| != 480 && Reports(h, chunk, r)
    ensures r == AssemblyResult(None, false, 0, 1) && Advance(h, chunk) == h
  {}

  // ----- Frames -----

  /** Block k is the first to name position p. */
  ghost predicate FirstAt(pal: bool, blocks: seq<Block>, p: nat, k: nat) {
    && k < |blocks| && IndexOf(pal, blocks[k]) == Some(p)
    && forall j: nat :: j < k ==> IndexOf(pal, blocks[j]) != Some(p)
  }

  ghost predicate Named(pal: bool, blocks: seq<Block>, p: nat) {
    exists k: nat :: FirstAt(pal, blocks, p, k)
  }

  /** A frame is 144000 bytes, 1800 cells of 80, on a PAL system and 120000, 1500 cells, otherwise. */
  function FrameCells(pal: bool): nat {
    if pal then 1800 else 1500
  }

  function FrameBytes(pal: bool): nat {
    if pal then 144_000 else 120_000
  }

  lemma CellIsNamed(pal: bool, blocks: seq<Block>, p: nat)
    ensures CellAt(pal, blocks, p).Some? <==> Named(pal, blocks, p)
    ensures forall k: nat :: FirstAt(pal, blocks, p, k) ==> CellAt(pal, blocks, p) == Some(blocks[k])
  {
    CellIsFirstMatch(pal, blocks, p);
    if CellAt(pal, blocks, p).Some? {
      var k: int :| 0 <= k < |blocks| && IndexOf(pal, blocks[k]) == Some(p)
        && CellAt(pal, blocks, p) == Some(blocks[k]) && forall j :: 0 <= j < k ==> IndexOf(pal, blocks[j]) != Some(p);
      assert FirstAt(pal, blocks, p, k);
    }
  }

  /** A frame completes exactly when all of its 1800 or 1500 positions were named, and is dropped otherwise. */
  lemma CompletesIff(h: History, r: AssemblyResult)
    requires h.Building? && Closes(h, r)
    ensures r.completedFrame.Some? <==> forall p: nat :: p < FrameCells(h.pal) ==> Named(h.pal, h.blocks, p)
    ensures r.droppedFrame <==> r.completedFrame.None?
  {
    forall p: nat
      ensures CellAt(h.pal, h.blocks, p).Some? <==> Named(h.pal, h.blocks, p)
    {
      CellIsNamed(h.pal, h.blocks, p);
    }
  }

  /** A completed frame has 144000 or 120000 bytes, and its bytes from 80 p on are those of the first block that
      named position p. */
  lemma CompletedFrame(h: History, r: AssemblyResult, p: nat, k: nat)
    requires h.Building? && Closes(h, r) && r.completedFrame.Some?
    ensures |r.completedFrame.value| == FrameBytes(h.pal)
    ensures p < FrameCells(h.pal) && FirstAt(h.pal, h.blocks, p, k) ==>
              r.completedFrame.value[80 * p..80 * p + 80] == h.blocks[k]
  {
    if p < FrameCells(h.pal) && FirstAt(h.pal, h.blocks, p, k) {
      CellIsNamed(h.pal, h.blocks, p);
      assert BlockAt(r.completedFrame.value, p) == h.blocks[k];
    }
  }

  /** Over any chunk sequence the size of the frame follows the fourth byte of its start packet. */
  lemma SizeFollowsStart(h: History, chunks: seq<Bytes>, s: nat, r: AssemblyResult)
    requires s < |chunks| && Starts(chunks[s]) && forall i :: s < i < |chunks| ==> !Starts(chunks[i])
    requires Closes(AdvanceAll(h, chunks), r) && r.completedFrame.Some?
    ensures |r.completedFrame.value| == if chunks[s][3] >= 128 then 144_000 else 120_000
  {
    HistorySinceLastStart(h, chunks, s);
    CompletedFrame(AdvanceAll(h, chunks), r, 0, 0);
  }
}
