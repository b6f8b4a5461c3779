/** Reassembly of SD-DV frames from 480-byte source packets of six DIF blocks each, placed by the
    section, sequence and block numbers that every block carries. */
module DvFrameAssembler {
  import opened ByteStrings
  import opened Options

  const PACKET_BYTES := 480
  const BLOCK_BYTES := 80
  const BLOCKS_PER_PACKET := 6
  const BLOCKS_PER_SEQUENCE := 150

  /** An 80-byte DIF block. */
  type Block = b: Bytes | |b| == 80 witness seq(80, _ => 0)

  function Sequences(pal: bool): nat {
    if pal then 12 else 10
  }

  function BlockCount(pal: bool): nat {
    Sequences(pal) * BLOCKS_PER_SEQUENCE
  }

  // ----- The identifier map -----

  function WithinSequence(section: nat, block: nat): Option<nat> {
    if section == 0 && block == 0 then Some(0)
    else if section == 1 && block < 2 then Some(1 + block)
    else if section == 2 && block < 3 then Some(3 + block)
    else if section == 3 && block < 9 then Some(6 + block * 16)
    else if section == 4 && block < 135 then Some(7 + block / 15 + block)
    else None
  }

  function Position(pal: bool, section: nat, sequence: nat, block: nat): Option<nat> {
    var within := WithinSequence(section, block);
    if sequence >= Sequences(pal) || within.None? || within.value >= BLOCKS_PER_SEQUENCE then None
    else Some(sequence * BLOCKS_PER_SEQUENCE + within.value)
  }

  /** Frame position named by the first three bytes of a DIF block. */
  function IndexOf(pal: bool, b: Block): Option<nat> {
    Position(pal, b[0] / 32, b[1] / 16, b[2])
  }

  /** The identifier that belongs at a frame position. */
  function Identifier(position: nat): (nat, nat, nat) {
    var sequence, w := position / BLOCKS_PER_SEQUENCE, position % BLOCKS_PER_SEQUENCE;
    if w == 0 then (0, sequence, 0)
    else if w < 3 then (1, sequence, w - 1)
    else if w < 6 then (2, sequence, w - 3)
    else if (w - 6) % 16 == 0 then (3, sequence, (w - 6) / 16)
    else (4, sequence, (w - 6) / 16 * 15 + (w - 6) % 16 - 1)
  }

  /** The map is a bijection between valid identifiers and frame positions. */
  lemma IdentifierInverse(pal: bool, position: nat)
    requires position < BlockCount(pal)
    ensures var (section, sequence, block) := Identifier(position);
            Position(pal, section, sequence, block) == Some(position)
  {
    var w := position % BLOCKS_PER_SEQUENCE;
    if w >= 6 && (w - 6) % 16 != 0 {
      var k, j := (w - 6) / 16, (w - 6) % 16 - 1;
      assert (k * 15 + j) / 15 == k;
    }
  }

  lemma PositionInverse(pal: bool, section: nat, sequence: nat, block: nat)
    requires Position(pal, section, sequence, block).Some?
    ensures Position(pal, section, sequence, block).value < BlockCount(pal)
    ensures Identifier(Position(pal, section, sequence, block).value) == (section, sequence, block)
  {
    var w := WithinSequence(section, block).value;
    assert (sequence * BLOCKS_PER_SEQUENCE + w) / BLOCKS_PER_SEQUENCE == sequence;
    if section == 4 {
      var k, j := block / 15, block % 15;
      assert w - 6 == 16 * k + (j + 1);
    }
  }

  // ----- History: the blocks received since the last frame start -----

  datatype History = Idle | Building(pal: bool, blocks: seq<Block>)

  predicate IsFrameStart(chunk: Bytes) {
    |chunk| >= 4 && chunk[0] / 32 == 0 && chunk[1] / 16 == 0 && chunk[2] == 0
  }

  function BlockAt(data: Bytes, k: nat): Block
    requires (k + 1) * BLOCK_BYTES <= |data|
  {
    data[k * BLOCK_BYTES..(k + 1) * BLOCK_BYTES]
  }

  function BlocksOf(chunk: Bytes): (bs: seq<Block>)
    requires |chunk| == PACKET_BYTES
  {
    seq(BLOCKS_PER_PACKET, k requires 0 <= k < BLOCKS_PER_PACKET => BlockAt(chunk, k))
  }

  /** History after one more chunk: malformed chunks and chunks before the first start change nothing. */
  function Advance(h: History, chunk: Bytes): History {
    if |chunk| != PACKET_BYTES then h
    else if IsFrameStart(chunk) then Building(chunk[3] >= 128, BlocksOf(chunk))
    else if h.Building? then h.(blocks := h.blocks + BlocksOf(chunk))
    else h
  }

  function AdvanceAll(h: History, chunks: seq<Bytes>): History {
    if chunks == [] then h else Advance(AdvanceAll(h, chunks[..|chunks| - 1]), chunks[|chunks| - 1])
  }

  /** The first of the blocks whose identifier maps to a position. */
  function CellAt(pal: bool, blocks: seq<Block>, position: nat): Option<Block>
  {
    if blocks == [] then None
    else
      var earlier := CellAt(pal, blocks[..|blocks| - 1], position);
      var last := blocks[|blocks| - 1];
      if earlier.None? && IndexOf(pal, last) == Some(position) then Some(last) else earlier
  }

  lemma {:induction false} CellIsFirstMatch(pal: bool, blocks: seq<Block>, position: nat)
    ensures CellAt(pal, blocks, position).None? <==>
            forall k :: 0 <= k < |blocks| ==> IndexOf(pal, blocks[k]) != Some(position)
    ensures CellAt(pal, blocks, position).Some? ==>
            exists k :: 0 <= k < |blocks| && IndexOf(pal, blocks[k]) == Some(position)
              && CellAt(pal, blocks, position) == Some(blocks[k])
              && forall j :: 0 <= j < k ==> IndexOf(pal, blocks[j]) != Some(position)
  {
    if blocks == [] {
    } else {
      var n := |blocks| - 1;
      CellIsFirstMatch(pal, blocks[..n], position);
      assert forall k :: 0 <= k < n ==> blocks[..n][k] == blocks[k];
    }
  }

  /** Every position of the frame has been received. */
  ghost predicate Complete(h: History)
    requires h.Building?
  {
    forall p :: 0 <= p < BlockCount(h.pal) ==> CellAt(h.pal, h.blocks, p).Some?
  }

  function ZeroBlock(): Block {
    seq(BLOCK_BYTES, _ => 0)
  }

  /** A frame buffer that holds, in each cell, the first block received for it, and zeros elsewhere. */
  ghost predicate Shows(frame: Bytes, h: History)
    requires h.Building?
  {
    && |frame| == BlockCount(h.pal) * BLOCK_BYTES
    && forall p :: 0 <= p < BlockCount(h.pal) ==>
         BlockAt(frame, p) == match CellAt(h.pal, h.blocks, p) case Some(b) => b case None => ZeroBlock()
  }

  // ----- The assembler -----

  datatype AssemblyResult = AssemblyResult(
    completedFrame: Option<Bytes>, droppedFrame: bool, duplicateBlocks: nat, invalidBlocks: nat)

  const NOTHING := AssemblyResult(None, false, 0, 0)

  /** What closing the current frame must report. */
  ghost predicate Closes(h: History, r: AssemblyResult)
  {
    if h.Idle? then r.completedFrame.None? && !r.droppedFrame
    else if Complete(h) then r.completedFrame.Some? && Shows(r.completedFrame.value, h) && !r.droppedFrame
    else r.completedFrame.None? && r.droppedFrame
  }

  /** Number of the blocks with no valid identifier. */
  function Invalid(pal: bool, blocks: seq<Block>): nat
  {
    if blocks == [] then 0
    else Invalid(pal, blocks[..|blocks| - 1]) + if IndexOf(pal, blocks[|blocks| - 1]).None? then 1 else 0
  }

  /** A block whose cell an earlier block has already filled. */
  predicate Filled(pal: bool, blocks: seq<Block>, b: Block) {
    IndexOf(pal, b).Some? && CellAt(pal, blocks, IndexOf(pal, b).value).Some?
  }

  /** Number of the blocks that arrive, after `before`, for a cell already filled. */
  function Duplicates(pal: bool, before: seq<Block>, blocks: seq<Block>): nat {
    if blocks == [] then 0
    else
      var n := |blocks| - 1;
      Duplicates(pal, before, blocks[..n]) + if Filled(pal, before + blocks[..n], blocks[n]) then 1 else 0
  }

  lemma TallyStep(pal: bool, before: seq<Block>, bs: seq<Block>, k: nat)
    requires k < |bs|
    ensures before + bs[..k + 1] == (before + bs[..k]) + [bs[k]]
    ensures Invalid(pal, bs[..k + 1]) == Invalid(pal, bs[..k]) + if IndexOf(pal, bs[k]).None? then 1 else 0
    ensures Duplicates(pal, before, bs[..k + 1])
         == Duplicates(pal, before, bs[..k]) + if Filled(pal, before + bs[..k], bs[k]) then 1 else 0
  {
    assert bs[..k + 1][..k] == bs[..k];
  }

  function CountTrue(bits: seq<bool>): nat {
    if bits == [] then 0 else CountTrue(bits[..|bits| - 1]) + if bits[|bits| - 1] then 1 else 0
  }

  lemma {:induction false} CountTrueSet(bits: seq<bool>, i: nat)
    requires i < |bits| && !bits[i]
    ensures CountTrue(bits[i := true]) == CountTrue(bits) + 1
  {
    var n := |bits| - 1;
    if i == n {
      assert bits[i := true][..n] == bits[..n];
    } else {
      CountTrueSet(bits[..n], i);
      assert bits[i := true][..n] == bits[..n][i := true];
    }
  }

  lemma {:induction false} CountTrueAll(bits: seq<bool>)
    ensures CountTrue(bits) <= |bits|
    ensures CountTrue(bits) == |bits| <==> forall i :: 0 <= i < |bits| ==> bits[i]
  {
    if bits == [] {
    } else {
      var n := |bits| - 1;
      CountTrueAll(bits[..n]);
      assert forall i :: 0 <= i < n ==> bits[..n][i] == bits[i];
    }
  }

  lemma {:induction false} CountTrueNone(n: nat)
    ensures CountTrue(seq(n, _ => false)) == 0
  {
    if n == 0 {
    } else {
      CountTrueNone(n - 1);
      assert seq(n, _ => false)[..n - 1] == seq(n - 1, _ => false);
    }
  }

  /** The bitmap marks exactly the positions received. */
  ghost predicate Marks(received: seq<bool>, h: History)
    requires h.Building?
  {
    && |received| == BlockCount(h.pal)
    && forall p :: 0 <= p < |received| ==> (received[p] <==> CellAt(h.pal, h.blocks, p).Some?)
  }

  lemma CellAppend(pal: bool, blocks: seq<Block>, b: Block, position: nat)
    ensures CellAt(pal, blocks + [b], position)
         == if CellAt(pal, blocks, position).None? && IndexOf(pal, b) == Some(position) then Some(b)
            else CellAt(pal, blocks, position)
  {
    assert (blocks + [b])[..|blocks|] == blocks;
  }

  lemma IndexInFrame(pal: bool, b: Block)
    ensures IndexOf(pal, b).Some? ==> IndexOf(pal, b).value < BlockCount(pal)
  {
    if IndexOf(pal, b).Some? {
      PositionInverse(pal, b[0] / 32, b[1] / 16, b[2]);
    }
  }

  function Replaced(frame: Bytes, i: nat, b: Block): Bytes
    requires (i + 1) * BLOCK_BYTES <= |frame|
  {
    frame[..i * BLOCK_BYTES] + b + frame[(i + 1) * BLOCK_BYTES..]
  }

  /** Overwriting one cell of a frame buffer leaves every other cell alone. */
  lemma ReplaceCell(frame: Bytes, n: nat, i: nat, b: Block, p: nat)
    requires |frame| == n * BLOCK_BYTES && i < n && p < n
    ensures |Replaced(frame, i, b)| == |frame|
    ensures BlockAt(Replaced(frame, i, b), p) == if p == i then b else BlockAt(frame, p)
  {}

  /** A block with no valid identifier, or for a filled cell, changes nothing. */
  lemma SkippedBlock(frame: Bytes, received: seq<bool>, h: History, b: Block)
    requires h.Building? && Shows(frame, h) && Marks(received, h)
    requires IndexOf(h.pal, b).None? || Filled(h.pal, h.blocks, b)
    ensures Shows(frame, Building(h.pal, h.blocks + [b])) && Marks(received, Building(h.pal, h.blocks + [b]))
  {
    forall p | 0 <= p < BlockCount(h.pal)
      ensures CellAt(h.pal, h.blocks + [b], p) == CellAt(h.pal, h.blocks, p)
    {
      CellAppend(h.pal, h.blocks, b, p);
    }
  }

  /** A block for an empty cell fills that cell and no other. */
  lemma PlacedBlock(frame: Bytes, received: seq<bool>, h: History, b: Block, i: nat)
    requires h.Building? && Shows(frame, h) && Marks(received, h)
    requires i < BlockCount(h.pal) && IndexOf(h.pal, b) == Some(i) && !received[i]
    ensures Shows(Replaced(frame, i, b), Building(h.pal, h.blocks + [b]))
    ensures Marks(received[i := true], Building(h.pal, h.blocks + [b]))
  {
    forall p | 0 <= p < BlockCount(h.pal)
      ensures CellAt(h.pal, h.blocks + [b], p) == if p == i then Some(b) else CellAt(h.pal, h.blocks, p)
      ensures |Replaced(frame, i, b)| == |frame|
      ensures BlockAt(Replaced(frame, i, b), p) == if p == i then b else BlockAt(frame, p)
    {
      CellAppend(h.pal, h.blocks, b, p);
      ReplaceCell(frame, BlockCount(h.pal), i, b, p);
    }
  }

  class DVFrameAssembler {
    var isPAL: Option<bool>
    var frame: Bytes
    var received: seq<bool>
    var receivedCount: nat
    var active: bool
    ghost var history: History

    ghost predicate Valid()
      reads this
    {
      && (active <==> history.Building?)
      && (active ==>
            && isPAL == Some(history.pal)
            && Shows(frame, history) && Marks(received, history)
            && receivedCount == CountTrue(received))
    }

    constructor ()
      ensures Valid() && history == Idle && isPAL == None
    {
      isPAL, frame, received, receivedCount, active := None, [], [], 0, false;
      history := Idle;
    }

    method Reset()
      modifies this
      ensures Valid() && history == Idle && isPAL == None
    {
      isPAL, frame, received, receivedCount, active := None, [], [], 0, false;
      history := Idle;
    }

    method FinishCurrentFrame() returns (result: AssemblyResult)
      requires Valid()
      modifies this
      ensures Valid() && history == Idle && isPAL == old(isPAL)
      ensures Closes(old(history), result) && result.duplicateBlocks == result.invalidBlocks == 0
      ensures old(history).Idle? ==> result == AssemblyResult(None, false, 0, 0)
    {
      if !active {
        return NOTHING;
      }
      CountTrueAll(received);
      var complete := receivedCount == |received| && forall i :: 0 <= i < |received| ==> received[i];
      assert complete <==> Complete(history);
      result := AssemblyResult(if complete then Some(frame) else None, !complete, 0, 0);
      active := false;
      history := Idle;
    }

    method BeginFrame(pal: bool)
      modifies this
      ensures Valid() && history == Building(pal, []) && receivedCount == 0
    {
      isPAL := Some(pal);
      var blockCount := Sequences(pal) * BLOCKS_PER_SEQUENCE;
      frame := seq(blockCount * BLOCK_BYTES, _ => 0);
      received := seq(blockCount, _ => false);
      receivedCount := 0;
      active := true;
      history := Building(pal, []);
      CountTrueNone(blockCount);
      forall p | 0 <= p < blockCount
        ensures BlockAt(frame, p) == ZeroBlock()
      {
        assert (p + 1) * BLOCK_BYTES <= blockCount * BLOCK_BYTES;
      }
    }

    /** Places one block, unless its identifier is invalid or its cell already filled. */
    method PlaceBlock(b: Block) returns (invalid: bool, duplicate: bool)
      requires Valid() && active
      modifies this
      ensures Valid() && active && isPAL == old(isPAL)
      ensures history == Building(old(history.pal), old(history.blocks) + [b])
      ensures invalid <==> IndexOf(history.pal, b).None?
      ensures duplicate <==> Filled(history.pal, old(history.blocks), b)
      ensures receivedCount == old(receivedCount) + if invalid || duplicate then 0 else 1
    {
      ghost var h := history;
      var index := IndexOf(isPAL.value, b);
      IndexInFrame(h.pal, b);
      if index.None? || index.value >= |received| {
        SkippedBlock(frame, received, h, b);
        history := Building(h.pal, h.blocks + [b]);
        return true, false;
      }
      if received[index.value] {
        SkippedBlock(frame, received, h, b);
        history := Building(h.pal, h.blocks + [b]);
        return false, true;
      }
      FillCell(index.value, b);
      invalid, duplicate := false, false;
    }

    method FillCell(i: nat, b: Block)
      requires Valid() && active && i < |received| && !received[i] && IndexOf(history.pal, b) == Some(i)
      modifies this
      ensures Valid() && active && isPAL == old(isPAL)
      ensures history == Building(old(history.pal), old(history.blocks) + [b])
      ensures receivedCount == old(receivedCount) + 1
    {
      PlacedBlock(frame, received, history, b, i);
      CountTrueSet(received, i);
      frame := Replaced(frame, i, b);
      received := received[i := true];
      receivedCount := receivedCount + 1;
      history := Building(history.pal, history.blocks + [b]);
    }

    /** Block k of a chunk: placed, and added to the chunk's tallies. */
    method CountBlock(b: Block, invalid: nat, duplicates: nat, ghost before: seq<Block>, ghost bs: seq<Block>,
                      ghost k: nat)
      returns (invalid': nat, duplicates': nat)
      requires Valid() && active && k < |bs| && b == bs[k] && history.blocks == before + bs[..k]
      requires invalid == Invalid(history.pal, bs[..k]) && duplicates == Duplicates(history.pal, before, bs[..k])
      modifies this
      ensures Valid() && active && isPAL == old(isPAL)
      ensures history == Building(old(history.pal), before + bs[..k + 1])
      ensures invalid' == Invalid(history.pal, bs[..k + 1])
      ensures duplicates' == Duplicates(history.pal, before, bs[..k + 1])
      ensures receivedCount + duplicates' + invalid' == old(receivedCount) + duplicates + invalid + 1
    {
      invalid', duplicates' := invalid, duplicates;
      TallyStep(history.pal, before, bs, k);
      var bad, dup := PlaceBlock(b);
      if bad {
        invalid' := invalid' + 1;
      } else if dup {
        duplicates' := duplicates' + 1;
      }
    }

    /** The six blocks of a chunk, in order. */
    method PlaceBlocks(chunk: Bytes) returns (invalid: nat, duplicates: nat)
      requires Valid() && active && |chunk| == PACKET_BYTES
      modifies this
      ensures Valid() && active && isPAL == old(isPAL)
      ensures history == Building(old(history.pal), old(history.blocks) + BlocksOf(chunk))
      ensures invalid == Invalid(old(history.pal), BlocksOf(chunk))
      ensures duplicates == Duplicates(old(history.pal), old(history.blocks), BlocksOf(chunk))
      ensures receivedCount - old(receivedCount) + duplicates + invalid == BLOCKS_PER_PACKET
    {
      ghost var pal, before, bs := history.pal, history.blocks, BlocksOf(chunk);
      invalid, duplicates := 0, 0;
      assert before + bs[..0] == before;
      for k := 0 to BLOCKS_PER_PACKET
        invariant Valid() && active && isPAL == old(isPAL)
        invariant history == Building(pal, before + bs[..k])
        invariant receivedCount - old(receivedCount) + duplicates + invalid == k
        invariant invalid == Invalid(pal, bs[..k])
        invariant duplicates == Duplicates(pal, before, bs[..k])
      {
        invalid, duplicates := CountBlock(BlockAt(chunk, k), invalid, duplicates, before, bs, k);
      }
      assert bs[..BLOCKS_PER_PACKET] == bs;
    }

    /** One chunk: closes and restarts on a frame start, then accounts for each of its six blocks. */
    method Ingest(chunk: Bytes) returns (result: AssemblyResult)
      requires Valid()
      modifies this
      ensures Valid() && history == Advance(old(history), chunk)
      ensures Reports(old(history), chunk, result)
      ensures |chunk| != PACKET_BYTES ==> isPAL == old(isPAL) && receivedCount == old(receivedCount)
      ensures |chunk| == PACKET_BYTES && active ==>
                receivedCount - (if IsFrameStart(chunk) then 0 else old(receivedCount))
                + result.duplicateBlocks + result.invalidBlocks == BLOCKS_PER_PACKET
    {
      result := NOTHING;
      if |chunk| != PACKET_BYTES {
        result := result.(invalidBlocks := 1);
        return;
      }
      if IsFrameStart(chunk) {
        result := FinishCurrentFrame();
        BeginFrame(chunk[3] >= 128);
      }
      if !active {
        return;
      }
      var invalid, duplicates := PlaceBlocks(chunk);
      result := result.(invalidBlocks := invalid, duplicateBlocks := duplicates);
      assert [] + BlocksOf(chunk) == BlocksOf(chunk);
    }

    method Finish() returns (result: AssemblyResult)
      requires Valid()
      modifies this
      ensures Valid() && history == Idle && isPAL == None
      ensures Closes(old(history), result) && result.duplicateBlocks == result.invalidBlocks == 0
    {
      result := FinishCurrentFrame();
      Reset();
    }
  }

  /** The report of one chunk, given the history before it. */
  ghost predicate Reports(h: History, chunk: Bytes, r: AssemblyResult)
  {
    if |chunk| != PACKET_BYTES then r == NOTHING.(invalidBlocks := 1)
    else if IsFrameStart(chunk) then
      var pal := chunk[3] >= 128;
      && Closes(h, r)
      && r.invalidBlocks == Invalid(pal, BlocksOf(chunk)) && r.duplicateBlocks == Duplicates(pal, [], BlocksOf(chunk))
    else if h.Building? then
      && r.completedFrame.None? && !r.droppedFrame
      && r.invalidBlocks == Invalid(h.pal, BlocksOf(chunk))
      && r.duplicateBlocks == Duplicates(h.pal, h.blocks, BlocksOf(chunk))
    else r == NOTHING
  }

  /** The report of chunk i is the one that the history of the chunks before it calls for. */
  ghost predicate ReportedAt(chunks: seq<Bytes>, i: nat, r: AssemblyResult)
    requires i < |chunks|
  {
    Reports(AdvanceAll(Idle, chunks[..i]), chunks[i], r)
  }

  lemma AdvanceStep(chunks: seq<Bytes>, k: nat)
    requires k < |chunks|
    ensures AdvanceAll(Idle, chunks[..k + 1]) == Advance(AdvanceAll(Idle, chunks[..k]), chunks[k])
  {
    assert chunks[..k + 1][..k] == chunks[..k];
  }

  /** Over every chunk sequence, each report is the one its history calls for. */
  method IngestAll(chunks: seq<Bytes>) returns (results: seq<AssemblyResult>, final: AssemblyResult)
    ensures |results| == |chunks|
    ensures forall i: nat :: i < |chunks| ==> ReportedAt(chunks, i, results[i])
    ensures Closes(AdvanceAll(Idle, chunks), final)
  {
    var assembler := new DVFrameAssembler();
    results := [];
    for k := 0 to |chunks|
      invariant assembler.Valid() && fresh(assembler)
      invariant assembler.history == AdvanceAll(Idle, chunks[..k])
      invariant |results| == k
      invariant forall i: nat :: i < k ==> ReportedAt(chunks, i, results[i])
    {
      AdvanceStep(chunks, k);
      var r := assembler.Ingest(chunks[k]);
      results := results + [r];
    }
    assert chunks[..|chunks|] == chunks;
    final := assembler.Finish();
  }

  // ----- What the history means -----

  /** The blocks of the well-sized chunks, in order. */
  function AllBlocks(chunks: seq<Bytes>): seq<Block> {
    if chunks == [] then []
    else
      var c := chunks[|chunks| - 1];
      AllBlocks(chunks[..|chunks| - 1]) + if |c| == PACKET_BYTES then BlocksOf(c) else []
  }

  predicate Starts(chunk: Bytes) {
    |chunk| == PACKET_BYTES && IsFrameStart(chunk)
  }

  lemma DropTake<T>(xs: seq<T>, s: nat, n: nat)
    requires s <= n <= |xs|
    ensures xs[s..][..n - s] == xs[..n][s..]
  {
    forall i | 0 <= i < n - s
      ensures xs[s..][..n - s][i] == xs[..n][s..][i]
    {
      assert xs[s..][i] == xs[s + i] == xs[..n][s + i];
    }
  }

  /** The history is exactly the blocks of the chunks from the last frame start on. */
  lemma {:induction false} HistorySinceLastStart(h: History, chunks: seq<Bytes>, s: nat)
    requires s < |chunks| && Starts(chunks[s])
    requires forall i :: s < i < |chunks| ==> !Starts(chunks[i])
    ensures AdvanceAll(h, chunks) == Building(chunks[s][3] >= 128, AllBlocks(chunks[s..]))
  {
    var n := |chunks| - 1;
    DropTake(chunks, s, n);
    if s == n {
      assert chunks[s..] == [chunks[s]];
      assert AllBlocks([]) == [];
      assert [] + BlocksOf(chunks[s]) == BlocksOf(chunks[s]);
    } else {
      HistorySinceLastStart(h, chunks[..n], s);
      assert chunks[s..][|chunks[s..]| - 1] == chunks[n];
      var b := AllBlocks(chunks[..n][s..]);
      assert b + [] == b;
    }
  }

  lemma {:induction false} AllBlocksMember(chunks: seq<Bytes>, i: nat, k: nat)
    requires i < |chunks| && |chunks[i]| == PACKET_BYTES && k < BLOCKS_PER_PACKET
    ensures BlockAt(chunks[i], k) in AllBlocks(chunks)
  {
    var n := |chunks| - 1;
    if i == n {
      assert BlocksOf(chunks[n])[k] == BlockAt(chunks[n], k);
      assert AllBlocks(chunks)[|AllBlocks(chunks[..n])| + k] == BlockAt(chunks[n], k);
    } else {
      AllBlocksMember(chunks[..n], i, k);
      var j :| 0 <= j < |AllBlocks(chunks[..n])| && AllBlocks(chunks[..n])[j] == BlockAt(chunks[i], k);
      assert AllBlocks(chunks)[j] == BlockAt(chunks[i], k);
    }
  }

  // ----- Order independence and round trip -----

  /** A frame whose every block names its own position and whose first block carries the system bit. */
  ghost predicate WellIdentified(frame: Bytes, pal: bool) {
    && |frame| == BlockCount(pal) * BLOCK_BYTES
    && (forall p :: 0 <= p < BlockCount(pal) ==> IndexOf(pal, BlockAt(frame, p)) == Some(p))
    && (frame[3] >= 128 <==> pal)
  }

  function PacketCount(pal: bool): nat {
    BlockCount(pal) / BLOCKS_PER_PACKET
  }

  function Packet(frame: Bytes, i: nat): Bytes
    requires (i + 1) * PACKET_BYTES <= |frame|
  {
    frame[i * PACKET_BYTES..(i + 1) * PACKET_BYTES]
  }

  lemma PacketBlock(frame: Bytes, i: nat, k: nat)
    requires (i + 1) * PACKET_BYTES <= |frame| && k < BLOCKS_PER_PACKET
    ensures (i * BLOCKS_PER_PACKET + k + 1) * BLOCK_BYTES <= |frame|
    ensures BlockAt(Packet(frame, i), k) == BlockAt(frame, i * BLOCKS_PER_PACKET + k)
  {
    var b, b' := BlockAt(Packet(frame, i), k), BlockAt(frame, i * BLOCKS_PER_PACKET + k);
    forall j | 0 <= j < BLOCK_BYTES
      ensures b[j] == b'[j]
    {
      assert b[j] == Packet(frame, i)[k * BLOCK_BYTES + j] == frame[i * PACKET_BYTES + k * BLOCK_BYTES + j];
      assert b'[j] == frame[(i * BLOCKS_PER_PACKET + k) * BLOCK_BYTES + j];
    }
  }

  /** Only the first packet of a well-identified frame is a frame start. */
  lemma OnlyFirstStarts(frame: Bytes, pal: bool, i: nat)
    requires |frame| == BlockCount(pal) * BLOCK_BYTES && i < PacketCount(pal)
    requires IndexOf(pal, BlockAt(frame, i * BLOCKS_PER_PACKET)) == Some(i * BLOCKS_PER_PACKET)
    ensures Starts(Packet(frame, i)) <==> i == 0
  {
    var p := i * BLOCKS_PER_PACKET;
    var c, b := Packet(frame, i), BlockAt(frame, p);
    PacketBlock(frame, i, 0);
    assert b == BlockAt(c, 0) && b[0] == c[0] && b[1] == c[1] && b[2] == c[2];
    FirstPosition(pal, b, p);
  }

  /** Position 0 is the only one named by section 0, sequence 0, block 0. */
  lemma FirstPosition(pal: bool, b: Block, p: nat)
    requires IndexOf(pal, b) == Some(p)
    ensures p == 0 <==> b[0] / 32 == 0 && b[1] / 16 == 0 && b[2] == 0
  {
    PositionInverse(pal, b[0] / 32, b[1] / 16, b[2]);
  }

  /** The packets of a frame, sent in the given order. */
  function Sent(frame: Bytes, pal: bool, order: seq<nat>): seq<Bytes>
    requires |frame| == BlockCount(pal) * BLOCK_BYTES
    requires forall i :: 0 <= i < |order| ==> order[i] < PacketCount(pal)
  {
    assert BlockCount(pal) == PacketCount(pal) * BLOCKS_PER_PACKET;
    seq(|order|, i requires 0 <= i < |order| && order[i] < PacketCount(pal) => Packet(frame, order[i]))
  }

  /** Every packet of the frame is among those sent. */
  ghost predicate AllSent(pal: bool, order: seq<nat>) {
    forall q: nat :: q < PacketCount(pal) ==> q in order
  }

  /** Starting in any state, send the start packet first and then other packets in any order with any repeats.
      If every packet is among them the frame that closes is the frame that was cut; otherwise it is dropped. */
  lemma RoundTrip(h: History, frame: Bytes, pal: bool, order: seq<nat>, r: AssemblyResult)
    requires WellIdentified(frame, pal)
    requires |order| > 0 && order[0] == 0
    requires forall i :: 0 <= i < |order| ==> order[i] < PacketCount(pal)
    requires forall i :: 0 < i < |order| ==> order[i] != 0
    requires Closes(AdvanceAll(h, Sent(frame, pal, order)), r)
    ensures AllSent(pal, order) <==> r.completedFrame == Some(frame)
    ensures r.droppedFrame <==> r.completedFrame.None?
    ensures r.droppedFrame <==> !AllSent(pal, order)
  {
    HistoryOfSent(h, frame, pal, order);
    if AllSent(pal, order) {
      AllSentCompletes(frame, pal, order);
      ShowsFrame(frame, pal, order, r.completedFrame.value);
    } else {
      MissingDrops(frame, pal, order);
    }
  }

  lemma AllSentCompletes(frame: Bytes, pal: bool, order: seq<nat>)
    requires WellIdentified(frame, pal) && AllSent(pal, order)
    requires forall i :: 0 <= i < |order| ==> order[i] < PacketCount(pal)
    ensures Complete(Building(pal, AllBlocks(Sent(frame, pal, order))))
  {
    forall p: nat | p < BlockCount(pal)
      ensures CellAt(pal, AllBlocks(Sent(frame, pal, order)), p).Some?
    {
      CellReceived(frame, pal, order, p);
    }
  }

  lemma CellReceived(frame: Bytes, pal: bool, order: seq<nat>, p: nat)
    requires WellIdentified(frame, pal) && AllSent(pal, order) && p < BlockCount(pal)
    requires forall i :: 0 <= i < |order| ==> order[i] < PacketCount(pal)
    ensures CellAt(pal, AllBlocks(Sent(frame, pal, order)), p) == Some(BlockAt(frame, p))
  {
    PacketSent(pal, order, p);
    CellOfSent(frame, pal, order, p);
  }

  lemma PacketSent(pal: bool, order: seq<nat>, p: nat)
    requires AllSent(pal, order) && p < BlockCount(pal)
    ensures p / BLOCKS_PER_PACKET in order
  {
    var q := p / BLOCKS_PER_PACKET;
    assert q < PacketCount(pal);
  }

  lemma MissingDrops(frame: Bytes, pal: bool, order: seq<nat>)
    requires WellIdentified(frame, pal) && !AllSent(pal, order)
    requires forall i :: 0 <= i < |order| ==> order[i] < PacketCount(pal)
    ensures !Complete(Building(pal, AllBlocks(Sent(frame, pal, order))))
  {
    var q: nat :| q < PacketCount(pal) && q !in order;
    var p := q * BLOCKS_PER_PACKET;
    assert p / BLOCKS_PER_PACKET == q;
    CellOfSent(frame, pal, order, p);
  }

  lemma ShowsFrame(frame: Bytes, pal: bool, order: seq<nat>, shown: Bytes)
    requires WellIdentified(frame, pal) && AllSent(pal, order)
    requires forall i :: 0 <= i < |order| ==> order[i] < PacketCount(pal)
    requires Shows(shown, Building(pal, AllBlocks(Sent(frame, pal, order))))
    ensures shown == frame
  {
    forall p: nat | p < BlockCount(pal)
      ensures BlockAt(shown, p) == BlockAt(frame, p)
    {
      CellReceived(frame, pal, order, p);
    }
    SameCells(shown, frame, BlockCount(pal));
  }

  /** The history of packets sent from their start is exactly their blocks. */
  lemma HistoryOfSent(h: History, frame: Bytes, pal: bool, order: seq<nat>)
    requires WellIdentified(frame, pal)
    requires |order| > 0 && order[0] == 0
    requires forall i :: 0 <= i < |order| ==> order[i] < PacketCount(pal)
    requires forall i :: 0 < i < |order| ==> order[i] != 0
    ensures AdvanceAll(h, Sent(frame, pal, order)) == Building(pal, AllBlocks(Sent(frame, pal, order)))
  {
    var chunks := Sent(frame, pal, order);
    forall i | 0 <= i < |order|
      ensures Starts(chunks[i]) <==> i == 0
    {
      assert 0 <= order[i] * BLOCKS_PER_PACKET < BlockCount(pal);
      OnlyFirstStarts(frame, pal, order[i]);
    }
    HistorySinceLastStart(h, chunks, 0);
    assert chunks[0..] == chunks;
  }

  /** A cell is filled, with its own block, exactly when its packet was sent. */
  lemma CellOfSent(frame: Bytes, pal: bool, order: seq<nat>, p: nat)
    requires WellIdentified(frame, pal) && p < BlockCount(pal)
    requires forall i :: 0 <= i < |order| ==> order[i] < PacketCount(pal)
    ensures CellAt(pal, AllBlocks(Sent(frame, pal, order)), p)
         == if p / BLOCKS_PER_PACKET in order then Some(BlockAt(frame, p)) else None
  {
    var blocks := AllBlocks(Sent(frame, pal, order));
    CellIsFirstMatch(pal, blocks, p);
    if p / BLOCKS_PER_PACKET in order {
      BlockArrives(frame, pal, order, p);
      assert CellAt(pal, blocks, p).Some?;
    }
    if CellAt(pal, blocks, p).Some? {
      var k :| 0 <= k < |blocks| && IndexOf(pal, blocks[k]) == Some(p) && CellAt(pal, blocks, p) == Some(blocks[k]);
      var q := SentBlock(frame, pal, order, k);
    }
  }

  /** Every block sent is a cell of the frame, named by its own position. */
  lemma SentBlock(frame: Bytes, pal: bool, order: seq<nat>, j: nat) returns (p: nat)
    requires WellIdentified(frame, pal)
    requires forall i :: 0 <= i < |order| ==> order[i] < PacketCount(pal)
    requires j < |AllBlocks(Sent(frame, pal, order))|
    ensures p < BlockCount(pal) && p / BLOCKS_PER_PACKET in order
    ensures AllBlocks(Sent(frame, pal, order))[j] == BlockAt(frame, p)
    ensures IndexOf(pal, BlockAt(frame, p)) == Some(p)
  {
    var i, k := BlockOrigin(Sent(frame, pal, order), j);
    var q := order[i];
    PacketBlock(frame, q, k);
    p := q * BLOCKS_PER_PACKET + k;
    assert p / BLOCKS_PER_PACKET == q;
  }

  lemma {:induction false} BlockOrigin(chunks: seq<Bytes>, j: nat) returns (i: nat, k: nat)
    requires forall i :: 0 <= i < |chunks| ==> |chunks[i]| == PACKET_BYTES
    requires j < |AllBlocks(chunks)|
    ensures i < |chunks| && k < BLOCKS_PER_PACKET && AllBlocks(chunks)[j] == BlockAt(chunks[i], k)
  {
    var n := |chunks| - 1;
    var prev := AllBlocks(chunks[..n]);
    if j < |prev| {
      i, k := BlockOrigin(chunks[..n], j);
    } else {
      i, k := n, j - |prev|;
      assert AllBlocks(chunks)[j] == BlocksOf(chunks[n])[k];
    }
  }

  lemma BlockArrives(frame: Bytes, pal: bool, order: seq<nat>, p: nat)
    requires |frame| == BlockCount(pal) * BLOCK_BYTES && p < BlockCount(pal)
    requires forall i :: 0 <= i < |order| ==> order[i] < PacketCount(pal)
    requires p / BLOCKS_PER_PACKET in order
    ensures BlockAt(frame, p) in AllBlocks(Sent(frame, pal, order))
  {
    var q, k := p / BLOCKS_PER_PACKET, p % BLOCKS_PER_PACKET;
    var i: nat :| i < |order| && order[i] == q;
    assert p == q * BLOCKS_PER_PACKET + k && (q + 1) * PACKET_BYTES <= |frame|;
    PacketBlock(frame, q, k);
    AllBlocksMember(Sent(frame, pal, order), i, k);
  }

  /** A frame buffer is determined by its cells. */
  lemma SameCells(f: Bytes, g: Bytes, n: nat)
    requires |f| == |g| == n * BLOCK_BYTES
    requires forall p: nat :: p < n ==> BlockAt(f, p) == BlockAt(g, p)
    ensures f == g
  {
    forall i | 0 <= i < |f|
      ensures f[i] == g[i]
    {
      var p, j := i / BLOCK_BYTES, i % BLOCK_BYTES;
      assert BlockAt(f, p)[j] == f[i] && BlockAt(g, p)[j] == g[i];
    }
  }
}
