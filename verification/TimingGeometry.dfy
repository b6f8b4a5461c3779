/** The generational frame ring and the zero-timestamp publication of the timing-geometry simulator. */
module TimingGeometry {
  import opened Arith
  import opened GenerationStamps

  // ----- The frame ring -----

  /** The stamp a span gives to one of its frames: the generation passed in, until the span wraps. */
  function SpanStamp(size: nat, startFrame: int, generation: int, f: int): int
    requires size > 0
  {
    if f / size != startFrame / size then f / size else generation
  }

  /** The ring after a span has been written, frame by frame. */
  function Written(ring: seq<int>, startFrame: int, count: int, generation: int): (r: seq<int>)
    requires ring != []
    ensures |r| == |ring|
    decreases count
  {
    if count <= 0 then ring
    else
      var f := startFrame + count - 1;
      Written(ring, startFrame, count - 1, generation)
      [f % |ring| := SpanStamp(|ring|, startFrame, generation, f)]
  }

  predicate FrameReadable(ring: seq<int>, f: int)
    requires ring != []
  {
    f < 0 || ring[f % |ring|] >= f / |ring|
  }

  ghost predicate SpanReadable(ring: seq<int>, startFrame: int, count: int)
    requires ring != []
  {
    forall f :: startFrame <= f < startFrame + count ==> FrameReadable(ring, f)
  }

  /** A circular buffer that records, per slot, the lap of the frame it holds. */
  class FrameRing {
    const size: nat
    var validGeneration: seq<int>

    predicate Valid()
      reads this
    {
      size > 0 && |validGeneration| == size
    }

    constructor (size: nat)
      requires size > 0
      ensures Valid() && this.size == size && ShowsLaps(validGeneration, size, 0)
    {
      this.size := size;
      validGeneration := seq(size, _ => -1);
      new;
      EmptyLaps(size);
    }

    method Reset()
      requires Valid()
      modifies this
      ensures Valid() && ShowsLaps(validGeneration, size, 0)
    {
      validGeneration := seq(size, _ => -1);
      EmptyLaps(size);
    }

    /** Stamps the frames of any span. Where the ring agrees with a write frontier, a span that begins within its
        last lap, stamped with its first frame's lap, moves the frontier to its end if that is further on. */
    method WriteSpan(startFrame: int, count: int, generation: int)
      requires Valid()
      modifies this
      ensures Valid() && validGeneration == Written(old(validGeneration), startFrame, count, generation)
      ensures forall frontier: int ::
                ShowsLaps(old(validGeneration), size, frontier)
                && frontier - size <= startFrame <= frontier && generation == Lap(startFrame, size) ==>
                  ShowsLaps(validGeneration, size, Max(frontier, startFrame + count))
    {
      var f := startFrame;
      while f < startFrame + count
        invariant Valid() && (f == startFrame || f <= startFrame + count)
        invariant startFrame <= f
        invariant validGeneration == Written(old(validGeneration), startFrame, f - startFrame, generation)
      {
        var gen := generation;
        if f / size != startFrame / size {
          gen := f / size;
        }
        validGeneration := validGeneration[f % size := gen];
        f := f + 1;
      }
      forall frontier: int |
        ShowsLaps(old(validGeneration), size, frontier)
        && frontier - size <= startFrame <= frontier && generation == Lap(startFrame, size)
        ensures ShowsLaps(validGeneration, size, Max(frontier, startFrame + count))
      {
        WrittenFrontier(old(validGeneration), size, frontier, startFrame, count);
      }
    }

    /** Whether every frame of a span has reached its lap, whatever the ring holds. Where the ring agrees with a
        write frontier that is exactly when the span ends at or below it. */
    method CheckReadable(startFrame: int, count: int) returns (ok: bool)
      requires Valid()
      ensures ok <==> SpanReadable(validGeneration, startFrame, count)
      ensures forall frontier: nat :: ShowsLaps(validGeneration, size, frontier) ==>
                (ok <==> count <= 0 || startFrame + count <= frontier)
    {
      forall frontier: nat | ShowsLaps(validGeneration, size, frontier)
        ensures SpanReadable(validGeneration, startFrame, count) <==> (count <= 0 || startFrame + count <= frontier)
      {
        ReadableBelow(validGeneration, size, frontier, startFrame, count);
      }
      var f := startFrame;
      while f < startFrame + count
        invariant startFrame <= f
        invariant forall k :: startFrame <= k < f ==> FrameReadable(validGeneration, k)
      {
        if f >= 0 {
          var expectedGeneration := f / size;
          if validGeneration[f % size] < expectedGeneration {
            assert !FrameReadable(validGeneration, f);
            return false;
          }
        }
        f := f + 1;
      }
      ok := true;
    }
  }

  lemma EmptyLaps(size: nat)
    requires size > 0
    ensures ShowsLaps(seq(size, _ => -1), size, 0)
  {
    forall j | 0 <= j < size
      ensures LatestLap(0, size, j) == -1
    {
      DivUnique(-1 - j, size, -1);
    }
  }

  /** A slot shows the stamp of the last frame of the span that uses it, or what it showed before. */
  lemma {:induction false} WrittenSlot(ring: seq<int>, startFrame: int, count: nat, generation: int, j: nat)
    requires j < |ring|
    ensures var last := LatestLap(startFrame + count, |ring|, j) * |ring| + j;
            Written(ring, startFrame, count, generation)[j]
            == if last >= startFrame then SpanStamp(|ring|, startFrame, generation, last) else ring[j]
  {
    if count == 0 {
      DivBounds(startFrame - 1 - j, |ring|);
    } else {
      var f := startFrame + count - 1;
      WrittenSlot(ring, startFrame, count - 1, generation, j);
      LatestLapStep(f, |ring|, j);
      DivBounds(f, |ring|);
    }
  }

  lemma {:induction false} WrittenFrontier(ring: seq<int>, size: nat, frontier: int, startFrame: int, count: int)
    requires ShowsLaps(ring, size, frontier) && frontier - size <= startFrame <= frontier
    ensures ShowsLaps(Written(ring, startFrame, count, Lap(startFrame, size)), size, Max(frontier, startFrame + count))
    decreases count
  {
    if count <= 0 {
    } else {
      var f := startFrame + count - 1;
      WrittenFrontier(ring, size, frontier, startFrame, count - 1);
      var before := Written(ring, startFrame, count - 1, Lap(startFrame, size));
      if f < frontier {
        ShowsLapsAgain(before, size, frontier, f);
      } else {
        ShowsLapsStep(before, size, f);
      }
    }
  }

  lemma ReadableBelow(ring: seq<int>, size: nat, frontier: nat, startFrame: int, count: int)
    requires ShowsLaps(ring, size, frontier)
    ensures SpanReadable(ring, startFrame, count) <==> (count <= 0 || startFrame + count <= frontier)
  {
    forall f: int
      ensures FrameReadable(ring, f) <==> f < frontier
    {
      LapMatches(frontier, size, f);
    }
    assert FrameReadable(ring, startFrame + count - 1) <==> startFrame + count - 1 < frontier;
  }

  // ----- Runs of the frame ring -----

  datatype Span = Span(startFrame: int, count: int)

  /** The ring after a run of spans, each stamped with the lap of its first frame. */
  function RingAfter(size: nat, spans: seq<Span>): (r: seq<int>)
    requires size > 0
    ensures |r| == size
  {
    if spans == [] then seq(size, _ => -1)
    else
      var s := spans[|spans| - 1];
      Written(RingAfter(size, spans[..|spans| - 1]), s.startFrame, s.count, Lap(s.startFrame, size))
  }

  /** The plain write frontier: the furthest end of a span. */
  function FrontierAfter(spans: seq<Span>): nat {
    if spans == [] then 0
    else
      var s := spans[|spans| - 1];
      Max(FrontierAfter(spans[..|spans| - 1]), s.startFrame + s.count)
  }

  /** Every span begins within the last lap of what was written before it, and leaves no gap. */
  predicate InReach(size: nat, spans: seq<Span>) {
    if spans == [] then true
    else
      var before := spans[..|spans| - 1];
      InReach(size, before) && FrontierAfter(before) - size <= spans[|spans| - 1].startFrame <= FrontierAfter(before)
  }

  lemma {:induction false} RingShowsFrontier(size: nat, spans: seq<Span>)
    requires size > 0 && InReach(size, spans)
    ensures ShowsLaps(RingAfter(size, spans), size, FrontierAfter(spans))
  {
    if spans == [] {
      EmptyLaps(size);
    } else {
      var before, s := spans[..|spans| - 1], spans[|spans| - 1];
      RingShowsFrontier(size, before);
      WrittenFrontier(RingAfter(size, before), size, FrontierAfter(before), s.startFrame, s.count);
    }
  }

  /** After any such run, for every ring size and number of wraps, a span is readable exactly when it is empty or
      ends at or below the frontier. */
  lemma {:induction false} RunReadable(size: nat, spans: seq<Span>, startFrame: int, count: int)
    requires size > 0 && InReach(size, spans)
    ensures SpanReadable(RingAfter(size, spans), startFrame, count)
            <==> (count <= 0 || startFrame + count <= FrontierAfter(spans))
  {
    RingShowsFrontier(size, spans);
    ReadableBelow(RingAfter(size, spans), size, FrontierAfter(spans), startFrame, count);
  }

  // ----- Zero-timestamp anchors at 48 kHz -----

  const PACKET_US := 125

  /** Frames of packet p in the D, D, D, N cadence. */
  function CadenceFrames(phase: int, p: nat): nat {
    if (p + phase) % 4 == 3 then 0 else 8
  }

  function FramesUpTo(phase: int, p: nat): nat {
    if p == 0 then 0 else FramesUpTo(phase, p - 1) + CadenceFrames(phase, p - 1)
  }

  /** At phase zero the cadence is eight frames in three packets and none in the fourth; phase k starts k packets in. */
  lemma CadenceOrder(phase: int, p: nat)
    ensures CadenceFrames(0, 0) == CadenceFrames(0, 1) == CadenceFrames(0, 2) == 8 && CadenceFrames(0, 3) == 0
    ensures CadenceFrames(0, p + 4) == CadenceFrames(0, p)
    ensures CadenceFrames(phase + 1, p) == CadenceFrames(phase, p + 1)
  {}

  /** Any run of a multiple of four packets carries six frames per packet, at every cadence phase. */
  lemma {:induction false} AlignedFrames(phase: int, p: nat)
    requires p % 4 == 0
    ensures FramesUpTo(phase, p) == 6 * p
  {
    if p == 0 {
    } else {
      AlignedFrames(phase, p - 4);
      FourPackets(phase, p - 4);
    }
  }

  lemma FourPackets(phase: int, p: nat)
    ensures FramesUpTo(phase, p + 4) == FramesUpTo(phase, p) + 24
  {
    NextPacket(phase, p);
    NextPacket(phase, p + 1);
    NextPacket(phase, p + 2);
    NextPacket(phase, p + 3);
    CadenceSum(phase, p);
  }

  lemma NextPacket(phase: int, p: nat)
    ensures FramesUpTo(phase, p + 1) == FramesUpTo(phase, p) + CadenceFrames(phase, p)
  {}

  /** Any four packets in a row hold one no-data packet. */
  lemma CadenceSum(phase: int, p: nat)
    ensures CadenceFrames(phase, p) + CadenceFrames(phase, p + 1) + CadenceFrames(phase, p + 2)
            + CadenceFrames(phase, p + 3) == 24
  {
    var r := (p + phase) % 4;
    assert (p + 1 + phase) % 4 == if r == 3 then 0 else r + 1;
    assert (p + 2 + phase) % 4 == if r >= 2 then r - 2 else r + 2;
    assert (p + 3 + phase) % 4 == if r == 0 then 3 else r - 1;
  }

  method FramesPerIrq(irqPackets: nat, phase: int) returns (frames: nat)
    ensures frames == FramesUpTo(phase, irqPackets)
  {
    frames := 0;
    for p := 0 to irqPackets
      invariant frames == FramesUpTo(phase, p)
    {
      frames := frames + CadenceFrames(phase, p);
    }
  }

  datatype Anchor = Anchor(frame: nat, hostUs: real)

  /** The first n multiples of the period, each on the 48 kHz line. */
  ghost predicate OnGrid(anchors: seq<Anchor>, period: nat, n: nat) {
    && |anchors| == n
    && forall k :: 0 <= k < n ==>
         anchors[k].frame == k * period && anchors[k].hostUs * 48_000.0 == anchors[k].frame as real * 1_000_000.0
  }

  lemma GridStep(anchors: seq<Anchor>, period: nat, n: nat, a: Anchor)
    requires OnGrid(anchors, period, n)
    requires a.frame == n * period && a.hostUs * 48_000.0 == a.frame as real * 1_000_000.0
    ensures OnGrid(anchors + [a], period, n + 1)
  {}

  /** Interpolating inside an interrupt group of n packets, 6 n frames and 125 n microseconds that
      begins on the line stays on the line. */
  lemma InterpolationOnLine(startFrame: nat, n: nat, groupStart: nat, next: nat, progress: real, hostUs: real)
    requires n > 0 && startFrame == 6 * groupStart
    requires progress == (next - startFrame) as real / (6 * n) as real
    requires hostUs == (groupStart * PACKET_US) as real + progress * (n * PACKET_US) as real
    ensures hostUs * 48_000.0 == next as real * 1_000_000.0
  {
    var x, m := (next - startFrame) as real, n as real;
    assert (6 * n) as real == 6.0 * m && (n * PACKET_US) as real == 125.0 * m;
    assert progress * (6.0 * m) == x;
    assert progress * (125.0 * m) * 6.0 == (progress * (6.0 * m)) * 125.0;
  }

  /** What has been published once `frames` frames have been received: every multiple of the period so far. */
  ghost predicate Published(anchors: seq<Anchor>, next: nat, period: nat, framesPerIrq: nat, frames: nat) {
    && OnGrid(anchors, period, |anchors|) && |anchors| > 0
    && (|anchors| - 1) * period <= frames < |anchors| * period
    && (framesPerIrq != period ==> next == |anchors| * period)
  }

  /** The end of an interrupt group: in aligned mode publish the cursor itself, otherwise interpolate
      every boundary that the group passed. */
  method PublishGroup(irqPackets: nat, period: nat, framesPerIrq: nat, anchors: seq<Anchor>, next: nat,
                      cursor: nat, accumulated: nat, p: nat, ghost group: nat)
    returns (anchors': seq<Anchor>, next': nat)
    requires irqPackets > 0 && period > 0 && framesPerIrq == accumulated == 6 * irqPackets
    requires p >= irqPackets && cursor == 6 * p && p == GroupPackets(irqPackets, group)
    requires Published(anchors, next, period, framesPerIrq, cursor - accumulated)
    ensures Published(anchors', next', period, framesPerIrq, cursor)
  {
    anchors', next' := anchors, next;
    var interruptHost := p * PACKET_US;
    if period == framesPerIrq {
      AlignedCursor(p, irqPackets, period, |anchors|, group);
      GridStep(anchors, period, |anchors|, Anchor(cursor, interruptHost as real));
      MulDist(|anchors|, 1, period);
      anchors' := anchors + [Anchor(cursor, interruptHost as real)];
    } else {
      while next' <= cursor
        invariant OnGrid(anchors', period, |anchors'|) && |anchors'| > 0
        invariant next' == |anchors'| * period && (|anchors'| - 1) * period <= cursor
        decreases cursor + period - next'
      {
        var groupStartFrame := cursor - accumulated;
        var groupStartHost := (interruptHost - irqPackets * PACKET_US) as real;
        var progress := (next' - groupStartFrame) as real / accumulated as real;
        var host := groupStartHost + progress * (irqPackets * PACKET_US) as real;
        InterpolationOnLine(groupStartFrame, irqPackets, p - irqPackets, next', progress, host);
        GridStep(anchors', period, |anchors'|, Anchor(next', host));
        MulDist(|anchors'|, 1, period);
        anchors' := anchors' + [Anchor(next', host)];
        next' := next' + period;
      }
    }
  }

  /** In aligned mode the cursor is the next multiple of the period. */
  lemma AlignedCursor(p: nat, irqPackets: nat, period: nat, n: nat, k: nat)
    requires irqPackets > 0 && period == 6 * irqPackets && p == GroupPackets(irqPackets, k)
    requires n > 0 && (n - 1) * period <= 6 * p - period < n * period
    ensures 6 * p == n * period
  {
    GroupPacketsIsProduct(irqPackets, k);
    MulAssoc(k, 6, irqPackets);
    MulAssoc(6, k, irqPackets);
    MulDist(n, -1, period);
    MulDist(k, -1, period);
    MulUnique(6 * p - period, period, n - 1, k - 1);
  }

  /** Packets in k interrupt groups of n. */
  ghost function GroupPackets(n: nat, k: nat): nat {
    if k == 0 then 0 else GroupPackets(n, k - 1) + n
  }

  lemma {:induction false} GroupPacketsIsProduct(n: nat, k: nat)
    ensures GroupPackets(n, k) == k * n
  {
    if k == 0 {
    } else {
      GroupPacketsIsProduct(n, k - 1);
      MulDist(k - 1, 1, n);
    }
  }

  lemma {:induction false} GroupsAligned(n: nat, k: nat)
    requires n % 4 == 0
    ensures GroupPackets(n, k) % 4 == 0
  {
    if k == 0 {
    } else {
      GroupsAligned(n, k - 1);
    }
  }

  /** A whole number of groups carries six frames a packet. */
  lemma GroupFrames(phase: int, n: nat, k: nat)
    requires n % 4 == 0
    ensures FramesUpTo(phase, GroupPackets(n, k)) == 6 * GroupPackets(n, k)
  {
    GroupsAligned(n, k);
    AlignedFrames(phase, GroupPackets(n, k));
  }

  /** A run of whole groups does not end inside one. */
  lemma WholeGroups(n: nat, j: nat, k: nat)
    requires GroupPackets(n, j) <= GroupPackets(n, k) < GroupPackets(n, j) + n
    ensures GroupPackets(n, j) == GroupPackets(n, k)
  {
    if j < k {
      GroupPacketsMono(n, j, k);
    } else {
      GroupPacketsMono(n, k, j);
    }
  }

  lemma {:induction false} GroupPacketsMono(n: nat, j: nat, k: nat)
    requires j <= k
    ensures GroupPackets(n, j) <= GroupPackets(n, k)
    ensures j < k ==> GroupPackets(n, j) + n <= GroupPackets(n, k)
  {
    if j == k {
    } else {
      GroupPacketsMono(n, j, k - 1);
    }
  }

  /** The interrupt test: a group ends exactly n packets after it starts. */
  method EndsGroup(p: nat, n: nat, ghost k: nat) returns (b: bool)
    requires n > 0 && GroupPackets(n, k) < p <= GroupPackets(n, k) + n
    ensures b <==> p == GroupPackets(n, k) + n
  {
    GroupPacketsIsProduct(n, k);
    MulDist(k, 1, n);
    DivUnique(p, n, if p == k * n + n then k + 1 else k);
    b := p % n == 0;
  }

  /** The last packet of a group: six frames a packet have been received, and the group is published. */
  method CloseGroup(irqPackets: nat, period: nat, framesPerIrq: nat, anchors: seq<Anchor>, next: nat,
                    cursor: nat, accumulated: nat, p: nat, ghost phase: int, ghost group: nat)
    returns (anchors': seq<Anchor>, next': nat)
    requires irqPackets > 0 && irqPackets % 4 == 0 && period > 0 && framesPerIrq == 6 * irqPackets
    requires p == GroupPackets(irqPackets, group) + irqPackets
    requires cursor == FramesUpTo(phase, p) && accumulated == cursor - 6 * GroupPackets(irqPackets, group)
    requires Published(anchors, next, period, framesPerIrq, 6 * GroupPackets(irqPackets, group))
    ensures cursor == 6 * GroupPackets(irqPackets, group + 1)
    ensures Published(anchors', next', period, framesPerIrq, cursor)
  {
    GroupFrames(phase, irqPackets, group + 1);
    anchors', next' :=
      PublishGroup(irqPackets, period, framesPerIrq, anchors, next, cursor, accumulated, p, group + 1);
  }

  /** The packet loop of the simulator, reduced to its receive cursor and its anchors. */
  method RunPackets(irqPackets: nat, period: nat, phase: int, framesPerIrq: nat, total: nat, ghost groups: nat)
    returns (anchors: seq<Anchor>, nextZts: nat)
    requires irqPackets > 0 && irqPackets % 4 == 0 && period > 0
    requires framesPerIrq == 6 * irqPackets && total == GroupPackets(irqPackets, groups)
    ensures Published(anchors, nextZts, period, framesPerIrq, 6 * total)
  {
    anchors, nextZts := [Anchor(0, 0.0)], period;
    var cursor, accumulated, p := 0, 0, 0;
    ghost var group := 0;
    while p < total
      invariant p <= total
      invariant GroupPackets(irqPackets, group) <= p < GroupPackets(irqPackets, group) + irqPackets
      invariant cursor == FramesUpTo(phase, p)
      invariant accumulated == cursor - 6 * GroupPackets(irqPackets, group)
      invariant Published(anchors, nextZts, period, framesPerIrq, 6 * GroupPackets(irqPackets, group))
    {
      var frames := CadenceFrames(phase, p);
      cursor := cursor + frames;
      accumulated := accumulated + frames;
      p := p + 1;
      var ends := EndsGroup(p, irqPackets, group);
      if ends {
        anchors, nextZts :=
          CloseGroup(irqPackets, period, framesPerIrq, anchors, nextZts, cursor, accumulated, p, phase, group);
        accumulated := 0;
        group := group + 1;
      }
    }
    WholeGroups(irqPackets, group, groups);
  }

  /** In both the aligned and the crossed-grid mode, every multiple of the period up to the frames
      received is published exactly once, in order, on the 48 kHz line. */
  method PublishAnchors(irqPackets: nat, period: nat, phase: int, groups: nat) returns (anchors: seq<Anchor>)
    requires irqPackets > 0 && irqPackets % 4 == 0 && period > 0
    ensures OnGrid(anchors, period, (6 * (groups * irqPackets)) / period + 1)
  {
    var framesPerIrq := FramesPerIrq(irqPackets, phase);
    AlignedFrames(phase, irqPackets);
    var total := groups * irqPackets;
    GroupPacketsIsProduct(irqPackets, groups);
    var next;
    anchors, next := RunPackets(irqPackets, period, phase, framesPerIrq, total, groups);
    PublishedCount(anchors, next, period, framesPerIrq, 6 * total);
  }

  lemma PublishedCount(anchors: seq<Anchor>, next: nat, period: nat, framesPerIrq: nat, frames: nat)
    requires period > 0 && Published(anchors, next, period, framesPerIrq, frames)
    ensures OnGrid(anchors, period, frames / period + 1)
  {
    MulDist(|anchors| - 1, 1, period);
    DivUnique(frames, period, |anchors| - 1);
  }
}
