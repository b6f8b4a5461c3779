/** Replay of a device's SYT timestamps: 16-bit encode, delay-free offset, a 512-slot ring read
    256 packets behind, re-anchoring and extension on the 16-cycle ring.
    Bit fields that occupy disjoint bits are written as sums of scaled remainders. */
module SytReplay {
  import opened Arith
  import opened BlockingEngine
  import opened Options
  import opened CadenceLaws

  const CYCLES_PER_SECOND := 8000
  /** The 16-cycle SYT horizon in ticks. */
  const HORIZON := 49_152
  const SYT_NO_INFO := 0xFFFF
  const REPLAY_NO_INFO := 0xFFFF_FFFF
  const RING_SIZE := 512
  const READ_DELAY := 256

  function EncodeCycleTimer(seconds: int, cycle: int, offset: int): nat {
    (seconds % 128) * 0x200_0000 + (cycle % 8192) * 4096 + offset % 4096
  }

  function CycleTimerCycle(cycleTimer: int): nat {
    (cycleTimer / 4096) % 8192
  }

  /** The 16-bit SYT field of an absolute presentation time. */
  function EncodeSyt(presentation: int): nat {
    ((presentation / TICKS_PER_CYCLE) % 16) * 4096 + presentation % TICKS_PER_CYCLE
  }

  function ComputeReplaySytOffset(syt: nat, sourceCycleTimer: nat, transferDelay: int): int {
    if syt == SYT_NO_INFO then REPLAY_NO_INFO
    else
      var sourceLow := CycleTimerCycle(sourceCycleTimer) % 16;
      var sytLow := (syt / 4096) % 16;
      var unwrapped := if sytLow < sourceLow then sytLow + 16 else sytLow;
      var offset := (unwrapped - sourceLow) * TICKS_PER_CYCLE + syt % 4096;
      if offset < transferDelay then offset + 16 * TICKS_PER_CYCLE - transferDelay else offset - transferDelay
  }

  function ComputeReplaySyt(sytOffset: int, outputCycleTimer: nat, transferDelay: int): nat {
    if sytOffset == REPLAY_NO_INFO then SYT_NO_INFO
    else
      var presentation := sytOffset + transferDelay;
      ((CycleTimerCycle(outputCycleTimer) + presentation / TICKS_PER_CYCLE) % 16) * 4096
      + presentation % TICKS_PER_CYCLE
  }

  function ComputeReplaySytFromTicks(sytOffset: int, outputCycleTicks: nat, transferDelay: int): nat {
    var normalized := outputCycleTicks % (8 * TICKS_PER_SECOND);
    var within := normalized % TICKS_PER_SECOND;
    ComputeReplaySyt(
      sytOffset,
      EncodeCycleTimer(normalized / TICKS_PER_SECOND, within / TICKS_PER_CYCLE, within % TICKS_PER_CYCLE),
      transferDelay)
  }

  function SytTicksAfterCycle(syt: nat, baseCycle: nat): nat {
    (((syt / 4096) % 16 - baseCycle % 16) % 16) * TICKS_PER_CYCLE + syt % 4096
  }

  // ----- The chain, function by function -----

  lemma CycleFieldRoundTrip(seconds: int, cycle: int, offset: int)
    ensures CycleTimerCycle(EncodeCycleTimer(seconds, cycle, offset)) == cycle % 8192
    ensures EncodeCycleTimer(seconds, cycle, offset) / 0x200_0000 == seconds % 128
    ensures EncodeCycleTimer(seconds, cycle, offset) % 4096 == offset % 4096
  {
    var s, c, o := seconds % 128, cycle % 8192, offset % 4096;
    var timer := s * 0x200_0000 + c * 4096 + o;
    DivUnique(timer, 4096, s * 8192 + c);
    DivUnique(s * 8192 + c, 8192, s);
    DivUnique(timer, 0x200_0000, s);
  }

  /** The functions on every 16-bit field of cycle c and offset o, in numbers: 0xFFFF means no information; otherwise
      the cycles from the source to the field on the ring of 16, and the offset, less the delay, and one horizon
      later when that would be negative; and the same ring distance when a field is extended. */
  lemma FieldsInNumbers(c: nat, o: nat, cycleTimer: nat, delay: int, base: nat)
    requires c < 16 && o < 4096
    ensures var syt, ahead := 4096 * c + o, ((c - cycleTimer / 4096) % 16) * 3072 + o;
            ComputeReplaySytOffset(syt, cycleTimer, delay)
            == if syt == 65_535 then 4_294_967_295
               else if ahead < delay then ahead + 49_152 - delay
               else ahead - delay
    ensures SytTicksAfterCycle(4096 * c + o, base) == ((c - base) % 16) * 3072 + o
    ensures ComputeReplaySyt(4_294_967_295, cycleTimer, delay) == 65_535
  {
    var syt, source := 4096 * c + o, cycleTimer / 4096;
    DivUnique(syt, 4096, c);
    assert CycleTimerCycle(cycleTimer) % 16 == source % 16 by {
      ModOfMod(source, 16, 512);
    }
    RingDistance(c, source);
    RingDistance(c, base);
  }

  lemma RingDistance(c: nat, b: nat)
    requires c < 16
    ensures (c - b % 16) % 16 == (c - b) % 16
    ensures (if c < b % 16 then c + 16 else c) - b % 16 == (c - b) % 16
  {
    ModAbsorb(b, c, 16);
    var d := c - b % 16;
    DivUnique(d, 16, if d < 0 then -1 else 0);
  }

  lemma SytFields(presentation: int)
    ensures var syt := EncodeSyt(presentation);
            && syt != SYT_NO_INFO
            && (syt / 4096) % 16 == (presentation / TICKS_PER_CYCLE) % 16
            && syt % 4096 == presentation % TICKS_PER_CYCLE
  {}

  lemma HorizonDigits(x: int)
    ensures x % HORIZON == (x / TICKS_PER_CYCLE % 16) * TICKS_PER_CYCLE + x % TICKS_PER_CYCLE
  {
    ModSplit(x, TICKS_PER_CYCLE, 16);
  }

  /** RX side of the chain for a packet of device cycle dc that presents raw ticks after it. */
  function DeviceOffset(dc: nat, raw: nat, rx: nat): int {
    ComputeReplaySytOffset(
      EncodeSyt(dc * TICKS_PER_CYCLE + raw),
      EncodeCycleTimer(dc / CYCLES_PER_SECOND % 128, dc % CYCLES_PER_SECOND, 0),
      rx)
  }

  /** The offset with the receive delay taken out, one horizon later when it would be negative. */
  function DelayFree(raw: nat, rx: nat): int {
    raw % HORIZON - rx + if raw % HORIZON < rx then HORIZON else 0
  }

  /** RX: from the 16-bit field alone, the delay-free offset of a packet received in cycle dc that
      presents `raw` ticks after that cycle starts, with the +16-cycle guard below the delay. */
  lemma OffsetDecoded(dc: nat, raw: nat, rx: nat)
    ensures DeviceOffset(dc, raw, rx) == DelayFree(raw, rx)
  {
    var pres := dc * TICKS_PER_CYCLE + raw;
    SytFields(pres);
    CycleFieldRoundTrip(dc / CYCLES_PER_SECOND % 128, dc % CYCLES_PER_SECOND, 0);
    ModOfMod(dc, 16, 500);
    DivShift(raw, TICKS_PER_CYCLE, dc);
    HorizonDigits(raw);
    NibbleDifference(dc, raw / TICKS_PER_CYCLE);
  }

  /** Unwrapping on the 16-cycle ring recovers the distance between two cycles. */
  lemma NibbleDifference(b: int, q: int)
    ensures ((b + q) % 16 - b % 16) % 16 == q % 16
    ensures (if (b + q) % 16 < b % 16 then (b + q) % 16 + 16 else (b + q) % 16) - b % 16 == q % 16
  {
    ModAbsorb(b, (b + q) % 16, 16);
    ModAbsorb(b + q, -b, 16);
    var d := (b + q) % 16 - b % 16;
    DivUnique(d, 16, if d < 0 then -1 else 0);
  }

  /** The cycle timer rebuilt from output ticks carries the output cycle within its second. */
  lemma OutputCycleField(c: nat)
    ensures var normalized := (c * TICKS_PER_CYCLE) % (8 * TICKS_PER_SECOND);
            var within := normalized % TICKS_PER_SECOND;
            CycleTimerCycle(
              EncodeCycleTimer(
                normalized / TICKS_PER_SECOND, within / TICKS_PER_CYCLE, within % TICKS_PER_CYCLE))
            == c % CYCLES_PER_SECOND
  {
    var ticks := c * TICKS_PER_CYCLE;
    var normalized := ticks % (8 * TICKS_PER_SECOND);
    var within := normalized % TICKS_PER_SECOND;
    ModOfMod(ticks, TICKS_PER_SECOND, 8);
    ModSplit(ticks, TICKS_PER_CYCLE, 8000);
    DivUnique(ticks, TICKS_PER_CYCLE, c);
    DivUnique(within, TICKS_PER_CYCLE, c % 8000);
    CycleFieldRoundTrip(normalized / TICKS_PER_SECOND, within / TICKS_PER_CYCLE, within % TICKS_PER_CYCLE);
  }

  /** TX: re-anchoring in any output cycle and extending on the 16-cycle ring keeps the presentation
      time modulo the horizon. */
  lemma Reanchored(offset: int, c: nat, tx: int)
    requires offset != REPLAY_NO_INFO
    ensures SytTicksAfterCycle(ComputeReplaySytFromTicks(offset, c * TICKS_PER_CYCLE, tx), c % CYCLES_PER_SECOND)
         == (offset + tx) % HORIZON
  {
    var normalized := (c * TICKS_PER_CYCLE) % (8 * TICKS_PER_SECOND);
    var within := normalized % TICKS_PER_SECOND;
    OutputCycleField(c);
    ReanchoredInCycle(
      offset,
      EncodeCycleTimer(normalized / TICKS_PER_SECOND, within / TICKS_PER_CYCLE, within % TICKS_PER_CYCLE),
      c % CYCLES_PER_SECOND, tx);
  }

  lemma ReanchoredInCycle(offset: int, cycleTimer: nat, b: nat, tx: int)
    requires offset != REPLAY_NO_INFO && CycleTimerCycle(cycleTimer) == b
    ensures SytTicksAfterCycle(ComputeReplaySyt(offset, cycleTimer, tx), b) == (offset + tx) % HORIZON
  {
    ReanchorField(offset + tx, b);
  }

  lemma ReanchorField(pres: int, b: nat)
    ensures var syt := ((b + pres / TICKS_PER_CYCLE) % 16) * 4096 + pres % TICKS_PER_CYCLE;
            SytTicksAfterCycle(syt, b) == pres % HORIZON
  {
    var q, r := pres / TICKS_PER_CYCLE, pres % TICKS_PER_CYCLE;
    var syt := ((b + q) % 16) * 4096 + r;
    DivUnique(syt, 4096, (b + q) % 16);
    NibbleDifference(b, q);
    HorizonDigits(pres);
  }

  /** The whole chain, for every device cycle, output cycle, lead and pair of delays: the relative
      presentation is congruent to raw - rx + tx, reduced to the horizon. */
  lemma ReplayRoundTrip(dc: nat, raw: nat, rx: nat, c: nat, tx: int)
    ensures var offset := DeviceOffset(dc, raw, rx);
            SytTicksAfterCycle(ComputeReplaySytFromTicks(offset, c * TICKS_PER_CYCLE, tx), c % CYCLES_PER_SECOND)
            == (raw - rx + tx) % HORIZON
  {
    OffsetDecoded(dc, raw, rx);
    var offset := DelayFree(raw, rx);
    Reanchored(offset, c, tx);
    var k := raw / HORIZON - if raw % HORIZON < rx then 1 else 0;
    assert raw - rx + tx == (offset + tx) + k * HORIZON;
    DivShift(offset + tx, HORIZON, k);
  }

  /** End-to-end presentation lag of one packet: the ring delay, the delay asymmetry, and a whole
      number of horizons fixed by where raw - rx + tx falls. */
  function Lag(raw: int, rx: int, tx: int): int {
    READ_DELAY * TICKS_PER_CYCLE + tx - rx - HORIZON * ((raw - rx + tx) / HORIZON)
  }

  /** The lag is the plain constant exactly when raw - rx + tx lies inside the horizon, and carries
      exactly one extra horizon exactly when it lies in the band below zero. */
  lemma LagBands(raw: int, rx: int, tx: int)
    ensures Lag(raw, rx, tx) == READ_DELAY * TICKS_PER_CYCLE + tx - rx <==> 0 <= raw - rx + tx < HORIZON
    ensures Lag(raw, rx, tx) == READ_DELAY * TICKS_PER_CYCLE + tx - rx + HORIZON <==> -HORIZON <= raw - rx + tx < 0
  {}

  // ----- The duplex trial -----

  datatype Entry = Entry(frames: nat, offset: int, presentation: nat)
  datatype Record = Record(device: nat, tx: int)

  function Raw(d: Decision, lead: nat): nat
    requires d.isData ==> d.sytOffset.Some?
  {
    if d.isData then d.sytOffset.value + lead else 0
  }

  /** The entry a device packet leaves in the ring, in terms of its presentation offset alone. */
  function EntryOf(d: Decision, lead: nat, rx: nat): Entry
    requires d.isData ==> d.sytOffset.Some?
  {
    if d.isData then
      var raw := Raw(d, lead);
      Entry(d.frames,
            DelayFree(raw, rx),
            d.cycle * TICKS_PER_CYCLE + raw)
    else Entry(0, REPLAY_NO_INFO, 0)
  }

  predicate WellTimed(ds: seq<Decision>) {
    forall i :: 0 <= i < |ds| ==>
      && ds[i].cycle == i
      && (ds[i].isData ==> ds[i].sytOffset.Some? && ds[i].sytOffset.value < TICKS_PER_CYCLE)
      && (!ds[i].isData ==> ds[i].frames == 0)
  }

  /** The records one device packet contributes: none, or its presentation delayed by its lag. */
  function RecordOf(d: Decision, lead: nat, rx: nat, tx: nat): seq<Record>
    requires d.isData ==> d.sytOffset.Some?
  {
    var pres := d.cycle * TICKS_PER_CYCLE + Raw(d, lead);
    if d.frames > 0 then [Record(pres, pres + Lag(Raw(d, lead), rx, tx))] else []
  }

  function Records(ds: seq<Decision>, lead: nat, rx: nat, tx: nat): seq<Record>
    requires WellTimed(ds)
  {
    if ds == [] then []
    else Records(ds[..|ds| - 1], lead, rx, tx) + RecordOf(ds[|ds| - 1], lead, rx, tx)
  }

  /** Data packets whose offset lies below the receive delay, so that the guard is taken. */
  function Carries(ds: seq<Decision>, lead: nat, rx: nat): nat
    requires WellTimed(ds)
  {
    if ds == [] then 0
    else
      var d := ds[|ds| - 1];
      Carries(ds[..|ds| - 1], lead, rx) + if d.isData && Raw(d, lead) < rx then 1 else 0
  }

  /** Packets replayed within the trial. */
  function Replayed(cycles: nat): nat {
    if cycles < READ_DELAY then 0 else cycles - READ_DELAY
  }

  /** End of the window over which device frames are summed. A stop index that is negative counts
      from the end of the list, so a trial shorter than the delay still sums a prefix. */
  function DeviceWindow(cycles: nat): nat {
    if cycles >= READ_DELAY then cycles - READ_DELAY
    else if 2 * cycles >= READ_DELAY then 2 * cycles - READ_DELAY
    else 0
  }

  /** What the ring must hold before cycle c: the entries of the packets not yet replayed. */
  ghost predicate RingHolds<T>(ring: seq<Option<T>>, xs: seq<T>, c: nat) {
    && c <= |xs| && |ring| == RING_SIZE
    && forall j :: 0 <= j < c && c - READ_DELAY <= j ==> ring[j % RING_SIZE] == Some(xs[j])
  }

  lemma SlotsDiffer(j: nat, c: nat)
    requires j < c < j + RING_SIZE
    ensures j % RING_SIZE != c % RING_SIZE
  {}

  /** A slot is rewritten only after its packet has been replayed. */
  lemma RingStep<T>(ring: seq<Option<T>>, xs: seq<T>, c: nat)
    requires RingHolds(ring, xs, c) && c < |xs|
    ensures RingHolds(ring[c % RING_SIZE := Some(xs[c])], xs, c + 1)
    ensures c >= READ_DELAY ==>
              ring[c % RING_SIZE := Some(xs[c])][(c - READ_DELAY) % RING_SIZE] == Some(xs[c - READ_DELAY])
  {
    forall j | 0 <= j < c && c - READ_DELAY <= j
      ensures j % RING_SIZE != c % RING_SIZE
    {
      SlotsDiffer(j, c);
    }
  }

  lemma EntryLag(d: Decision, lead: nat, rx: nat, tx: nat)
    requires d.isData && d.sytOffset.Some?
    ensures var e := EntryOf(d, lead, rx);
            (d.cycle + READ_DELAY) * TICKS_PER_CYCLE + (e.offset + tx) % HORIZON
            == e.presentation + Lag(Raw(d, lead), rx, tx)
  {
    var raw, e := Raw(d, lead), EntryOf(d, lead, rx);
    var k := raw / HORIZON - if raw % HORIZON < rx then 1 else 0;
    DivShift(e.offset + tx, HORIZON, k);
  }

  lemma PrefixStep(ds: seq<Decision>, j: nat, lead: nat, rx: nat, tx: nat)
    requires WellTimed(ds) && j < |ds|
    ensures FrameTotal(ds[..j + 1]) == FrameTotal(ds[..j]) + ds[j].frames
    ensures Records(ds[..j + 1], lead, rx, tx) == Records(ds[..j], lead, rx, tx) + RecordOf(ds[j], lead, rx, tx)
  {
    assert ds[..j + 1][..j] == ds[..j];
  }

  /** Guards are counted only for the packets the trial replays. */
  lemma CarriesStep(ds: seq<Decision>, c: nat, lead: nat, rx: nat)
    requires WellTimed(ds) && c < |ds|
    ensures Carries(ds[..Min(c + 1, Replayed(|ds|))], lead, rx)
         == Carries(ds[..Min(c, Replayed(|ds|))], lead, rx)
            + if c < |ds| - READ_DELAY && ds[c].isData && Raw(ds[c], lead) < rx then 1 else 0
  {
    if c < |ds| - READ_DELAY {
      assert ds[..c + 1][..c] == ds[..c];
    }
  }

  // ----- The records against the device's timeline -----

  /** The record of event n: the event's own tick plus the lead, and later by 256 cycles, the delay asymmetry, and
      the horizons of 49152 ticks that its offset fixes. */
  predicate OnTimeline(p: Params, n: nat, lead: nat, rx: nat, tx: nat, r: Record)
    requires p.Valid()
  {
    var tick := (p.seed + n * p.stepNum) / p.stepDen;
    && r.device == tick + lead
    && r.tx == r.device + 786_432 + tx - rx - 49_152 * ((tick % 3072 + lead - rx + tx) / 49_152)
  }

  /** Of the first n events, those whose offset and lead fall short of the receive delay. */
  function EarlyEvents(p: Params, lead: nat, rx: nat, n: nat): nat
    requires p.Valid()
  {
    if n == 0 then 0
    else
      var tick := (p.seed + (n - 1) * p.stepNum) / p.stepDen;
      EarlyEvents(p, lead, rx, n - 1) + if tick % 3072 + lead < rx then 1 else 0
  }

  /** A data packet of cycle c leaves the record of its event, a no-data packet none. */
  lemma RecordOfCycle(p: Params, c: nat, d: Decision, lead: nat, rx: nat, tx: nat)
    requires p.Valid() && p.sytInterval > 0 && Emits(p, c, d)
    ensures d.isData ==> d.sytOffset.Some?
    ensures EventCycle(p, Count(p, c)) == c <==> d.isData
    ensures !d.isData ==> RecordOf(d, lead, rx, tx) == []
    ensures d.isData ==> |RecordOf(d, lead, rx, tx)| == 1
                         && OnTimeline(p, Count(p, c), lead, rx, tx, RecordOf(d, lead, rx, tx)[0])
  {
    EventWindow(p, c);
    if d.isData {
      RecordOfEvent(p, Count(p, c), d, lead, rx, tx);
    }
  }

  lemma RecordOfEvent(p: Params, n: nat, d: Decision, lead: nat, rx: nat, tx: nat)
    requires p.Valid() && EventCycle(p, n) == d.cycle && d.isData && d.frames > 0
    requires d.sytOffset.Some? && d.sytOffset.value + d.cycle * TICKS_PER_CYCLE == EventTick(p, n)
    ensures |RecordOf(d, lead, rx, tx)| == 1
    ensures OnTimeline(p, n, lead, rx, tx, RecordOf(d, lead, rx, tx)[0])
  {
    OffsetInCycle(p, n);
    DivUnique(EventTick(p, n), TICKS_PER_CYCLE, d.cycle);
  }

  /** Records and guards of the first m packets of a run, event by event. */
  lemma {:induction false} RecordsOnTimeline(p: Params, ds: seq<Decision>, lead: nat, rx: nat, tx: nat, m: nat)
    requires p.Valid() && p.sytInterval > 0 && m <= |ds|
    requires WellTimed(ds) && forall i :: 0 <= i < |ds| ==> Emits(p, i, ds[i])
    ensures var rs := Records(ds[..m], lead, rx, tx);
            |rs| == Count(p, m) && forall n: nat :: n < |rs| ==> OnTimeline(p, n, lead, rx, tx, rs[n])
  {
    if m == 0 {
    } else {
      RecordsOnTimeline(p, ds, lead, rx, tx, m - 1);
      PrefixStep(ds, m - 1, lead, rx, tx);
      CountStep(p, m - 1);
      assert Emits(p, m - 1, ds[m - 1]);
      RecordOfCycle(p, m - 1, ds[m - 1], lead, rx, tx);
    }
  }

  lemma {:induction false} CarriesOnTimeline(p: Params, ds: seq<Decision>, lead: nat, rx: nat, m: nat)
    requires p.Valid() && m <= |ds|
    requires WellTimed(ds) && forall i :: 0 <= i < |ds| ==> Emits(p, i, ds[i])
    ensures Carries(ds[..m], lead, rx) == EarlyEvents(p, lead, rx, Count(p, m))
  {
    if m == 0 {
    } else {
      var c := m - 1;
      CarriesOnTimeline(p, ds, lead, rx, c);
      assert ds[..m][..c] == ds[..c];
      CountStep(p, c);
      EventWindow(p, c);
      assert Emits(p, c, ds[c]);
      if ds[c].isData {
        OffsetInCycle(p, Count(p, c));
        DivUnique(EventTick(p, Count(p, c)), TICKS_PER_CYCLE, c);
      }
    }
  }

  // ----- The loop of the trial -----

  /** RX side of one cycle: the entry stored for a device packet, and whether the guard was taken. */
  method Receive(d: Decision, lead: nat, rx: nat) returns (e: Entry, guard: bool)
    requires d.isData ==> d.sytOffset.Some?
    ensures e == EntryOf(d, lead, rx)
    ensures guard <==> d.isData && Raw(d, lead) < rx
  {
    if d.isData {
      var raw := d.sytOffset.value + lead;
      OffsetDecoded(d.cycle, raw, rx);
      var offset := DeviceOffset(d.cycle, raw, rx);
      e, guard := Entry(d.frames, offset, d.cycle * TICKS_PER_CYCLE + raw), raw < rx;
    } else {
      e, guard := Entry(0, REPLAY_NO_INFO, 0), false;
    }
  }

  /** Publishing the packet of cycle c: the entries not yet replayed stay in their slots. */
  method Publish(ring: seq<Option<Entry>>, c: nat, d: Decision, lead: nat, rx: nat, ghost entries: seq<Entry>)
    returns (ring': seq<Option<Entry>>, guard: bool)
    requires d.isData ==> d.sytOffset.Some?
    requires RingHolds(ring, entries, c) && c < |entries| && entries[c] == EntryOf(d, lead, rx)
    ensures RingHolds(ring', entries, c + 1)
    ensures c >= READ_DELAY ==> ring'[(c - READ_DELAY) % RING_SIZE] == Some(entries[c - READ_DELAY])
    ensures guard <==> d.isData && Raw(d, lead) < rx
  {
    RingStep(ring, entries, c);
    var e;
    e, guard := Receive(d, lead, rx);
    ring' := ring[c % RING_SIZE := Some(e)];
  }

  /** TX side of one cycle: the absolute presentation time of an offset re-anchored in output cycle c. */
  method Reanchor(offset: int, c: nat, tx: nat) returns (presentation: int)
    requires offset != REPLAY_NO_INFO
    ensures presentation == c * TICKS_PER_CYCLE + (offset + tx) % HORIZON
  {
    var outTicks := c * TICKS_PER_CYCLE;
    Reanchored(offset, c, tx);
    var txSyt := ComputeReplaySytFromTicks(offset, outTicks, tx);
    presentation := outTicks + SytTicksAfterCycle(txSyt, c % CYCLES_PER_SECOND);
  }

  method Transmit(entry: Entry, c: nat, tx: nat, ghost d: Decision, ghost lead: nat, ghost rx: nat)
    returns (rs: seq<Record>)
    requires d.isData ==> d.sytOffset.Some?
    requires entry == EntryOf(d, lead, rx) && c == d.cycle + READ_DELAY
    requires !d.isData ==> d.frames == 0
    ensures rs == RecordOf(d, lead, rx, tx)
  {
    if entry.frames > 0 {
      var presentation := Reanchor(entry.offset, c, tx);
      EntryLag(d, lead, rx, tx);
      rs := [Record(entry.presentation, presentation)];
    } else {
      rs := [];
    }
  }

  /** One replayed cycle: the entry written 256 cycles ago adds the frames and the record of its packet. */
  method Play(ring: seq<Option<Entry>>, c: nat, tx: nat, ghost ds: seq<Decision>, ghost lead: nat, ghost rx: nat)
    returns (frames: nat, rs: seq<Record>)
    requires WellTimed(ds) && READ_DELAY <= c < |ds| && |ring| == RING_SIZE
    requires ring[(c - READ_DELAY) % RING_SIZE] == Some(EntryOf(ds[c - READ_DELAY], lead, rx))
    ensures FrameTotal(ds[..c - READ_DELAY + 1]) == FrameTotal(ds[..c - READ_DELAY]) + frames
    ensures Records(ds[..c - READ_DELAY + 1], lead, rx, tx) == Records(ds[..c - READ_DELAY], lead, rx, tx) + rs
  {
    var entry := ring[(c - READ_DELAY) % RING_SIZE].value;
    ghost var j := c - READ_DELAY;
    PrefixStep(ds, j, lead, rx, tx);
    frames := entry.frames;
    rs := Transmit(entry, c, tx, ds[j], lead, rx);
  }

  /** The outcome of a trial from its parameters alone: with cycles - 256 packets replayed, none of them before 256
      cycles, the frames, guards and records are those of the events due in them, and the device's frames those of
      the window that a stop index of cycles - 256 leaves. */
  ghost predicate InNumbers(p: Params, cycles: nat, lead: nat, rx: nat, tx: nat, records: seq<Record>,
                            txPackets: nat, txFrames: nat, deviceFrames: nat, carries: nat)
    requires p.Valid()
  {
    var replayed := if cycles < 256 then 0 else cycles - 256;
    var window := if cycles < 128 then 0 else if cycles < 256 then 2 * cycles - 256 else cycles - 256;
    && txPackets == replayed && txFrames == Count(p, replayed) * p.sytInterval
    && deviceFrames == Count(p, window) * p.sytInterval
    && carries == EarlyEvents(p, lead, rx, Count(p, replayed))
    && (p.sytInterval > 0 ==>
          && |records| == Count(p, replayed)
          && forall n: nat :: n < |records| ==> OnTimeline(p, n, lead, rx, tx, records[n]))
  }

  lemma TrialInNumbers(p: Params, ds: seq<Decision>, lead: nat, rx: nat, tx: nat)
    requires p.Valid() && WellTimed(ds) && forall i :: 0 <= i < |ds| ==> Emits(p, i, ds[i])
    ensures var m, w := Replayed(|ds|), DeviceWindow(|ds|);
            InNumbers(p, |ds|, lead, rx, tx, Records(ds[..m], lead, rx, tx), m, FrameTotal(ds[..m]),
                      FrameTotal(ds[..w]), Carries(ds[..m], lead, rx))
  {
    var m := Replayed(|ds|);
    FramesOfRun(p, ds, m);
    FramesOfRun(p, ds, DeviceWindow(|ds|));
    CarriesOnTimeline(p, ds, lead, rx, m);
    if p.sytInterval > 0 {
      RecordsOnTimeline(p, ds, lead, rx, tx, m);
    }
  }

  lemma FramesOfRun(p: Params, ds: seq<Decision>, m: nat)
    requires p.Valid() && m <= |ds| && forall i :: 0 <= i < |ds| ==> Emits(p, i, ds[i])
    ensures FrameTotal(ds[..m]) == Count(p, m) * p.sytInterval
  {
    RunCarriesEvents(p, 0, ds[..m]);
    assert Count(p, 0) == 0;
  }

  /** The trial: every replayed packet is the device packet of 256 cycles earlier with the lag its
      offset fixes, and frames in equal frames out exactly when the rate locks. */
  method RunReplayTrial(cycles: nat, p: Params, lead: nat, rx: nat, tx: nat)
    returns (ds: seq<Decision>, records: seq<Record>, txPackets: nat, txFrames: nat, deviceFrames: nat, carries: nat)
    requires p.Valid()
    ensures |ds| == cycles && forall i :: 0 <= i < cycles ==> Emits(p, i, ds[i])
    ensures WellTimed(ds)
    ensures txPackets == Replayed(cycles)
    ensures records == Records(ds[..Replayed(cycles)], lead, rx, tx)
    ensures txFrames == FrameTotal(ds[..Replayed(cycles)])
    ensures deviceFrames == FrameTotal(ds[..DeviceWindow(cycles)])
    ensures txFrames == deviceFrames <==> RateLocks(p, cycles)
    ensures carries == Carries(ds[..Replayed(cycles)], lead, rx)
    ensures InNumbers(p, cycles, lead, rx, tx, records, txPackets, txFrames, deviceFrames, carries)
  {
    var device := new RationalBlockingEngine(p);
    ds := device.Run(cycles);
    EngineIsWellTimed(p, ds);
    records, txPackets, txFrames, carries := Replay(ds, lead, rx, tx);
    deviceFrames := SumFrames(ds[..DeviceWindow(cycles)]);
    RateLockIff(p, ds);
    TrialInNumbers(p, ds, lead, rx, tx);
  }

  method Replay(ds: seq<Decision>, lead: nat, rx: nat, tx: nat)
    returns (records: seq<Record>, txPackets: nat, txFrames: nat, carries: nat)
    requires WellTimed(ds)
    ensures txPackets == Replayed(|ds|)
    ensures records == Records(ds[..Replayed(|ds|)], lead, rx, tx)
    ensures txFrames == FrameTotal(ds[..Replayed(|ds|)])
    ensures carries == Carries(ds[..Replayed(|ds|)], lead, rx)
  {
    var ring: seq<Option<Entry>> := seq(RING_SIZE, _ => None);
    ghost var entries := seq(|ds|, i requires 0 <= i < |ds| => EntryOf(ds[i], lead, rx));
    records, txPackets, txFrames, carries := [], 0, 0, 0;
    for c := 0 to |ds|
      invariant RingHolds(ring, entries, c)
      invariant txPackets == Replayed(c)
      invariant records == Records(ds[..Replayed(c)], lead, rx, tx)
      invariant txFrames == FrameTotal(ds[..Replayed(c)])
      invariant carries == Carries(ds[..Min(c, Replayed(|ds|))], lead, rx)
    {
      CarriesStep(ds, c, lead, rx);
      var guard;
      ring, guard := Publish(ring, c, ds[c], lead, rx, entries);
      // The final packets are published but never replayed, so their guards are not counted.
      if guard && c < |ds| - READ_DELAY {
        carries := carries + 1;
      }
      if c >= READ_DELAY {
        var frames, rs := Play(ring, c, tx, ds, lead, rx);
        txPackets := txPackets + 1;
        txFrames := txFrames + frames;
        records := records + rs;
      }
    }
  }

  lemma EngineIsWellTimed(p: Params, ds: seq<Decision>)
    requires p.Valid() && forall i :: 0 <= i < |ds| ==> Emits(p, i, ds[i])
    ensures WellTimed(ds)
  {
    forall i | 0 <= i < |ds| && ds[i].isData
      ensures ds[i].sytOffset.Some? && ds[i].sytOffset.value < TICKS_PER_CYCLE
    {
      assert Emits(p, i, ds[i]);
      var n: nat :| EventCycle(p, n) == i;
      OffsetInCycle(p, n);
    }
  }

  method SumFrames(ds: seq<Decision>) returns (total: nat)
    ensures total == FrameTotal(ds)
  {
    total := 0;
    for i := 0 to |ds|
      invariant total == FrameTotal(ds[..i])
    {
      assert ds[..i + 1][..i] == ds[..i];
      total := total + ds[i].frames;
    }
    assert ds[..|ds|] == ds;
  }

  /** When the offsets the device can produce all fall in one band, every packet of the trial has the
      same lag, so the device's presentation deltas come out unchanged. Band 0 is the plain round
      trip; band -1 is the guard branch, one horizon later. */
  lemma PatternPreserved(ds: seq<Decision>, lead: nat, rx: nat, tx: nat, band: int)
    requires WellTimed(ds)
    requires OneBand(lead, rx, tx, band)
    ensures var rs := Records(ds, lead, rx, tx);
            && (forall i :: 0 <= i < |rs| ==>
                  rs[i].tx - rs[i].device == READ_DELAY * TICKS_PER_CYCLE + tx - rx - band * HORIZON)
            && (forall i :: 0 <= i < |rs| - 1 ==> rs[i + 1].tx - rs[i].tx == rs[i + 1].device - rs[i].device)
  {
    var rs := Records(ds, lead, rx, tx);
    forall i | 0 <= i < |rs|
      ensures rs[i].tx - rs[i].device == READ_DELAY * TICKS_PER_CYCLE + tx - rx - band * HORIZON
    {
      RecordLag(ds, lead, rx, tx, band, i);
    }
  }

  predicate OneBand(lead: nat, rx: nat, tx: nat, band: int) {
    band * HORIZON <= lead - rx + tx && lead + TICKS_PER_CYCLE - 1 - rx + tx < (band + 1) * HORIZON
  }

  lemma {:induction false} RecordLag(ds: seq<Decision>, lead: nat, rx: nat, tx: nat, band: int, i: nat)
    requires WellTimed(ds) && OneBand(lead, rx, tx, band)
    requires i < |Records(ds, lead, rx, tx)|
    ensures var r := Records(ds, lead, rx, tx)[i];
            r.tx - r.device == READ_DELAY * TICKS_PER_CYCLE + tx - rx - band * HORIZON
  {
    var d, prev := ds[|ds| - 1], Records(ds[..|ds| - 1], lead, rx, tx);
    if i < |prev| {
      RecordLag(ds[..|ds| - 1], lead, rx, tx, band, i);
    } else {
      DivUnique(Raw(d, lead) - rx + tx, HORIZON, band);
    }
  }

  /** The first w packets of a run carry no frames exactly when frames are free or no event lies in them. */
  lemma NoFramesIff(p: Params, ds: seq<Decision>)
    requires p.Valid()
    requires forall i :: 0 <= i < |ds| ==> Emits(p, i, ds[i])
    ensures FrameTotal(ds) == 0 <==> p.sytInterval == 0 || |ds| * p.CycleSub() <= p.seed
  {
    RunCarriesEvents(p, 0, ds);
    CountIsEventsBefore(p, 0, |ds|);
    if Count(p, |ds|) > 0 && p.sytInterval > 0 {
      MulPositive(DataPackets(ds), p.sytInterval);
    } else {
      assert Count(p, 0) == 0;
    }
  }

  /** The rate lock, exactly: frames out equal frames counted at the device when the trial is at least as long
      as the ring delay, when packets carry no frames, or when the first event lies beyond the device window. */
  predicate RateLocks(p: Params, cycles: nat) {
    cycles >= READ_DELAY || p.sytInterval == 0 || DeviceWindow(cycles) * p.CycleSub() <= p.seed
  }

  lemma RateLockIff(p: Params, ds: seq<Decision>)
    requires p.Valid()
    requires forall i :: 0 <= i < |ds| ==> Emits(p, i, ds[i])
    ensures FrameTotal(ds[..Replayed(|ds|)]) == FrameTotal(ds[..DeviceWindow(|ds|)]) <==> RateLocks(p, |ds|)
  {
    NoFramesIff(p, ds[..DeviceWindow(|ds|)]);
  }

  /** The failing case that a trial of nominal seed meets: between 129 and 255 cycles nothing is replayed,
      while the device window already counts the first data packet. */
  lemma ShortTrialMismatch(p: Params, ds: seq<Decision>)
    requires p.Valid() && p.sytInterval > 0 && p.seed < p.CycleSub()
    requires READ_DELAY / 2 < |ds| < READ_DELAY
    requires forall i :: 0 <= i < |ds| ==> Emits(p, i, ds[i])
    ensures Replayed(|ds|) == 0 && FrameTotal(ds[..DeviceWindow(|ds|)]) > 0
  {
    MulLe(1, DeviceWindow(|ds|), p.CycleSub());
    RateLockIff(p, ds);
  }
}
