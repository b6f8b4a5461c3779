/** The legacy queue-to-ring refill pump and the fill accounting of a buffer trial. Callback and
    refill times are replaced by an arbitrary schedule: how many of each fall in every cycle. */
module RefillPump {
  import opened Arith

  const CHUNK := 256

  datatype Config = Config(
    coreBufferFrames: nat, txQueueCapacity: nat, ringCapacity: nat, startWait: nat, primeLimit: nat,
    rbTarget: nat, rbMax: nat, maxChunks: nat, blocking: bool)

  // ----- The pump -----

  /** What the pump may move at most: the shortfall, the queue and the free ring space. */
  function Movable(cfg: Config, queue: nat, ring: nat): nat {
    Max(0, Min(cfg.rbTarget - ring, Min(queue, cfg.ringCapacity - ring)))
  }

  /** Chunks until the ring reaches rbMax; the test comes after a chunk, so at least one. */
  function ChunksToMax(cfg: Config, ring: nat): nat {
    Max(1, (cfg.rbMax - ring + CHUNK - 1) / CHUNK)
  }

  /** Frames moved by one call. */
  function Pumped(cfg: Config, queue: nat, ring: nat): nat {
    Min(Movable(cfg, queue, ring), CHUNK * Min(cfg.maxChunks, ChunksToMax(cfg, ring)))
  }

  /** The chunk loop moves exactly that. */
  method ApplyLegacyRefill(queueFill: nat, ringFill: nat, cfg: Config) returns (queue: nat, ring: nat, pumped: nat)
    ensures pumped == Pumped(cfg, queueFill, ringFill)
    ensures queue == queueFill - pumped && ring == ringFill + pumped
  {
    queue, ring, pumped := queueFill, ringFill, 0;
    if ringFill < cfg.rbTarget {
      var want := cfg.rbTarget - ringFill;
      var chunks := 0;
      ghost var limit := Movable(cfg, queueFill, ringFill);
      while want > 0 && chunks < cfg.maxChunks
        invariant 0 <= chunks <= cfg.maxChunks && chunks <= ChunksToMax(cfg, ringFill)
        invariant pumped == Min(limit, CHUNK * chunks)
        invariant queue == queueFill - pumped && ring == ringFill + pumped
        invariant want == cfg.rbTarget - ring
        invariant chunks > 0 && pumped == CHUNK * chunks ==> chunks < ChunksToMax(cfg, ringFill)
        decreases cfg.maxChunks - chunks
      {
        if queue == 0 {
          break;
        }
        var space: int := cfg.ringCapacity - ring;
        if space <= 0 {
          break;
        }
        var toRead := Min(Min(want, queue), Min(space, CHUNK));
        queue := queue - toRead;
        ring := ring + toRead;
        pumped := pumped + toRead;
        want := want - toRead;
        chunks := chunks + 1;
        if ring >= cfg.rbMax {
          break;
        }
      }
    }
  }

  /** When the maximum is no lower than the target it never stops the pump early. */
  lemma PumpedWithoutMax(cfg: Config, queue: nat, ring: nat)
    requires cfg.rbMax >= cfg.rbTarget
    ensures Pumped(cfg, queue, ring) == Min(Movable(cfg, queue, ring), CHUNK * cfg.maxChunks)
  {}

  /** Neither queue, space, chunk count nor maximum limits the pump. */
  predicate Unlimited(cfg: Config, queue: nat, ring: nat) {
    var want := cfg.rbTarget - ring;
    want <= queue && cfg.rbTarget <= cfg.ringCapacity && want <= CHUNK * cfg.maxChunks && cfg.rbTarget <= cfg.rbMax
  }

  lemma UnlimitedPumpFills(cfg: Config, queue: nat, ring: nat)
    requires Unlimited(cfg, queue, ring)
    ensures ring + Pumped(cfg, queue, ring) == Max(ring, cfg.rbTarget)
  {
    PumpedWithoutMax(cfg, queue, ring);
  }

  // ----- The trial -----

  datatype Trial = Trial(
    queue: nat, ring: nat,
    underrunEvents: nat, underrunFrames: nat, underrunWindows: nat, inUnderrun: bool,
    overrunEvents: nat, overrunFrames: nat)

  datatype Cycle = Cycle(callbacks: nat, refills: nat)

  /** No-data in every fourth cycle, starting with the first. */
  predicate BlockingCycleIsData(index: nat) {
    index % 4 != 0
  }

  function Needed(cfg: Config, index: nat): nat {
    if cfg.blocking then (if BlockingCycleIsData(index) then 8 else 0) else 6
  }

  function Start(cfg: Config): Trial {
    var queued := Min(cfg.startWait, cfg.txQueueCapacity);
    var prime := Min(if cfg.primeLimit == 0 then queued else Min(cfg.primeLimit, queued), cfg.ringCapacity);
    Trial(queued - prime, prime, 0, 0, 0, false, 0, 0)
  }

  function OnCallback(cfg: Config, s: Trial): Trial
    requires s.queue <= cfg.txQueueCapacity
  {
    var written := Min(cfg.coreBufferFrames, cfg.txQueueCapacity - s.queue);
    if written < cfg.coreBufferFrames then
      s.(queue := s.queue + written, overrunEvents := s.overrunEvents + 1,
         overrunFrames := s.overrunFrames + (cfg.coreBufferFrames - written))
    else s.(queue := s.queue + written)
  }

  function OnRefill(cfg: Config, s: Trial): Trial {
    var moved := Pumped(cfg, s.queue, s.ring);
    s.(queue := s.queue - moved, ring := s.ring + moved)
  }

  function OnPacket(cfg: Config, s: Trial, index: nat): Trial {
    var needed := Needed(cfg, index);
    if needed == 0 then s
    else if s.ring < needed then
      s.(ring := 0, underrunEvents := s.underrunEvents + 1, underrunFrames := s.underrunFrames + (needed - s.ring),
         underrunWindows := s.underrunWindows + (if s.inUnderrun then 0 else 1), inUnderrun := true)
    else s.(ring := s.ring - needed, inUnderrun := false)
  }

  function Callbacks(cfg: Config, s: Trial, n: nat): (r: Trial)
    requires s.queue <= cfg.txQueueCapacity
    ensures r.queue <= cfg.txQueueCapacity && r.ring == s.ring
  {
    if n == 0 then s else OnCallback(cfg, Callbacks(cfg, s, n - 1))
  }

  function Refills(cfg: Config, s: Trial, n: nat): (r: Trial)
    ensures r.queue + r.ring == s.queue + s.ring && r.queue <= s.queue
    ensures r == s.(queue := r.queue, ring := r.ring)
  {
    if n == 0 then s else OnRefill(cfg, Refills(cfg, s, n - 1))
  }

  /** State after the first n cycles of a schedule. */
  function After(cfg: Config, schedule: seq<Cycle>, n: nat): (r: Trial)
    requires n <= |schedule|
    ensures r.queue <= cfg.txQueueCapacity
    decreases n, 0
  {
    if n == 0 then Start(cfg)
    else OnPacket(cfg, BeforePacket(cfg, schedule, n - 1), n - 1)
  }

  /** State in cycle n once its callbacks and refills have run. */
  function BeforePacket(cfg: Config, schedule: seq<Cycle>, n: nat): (r: Trial)
    requires n < |schedule|
    ensures r.queue <= cfg.txQueueCapacity
    decreases n, 1
  {
    Refills(cfg, Callbacks(cfg, After(cfg, schedule, n), schedule[n].callbacks), schedule[n].refills)
  }

  method RunCallbacks(cfg: Config, s: Trial, n: nat) returns (r: Trial)
    requires s.queue <= cfg.txQueueCapacity
    ensures r == Callbacks(cfg, s, n)
  {
    r := s;
    var k := 0;
    while k < n
      invariant k <= n && r == Callbacks(cfg, s, k)
    {
      var written := Min(cfg.coreBufferFrames, cfg.txQueueCapacity - r.queue);
      r := r.(queue := r.queue + written);
      if written < cfg.coreBufferFrames {
        r := r.(overrunEvents := r.overrunEvents + 1,
                overrunFrames := r.overrunFrames + (cfg.coreBufferFrames - written));
      }
      k := k + 1;
    }
  }

  method RunRefills(cfg: Config, s: Trial, n: nat) returns (r: Trial)
    ensures r == Refills(cfg, s, n)
  {
    r := s;
    var k := 0;
    while k < n
      invariant k <= n && r == Refills(cfg, s, k)
    {
      var queue, ring, pumped := ApplyLegacyRefill(r.queue, r.ring, cfg);
      r := r.(queue := queue, ring := ring);
      k := k + 1;
    }
  }

  method RunPacket(cfg: Config, s: Trial, index: nat) returns (r: Trial)
    ensures r == OnPacket(cfg, s, index)
  {
    r := s;
    var needed := Needed(cfg, index);
    if needed > 0 {
      if r.ring < needed {
        r := r.(underrunEvents := r.underrunEvents + 1, underrunFrames := r.underrunFrames + (needed - r.ring));
        if !r.inUnderrun {
          r := r.(underrunWindows := r.underrunWindows + 1, inUnderrun := true);
        }
        r := r.(ring := 0);
      } else {
        r := r.(ring := r.ring - needed, inUnderrun := false);
      }
    }
  }

  /** The simulation loop, over any schedule. */
  method RunTrial(cfg: Config, schedule: seq<Cycle>) returns (r: Trial)
    ensures r == After(cfg, schedule, |schedule|)
    ensures Conserved(cfg, schedule, |schedule|, r)
  {
    r := Start(cfg);
    for cycle := 0 to |schedule|
      invariant r == After(cfg, schedule, cycle)
    {
      r := RunCallbacks(cfg, r, schedule[cycle].callbacks);
      r := RunRefills(cfg, r, schedule[cycle].refills);
      r := RunPacket(cfg, r, cycle);
    }
    Conservation(cfg, schedule, |schedule|);
  }

  // ----- Conservation -----

  function CallbackCount(schedule: seq<Cycle>, n: nat): nat
    requires n <= |schedule|
  {
    if n == 0 then 0 else CallbackCount(schedule, n - 1) + schedule[n - 1].callbacks
  }

  function NeededFrames(cfg: Config, n: nat): nat {
    if n == 0 then 0 else NeededFrames(cfg, n - 1) + Needed(cfg, n - 1)
  }

  lemma QuarterStep(n: nat)
    ensures (n + 4) / 4 == (n + 3) / 4 + if BlockingCycleIsData(n) then 0 else 1
  {}

  /** Needed frames of the first n cycles. */
  lemma {:induction false} NeededFramesClosed(cfg: Config, n: nat)
    ensures NeededFrames(cfg, n) == if cfg.blocking then 8 * (n - (n + 3) / 4) else 6 * n
  {
    if n == 0 {
    } else {
      NeededFramesClosed(cfg, n - 1);
      QuarterStep(n - 1);
    }
  }

  lemma {:induction false} CallbacksConserve(cfg: Config, s: Trial, n: nat)
    requires s.queue <= cfg.txQueueCapacity
    ensures var r := Callbacks(cfg, s, n);
            && r.queue - s.queue + (r.overrunFrames - s.overrunFrames) == n * cfg.coreBufferFrames
            && r.underrunFrames == s.underrunFrames
  {
    if n == 0 {
    } else {
      CallbacksConserve(cfg, s, n - 1);
      MulDist(n - 1, 1, cfg.coreBufferFrames);
    }
  }

  /** The frames queued at the start and written since are in the queue, in the ring, or delivered. Written is
      offered less overrun; delivered is needed less underrun. */
  predicate Conserved(cfg: Config, schedule: seq<Cycle>, n: nat, s: Trial)
    requires n <= |schedule|
  {
    Min(cfg.startWait, cfg.txQueueCapacity) + (CallbackCount(schedule, n) * cfg.coreBufferFrames - s.overrunFrames)
    == s.queue + s.ring + (NeededFrames(cfg, n) - s.underrunFrames)
  }

  /** Over every schedule no frame is lost or made up. */
  lemma {:induction false} Conservation(cfg: Config, schedule: seq<Cycle>, n: nat)
    requires n <= |schedule|
    ensures Conserved(cfg, schedule, n, After(cfg, schedule, n))
  {
    if n == 0 {
    } else {
      Conservation(cfg, schedule, n - 1);
      var s, k := After(cfg, schedule, n - 1), schedule[n - 1].callbacks;
      CallbacksConserve(cfg, s, k);
      MulDist(CallbackCount(schedule, n - 1), k, cfg.coreBufferFrames);
    }
  }

  // ----- Underrun freedom -----

  /** The most that n consecutive cycles can need, whatever the phase they begin in. */
  function WorstDemand(blocking: bool, n: nat): nat {
    if blocking then 8 * (n - n / 4) else 6 * n
  }

  lemma DemandBound(cfg: Config, m: nat, n: nat)
    requires m <= n
    ensures NeededFrames(cfg, n) - NeededFrames(cfg, m) <= WorstDemand(cfg.blocking, n - m)
  {
    NeededFramesClosed(cfg, m);
    NeededFramesClosed(cfg, n);
    DivDiff(m + 3, n - m, 4);
  }

  /** The worst phase begins right after the no-data cycle. */
  lemma WorstPhase(cfg: Config, n: nat)
    ensures cfg.blocking ==> NeededFrames(cfg, n + 1) == WorstDemand(true, n)
    ensures !cfg.blocking ==> NeededFrames(cfg, n) == WorstDemand(false, n)
  {
    NeededFramesClosed(cfg, n);
    NeededFramesClosed(cfg, n + 1);
    DivShift(n, 4, 1);
  }

  /** The k-th refill of cycle n finds the pump unlimited. */
  ghost predicate UnlimitedAt(cfg: Config, schedule: seq<Cycle>, n: nat, k: nat)
    requires n < |schedule|
  {
    var s := Refills(cfg, Callbacks(cfg, After(cfg, schedule, n), schedule[n].callbacks), k);
    Unlimited(cfg, s.queue, s.ring)
  }

  ghost predicate PumpUnlimited(cfg: Config, schedule: seq<Cycle>) {
    forall n: nat, k: nat :: n < |schedule| && k < schedule[n].refills ==> UnlimitedAt(cfg, schedule, n, k)
  }

  /** Cycle n lies less than `gap` cycles after a refill. */
  ghost predicate Covered(schedule: seq<Cycle>, first: nat, gap: nat, n: nat)
    requires n < |schedule|
  {
    exists m: nat :: first <= m <= n && n < m + gap && schedule[m].refills > 0
  }

  /** From cycle `first` on, refills are at most `gap` cycles apart. */
  ghost predicate RefilledWithin(schedule: seq<Cycle>, first: nat, gap: nat) {
    forall n: nat :: first <= n < |schedule| ==> Covered(schedule, first, gap, n)
  }

  lemma RefillFills(cfg: Config, schedule: seq<Cycle>, n: nat)
    requires n < |schedule| && schedule[n].refills > 0 && UnlimitedAt(cfg, schedule, n, schedule[n].refills - 1)
    ensures BeforePacket(cfg, schedule, n).ring >= cfg.rbTarget
  {
    var t := Refills(cfg, Callbacks(cfg, After(cfg, schedule, n), schedule[n].callbacks), schedule[n].refills - 1);
    UnlimitedPumpFills(cfg, t.queue, t.ring);
  }

  /** A cycle's packet takes what the cycle needs, when the ring holds it. */
  lemma PacketStep(cfg: Config, schedule: seq<Cycle>, n: nat)
    requires n + 1 < |schedule|
    requires BeforePacket(cfg, schedule, n).ring >= Needed(cfg, n)
    ensures BeforePacket(cfg, schedule, n + 1).ring >= BeforePacket(cfg, schedule, n).ring - Needed(cfg, n)
  {
    var queued := Callbacks(cfg, After(cfg, schedule, n + 1), schedule[n + 1].callbacks);
    RefillsOnlyAdd(cfg, queued, schedule[n + 1].refills);
  }

  lemma {:induction false} RefillsOnlyAdd(cfg: Config, s: Trial, n: nat)
    ensures Refills(cfg, s, n).ring >= s.ring
  {
    if n == 0 {
    } else {
      RefillsOnlyAdd(cfg, s, n - 1);
    }
  }

  /** The ring level since a refill has dropped by at most what the cycles since then needed. */
  lemma {:induction false} LevelSinceRefill(cfg: Config, schedule: seq<Cycle>, m: nat, n: nat)
    requires PumpUnlimited(cfg, schedule)
    requires m <= n < |schedule| && schedule[m].refills > 0
    requires cfg.rbTarget >= NeededFrames(cfg, n) - NeededFrames(cfg, m)
    ensures BeforePacket(cfg, schedule, n).ring >= cfg.rbTarget - (NeededFrames(cfg, n) - NeededFrames(cfg, m))
    decreases n
  {
    if m == n {
      assert UnlimitedAt(cfg, schedule, n, schedule[n].refills - 1);
      RefillFills(cfg, schedule, n);
    } else {
      LevelSinceRefill(cfg, schedule, m, n - 1);
      PacketStep(cfg, schedule, n - 1);
    }
  }

  lemma {:induction false} WorstDemandMono(blocking: bool, m: nat, n: nat)
    requires m <= n
    ensures WorstDemand(blocking, m) <= WorstDemand(blocking, n)
    decreases n
  {
    if m == n {
    } else {
      WorstDemandMono(blocking, m, n - 1);
    }
  }

  /** A packet that finds what it needs in the ring adds no underrun. */
  lemma FedPacket(cfg: Config, schedule: seq<Cycle>, n: nat)
    requires n < |schedule| && BeforePacket(cfg, schedule, n).ring >= Needed(cfg, n)
    ensures After(cfg, schedule, n + 1).underrunFrames == After(cfg, schedule, n).underrunFrames
  {
    CallbacksConserve(cfg, After(cfg, schedule, n), schedule[n].callbacks);
  }

  /** No cycle from the first refill on underruns when the target covers the worst gap. */
  lemma NoUnderrun(cfg: Config, schedule: seq<Cycle>, first: nat, gap: nat, n: nat)
    requires PumpUnlimited(cfg, schedule) && RefilledWithin(schedule, first, gap)
    requires WorstDemand(cfg.blocking, gap) <= cfg.rbTarget
    requires first <= n < |schedule|
    ensures After(cfg, schedule, n + 1).underrunFrames == After(cfg, schedule, n).underrunFrames
  {
    assert Covered(schedule, first, gap, n);
    var m: nat :| first <= m <= n && n < m + gap && schedule[m].refills > 0;
    DemandBound(cfg, m, n + 1);
    WorstDemandMono(cfg.blocking, n + 1 - m, gap);
    LevelSinceRefill(cfg, schedule, m, n);
    FedPacket(cfg, schedule, n);
  }

  /** And not otherwise: with a smaller target, a ring primed to it and refilled to it at the start of the worst
      phase runs dry within the gap. */
  lemma ShortTargetUnderruns(blocking: bool, target: nat, gap: nat)
    returns (cfg: Config, schedule: seq<Cycle>, first: nat)
    requires gap > 0 && target < WorstDemand(blocking, gap)
    ensures cfg.blocking == blocking && cfg.rbTarget == target
    ensures |schedule| == first + gap && PumpUnlimited(cfg, schedule) && RefilledWithin(schedule, first, gap)
    ensures After(cfg, schedule, first + gap).underrunFrames > After(cfg, schedule, first).underrunFrames
  {
    cfg := Config(0, target, target, target, 0, target, target, target, blocking);
    first := if blocking then 1 else 0;
    schedule := seq(first + gap, n => Cycle(0, if n == first then 1 else 0));
    assert After(cfg, schedule, first) == Start(cfg);
    assert UnlimitedAt(cfg, schedule, first, 0);
    assert schedule[first].refills > 0;
    forall n: nat | first <= n < |schedule|
      ensures Covered(schedule, first, gap, n)
    {
      assert schedule[first].refills > 0;
    }
    NoCallbacks(schedule, first + gap);
    WorstPhase(cfg, gap);
    DrainedByDemand(cfg, schedule, first + gap);
  }

  /** Without callbacks, demand beyond what was queued at the start is underrun. */
  lemma DrainedByDemand(cfg: Config, schedule: seq<Cycle>, n: nat)
    requires n <= |schedule| && CallbackCount(schedule, n) == 0
    requires Min(cfg.startWait, cfg.txQueueCapacity) < NeededFrames(cfg, n)
    ensures After(cfg, schedule, n).underrunFrames > 0
  {
    Conservation(cfg, schedule, n);
    assert 0 * cfg.coreBufferFrames == 0;
  }

  lemma {:induction false} NoCallbacks(schedule: seq<Cycle>, n: nat)
    requires n <= |schedule| && forall i :: 0 <= i < |schedule| ==> schedule[i].callbacks == 0
    ensures CallbackCount(schedule, n) == 0
  {
    if n == 0 {
    } else {
      NoCallbacks(schedule, n - 1);
    }
  }

  /** So refills at most `gap` cycles apart are safe for every run exactly when the target holds the worst
      demand of `gap` cycles: 8 * (gap - gap / 4) frames in blocking mode, 6 * gap otherwise. */
  lemma UnderrunThreshold(blocking: bool, target: nat, gap: nat)
    requires gap > 0
    ensures (forall cfg: Config, schedule: seq<Cycle>, first: nat, n: nat ::
               cfg.blocking == blocking && cfg.rbTarget == target && PumpUnlimited(cfg, schedule)
               && RefilledWithin(schedule, first, gap) && first <= n < |schedule| ==>
                 After(cfg, schedule, n + 1).underrunFrames == After(cfg, schedule, n).underrunFrames)
            <==> (if blocking then 8 * (gap - gap / 4) else 6 * gap) <= target
  {
    if WorstDemand(blocking, gap) <= target {
      forall cfg: Config, schedule: seq<Cycle>, first: nat, n: nat |
        cfg.blocking == blocking && cfg.rbTarget == target && PumpUnlimited(cfg, schedule)
        && RefilledWithin(schedule, first, gap) && first <= n < |schedule|
        ensures After(cfg, schedule, n + 1).underrunFrames == After(cfg, schedule, n).underrunFrames
      {
        NoUnderrun(cfg, schedule, first, gap, n);
      }
    } else {
      var cfg, schedule, first := ShortTargetUnderruns(blocking, target, gap);
      var n := SomeStepChanges(cfg, schedule, first, first + gap);
    }
  }

  lemma {:induction false} SomeStepChanges(cfg: Config, schedule: seq<Cycle>, a: nat, b: nat) returns (n: nat)
    requires a < b <= |schedule|
    requires After(cfg, schedule, a).underrunFrames != After(cfg, schedule, b).underrunFrames
    ensures a <= n < b && After(cfg, schedule, n + 1).underrunFrames != After(cfg, schedule, n).underrunFrames
    decreases b
  {
    if After(cfg, schedule, b - 1).underrunFrames != After(cfg, schedule, b).underrunFrames {
      n := b - 1;
    } else {
      n := SomeStepChanges(cfg, schedule, a, b - 1);
    }
  }
}
