/** What the counters of a buffer trial count, over levels computed apart from the trial's own steps. */
module TrialCounters {
  import opened Arith
  import opened RefillPump

  // ----- Levels of queue and ring -----

  datatype Levels = Levels(queue: int, ring: int)

  /** Frames a cycle needs: eight but none in every fourth in blocking mode, six otherwise. */
  function Need(blocking: bool, n: nat): nat {
    if !blocking then 6 else if n % 4 == 0 then 0 else 8
  }

  /** Levels at the start: as much as may be primed is in the ring, the rest of what was queued in the queue. */
  function StartLevels(cfg: Config): Levels {
    var queued := Min(cfg.startWait, cfg.txQueueCapacity);
    var limit := if cfg.primeLimit == 0 then queued else cfg.primeLimit;
    var ring := Min(queued, Min(limit, cfg.ringCapacity));
    Levels(queued - ring, ring)
  }

  /** Levels after k refills. */
  function Refilled(cfg: Config, l: Levels, k: nat): (r: Levels)
    requires l.queue >= 0 && l.ring >= 0
    ensures r.queue >= 0 && r.ring >= 0
  {
    if k == 0 then l
    else
      var before := Refilled(cfg, l, k - 1);
      var moved := Pumped(cfg, before.queue, before.ring);
      Levels(before.queue - moved, before.ring + moved)
  }

  /** Levels when the packet of cycle n is due: every callback adds its frames up to the capacity. */
  function LevelsDue(cfg: Config, schedule: seq<Cycle>, n: nat): (r: Levels)
    requires n < |schedule|
    ensures r.queue >= 0 && r.ring >= 0
    decreases n, 1
  {
    var l := LevelsAt(cfg, schedule, n);
    var written := l.queue + schedule[n].callbacks * cfg.coreBufferFrames;
    Refilled(cfg, Levels(Min(cfg.txQueueCapacity, written), l.ring), schedule[n].refills)
  }

  /** Levels before cycle n: every packet takes what it needs, or what is left. */
  function LevelsAt(cfg: Config, schedule: seq<Cycle>, n: nat): (r: Levels)
    requires n <= |schedule|
    ensures r.queue >= 0 && r.ring >= 0
    decreases n, 0
  {
    if n == 0 then StartLevels(cfg)
    else
      var l := LevelsDue(cfg, schedule, n - 1);
      Levels(l.queue, l.ring - Min(l.ring, Need(cfg.blocking, n - 1)))
  }

  // ----- What there is to count -----

  /** The packet of cycle n finds less than it needs. */
  predicate Short(cfg: Config, schedule: seq<Cycle>, n: nat)
    requires n < |schedule|
  {
    LevelsDue(cfg, schedule, n).ring < Need(cfg.blocking, n)
  }

  function ShortCycles(cfg: Config, schedule: seq<Cycle>, n: nat): nat
    requires n <= |schedule|
  {
    if n == 0 then 0 else ShortCycles(cfg, schedule, n - 1) + if Short(cfg, schedule, n - 1) then 1 else 0
  }

  function FramesShort(cfg: Config, schedule: seq<Cycle>, n: nat): nat
    requires n <= |schedule|
  {
    if n == 0 then 0
    else FramesShort(cfg, schedule, n - 1)
         + Max(0, Need(cfg.blocking, n - 1) - LevelsDue(cfg, schedule, n - 1).ring)
  }

  /** The last cycle before n that needs frames is m. */
  ghost predicate LastNeeding(blocking: bool, m: nat, n: nat) {
    m < n && Need(blocking, m) > 0 && forall j: nat :: m < j < n ==> Need(blocking, j) == 0
  }

  /** Of the cycles before n that need frames, the last one was short. */
  ghost predicate LastWasShort(cfg: Config, schedule: seq<Cycle>, n: nat)
    requires n <= |schedule|
  {
    exists m: nat :: LastNeeding(cfg.blocking, m, n) && Short(cfg, schedule, m)
  }

  /** Maximal runs of short cycles among the cycles that need frames: a run begins with a short cycle whose
      predecessor among those was not short. */
  ghost function ShortRuns(cfg: Config, schedule: seq<Cycle>, n: nat): nat
    requires n <= |schedule|
  {
    if n == 0 then 0
    else ShortRuns(cfg, schedule, n - 1)
         + if Short(cfg, schedule, n - 1) && !LastWasShort(cfg, schedule, n - 1) then 1 else 0
  }

  /** Of k callbacks that find q frames queued, those that do not fit whole. */
  function Unfit(cfg: Config, q: int, k: nat): nat {
    if k == 0 then 0
    else Unfit(cfg, q, k - 1) + if q + k * cfg.coreBufferFrames > cfg.txQueueCapacity then 1 else 0
  }

  function UnfitCallbacks(cfg: Config, schedule: seq<Cycle>, n: nat): nat
    requires n <= |schedule|
  {
    if n == 0 then 0
    else UnfitCallbacks(cfg, schedule, n - 1)
         + Unfit(cfg, LevelsAt(cfg, schedule, n - 1).queue, schedule[n - 1].callbacks)
  }

  function FramesLost(cfg: Config, schedule: seq<Cycle>, n: nat): nat
    requires n <= |schedule|
  {
    if n == 0 then 0
    else
      var offered := LevelsAt(cfg, schedule, n - 1).queue + schedule[n - 1].callbacks * cfg.coreBufferFrames;
      FramesLost(cfg, schedule, n - 1) + Max(0, offered - cfg.txQueueCapacity)
  }

  // ----- The start -----

  /** The ring is primed with the least of start wait, queue capacity, ring capacity, and the prime limit when
      there is one; the queue keeps the rest, and nothing has been counted. */
  lemma StartState(cfg: Config)
    ensures var s := Start(cfg);
            && s.ring <= cfg.startWait && s.ring <= cfg.txQueueCapacity && s.ring <= cfg.ringCapacity
            && (cfg.primeLimit != 0 ==> s.ring <= cfg.primeLimit)
            && (s.ring == cfg.startWait || s.ring == cfg.txQueueCapacity || s.ring == cfg.ringCapacity
                || (cfg.primeLimit != 0 && s.ring == cfg.primeLimit))
            && s.queue + s.ring == (if cfg.startWait <= cfg.txQueueCapacity then cfg.startWait
                                    else cfg.txQueueCapacity)
            && s.underrunEvents == s.underrunFrames == s.underrunWindows == s.overrunEvents == s.overrunFrames == 0
            && !s.inUnderrun
  {}

  // ----- The pump, in numbers -----

  /** One call moves the most frames that stay within the shortfall, the queue, the free space, 256 a chunk, and
      the chunks it takes to reach the maximum, of which there is always one. */
  lemma PumpedIsMost(cfg: Config, queue: nat, ring: nat, chunks: nat)
    requires (chunks >= 1 && ring + 256 * (chunks - 1) < cfg.rbMax <= ring + 256 * chunks)
             || (chunks == 1 && cfg.rbMax <= ring)
    ensures var m := Pumped(cfg, queue, ring);
            if cfg.rbTarget <= ring || cfg.ringCapacity <= ring then m == 0
            else
              && m <= cfg.rbTarget - ring && m <= queue && m <= cfg.ringCapacity - ring
              && m <= 256 * cfg.maxChunks && m <= 256 * chunks
              && (m == cfg.rbTarget - ring || m == queue || m == cfg.ringCapacity - ring
                  || m == 256 * cfg.maxChunks || m == 256 * chunks)
  {
    assert ChunksToMax(cfg, ring) == chunks;
  }

  // ----- The counters -----

  lemma OneCallback(cfg: Config, s: Trial)
    requires s.queue <= cfg.txQueueCapacity
    ensures var r, offered := OnCallback(cfg, s), s.queue + cfg.coreBufferFrames;
            && r.queue == Min(cfg.txQueueCapacity, offered)
            && r.overrunEvents == s.overrunEvents + (if offered > cfg.txQueueCapacity then 1 else 0)
            && r.overrunFrames == s.overrunFrames + Max(0, offered - cfg.txQueueCapacity)
            && r == s.(queue := r.queue, overrunEvents := r.overrunEvents, overrunFrames := r.overrunFrames)
  {}

  /** What k callbacks leave: the queue filled up, the unfit ones counted, and the excess lost. */
  ghost predicate CallbacksLeave(cfg: Config, s: Trial, k: nat, r: Trial) {
    && r.queue == Min(cfg.txQueueCapacity, s.queue + k * cfg.coreBufferFrames)
    && r.overrunEvents == s.overrunEvents + Unfit(cfg, s.queue, k)
    && r.overrunFrames == s.overrunFrames + Max(0, s.queue + k * cfg.coreBufferFrames - cfg.txQueueCapacity)
    && r == s.(queue := r.queue, overrunEvents := r.overrunEvents, overrunFrames := r.overrunFrames)
  }

  lemma CallbackStep(cfg: Config, s: Trial, k: nat, t: Trial, r: Trial)
    requires s.queue <= cfg.txQueueCapacity && k > 0 && CallbacksLeave(cfg, s, k - 1, t) && r == OnCallback(cfg, t)
    ensures CallbacksLeave(cfg, s, k, r)
  {
    OneCallback(cfg, t);
    MulDist(k - 1, 1, cfg.coreBufferFrames);
    MulLe(0, k - 1, cfg.coreBufferFrames);
  }

  lemma {:induction false} CallbacksFill(cfg: Config, s: Trial, k: nat)
    requires s.queue <= cfg.txQueueCapacity
    ensures CallbacksLeave(cfg, s, k, Callbacks(cfg, s, k))
  {
    if k == 0 {
    } else {
      CallbacksFill(cfg, s, k - 1);
      CallbackStep(cfg, s, k, Callbacks(cfg, s, k - 1), Callbacks(cfg, s, k));
    }
  }

  ghost predicate RefillsLeave(cfg: Config, s: Trial, k: nat, r: Trial) {
    && Levels(r.queue, r.ring) == Refilled(cfg, Levels(s.queue, s.ring), k)
    && r == s.(queue := r.queue, ring := r.ring)
  }

  lemma RefillStep(cfg: Config, s: Trial, k: nat, t: Trial)
    requires k > 0 && RefillsLeave(cfg, s, k - 1, t)
    ensures RefillsLeave(cfg, s, k, OnRefill(cfg, t))
  {
    var moved := Pumped(cfg, t.queue, t.ring);
    assert OnRefill(cfg, t) == t.(queue := t.queue - moved, ring := t.ring + moved);
  }

  lemma {:induction false} RefillsMove(cfg: Config, s: Trial, k: nat)
    ensures RefillsLeave(cfg, s, k, Refills(cfg, s, k))
  {
    if k == 0 {
    } else {
      RefillsMove(cfg, s, k - 1);
      RefillStep(cfg, s, k, Refills(cfg, s, k - 1));
    }
  }

  /** Counters and levels of a state before cycle n. */
  ghost predicate Counts(cfg: Config, schedule: seq<Cycle>, n: nat, s: Trial)
    requires n <= |schedule|
  {
    && Levels(s.queue, s.ring) == LevelsAt(cfg, schedule, n)
    && s.underrunEvents == ShortCycles(cfg, schedule, n)
    && s.underrunFrames == FramesShort(cfg, schedule, n)
    && s.underrunWindows == ShortRuns(cfg, schedule, n)
    && (s.inUnderrun <==> LastWasShort(cfg, schedule, n))
    && s.overrunEvents == UnfitCallbacks(cfg, schedule, n)
    && s.overrunFrames == FramesLost(cfg, schedule, n)
  }

  lemma NeededIsNeed(cfg: Config, n: nat)
    ensures Needed(cfg, n) == Need(cfg.blocking, n)
  {}

  lemma LastShortStep(cfg: Config, schedule: seq<Cycle>, n: nat)
    requires n < |schedule|
    ensures LastWasShort(cfg, schedule, n + 1)
            <==> if Need(cfg.blocking, n) == 0 then LastWasShort(cfg, schedule, n) else Short(cfg, schedule, n)
  {
    if Need(cfg.blocking, n) == 0 {
      if LastWasShort(cfg, schedule, n) {
        var m: nat :| LastNeeding(cfg.blocking, m, n) && Short(cfg, schedule, m);
        assert LastNeeding(cfg.blocking, m, n + 1);
      }
      if LastWasShort(cfg, schedule, n + 1) {
        var m: nat :| LastNeeding(cfg.blocking, m, n + 1) && Short(cfg, schedule, m);
        assert m != n && LastNeeding(cfg.blocking, m, n);
      }
    } else {
      assert LastNeeding(cfg.blocking, n, n + 1);
      if LastWasShort(cfg, schedule, n + 1) {
        var m: nat :| LastNeeding(cfg.blocking, m, n + 1) && Short(cfg, schedule, m);
        assert m == n;
      }
    }
  }

  /** The state when the packet of cycle n is due: the levels, and the callbacks of the cycle counted. */
  ghost predicate CountsWhenDue(cfg: Config, schedule: seq<Cycle>, n: nat, s: Trial, r: Trial)
    requires n < |schedule|
  {
    && Levels(r.queue, r.ring) == LevelsDue(cfg, schedule, n)
    && r == s.(queue := r.queue, ring := r.ring,
               overrunEvents := UnfitCallbacks(cfg, schedule, n + 1),
               overrunFrames := FramesLost(cfg, schedule, n + 1))
  }

  lemma CountsDue(cfg: Config, schedule: seq<Cycle>, n: nat)
    requires n < |schedule| && Counts(cfg, schedule, n, After(cfg, schedule, n))
    ensures CountsWhenDue(cfg, schedule, n, After(cfg, schedule, n), BeforePacket(cfg, schedule, n))
  {
    var s, k := After(cfg, schedule, n), schedule[n].callbacks;
    var t := Callbacks(cfg, s, k);
    CallbacksFill(cfg, s, k);
    RefillsMove(cfg, t, schedule[n].refills);
    DueFrom(cfg, schedule, n, s, t, BeforePacket(cfg, schedule, n));
  }

  lemma DueFrom(cfg: Config, schedule: seq<Cycle>, n: nat, s: Trial, t: Trial, r: Trial)
    requires n < |schedule| && Counts(cfg, schedule, n, s)
    requires CallbacksLeave(cfg, s, schedule[n].callbacks, t) && RefillsLeave(cfg, t, schedule[n].refills, r)
    ensures CountsWhenDue(cfg, schedule, n, s, r)
  {}

  lemma CountsPacket(cfg: Config, schedule: seq<Cycle>, n: nat, s: Trial, r: Trial)
    requires n < |schedule| && Counts(cfg, schedule, n, s) && CountsWhenDue(cfg, schedule, n, s, r)
    ensures Counts(cfg, schedule, n + 1, OnPacket(cfg, r, n))
  {
    NeededIsNeed(cfg, n);
    LastShortStep(cfg, schedule, n);
  }

  /** Over every schedule the counters count what they are named for: short cycles, the frames they lack, the
      maximal runs of them, callbacks that do not fit, and the frames those lose. */
  lemma {:induction false} TrialCounts(cfg: Config, schedule: seq<Cycle>, n: nat)
    requires n <= |schedule|
    ensures Counts(cfg, schedule, n, After(cfg, schedule, n))
  {
    if n == 0 {
      CountsAtStart(cfg, schedule);
    } else {
      TrialCounts(cfg, schedule, n - 1);
      CountsDue(cfg, schedule, n - 1);
      CountsPacket(cfg, schedule, n - 1, After(cfg, schedule, n - 1), BeforePacket(cfg, schedule, n - 1));
    }
  }

  lemma CountsAtStart(cfg: Config, schedule: seq<Cycle>)
    ensures Counts(cfg, schedule, 0, Start(cfg))
  {}
}
