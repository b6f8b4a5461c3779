/** Laws that every run of the blocking engine obeys: window counts, periodicity,
    the SYT delta and gap patterns, and invariance under rate scaling. */
module CadenceLaws {
  import opened Arith
  import opened BlockingEngine
  import opened Options

  // ----- From emitted decisions to event counts -----

  function DataPackets(ds: seq<Decision>): nat {
    if ds == [] then 0 else DataPackets(ds[..|ds| - 1]) + if ds[|ds| - 1].isData then 1 else 0
  }

  function FrameTotal(ds: seq<Decision>): nat {
    if ds == [] then 0 else FrameTotal(ds[..|ds| - 1]) + ds[|ds| - 1].frames
  }

  /** Any stretch of a run carries exactly the events whose deadlines lie in it. */
  lemma {:induction false} RunCarriesEvents(p: Params, c: nat, ds: seq<Decision>)
    requires p.Valid()
    requires forall i :: 0 <= i < |ds| ==> Emits(p, c + i, ds[i])
    ensures DataPackets(ds) == Count(p, c + |ds|) - Count(p, c)
    ensures FrameTotal(ds) == DataPackets(ds) * p.sytInterval
  {
    if ds == [] {
    } else {
      var k := |ds| - 1;
      RunCarriesEvents(p, c, ds[..k]);
      CountStep(p, c + k);
      EventWindow(p, c + k);
      assert Emits(p, c + k, ds[k]);
      MulDist(DataPackets(ds[..k]), 1, p.sytInterval);
    }
  }

  /** Every packet of a run, from the parameters and the data packets before it alone: with n data packets sent,
      the next is due at seed + n steps, goes out in the cycle that contains it, and all packets until then carry
      the same DBC, dbc0 first and n intervals further modulo 256 afterwards. */
  lemma RunIsDda(p: Params, ds: seq<Decision>, i: nat)
    requires p.Valid() && i < |ds|
    requires forall k :: 0 <= k < |ds| ==> Emits(p, k, ds[k])
    ensures var n, d := DataPackets(ds[..i]), ds[i];
            var due := p.seed + n * p.stepNum;
            && d.cycle == i
            && d.dbc == (if n == 0 then p.dbc0 else (p.dbc0 + n * p.sytInterval) % 256)
            && (d.isData <==> due < (i + 1) * (3072 * p.stepDen))
            && (d.isData ==> d.frames == p.sytInterval && d.deadlineFloor == Some(due / p.stepDen)
                             && d.sytOffset.Some? && d.sytOffset.value + 3072 * i == due / p.stepDen)
            && (!d.isData ==> d.frames == 0 && d.deadlineFloor.None? && d.sytOffset.None?)
  {
    RunCarriesEvents(p, 0, ds[..i]);
    EventWindow(p, i);
    assert Emits(p, i, ds[i]);
  }

  /** Event n is emitted in cycle EventCycle(n) and nowhere else, with its own offset. */
  lemma EventIsEmittedOnce(p: Params, ds: seq<Decision>, n: nat)
    requires p.Valid()
    requires forall i :: 0 <= i < |ds| ==> Emits(p, i, ds[i])
    requires EventCycle(p, n) < |ds|
    ensures var d := ds[EventCycle(p, n)];
            d.isData && d.deadlineFloor == Some(EventTick(p, n)) && d.dbc == Dbc(p, n)
            && d.sytOffset.Some? && d.sytOffset.value < TICKS_PER_CYCLE
            && d.sytOffset.value == EventTick(p, n) % TICKS_PER_CYCLE
    ensures forall i :: 0 <= i < |ds| && ds[i].deadlineFloor == Some(EventTick(p, n)) ==> i == EventCycle(p, n)
  {
    OffsetInCycle(p, n);
    assert Emits(p, EventCycle(p, n), ds[EventCycle(p, n)]);
    forall i | 0 <= i < |ds| && ds[i].deadlineFloor == Some(EventTick(p, n))
      ensures i == EventCycle(p, n)
    {
      assert Emits(p, i, ds[i]);
      var m: nat :| EventCycle(p, m) == i;
      OffsetInCycle(p, m);
    }
  }

  // ----- Window counts -----

  /** The start of cycle c is past startup when the first event is less than a step away. */
  predicate PastStartup(p: Params, c: nat) {
    p.seed < c * p.CycleSub() + p.stepNum
  }

  lemma CountFloor(p: Params, c: nat)
    requires p.Valid() && PastStartup(p, c)
    ensures Count(p, c) == (c * p.CycleSub() - p.seed - 1) / p.stepNum + 1
  {
    var x := c * p.CycleSub() - p.seed;
    if x <= 0 {
      DivUnique(x - 1, p.stepNum, -1);
    }
  }

  /** Every window past startup holds the floor or the ceiling of its ideal event count. */
  lemma WindowCount(p: Params, c: nat, w: nat)
    requires p.Valid() && PastStartup(p, c)
    ensures var ideal := w * p.CycleSub();
            && ideal / p.stepNum <= Count(p, c + w) - Count(p, c) <= ideal / p.stepNum + 1
            && (ideal % p.stepNum == 0 ==> Count(p, c + w) - Count(p, c) == ideal / p.stepNum)
  {
    MulDist(c, w, p.CycleSub());
    CountFloor(p, c);
    CountFloor(p, c + w);
    DivDiff(c * p.CycleSub() - p.seed - 1, w * p.CycleSub(), p.stepNum);
  }

  /** When P cycles are exactly K steps, the timeline shifted by K events is the timeline shifted by P cycles. */
  lemma EventShift(p: Params, P: nat, K: nat, n: nat)
    requires p.Valid() && P * p.CycleSub() == K * p.stepNum
    ensures EventCycle(p, n + K) == EventCycle(p, n) + P
    ensures EventTick(p, n + K) == EventTick(p, n) + P * TICKS_PER_CYCLE
  {
    ShiftedDeadline(p, P, K, n);
    DivShift(Deadline(p, n), p.CycleSub(), P);
    DivShift(Deadline(p, n), p.stepDen, P * TICKS_PER_CYCLE);
  }

  lemma ShiftedDeadline(p: Params, P: nat, K: nat, n: nat)
    requires P * p.CycleSub() == K * p.stepNum
    ensures Deadline(p, n + K) == Deadline(p, n) + P * p.CycleSub()
    ensures P * p.CycleSub() == (P * TICKS_PER_CYCLE) * p.stepDen
  {
    MulDist(n, K, p.stepNum);
    MulAssoc(P, TICKS_PER_CYCLE, p.stepDen);
  }

  /** A P-cycle window holds exactly K packets precisely when it starts past startup. */
  lemma PeriodWindowExact(p: Params, P: nat, K: nat, c: nat)
    requires p.Valid() && K > 0 && P * p.CycleSub() == K * p.stepNum
    ensures Count(p, c + P) - Count(p, c) == K <==> PastStartup(p, c)
  {
    if PastStartup(p, c) {
      WindowCount(p, c, P);
      DivUnique(K * p.stepNum, p.stepNum, K);
    } else {
      CountIsEventsBefore(p, 0, c);
      CountIsEventsBefore(p, K - 1, c + P);
      MulDist(c, P, p.CycleSub());
      MulDist(K - 1, 1, p.stepNum);
    }
  }

  // ----- Which counts the windows of a run show -----

  predicate WindowHolds(p: Params, c: nat, w: nat, n: nat)
    requires p.Valid()
  {
    Count(p, c + w) == Count(p, c) + n
  }

  /** Some window of w cycles that starts within the P cycles from `first` holds n packets. */
  ghost predicate Observed(p: Params, first: nat, P: nat, w: nat, n: nat)
    requires p.Valid()
  {
    exists c: nat :: first <= c < first + P && WindowHolds(p, c, w, n)
  }

  lemma PastStartupMono(p: Params, c: nat, c': nat)
    requires p.Valid() && PastStartup(p, c) && c <= c'
    ensures PastStartup(p, c')
  {
    MulLe(c, c', p.CycleSub());
  }

  /** Back-to-back windows of equal counts add up. */
  lemma {:induction false} EqualWindowsAdd(p: Params, first: nat, w: nat, n: nat, j: nat)
    requires p.Valid() && forall c: nat :: c >= first ==> WindowHolds(p, c, w, n)
    ensures Count(p, first + j * w) == Count(p, first) + j * n
  {
    if j == 0 {
    } else {
      EqualWindowsAdd(p, first, w, n, j - 1);
      MulDist(j - 1, 1, w);
      MulDist(j - 1, 1, n);
      assert WindowHolds(p, first + (j - 1) * w, w, n);
    }
  }

  /** Past startup all windows of w cycles hold the same number of packets only if that is their ideal number. */
  lemma EqualWindowsAreIdeal(p: Params, first: nat, w: nat, n: nat)
    requires p.Valid() && PastStartup(p, first)
    requires forall c: nat :: c >= first ==> WindowHolds(p, c, w, n)
    ensures w * p.CycleSub() == n * p.stepNum
  {
    var j := p.stepNum;
    EqualWindowsAdd(p, first, w, n, j);
    WindowCount(p, first, j * w);
    var ideal := (j * w) * p.CycleSub();
    MulAssoc(j, w, p.CycleSub());
    assert ideal == (w * p.CycleSub()) * j;
    DivUnique(ideal, j, w * p.CycleSub());
    assert j * n == n * j;
  }

  /** When P cycles are K steps, a window shifted by whole periods holds the same number of packets. */
  lemma {:induction false} WindowPeriodic(p: Params, P: nat, K: nat, c: nat, w: nat, j: nat)
    requires p.Valid() && K > 0 && P * p.CycleSub() == K * p.stepNum && PastStartup(p, c)
    ensures Count(p, c + j * P + w) - Count(p, c + j * P) == Count(p, c + w) - Count(p, c)
  {
    if j == 0 {
    } else {
      WindowPeriodic(p, P, K, c, w, j - 1);
      MulDist(j - 1, 1, P);
      var d := c + (j - 1) * P;
      PastStartupMono(p, c, d);
      PastStartupMono(p, c, d + w);
      PeriodWindowExact(p, P, K, d);
      PeriodWindowExact(p, P, K, d + w);
    }
  }

  /** So what any later window holds, a window starting within the first period holds. */
  lemma ObservedInPeriod(p: Params, P: nat, K: nat, first: nat, c: nat, w: nat, n: nat)
    requires p.Valid() && P > 0 && K > 0 && P * p.CycleSub() == K * p.stepNum && PastStartup(p, first)
    requires c >= first && WindowHolds(p, c, w, n)
    ensures Observed(p, first, P, w, n)
  {
    var j, r := (c - first) / P, (c - first) % P;
    DivBounds(c - first, P);
    assert c == first + r + j * P;
    PastStartupMono(p, first, first + r);
    WindowPeriodic(p, P, K, first + r, w, j);
    assert WindowHolds(p, first + r, w, n);
  }

  /** Exactly which counts occur: within one period past startup the windows of w cycles show the floor of the
      ideal count, and also one more unless the ideal is whole. */
  lemma ObservedCounts(p: Params, P: nat, K: nat, first: nat, w: nat, n: nat)
    requires p.Valid() && P > 0 && K > 0 && P * p.CycleSub() == K * p.stepNum && PastStartup(p, first)
    ensures var ideal := w * p.CycleSub();
            Observed(p, first, P, w, n) <==>
            n == ideal / p.stepNum || (n == ideal / p.stepNum + 1 && ideal % p.stepNum != 0)
  {
    var ideal := w * p.CycleSub();
    var floor := ideal / p.stepNum;
    DivBounds(ideal, p.stepNum);
    if Observed(p, first, P, w, n) {
      var c: nat :| first <= c < first + P && WindowHolds(p, c, w, n);
      PastStartupMono(p, first, c);
      WindowCount(p, c, w);
    }
    if n == floor || (n == floor + 1 && ideal % p.stepNum != 0) {
      var c := SomeWindowHolds(p, first, w, n);
      ObservedInPeriod(p, P, K, first, c, w, n);
    }
  }

  lemma SomeWindowHolds(p: Params, first: nat, w: nat, n: nat) returns (c: nat)
    requires p.Valid() && PastStartup(p, first)
    requires var ideal := w * p.CycleSub();
             n == ideal / p.stepNum || (n == ideal / p.stepNum + 1 && ideal % p.stepNum != 0)
    ensures c >= first && WindowHolds(p, c, w, n)
  {
    var ideal := w * p.CycleSub();
    var floor := ideal / p.stepNum;
    if exists d: nat :: d >= first && WindowHolds(p, d, w, n) {
      c :| c >= first && WindowHolds(p, c, w, n);
    } else {
      // Then every window holds the other count, which the ideal rules out.
      var other := if n == floor then floor + 1 else floor;
      forall d: nat | d >= first
        ensures WindowHolds(p, d, w, other)
      {
        PastStartupMono(p, first, d);
        WindowCount(p, d, w);
        assert !WindowHolds(p, d, w, n);
      }
      EqualWindowsAreIdeal(p, first, w, other);
      DivUnique(ideal, p.stepNum, other);
      assert false;
    }
  }

  lemma LateEvent(p: Params, P: nat, K: nat, c: nat, n: nat)
    requires p.Valid() && P * p.CycleSub() == K * p.stepNum
    requires PastStartup(p, c) && EventCycle(p, n) >= c + P
    ensures n >= K
  {
    CountIsEventsBefore(p, n, c + P);
    MulDist(c, P, p.CycleSub());
    if n < K {
      MulLe(n + 1, K, p.stepNum);
      MulDist(n, 1, p.stepNum);
    }
  }

  /** Past startup, decisions, offsets and frame counts repeat with period P. */
  lemma DecisionsRepeat(p: Params, P: nat, K: nat, c: nat, d: Decision, d': Decision)
    requires p.Valid() && P * p.CycleSub() == K * p.stepNum
    requires PastStartup(p, c) && Emits(p, c, d) && Emits(p, c + P, d')
    ensures d.isData == d'.isData && d.frames == d'.frames && d.sytOffset == d'.sytOffset
  {
    if d.isData {
      var n: nat :| EventCycle(p, n) == c;
      EventShift(p, P, K, n);
      assert EventCycle(p, n + K) == c + P;
    } else if d'.isData {
      var n: nat :| EventCycle(p, n) == c + P;
      LateEvent(p, P, K, c, n);
      EventShift(p, P, K, n - K);
    }
  }

  // ----- Floor patterns of an arithmetic progression -----

  function FloorAt(a: int, s: int, b: int, n: nat): int
    requires b > 0
  {
    (a + n * s) / b
  }

  /** How many of the m floor increments from index n are the long ones. */
  function LongSteps(a: int, s: int, b: int, n: nat, m: nat): nat
    requires b > 0
  {
    if m == 0 then 0
    else LongSteps(a, s, b, n, m - 1)
         + if FloorAt(a, s, b, n + m) - FloorAt(a, s, b, n + m - 1) == s / b + 1 then 1 else 0
  }

  lemma FloorStep(a: int, s: int, b: int, n: nat)
    requires b > 0
    ensures FloorAt(a, s, b, n + 1) - FloorAt(a, s, b, n) in {s / b, s / b + 1}
  {
    assert a + (n + 1) * s == a + n * s + s;
    DivDiff(a + n * s, s, b);
  }

  lemma {:induction false} LongStepsTelescope(a: int, s: int, b: int, n: nat, m: nat)
    requires b > 0
    ensures FloorAt(a, s, b, n + m) - FloorAt(a, s, b, n) == m * (s / b) + LongSteps(a, s, b, n, m)
  {
    if m == 0 {
    } else {
      LongStepsTelescope(a, s, b, n, m - 1);
      FloorStep(a, s, b, n + m - 1);
      MulDist(m - 1, 1, s / b);
    }
  }

  /** When m steps are a whole number t of units, every m-window has the same number of long steps. */
  lemma LongStepsExact(a: int, s: int, b: int, n: nat, m: nat, t: int)
    requires b > 0 && m * s == t * b
    ensures LongSteps(a, s, b, n, m) == t - m * (s / b)
  {
    LongStepsTelescope(a, s, b, n, m);
    assert a + (n + m) * s == (a + n * s) + t * b;
    DivShift(a + n * s, b, t);
  }

  // ----- The IEC 61883-6 rate ladder -----

  function Nominal(rate: nat, sytInterval: nat, seedTicks: nat, dbc0: nat): Params {
    Params(TICKS_PER_SECOND * sytInterval, rate, sytInterval, seedTicks * rate, dbc0)
  }

  /** The 44.1 family at multiple k: (44100, 8), (88200, 16), (176400, 32). */
  function Family441(k: nat, seedTicks: nat): Params {
    Nominal(44_100 * k, 8 * k, seedTicks, 0)
  }

  /** The 48 kHz family at multiple k: (48000, 8), (96000, 16), (192000, 32). */
  function Family48(k: nat, seedTicks: nat): Params {
    Nominal(48_000 * k, 8 * k, seedTicks, 0)
  }

  lemma ScaledDeadline(seedTicks: int, rate: int, step: int, n: int, k: int)
    ensures seedTicks * (k * rate) + n * (k * step) == k * (seedTicks * rate + n * step)
  {
    MulAssoc(seedTicks, k, rate);
    MulAssoc(k, seedTicks, rate);
    MulAssoc(n, k, step);
    MulAssoc(k, n, step);
  }

  lemma ScaledParams(rate: int, sytInterval: int, k: int)
    ensures TICKS_PER_SECOND * (k * sytInterval) == k * (TICKS_PER_SECOND * sytInterval)
    ensures TICKS_PER_CYCLE * (k * rate) == k * (TICKS_PER_CYCLE * rate)
  {}

  /** Multiplying rate and interval by the same factor changes no deadline. */
  lemma ScalingKeepsTimeline(rate: nat, sytInterval: nat, seedTicks: nat, dbc0: nat, k: nat, n: nat)
    requires rate > 0 && k > 0 && 8000 * sytInterval >= rate
    ensures Nominal(rate, sytInterval, seedTicks, dbc0).Valid()
    ensures Nominal(k * rate, k * sytInterval, seedTicks, dbc0).Valid()
    ensures EventCycle(Nominal(k * rate, k * sytInterval, seedTicks, dbc0), n)
         == EventCycle(Nominal(rate, sytInterval, seedTicks, dbc0), n)
    ensures EventTick(Nominal(k * rate, k * sytInterval, seedTicks, dbc0), n)
         == EventTick(Nominal(rate, sytInterval, seedTicks, dbc0), n)
  {
    var p, p' := Nominal(rate, sytInterval, seedTicks, dbc0), Nominal(k * rate, k * sytInterval, seedTicks, dbc0);
    MulLe(rate, 8000 * sytInterval, k);
    ScaledDeadline(seedTicks, rate, p.stepNum, n, k);
    ScaledParams(rate, sytInterval, k);
    assert Deadline(p', n) == k * Deadline(p, n);
    DivCancel(Deadline(p, n), p.CycleSub(), k);
    DivCancel(Deadline(p, n), p.stepDen, k);
  }

  /** Hence the scaled engine makes the same decision with the same offset in every cycle. */
  lemma FamilyIdentity(
    rate: nat, sytInterval: nat, seedTicks: nat, dbc0: nat, k: nat, c: nat, d: Decision, d': Decision)
    requires rate > 0 && k > 0 && 8000 * sytInterval >= rate
    requires Nominal(rate, sytInterval, seedTicks, dbc0).Valid()
    requires Nominal(k * rate, k * sytInterval, seedTicks, dbc0).Valid()
    requires Emits(Nominal(rate, sytInterval, seedTicks, dbc0), c, d)
    requires Emits(Nominal(k * rate, k * sytInterval, seedTicks, dbc0), c, d')
    ensures d.isData == d'.isData && d.sytOffset == d'.sytOffset && d.deadlineFloor == d'.deadlineFloor
    ensures d'.frames == k * d.frames
  {
    var p, p' := Nominal(rate, sytInterval, seedTicks, dbc0), Nominal(k * rate, k * sytInterval, seedTicks, dbc0);
    if d.isData {
      var n: nat :| EventCycle(p, n) == c;
      ScalingKeepsTimeline(rate, sytInterval, seedTicks, dbc0, k, n);
      assert EventCycle(p', n) == c;
    } else if d'.isData {
      var n: nat :| EventCycle(p', n) == c;
      ScalingKeepsTimeline(rate, sytInterval, seedTicks, dbc0, k, n);
    }
  }

  lemma Family441Steps(k: nat, seedTicks: nat)
    requires k > 0
    ensures var p := Family441(k, seedTicks);
            && p.Valid()
            && 640 * p.CycleSub() == 441 * p.stepNum
            && 147 * p.stepNum == 655_360 * p.stepDen
            && p.stepNum / p.stepDen == 4458
            && p.stepNum / p.CycleSub() == 1
  {
    var p := Family441(k, seedTicks);
    DivUnique(p.stepNum, p.stepDen, 4458);
    DivUnique(p.stepNum, p.CycleSub(), 1);
  }

  /** A seed of whole ticks, measured from the start of cycle c. */
  lemma SeedLead(seedTicks: int, c: int, rate: int)
    ensures seedTicks * rate - c * (TICKS_PER_CYCLE * rate) == (seedTicks - TICKS_PER_CYCLE * c) * rate
  {
    MulAssoc(c, TICKS_PER_CYCLE, rate);
    MulDist(seedTicks, -TICKS_PER_CYCLE * c, rate);
  }

  /** 441 data packets in a 640-cycle window, exactly when the seed lies less than a step
      beyond the window's start; for the window at cycle 0 that is a seed of at most 4458 ticks. */
  lemma Window441(k: nat, seedTicks: nat, c: nat)
    requires k > 0
    ensures Family441(k, seedTicks).Valid()
    ensures var p := Family441(k, seedTicks);
            Count(p, c + 640) - Count(p, c) == 441 <==> seedTicks <= TICKS_PER_CYCLE * c + 4458
  {
    var p := Family441(k, seedTicks);
    Family441Steps(k, seedTicks);
    PeriodWindowExact(p, 640, 441, c);
    SeedLead(seedTicks, c, p.stepDen);
    var lead := seedTicks - TICKS_PER_CYCLE * c;
    // One step lies between 4458 and 4459 ticks.
    if lead <= 4458 {
      MulLe(lead, 4458, p.stepDen);
    } else {
      MulLe(4459, lead, p.stepDen);
    }
  }

  /** Every 640-cycle window of the run holds 441 exactly when the one at cycle 0 does. */
  lemma EveryWindow441(k: nat, seedTicks: nat)
    requires k > 0
    ensures Family441(k, seedTicks).Valid()
    ensures (forall c: nat :: WindowHolds(Family441(k, seedTicks), c, 640, 441)) <==> seedTicks <= 4458
  {
    Family441Steps(k, seedTicks);
    forall c: nat
      ensures WindowHolds(Family441(k, seedTicks), c, 640, 441) <==> seedTicks <= TICKS_PER_CYCLE * c + 4458
    {
      Window441(k, seedTicks, c);
    }
    assert WindowHolds(Family441(k, seedTicks), 0, 640, 441) <==> seedTicks <= 4458;
  }

  /** The script draws seeds up to two cycles (6144 ticks) and expects 441 from every one of them.
      That is not so: with a seed of 4459 ticks the first window holds 440. */
  lemma SeedIndependenceCounterexample()
    ensures Family441(1, 4459).Valid()
    ensures Count(Family441(1, 4459), 640) == 440
  {
    Family441Steps(1, 4459);
    var p := Family441(1, 4459);
    DivUnique(640 * p.CycleSub() - p.seed - 1, p.stepNum, 439);
  }

  /** SYT deltas are 4458 or 4459 with exactly 34 long ones in any 147; packet gaps are one or two
      cycles with exactly 199 twos (so 242 ones) in any 441. */
  lemma Pattern441(k: nat, seedTicks: nat, n: nat)
    requires k > 0
    ensures Family441(k, seedTicks).Valid()
    ensures var p := Family441(k, seedTicks);
            && EventTick(p, n + 1) - EventTick(p, n) in {4458, 4459}
            && (EventTick(p, n + 1) - EventTick(p, n)) % TICKS_PER_CYCLE in {1386, 1387}
            && EventCycle(p, n + 1) - EventCycle(p, n) in {1, 2}
            && LongSteps(p.seed, p.stepNum, p.stepDen, n, 147) == 34
            && LongSteps(p.seed, p.stepNum, p.CycleSub(), n, 441) == 199
            && EventTick(p, n + 147) - EventTick(p, n) == 655_360
            && EventCycle(p, n + 441) - EventCycle(p, n) == 640
  {
    var p := Family441(k, seedTicks);
    Family441Steps(k, seedTicks);
    FloorStep(p.seed, p.stepNum, p.stepDen, n);
    FloorStep(p.seed, p.stepNum, p.CycleSub(), n);
    LongStepsExact(p.seed, p.stepNum, p.stepDen, n, 147, 655_360);
    LongStepsTelescope(p.seed, p.stepNum, p.stepDen, n, 147);
    LongStepsExact(p.seed, p.stepNum, p.CycleSub(), n, 441, 640);
    EventShift(p, 640, 441, n);
  }

  /** Any stretch whose ideal frame count is a whole number K of packets carries exactly K packets, and exactly
      its ideal frames, if and only if it starts past startup. */
  lemma WholeWindow(rate: nat, sytInterval: nat, seedTicks: nat, dbc0: nat, c: nat, ds: seq<Decision>, K: nat)
    requires rate > 0 && 8000 * sytInterval >= rate && K > 0 && |ds| * rate == 8000 * (K * sytInterval)
    requires forall i :: 0 <= i < |ds| ==> Emits(Nominal(rate, sytInterval, seedTicks, dbc0), c + i, ds[i])
    ensures DataPackets(ds) == K <==> PastStartup(Nominal(rate, sytInterval, seedTicks, dbc0), c)
    ensures 8000 * FrameTotal(ds) == |ds| * rate <==> PastStartup(Nominal(rate, sytInterval, seedTicks, dbc0), c)
  {
    var p := Nominal(rate, sytInterval, seedTicks, dbc0);
    RunCarriesEvents(p, c, ds);
    WholeWindowSteps(|ds|, rate, K, sytInterval);
    PeriodWindowExact(p, |ds|, K, c);
    if DataPackets(ds) < K {
      MulLe(DataPackets(ds) + 1, K, sytInterval);
      MulDist(DataPackets(ds), 1, sytInterval);
    } else if DataPackets(ds) > K {
      MulLe(K + 1, DataPackets(ds), sytInterval);
      MulDist(K, 1, sytInterval);
    }
  }

  lemma WholeWindowSteps(w: int, rate: int, K: int, sytInterval: int)
    requires w * rate == 8000 * (K * sytInterval)
    ensures w * (TICKS_PER_CYCLE * rate) == K * (TICKS_PER_SECOND * sytInterval)
  {
    assert w * (TICKS_PER_CYCLE * rate) == TICKS_PER_CYCLE * (w * rate);
    assert K * (TICKS_PER_SECOND * sytInterval) == TICKS_PER_SECOND * (K * sytInterval);
  }

  /** Packet-rate accounting at every rate: a second holds the floor of its ideal packet count or one more,
      exactly the ideal when the interval divides the rate. */
  lemma OneSecond(rate: nat, sytInterval: nat, seedTicks: nat, dbc0: nat, c: nat, ds: seq<Decision>)
    requires rate > 0 && 8000 * sytInterval >= rate && |ds| == 8000
    requires PastStartup(Nominal(rate, sytInterval, seedTicks, dbc0), c)
    requires forall i :: 0 <= i < |ds| ==> Emits(Nominal(rate, sytInterval, seedTicks, dbc0), c + i, ds[i])
    ensures rate / sytInterval <= DataPackets(ds) <= rate / sytInterval + 1
    ensures FrameTotal(ds) == DataPackets(ds) * sytInterval
    ensures rate % sytInterval == 0 ==> DataPackets(ds) == rate / sytInterval && FrameTotal(ds) == rate
  {
    var p := Nominal(rate, sytInterval, seedTicks, dbc0);
    RunCarriesEvents(p, c, ds);
    WindowCount(p, c, 8000);
    IdealSecond(rate, sytInterval);
    if rate % sytInterval == 0 {
      WholeSecond(rate, sytInterval);
      WholeWindow(rate, sytInterval, seedTicks, dbc0, c, ds, rate / sytInterval);
    }
  }

  lemma IdealSecond(rate: int, sytInterval: int)
    requires sytInterval > 0
    ensures (8000 * (TICKS_PER_CYCLE * rate)) / (TICKS_PER_SECOND * sytInterval) == rate / sytInterval
  {
    DivCancel(rate, sytInterval, TICKS_PER_SECOND);
  }

  lemma WholeSecond(rate: int, sytInterval: int)
    requires rate > 0 && sytInterval > 0 && rate % sytInterval == 0
    ensures rate == rate / sytInterval * sytInterval && rate / sytInterval > 0
  {
    DivBounds(rate, sytInterval);
  }

  /** A rate whose step is a whole number of ticks: every delta is that number, and when P cycles are K steps a
      P-window holds K packets exactly when the seed is less than a step past the window's start. */
  lemma WholeTickPattern(
    rate: nat, sytInterval: nat, seedTicks: nat, dbc0: nat, step: nat, P: nat, K: nat, n: nat, c: nat)
    requires rate > 0 && TICKS_PER_SECOND * sytInterval == step * rate
    requires K > 0 && P >= K && P * TICKS_PER_CYCLE == K * step
    ensures Nominal(rate, sytInterval, seedTicks, dbc0).Valid()
    ensures var p := Nominal(rate, sytInterval, seedTicks, dbc0);
            && EventTick(p, n + 1) - EventTick(p, n) == step
            && (Count(p, c + P) - Count(p, c) == K <==> seedTicks < TICKS_PER_CYCLE * c + step)
  {
    var p := Nominal(rate, sytInterval, seedTicks, dbc0);
    StepAtLeastCycle(step, P, K);
    MulLe(TICKS_PER_CYCLE, step, rate);
    NextEvent(p, n);
    DivShift(Deadline(p, n), p.stepDen, step);
    MulAssoc(P, TICKS_PER_CYCLE, rate);
    MulAssoc(K, step, rate);
    PeriodWindowExact(p, P, K, c);
    SeedLead(seedTicks, c, rate);
    var lead := seedTicks - TICKS_PER_CYCLE * c;
    if lead < step {
      MulLe(lead + 1, step, rate);
      MulDist(lead, 1, rate);
    } else {
      MulLe(step, lead, rate);
    }
  }

  lemma StepAtLeastCycle(step: int, P: int, K: int)
    requires K > 0 && P >= K && P * TICKS_PER_CYCLE == K * step
    ensures step >= TICKS_PER_CYCLE
  {
    if step < TICKS_PER_CYCLE {
      MulLe(step + 1, TICKS_PER_CYCLE, K);
      MulDist(step, 1, K);
    }
  }

  /** The 48 kHz family: constant delta of 4096 ticks and three data packets in every four cycles. */
  lemma Pattern48(k: nat, seedTicks: nat, n: nat, c: nat)
    requires k > 0
    ensures Family48(k, seedTicks).Valid()
    ensures var p := Family48(k, seedTicks);
            && EventTick(p, n + 1) - EventTick(p, n) == 4096
            && (Count(p, c + 4) - Count(p, c) == 3 <==> seedTicks < TICKS_PER_CYCLE * c + 4096)
  {
    WholeTickPattern(48_000 * k, 8 * k, seedTicks, 0, 4096, 4, 3, n, c);
  }

  /** 32 kHz: constant delta of 6144 ticks and one data packet in every two cycles. */
  lemma Pattern32(seedTicks: nat, n: nat, c: nat)
    ensures Nominal(32_000, 8, seedTicks, 0).Valid()
    ensures var p := Nominal(32_000, 8, seedTicks, 0);
            && EventTick(p, n + 1) - EventTick(p, n) == 6144
            && (Count(p, c + 2) - Count(p, c) == 1 <==> seedTicks < TICKS_PER_CYCLE * c + 6144)
  {
    WholeTickPattern(32_000, 8, seedTicks, 0, 6144, 2, 1, n, c);
  }

  /** The counts that windows of six cycles, one second and two seconds show within one 640-cycle period of a
      44.1-family run past startup: exactly these, every one of them. */
  lemma RateAccounting441(k: nat, seedTicks: nat, c: nat, n: nat)
    requires k > 0 && seedTicks <= TICKS_PER_CYCLE * c + 4458
    ensures Family441(k, seedTicks).Valid()
    ensures var p := Family441(k, seedTicks);
            && (Observed(p, c, 640, 6, n) <==> n in {4, 5})
            && (Observed(p, c, 640, 8000, n) <==> n in {5512, 5513})
            && (Observed(p, c, 640, 16000, n) <==> n == 11025)
  {
    var p := Family441(k, seedTicks);
    Family441Steps(k, seedTicks);
    Window441(k, seedTicks, c);
    PeriodWindowExact(p, 640, 441, c);
    ObservedCounts(p, 640, 441, c, 6, n);
    DivUnique(6 * p.CycleSub(), p.stepNum, 4);
    ObservedCounts(p, 640, 441, c, 8000, n);
    DivUnique(8000 * p.CycleSub(), p.stepNum, 5512);
    ObservedCounts(p, 640, 441, c, 16000, n);
    DivUnique(16000 * p.CycleSub(), p.stepNum, 11025);
  }

  /** The same for the 48 kHz family, whose period is four cycles. */
  lemma RateAccounting48(k: nat, seedTicks: nat, c: nat, n: nat)
    requires k > 0 && seedTicks < TICKS_PER_CYCLE * c + 4096
    ensures Family48(k, seedTicks).Valid()
    ensures var p := Family48(k, seedTicks);
            && (Observed(p, c, 4, 6, n) <==> n in {4, 5})
            && (Observed(p, c, 4, 8000, n) <==> n == 6000)
            && (Observed(p, c, 4, 16000, n) <==> n == 12000)
  {
    var p := Family48(k, seedTicks);
    Pattern48(k, seedTicks, 0, c);
    PeriodWindowExact(p, 4, 3, c);
    ObservedCounts(p, 4, 3, c, 6, n);
    DivUnique(6 * p.CycleSub(), p.stepNum, 4);
    ObservedCounts(p, 4, 3, c, 8000, n);
    DivUnique(8000 * p.CycleSub(), p.stepNum, 6000);
    ObservedCounts(p, 4, 3, c, 16000, n);
    DivUnique(16000 * p.CycleSub(), p.stepNum, 12000);
  }

  /** And for 32 kHz, whose period is two cycles. */
  lemma RateAccounting32(seedTicks: nat, c: nat, n: nat)
    requires seedTicks < TICKS_PER_CYCLE * c + 6144
    ensures Nominal(32_000, 8, seedTicks, 0).Valid()
    ensures var p := Nominal(32_000, 8, seedTicks, 0);
            && (Observed(p, c, 2, 6, n) <==> n == 3)
            && (Observed(p, c, 2, 8000, n) <==> n == 4000)
            && (Observed(p, c, 2, 16000, n) <==> n == 8000)
  {
    var p := Nominal(32_000, 8, seedTicks, 0);
    Pattern32(seedTicks, 0, c);
    PeriodWindowExact(p, 2, 1, c);
    ObservedCounts(p, 2, 1, c, 6, n);
    DivUnique(6 * p.CycleSub(), p.stepNum, 3);
    ObservedCounts(p, 2, 1, c, 8000, n);
    DivUnique(8000 * p.CycleSub(), p.stepNum, 4000);
    ObservedCounts(p, 2, 1, c, 16000, n);
    DivUnique(16000 * p.CycleSub(), p.stepNum, 8000);
  }
}
