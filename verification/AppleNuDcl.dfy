/** Apple's wrap-around NuDCL cadence counter, shown to refine the unbounded exact DDA,
    and its drift against the exact 44.1 kHz engine. */
module AppleNuDcl {
  import opened Arith
  import opened BlockingEngine
  import opened CadenceLaws

  const SCALE := 10_000
  const CYCLE_PHASE := 30_720_000
  const PHASE_MODULO := 491_520_000
  const HALF_RING := 245_760_000
  const SYT_STEP := 44_582_312
  const NEXT_SYT_SEED := 117_220_000

  /** The unbounded engine that the counter stands for: step 44582312/10000 ticks, seed 11722 ticks. */
  const APPLE := Params(SYT_STEP, SCALE, 8, NEXT_SYT_SEED, 0)

  /** The exact 44.1 kHz engine started from the same deadline. */
  const EXACT := Nominal(44_100, 8, NEXT_SYT_SEED / SCALE, 0)

  lemma BothValid()
    ensures APPLE.Valid() && APPLE.CycleSub() == CYCLE_PHASE
    ensures EXACT.Valid() && EXACT.CycleSub() == 135_475_200 && EXACT.stepNum == 196_608_000
    ensures EXACT.seed == 516_940_200
  {}

  class AppleNuDcl441 {
    var packetPhase: nat
    var nextSyt: nat
    ghost var cycle: nat

    ghost predicate Valid()
      reads this
    {
      && APPLE.Valid()
      && packetPhase == (cycle * CYCLE_PHASE) % PHASE_MODULO
      && nextSyt == Deadline(APPLE, Count(APPLE, cycle)) % PHASE_MODULO
    }

    constructor ()
      ensures Valid() && cycle == 0
    {
      packetPhase, nextSyt, cycle := 0, NEXT_SYT_SEED, 0;
      new;
      BothValid();
    }

    /** The same data/no-data decision as the unbounded engine, and its deadline modulo the ring. */
    method NextCycle() returns (isData: bool, deadline: nat)
      requires Valid()
      modifies this
      ensures Valid() && cycle == old(cycle) + 1
      ensures isData <==> HasEvent(APPLE, old(cycle))
      ensures deadline == Deadline(APPLE, Count(APPLE, old(cycle))) % PHASE_MODULO
      ensures forall n: nat :: EventCycle(APPLE, n) == old(cycle) ==> deadline == Deadline(APPLE, n) % PHASE_MODULO
    {
      BothValid();
      ghost var c := cycle;
      ghost var n := Count(APPLE, c);
      EventWindow(APPLE, c);
      CountStep(APPLE, c);
      WrappedLag(c);
      ModAbsorb(c * CYCLE_PHASE, CYCLE_PHASE, PHASE_MODULO);
      ModAbsorb(Deadline(APPLE, n), SYT_STEP, PHASE_MODULO);
      packetPhase := (packetPhase + CYCLE_PHASE) % PHASE_MODULO;
      var lag := (packetPhase + PHASE_MODULO - nextSyt) % PHASE_MODULO;
      deadline := nextSyt;
      isData := lag != 0 && lag <= HALF_RING;
      if isData {
        nextSyt := (nextSyt + SYT_STEP) % PHASE_MODULO;
        assert Deadline(APPLE, n + 1) == Deadline(APPLE, n) + SYT_STEP;
      }
      cycle := c + 1;
    }
  }

  /** The true distance from the next deadline to the end of cycle c. */
  function Lag(c: nat): int
    requires APPLE.Valid()
  {
    (c + 1) * CYCLE_PHASE - Deadline(APPLE, Count(APPLE, c))
  }

  /** The unwrapped lag never leaves half the ring, at startup or later. */
  lemma LagWithinHalfRing(c: nat)
    requires APPLE.Valid()
    ensures -HALF_RING < Lag(c) <= CYCLE_PHASE
  {
    BothValid();
    var n := Count(APPLE, c);
    CountIsEventsBefore(APPLE, n, c);
    if n > 0 {
      CountIsEventsBefore(APPLE, n - 1, c);
      assert Deadline(APPLE, n) == Deadline(APPLE, n - 1) + SYT_STEP;
    }
  }

  /** So the counter's test on the wrapped lag is the DDA's comparison. */
  lemma WrappedLag(c: nat)
    requires APPLE.Valid()
    ensures var n := Count(APPLE, c);
            var lag := (((c + 1) * CYCLE_PHASE) % PHASE_MODULO
                        + PHASE_MODULO - Deadline(APPLE, n) % PHASE_MODULO) % PHASE_MODULO;
            (lag != 0 && lag <= HALF_RING) <==> Deadline(APPLE, n) < (c + 1) * CYCLE_PHASE
  {
    LagWithinHalfRing(c);
    var n := Count(APPLE, c);
    var e, d := (c + 1) * CYCLE_PHASE, Deadline(APPLE, n);
    ModAbsorb(e, PHASE_MODULO - d % PHASE_MODULO, PHASE_MODULO);
    ModAbsorb(d, e + PHASE_MODULO, PHASE_MODULO);
    DivShift(e - d, PHASE_MODULO, 1);
    DivUnique(Lag(c), PHASE_MODULO, if Lag(c) < 0 then -1 else 0);
  }

  /** The counter's startup: 439 packets in the first 640 cycles, 4410 in the next 6400,
      and 441 or 442 in every 640-cycle window from cycle 3 on. */
  lemma StartupCounts(c: nat)
    requires c >= 3
    ensures APPLE.Valid()
    ensures Count(APPLE, 640) == 439
    ensures Count(APPLE, 7040) - Count(APPLE, 640) == 4410
    ensures Count(APPLE, c + 640) - Count(APPLE, c) in {441, 442}
  {
    BothValid();
    assert PastStartup(APPLE, c);
    WindowCount(APPLE, c, 640);
    assert 640 * CYCLE_PHASE / SYT_STEP == 441;
  }

  /** The recovered startup prefix N N N D N D D N D D N D D D N D. */
  lemma StartupPrefix(c: nat)
    requires c < 16
    ensures APPLE.Valid()
    ensures HasEvent(APPLE, c) <==> c in {3, 5, 6, 8, 9, 11, 12, 13, 15}
  {
    BothValid();
    EventWindow(APPLE, c);
    var first := [0, 0, 0, 0, 1, 1, 2, 3, 3, 4, 5, 5, 6, 7, 8, 8];
    CountStarts(c, first[c]);
  }

  lemma CountStarts(c: nat, n: nat)
    requires APPLE.Valid()
    requires Deadline(APPLE, n) >= c * CYCLE_PHASE && (n > 0 ==> Deadline(APPLE, n - 1) < c * CYCLE_PHASE)
    ensures Count(APPLE, c) == n
  {
    BothValid();
    CountIsEventsBefore(APPLE, n, c);
    if n > 0 {
      CountIsEventsBefore(APPLE, n - 1, c);
    }
  }

  // ----- Drift against the exact engine -----

  /** Shortfall of one Apple step, in units of 1/(44100 * 10000) tick. */
  const DEFICIT := 40_800

  /** Both timelines on the common scale: after n events they are exactly n deficits apart. */
  lemma DriftIdentity(n: nat)
    ensures Deadline(EXACT, n) * SCALE - Deadline(APPLE, n) * 44_100 == n * DEFICIT
  {
    BothValid();
  }

  /** The same identity for the wrapped deadline that the counter holds. */
  lemma WrappedDrift(n: nat)
    ensures var ring := 44_100 * PHASE_MODULO;
            (Deadline(EXACT, n) * SCALE - Deadline(APPLE, n) % PHASE_MODULO * 44_100) % ring == (n * DEFICIT) % ring
  {
    DriftIdentity(n);
    var ring := 44_100 * PHASE_MODULO;
    var laps := Deadline(APPLE, n) / PHASE_MODULO;
    assert Deadline(APPLE, n) % PHASE_MODULO == Deadline(APPLE, n) - laps * PHASE_MODULO;
    DivShift(n * DEFICIT, ring, laps);
  }

  lemma AppleCycleFromExact(n: nat)
    requires APPLE.Valid() && EXACT.Valid()
    ensures EventCycle(APPLE, n) == (Deadline(EXACT, n) * SCALE - n * DEFICIT) / (EXACT.CycleSub() * SCALE)
  {
    BothValid();
    DriftIdentity(n);
    DivCancel(Deadline(APPLE, n), CYCLE_PHASE, 44_100);
  }

  /** Apple's packet count is never behind. */
  lemma AppleNeverBehind(c: nat)
    ensures APPLE.Valid() && EXACT.Valid()
    ensures Count(APPLE, c) >= Count(EXACT, c)
  {
    BothValid();
    var k := Count(EXACT, c);
    if k > 0 {
      CountIsEventsBefore(EXACT, k - 1, c);
      DriftIdentity(k - 1);
      CountIsEventsBefore(APPLE, k - 1, c);
    }
  }

  /** Event n has crossed a cycle edge: its offset into the exact cycle is below n deficits. */
  predicate Crossed(n: nat)
    requires EXACT.Valid()
  {
    (Deadline(EXACT, n) % EXACT.CycleSub()) * SCALE < n * DEFICIT
  }

  /** Up to a full cycle of drift, crossing is exactly being one cycle early. */
  lemma CrossedIsEarly(n: nat)
    requires APPLE.Valid() && EXACT.Valid()
    ensures !Crossed(n) ==> EventCycle(APPLE, n) == EventCycle(EXACT, n)
    ensures Crossed(n) && n * DEFICIT <= (Deadline(EXACT, n) % EXACT.CycleSub() + EXACT.CycleSub()) * SCALE
            ==> EventCycle(APPLE, n) == EventCycle(EXACT, n) - 1
  {
    BothValid();
    AppleCycleFromExact(n);
    var unit := EXACT.CycleSub() * SCALE;
    var q, r := EventCycle(EXACT, n), Deadline(EXACT, n) % EXACT.CycleSub();
    assert Deadline(EXACT, n) * SCALE - n * DEFICIT == q * unit + (r * SCALE - n * DEFICIT);
    if !Crossed(n) {
      DivUnique(q * unit + (r * SCALE - n * DEFICIT), unit, q);
    } else if n * DEFICIT <= (r + EXACT.CycleSub()) * SCALE {
      DivUnique(q * unit + (r * SCALE - n * DEFICIT), unit, q - 1);
    }
  }

  /** At the first crossing the drift is still under a cycle, because the in-cycle offset has period 441. */
  lemma FirstCrossingIsSmall(n: nat)
    requires EXACT.Valid()
    requires Crossed(n) && forall m: nat :: m < n ==> !Crossed(m)
    ensures n * DEFICIT <= (Deadline(EXACT, n) % EXACT.CycleSub() + EXACT.CycleSub()) * SCALE
  {
    BothValid();
    if n >= 441 {
      EventShift(EXACT, 640, 441, n - 441);
      assert Deadline(EXACT, n) == Deadline(EXACT, n - 441) + 640 * EXACT.CycleSub();
      DivShift(Deadline(EXACT, n - 441), EXACT.CycleSub(), 640);
      assert !Crossed(n - 441);
    }
  }

  /** The two streams agree on every cycle before the one preceding the exact cycle of the first
      crossed event, and differ there: Apple sends a data packet and the exact engine does not. */
  lemma FirstFlip(n: nat)
    requires APPLE.Valid() && EXACT.Valid()
    requires Crossed(n) && forall m: nat :: m < n ==> !Crossed(m)
    ensures EventCycle(EXACT, n) > 0
    ensures EventCycle(APPLE, n) == EventCycle(EXACT, n) - 1
    ensures HasEvent(APPLE, EventCycle(EXACT, n) - 1) && !HasEvent(EXACT, EventCycle(EXACT, n) - 1)
    ensures forall c: nat :: c < EventCycle(EXACT, n) - 1 ==> (HasEvent(APPLE, c) <==> HasEvent(EXACT, c))
    ensures forall c: nat :: c < EventCycle(EXACT, n) ==> Count(APPLE, c) == Count(EXACT, c)
  {
    FirstCrossingIsSmall(n);
    CrossedIsEarly(n);
    var flip := EventCycle(EXACT, n) - 1;
    forall m: nat
      ensures EventCycle(EXACT, m) != flip
    {
      EarlierEventsAgree(n, m);
    }
    forall c: nat | c < flip
      ensures HasEvent(APPLE, c) <==> HasEvent(EXACT, c)
    {
      SameDecisionBefore(n, c);
    }
    forall c: nat | c <= flip
      ensures Count(APPLE, c) == Count(EXACT, c)
    {
      SameCountBefore(n, c);
    }
  }

  lemma EarlierEventsAgree(n: nat, m: nat)
    requires APPLE.Valid() && EXACT.Valid()
    requires forall m: nat :: m < n ==> !Crossed(m)
    requires EventCycle(APPLE, n) == EventCycle(EXACT, n) - 1
    ensures m < n ==> EventCycle(APPLE, m) == EventCycle(EXACT, m) < EventCycle(EXACT, n) - 1
    ensures m >= n ==>
              EventCycle(EXACT, m) > EventCycle(EXACT, n) - 1 && EventCycle(APPLE, m) >= EventCycle(EXACT, n) - 1
  {
    if m < n {
      CrossedIsEarly(m);
      EventCycleMono(APPLE, m, n);
    } else if m > n {
      EventCycleMono(APPLE, n, m);
      EventCycleMono(EXACT, n, m);
    }
  }

  lemma SameDecisionBefore(n: nat, c: nat)
    requires APPLE.Valid() && EXACT.Valid()
    requires forall m: nat :: m < n ==> !Crossed(m)
    requires EventCycle(APPLE, n) == EventCycle(EXACT, n) - 1
    requires c < EventCycle(EXACT, n) - 1
    ensures HasEvent(APPLE, c) <==> HasEvent(EXACT, c)
  {
    if HasEvent(APPLE, c) {
      var m: nat :| EventCycle(APPLE, m) == c;
      EarlierEventsAgree(n, m);
    }
    if HasEvent(EXACT, c) {
      var m: nat :| EventCycle(EXACT, m) == c;
      EarlierEventsAgree(n, m);
    }
  }

  lemma SameCountBefore(n: nat, c: nat)
    requires APPLE.Valid() && EXACT.Valid()
    requires forall m: nat :: m < n ==> !Crossed(m)
    requires EventCycle(APPLE, n) == EventCycle(EXACT, n) - 1
    requires c < EventCycle(EXACT, n)
    ensures Count(APPLE, c) == Count(EXACT, c)
  {
    AppleNeverBehind(c);
    var k := Count(EXACT, c);
    CountIsEventsBefore(EXACT, k, c);
    CountIsEventsBefore(APPLE, k, c);
    EarlierEventsAgree(n, k);
  }

  /** The in-cycle offset of event n, in subticks, walks the residues of 1682 + 640 n modulo 441. */
  lemma ExactOffset(n: nat)
    requires EXACT.Valid()
    ensures Deadline(EXACT, n) % EXACT.CycleSub() == 307_200 * ((1682 + 640 * n) % 441) + 229_800
  {
    BothValid();
    var x := 1682 + 640 * n;
    var q, r := x / 441, x % 441;
    assert x == 441 * q + r;
    var d := Deadline(EXACT, n);
    assert d == q * 135_475_200 + (307_200 * r + 229_800);
    DivUnique(d, 135_475_200, q);
  }

  lemma SmallestOffset(n: nat)
    requires (1682 + 640 * n) % 441 == 0
    ensures n % 441 == 109
  {
    var k := (1682 + 640 * n) / 441;
    // 82 is the inverse of 640 modulo 441.
    assert n == (82 * k - 119 * n - 313) * 441 + 109;
    DivUnique(n, 441, 82 * k - 119 * n - 313);
  }

  lemma FirstCrossed()
    ensures EXACT.Valid()
    ensures Crossed(56_557) && EventCycle(EXACT, 56_557) == 82_082
    ensures forall m: nat :: m < 56_557 ==> !Crossed(m)
  {
    BothValid();
    ExactOffset(56_557);
    DivUnique(Deadline(EXACT, 56_557), EXACT.CycleSub(), 82_082);
    forall m: nat | m < 56_557
      ensures !Crossed(m)
    {
      ExactOffset(m);
      if (1682 + 640 * m) % 441 == 0 {
        SmallestOffset(m);
      }
    }
  }

  /** The first crossed event is event 56557, so the streams first differ in cycle 82081. */
  lemma FirstFlipCycle()
    ensures APPLE.Valid() && EXACT.Valid()
    ensures HasEvent(APPLE, 82_081) && !HasEvent(EXACT, 82_081)
    ensures forall c: nat :: c < 82_081 ==> (HasEvent(APPLE, c) <==> HasEvent(EXACT, c))
  {
    BothValid();
    FirstCrossed();
    FirstFlip(56_557);
  }
}
