/** The exact integer deadline DDA for IEC 61883-6 blocking transmission.
    Time is kept in subticks: FireWire ticks multiplied by `stepDen`. */
module BlockingEngine {
  import opened Arith
  import opened Options

  const TICKS_PER_CYCLE := 3072
  const TICKS_PER_SECOND := 24_576_000

  datatype Params = Params(stepNum: nat, stepDen: nat, sytInterval: nat, seed: nat, dbc0: nat) {
    /** The constructor's assertion: at most one SYT event per cycle. */
    predicate Valid() {
      stepDen > 0 && stepNum >= TICKS_PER_CYCLE * stepDen
    }

    function CycleSub(): nat {
      TICKS_PER_CYCLE * stepDen
    }
  }

  datatype Decision = Decision(
    cycle: nat, isData: bool, frames: nat, sytOffset: Option<nat>, deadlineFloor: Option<nat>, dbc: nat)

  // ----- The timeline of SYT events, independent of the engine's state -----

  /** Deadline of event n, in subticks. */
  function Deadline(p: Params, n: nat): nat {
    p.seed + n * p.stepNum
  }

  /** The bus cycle that contains the deadline of event n. */
  function EventCycle(p: Params, n: nat): nat
    requires p.Valid()
  {
    Deadline(p, n) / p.CycleSub()
  }

  /** Deadline of event n, rounded down to whole ticks. */
  function EventTick(p: Params, n: nat): nat
    requires p.Valid()
  {
    Deadline(p, n) / p.stepDen
  }

  /** The data block counter carried by event n. */
  function Dbc(p: Params, n: nat): nat {
    if n == 0 then p.dbc0 else (p.dbc0 + n * p.sytInterval) % 256
  }

  /** Number of events whose deadline lies before the start of cycle c. */
  function Count(p: Params, c: nat): nat
    requires p.Valid()
  {
    var x := c * p.CycleSub() - p.seed;
    if x <= 0 then 0 else (x - 1) / p.stepNum + 1
  }

  ghost predicate HasEvent(p: Params, c: nat)
    requires p.Valid()
  {
    exists n: nat :: EventCycle(p, n) == c
  }

  /** What a packet of cycle c must be: a data packet for the event whose
      deadline lies in that cycle, or a no-data packet when there is none. */
  ghost predicate Emits(p: Params, c: nat, d: Decision)
    requires p.Valid()
  {
    && d.cycle == c
    && (d.isData <==> HasEvent(p, c))
    && (forall n: nat :: EventCycle(p, n) == c ==>
          EventTick(p, n) >= c * TICKS_PER_CYCLE &&
          d == Decision(c, true, p.sytInterval, Some(EventTick(p, n) - c * TICKS_PER_CYCLE),
                        Some(EventTick(p, n)), Dbc(p, n)))
    && (!d.isData ==> d == Decision(c, false, 0, None, None, Dbc(p, Count(p, c))))
  }

  class RationalBlockingEngine {
    const p: Params
    var deadlineSub: nat
    var cycle: nat
    var dbc: nat

    ghost predicate Valid()
      reads this
    {
      && p.Valid()
      && deadlineSub == Deadline(p, Count(p, cycle))
      && dbc == Dbc(p, Count(p, cycle))
    }

    constructor (p: Params)
      requires p.Valid()
      ensures Valid() && this.p == p && cycle == 0
    {
      this.p := p;
      deadlineSub, cycle, dbc := p.seed, 0, p.dbc0;
    }

    method NextCycle() returns (d: Decision)
      requires Valid()
      modifies this
      ensures Valid() && cycle == old(cycle) + 1
      ensures Emits(p, old(cycle), d)
    {
      ghost var n := Count(p, cycle);
      CountStep(p, cycle);
      EventWindow(p, cycle);
      MulAssoc(cycle + 1, TICKS_PER_CYCLE, p.stepDen);
      var cycleEndSub := (cycle + 1) * TICKS_PER_CYCLE * p.stepDen;
      if deadlineSub < cycleEndSub {
        var deadlineTicks := deadlineSub / p.stepDen;
        OffsetInCycle(p, n);
        var offset := deadlineTicks - cycle * TICKS_PER_CYCLE;
        assert 0 <= offset < TICKS_PER_CYCLE;
        d := Decision(cycle, true, p.sytInterval, Some(offset), Some(deadlineTicks), dbc);
        EmitsData(p, cycle, d);
        NextEvent(p, n);
        dbc := (dbc + p.sytInterval) % 256;
        deadlineSub := deadlineSub + p.stepNum;
      } else {
        d := Decision(cycle, false, 0, None, None, dbc);
        EmitsNoData(p, cycle, d);
      }
      cycle := cycle + 1;
    }

    method Run(cycles: nat) returns (ds: seq<Decision>)
      requires Valid()
      modifies this
      ensures Valid() && cycle == old(cycle) + cycles
      ensures |ds| == cycles
      ensures forall i :: 0 <= i < cycles ==> Emits(p, old(cycle) + i, ds[i])
    {
      ds := [];
      for k := 0 to cycles
        invariant Valid() && cycle == old(cycle) + k
        invariant |ds| == k
        invariant forall i :: 0 <= i < k ==> Emits(p, old(cycle) + i, ds[i])
      {
        var d := NextCycle();
        ds := ds + [d];
      }
    }
  }

  // ----- Closed form: which event each cycle emits -----

  /** The counting function and the event timeline are adjoint. */
  lemma CountIsEventsBefore(p: Params, n: nat, c: nat)
    requires p.Valid()
    ensures n < Count(p, c) <==> Deadline(p, n) < c * p.CycleSub()
    ensures n < Count(p, c) <==> EventCycle(p, n) < c
  {
    var x := c * p.CycleSub() - p.seed;
    if x > 0 {
      DivGe(x - 1, p.stepNum, n);
    } else {
      assert n * p.stepNum >= 0;
    }
    DivGe(Deadline(p, n), p.CycleSub(), c);
  }

  /** Events are at least a cycle apart, so no cycle owes two packets. */
  lemma EventCycleStep(p: Params, n: nat)
    requires p.Valid()
    ensures EventCycle(p, n) < EventCycle(p, n + 1)
  {
    DivMono(Deadline(p, n) + p.CycleSub(), Deadline(p, n + 1), p.CycleSub());
    DivShift(Deadline(p, n), p.CycleSub(), 1);
  }

  lemma {:induction false} EventCycleMono(p: Params, m: nat, n: nat)
    requires p.Valid() && m < n
    ensures EventCycle(p, m) + (n - m) <= EventCycle(p, n)
    decreases n
  {
    EventCycleStep(p, n - 1);
    if m == n - 1 {
    } else {
      EventCycleMono(p, m, n - 1);
    }
  }

  /** The only event that cycle c can hold is the next one due, and the DDA's
      comparison decides whether it does. */
  lemma EventWindow(p: Params, c: nat)
    requires p.Valid()
    ensures EventCycle(p, Count(p, c)) >= c
    ensures EventCycle(p, Count(p, c)) == c <==> Deadline(p, Count(p, c)) < (c + 1) * p.CycleSub()
    ensures forall n: nat :: EventCycle(p, n) == c ==> n == Count(p, c)
  {
    var k := Count(p, c);
    CountIsEventsBefore(p, k, c);
    CountIsEventsBefore(p, k, c + 1);
    forall n: nat | EventCycle(p, n) == c
      ensures n == k
    {
      CountIsEventsBefore(p, n, c);
      if k < n {
        EventCycleMono(p, k, n);
      }
    }
  }

  /** One cycle adds one event exactly when the cycle holds one. */
  lemma CountStep(p: Params, c: nat)
    requires p.Valid()
    ensures Count(p, c + 1) == Count(p, c) + if EventCycle(p, Count(p, c)) == c then 1 else 0
  {
    var k, k' := Count(p, c), Count(p, c + 1);
    CountIsEventsBefore(p, k, c);
    CountIsEventsBefore(p, k, c + 1);
    CountIsEventsBefore(p, k + 1, c + 1);
    EventCycleStep(p, k);
    if k' < k {
      CountIsEventsBefore(p, k', c + 1);
      CountIsEventsBefore(p, k', c);
    }
  }

  lemma OffsetInCycle(p: Params, n: nat)
    requires p.Valid()
    ensures 0 <= EventTick(p, n) - EventCycle(p, n) * TICKS_PER_CYCLE < TICKS_PER_CYCLE
    ensures EventTick(p, n) / TICKS_PER_CYCLE == EventCycle(p, n)
  {
    DivDiv(Deadline(p, n), p.stepDen, TICKS_PER_CYCLE);
  }

  /** Deadlines are a step apart, and the data block counter advances by the SYT interval modulo 256. */
  lemma NextEvent(p: Params, n: nat)
    ensures Deadline(p, n + 1) == Deadline(p, n) + p.stepNum
    ensures Dbc(p, n + 1) == (Dbc(p, n) + p.sytInterval) % 256
  {
    MulDist(n, 1, p.stepNum);
    MulDist(n, 1, p.sytInterval);
    ModAbsorb(p.dbc0 + n * p.sytInterval, p.sytInterval, 256);
  }

  lemma EmitsData(p: Params, c: nat, d: Decision)
    requires p.Valid() && EventCycle(p, Count(p, c)) == c
    requires EventTick(p, Count(p, c)) >= c * TICKS_PER_CYCLE
    requires var n := Count(p, c);
             d == Decision(c, true, p.sytInterval, Some(EventTick(p, n) - c * TICKS_PER_CYCLE),
                           Some(EventTick(p, n)), Dbc(p, n))
    ensures Emits(p, c, d)
  {
    EventWindow(p, c);
  }

  lemma EmitsNoData(p: Params, c: nat, d: Decision)
    requires p.Valid() && EventCycle(p, Count(p, c)) != c
    requires d == Decision(c, false, 0, None, None, Dbc(p, Count(p, c)))
    ensures Emits(p, c, d)
  {
    EventWindow(p, c);
  }
}
