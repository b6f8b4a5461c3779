/** The TX preparation protocol: a hardware refill consumer and an asynchronous preparation
    producer share a generation-stamped ring of packet slots. Each completion group first
    refills the hardware ring and then may run a preparation action, whose wake can be
    delayed; requests made while one is pending are coalesced. */
module TxPreparation {
  import opened Arith
  import opened Options
  import opened GenerationStamps

  datatype Geometry = Geometry(
    sharedSlots: int, hardwarePackets: int, irqPackets: int, lead: int, groups: int,
    delayedRequestGroup: Option<int>, delayedGroups: int) {

    predicate Positive() {
      sharedSlots > 0 && hardwarePackets > 0 && irqPackets > 0 && lead > 0 && groups > 0
    }

    /** The configurations that are not rejected. */
    predicate Valid() {
      && Positive()
      && hardwarePackets % irqPackets == 0
      && sharedSlots % irqPackets == 0
      && lead <= sharedSlots - irqPackets
      && delayedGroups >= 0
    }
  }

  // ----- The frontier machine: what the cursors do when no read fails -----

  datatype Cursors = Cursors(expose: int, requested: nat, handled: nat, due: Option<nat>, coalesced: nat)

  /** Wake delay, in groups, of a request issued at group t. */
  function DelayAt(delays: seq<nat>, t: nat): nat {
    if 1 <= t <= |delays| then delays[t - 1] else 0
  }

  function Start(g: Geometry): Cursors {
    Cursors(g.sharedSlots, 0, 0, None, 0)
  }

  /** Completion of group t: dispatch a request, or coalesce with the pending one. */
  function Request(c: Cursors, t: nat, delay: nat): Cursors {
    if c.requested == c.handled then c.(requested := c.requested + 1, due := Some(t + delay))
    else c.(coalesced := c.coalesced + 1)
  }

  predicate ActionRuns(c: Cursors, t: nat) {
    c.due.Some? && t >= c.due.value
  }

  /** The preparation action of group t, if its wake is due. */
  function Prepare(g: Geometry, c: Cursors, t: nat): Cursors {
    if ActionRuns(c, t) then
      c.(expose := Max(c.expose, Min(t * g.irqPackets + g.lead, c.expose + g.lead)),
         handled := c.requested, due := None)
    else c
  }

  function Requested(g: Geometry, delays: seq<nat>, t: nat): Cursors
    requires t > 0
    decreases t, 0
  {
    Request(After(g, delays, t - 1), t, DelayAt(delays, t))
  }

  function After(g: Geometry, delays: seq<nat>, t: nat): Cursors
    decreases t, 1
  {
    if t == 0 then Start(g) else Prepare(g, Requested(g, delays, t), t)
  }

  /** The refill of group t would read past the exposed packets. */
  predicate FatalAt(g: Geometry, delays: seq<nat>, t: nat)
    requires t > 0
  {
    g.hardwarePackets + t * g.irqPackets > After(g, delays, t - 1).expose
  }

  // ----- The generation-stamped ring -----

  function ExpectedGeneration(packet: int, slots: int): int
    requires slots > 0
  {
    Lap(packet, slots) + 1
  }

  /** Stamp of slot j once every packet below the frontier has been committed. */
  function Stamp(frontier: int, slots: int, j: int): int
    requires slots > 0
  {
    LatestLap(frontier, slots, j) + 1
  }

  ghost predicate Stamped(committed: seq<int>, slots: int, frontier: int) {
    && slots > 0 && |committed| == slots
    && forall j :: 0 <= j < slots ==> committed[j] == Stamp(frontier, slots, j)
  }

  lemma StampStep(committed: seq<int>, slots: int, frontier: int)
    requires Stamped(committed, slots, frontier)
    ensures Stamped(committed[frontier % slots := ExpectedGeneration(frontier, slots)], slots, frontier + 1)
  {
    var laps := seq(slots, j requires 0 <= j < slots => committed[j] - 1);
    ShowsLapsStep(laps, slots, frontier);
    var committed' := committed[frontier % slots := ExpectedGeneration(frontier, slots)];
    var laps' := laps[frontier % slots := Lap(frontier, slots)];
    forall j | 0 <= j < slots
      ensures committed'[j] == Stamp(frontier + 1, slots, j)
    {
      assert committed'[j] == laps'[j] + 1;
    }
  }

  // ----- The simulation -----

  datatype Fatal = Fatal(packet: int, expected: int, committed: int)
  datatype TxResult = TxResult(fatal: Option<Fatal>, completion: int, cursors: Cursors)
  datatype Outcome = Rejected | Ran(result: TxResult)

  /** The first packet of group t's refill that has not been exposed. */
  function FirstUnexposed(g: Geometry, c: Cursors, t: nat): int {
    Max(g.hardwarePackets + (t - 1) * g.irqPackets, c.expose)
  }

  ghost predicate FailsIn(g: Geometry, delays: seq<nat>, r: TxResult, f: Fatal, t: nat)
    requires g.Valid()
  {
    && 1 <= t <= g.groups && FatalAt(g, delays, t)
    && (forall u: nat :: 1 <= u < t ==> !FatalAt(g, delays, u))
    && r.completion == t * g.irqPackets
    && r.cursors == Requested(g, delays, t)
    && f.packet == FirstUnexposed(g, r.cursors, t)
    && f.expected == ExpectedGeneration(f.packet, g.sharedSlots)
    && f.committed == Stamp(r.cursors.expose, g.sharedSlots, f.packet % g.sharedSlots) < f.expected
  }

  /** What a run over the schedule must report: the first group whose refill overtakes the frontier,
      with the first unexposed packet and a stale stamp, or the final cursors when there is none. */
  ghost predicate Reports(g: Geometry, delays: seq<nat>, r: TxResult)
    requires g.Valid()
  {
    match r.fatal
    case None =>
      && (forall t: nat :: 1 <= t <= g.groups ==> !FatalAt(g, delays, t))
      && r.completion == g.groups * g.irqPackets
      && r.cursors == After(g, delays, g.groups)
    case Some(f) => exists t: nat :: FailsIn(g, delays, r, f, t)
  }

  /** The schedule of a single delayed request. */
  function SingleDelay(r: int, d: nat): seq<nat> {
    if r >= 1 then seq(r - 1, _ => 0) + [d] else []
  }

  function Schedule(g: Geometry): seq<nat>
    requires g.Valid()
  {
    if g.delayedRequestGroup.Some? then SingleDelay(g.delayedRequestGroup.value, g.delayedGroups) else []
  }

  method SimulateTxPreparation(g: Geometry) returns (o: Outcome)
    ensures o.Rejected? <==>
            || g.sharedSlots <= 0 || g.hardwarePackets <= 0 || g.irqPackets <= 0 || g.lead <= 0 || g.groups <= 0
            || g.hardwarePackets % g.irqPackets != 0 || g.sharedSlots % g.irqPackets != 0
            || g.lead > g.sharedSlots - g.irqPackets || g.delayedGroups < 0
    ensures o.Ran? ==> Reports(g, Schedule(g), o.result)
  {
    if !g.Positive() {
      return Rejected;
    }
    if g.hardwarePackets % g.irqPackets != 0 || g.sharedSlots % g.irqPackets != 0 {
      return Rejected;
    }
    if g.lead > g.sharedSlots - g.irqPackets || g.delayedGroups < 0 {
      return Rejected;
    }
    var r := RunSchedule(g, Schedule(g));
    o := Ran(r);
  }

  /** Reads one group of packets from the ring, stopping at the first wrong generation. */
  method Refill(g: Geometry, committed: seq<int>, fill: int, ghost expose: int) returns (f: Option<Fatal>)
    requires g.Valid() && Stamped(committed, g.sharedSlots, expose)
    requires expose - g.sharedSlots <= fill
    ensures f.None? <==> fill + g.irqPackets <= expose
    ensures f.Some? ==>
              && f.value.packet == Max(fill, expose)
              && f.value.expected == ExpectedGeneration(f.value.packet, g.sharedSlots)
              && f.value.committed == Stamp(expose, g.sharedSlots, f.value.packet % g.sharedSlots) < f.value.expected
  {
    for packet := fill to fill + g.irqPackets
      invariant packet == fill || packet <= expose
    {
      LapMatches(expose, g.sharedSlots, packet);
      var slot := packet % g.sharedSlots;
      var expected := ExpectedGeneration(packet, g.sharedSlots);
      if committed[slot] != expected {
        return Some(Fatal(packet, expected, committed[slot]));
      }
    }
    f := None;
  }

  /** Commits packets from the frontier up to the target. */
  method Expose(g: Geometry, committed: seq<int>, expose: int, target: int) returns (committed': seq<int>, expose': int)
    requires g.Valid() && Stamped(committed, g.sharedSlots, expose)
    ensures expose' == Max(expose, target) && Stamped(committed', g.sharedSlots, expose')
  {
    committed', expose' := committed, expose;
    while expose' < target
      invariant expose <= expose' <= Max(expose, target)
      invariant Stamped(committed', g.sharedSlots, expose')
    {
      StampStep(committed', g.sharedSlots, expose');
      committed' := committed'[expose' % g.sharedSlots := ExpectedGeneration(expose', g.sharedSlots)];
      expose' := expose' + 1;
    }
  }

  /** The producer's half of group t: run the action if its wake is due. */
  method RunAction(g: Geometry, committed: seq<int>, cursors: Cursors, completion: int, t: nat)
    returns (committed': seq<int>, cursors': Cursors)
    requires g.Valid() && Stamped(committed, g.sharedSlots, cursors.expose)
    requires completion == t * g.irqPackets
    ensures cursors' == Prepare(g, cursors, t) && Stamped(committed', g.sharedSlots, cursors'.expose)
  {
    committed', cursors' := committed, cursors;
    if ActionRuns(cursors, t) {
      var target := Min(completion + g.lead, cursors.expose + g.lead);
      var expose;
      committed', expose := Expose(g, committed, cursors.expose, target);
      cursors' := cursors.(expose := expose, handled := cursors.requested, due := None);
    }
  }

  method RunSchedule(g: Geometry, delays: seq<nat>) returns (r: TxResult)
    requires g.Valid()
    ensures Reports(g, delays, r)
  {
    var committed: seq<int> := seq(g.sharedSlots, _ => 1);
    var cursors := Start(g);
    var completion, fill := 0, g.hardwarePackets;
    InitialStamps(g.sharedSlots, committed);
    for group := 1 to g.groups + 1
      invariant cursors == After(g, delays, group - 1)
      invariant Stamped(committed, g.sharedSlots, cursors.expose)
      invariant completion == (group - 1) * g.irqPackets
      invariant fill == g.hardwarePackets + completion
      invariant forall t: nat :: 1 <= t < group ==> !FatalAt(g, delays, t)
    {
      MulDist(group - 1, 1, g.irqPackets);
      FrontierBound(g, delays, group - 1);
      completion := completion + g.irqPackets;
      cursors := Request(cursors, group, DelayAt(delays, group));
      assert cursors == Requested(g, delays, group);
      var f := Refill(g, committed, fill, cursors.expose);
      if f.Some? {
        r := TxResult(f, completion, cursors);
        assert FailsIn(g, delays, r, f.value, group);
        return;
      }
      fill := fill + g.irqPackets;
      committed, cursors := RunAction(g, committed, cursors, completion, group);
    }
    r := TxResult(None, completion, cursors);
  }

  lemma InitialStamps(slots: int, committed: seq<int>)
    requires slots > 0 && |committed| == slots && forall j :: 0 <= j < slots ==> committed[j] == 1
    ensures Stamped(committed, slots, slots)
  {
    forall j | 0 <= j < slots
      ensures Stamp(slots, slots, j) == 1
    {
      DivUnique(slots - 1 - j, slots, 0);
    }
  }

  // ----- Properties of every run -----

  /** No write evicts an uncompleted packet: after group t every packet of the last completed group
      and beyond is still in its slot. */
  lemma {:induction false} FrontierBound(g: Geometry, delays: seq<nat>, t: nat)
    requires g.Valid()
    ensures g.sharedSlots <= After(g, delays, t).expose
    ensures After(g, delays, t).expose - g.sharedSlots <= Max(0, (t - 1) * g.irqPackets)
    ensures After(g, delays, t).expose - g.sharedSlots <= g.hardwarePackets + t * g.irqPackets
  {
    if t == 0 {
    } else {
      FrontierBound(g, delays, t - 1);
      MulDist(t - 1, 1, g.irqPackets);
      MulDist(t - 2, 1, g.irqPackets);
      MulLe(1, t, g.irqPackets);
      assert (t - 1) * g.irqPackets >= 0;
    }
  }

  /** Every group either issues a request or coalesces with the pending one, and at most one is pending. */
  lemma {:induction false} RequestsAccounted(g: Geometry, delays: seq<nat>, t: nat)
    ensures var c := After(g, delays, t);
            && c.requested + c.coalesced == t
            && c.handled <= c.requested <= c.handled + 1
            && (c.due.Some? <==> c.requested == c.handled + 1)
  {
    if t == 0 {
    } else {
      RequestsAccounted(g, delays, t - 1);
    }
  }

  /** The last group up to t whose preparation action ran; 0 when none has. */
  function LastAction(g: Geometry, delays: seq<nat>, t: nat): nat {
    if t == 0 then 0
    else if ActionRuns(Requested(g, delays, t), t) then t
    else LastAction(g, delays, t - 1)
  }

  /** A pending request was issued in the group right after the last action. */
  lemma {:induction false} PendingSinceLastAction(g: Geometry, delays: seq<nat>, t: nat)
    ensures var a, c := LastAction(g, delays, t), After(g, delays, t);
            && a <= t
            && (c.due.None? ==> a == t && c.requested == c.handled)
            && (c.due.Some? ==>
                  c.due == Some(a + 1 + DelayAt(delays, a + 1)) && t < c.due.value && c.requested == c.handled + 1)
  {
    if t == 0 {
    } else {
      PendingSinceLastAction(g, delays, t - 1);
    }
  }

  /** While no refill has failed, the frontier is the lead beyond the last action, or the startup prefill. */
  lemma {:induction false} FrontierWhileSafe(g: Geometry, delays: seq<nat>, t: nat)
    requires g.Valid()
    requires forall u: nat :: 1 <= u <= t ==> !FatalAt(g, delays, u)
    ensures After(g, delays, t).expose == Max(g.sharedSlots, LastAction(g, delays, t) * g.irqPackets + g.lead)
  {
    if t == 0 {
    } else {
      FrontierWhileSafe(g, delays, t - 1);
      PendingSinceLastAction(g, delays, t - 1);
      MulLe(LastAction(g, delays, t - 1), t, g.irqPackets);
      assert !FatalAt(g, delays, t);
    }
  }

  // ----- The threshold -----

  ghost predicate Bounded(delays: seq<nat>, d: nat) {
    forall i :: 0 <= i < |delays| ==> delays[i] <= d
  }

  /** Sufficient: a lead of D + 1 groups beyond the hardware ring absorbs every schedule of delays up to D. */
  lemma {:induction false} LeadSuffices(g: Geometry, delays: seq<nat>, d: nat, t: nat)
    requires g.Valid() && Bounded(delays, d) && t > 0
    requires g.lead >= g.hardwarePackets + (d + 1) * g.irqPackets
    ensures !FatalAt(g, delays, t)
  {
    forall u: nat | 1 <= u < t
      ensures !FatalAt(g, delays, u)
    {
      LeadSuffices(g, delays, d, u);
    }
    FrontierWhileSafe(g, delays, t - 1);
    PendingSinceLastAction(g, delays, t - 1);
    var a := LastAction(g, delays, t - 1);
    assert DelayAt(delays, a + 1) <= d;
    MulLe(t, a + d + 1, g.irqPackets);
    MulDist(a, d + 1, g.irqPackets);
  }

  lemma {:induction false} SingleDelayActions(g: Geometry, r: nat, d: nat, t: nat)
    requires r >= 1
    ensures LastAction(g, SingleDelay(r, d), t) == if r <= t < r + d then r - 1 else t
  {
    if t == 0 {
    } else {
      var delays := SingleDelay(r, d);
      SingleDelayActions(g, r, d, t - 1);
      PendingSinceLastAction(g, delays, t - 1);
      assert forall i: nat :: DelayAt(delays, i) == if i == r then d else 0;
    }
  }

  lemma {:induction false} NoDelayActions(g: Geometry, t: nat)
    ensures LastAction(g, [], t) == t
  {
    if t == 0 {
    } else {
      NoDelayActions(g, t - 1);
      PendingSinceLastAction(g, [], t - 1);
    }
  }

  /** A run has a fatal group up to `last` exactly when some group needs more than the frontier that its
      last action, or the prefill, would have left. */
  lemma FatalByActions(g: Geometry, delays: seq<nat>, last: nat)
    requires g.Valid()
    ensures (exists t: nat :: 1 <= t <= last && FatalAt(g, delays, t)) <==>
            (exists t: nat :: 1 <= t <= last && OvertakenAt(g, delays, t))
  {
    if t: nat :| 1 <= t <= last && FatalAt(g, delays, t) {
      var u := FatalIsOvertaken(g, delays, t);
    }
    if t: nat :| 1 <= t <= last && OvertakenAt(g, delays, t) {
      var u := OvertakenIsFatal(g, delays, t);
    }
  }

  lemma FatalIsOvertaken(g: Geometry, delays: seq<nat>, t: nat) returns (u: nat)
    requires g.Valid() && 1 <= t && FatalAt(g, delays, t)
    ensures 1 <= u <= t && OvertakenAt(g, delays, u)
  {
    u := FirstFatal(g, delays, t);
    FrontierWhileSafe(g, delays, u - 1);
  }

  lemma OvertakenIsFatal(g: Geometry, delays: seq<nat>, t: nat) returns (u: nat)
    requires g.Valid() && 1 <= t && OvertakenAt(g, delays, t)
    ensures 1 <= u <= t && FatalAt(g, delays, u)
  {
    if v: nat :| 1 <= v < t && FatalAt(g, delays, v) {
      u := v;
    } else {
      FrontierWhileSafe(g, delays, t - 1);
      u := t;
    }
  }

  /** Group t reads beyond both the prefill and the exposure made by the action of group a. */
  predicate Overtakes(g: Geometry, a: nat, t: nat) {
    g.hardwarePackets + t * g.irqPackets > Max(g.sharedSlots, a * g.irqPackets + g.lead)
  }

  predicate OvertakenAt(g: Geometry, delays: seq<nat>, t: nat)
    requires t > 0
  {
    Overtakes(g, LastAction(g, delays, t - 1), t)
  }

  lemma {:induction false} FirstFatal(g: Geometry, delays: seq<nat>, t: nat) returns (u: nat)
    requires 1 <= t && FatalAt(g, delays, t)
    ensures 1 <= u <= t && FatalAt(g, delays, u)
    ensures forall v: nat :: 1 <= v < u ==> !FatalAt(g, delays, v)
  {
    if v: nat :| 1 <= v < t && FatalAt(g, delays, v) {
      u := FirstFatal(g, delays, v);
    } else {
      u := t;
    }
  }

  /** Necessary: with a shorter lead one request delayed by D, late enough that the prefill is used up, is fatal. */
  lemma ShortLeadFails(g: Geometry, d: nat) returns (r: nat, t: nat)
    requires g.Valid() && g.lead < g.hardwarePackets + (d + 1) * g.irqPackets
    ensures r >= 1 && 1 <= t <= r + d && FatalAt(g, SingleDelay(r, d), t)
    ensures Bounded(SingleDelay(r, d), d)
  {
    r := g.sharedSlots + 1;
    var delays, last := SingleDelay(r, d), r + d;
    SingleDelayActions(g, r, d, last - 1);
    MulLe(1, g.irqPackets, last);
    MulDist(r - 1, d + 1, g.irqPackets);
    assert OvertakenAt(g, delays, last);
    FatalByActions(g, delays, last);
    t :| 1 <= t <= last && FatalAt(g, delays, t);
  }

  /** The protocol is safe under every schedule of wake delays up to D exactly at its threshold. */
  lemma SafetyThreshold(g: Geometry, d: nat)
    requires g.Valid()
    ensures (forall delays: seq<nat>, t: nat :: Bounded(delays, d) && t > 0 ==> !FatalAt(g, delays, t))
            <==> g.lead >= g.hardwarePackets + (d + 1) * g.irqPackets
  {
    if g.lead >= g.hardwarePackets + (d + 1) * g.irqPackets {
      forall delays: seq<nat>, t: nat | Bounded(delays, d) && t > 0
        ensures !FatalAt(g, delays, t)
      {
        LeadSuffices(g, delays, d, t);
      }
    } else {
      var r, t := ShortLeadFails(g, d);
      assert Bounded(SingleDelay(r, d), d) && FatalAt(g, SingleDelay(r, d), t);
    }
  }

  /** The longest delay that can matter within n groups. */
  function EffectiveDelay(d: nat, n: nat): nat
    requires n >= 1
  {
    Min(d, n - 1)
  }

  /** Within n groups no refill overtakes the frontier: the prefill covers the run, or the lead absorbs the delay. */
  lemma FiniteSafe(g: Geometry, delays: seq<nat>, d: nat, n: nat, t: nat)
    requires g.Valid() && Bounded(delays, d) && 1 <= t <= n
    requires g.hardwarePackets + n * g.irqPackets <= g.sharedSlots
             || g.lead >= g.hardwarePackets + (EffectiveDelay(d, n) + 1) * g.irqPackets
    ensures !FatalAt(g, delays, t)
  {
    if FatalAt(g, delays, t) {
      var u := FatalIsOvertaken(g, delays, t);
      PendingSinceLastAction(g, delays, u - 1);
      NotOvertaken(g, LastAction(g, delays, u - 1), u, EffectiveDelay(d, n) + 1, n);
    }
  }

  lemma NotOvertaken(g: Geometry, a: nat, u: nat, span: nat, n: nat)
    requires g.irqPackets >= 0 && u <= n && u <= a + span
    requires g.hardwarePackets + n * g.irqPackets <= g.sharedSlots
             || g.lead >= g.hardwarePackets + span * g.irqPackets
    ensures !Overtakes(g, a, u)
  {
    MulLe(u, n, g.irqPackets);
    MulLe(u, a + span, g.irqPackets);
    MulDist(a, span, g.irqPackets);
  }

  /** Otherwise one request, delayed until the run ends, is fatal. */
  lemma FiniteFails(g: Geometry, d: nat, n: nat) returns (delays: seq<nat>, t: nat)
    requires g.Valid() && n >= 1
    requires g.hardwarePackets + n * g.irqPackets > g.sharedSlots
    requires g.lead < g.hardwarePackets + (EffectiveDelay(d, n) + 1) * g.irqPackets
    ensures Bounded(delays, d) && 1 <= t <= n && FatalAt(g, delays, t)
  {
    var e := EffectiveDelay(d, n);
    delays := SingleDelay(n - e, e);
    SingleDelayActions(g, n - e, e, n - 1);
    var a := n - e - 1;
    assert LastAction(g, delays, n - 1) == a;
    AllButSpan(g, a, e + 1, n);
    t := OvertakenIsFatal(g, delays, n);
  }

  lemma AllButSpan(g: Geometry, a: nat, span: nat, n: nat)
    requires n == a + span && g.hardwarePackets + n * g.irqPackets > g.sharedSlots
    requires g.lead < g.hardwarePackets + span * g.irqPackets
    ensures Overtakes(g, a, n)
  {
    MulDist(a, span, g.irqPackets);
  }

  /** The threshold of a run of n groups, over every schedule of delays up to d. */
  lemma FiniteThreshold(g: Geometry, d: nat, n: nat)
    requires g.Valid() && n >= 1
    ensures (forall delays: seq<nat>, t: nat :: Bounded(delays, d) && 1 <= t <= n ==> !FatalAt(g, delays, t))
            <==> (g.hardwarePackets + n * g.irqPackets <= g.sharedSlots
                  || g.lead >= g.hardwarePackets + (Min(d, n - 1) + 1) * g.irqPackets)
  {
    if g.hardwarePackets + n * g.irqPackets <= g.sharedSlots
       || g.lead >= g.hardwarePackets + (EffectiveDelay(d, n) + 1) * g.irqPackets {
      forall delays: seq<nat>, t: nat | Bounded(delays, d) && 1 <= t <= n
        ensures !FatalAt(g, delays, t)
      {
        FiniteSafe(g, delays, d, n, t);
      }
    } else {
      var delays, t := FiniteFails(g, d, n);
    }
  }

  /** When the single-delay simulation fails, decided from its configuration alone: the undelayed lead is
      already short and the run outlasts the prefill, or the delayed span ends beyond both. */
  predicate ConfiguredToFail(g: Geometry)
    requires g.Valid()
  {
    || (g.lead < g.hardwarePackets + g.irqPackets && g.hardwarePackets + g.groups * g.irqPackets > g.sharedSlots)
    || (g.delayedRequestGroup.Some? && var r := g.delayedRequestGroup.value;
        1 <= r <= g.groups && var t := Min(g.groups, r + g.delayedGroups);
        && g.hardwarePackets + t * g.irqPackets > g.sharedSlots
        && g.hardwarePackets + (t - r + 1) * g.irqPackets > g.lead)
  }

  lemma SimulationFailsIff(g: Geometry, result: TxResult)
    requires g.Valid() && Reports(g, Schedule(g), result)
    ensures result.fatal.Some? <==> ConfiguredToFail(g)
  {
    var delays, last := Schedule(g), g.groups;
    FatalByActions(g, delays, last);
    if result.fatal.None? {
      assert !exists t: nat :: 1 <= t <= last && FatalAt(g, delays, t);
    }
    if ConfiguredToFail(g) {
      var t := FailingGroup(g);
      assert OvertakenAt(g, delays, t);
    }
    if t: nat :| 1 <= t <= last && OvertakenAt(g, delays, t) {
      OvertakingIsConfigured(g, t);
    }
  }

  lemma ScheduleActions(g: Geometry, t: nat)
    requires g.Valid()
    ensures LastAction(g, Schedule(g), t)
         == if g.delayedRequestGroup.Some? && g.delayedRequestGroup.value >= 1
               && g.delayedRequestGroup.value <= t < g.delayedRequestGroup.value + g.delayedGroups
            then g.delayedRequestGroup.value - 1 else t
  {
    if g.delayedRequestGroup.Some? && g.delayedRequestGroup.value >= 1 {
      SingleDelayActions(g, g.delayedRequestGroup.value, g.delayedGroups, t);
    } else {
      NoDelayActions(g, t);
    }
  }

  lemma FailingGroup(g: Geometry) returns (t: nat)
    requires g.Valid() && ConfiguredToFail(g)
    ensures 1 <= t <= g.groups && OvertakenAt(g, Schedule(g), t)
  {
    var q := g.irqPackets;
    if g.lead < g.hardwarePackets + q && g.hardwarePackets + g.groups * q > g.sharedSlots {
      t := g.groups;
      ScheduleActions(g, t - 1);
      PendingSinceLastAction(g, Schedule(g), t - 1);
      var a := LastAction(g, Schedule(g), t - 1);
      MulLe(a, t - 1, q);
      MulDist(t - 1, 1, q);
    } else {
      var r := g.delayedRequestGroup.value;
      t := Min(g.groups, r + g.delayedGroups);
      ScheduleActions(g, t - 1);
      MulDist(r - 1, t - r + 1, q);
    }
  }

  lemma OvertakingIsConfigured(g: Geometry, t: nat)
    requires g.Valid() && 1 <= t <= g.groups && OvertakenAt(g, Schedule(g), t)
    ensures ConfiguredToFail(g)
  {
    var q, a := g.irqPackets, LastAction(g, Schedule(g), t - 1);
    ScheduleActions(g, t - 1);
    MulLe(t, g.groups, q);
    MulDist(t - 1, 1, q);
    if a != t - 1 {
      var r := g.delayedRequestGroup.value;
      var u := Min(g.groups, r + g.delayedGroups);
      MulLe(t, u, q);
      MulDist(r - 1, t - r + 1, q);
      MulLe(t - r + 1, u - r + 1, q);
    }
  }

  lemma FirstFatalIsFirstOvertaken(g: Geometry, delays: seq<nat>, v: nat, t: nat)
    requires g.Valid() && 1 <= v && FatalAt(g, delays, v) && 1 <= t && OvertakenAt(g, delays, t)
    requires forall u: nat :: 1 <= u < v ==> !FatalAt(g, delays, u)
    requires forall u: nat :: 1 <= u < t ==> !OvertakenAt(g, delays, u)
    ensures v == t
  {
    var u := FatalIsOvertaken(g, delays, v);
    var w := OvertakenIsFatal(g, delays, t);
  }

  /** A failing simulation reports the first overtaken group, at the edge of the exposed packets. */
  lemma FailureReport(g: Geometry, result: TxResult, t: nat)
    requires g.Valid() && Reports(g, Schedule(g), result) && result.fatal.Some?
    requires 1 <= t <= g.groups && OvertakenAt(g, Schedule(g), t)
    requires forall u: nat :: 1 <= u < t ==> !OvertakenAt(g, Schedule(g), u)
    ensures result.completion == t * g.irqPackets
    ensures result.fatal.value.packet
         == Max(g.hardwarePackets + (t - 1) * g.irqPackets,
                Max(g.sharedSlots, LastAction(g, Schedule(g), t - 1) * g.irqPackets + g.lead))
    ensures result.fatal.value.expected == ExpectedGeneration(result.fatal.value.packet, g.sharedSlots)
    ensures result.cursors.expose == Max(g.sharedSlots, LastAction(g, Schedule(g), t - 1) * g.irqPackets + g.lead)
    ensures result.fatal.value.committed
         == Stamp(result.cursors.expose, g.sharedSlots, result.fatal.value.packet % g.sharedSlots)
  {
    var delays := Schedule(g);
    var v: nat :| FailsIn(g, delays, result, result.fatal.value, v);
    FirstFatalIsFirstOvertaken(g, delays, v, t);
    FrontierWhileSafe(g, delays, t - 1);
  }

  /** The recorded hardware failure: one request delayed by one group with a 224-packet lead stops at
      packet 5280, which needs generation 11 while its slot holds 10. A 256-packet lead survives it. */
  lemma HardwareFatal(g: Geometry, result: TxResult)
    requires g == Geometry(512, 192, 32, 224, 164, Some(159), 1)
    requires g.Valid() && Reports(g, Schedule(g), result)
    ensures result.fatal == Some(Fatal(5280, 11, 10))
    ensures !ConfiguredToFail(g.(lead := 256))
  {
    SimulationFailsIff(g, result);
    forall t: nat | t > 0
      ensures OvertakenAt(g, Schedule(g), t) <==> t == 160
    {
      ScheduleActions(g, t - 1);
    }
    ScheduleActions(g, 159);
    FailureReport(g, result, 160);
  }
}
