/** The HAL buffer geometry solver, measured against its own invariant list. */
module BufferGeometry {
  import opened Arith
  import opened CommonMultiples

  const CADENCE_BLOCK_PKTS := 4
  const CADENCE_BLOCK_FRAMES := 24
  const FRAME_ALIGNMENT := 32
  const PKTS_PER_GROUP := 6
  const HW_RING_PKTS := 48
  const JITTER_FRAMES := 64
  const MIN_DISPATCH_GROUPS := 16
  const MIN_CADENCE_PACKETS := 80
  const MIN_CADENCE_FRAMES := 441
  const CONTENT_HORIZON_PACKETS := 400
  const MIN_SHARED_SLOTS := 912
  const MIN_TIMELINE_SLOTS := 1024

  function Abs(x: int): nat {
    if x < 0 then -x else x
  }

  /** Rounded up to a multiple of n. */
  function RoundUp(x: int, n: int): int
    requires n > 0
  {
    (x + n - 1) / n * n
  }

  /** Packets that carry the given frames at the slowest supported cadence, in whole groups. */
  function CadencePackets(frames: int): int {
    RoundUp((frames * MIN_CADENCE_PACKETS + MIN_CADENCE_FRAMES - 1) / MIN_CADENCE_FRAMES, PKTS_PER_GROUP)
  }

  datatype Geometry = Geometry(ringFrames: int, ioBudget: int, ztsFrames: int, timelineSlots: int, sharedSlots: int) {
    function ExposureLeadFrames(): int {
      CONTENT_HORIZON_PACKETS * 48_000 / 8_000
    }

    function ExposureLeadPkts(): int {
      CadencePackets(ExposureLeadFrames())
    }

    function SlackPkts(): int {
      2 * HW_RING_PKTS
    }

    function CoverageLeadPkts(): int {
      HW_RING_PKTS + SlackPkts()
    }

    function FrameExposureWindowPkts(): int {
      CadencePackets(ioBudget + ExposureLeadFrames())
    }

    function PreparationLeadPkts(): int {
      CoverageLeadPkts() + FrameExposureWindowPkts()
    }

    function MaxCoveredDeltaPkts(): int {
      PreparationLeadPkts() - HW_RING_PKTS
    }
  }

  /** The four invariants of the frame ring. */
  predicate RingInvariants(g: Geometry)
    requires g.ioBudget != 0 && g.ztsFrames != 0
  {
    && g.ringFrames % g.ioBudget == 0
    && g.ringFrames % g.ztsFrames == 0
    && g.ringFrames % FRAME_ALIGNMENT == 0
    && g.ringFrames >= g.ioBudget
  }

  /** The eleven invariants of the packet-domain geometry. */
  predicate PacketInvariants(g: Geometry) {
    && g.sharedSlots >= g.PreparationLeadPkts()
    && g.MaxCoveredDeltaPkts() >= MIN_DISPATCH_GROUPS * PKTS_PER_GROUP
    && g.CoverageLeadPkts() == HW_RING_PKTS + g.SlackPkts()
    && g.PreparationLeadPkts() <= g.sharedSlots - HW_RING_PKTS
    && g.sharedSlots % PKTS_PER_GROUP == 0
    && g.sharedSlots % CADENCE_BLOCK_PKTS == 0
    && g.ExposureLeadFrames() >= g.ioBudget + JITTER_FRAMES
    && g.ExposureLeadPkts() <= g.sharedSlots
    && g.sharedSlots >= 2 * g.ExposureLeadPkts()
    && g.FrameExposureWindowPkts() * CADENCE_BLOCK_FRAMES >= (g.ioBudget + g.ExposureLeadFrames()) * CADENCE_BLOCK_PKTS
    && g.sharedSlots <= g.timelineSlots
  }

  predicate AllInvariants(g: Geometry)
    requires g.ioBudget != 0 && g.ztsFrames != 0
  {
    RingInvariants(g) && PacketInvariants(g)
  }

  /** The least positive common multiple of three numbers. */
  ghost predicate IsLcm3(l: nat, a: nat, b: nat, c: nat)
    requires a > 0 && b > 0 && c > 0
  {
    && l > 0 && Divides(a, l) && Divides(b, l) && Divides(c, l)
    && forall x: nat :: x > 0 && Divides(a, x) && Divides(b, x) && Divides(c, x) ==> l <= x
  }

  lemma NestedLcm(l: nat, step: nat, a: nat, b: nat, c: nat)
    requires a > 0 && b > 0 && c > 0 && IsLcm(step, a, b) && IsLcm(l, step, c)
    ensures IsLcm3(l, a, b, c)
  {
    CommonMultiple(step, a, b, l);
    forall x: nat | x > 0 && Divides(a, x) && Divides(b, x) && Divides(c, x)
      ensures l <= x
    {
      CommonMultiple(step, a, b, x);
    }
  }

  /** No geometry for the same IO size and period, with slot counts from the given ones up, meets the invariants
      with a smaller ring, fewer shared slots or fewer timeline slots. */
  ghost predicate SmallestFrom(g: Geometry, shared: int, timeline: int)
    requires g.ioBudget != 0 && g.ztsFrames != 0
  {
    forall h: Geometry :: Rivals(g, h, shared, timeline) ==>
      g.ringFrames <= h.ringFrames && g.sharedSlots <= h.sharedSlots && g.timelineSlots <= h.timelineSlots
  }

  predicate Rivals(g: Geometry, h: Geometry, shared: int, timeline: int)
    requires g.ioBudget != 0 && g.ztsFrames != 0
  {
    && h.ioBudget == g.ioBudget && h.ztsFrames == g.ztsFrames
    && h.ringFrames > 0 && h.sharedSlots >= shared && h.timelineSlots >= timeline && AllInvariants(h)
  }

  /** The search for a ring size returns. With a zero IO size or a zero period it adds steps of zero, so it
      returns only when nothing has to be added. */
  predicate SearchEnds(maxIo: int, zts: int) {
    (maxIo != 0 && zts != 0) || (maxIo <= 0 && Max(0, zts) % FRAME_ALIGNMENT == 0)
  }

  /** The geometry for a maximum IO size. Its ring is the least common multiple of the IO size, the ZTS period
      and the alignment, and it meets all 15 invariants exactly for the IO sizes from -2433 to 2336: a negative
      size is not caught until its exposure window turns negative. It is the smallest such geometry above the
      floors of 912 shared and 1024 timeline slots, and the smallest without them only from an IO size of 2165. */
  method Solve(maxIo: int, zts: int) returns (g: Geometry)
    requires SearchEnds(maxIo, zts)
    ensures g.ioBudget == maxIo && g.ztsFrames == zts
    ensures maxIo == 1024 && zts == 1536 ==> g == Geometry(3072, 1024, 1536, 1024, 912)
    ensures maxIo != 0 && zts != 0 ==> g.ringFrames > 0 && IsLcm3(g.ringFrames, Abs(maxIo), Abs(zts), FRAME_ALIGNMENT)
    ensures maxIo == 0 || zts == 0 ==> g.ringFrames == Max(0, zts)
    ensures maxIo != 0 && zts != 0 ==> (AllInvariants(g) <==> -2433 <= maxIo <= 2336)
    ensures maxIo != 0 && zts != 0 ==> SmallestFrom(g, MIN_SHARED_SLOTS, MIN_TIMELINE_SLOTS)
    ensures maxIo != 0 && zts != 0 && AllInvariants(g) ==> (SmallestFrom(g, 0, 0) <==> maxIo >= 2165)
    ensures maxIo > 2336 ==> g.ExposureLeadFrames() < g.ioBudget + JITTER_FRAMES
    ensures maxIo < -2433 ==> g.MaxCoveredDeltaPkts() < MIN_DISPATCH_GROUPS * PKTS_PER_GROUP
  {
    g := SizeSlots(Geometry(zts, maxIo, zts, MIN_TIMELINE_SLOTS, MIN_SHARED_SLOTS));
    var ring := SearchRing(maxIo, zts);
    SizedForAnyRing(g, ring);
    g := g.(ringFrames := ring);
    PacketGeometry(g);
    if maxIo != 0 && zts != 0 {
      RingGeometry(g);
      SmallestAboveFloors(g);
      if AllInvariants(g) {
        SmallestIff(g);
      }
      if maxIo == 1024 && zts == 1536 {
        DefaultSlots(g);
        DefaultRing(g);
      }
    }
  }

  /** Slots that cover the preparation lead and twice the exposure lead, in whole twelves. */
  predicate Sized(g: Geometry) {
    && g.sharedSlots == Max(MIN_SHARED_SLOTS, RoundUp(RequiredSlots(g), 12))
    && g.timelineSlots == Max(MIN_TIMELINE_SLOTS, RoundUp(g.sharedSlots, 12))
  }

  function RequiredSlots(g: Geometry): int {
    Max(g.PreparationLeadPkts() + HW_RING_PKTS, 2 * g.ExposureLeadPkts())
  }

  method SizeSlots(initial: Geometry) returns (g: Geometry)
    ensures Sized(g) && g == initial.(sharedSlots := g.sharedSlots, timelineSlots := g.timelineSlots)
  {
    var requiredShared := Max(initial.PreparationLeadPkts() + HW_RING_PKTS, 2 * initial.ExposureLeadPkts());
    var shared := Max(MIN_SHARED_SLOTS, (requiredShared + 11) / 12 * 12);
    var timeline := Max(MIN_TIMELINE_SLOTS, (shared + 11) / 12 * 12);
    g := initial.(sharedSlots := shared, timelineSlots := timeline);
  }

  lemma SizedForAnyRing(g: Geometry, ring: int)
    requires Sized(g)
    ensures Sized(g.(ringFrames := ring))
  {}

  /** The frame ring of the solver: a multiple of both periods that holds one maximum IO, aligned. */
  method SearchRing(maxIo: int, zts: int) returns (ring: int)
    requires SearchEnds(maxIo, zts)
    ensures maxIo != 0 && zts != 0 ==> ring > 0 && IsLcm3(ring, Abs(maxIo), Abs(zts), FRAME_ALIGNMENT)
    ensures maxIo == 0 || zts == 0 ==> ring == Max(0, zts)
  {
    var step := 0;
    if maxIo != 0 && zts != 0 {
      step := Lcm(Abs(maxIo), Abs(zts));
    }
    ring := step;
    while ring < maxIo
      invariant step == 0 ==> ring == 0
      invariant ring == step || (ring >= 2 * step && ring - step < maxIo)
      decreases maxIo - ring
    {
      ring := ring + step;
    }
    if step > 0 {
      // The step is already a multiple of both, so neither adjustment moves the ring.
      MultipleIsLarger(step, Abs(maxIo));
      MultipleIsLarger(step, Abs(zts));
    }
    ring := Align(Max(ring, zts), step);
    if step > 0 {
      NestedLcm(ring, step, Abs(maxIo), Abs(zts), FRAME_ALIGNMENT);
    }
  }

  /** Adds steps until the ring is aligned. */
  method Align(start: nat, step: nat) returns (ring: nat)
    requires start == step > 0 || (step == 0 && start % FRAME_ALIGNMENT == 0)
    ensures step > 0 ==> IsLcm(ring, step, FRAME_ALIGNMENT)
    ensures step == 0 ==> ring == start
  {
    ring := start;
    ghost var k := 1;
    while ring % FRAME_ALIGNMENT != 0
      invariant step == 0 ==> ring == start
      invariant step > 0 ==> 1 <= k <= FRAME_ALIGNMENT && ring == k * step
      invariant step > 0 ==> forall j: nat :: 0 < j < k ==> !Divides(FRAME_ALIGNMENT, j * step)
      decreases FRAME_ALIGNMENT - k
    {
      MulDist(k, 1, step);
      ring, k := ring + step, k + 1;
    }
    if step > 0 {
      AlignedIsLcm(ring, step, k);
    }
  }

  lemma AlignedIsLcm(ring: nat, step: nat, k: nat)
    requires step > 0 && k > 0 && ring == k * step && Divides(FRAME_ALIGNMENT, ring)
    requires forall j: nat :: 0 < j < k ==> !Divides(FRAME_ALIGNMENT, j * step)
    ensures IsLcm(ring, step, FRAME_ALIGNMENT)
  {
    MulPositive(k, step);
    DividesIff(step, ring, k);
    forall x: nat | x > 0 && Divides(step, x) && Divides(FRAME_ALIGNMENT, x)
      ensures ring <= x
    {
      FirstIsLeast(step, FRAME_ALIGNMENT, k, x);
    }
  }

  /** A common multiple of both periods and the alignment meets every ring invariant. */
  lemma RingGeometry(g: Geometry)
    requires g.ioBudget != 0 && g.ztsFrames != 0 && g.ringFrames > 0
    requires IsLcm3(g.ringFrames, Abs(g.ioBudget), Abs(g.ztsFrames), FRAME_ALIGNMENT)
    ensures RingInvariants(g)
  {
    MultipleIsLarger(g.ringFrames, Abs(g.ioBudget));
    DividesSigned(g.ioBudget, g.ringFrames);
    DividesSigned(g.ztsFrames, g.ringFrames);
  }

  lemma DividesUnsigned(a: int, x: int)
    requires a != 0 && x % a == 0
    ensures Divides(Abs(a), x)
  {
    var q := x / a;
    assert x == q * a;
    DividesIff(Abs(a), x, if a < 0 then -q else q);
  }

  lemma DividesSigned(a: int, x: int)
    requires a != 0 && Divides(Abs(a), x)
    ensures x % a == 0
  {
    var m, q, r := x / Abs(a), x / a, x % a;
    assert x == q * a + r && 0 <= r < Abs(a);
    DivBounds(x, Abs(a));
    if a < 0 {
      MulDist(m, q, -a);
      MulUnique(r, -a, m + q, 0);
    }
  }

  lemma MultipleIsLarger(l: nat, a: nat)
    requires l > 0 && a > 0 && Divides(a, l)
    ensures l >= a
  {
    var k := l / a;
    assert l == k * a && k > 0;
    MulLe(1, k, a);
  }

  /** The solver's slot counts meet every packet invariant except the jitter margin, which bounds the IO size
      from above, and the covered delta, which bounds it from below. */
  lemma PacketGeometry(g: Geometry)
    requires Sized(g)
    ensures PacketInvariants(g) <==> -2433 <= g.ioBudget <= 2336
    ensures g.ExposureLeadFrames() >= g.ioBudget + JITTER_FRAMES <==> g.ioBudget <= 2336
    ensures g.MaxCoveredDeltaPkts() >= MIN_DISPATCH_GROUPS * PKTS_PER_GROUP <==> g.ioBudget >= -2433
  {
    ExposureLead(g);
    WindowCovers(g.ioBudget + g.ExposureLeadFrames());
    SlotCount(RequiredSlots(g));
    SlotCount(g.sharedSlots);
  }

  // ----- Smallest profiles -----

  /** The invariants on the shared slots ask for whole twelves that cover what is required. */
  lemma SlotsNeeded(h: Geometry)
    requires PacketInvariants(h)
    ensures h.timelineSlots >= h.sharedSlots >= RoundUp(RequiredSlots(h), 12)
  {
    WholeTwelves(h.sharedSlots);
    LeastTwelve(RequiredSlots(h), h.sharedSlots);
  }

  lemma WholeTwelves(x: int)
    requires x % PKTS_PER_GROUP == 0 && x % CADENCE_BLOCK_PKTS == 0
    ensures x % 12 == 0
  {}

  /** Rounding up gives the least whole twelve. */
  lemma LeastTwelve(x: int, y: int)
    requires y >= x && y % 12 == 0
    ensures y >= RoundUp(x, 12)
  {
    DivMono(x + 11, y + 11, 12);
    assert y == y / 12 * 12;
    assert RoundUp(y, 12) == y;
    MulLe((x + 11) / 12, (y + 11) / 12, 12);
  }

  lemma RingIsLeast(g: Geometry, h: Geometry)
    requires g.ioBudget != 0 && g.ztsFrames != 0 && h.ioBudget == g.ioBudget && h.ztsFrames == g.ztsFrames
    requires g.ringFrames > 0 && IsLcm3(g.ringFrames, Abs(g.ioBudget), Abs(g.ztsFrames), FRAME_ALIGNMENT)
    requires h.ringFrames > 0 && RingInvariants(h)
    ensures g.ringFrames <= h.ringFrames
  {
    DividesUnsigned(h.ioBudget, h.ringFrames);
    DividesUnsigned(h.ztsFrames, h.ringFrames);
  }

  lemma SlotsAreLeast(g: Geometry, h: Geometry)
    requires Sized(g) && h.ioBudget == g.ioBudget && PacketInvariants(h)
    requires h.sharedSlots >= MIN_SHARED_SLOTS && h.timelineSlots >= MIN_TIMELINE_SLOTS
    ensures g.sharedSlots <= h.sharedSlots && g.timelineSlots <= h.timelineSlots
  {
    SlotsNeeded(h);
    SharedIsWhole(g);
  }

  /** The shared slots are whole twelves already, so the timeline is not rounded again. */
  lemma SharedIsWhole(g: Geometry)
    requires Sized(g)
    ensures g.timelineSlots == Max(MIN_TIMELINE_SLOTS, g.sharedSlots)
  {
    SlotCount(RequiredSlots(g));
    WholeTwelves(RoundUp(RequiredSlots(g), 12));
    LeastTwelve(g.sharedSlots, g.sharedSlots);
    SlotCount(g.sharedSlots);
  }

  lemma SmallestAboveFloors(g: Geometry)
    requires Sized(g) && g.ioBudget != 0 && g.ztsFrames != 0
    requires g.ringFrames > 0 && IsLcm3(g.ringFrames, Abs(g.ioBudget), Abs(g.ztsFrames), FRAME_ALIGNMENT)
    ensures SmallestFrom(g, MIN_SHARED_SLOTS, MIN_TIMELINE_SLOTS)
  {
    forall h: Geometry | Rivals(g, h, MIN_SHARED_SLOTS, MIN_TIMELINE_SLOTS)
      ensures g.ringFrames <= h.ringFrames && g.sharedSlots <= h.sharedSlots && g.timelineSlots <= h.timelineSlots
    {
      RingIsLeast(g, h);
      SlotsAreLeast(g, h);
    }
  }

  /** Without the floors, the smallest slot counts are the required ones in whole twelves. */
  lemma SmallestIff(g: Geometry)
    requires Sized(g) && g.ioBudget != 0 && g.ztsFrames != 0 && AllInvariants(g)
    requires g.ringFrames > 0 && IsLcm3(g.ringFrames, Abs(g.ioBudget), Abs(g.ztsFrames), FRAME_ALIGNMENT)
    ensures SmallestFrom(g, 0, 0) <==> g.ioBudget >= 2165
  {
    FloorsReached(g);
    if g.ioBudget >= 2165 {
      forall h: Geometry | Rivals(g, h, 0, 0)
        ensures g.ringFrames <= h.ringFrames && g.sharedSlots <= h.sharedSlots && g.timelineSlots <= h.timelineSlots
      {
        RingIsLeast(g, h);
        NeededSlotsAreLeast(g, h);
      }
    } else {
      TrimmedRivals(g);
    }
  }

  lemma NeededSlotsAreLeast(g: Geometry, h: Geometry)
    requires Sized(g) && RoundUp(RequiredSlots(g), 12) >= MIN_TIMELINE_SLOTS
    requires h.ioBudget == g.ioBudget && PacketInvariants(h)
    ensures g.sharedSlots <= h.sharedSlots && g.timelineSlots <= h.timelineSlots
  {
    SlotsNeeded(h);
    SharedIsWhole(g);
  }

  lemma TrimmedRivals(g: Geometry)
    requires Sized(g) && g.ioBudget != 0 && g.ztsFrames != 0 && AllInvariants(g) && g.ringFrames > 0
    requires RoundUp(RequiredSlots(g), 12) < MIN_TIMELINE_SLOTS
    ensures Rivals(g, Trimmed(g), 0, 0) && Trimmed(g).timelineSlots < g.timelineSlots
  {
    TrimmedMeets(g);
  }

  /** The same geometry with the slots it needs and no more. */
  function Trimmed(g: Geometry): Geometry {
    var slots := RoundUp(RequiredSlots(g), 12);
    g.(sharedSlots := slots, timelineSlots := slots)
  }

  lemma TrimmedMeets(g: Geometry)
    requires Sized(g) && PacketInvariants(g)
    ensures PacketInvariants(Trimmed(g)) && Trimmed(g).sharedSlots >= 0
  {
    ExposureLead(g);
    SlotCount(RequiredSlots(g));
  }

  /** Exactly when the floors cost slots: the slots needed reach the shared floor from an IO size of 1503 on, and
      the timeline floor from 2165 on. */
  lemma FloorsReached(g: Geometry)
    ensures RoundUp(RequiredSlots(g), 12) >= MIN_SHARED_SLOTS <==> g.ioBudget >= 1503
    ensures RoundUp(RequiredSlots(g), 12) >= MIN_TIMELINE_SLOTS <==> g.ioBudget >= 2165
  {
    ExposureLead(g);
    WindowAtLeast(g.ioBudget + g.ExposureLeadFrames());
    var required := RequiredSlots(g);
    DivGe(required + 11, 12, 76);
    DivGe(required + 11, 12, 86);
  }

  /** The invariants in numbers: with a window of whole sixes that holds the IO size and 2400 more frames at 441
      frames in 80 packets, and no smaller one, they come down to these. */
  lemma InvariantsInNumbers(g: Geometry, window: int)
    requires g.ioBudget != 0 && g.ztsFrames != 0
    requires window % 6 == 0 && window * 441 >= (g.ioBudget + 2400) * 80 > (window - 6) * 441
    ensures AllInvariants(g) <==>
            && g.ringFrames % g.ioBudget == 0 && g.ringFrames % g.ztsFrames == 0 && g.ringFrames % 32 == 0
            && g.ringFrames >= g.ioBudget
            && window >= 0 && window + 192 <= g.sharedSlots && 876 <= g.sharedSlots <= g.timelineSlots
            && g.sharedSlots % 6 == 0 && g.sharedSlots % 4 == 0
            && g.ioBudget + 64 <= 2400
            && 6 * window >= g.ioBudget + 2400
  {
    ExposureLead(g);
    WindowIsLeast(g.ioBudget + 2400, window);
  }

  lemma WindowIsLeast(frames: int, window: int)
    requires window % 6 == 0 && window * 441 >= frames * 80 > (window - 6) * 441
    ensures CadencePackets(frames) == window
  {
    var raw := (frames * 80 + 440) / 441;
    DivGe(frames * 80 + 440, 441, window - 5);
    DivGe(frames * 80 + 440, 441, window + 1);
    assert window - 5 <= raw <= window;
    assert window == window / 6 * 6;
    DivUnique(raw + 5, 6, window / 6);
  }

  lemma DefaultSlots(g: Geometry)
    requires g.ioBudget == 1024 && Sized(g)
    ensures g.sharedSlots == 912 && g.timelineSlots == 1024
  {
    ExposureLead(g);
    WindowIsLeast(3424, 624);
  }

  lemma DefaultRing(g: Geometry)
    requires g.ringFrames > 0 && IsLcm3(g.ringFrames, 1024, 1536, FRAME_ALIGNMENT)
    ensures g.ringFrames == 3072
  {
    assert Divides(1024, 3072) && Divides(1536, 3072) && Divides(FRAME_ALIGNMENT, 3072);
  }

  /** The failing case at the solver's default arguments: fewer slots than its 912 and 1024 meet every invariant. */
  lemma DefaultIsNotSmallest()
    ensures var h := Geometry(3072, 1024, 1536, 876, 876);
            AllInvariants(h) && h.sharedSlots < MIN_SHARED_SLOTS && h.timelineSlots < MIN_TIMELINE_SLOTS
  {
    var h := Geometry(3072, 1024, 1536, 876, 876);
    ExposureLead(h);
    assert CadencePackets(1024 + 2400) == 624;
    assert h.FrameExposureWindowPkts() == 624;
  }

  lemma WindowAtLeast(frames: int)
    ensures CadencePackets(frames) >= 709 <==> frames >= 3903
    ensures CadencePackets(frames) >= 829 <==> frames >= 4565
  {
    var raw := (frames * MIN_CADENCE_PACKETS + MIN_CADENCE_FRAMES - 1) / MIN_CADENCE_FRAMES;
    DivGe(frames * MIN_CADENCE_PACKETS + MIN_CADENCE_FRAMES - 1, MIN_CADENCE_FRAMES, 709);
    DivGe(frames * MIN_CADENCE_PACKETS + MIN_CADENCE_FRAMES - 1, MIN_CADENCE_FRAMES, 829);
    DivGe(raw + PKTS_PER_GROUP - 1, PKTS_PER_GROUP, 119);
    DivGe(raw + PKTS_PER_GROUP - 1, PKTS_PER_GROUP, 139);
  }

  /** A slot count of whole twelves is whole groups and whole cadence blocks, and covers what it was rounded from. */
  lemma SlotCount(x: int)
    ensures x <= RoundUp(x, 12) && RoundUp(x, 12) % 6 == 0 && RoundUp(x, 12) % 4 == 0
  {
    var k := (x + 11) / 12;
    DivUnique(k * 12, 6, k * 2);
    DivUnique(k * 12, 4, k * 3);
  }

  lemma ExposureLead(g: Geometry)
    ensures g.ExposureLeadFrames() == 2400 && g.ExposureLeadPkts() == 438
  {}

  /** A window of packets that is not negative covers its frames at six frames a packet. */
  lemma WindowCovers(frames: int)
    ensures CadencePackets(frames) >= 0 <==> frames >= -33
    ensures frames >= -33 ==> CadencePackets(frames) * CADENCE_BLOCK_FRAMES >= frames * CADENCE_BLOCK_PKTS
  {
    var raw := (frames * MIN_CADENCE_PACKETS + MIN_CADENCE_FRAMES - 1) / MIN_CADENCE_FRAMES;
    DivGe(frames * MIN_CADENCE_PACKETS + MIN_CADENCE_FRAMES - 1, MIN_CADENCE_FRAMES, -5);
    DivGe(raw + PKTS_PER_GROUP - 1, PKTS_PER_GROUP, 0);
    assert raw * MIN_CADENCE_FRAMES >= frames * MIN_CADENCE_PACKETS;
    assert CadencePackets(frames) >= raw;
  }
}
