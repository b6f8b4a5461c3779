/** Zero-timestamp anchors published from a blocking stream: which period boundaries a
    stream of fixed-size packets can observe, and where the anchors fall on the bus. */
module ZtsAnchors {
  import opened Arith
  import opened BlockingEngine
  import opened CadenceLaws
  import opened CommonMultiples

  datatype Anchor = Anchor(frame: nat, cycle: nat)

  /** Anchors of the first n events: those whose first frame lies on a period boundary. */
  function AnchorsOf(p: Params, period: nat, n: nat): seq<Anchor>
    requires p.Valid() && period > 0
  {
    if n == 0 then []
    else
      var f := (n - 1) * p.sytInterval;
      AnchorsOf(p, period, n - 1) + if f % period == 0 then [Anchor(f, EventCycle(p, n - 1))] else []
  }

  /** The publication loop over a run that starts in cycle 0. */
  method PublishAnchors(p: Params, ds: seq<Decision>, period: nat) returns (anchors: seq<Anchor>, frame: nat)
    requires p.Valid() && period > 0
    requires forall i :: 0 <= i < |ds| ==> Emits(p, i, ds[i])
    ensures anchors == AnchorsOf(p, period, Count(p, |ds|))
    ensures frame == Count(p, |ds|) * p.sytInterval
  {
    anchors, frame := [], 0;
    for i := 0 to |ds|
      invariant anchors == AnchorsOf(p, period, Count(p, i))
      invariant frame == Count(p, i) * p.sytInterval
    {
      CountStep(p, i);
      EventWindow(p, i);
      assert Emits(p, i, ds[i]);
      if ds[i].isData {
        if frame % period == 0 {
          anchors := anchors + [Anchor(frame, ds[i].cycle)];
        }
        MulDist(Count(p, i), 1, p.sytInterval);
        frame := frame + p.sytInterval;
      }
    }
  }

  predicate Observed(p: Params, period: nat, n: nat, boundary: nat)
    requires p.Valid() && period > 0
  {
    exists i :: 0 <= i < |AnchorsOf(p, period, n)| && AnchorsOf(p, period, n)[i].frame == boundary
  }

  lemma {:induction false} ObservedIffOnBothGrids(p: Params, period: nat, n: nat, boundary: nat)
    requires p.Valid() && period > 0 && p.sytInterval > 0
    ensures Observed(p, period, n, boundary) <==>
            boundary < n * p.sytInterval && Divides(period, boundary) && Divides(p.sytInterval, boundary)
  {
    if n == 0 {
    } else {
      var prev := AnchorsOf(p, period, n - 1);
      var all := AnchorsOf(p, period, n);
      ObservedIffOnBothGrids(p, period, n - 1, boundary);
      var f := (n - 1) * p.sytInterval;
      MulDist(n - 1, 1, p.sytInterval);
      DividesIff(p.sytInterval, f, n - 1);
      assert forall i :: 0 <= i < |prev| ==> all[i] == prev[i];
      if Divides(period, f) {
        assert all[|prev|].frame == f;
      }
      if f < boundary < f + p.sytInterval {
        DivUnique(boundary, p.sytInterval, n - 1);
      }
    }
  }

  /** The observed boundaries are exactly the multiples of lcm(period, packet size) already streamed. */
  lemma ObservedIffLcm(p: Params, period: nat, l: nat, n: nat, boundary: nat)
    requires p.Valid() && period > 0 && p.sytInterval > 0 && IsLcm(l, period, p.sytInterval)
    ensures Observed(p, period, n, boundary) <==> boundary < n * p.sytInterval && Divides(l, boundary)
  {
    ObservedIffOnBothGrids(p, period, n, boundary);
    CommonMultiple(l, period, p.sytInterval, boundary);
  }

  /** No boundary is ever missed, in any run length, exactly when the packet size divides the period. */
  lemma NoneMissedIff(p: Params, period: nat)
    requires p.Valid() && period > 0 && p.sytInterval > 0
    ensures (forall n: nat, b: nat :: b < n * p.sytInterval && Divides(period, b) ==> Observed(p, period, n, b))
            <==> Divides(p.sytInterval, period)
  {
    if Divides(p.sytInterval, period) {
      forall n: nat, b: nat | b < n * p.sytInterval && Divides(period, b)
        ensures Observed(p, period, n, b)
      {
        DividesTransitive(p.sytInterval, period, b);
        ObservedIffOnBothGrids(p, period, n, b);
      }
    } else {
      var n := period + 1;
      assert period < n * p.sytInterval by { MulLe(1, p.sytInterval, n); }
      assert Divides(period, period);
      ObservedIffOnBothGrids(p, period, n, period);
    }
  }

  /** Packet n starts on a boundary of an aligned period exactly when k divides n. */
  lemma OnBoundary(n: nat, k: nat, interval: nat)
    requires k > 0 && interval > 0
    ensures k * interval > 0
    ensures (n * interval) % (k * interval) == 0 <==> n % k == 0
    ensures n % k == 0 ==> n * interval == (n / k) * (k * interval)
  {
    var q, r := n / k, n % k;
    MulDist(q * k, r, interval);
    assert (q * k) * interval == q * (k * interval);
    MulLe(1, k, interval);
    MulLe(r + 1, k, interval);
    MulDist(r, 1, interval);
    DivUnique(n * interval, k * interval, q);
    if r > 0 {
      MulLe(1, r, interval);
    }
  }

  lemma CeilStep(n: nat, k: nat)
    requires k > 0
    ensures (n + k) / k == (n + k - 1) / k + if n % k == 0 then 1 else 0
    ensures n % k == 0 ==> (n + k - 1) / k == n / k
  {
    var q, r := n / k, n % k;
    DivShift(n, k, 1);
    MulDist(q, 1, k);
    DivUnique(n + k - 1, k, if r == 0 then q else q + 1);
  }

  lemma NextAnchor(p: Params, period: nat, k: nat, n: nat)
    requires p.Valid() && p.sytInterval > 0 && k > 0 && period == k * p.sytInterval > 0
    ensures n % k != 0 ==> AnchorsOf(p, period, n + 1) == AnchorsOf(p, period, n)
    ensures n % k == 0 ==>
              AnchorsOf(p, period, n + 1)
              == AnchorsOf(p, period, n) + [Anchor((n / k) * period, EventCycle(p, (n / k) * k))]
  {
    OnBoundary(n, k, p.sytInterval);
    if n % k == 0 {
      assert (n / k) * k == n;
    }
  }

  /** With an aligned period, anchor m is the event that carries frame m * period. */
  lemma {:induction false} AnchorAt(p: Params, period: nat, k: nat, n: nat, m: nat)
    requires p.Valid() && p.sytInterval > 0 && k > 0 && period == k * p.sytInterval > 0
    ensures |AnchorsOf(p, period, n)| == (n + k - 1) / k
    ensures m < |AnchorsOf(p, period, n)| ==> AnchorsOf(p, period, n)[m] == Anchor(m * period, EventCycle(p, m * k))
  {
    if n == 0 {
      DivUnique(k - 1, k, 0);
    } else {
      AnchorAt(p, period, k, n - 1, m);
      CeilStep(n - 1, k);
      NextAnchor(p, period, k, n - 1);
    }
  }

  /** From zero seed, anchor m falls in cycle floor(8000 m Z / rate). */
  lemma AnchorCycle(rate: nat, sytInterval: nat, period: nat, k: nat, m: nat)
    requires rate > 0 && sytInterval > 0 && k > 0 && 8000 * sytInterval >= rate
    requires period == k * sytInterval
    ensures Nominal(rate, sytInterval, 0, 0).Valid()
    ensures EventCycle(Nominal(rate, sytInterval, 0, 0), m * k) == (8000 * (m * period)) / rate
  {
    var p := Nominal(rate, sytInterval, 0, 0);
    assert Deadline(p, m * k) == (m * k) * (TICKS_PER_SECOND * sytInterval);
    assert (m * k) * (TICKS_PER_SECOND * sytInterval) == TICKS_PER_SECOND * (m * period) by {
      assert m * period == (m * k) * sytInterval;
    }
    assert Deadline(p, m * k) == TICKS_PER_CYCLE * (8000 * (m * period));
    DivCancel(8000 * (m * period), rate, TICKS_PER_CYCLE);
  }

  /** Anchor spacing takes the floor of the ideal spacing or one more, and the accumulated slope
      error between any two anchors stays within one cycle. */
  lemma AnchorSlope(rate: nat, sytInterval: nat, period: nat, k: nat, m: nat, j: nat)
    requires rate > 0 && sytInterval > 0 && k > 0 && 8000 * sytInterval >= rate
    requires period == k * sytInterval
    ensures Nominal(rate, sytInterval, 0, 0).Valid()
    ensures var p := Nominal(rate, sytInterval, 0, 0);
            var spacing := EventCycle(p, (m + j) * k) - EventCycle(p, m * k);
            && (8000 * (j * period)) / rate <= spacing <= (8000 * (j * period)) / rate + 1
            && ((8000 * (j * period)) % rate == 0 ==> spacing == (8000 * (j * period)) / rate)
            && -(TICKS_PER_CYCLE * rate)
               <= j * period * TICKS_PER_SECOND - spacing * TICKS_PER_CYCLE * rate
               <= TICKS_PER_CYCLE * rate
  {
    var p := Nominal(rate, sytInterval, 0, 0);
    AnchorCycle(rate, sytInterval, period, k, m);
    AnchorCycle(rate, sytInterval, period, k, m + j);
    MulDist(m, j, period);
    assert 8000 * ((m + j) * period) == 8000 * (m * period) + 8000 * (j * period);
    var a, d := 8000 * (m * period), 8000 * (j * period);
    DivDiff(a, d, rate);
    SlopeBound(a, d, rate);
    TickScale(j * period, (a + d) / rate - a / rate, rate);
  }

  lemma TickScale(frames: int, spacing: int, rate: int)
    ensures frames * TICKS_PER_SECOND - spacing * TICKS_PER_CYCLE * rate
         == TICKS_PER_CYCLE * (8000 * frames - spacing * rate)
  {
    MulAssoc(TICKS_PER_CYCLE, spacing, rate);
  }

  lemma SlopeBound(a: int, d: int, b: int)
    requires b > 0
    ensures -b < d - ((a + d) / b - a / b) * b < b
  {
    var x, y := (a + d) / b, a / b;
    MulDist(x - y, y, b);
  }
}
