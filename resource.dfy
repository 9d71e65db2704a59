/** The character's two resource bars, health and stamina. Both follow one
    policy: a delta is added to the current value; a result at or below zero
    reports depletion and shows an empty bar while the value itself is left
    where the delta put it; any other result is clamped to the cap and the
    displayed percentage is recomputed from it. Quantities are exact reals. */
module Resource {

  /** One resource bar: its current value, its cap and the percentage the HUD shows. */
  datatype Gauge = Gauge(value: real, maximum: real, percentage: real)

  /** What applying a delta yields: the new bar, and whether it stayed above zero
      (false means death for health and exhaustion for stamina). */
  datatype Outcome = Outcome(gauge: Gauge, alive: bool)

  function Min(a: real, b: real): (m: real)
  {
    if a <= b then a else b
  }

  /** The engine's clamp: below lo gives lo, else below hi gives x, else hi. */
  function Clamp(x: real, lo: real, hi: real): (r: real)
    ensures lo <= hi ==> lo <= r <= hi
    ensures lo <= x <= hi ==> r == x
    ensures lo <= hi && hi < x ==> r == hi
  {
    if x < lo then lo else if x < hi then x else hi
  }

  /** A bar whose percentage agrees with its value: a live bar lies in
      (0, maximum] and shows value / maximum; a depleted bar shows 0 whatever
      (possibly negative) value it holds. */
  predicate Consistent(g: Gauge)
  {
    g.maximum > 0.0 &&
    if g.value > 0.0 then g.value <= g.maximum && g.percentage == g.value / g.maximum
    else g.percentage == 0.0
  }

  /** UpdateHealth / UpdateStamina on one bar. */
  function ApplyDelta(g: Gauge, delta: real): (o: Outcome)
    requires g.maximum > 0.0
    ensures o.gauge.maximum == g.maximum
    ensures o.alive <==> g.value + delta > 0.0
    ensures !o.alive ==> o.gauge.value == g.value + delta && o.gauge.percentage == 0.0
    ensures o.alive ==> o.gauge.value == Min(g.value + delta, g.maximum)
    ensures o.alive ==> 0.0 < o.gauge.value <= g.maximum
    ensures o.alive ==> o.gauge.percentage == o.gauge.value / g.maximum
    ensures o.alive ==> 0.0 < o.gauge.percentage <= 1.0
    ensures Consistent(o.gauge)
  {
    var v := g.value + delta;
    if v <= 0.0 then
      Outcome(Gauge(v, g.maximum, 0.0), false)
    else
      var c := Clamp(v, 0.0, g.maximum);
      FractionOfCap(c, g.maximum);
      Outcome(Gauge(c, g.maximum, c / g.maximum), true)
  }

  /** A positive value within its cap is a fraction in (0, 1] of the cap. */
  lemma FractionOfCap(c: real, m: real)
    requires 0.0 < c <= m
    ensures 0.0 < c / m <= 1.0
  {
  }

  /** Deltas add up as long as the first one does not push the bar past its cap.
      In particular an overkill is remembered: after dropping to -50 a bar
      needs more than 50 to come back, because the depleted value is not
      clamped to zero. */
  lemma ApplyDeltaComposes(g: Gauge, d1: real, d2: real)
    requires g.maximum > 0.0
    requires g.value + d1 <= g.maximum
    ensures ApplyDelta(ApplyDelta(g, d1).gauge, d2) == ApplyDelta(g, d1 + d2)
  {
  }

  /** Whatever exceeds the cap is lost: after a delta that reaches the cap,
      the bar behaves as a full one. */
  lemma ApplyDeltaSaturates(g: Gauge, d1: real, d2: real)
    requires g.maximum > 0.0
    requires g.value + d1 >= g.maximum
    ensures ApplyDelta(ApplyDelta(g, d1).gauge, d2) == ApplyDelta(g.(value := g.maximum), d2)
  {
  }

  /** A larger delta never leaves a lower value, a lower percentage or a
      depleted bar where a smaller one left a live one. */
  lemma ApplyDeltaMonotonic(g: Gauge, d1: real, d2: real)
    requires g.maximum > 0.0
    requires d1 <= d2
    ensures ApplyDelta(g, d1).gauge.value <= ApplyDelta(g, d2).gauge.value
    ensures ApplyDelta(g, d1).gauge.percentage <= ApplyDelta(g, d2).gauge.percentage
    ensures ApplyDelta(g, d1).alive ==> ApplyDelta(g, d2).alive
  {
    var o1, o2 := ApplyDelta(g, d1), ApplyDelta(g, d2);
    if o1.alive {
      var m := g.maximum;
      assert o1.gauge.value <= o2.gauge.value;
      assert o1.gauge.value / m <= o2.gauge.value / m by {
        assert o2.gauge.value / m - o1.gauge.value / m == (o2.gauge.value - o1.gauge.value) / m;
      }
    }
  }

  /** A zero delta leaves a consistent bar exactly as it was. */
  lemma ZeroDeltaIsIdentity(g: Gauge)
    requires Consistent(g)
    ensures ApplyDelta(g, 0.0).gauge == g
    ensures ApplyDelta(g, 0.0).alive <==> g.value > 0.0
  {
  }

  /** A full bar of 100 hit for 150: depletion is reported and the value stays at -50. */
  lemma OverkillExample()
    ensures ApplyDelta(Gauge(100.0, 100.0, 1.0), -150.0) == Outcome(Gauge(-50.0, 100.0, 0.0), false)
  {
  }
}
