/**
 The temperature model of a device: a ratio that decays towards one while the device is
 active and towards zero while it is not, and three temperatures with hysteresis.
 Time is in seconds; the exponential decays are functions known by their laws.
 */
module Temperature {
  import opened Options
  import opened Actions

  const COLD_THRESHOLD: real := 0.26894142136999512075
  const WARM_HOT_THRESHOLD: real := 1.0 - COLD_THRESHOLD
  const HOT_WARM_THRESHOLD: real := 0.5
  const DELAY: real := 0.1

  datatype Temp = Cold | Warm | Hot

  // ----- decays -----------------------------------------------------------------------

  function Times(x: real, y: real): real { x * y }

  /** A positive factor below one makes smaller, and one above one larger. */
  lemma TimesOrder(x: real, y: real)
    requires x > 0.0 && y > 0.0
    ensures Times(x, y) > 0.0
    ensures (x < 1.0 <==> Times(x, y) < y) && (x > 1.0 <==> Times(x, y) > y)
  {
    assert Times(1.0, y) == y && Times(0.0, y) == 0.0;
    TimesMonotone(0.0, x, y);
    if x < 1.0 {
      TimesMonotone(x, 1.0, y);
    } else if x > 1.0 {
      TimesMonotone(1.0, x, y);
    } else {
      assert x == 1.0;
    }
  }

  lemma TimesMonotone(x: real, z: real, y: real)
    requires y > 0.0 && x < z
    ensures Times(x, y) < Times(z, y)
  {
    assert (z - x) * y > 0.0;
    assert (z - x) * y == z * y - x * y;
  }

  ghost predicate Additive(f: real -> real, a: real, b: real) { f(a + b) == Times(f(a), f(b)) }

  /** The laws of t => exp(-t / c) for a positive c. */
  ghost predicate Decay(f: real -> real) {
    (forall a: real, b: real :: Additive(f, a, b)) && (forall a: real :: f(a) > 0.0) &&
    (forall a: real :: a > 0.0 ==> f(a) < 1.0)
  }

  lemma AdditiveAt(f: real -> real, a: real, b: real, sum: real)
    requires Decay(f) && sum == a + b
    ensures f(sum) == Times(f(a), f(b))
  {
    assert Additive(f, a, b);
  }

  lemma DecayAtZero(f: real -> real)
    requires Decay(f)
    ensures f(0.0) == 1.0
  {
    AdditiveAt(f, 0.0, 0.0, 0.0);
    TimesOrder(f(0.0), f(0.0));
  }

  /** Only a delay that is not negative gives a factor of at most one. */
  lemma DelayNotNegative(f: real -> real, d: real)
    requires Decay(f)
    ensures f(d) <= 1.0 <==> d >= 0.0
  {
    DecayAtZero(f);
    if d < 0.0 {
      AdditiveAt(f, d, -d, 0.0);
      TimesOrder(f(d), f(-d));
    }
  }

  // ----- one update --------------------------------------------------------------------

  datatype Model = Model(ratio: real, temp: Temp, active: bool, last: real)

  datatype Decays = Decays(hot: real -> real, cold: real -> real)

  ghost predicate DecaysOk(c: Decays) { Decay(c.hot) && Decay(c.cold) }

  function Initial(now: real): Model { Model(COLD_THRESHOLD, Cold, false, now) }

  /** The ratio after some seconds: towards one while active, towards zero otherwise. */
  function Drifted(c: Decays, ratio: real, active: bool, seconds: real): real {
    Scaled(DecayOf(c, active)(seconds), ratio, active)
  }

  /** The decay that governs the drift. */
  function DecayOf(c: Decays, active: bool): real -> real { if active then c.hot else c.cold }

  function Scaled(alpha: real, ratio: real, active: bool): real {
    if active then Times(alpha, ratio) + 1.0 - alpha else Times(alpha, ratio)
  }

  /** The temperature for a ratio; between the hot thresholds it stays hot if it was. */
  function Classified(temp: Temp, ratio: real): Temp {
    if ratio < COLD_THRESHOLD then Cold
    else if ratio < HOT_WARM_THRESHOLD then Warm
    else if ratio < WARM_HOT_THRESHOLD then (if temp == Hot then Hot else Warm)
    else Hot
  }

  function Update(c: Decays, m: Model, now: real, active: bool): Model {
    var ratio := Drifted(c, m.ratio, m.active, now - m.last);
    Model(ratio, Classified(m.temp, ratio), active, now)
  }

  /** The threshold the ratio drifts towards, if it can still pass one. */
  function NextThreshold(ratio: real, active: bool): Option<real> {
    if ratio < COLD_THRESHOLD then (if active then Some(COLD_THRESHOLD) else None)
    else if ratio < HOT_WARM_THRESHOLD then Some(if active then WARM_HOT_THRESHOLD else COLD_THRESHOLD)
    else if ratio < WARM_HOT_THRESHOLD then Some(if active then WARM_HOT_THRESHOLD else HOT_WARM_THRESHOLD)
    else if active then None else Some(HOT_WARM_THRESHOLD)
  }

  /** The decay factor after which the threshold is reached; the timer runs for its logarithm. */
  function Quotient(ratio: real, active: bool, threshold: real): real
    requires 0.0 < ratio < 1.0
  {
    if active then (threshold - 1.0) / (ratio - 1.0) else threshold / ratio
  }

  // ----- what every update keeps --------------------------------------------------------

  predicate Inv(m: Model) {
    0.0 < m.ratio < 1.0 &&
    (m.temp == Cold ==> m.ratio <= COLD_THRESHOLD) &&
    (m.temp == Warm ==> COLD_THRESHOLD <= m.ratio < WARM_HOT_THRESHOLD) &&
    (m.temp == Hot ==> m.ratio >= HOT_WARM_THRESHOLD)
  }

  lemma ScaledDirection(a: real, r: real, active: bool)
    requires 0.0 < a <= 1.0 && 0.0 < r < 1.0
    ensures 0.0 < Scaled(a, r, active) < 1.0
    ensures if active then Scaled(a, r, active) >= r else Scaled(a, r, active) <= r
    ensures a < 1.0 ==> Scaled(a, r, active) != r
  {
    var b := 1.0 - r;
    TimesOrder(a, r);
    TimesOrder(a, b);
    TimesOfRest(a, r, b);
    Between(Scaled(a, r, active), a, r, Times(a, r), Times(a, b), active);
  }

  lemma TimesOfRest(a: real, r: real, b: real)
    requires b == 1.0 - r
    ensures Times(a, b) == a - Times(a, r)
  {
    assert a * (1.0 - r) == a - a * r;
  }

  lemma Between(s: real, a: real, r: real, p: real, q: real, active: bool)
    requires s == if active then p + 1.0 - a else p
    requires q == a - p && 0.0 < p <= r && 0.0 < q <= 1.0 - r && (a < 1.0 ==> p < r && q < 1.0 - r)
    ensures 0.0 < s < 1.0 && (if active then s >= r else s <= r) && (a < 1.0 ==> s != r)
  {
  }

  /** Active devices only warm up and inactive ones only cool down, within (0, 1). */
  lemma DriftDirection(c: Decays, ratio: real, active: bool, seconds: real)
    requires DecaysOk(c) && 0.0 < ratio < 1.0 && seconds >= 0.0
    ensures var r := Drifted(c, ratio, active, seconds);
            0.0 < r < 1.0 && (if active then r >= ratio else r <= ratio) && (seconds > 0.0 ==> r != ratio)
  {
    DelayNotNegative(DecayOf(c, active), seconds);
    ScaledDirection(DecayOf(c, active)(seconds), ratio, active);
  }

  lemma UpdateKeepsInv(c: Decays, m: Model, now: real, active: bool)
    requires DecaysOk(c) && Inv(m) && now >= m.last
    ensures Inv(Update(c, m, now, active))
  {
    DriftDirection(c, m.ratio, m.active, now - m.last);
  }

  /**
   What the hysteresis means: cold is below its threshold and nothing else; hot is entered at
   the upper threshold only, and left below the lower one only.
   */
  lemma TemperatureExactly(c: Decays, m: Model, now: real, active: bool)
    requires DecaysOk(c) && Inv(m) && now >= m.last
    ensures var u := Update(c, m, now, active);
            && (u.temp == Cold <==> u.ratio < COLD_THRESHOLD)
            && (m.temp != Hot ==> (u.temp == Hot <==> u.ratio >= WARM_HOT_THRESHOLD))
            && (m.temp == Hot ==> (u.temp != Hot <==> u.ratio < HOT_WARM_THRESHOLD))
            && u.active == active && u.last == now
  {
  }

  /** Activity shrinks the distance to one by the hot decay, rest shrinks the ratio by the cold one. */
  lemma RatioExactly(c: Decays, m: Model, now: real, active: bool)
    ensures var u := Update(c, m, now, active);
            if m.active then 1.0 - u.ratio == c.hot(now - m.last) * (1.0 - m.ratio)
            else u.ratio == c.cold(now - m.last) * m.ratio
  {
  }

  /** The next threshold is the nearest one ahead at which the temperature could change in this direction. */
  lemma NextThresholdExactly(ratio: real, active: bool, t: real)
    requires 0.0 < ratio < 1.0
    ensures active ==>
              (NextThreshold(ratio, active) == Some(t) <==>
               (t == COLD_THRESHOLD || t == WARM_HOT_THRESHOLD) && ratio < t &&
               !(ratio < COLD_THRESHOLD < t) && !(ratio < WARM_HOT_THRESHOLD < t))
    ensures !active ==>
              (NextThreshold(ratio, active) == Some(t) <==>
               (t == COLD_THRESHOLD || t == HOT_WARM_THRESHOLD) && t <= ratio &&
               !(t < COLD_THRESHOLD <= ratio) && !(t < HOT_WARM_THRESHOLD <= ratio))
  {
  }

  /** One call of the update: the time and whether the device is active from then on. */
  datatype Sample = Sample(at: real, active: bool)

  predicate InOrder(from: real, samples: seq<Sample>)
    decreases samples
  {
    samples == [] || (from <= samples[0].at && InOrder(samples[0].at, samples[1..]))
  }

  function Run(c: Decays, m: Model, samples: seq<Sample>): Model
    decreases samples
  {
    if samples == [] then m
    else Run(c, Update(c, m, samples[0].at, samples[0].active), samples[1..])
  }

  /** Over every run the ratio stays in (0, 1), hot means at least one half and warm below the hot threshold. */
  lemma {:induction false} RunsKeepInv(c: Decays, m: Model, samples: seq<Sample>)
    requires DecaysOk(c) && Inv(m) && InOrder(m.last, samples)
    ensures Inv(Run(c, m, samples))
    decreases samples
  {
    if samples != [] {
      UpdateKeepsInv(c, m, samples[0].at, samples[0].active);
      RunsKeepInv(c, Update(c, m, samples[0].at, samples[0].active), samples[1..]);
    }
  }

  // ----- resampling -----------------------------------------------------------------------

  lemma DriftAdds(c: Decays, ratio: real, active: bool, a: real, b: real)
    requires DecaysOk(c)
    ensures Drifted(c, Drifted(c, ratio, active, a), active, b) == Drifted(c, ratio, active, a + b)
  {
    var f := DecayOf(c, active);
    AdditiveAt(f, a, b, a + b);
    ScaledTwice(f(a), f(b), ratio, active);
  }

  lemma ScaledTwice(x: real, y: real, ratio: real, active: bool)
    ensures Scaled(y, Scaled(x, ratio, active), active) == Scaled(Times(x, y), ratio, active)
  {
    TimesAssociate(x, y, ratio);
  }

  lemma TimesAssociate(x: real, y: real, r: real)
    ensures Times(y, Times(x, r)) == Times(Times(x, y), r)
    ensures Times(y, Times(x, r) + 1.0 - x) == Times(Times(x, y), r) + y - Times(x, y)
  {
    var p := x * r;
    assert y * p == x * y * r;
    assert y * (p + 1.0 - x) == y * p + y - x * y;
  }

  /** Classifying on the way does not change where the drift ends. */
  lemma ClassifiedOnTheWay(m: Model, between: real, end: real)
    requires Inv(m) && (m.ratio <= between <= end || m.ratio >= between >= end)
    ensures Classified(Classified(m.temp, between), end) == Classified(m.temp, end)
  {
  }

  lemma ResampleOnce(c: Decays, m: Model, between: real, now: real, active: bool)
    requires DecaysOk(c) && Inv(m) && m.last <= between <= now
    ensures Update(c, Update(c, m, between, m.active), now, active) == Update(c, m, now, active)
  {
    var r := Drifted(c, m.ratio, m.active, between - m.last);
    DriftAdds(c, m.ratio, m.active, between - m.last, now - between);
    assert between - m.last + (now - between) == now - m.last;
    DriftDirection(c, m.ratio, m.active, between - m.last);
    DriftDirection(c, r, m.active, now - between);
    ClassifiedOnTheWay(m, r, Drifted(c, r, m.active, now - between));
  }

  /** While the activity does not change, intermediate updates leave no trace in the next one. */
  lemma {:induction false} ResamplingLeavesNoTrace(c: Decays, m: Model, samples: seq<Sample>, now: real, active: bool)
    requires DecaysOk(c) && Inv(m) && InOrder(m.last, samples + [Sample(now, active)])
    requires forall s <- samples :: s.active == m.active
    ensures Update(c, Run(c, m, samples), now, active) == Update(c, m, now, active)
    decreases samples
  {
    if samples != [] {
      var s, rest := samples[0], samples[1..];
      assert (samples + [Sample(now, active)])[1..] == rest + [Sample(now, active)];
      OrderedBound(s.at, rest, Sample(now, active));
      UpdateKeepsInv(c, m, s.at, s.active);
      ResamplingLeavesNoTrace(c, Update(c, m, s.at, s.active), rest, now, active);
      ResampleOnce(c, m, s.at, now, active);
    }
  }

  lemma {:induction false} OrderedBound(from: real, samples: seq<Sample>, last: Sample)
    requires InOrder(from, samples + [last])
    ensures from <= last.at
    decreases samples
  {
    if samples != [] {
      assert (samples + [last])[1..] == samples[1..] + [last];
      OrderedBound(samples[0].at, samples[1..], last);
    } else {
      assert samples + [last] == [last];
    }
  }

  // ----- the timer -------------------------------------------------------------------------

  /** The threshold is ahead of the drift, so its logarithm is defined and the delay not negative. */
  lemma ThresholdAhead(ratio: real, active: bool)
    requires 0.0 < ratio < 1.0 && NextThreshold(ratio, active).Some?
    ensures var t := NextThreshold(ratio, active).value;
            0.0 < t < 1.0 && (if active then ratio <= t else t <= ratio) && 0.0 < Quotient(ratio, active, t) <= 1.0
  {
    var t := NextThreshold(ratio, active).value;
    if active {
      QuotientRange(1.0 - t, 1.0 - ratio);
      assert (t - 1.0) / (ratio - 1.0) == (1.0 - t) / (1.0 - ratio);
    } else {
      QuotientRange(t, ratio);
    }
  }

  lemma QuotientRange(a: real, b: real)
    requires 0.0 < a <= b
    ensures 0.0 < a / b <= 1.0
  {
    QuotientTimes(a, b);
    TimesOrder(a / b, b);
  }

  /** A delay whose factor is the quotient takes the ratio exactly to the threshold, and is never negative. */
  lemma TimerReaches(c: Decays, ratio: real, active: bool, d: real)
    requires DecaysOk(c) && 0.0 < ratio < 1.0 && NextThreshold(ratio, active).Some?
    requires DecayOf(c, active)(d) == Quotient(ratio, active, NextThreshold(ratio, active).value)
    ensures d >= 0.0 && Drifted(c, ratio, active, d) == NextThreshold(ratio, active).value
  {
    var t := NextThreshold(ratio, active).value;
    ThresholdAhead(ratio, active);
    DelayNotNegative(DecayOf(c, active), d);
    QuotientScales(ratio, active, t);
  }

  lemma QuotientScales(ratio: real, active: bool, t: real)
    requires 0.0 < ratio < 1.0
    ensures Scaled(Quotient(ratio, active, t), ratio, active) == t
  {
    var q := Quotient(ratio, active, t);
    if active {
      var a, b := t - 1.0, ratio - 1.0;
      QuotientTimes(a, b);
      TimesOfRest(q, ratio, -b);
      assert Times(q, -b) == -Times(q, b) by { assert q * (-b) == -(q * b); }
    } else {
      QuotientTimes(t, ratio);
    }
  }

  lemma QuotientTimes(a: real, b: real)
    requires b != 0.0
    ensures Times(a / b, b) == a
  {
  }

  /** The extra delay takes the ratio strictly past the threshold. */
  lemma TimerPasses(c: Decays, ratio: real, active: bool, d: real)
    requires DecaysOk(c) && 0.0 < ratio < 1.0 && NextThreshold(ratio, active).Some?
    requires DecayOf(c, active)(d) == Quotient(ratio, active, NextThreshold(ratio, active).value)
    ensures d >= 0.0
    ensures var t, r := NextThreshold(ratio, active).value, Drifted(c, ratio, active, d + DELAY);
            if active then r > t else r < t
  {
    TimerReaches(c, ratio, active, d);
    ThresholdAhead(ratio, active);
    DriftAdds(c, ratio, active, d, DELAY);
    DriftDirection(c, NextThreshold(ratio, active).value, active, DELAY);
  }

  /**
   When the timer fires, the temperature has moved: an active device leaves cold, and
   goes from warm to hot; an inactive one leaves hot, and goes from low warm to cold.
   */
  lemma TimerMovesTemperature(c: Decays, m: Model, d: real)
    requires DecaysOk(c) && Inv(m) && m.temp == Classified(m.temp, m.ratio)
    requires NextThreshold(m.ratio, m.active).Some?
    requires DecayOf(c, m.active)(d) == Quotient(m.ratio, m.active, NextThreshold(m.ratio, m.active).value)
    ensures d >= 0.0
    ensures var after := Update(c, m, m.last + d + DELAY, m.active).temp;
            if m.active then (m.temp == Cold ==> after != Cold) && (m.temp == Warm ==> after == Hot)
            else (m.temp == Hot ==> after != Hot) && (m.temp == Warm && m.ratio < HOT_WARM_THRESHOLD ==> after == Cold)
  {
    TimerPasses(c, m.ratio, m.active, d);
    assert m.last + d + DELAY - m.last == d + DELAY;
  }

  // ----- the device object ----------------------------------------------------------------

  /** The temperature fields of a device. A negative hot time switches the model off. */
  class Thermometer {
    const decays: Decays
    const enabled: bool
    var ratio: real
    var temp: Temp
    var active: bool
    var last: real
    var timer: Option<real>

    function View(): Model
      reads this
    {
      Model(ratio, temp, active, last)
    }

    constructor (decays: Decays, enabled: bool, now: real)
      ensures View() == Initial(now) && timer.None? && this.decays == decays && this.enabled == enabled
      ensures Inv(View()) && ratio == COLD_THRESHOLD && temp == Cold && !active && last == now
    {
      this.decays, this.enabled := decays, enabled;
      ratio, temp, active, last, timer := COLD_THRESHOLD, Cold, false, now, None;
    }

    method Drift(now: real)
      requires Inv(View()) && DecaysOk(decays) && now >= last
      modifies this`ratio
      ensures ratio == Drifted(decays, old(ratio), active, now - last) && 0.0 < ratio < 1.0
    {
      DriftDirection(decays, ratio, active, now - last);
      var seconds, alpha := now - last, 0.0;
      if active {
        alpha := decays.hot(seconds);
        ratio := Times(alpha, ratio) + 1.0 - alpha;
      } else {
        alpha := decays.cold(seconds);
        ratio := Times(alpha, ratio);
      }
    }

    method Classify(isActive: bool) returns (threshold: real)
      requires 0.0 < ratio < 1.0
      modifies this`temp
      ensures temp == Classified(old(temp), ratio)
      ensures NextThreshold(ratio, isActive) == if threshold < 0.0 then None else Some(threshold)
    {
      if ratio < COLD_THRESHOLD {
        temp := Cold;
        threshold := if isActive then COLD_THRESHOLD else -1.0;
      } else if ratio < HOT_WARM_THRESHOLD {
        temp := Warm;
        threshold := if isActive then WARM_HOT_THRESHOLD else COLD_THRESHOLD;
      } else if ratio < WARM_HOT_THRESHOLD {
        if temp != Hot { temp := Warm; }
        threshold := if isActive then WARM_HOT_THRESHOLD else HOT_WARM_THRESHOLD;
      } else {
        temp := Hot;
        threshold := if isActive then -1.0 else HOT_WARM_THRESHOLD;
      }
    }

    /**
     The update: `timer` becomes the quotient whose logarithm is the next delay, and the
     running action is cancelled exactly when it is a long one and the device is hot.
     */
    method UpdateTemp(now: real, isActive: bool, action: Action) returns (cancel: bool, notify: bool)
      requires Inv(View()) && DecaysOk(decays) && now >= last
      modifies this
      ensures !enabled ==> View() == old(View()) && timer == old(timer) && !cancel && !notify
      ensures enabled ==> View() == Update(decays, old(View()), now, isActive) && Inv(View())
      ensures enabled ==> (timer.Some? <==> NextThreshold(ratio, isActive).Some?)
      ensures enabled && timer.Some? ==>
                timer.value == Quotient(ratio, isActive, NextThreshold(ratio, isActive).value) &&
                0.0 < timer.value <= 1.0
      ensures enabled ==> (cancel <==> temp == Hot && action == Long) && (notify <==> temp != old(temp))
    {
      if !enabled { return false, false; }
      UpdateKeepsInv(decays, View(), now, isActive);
      Drift(now);
      active, last := isActive, now;
      var was := temp;
      var threshold := Classify(isActive);
      cancel, notify := temp == Hot && action == Long, temp != was;
      timer := None;
      if threshold < 0.0 { return; }
      ThresholdAhead(ratio, isActive);
      timer := Some(Quotient(ratio, isActive, threshold));
    }

    /** The timer's callback: an update without a change of activity. */
    method Timeout(now: real, action: Action) returns (cancel: bool, notify: bool)
      requires Inv(View()) && DecaysOk(decays) && now >= last && enabled
      modifies this
      ensures View() == Update(decays, old(View()), now, old(active)) && Inv(View())
      ensures forall later: real, next: bool | later >= now ::
                Update(decays, View(), later, next) == Update(decays, old(View()), later, next)
    {
      ghost var was := View();
      cancel, notify := UpdateTemp(now, active, action);
      forall later: real, next: bool | later >= now
        ensures Update(decays, View(), later, next) == Update(decays, was, later, next)
      {
        ResampleOnce(decays, was, now, later, next);
      }
    }
  }
}
