/**
 * Tracking of a micro-controller's clock from round-trip samples: extension of 32-bit clock
 * readings, and an exponentially weighted regression of clock against sent time.
 *
 * Floating-point numbers are modelled as reals.
 */
module ClockSync {

  const RTT_AGE := 0.000010 / (60.0 * 60.0)
  const DECAY := 1.0 / 30.0
  const WORD: int := 0x1_0000_0000
  const HALF_WORD: int := 0x8000_0000

  /** Python's int() of a float: truncation toward zero. */
  function Truncate(x: real): int {
    if x >= 0.0 then x.Floor else -((-x).Floor)
  }

  /** A sample time, the clock at that time and a frequency. */
  datatype Estimate = Estimate(time: real, clock: real, freq: real)

  /** The clock that an estimate gives for a system time. */
  function ClockAt(est: Estimate, eventTime: real): int {
    Truncate(est.clock + (eventTime - est.time) * est.freq)
  }

  /** A clock reply: the low word of the clock, and when the query was sent and answered. */
  datatype Sample = Sample(clock: int, sentTime: real, receiveTime: real)

  datatype State = State(
    mcuFreq: real, lastClock: int, est: Estimate,
    minHalfRtt: real, minRttTime: real,
    timeAvg: real, timeVariance: real, clockAvg: real, clockCovariance: real,
    predictionVariance: real, lastPredictionTime: real)

  /** How a reply was handled; a zero time variance raises a division error. */
  datatype Verdict = Unsent | Outlier | Used | Raised

  /** A reply, and whether it is one of those awaited while connecting. */
  datatype Event = Event(sample: Sample, connecting: bool)

  // ----- Specification -----

  /** The 64-bit clock: the next value after `last` with the given low word. */
  function ExtendClock(last: int, clock: int): int {
    last + (clock - last) % WORD
  }

  /** The 64-bit clock nearest to `last` with the given low word. */
  function Clock32To64(last: int, clock32: int): int {
    var diff := (clock32 - last) % WORD;
    last + (if diff >= HALF_WORD then diff - WORD else diff)
  }

  function Square(x: real): real {
    x * x
  }

  /** The state once the clock has been extended and the best round trip updated. */
  function Measured(s: State, p: Sample): State {
    var s := s.(lastClock := ExtendClock(s.lastClock, p.clock));
    if p.sentTime == 0.0 then s
    else
      var halfRtt := 0.5 * (p.receiveTime - p.sentTime);
      var agedRtt := (p.sentTime - s.minRttTime) * RTT_AGE;
      if halfRtt < s.minHalfRtt + agedRtt then s.(minHalfRtt := halfRtt, minRttTime := p.sentTime) else s
  }

  /** How far the clock is ahead of its prediction. */
  function Lead(s: State, p: Sample): real {
    ExtendClock(s.lastClock, p.clock) as real - ((p.sentTime - s.timeAvg) * s.est.freq + s.clockAvg)
  }

  predicate Extreme(s: State, p: Sample) {
    var diff2 := Square(Lead(s, p));
    diff2 > 25.0 * s.predictionVariance && diff2 > Square(0.000500 * s.mcuFreq)
  }

  /** An extreme sample is ignored if it is late and the last good prediction is recent. */
  predicate Ignored(s: State, p: Sample) {
    Extreme(s, p) && Lead(s, p) > 0.0 && p.sentTime < s.lastPredictionTime + 10.0
  }

  /** The prediction variance after a sample that is not ignored. */
  function Predicted(s: State, p: Sample): State {
    if Extreme(s, p) then s.(predictionVariance := Square(0.001 * s.mcuFreq))
    else s.(lastPredictionTime := p.sentTime,
            predictionVariance := (1.0 - DECAY) * (s.predictionVariance + Square(Lead(s, p)) * DECAY))
  }

  /** The moving averages, variance and covariance after one more point. */
  function Regressed(s: State, time: real, clock: real): State {
    var diffTime, diffClock := time - s.timeAvg, clock - s.clockAvg;
    s.(timeAvg := s.timeAvg + DECAY * diffTime,
       timeVariance := (1.0 - DECAY) * (s.timeVariance + Square(diffTime) * DECAY),
       clockAvg := s.clockAvg + DECAY * diffClock,
       clockCovariance := (1.0 - DECAY) * (s.clockCovariance + diffTime * diffClock * DECAY))
  }

  /** The whole handler. */
  function Handle(s: State, p: Sample): (State, Verdict) {
    var measured := Measured(s, p);
    if p.sentTime == 0.0 then (measured, Unsent)
    else if Ignored(s, p) then (measured, Outlier)
    else
      var predicted := Predicted(s, p);
      var r := Regressed(measured.(lastPredictionTime := predicted.lastPredictionTime,
                                   predictionVariance := predicted.predictionVariance),
                         p.sentTime, measured.lastClock as real);
      if r.timeVariance == 0.0 then (r, Raised)
      else (r.(est := Estimate(r.timeAvg + r.minHalfRtt, r.clockAvg, r.clockCovariance / r.timeVariance)), Used)
  }

  function HandleEvent(s: State, e: Event): (State, Verdict) {
    Handle(if e.connecting then s.(lastPredictionTime := -9999.0) else s, e.sample)
  }

  /** The state after a run of replies. */
  function Run(s: State, es: seq<Event>): State {
    if es == [] then s else HandleEvent(Run(s, es[..|es| - 1]), es[|es| - 1]).0
  }

  /** The state that the initial uptime reply sets up. */
  function Uptime(s: State, freq: real, high: int, clock: int, sentTime: real): State {
    var last := high * WORD + clock;
    s.(mcuFreq := freq, lastClock := last, clockAvg := last as real, timeAvg := sentTime,
       est := Estimate(sentTime, last as real, freq),
       predictionVariance := Square(0.001 * freq))
  }

  /** The state of a new object. */
  const INITIAL := State(1.0, 0, Estimate(0.0, 0.0, 0.0), 999999999.9, 0.0, 0.0, 0.0, 0.0, 0.0, 0.0, 0.0)

  // ----- The clock is followed exactly -----

  lemma ExtendFollows(last: int, clock: int, truth: int)
    requires last <= truth < last + WORD && clock == truth % WORD
    ensures ExtendClock(last, clock) == truth
  {
    ModSame(clock - last, truth - last);
  }

  /** Numbers that differ by whole words have the same remainder. */
  lemma ModSame(a: int, b: int)
    requires (b - a) % WORD == 0
    ensures a % WORD == b % WORD
  {
  }

  /** The `k`-th true clock is below one wrap after the previous, and reported by its low word. */
  ghost predicate ReportedAt(start: int, es: seq<Event>, truths: seq<int>, k: nat)
    requires k < |es| == |truths|
  {
    var before := if k == 0 then start else truths[k - 1];
    before <= truths[k] < before + WORD && es[k].sample.clock == truths[k] % WORD
  }

  ghost predicate Reported(start: int, es: seq<Event>, truths: seq<int>) {
    |truths| == |es| && forall k | 0 <= k < |es| :: ReportedAt(start, es, truths, k)
  }

  /**
   * Over any run in which fewer than 2^32 ticks pass between handled samples, the extended
   * clock equals the true 64-bit clock after every sample, used or not.
   */
  lemma {:induction false} RunFollowsClock(s: State, es: seq<Event>, truths: seq<int>)
    requires Reported(s.lastClock, es, truths)
    ensures Run(s, es).lastClock == if es == [] then s.lastClock else truths[|es| - 1]
  {
    if es != [] {
      var n := |es| - 1;
      var es', truths' := es[..n], truths[..n];
      forall k | 0 <= k < n ensures ReportedAt(s.lastClock, es', truths', k) {
        assert ReportedAt(s.lastClock, es, truths, k);
      }
      assert ReportedAt(s.lastClock, es, truths, n);
      RunFollowsClock(s, es', truths');
      ExtendFollows(Run(s, es').lastClock, es[n].sample.clock, truths[n]);
      HandleExtends(Run(s, es'), es[n]);
    }
  }

  lemma HandleExtends(s: State, e: Event)
    ensures HandleEvent(s, e).0.lastClock == ExtendClock(s.lastClock, e.sample.clock)
    ensures HandleEvent(s, e).0.mcuFreq == s.mcuFreq
  {
    hide ExtendClock, Square;
  }

  /** Every true clock within half a wrap of the last one is recovered from its low word. */
  lemma NearbyClockRecovered(last: int, truth: int)
    requires last - HALF_WORD <= truth < last + HALF_WORD
    ensures Clock32To64(last, truth % WORD) == truth
  {
    ModSame(truth % WORD - last, truth - last);
  }

  // ----- The best round trip -----

  /** A round trip, aged back to a common time. */
  function Score(halfRtt: real, sentTime: real): real {
    halfRtt - sentTime * RTT_AGE
  }

  function SampleScore(p: Sample): real {
    Score(0.5 * (p.receiveTime - p.sentTime), p.sentTime)
  }

  /** The least score of the timed samples of a run, or the initial one. */
  function LeastScore(initial: real, es: seq<Event>): real {
    if es == [] then initial
    else
      var least, p := LeastScore(initial, es[..|es| - 1]), es[|es| - 1].sample;
      if p.sentTime != 0.0 && SampleScore(p) < least then SampleScore(p) else least
  }

  lemma HandleKeepsBest(s: State, e: Event)
    ensures var s', p := HandleEvent(s, e).0, e.sample;
            Score(s'.minHalfRtt, s'.minRttTime)
            == if p.sentTime != 0.0 && SampleScore(p) < Score(s.minHalfRtt, s.minRttTime) then SampleScore(p)
               else Score(s.minHalfRtt, s.minRttTime)
  {
    hide Square, Extreme, Regressed, Ignored;
    var p := e.sample;
    assert (p.sentTime - s.minRttTime) * RTT_AGE == p.sentTime * RTT_AGE - s.minRttTime * RTT_AGE;
    MeasuredStays(s, e);
  }

  lemma MeasuredStays(s: State, e: Event)
    ensures HandleEvent(s, e).0.minHalfRtt == Measured(s, e.sample).minHalfRtt
    ensures HandleEvent(s, e).0.minRttTime == Measured(s, e.sample).minRttTime
  {
    hide Square, Extreme, Ignored, ExtendClock;
  }

  /** Over any run, the remembered round trip is the best of all samples once age is allowed for. */
  lemma {:induction false} RunKeepsBestRoundTrip(s: State, es: seq<Event>)
    ensures Score(Run(s, es).minHalfRtt, Run(s, es).minRttTime)
         == LeastScore(Score(s.minHalfRtt, s.minRttTime), es)
  {
    hide Score, SampleScore, HandleEvent;
    if es != [] {
      var n := |es| - 1;
      RunKeepsBestRoundTrip(s, es[..n]);
      HandleKeepsBest(Run(s, es[..n]), es[n]);
    }
  }

  // ----- The regression stays in the band of the true rate -----

  /** The rate between two points lies in the band, and time moves forward. */
  ghost predicate RateInBand(fmin: real, fmax: real, t0: real, c0: real, t1: real, c1: real) {
    t0 < t1 && fmin * (t1 - t0) <= c1 - c0 <= fmax * (t1 - t0)
  }

  /** A point seen from the moving averages lies in the band's cone. */
  ghost predicate InCone(fmin: real, fmax: real, dt: real, dc: real) {
    0.0 <= dt && fmin * dt <= dc <= fmax * dt
  }

  /**
   * What a run keeps, relative to the last point that entered the regression: the averages
   * lie behind it in the cone, the covariance lies in the band of the variance, and the
   * frequency estimate is nominal before the first point and in the band ever after.
   */
  ghost predicate InBand(s: State, fmin: real, fmax: real, time: real, clock: real) {
    && InCone(fmin, fmax, time - s.timeAvg, clock - s.clockAvg)
    && InCone(fmin, fmax, s.timeVariance, s.clockCovariance)
    && s.predictionVariance > 0.0
    && (if s.timeVariance == 0.0 then s.est.freq == s.mcuFreq else fmin <= s.est.freq <= fmax)
  }

  /** Moving further inside the band stays inside the cone, strictly forward in time. */
  lemma ConeExtends(fmin: real, fmax: real, dt: real, dc: real, t0: real, c0: real, t1: real, c1: real)
    requires InCone(fmin, fmax, dt, dc) && RateInBand(fmin, fmax, t0, c0, t1, c1)
    ensures dt + (t1 - t0) > 0.0 && InCone(fmin, fmax, dt + (t1 - t0), dc + (c1 - c0))
  {
    assert fmin * (dt + (t1 - t0)) == fmin * dt + fmin * (t1 - t0);
    assert fmax * (dt + (t1 - t0)) == fmax * dt + fmax * (t1 - t0);
  }

  /** Scaling by a non-negative factor stays in the cone. */
  lemma ConeScales(fmin: real, fmax: real, dt: real, dc: real, k: real)
    requires InCone(fmin, fmax, dt, dc) && k >= 0.0
    ensures InCone(fmin, fmax, k * dt, k * dc)
  {
    MulMonotone(k, fmin * dt, dc);
    MulMonotone(k, dc, fmax * dt);
    assert k * (fmin * dt) == fmin * (k * dt) && k * (fmax * dt) == fmax * (k * dt);
    MulMonotone(k, 0.0, dt);
  }

  lemma MulMonotone(k: real, a: real, b: real)
    requires k >= 0.0 && a <= b
    ensures k * a <= k * b
  {
  }

  lemma ConeAdds(fmin: real, fmax: real, dt: real, dc: real, dt': real, dc': real)
    requires InCone(fmin, fmax, dt, dc) && InCone(fmin, fmax, dt', dc')
    ensures InCone(fmin, fmax, dt + dt', dc + dc')
  {
    assert fmin * (dt + dt') == fmin * dt + fmin * dt';
    assert fmax * (dt + dt') == fmax * dt + fmax * dt';
  }

  /** One more point whose offset from the averages lies in the cone. */
  lemma RegressionInBand(s: State, fmin: real, fmax: real, time: real, clock: real)
    requires InCone(fmin, fmax, s.timeVariance, s.clockCovariance)
    requires time - s.timeAvg > 0.0 && InCone(fmin, fmax, time - s.timeAvg, clock - s.clockAvg)
    ensures var r := Regressed(s, time, clock);
            && InCone(fmin, fmax, time - r.timeAvg, clock - r.clockAvg)
            && InCone(fmin, fmax, r.timeVariance, r.clockCovariance)
            && r.timeVariance > 0.0
            && fmin <= r.clockCovariance / r.timeVariance <= fmax
  {
    hide InCone;
    var dt, dc := time - s.timeAvg, clock - s.clockAvg;
    AveragesInCone(s.timeAvg, s.clockAvg, fmin, fmax, time, clock);
    MomentsInCone(fmin, fmax, s.timeVariance, s.clockCovariance, dt, dc);
    var r := Regressed(s, time, clock);
    assert r.timeVariance == (1.0 - DECAY) * (s.timeVariance + Square(dt) * DECAY);
    assert r.clockCovariance == (1.0 - DECAY) * (s.clockCovariance + dt * dc * DECAY);
    QuotientInBand(fmin, fmax, r.timeVariance, r.clockCovariance);
  }

  lemma AveragesInCone(timeAvg: real, clockAvg: real, fmin: real, fmax: real, time: real, clock: real)
    requires InCone(fmin, fmax, time - timeAvg, clock - clockAvg)
    ensures InCone(fmin, fmax, time - (timeAvg + DECAY * (time - timeAvg)), clock - (clockAvg + DECAY * (clock - clockAvg)))
  {
    ConeScales(fmin, fmax, time - timeAvg, clock - clockAvg, 1.0 - DECAY);
  }

  lemma MomentsInCone(fmin: real, fmax: real, variance: real, covariance: real, dt: real, dc: real)
    requires InCone(fmin, fmax, variance, covariance) && dt > 0.0 && InCone(fmin, fmax, dt, dc)
    ensures InCone(fmin, fmax, (1.0 - DECAY) * (variance + Square(dt) * DECAY), (1.0 - DECAY) * (covariance + dt * dc * DECAY))
    ensures (1.0 - DECAY) * (variance + Square(dt) * DECAY) > 0.0
  {
    assert dt * DECAY * dt == Square(dt) * DECAY && dt * DECAY * dc == dt * dc * DECAY;
    SquarePositive(dt);
    hide Square;
    VariancePositive(variance, Square(dt), DECAY);
    hide InCone;
    ConeScales(fmin, fmax, dt, dc, dt * DECAY);
    ConeAdds(fmin, fmax, variance, covariance, Square(dt) * DECAY, dt * dc * DECAY);
    ConeScales(fmin, fmax, variance + Square(dt) * DECAY, covariance + dt * dc * DECAY, 1.0 - DECAY);
  }

  lemma VariancePositive(variance: real, square: real, decay: real)
    requires variance >= 0.0 && square > 0.0 && 0.0 < decay < 1.0
    ensures (1.0 - decay) * (variance + square * decay) > 0.0
  {
    MulPositive(square, decay);
    MulPositive(1.0 - decay, variance + square * decay);
  }

  lemma SquarePositive(x: real)
    requires x != 0.0
    ensures Square(x) > 0.0
  {
    var y := if x > 0.0 then x else -x;
    var z :| z == y;
    MulPositive(y, z);
    assert Square(x) == y * z;
  }

  lemma MulPositive(a: real, b: real)
    requires a > 0.0 && b > 0.0
    ensures a * b > 0.0
  {
  }

  lemma QuotientInBand(fmin: real, fmax: real, dt: real, dc: real)
    requires dt > 0.0 && InCone(fmin, fmax, dt, dc)
    ensures fmin <= dc / dt <= fmax
  {
    var q := dc / dt;
    assert q * dt == dc;
  }

  // ----- Whole runs -----

  /** Whether a reply enters the regression. */
  predicate Enters(s: State, e: Event) {
    var s := if e.connecting then s.(lastPredictionTime := -9999.0) else s;
    e.sample.sentTime != 0.0 && !Ignored(s, e.sample)
  }

  lemma PredictionPositive(s: State, p: Sample)
    requires s.predictionVariance > 0.0 && s.mcuFreq != 0.0
    ensures Predicted(s, p).predictionVariance > 0.0
  {
    var x := 0.001 * s.mcuFreq;
    SquarePositive(x);
    var d := Lead(s, p);
    if d != 0.0 {
      SquarePositive(d);
    }
    hide Square;
    assert Square(d) >= 0.0 by { SquareZero(); }
    VarianceStays(s.predictionVariance, Square(d), DECAY);
  }

  lemma SquareZero()
    ensures Square(0.0) == 0.0
  {
  }

  lemma VarianceStays(variance: real, square: real, decay: real)
    requires variance > 0.0 && square >= 0.0 && 0.0 < decay < 1.0
    ensures (1.0 - decay) * (variance + square * decay) > 0.0
  {
    MulMonotone(square, 0.0, decay);
    MulPositive(1.0 - decay, variance + square * decay);
  }

  /** One reply keeps the band, and never divides by zero. */
  lemma HandleInBand(s: State, e: Event, fmin: real, fmax: real, t0: real, c0: real)
    requires InBand(s, fmin, fmax, t0, c0) && s.mcuFreq != 0.0
    requires Enters(s, e) ==>
               RateInBand(fmin, fmax, t0, c0, e.sample.sentTime, ExtendClock(s.lastClock, e.sample.clock) as real)
    ensures var (s', verdict) := HandleEvent(s, e);
            && (Enters(s, e) <==> verdict == Used) && verdict != Raised
            && (Enters(s, e) ==>
                && s'.timeVariance > 0.0
                && InBand(s', fmin, fmax, e.sample.sentTime, s'.lastClock as real))
            && (!Enters(s, e) ==>
                InBand(s', fmin, fmax, t0, c0) && s'.timeVariance == s.timeVariance && s'.est == s.est)
  {
    hide Square, ExtendClock, RateInBand, InCone;
    if Enters(s, e) {
      var s0 := if e.connecting then s.(lastPredictionTime := -9999.0) else s;
      var clock := ExtendClock(s.lastClock, e.sample.clock) as real;
      ConeExtends(fmin, fmax, t0 - s.timeAvg, c0 - s.clockAvg, t0, c0, e.sample.sentTime, clock);
      var predicted := Predicted(s0, e.sample);
      PredictionPositive(s0, e.sample);
      var before := Measured(s0, e.sample).(lastPredictionTime := predicted.lastPredictionTime,
                                            predictionVariance := predicted.predictionVariance);
      assert t0 - s.timeAvg + (e.sample.sentTime - t0) == e.sample.sentTime - before.timeAvg;
      assert c0 - s.clockAvg + (clock - c0) == clock - before.clockAvg;
      RegressionInBand(before, fmin, fmax, e.sample.sentTime, clock);
    }
  }

  /**
   * How far a fresh estimate can be off: for any later point that the true clock reaches inside
   * the band, the line that the host extrapolates, half a round trip after sending, errs by at
   * most the width of the band over the time since the average.
   */
  lemma PredictionError(s: State, e: Event, fmin: real, fmax: real, t0: real, c0: real, time: real, clock: real)
    requires InBand(s, fmin, fmax, t0, c0) && s.mcuFreq != 0.0 && Enters(s, e)
    requires RateInBand(fmin, fmax, t0, c0, e.sample.sentTime, ExtendClock(s.lastClock, e.sample.clock) as real)
    requires RateInBand(fmin, fmax, e.sample.sentTime, ExtendClock(s.lastClock, e.sample.clock) as real, time, clock)
    ensures var s' := HandleEvent(s, e).0;
            var predicted := s'.est.clock + (time + s'.minHalfRtt - s'.est.time) * s'.est.freq;
            (fmin - fmax) * (time - s'.timeAvg) <= predicted - clock <= (fmax - fmin) * (time - s'.timeAvg)
  {
    hide InBand, RateInBand, Enters, ExtendClock, InCone, HandleEvent;
    var s' := HandleEvent(s, e).0;
    HandleInBand(s, e, fmin, fmax, t0, c0);
    FreshEstimate(s, e);
    HandleExtends(s, e);
    var last := s'.lastClock as real;
    FreshInBand(s', fmin, fmax, e.sample.sentTime, last);
    ConeExtends(fmin, fmax, e.sample.sentTime - s'.timeAvg, last - s'.clockAvg, e.sample.sentTime, last, time, clock);
    var dt, dc := time - s'.timeAvg, clock - s'.clockAvg;
    assert e.sample.sentTime - s'.timeAvg + (time - e.sample.sentTime) == dt;
    assert last - s'.clockAvg + (clock - last) == dc;
    SlopesApart(fmin, fmax, dt, dc, s'.est.freq);
    LineAt(s'.est, s'.timeAvg, s'.clockAvg, s'.minHalfRtt, time, clock);
  }

  lemma FreshInBand(s: State, fmin: real, fmax: real, time: real, clock: real)
    requires InBand(s, fmin, fmax, time, clock) && s.timeVariance > 0.0
    ensures fmin <= s.est.freq <= fmax && InCone(fmin, fmax, time - s.timeAvg, clock - s.clockAvg)
  {
  }

  lemma FreshEstimate(s: State, e: Event)
    requires HandleEvent(s, e).1 == Used
    ensures var s' := HandleEvent(s, e).0; s'.est.time == s'.timeAvg + s'.minHalfRtt && s'.est.clock == s'.clockAvg
  {
    hide Square, Extreme, Ignored, ExtendClock;
  }

  /** Two lines through one point, both with slopes in the band. */
  lemma SlopesApart(fmin: real, fmax: real, dt: real, dc: real, freq: real)
    requires InCone(fmin, fmax, dt, dc) && fmin <= freq <= fmax
    ensures (fmin - fmax) * dt <= dt * freq - dc <= (fmax - fmin) * dt
  {
    var lo, at, hi := SlopeBetween(fmin, fmax, dt, freq);
    assert lo <= dc <= hi;
  }

  /** The products with dt, named: the bounds on them are then linear facts. */
  lemma SlopeBetween(fmin: real, fmax: real, dt: real, freq: real) returns (lo: real, at: real, hi: real)
    requires 0.0 <= dt && fmin <= freq <= fmax
    ensures lo == fmin * dt && at == dt * freq && hi == fmax * dt && lo <= at <= hi
    ensures (fmax - fmin) * dt == hi - lo && (fmin - fmax) * dt == lo - hi
  {
    lo, at, hi := fmin * dt, dt * freq, fmax * dt;
    ScaledOrder(dt, fmin, freq);
    ScaledOrder(dt, freq, fmax);
  }

  lemma ScaledOrder(k: real, a: real, b: real)
    requires k >= 0.0 && a <= b
    ensures a * k <= b * k
  {
    MulMonotone(k, a, b);
  }

  lemma LineAt(est: Estimate, timeAvg: real, clockAvg: real, half: real, time: real, clock: real)
    requires est.time == timeAvg + half && est.clock == clockAvg
    ensures est.clock + (time + half - est.time) * est.freq - clock == (time - timeAvg) * est.freq - (clock - clockAvg)
  {
  }

  /** The last point of a run that entered the regression. */
  function LastPoint(s: State, es: seq<Event>, t0: real, c0: real): (real, real) {
    if es == [] then (t0, c0)
    else
      var before, e := Run(s, es[..|es| - 1]), es[|es| - 1];
      if Enters(before, e) then (e.sample.sentTime, ExtendClock(before.lastClock, e.sample.clock) as real)
      else LastPoint(s, es[..|es| - 1], t0, c0)
  }

  predicate AnyEntered(s: State, es: seq<Event>) {
    es != [] && (Enters(Run(s, es[..|es| - 1]), es[|es| - 1]) || AnyEntered(s, es[..|es| - 1]))
  }

  /** Between consecutive points of the run the clock's rate lies in the band. */
  ghost predicate Steady(s: State, es: seq<Event>, fmin: real, fmax: real, t0: real, c0: real) {
    es == []
    || (var before, e := Run(s, es[..|es| - 1]), es[|es| - 1];
        var last := LastPoint(s, es[..|es| - 1], t0, c0);
        && Steady(s, es[..|es| - 1], fmin, fmax, t0, c0)
        && (Enters(before, e) ==>
              RateInBand(fmin, fmax, last.0, last.1, e.sample.sentTime,
                         ExtendClock(before.lastClock, e.sample.clock) as real)))
  }

  lemma {:induction false} RunInBand(s: State, es: seq<Event>, fmin: real, fmax: real, t0: real, c0: real)
    requires InBand(s, fmin, fmax, t0, c0) && s.mcuFreq != 0.0
    requires Steady(s, es, fmin, fmax, t0, c0)
    ensures var last := LastPoint(s, es, t0, c0); InBand(Run(s, es), fmin, fmax, last.0, last.1)
    ensures Run(s, es).mcuFreq == s.mcuFreq
    ensures AnyEntered(s, es) ==> Run(s, es).timeVariance > 0.0
    ensures !AnyEntered(s, es) ==> Run(s, es).timeVariance == s.timeVariance && Run(s, es).est == s.est
  {
    hide InBand, RateInBand, HandleEvent, Enters;
    if es != [] {
      var n := |es| - 1;
      RunInBand(s, es[..n], fmin, fmax, t0, c0);
      var last := LastPoint(s, es[..n], t0, c0);
      var before := Run(s, es[..n]);
      HandleExtends(before, es[n]);
      HandleInBand(before, es[n], fmin, fmax, last.0, last.1);
    }
  }

  /**
   * From the uptime reply on, over any run of replies: as long as the clock's true rate between
   * consecutive points lies in a band, the frequency estimate is nominal until a point has
   * entered the regression and lies in the band afterwards, the variance that it is divided by
   * is positive, and so is the prediction variance.
   */
  lemma FrequencyInBand(freq: real, high: int, clock: int, sentTime: real, es: seq<Event>, fmin: real, fmax: real)
    requires freq != 0.0
    requires Steady(Uptime(INITIAL, freq, high, clock, sentTime), es, fmin, fmax,
                    sentTime, (high * WORD + clock) as real)
    ensures var s := Run(Uptime(INITIAL, freq, high, clock, sentTime), es);
            && s.predictionVariance > 0.0
            && (if AnyEntered(Uptime(INITIAL, freq, high, clock, sentTime), es)
                then s.timeVariance > 0.0 && fmin <= s.est.freq <= fmax
                else s.est.freq == freq)
  {
    var start := Uptime(INITIAL, freq, high, clock, sentTime);
    SquarePositive(0.001 * freq);
    assert InBand(start, fmin, fmax, sentTime, (high * WORD + clock) as real);
    hide Steady, Run;
    RunInBand(start, es, fmin, fmax, sentTime, (high * WORD + clock) as real);
  }

  // ----- The object -----

  class ClockSync {
    var queriesPending: nat
    var mcuFreq: real
    var lastClock: int
    var clockEst: Estimate
    var minHalfRtt: real
    var minRttTime: real
    var timeAvg: real
    var timeVariance: real
    var clockAvg: real
    var clockCovariance: real
    var predictionVariance: real
    var lastPredictionTime: real

    ghost function Snapshot(): State
      reads this
    {
      State(mcuFreq, lastClock, clockEst, minHalfRtt, minRttTime, timeAvg, timeVariance,
            clockAvg, clockCovariance, predictionVariance, lastPredictionTime)
    }

    constructor ()
      ensures Snapshot() == INITIAL && queriesPending == 0
    {
      queriesPending := 0;
      mcuFreq, lastClock, clockEst := 1.0, 0, Estimate(0.0, 0.0, 0.0);
      minHalfRtt, minRttTime := 999999999.9, 0.0;
      timeAvg, timeVariance, clockAvg, clockCovariance := 0.0, 0.0, 0.0, 0.0;
      predictionVariance, lastPredictionTime := 0.0, 0.0;
    }

    /** Adds a point to the linear regression. */
    method AddPoint(time: real, clock: real)
      modifies this
      ensures Snapshot() == Regressed(old(Snapshot()), time, clock)
      ensures queriesPending == old(queriesPending)
    {
      hide Square;
      var diffTime := time - timeAvg;
      timeAvg := timeAvg + DECAY * diffTime;
      timeVariance := (1.0 - DECAY) * (timeVariance + Square(diffTime) * DECAY);
      var diffClock := clock - clockAvg;
      clockAvg := clockAvg + DECAY * diffClock;
      clockCovariance := (1.0 - DECAY) * (clockCovariance + diffTime * diffClock * DECAY);
    }

    /** The clock reply handler. */
    method HandleClock(p: Sample) returns (verdict: Verdict)
      modifies this
      ensures (Snapshot(), verdict) == Handle(old(Snapshot()), p)
      ensures queriesPending == 0
    {
      hide Square, Regressed;
      ghost var s := Snapshot();
      queriesPending := 0;
      var clockDelta := (p.clock - lastClock) % WORD;
      var clock := lastClock + clockDelta;
      lastClock := clock;
      if p.sentTime == 0.0 { return Unsent; }
      var halfRtt := 0.5 * (p.receiveTime - p.sentTime);
      var agedRtt := (p.sentTime - minRttTime) * RTT_AGE;
      if halfRtt < minHalfRtt + agedRtt {
        minHalfRtt, minRttTime := halfRtt, p.sentTime;
      }
      var expClock := (p.sentTime - timeAvg) * clockEst.freq + clockAvg;
      var clockDiff2 := Square(clock as real - expClock);
      assert clock as real - expClock == Lead(s, p);
      if clockDiff2 > 25.0 * predictionVariance && clockDiff2 > Square(0.000500 * mcuFreq) {
        if clock as real > expClock && p.sentTime < lastPredictionTime + 10.0 { return Outlier; }
        predictionVariance := Square(0.001 * mcuFreq);
      } else {
        lastPredictionTime := p.sentTime;
        predictionVariance := (1.0 - DECAY) * (predictionVariance + clockDiff2 * DECAY);
      }
      AddPoint(p.sentTime, clock as real);
      if timeVariance == 0.0 { return Raised; }
      var newFreq := clockCovariance / timeVariance;
      clockEst := Estimate(timeAvg + minHalfRtt, clockAvg, newFreq);
      return Used;
    }

    /** Loads the initial clock and frequency. */
    method Begin(freq: real, high: int, clock: int, sentTime: real)
      modifies this
      ensures Snapshot() == Uptime(old(Snapshot()), freq, high, clock, sentTime)
    {
      mcuFreq := freq;
      lastClock := high * WORD + clock;
      clockAvg := lastClock as real;
      timeAvg := sentTime;
      clockEst := Estimate(timeAvg, clockAvg, mcuFreq);
      predictionVariance := Square(0.001 * mcuFreq);
    }

    /** Connecting: the uptime reply, then the awaited clock replies, unless one of them raises. */
    method Connect(freq: real, high: int, clock: int, sentTime: real, replies: seq<Sample>)
      returns (handled: nat, ok: bool)
      modifies this
      ensures handled <= |replies| && (ok ==> handled == |replies|)
      ensures Snapshot() == Run(Uptime(old(Snapshot()), freq, high, clock, sentTime), Connecting(replies[..handled]))
    {
      Begin(freq, high, clock, sentTime);
      ghost var start := Snapshot();
      handled, ok := 0, true;
      assert Connecting(replies[..0]) == [];
      assert Snapshot() == Run(start, Connecting(replies[..handled]));
      hide Handle, Run, Square, Connecting, Uptime;
      while handled < |replies| && ok
        invariant handled <= |replies|
        invariant Snapshot() == Run(start, Connecting(replies[..handled]))
      {
        lastPredictionTime := -9999.0;
        var verdict := HandleClock(replies[handled]);
        ConnectingNext(start, replies, handled);
        handled := handled + 1;
        ok := verdict != Raised;
      }
    }

    function GetClock(eventTime: real): int
      reads this
    {
      ClockAt(clockEst, eventTime)
    }
  }

  /** Replies as events of the connecting phase. */
  function Connecting(replies: seq<Sample>): seq<Event> {
    seq(|replies|, i requires 0 <= i < |replies| => Event(replies[i], true))
  }

  lemma ConnectingNext(start: State, replies: seq<Sample>, n: nat)
    requires n < |replies|
    ensures Run(start, Connecting(replies[..n + 1]))
         == HandleEvent(Run(start, Connecting(replies[..n])), Event(replies[n], true)).0
  {
    var es := Connecting(replies[..n + 1]);
    assert es[..n] == Connecting(replies[..n]);
  }
}
