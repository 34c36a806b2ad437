/**
 * The micro-controller's task statistics: five 32-bit words that count, sum and sum the
 * squares of task durations, and keep the time of the last report.
 */
module Statistics {
  import opened Results

  const WORD: int := 0x1_0000_0000
  const MAX_WORD: int := 0xffff_ffff
  const PERIOD: int := 3000000000

  type word = w: int | 0 <= w < 0x1_0000_0000

  datatype Stats = Stats(sendTime: word, high: word, count: word, sum: word, sumsq: word)

  datatype Report = Report(count: word, sum: word, sumsq: word)

  /** One timed task: its start and end clocks. */
  datatype Call = Call(start: word, now: word)

  // ----- Specification -----

  function Duration(c: Call): word {
    (c.now - c.start) % WORD
  }

  /** The scaled square of a duration, rounded up so as to stay inside 32 bits where it can. */
  function Cost(diff: nat): nat {
    if diff <= 0xffff then (diff * diff + 255) / 256 else (diff + 255) / 256 * diff
  }

  /** A sum that sticks at the greatest word. */
  function Saturated(n: nat): word {
    Min(n, MAX_WORD)
  }

  predicate Reports(s: Stats, c: Call) {
    (c.now - s.sendTime) % WORD >= PERIOD
  }

  /** The accumulators after one more task. */
  function Accumulated(s: Stats, c: Call): Stats {
    s.(count := (s.count + 1) % WORD,
       sum := (s.sum + Duration(c)) % WORD,
       sumsq := Saturated(s.sumsq + Cost(Duration(c))))
  }

  /** One update: accumulate, and report and start over once a period has passed. */
  function Updated(s: Stats, c: Call): (Stats, Option<Report>) {
    var a := Accumulated(s, c);
    if !Reports(s, c) then (a, None)
    else (Stats(c.now, if s.sendTime > c.now then (s.high + 1) % WORD else s.high, 0, 0, 0),
          Some(Report(a.count, a.sum, a.sumsq)))
  }

  function Run(s: Stats, cs: seq<Call>): Stats {
    if cs == [] then s else Updated(Run(s, cs[..|cs| - 1]), cs[|cs| - 1]).0
  }

  // ----- The update itself -----

  /** A cost below the third range never exceeds a word, so one wrap is always visible. */
  lemma CostFits(diff: nat)
    requires diff < WORD
    ensures diff <= 0xffff ==> Cost(diff) <= 0x100_0000
    ensures 0xffff < diff <= 0xfffff ==> Cost(diff) <= MAX_WORD
    ensures diff > 0xfffff ==> Cost(diff) >= MAX_WORD
  {
    var blocks := (diff + 255) / 256;
    if diff <= 0xffff {
      Products(diff, 0xffff, diff, 0xffff);
    } else if diff <= 0xfffff {
      Products(blocks, 4096, diff, 0xfffff);
    } else {
      Products(4096, blocks, 0x100000, diff);
    }
  }

  lemma Products(a: nat, b: nat, c: nat, d: nat)
    requires a <= b && c <= d
    ensures a * c <= b * d
  {
    assert b * d - a * c == (b - a) * d + a * (d - c);
  }

  /** A sum that wrapped once is below its first term; otherwise it has not wrapped. */
  lemma WrapShows(a: nat, cost: nat)
    requires a <= MAX_WORD && cost <= MAX_WORD
    ensures var next := (a + cost) % WORD;
            Saturated(a + cost) == if next < a then MAX_WORD else next
  {
  }

  /** The next sum of squares: three ranges of durations, and a sum that wrapped sticks at the top. */
  method NextSquare(sumsq: word, diff: word) returns (next: word)
    ensures next == Saturated(sumsq + Cost(diff))
  {
    CostFits(diff);
    if diff <= 0xfffff {
      hide Cost, Saturated;
      WrapShows(sumsq, Cost(diff));
    }
    if diff <= 0xffff {
      next := (sumsq as int + (diff * diff + 255) / 256) % WORD;
    } else if diff <= 0xfffff {
      next := (sumsq as int + (diff + 255) / 256 * diff) % WORD;
    } else {
      next := MAX_WORD;
    }
    if next < sumsq {
      next := MAX_WORD;
    }
  }

  class StatsWords {
    var state: seq<word>

    ghost predicate Valid()
      reads this
    {
      |state| == 5
    }

    ghost function Snapshot(): Stats
      requires Valid()
      reads this
    {
      Stats(state[0], state[1], state[2], state[3], state[4])
    }

    /** A 32-bit store. */
    method Write(index: nat, value: int)
      requires Valid() && index < 5
      modifies this
      ensures Valid() && state == old(state)[index := value % WORD]
    {
      state := state[index := value % WORD];
    }

    /** Counts one more task, with wrapping stores and a saturating sum of squares. */
    method Accumulate(diff: word)
      requires Valid()
      modifies this
      ensures Valid() && state == [old(state[0]), old(state[1]), (old(state[2]) + 1) % WORD,
                                   (old(state[3]) + diff) % WORD, Saturated(old(state[4]) + Cost(diff))]
    {
      hide Cost;
      Write(2, state[2] as int + 1);
      Write(3, state[3] as int + diff);
      var nextSquare := NextSquare(state[4], diff);
      Write(4, nextSquare);
    }

    /** The update: accumulate, then report and start over once a period has passed. */
    method Update(start: word, now: word) returns (report: Option<Report>)
      requires Valid()
      modifies this
      ensures Valid() && (Snapshot(), report) == Updated(old(Snapshot()), Call(start, now))
    {
      hide Cost;
      var previous := state[0];
      Accumulate((now - start) % WORD);
      if (now - previous) % WORD < PERIOD { return None; }
      report := Some(Report(state[2], state[3], state[4]));
      if state[0] > now {
        Write(1, state[1] as int + 1);
      }
      Write(0, now);
      Write(4, 0);
      Write(3, 0);
      Write(2, 0);
    }
  }

  // ----- What the accumulators hold, over whole runs -----

  /** The calls since the last report of a run. */
  function Since(s: Stats, cs: seq<Call>): seq<Call> {
    if cs == [] then []
    else
      var before, c := cs[..|cs| - 1], cs[|cs| - 1];
      if Reports(Run(s, before), c) then [] else Since(s, before) + [c]
  }

  function SumDurations(cs: seq<Call>): nat {
    if cs == [] then 0 else SumDurations(cs[..|cs| - 1]) + Duration(cs[|cs| - 1])
  }

  function SumSquares(cs: seq<Call>): nat {
    if cs == [] then 0
    else SumSquares(cs[..|cs| - 1]) + Duration(cs[|cs| - 1]) * Duration(cs[|cs| - 1])
  }

  function SumCosts(cs: seq<Call>): nat {
    if cs == [] then 0 else SumCosts(cs[..|cs| - 1]) + Cost(Duration(cs[|cs| - 1]))
  }

  /** The accumulators hold a list of calls: count and sum modulo a word, costs saturated. */
  ghost predicate Holds(count: word, sum: word, sumsq: word, cs: seq<Call>) {
    count == |cs| % WORD && sum == SumDurations(cs) % WORD && sumsq == Saturated(SumCosts(cs))
  }

  /** One more call, whether or not it is reported. */
  lemma HoldsNext(s: Stats, cs: seq<Call>, c: Call)
    requires Holds(s.count, s.sum, s.sumsq, cs)
    ensures var a := Accumulated(s, c); Holds(a.count, a.sum, a.sumsq, cs + [c])
  {
    hide Cost, Duration;
    assert (cs + [c])[..|cs + [c]| - 1] == cs;
    AddModulo(|cs|, 1);
    AddModulo(SumDurations(cs), Duration(c));
  }

  lemma AddModulo(a: nat, b: nat)
    ensures (a % WORD + b) % WORD == (a + b) % WORD
  {
  }

  /**
   * Over any run from cleared accumulators, the words hold exactly the calls since the last
   * report, and whatever is reported is what the calls since the report before add up to.
   */
  lemma {:induction false} RunHolds(s: Stats, cs: seq<Call>)
    requires s.count == s.sum == s.sumsq == 0
    ensures var r := Run(s, cs); Holds(r.count, r.sum, r.sumsq, Since(s, cs))
  {
    hide Cost, Duration, Reports, Holds;
    HoldsNothing();
    if cs != [] {
      var before, c := cs[..|cs| - 1], cs[|cs| - 1];
      RunHolds(s, before);
      HoldsNext(Run(s, before), Since(s, before), c);
    }
  }

  lemma HoldsNothing()
    ensures Holds(0, 0, 0, [])
  {
  }

  /** A report of a run, and the calls it covers. */
  lemma ReportCovers(s: Stats, cs: seq<Call>, c: Call)
    requires s.count == s.sum == s.sumsq == 0
    requires Updated(Run(s, cs), c).1.Some?
    ensures var report := Updated(Run(s, cs), c).1.value;
            Holds(report.count, report.sum, report.sumsq, Since(s, cs) + [c])
  {
    RunHolds(s, cs);
    HoldsNext(Run(s, cs), Since(s, cs), c);
  }

  // ----- The host's variance is never negative -----

  /** The scaled cost never undercuts the square. */
  lemma CostCovers(diff: nat)
    ensures 256 * Cost(diff) >= diff * diff
  {
    if diff > 0xffff {
      var blocks := (diff + 255) / 256;
      Products(diff, 256 * blocks, diff, diff);
      assert 256 * (blocks * diff) == 256 * blocks * diff;
    }
  }

  lemma {:induction false} CostsCover(cs: seq<Call>)
    ensures 256 * SumCosts(cs) >= SumSquares(cs)
  {
    hide Cost;
    if cs != [] {
      CostsCover(cs[..|cs| - 1]);
      CostCovers(Duration(cs[|cs| - 1]));
    }
  }

  /** The Cauchy-Schwarz inequality for the durations of a list of calls. */
  lemma {:induction false} CauchySchwarz(cs: seq<Call>)
    ensures SumDurations(cs) * SumDurations(cs) <= |cs| * SumSquares(cs)
  {
    hide Duration;
    if cs != [] {
      var before, d := cs[..|cs| - 1], Duration(cs[|cs| - 1]);
      CauchySchwarz(before);
      CauchySchwarzStep(|before|, SumDurations(before), SumSquares(before), d);
    }
  }

  lemma CauchySchwarzStep(n: nat, s: nat, q: nat, d: nat)
    requires s * s <= n * q
    ensures (s + d) * (s + d) <= (n + 1) * (q + d * d)
  {
    // n * gap = (n q - s s) + (s - n d)^2, where gap is what one more term adds to the difference
    var gap := q + n * (d * d) - 2 * (s * d);
    ExpandProducts(n, s, q, d);
    if n == 0 {
      SquareAtMostZero(s);
    } else {
      CompleteSquare(n, s, q, d);
      var e := s - n * d;
      SquareNotNegative(e);
      FactorNotNegative(n, gap);
    }
  }

  lemma ExpandProducts(n: int, s: int, q: int, d: int)
    ensures (n + 1) * (q + d * d) == n * q + n * (d * d) + q + d * d
    ensures (s + d) * (s + d) == s * s + 2 * (s * d) + d * d
  {
  }

  lemma CompleteSquare(n: int, s: int, q: int, d: int)
    ensures n * (q + n * (d * d) - 2 * (s * d)) == (n * q - s * s) + (s - n * d) * (s - n * d)
  {
    var m := n * d;
    assert n * (n * (d * d)) == m * m;
    assert n * (s * d) == s * m;
    assert (s - m) * (s - m) == s * s - 2 * (s * m) + m * m;
    Distribute(n, q, n * (d * d), s * d);
  }

  lemma Distribute(n: int, a: int, b: int, c: int)
    ensures n * (a + b - 2 * c) == n * a + n * b - 2 * (n * c)
  {
  }

  lemma SquareNotNegative(e: int)
    ensures e * e >= 0
  {
  }

  lemma SquareAtMostZero(s: nat)
    requires s * s <= 0
    ensures s == 0
  {
  }

  lemma FactorNotNegative(n: nat, x: int)
    requires n > 0 && n * x >= 0
    ensures x >= 0
  {
  }

  /** Neither the count, nor the sum, nor the sum of squares of the calls leaves its word. */
  ghost predicate Fits(cs: seq<Call>) {
    |cs| < WORD && SumDurations(cs) < WORD && SumCosts(cs) <= MAX_WORD
  }

  /** The host's variance term, with the micro-controller's base of 256. */
  function Variance(report: Report): int {
    report.count * (report.sumsq * 256) - report.sum * report.sum
  }

  /**
   * For every report of every run, unless the count, the sum or the sum of squares has left
   * its word: the host's variance term is at least the exact one of the calls that the
   * report covers, and therefore never negative.
   */
  lemma HostVarianceNotNegative(s: Stats, cs: seq<Call>, c: Call)
    requires s.count == s.sum == s.sumsq == 0
    ensures var report, covered := Updated(Run(s, cs), c).1, Since(s, cs) + [c];
            report.Some? && Fits(covered) ==>
              && report.value.count >= 1
              && Variance(report.value)
                 >= |covered| * SumSquares(covered) - SumDurations(covered) * SumDurations(covered)
                 >= 0
  {
    hide Cost, Duration, Updated, Since, Run, SumDurations, SumSquares, SumCosts, Variance;
    var report, covered := Updated(Run(s, cs), c).1, Since(s, cs) + [c];
    if report.Some? && Fits(covered) {
      ReportCovers(s, cs, c);
      CostsCover(covered);
      CauchySchwarz(covered);
      VarianceCovers(report.value, |covered|, SumDurations(covered), SumSquares(covered));
    }
  }

  lemma VarianceCovers(report: Report, n: nat, sum: nat, squares: nat)
    requires report.count == n && report.sum == sum
    requires 256 * report.sumsq >= squares && sum * sum <= n * squares
    ensures Variance(report) >= n * squares - sum * sum >= 0
  {
    Products(report.count, report.count, squares, 256 * report.sumsq);
  }

  // ----- The time of the last report is the true clock -----

  /** The words hold the 64-bit clock `t`, its high part modulo a word. */
  ghost predicate Marks(s: Stats, t: nat) {
    s.sendTime == t % WORD && s.high == t / WORD % WORD
  }

  /** The true times of the calls: each less than a word minus a period after the one before. */
  ghost predicate TimedAt(start: nat, cs: seq<Call>, times: seq<nat>, k: nat)
    requires k < |cs| == |times|
  {
    var before := if k == 0 then start else times[k - 1];
    before <= times[k] < before + (WORD - PERIOD) && cs[k].now == times[k] % WORD
  }

  ghost predicate Timed(start: nat, cs: seq<Call>, times: seq<nat>) {
    |times| == |cs| && forall k | 0 <= k < |cs| :: TimedAt(start, cs, times, k)
  }

  /** The true time of the last report of a run. */
  function LastReport(s: Stats, start: nat, cs: seq<Call>, times: seq<nat>): nat
    requires |times| == |cs|
  {
    if cs == [] then start
    else
      var n := |cs| - 1;
      if Reports(Run(s, cs[..n]), cs[n]) then times[n] else LastReport(s, start, cs[..n], times[..n])
  }

  /** Less than one wrap after the mark, the elapsed time and the carry are read off the low word. */
  lemma WithinOneWrap(mark: nat, t: nat)
    requires mark <= t < mark + WORD
    ensures (t % WORD - mark % WORD) % WORD == t - mark
    ensures t / WORD == mark / WORD + (if t % WORD < mark % WORD then 1 else 0)
  {
    var q, r := mark / WORD, mark % WORD;
    var e := t - mark;
    assert t == q * WORD + (r + e);
    if r + e < WORD {
      assert t / WORD == q && t % WORD == r + e;
    } else {
      assert t / WORD == q + 1 && t % WORD == r + e - WORD;
    }
  }

  lemma UpdateMarks(s: Stats, mark: nat, c: Call, t: nat)
    requires Marks(s, mark) && mark <= t < mark + WORD && c.now == t % WORD
    ensures Reports(s, c) <==> t - mark >= PERIOD
    ensures Marks(Updated(s, c).0, if Reports(s, c) then t else mark)
  {
    hide Cost, Duration;
    WithinOneWrap(mark, t);
    Carry(mark / WORD);
  }

  lemma Carry(q: nat)
    ensures (q % WORD + 1) % WORD == (q + 1) % WORD
  {
    AddModulo(q, 1);
  }

  /**
   * Over any run whose calls are close enough together, the send time and its high word are
   * the true clock of the last report: no wrap is missed, none is counted twice.
   */
  lemma {:induction false} RunMarksLastReport(s: Stats, start: nat, cs: seq<Call>, times: seq<nat>)
    requires Marks(s, start) && Timed(start, cs, times)
    ensures var last := LastReport(s, start, cs, times);
            && Marks(Run(s, cs), last)
            && last <= (if cs == [] then start else times[|cs| - 1]) < last + PERIOD
  {
    hide Marks, Updated, Reports;
    if cs != [] {
      var n := |cs| - 1;
      forall k | 0 <= k < n ensures TimedAt(start, cs[..n], times[..n], k) {
        assert TimedAt(start, cs, times, k);
      }
      assert TimedAt(start, cs, times, n);
      RunMarksLastReport(s, start, cs[..n], times[..n]);
      UpdateMarks(Run(s, cs[..n]), LastReport(s, start, cs[..n], times[..n]), cs[n], times[n]);
    }
  }

  /** The reply to an uptime query: the high word, corrected for a wrap since the last report. */
  function UptimeReply(s: Stats, now: word): (word, word) {
    ((s.high + if now < s.sendTime then 1 else 0) % WORD, now)
  }

  /** After any such run, an uptime query in time reports the true 64-bit clock. */
  lemma UptimeIsTrueClock(s: Stats, start: nat, cs: seq<Call>, times: seq<nat>, t: nat)
    requires Marks(s, start) && Timed(start, cs, times)
    requires (if cs == [] then start else times[|cs| - 1]) <= t < LastReport(s, start, cs, times) + WORD
    ensures var (high, low) := UptimeReply(Run(s, cs), t % WORD);
            high * WORD + low == t % (WORD * WORD)
  {
    hide Run, LastReport;
    RunMarksLastReport(s, start, cs, times);
    ReplyIsTrueClock(Run(s, cs), LastReport(s, start, cs, times), t);
  }

  lemma ReplyIsTrueClock(s: Stats, mark: nat, t: nat)
    requires Marks(s, mark) && mark <= t < mark + WORD
    ensures var (high, low) := UptimeReply(s, t % WORD);
            high * WORD + low == t % (WORD * WORD)
  {
    WithinOneWrap(mark, t);
    Carry(mark / WORD);
    SplitDouble(t);
  }

  lemma SplitDouble(t: nat)
    ensures t / WORD % WORD * WORD + t % WORD == t % (WORD * WORD)
  {
    var q, r := t / WORD, t % WORD;
    var a, b := q / WORD, q % WORD;
    assert t == a * (WORD * WORD) + (b * WORD + r);
    assert 0 <= b * WORD + r < WORD * WORD;
  }

  // ----- Tasks that follow one another cannot overflow the sum -----

  /** Every task starts, at a true time, after the end of the one before it. */
  ghost predicate FollowsAt(start: nat, cs: seq<Call>, starts: seq<nat>, times: seq<nat>, k: nat)
    requires k < |cs| == |times| == |starts|
  {
    var before := if k == 0 then start else times[k - 1];
    before <= starts[k] <= times[k] && cs[k].start == starts[k] % WORD
  }

  ghost predicate Follow(start: nat, cs: seq<Call>, starts: seq<nat>, times: seq<nat>) {
    Timed(start, cs, times) && |starts| == |cs| && forall k | 0 <= k < |cs| :: FollowsAt(start, cs, starts, times, k)
  }

  lemma FollowPrefix(start: nat, cs: seq<Call>, starts: seq<nat>, times: seq<nat>)
    requires Follow(start, cs, starts, times) && cs != []
    ensures var n := |cs| - 1; Follow(start, cs[..n], starts[..n], times[..n])
  {
    var n := |cs| - 1;
    forall k | 0 <= k < n
      ensures TimedAt(start, cs[..n], times[..n], k) && FollowsAt(start, cs[..n], starts[..n], times[..n], k)
    {
      assert TimedAt(start, cs, times, k) && FollowsAt(start, cs, starts, times, k);
    }
  }

  /** A task takes no longer than what has passed since the one before it. */
  lemma DurationFits(start: nat, cs: seq<Call>, starts: seq<nat>, times: seq<nat>, k: nat)
    requires Follow(start, cs, starts, times) && k < |cs|
    ensures Duration(cs[k]) <= times[k] - if k == 0 then start else times[k - 1]
  {
    assert TimedAt(start, cs, times, k) && FollowsAt(start, cs, starts, times, k);
    WithinOneWrap(starts[k], times[k]);
  }

  /** The durations since the last report add up to no more than the time since then. */
  lemma {:induction false} SumIsElapsed(s: Stats, start: nat, cs: seq<Call>, starts: seq<nat>, times: seq<nat>)
    requires Follow(start, cs, starts, times)
    ensures SumDurations(Since(s, cs))
         <= (if cs == [] then start else times[|cs| - 1]) - LastReport(s, start, cs, times)
  {
    FollowLengths(start, cs, starts, times);
    hide Duration, Reports, Follow;
    if cs != [] {
      var n := |cs| - 1;
      FollowPrefix(start, cs, starts, times);
      SumIsElapsed(s, start, cs[..n], starts[..n], times[..n]);
      DurationFits(start, cs, starts, times, n);
      assert times[..n] != [] ==> times[..n][n - 1] == times[n - 1];
      SumNext(Since(s, cs[..n]), cs[n]);
    }
  }

  lemma FollowLengths(start: nat, cs: seq<Call>, starts: seq<nat>, times: seq<nat>)
    requires Follow(start, cs, starts, times)
    ensures |starts| == |times| == |cs|
  {
  }

  lemma SumNext(cs: seq<Call>, c: Call)
    ensures SumDurations(cs + [c]) == SumDurations(cs) + Duration(c)
  {
    assert (cs + [c])[..|cs|] == cs;
  }

  /**
   * For every report of every run of tasks that follow one another, the sum of durations has
   * not wrapped; so the host's variance term is not negative unless there were 2^32 tasks or
   * the sum of squares has left its word.
   */
  lemma TasksInOrder(s: Stats, start: nat, cs: seq<Call>, starts: seq<nat>, times: seq<nat>)
    requires s.count == s.sum == s.sumsq == 0 && Marks(s, start) && cs != [] && Follow(start, cs, starts, times)
    ensures var n := |cs| - 1;
            var report, covered := Updated(Run(s, cs[..n]), cs[n]).1, Since(s, cs[..n]) + [cs[n]];
            && SumDurations(covered) < WORD
            && (report.Some? && |covered| < WORD && SumCosts(covered) <= MAX_WORD ==>
                && report.value.count >= 1 && report.value.sum == SumDurations(covered) && Variance(report.value) >= 0)
  {
    hide Cost, Duration, Updated, Since, Run, SumDurations, SumSquares, SumCosts, Variance, LastReport, Marks;
    var n := |cs| - 1;
    FollowPrefix(start, cs, starts, times);
    SumIsElapsed(s, start, cs[..n], starts[..n], times[..n]);
    DurationFits(start, cs, starts, times, n);
    SumNext(Since(s, cs[..n]), cs[n]);
    RunMarksLastReport(s, start, cs[..n], times[..n]);
    assert TimedAt(start, cs, times, n);
    HostVarianceNotNegative(s, cs[..n], cs[n]);
    if Updated(Run(s, cs[..n]), cs[n]).1.Some? {
      ReportCovers(s, cs[..n], cs[n]);
    }
  }
}
