/** The host's reading of a statistics report. */
module McuStats {
  import opened Results
  import opened Statistics

  datatype StatsError = DivisionByZero

  /** The square of `count * deviation * frequency`, clamped at zero as the host clamps it. */
  function Spread(count: int, sum: int, sumsq: int, base: real): real {
    var diff := count as real * (sumsq as real * base) - (sum * sum) as real;
    if diff < 0.0 then 0.0 else diff
  }

  class McuStats {
    const mcuFreq: real
    const sumsqBase: real
    var tickAvg: real
    /** The square of the tick deviation. */
    var tickVariance: real
    var tickAwake: real

    constructor (mcuFreq: real, sumsqBase: real)
      ensures this.mcuFreq == mcuFreq && this.sumsqBase == sumsqBase
      ensures tickAvg == 0.0 && tickVariance == 0.0 && tickAwake == 0.0
    {
      this.mcuFreq, this.sumsqBase := mcuFreq, sumsqBase;
      tickAvg, tickVariance, tickAwake := 0.0, 0.0, 0.0;
    }

    method HandleStats(report: Report) returns (r: Result<(), StatsError>)
      modifies this
      ensures r.Failure? <==> report.count as real * mcuFreq == 0.0
      ensures r.Success? ==>
                var scale := report.count as real * mcuFreq;
                && tickAvg == report.sum as real / scale
                && tickVariance == Spread(report.count, report.sum, report.sumsq, sumsqBase) / scale / scale
                && mcuFreq != 0.0 && tickAwake == report.sum as real / mcuFreq
      ensures r.Failure? ==> tickAvg == old(tickAvg) && tickVariance == old(tickVariance) && tickAwake == old(tickAwake)
    {
      var scale := report.count as real * mcuFreq;
      if scale == 0.0 { return Failure(DivisionByZero); }
      var c := 1.0 / scale;
      tickAvg := report.sum as real * c;
      var tickSumsq := report.sumsq as real * sumsqBase;
      var diff := report.count as real * tickSumsq - (report.sum * report.sum) as real;
      var spread := if diff < 0.0 then 0.0 else diff;
      tickVariance := c * (c * spread);
      tickAwake := report.sum as real / mcuFreq;
      TimesInverse(report.sum as real, scale);
      TimesInverse(spread, scale);
      TimesInverse(spread / scale, scale);
      return Success(());
    }
  }

  lemma TimesInverse(x: real, scale: real)
    requires scale != 0.0
    ensures x * (1.0 / scale) == x / scale
  {
    var c := 1.0 / scale;
    assert c * scale == 1.0;
    assert (x * c) * scale == x * (c * scale);
  }

  /** With the micro-controller's base of 256 and words that have not overflowed, the clamp never acts. */
  lemma ClampNeverActs(s: Stats, cs: seq<Call>, c: Call)
    requires s.count == s.sum == s.sumsq == 0
    ensures var report := Updated(Run(s, cs), c).1;
            report.Some? && Fits(Since(s, cs) + [c]) ==>
              Spread(report.value.count, report.value.sum, report.value.sumsq, 256.0) == Variance(report.value) as real
  {
    hide Updated, Run, Since, Fits;
    HostVarianceNotNegative(s, cs, c);
    var report := Updated(Run(s, cs), c).1;
    if report.Some? {
      var r := report.value;
      assert r.count as real * (r.sumsq as real * 256.0) == (r.count * (r.sumsq * 256)) as real;
    }
  }
}
