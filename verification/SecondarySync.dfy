/** Re-timing of a secondary micro-controller against the primary one. */
module SecondarySync {
  import opened Results
  import opened Clock = ClockSync

  /** A linear map between print time and clock. */
  datatype Adjustment = Adjustment(offset: real, freq: real)

  function PrintTimeToClock(adj: Adjustment, printTime: real): int {
    Truncate((printTime - adj.offset) * adj.freq)
  }

  function ClockToPrintTime(adj: Adjustment, clock: int): real
    requires adj.freq != 0.0
  {
    clock as real / adj.freq + adj.offset
  }

  /** The print time that the primary's estimate gives for a system time, before truncation. */
  function MainPrintTime(est: Estimate, mcuFreq: real, eventTime: real): real
    requires mcuFreq != 0.0
  {
    ((eventTime - est.time) * est.freq + est.clock) / mcuFreq
  }

  datatype CalibrationError = DivisionByZero

  /** Everything that one calibration computes. */
  datatype Calibration = Calibration(
    sync1PrintTime: real, sync2PrintTime: real, sync2SysTime: real,
    sync1Clock: int, sync2Clock: int, adj: Adjustment)

  /** The inputs of a calibration besides the secondary's own adjustment. */
  datatype Inputs = Inputs(main: Estimate, mainFreq: real, own: Estimate, printTime: real, eventTime: real)

  function RealMax(a: real, b: real): real {
    if a < b then b else a
  }

  function Sync1PrintTime(i: Inputs): real
    requires i.mainFreq != 0.0
  {
    RealMax(i.printTime, MainPrintTime(i.main, i.mainFreq, i.eventTime))
  }

  function Sync2PrintTime(i: Inputs, lastSyncTime: real): real
    requires i.mainFreq != 0.0
  {
    var estPrintTime := MainPrintTime(i.main, i.mainFreq, i.eventTime);
    RealMax(RealMax(Sync1PrintTime(i) + 4.0, lastSyncTime),
            i.printTime + 2.5 * (i.printTime - estPrintTime))
  }

  /** The system time at which the primary's estimate reaches a print time. */
  function SystemTimeOf(i: Inputs, printTime: real): real
    requires i.main.freq != 0.0
  {
    i.main.time + (printTime * i.mainFreq - i.main.clock) / i.main.freq
  }

  function Calibrate(adj: Adjustment, lastSyncTime: real, i: Inputs): Result<Calibration, CalibrationError> {
    if i.mainFreq == 0.0 || i.main.freq == 0.0 then Failure(DivisionByZero)
    else
      var sync1, sync2 := Sync1PrintTime(i), Sync2PrintTime(i, lastSyncTime);
      var sysTime := SystemTimeOf(i, sync2);
      var clock1, clock2 := PrintTimeToClock(adj, sync1), ClockAt(i.own, sysTime);
      assert sync2 - sync1 >= 4.0;
      var freq := (clock2 - clock1) as real / (sync2 - sync1);
      if freq == 0.0 then Failure(DivisionByZero)
      else Success(Calibration(sync1, sync2, sysTime, clock1, clock2,
                               Adjustment(sync1 - clock1 as real / freq, freq)))
  }

  // ----- Properties -----

  lemma QuotientTimes(a: real, b: real)
    requires b != 0.0
    ensures a / b * b == a
    ensures a * b / b == a
  {
  }

  lemma TruncateWhole(n: int)
    ensures Truncate(n as real) == n
  {
  }

  /** An adjustment through a point maps the point's print time to its clock, and back. */
  lemma ThroughPoint(printTime: real, clock: int, freq: real)
    requires freq != 0.0
    ensures var adj := Adjustment(printTime - clock as real / freq, freq);
            PrintTimeToClock(adj, printTime) == clock && ClockToPrintTime(adj, clock) == printTime
  {
    QuotientTimes(clock as real, freq);
    TruncateWhole(clock);
  }

  /** Two points on one line: the offset computed from the first is the one computed from the second. */
  lemma ThroughBothPoints(t1: real, c1: int, t2: real, c2: int)
    requires t1 < t2 && c1 != c2
    ensures var freq := (c2 - c1) as real / (t2 - t1);
            freq != 0.0 && t1 - c1 as real / freq == t2 - c2 as real / freq
  {
    var d, dc := t2 - t1, (c2 - c1) as real;
    var freq := dc / d;
    QuotientTimes(dc, d);
    assert freq * d == dc;
    QuotientTimes(d, freq);
    assert d == dc / freq;
    Distributes(c2 as real, c1 as real, freq);
  }

  lemma Distributes(a: real, b: real, c: real)
    requires c != 0.0
    ensures (a - b) / c == a / c - b / c
  {
    var x, y, z := (a - b) / c, a / c, b / c;
    assert x * c == a - b && y * c == a && z * c == b;
    assert (x - (y - z)) * c == 0.0;
  }

  /** At its own system time, the primary's estimate gives exactly the print time. */
  lemma SystemTimeInverts(i: Inputs, printTime: real)
    requires i.mainFreq != 0.0 && i.main.freq != 0.0
    ensures MainPrintTime(i.main, i.mainFreq, SystemTimeOf(i, printTime)) == printTime
    ensures ClockAt(i.main, SystemTimeOf(i, printTime)) == Truncate(printTime * i.mainFreq)
  {
    var distance := printTime * i.mainFreq - i.main.clock;
    QuotientTimes(distance, i.main.freq);
    assert (SystemTimeOf(i, printTime) - i.main.time) * i.main.freq == distance;
    QuotientTimes(printTime, i.mainFreq);
  }

  /**
   * Every calibration that succeeds keeps the old clock at the first print time, maps the
   * second print time to the secondary's clock at the system time where the primary reaches
   * it, keeps the two at least four seconds apart, and starts no earlier than requested.
   */
  lemma CalibrationMeets(adj: Adjustment, lastSyncTime: real, i: Inputs)
    requires Calibrate(adj, lastSyncTime, i).Success?
    ensures var c := Calibrate(adj, lastSyncTime, i).value;
            && c.adj.freq != 0.0 && i.mainFreq != 0.0
            && PrintTimeToClock(c.adj, c.sync1PrintTime) == PrintTimeToClock(adj, c.sync1PrintTime) == c.sync1Clock
            && PrintTimeToClock(c.adj, c.sync2PrintTime) == ClockAt(i.own, c.sync2SysTime) == c.sync2Clock
            && ClockToPrintTime(c.adj, c.sync2Clock) == c.sync2PrintTime
            && MainPrintTime(i.main, i.mainFreq, c.sync2SysTime) == c.sync2PrintTime
            && ClockAt(i.main, c.sync2SysTime) == Truncate(c.sync2PrintTime * i.mainFreq)
            && i.printTime <= c.sync1PrintTime && MainPrintTime(i.main, i.mainFreq, i.eventTime) <= c.sync1PrintTime
            && c.sync1PrintTime + 4.0 <= c.sync2PrintTime
            && lastSyncTime <= c.sync2PrintTime
            && (var lead := i.printTime - MainPrintTime(i.main, i.mainFreq, i.eventTime);
                && i.printTime + 2.5 * lead <= c.sync2PrintTime
                && c.sync2PrintTime in {c.sync1PrintTime + 4.0, lastSyncTime, i.printTime + 2.5 * lead})
  {
    hide PrintTimeToClock, ClockToPrintTime, ClockAt, MainPrintTime, SystemTimeOf;
    var c := Calibrate(adj, lastSyncTime, i).value;
    SystemTimeInverts(i, c.sync2PrintTime);
    ThroughPoint(c.sync1PrintTime, c.sync1Clock, c.adj.freq);
    ThroughBothPoints(c.sync1PrintTime, c.sync1Clock, c.sync2PrintTime, c.sync2Clock);
    ThroughPoint(c.sync2PrintTime, c.sync2Clock, c.adj.freq);
  }

  /** A calibration fails exactly when a divisor is zero. */
  lemma CalibrationFails(adj: Adjustment, lastSyncTime: real, i: Inputs)
    ensures Calibrate(adj, lastSyncTime, i).Failure?
       <==> i.mainFreq == 0.0 || i.main.freq == 0.0
            || PrintTimeToClock(adj, Sync1PrintTime(i))
               == ClockAt(i.own, SystemTimeOf(i, Sync2PrintTime(i, lastSyncTime)))
  {
    hide PrintTimeToClock, ClockAt, MainPrintTime, SystemTimeOf;
    if i.mainFreq != 0.0 && i.main.freq != 0.0 {
      var d := Sync2PrintTime(i, lastSyncTime) - Sync1PrintTime(i);
      var dc := ClockAt(i.own, SystemTimeOf(i, Sync2PrintTime(i, lastSyncTime))) - PrintTimeToClock(adj, Sync1PrintTime(i));
      QuotientTimes(dc as real, d);
    }
  }

  /** The adjustment and the last synchronisation time after one calibration, which may fail. */
  function Step(adj: Adjustment, lastSyncTime: real, i: Inputs): (Adjustment, real) {
    match Calibrate(adj, lastSyncTime, i)
    case Failure(_) => (adj, lastSyncTime)
    case Success(c) => (c.adj, c.sync2PrintTime)
  }

  function RunAll(adj: Adjustment, lastSyncTime: real, steps: seq<Inputs>): (Adjustment, real)
    decreases |steps|
  {
    if steps == [] then (adj, lastSyncTime)
    else
      var (adj', last') := Step(adj, lastSyncTime, steps[0]);
      RunAll(adj', last', steps[1..])
  }

  /** Over any sequence of calibrations the last synchronisation time never goes back. */
  lemma {:induction false} SyncTimeNeverGoesBack(adj: Adjustment, lastSyncTime: real, steps: seq<Inputs>)
    ensures lastSyncTime <= RunAll(adj, lastSyncTime, steps).1
    decreases |steps|
  {
    if steps != [] {
      var (adj', last') := Step(adj, lastSyncTime, steps[0]);
      SyncTimeNeverGoesBack(adj', last', steps[1..]);
    }
  }

  // ----- The object -----

  class SecondarySync {
    const main: Clock.ClockSync
    const base: Clock.ClockSync
    var clockAdj: Adjustment
    var lastSyncTime: real

    constructor (main: Clock.ClockSync, base: Clock.ClockSync)
      ensures this.main == main && this.base == base
      ensures clockAdj == Adjustment(0.0, 1.0) && lastSyncTime == 0.0
    {
      this.main, this.base := main, base;
      clockAdj, lastSyncTime := Adjustment(0.0, 1.0), 0.0;
    }

    function CurrentInputs(printTime: real, eventTime: real): Inputs
      reads main, base
    {
      Inputs(main.clockEst, main.mcuFreq, base.clockEst, printTime, eventTime)
    }

    /** One calibration; on a division error the object is unchanged. */
    method CalibrateClock(printTime: real, eventTime: real) returns (r: Result<Adjustment, CalibrationError>)
      modifies this
      ensures var c := Calibrate(old(clockAdj), old(lastSyncTime), CurrentInputs(printTime, eventTime));
              && (c.Failure? ==> r == Failure(c.error) && clockAdj == old(clockAdj) && lastSyncTime == old(lastSyncTime))
              && (c.Success? ==> r == Success(c.value.adj) && clockAdj == c.value.adj
                                 && lastSyncTime == c.value.sync2PrintTime)
    {
      hide ClockAt, PrintTimeToClock;
      ghost var i := CurrentInputs(printTime, eventTime);
      if main.mcuFreq == 0.0 { return Failure(DivisionByZero); }
      var estMainClock := (eventTime - main.clockEst.time) * main.clockEst.freq + main.clockEst.clock;
      var estPrintTime := estMainClock / main.mcuFreq;
      assert estPrintTime == MainPrintTime(i.main, i.mainFreq, i.eventTime);
      hide MainPrintTime;
      var sync1 := RealMax(printTime, estPrintTime);
      assert sync1 == Sync1PrintTime(i);
      hide Sync1PrintTime;
      var sync2 := RealMax(RealMax(sync1 + 4.0, lastSyncTime), printTime + 2.5 * (printTime - estPrintTime));
      assert sync2 == Sync2PrintTime(i, lastSyncTime) && sync2 - sync1 >= 4.0;
      hide Sync2PrintTime;
      if main.clockEst.freq == 0.0 { return Failure(DivisionByZero); }
      var sync2MainClock := sync2 * main.mcuFreq;
      var sync2SysTime := main.clockEst.time + (sync2MainClock - main.clockEst.clock) / main.clockEst.freq;
      var sync1Clock := PrintTimeToClock(clockAdj, sync1);
      var sync2Clock := base.GetClock(sync2SysTime);
      assert sync2SysTime == SystemTimeOf(i, sync2);
      hide SystemTimeOf;
      var freq := (sync2Clock - sync1Clock) as real / (sync2 - sync1);
      if freq == 0.0 { return Failure(DivisionByZero); }
      var offset := sync1 - sync1Clock as real / freq;
      clockAdj := Adjustment(offset, freq);
      lastSyncTime := sync2;
      return Success(clockAdj);
    }
  }
}
