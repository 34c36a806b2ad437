/** The host's clock from the uptime query on, against the micro-controller's true clock. */
module Handshake {
  import Mcu = Statistics
  import Host = ClockSync

  /**
   * End to end: the micro-controller keeps its uptime words over any run of statistics calls,
   * the host starts from one uptime reply and follows any run of clock replies; its extended
   * clock is then the micro-controller's true clock.
   */
  lemma HostFollowsMcu(stats: Mcu.Stats, start: nat, calls: seq<Mcu.Call>, times: seq<nat>, asked: nat,
                       freq: real, sentTime: real, replies: seq<Host.Event>, truths: seq<int>)
    requires Mcu.Marks(stats, start) && Mcu.Timed(start, calls, times)
    requires (if calls == [] then start else times[|calls| - 1]) <= asked
             < Mcu.LastReport(stats, start, calls, times) + Mcu.WORD
    requires asked < Mcu.WORD * Mcu.WORD
    requires Host.Reported(asked, replies, truths)
    ensures var (high, low) := Mcu.UptimeReply(Mcu.Run(stats, calls), asked % Mcu.WORD);
            Host.Run(Host.Uptime(Host.INITIAL, freq, high, low, sentTime), replies).lastClock
            == if replies == [] then asked else truths[|replies| - 1]
  {
    hide Mcu.Run, Mcu.LastReport, Host.Run;
    Mcu.UptimeIsTrueClock(stats, start, calls, times, asked);
    var (high, low) := Mcu.UptimeReply(Mcu.Run(stats, calls), asked % Mcu.WORD);
    assert asked % (Mcu.WORD * Mcu.WORD) == asked;
    Host.RunFollowsClock(Host.Uptime(Host.INITIAL, freq, high, low, sentTime), replies, truths);
  }
}
