/**
 * The reader of g-code lines: input arrives in chunks, also while earlier lines are being
 * processed, is split into lines, queued, executed in batches, and acknowledged.
 *
 * The reader is a state machine over its steps. A handler is an arbitrary sequence of
 * acknowledgements and responses that ends normally or by raising; further input may be
 * read between any two steps.
 */
module GCodeInput {
  import opened Results
  import opened Text

  const MAX_READ := 4096
  const QUEUE_LIMIT := 20

  datatype Response = Ok(msg: string) | Error(msg: string) | Raw(msg: string)

  datatype Outcome = Completed | CommandError(msg: string) | InternalError(msg: string)

  datatype Step =
    | Read(data: string) | ReadFailed
    | NextBatch | StartLine
    | Ack(msg: string) | Respond(msg: string) | FinishLine(outcome: Outcome)

  /** The reader's fields, the lines in flight, and the history of the run. */
  datatype State = State(
    partial: string, pending: seq<string>, processing: bool, listening: bool,
    batch: seq<string>, running: Option<string>, needAck: bool,
    input: string, executed: seq<string>, answers: seq<seq<Response>>, answering: seq<Response>)

  const START := State("", [], false, true, [], None, false, "", [], [], [])

  // ----- Specification of the steps -----

  predicate Enabled(s: State, step: Step) {
    match step
    case Read(data) => s.listening && |data| <= MAX_READ
    case ReadFailed => s.listening
    case NextBatch => s.processing && s.running.None? && s.batch == []
    case StartLine => s.processing && s.running.None? && s.batch != []
    case _ => s.running.Some?
  }

  /** The top of the processing loop: swap in a fresh queue, or stop and listen again. */
  function LoopTop(s: State): State {
    if s.pending != [] then s.(batch := s.pending, pending := [])
    else s.(processing := false, listening := true)
  }

  function AfterRead(s: State, data: string): State {
    var lines := Split(data);
    var joined := [s.partial + lines[0]] + lines[1..];
    var n := |joined| - 1;
    var s := s.(partial := joined[n], pending := s.pending + joined[..n], input := s.input + data);
    if s.processing then (if |s.pending| >= QUEUE_LIMIT then s.(listening := false) else s)
    else LoopTop(s.(processing := true))
  }

  /** An acknowledgement is given once; later ones do nothing. */
  function Acknowledged(s: State, msg: string): State {
    if s.needAck then s.(needAck := false, answering := s.answering + [Ok(msg)]) else s
  }

  /** An error that a handler raised is reported. */
  function Reported(s: State, outcome: Outcome): State {
    match outcome
    case Completed => s
    case CommandError(msg) => s.(answering := s.answering + [Error(msg)])
    case InternalError(msg) => s.(answering := s.answering + [Error(msg)])
  }

  /** The running line becomes an executed one. */
  function Retired(s: State): State
    requires s.running.Some?
  {
    s.(running := None, executed := s.executed + [s.running.value],
       answers := s.answers + [s.answering], answering := [])
  }

  function Finished(s: State, outcome: Outcome): State
    requires s.running.Some?
  {
    Retired(Acknowledged(Reported(s, outcome), ""))
  }

  function Apply(s: State, step: Step): State
    requires Enabled(s, step)
  {
    match step
    case Read(data) => AfterRead(s, data)
    case ReadFailed => s
    case NextBatch => LoopTop(s)
    case StartLine => s.(running := Some(s.batch[0]), batch := s.batch[1..], needAck := true)
    case Ack(msg) => Acknowledged(s, msg)
    case Respond(msg) => s.(answering := s.answering + [Raw(msg)])
    case FinishLine(outcome) => Finished(s, outcome)
  }

  /** A run: a sequence of steps, each enabled where it is taken. */
  ghost predicate Reaches(s: State, steps: seq<Step>, t: State)
    decreases |steps|
  {
    if steps == [] then s == t
    else Enabled(s, steps[0]) && Reaches(Apply(s, steps[0]), steps[1..], t)
  }

  // ----- What every run keeps -----

  function InFlight(s: State): seq<string> {
    (match s.running case None => [] case Some(line) => [line]) + s.batch
  }

  function Oks(rs: seq<Response>): nat {
    if rs == [] then 0 else Oks(rs[..|rs| - 1]) + (if rs[|rs| - 1].Ok? then 1 else 0)
  }

  /** Everything that has been answered, in order. */
  function Log(s: State): seq<Response> {
    Concat(s.answers) + s.answering
  }

  function Concat(rss: seq<seq<Response>>): seq<Response> {
    if rss == [] then [] else Concat(rss[..|rss| - 1]) + rss[|rss| - 1]
  }

  /** Executed, in flight, queued and partial input are exactly the input split at newlines. */
  ghost predicate LinesAccounted(s: State) {
    s.executed + InFlight(s) + s.pending + [s.partial] == Split(s.input)
  }

  /** Every executed line has been acknowledged exactly once, the running one at most once. */
  ghost predicate Answered(s: State) {
    && |s.answers| == |s.executed|
    && (forall k | 0 <= k < |s.answers| :: Oks(s.answers[k]) == 1)
    && (s.running.Some? ==> Oks(s.answering) == if s.needAck then 0 else 1)
    && (s.running.None? ==> s.answering == [])
  }

  /** While listening the queue is short, it never exceeds one more read, and an idle reader listens. */
  ghost predicate Bounded(s: State) {
    && |s.pending| <= QUEUE_LIMIT - 1 + MAX_READ
    && (s.listening ==> |s.pending| <= QUEUE_LIMIT - 1)
    && (!s.processing ==> s.listening && s.pending == [] && InFlight(s) == [])
  }

  ghost predicate Sound(s: State) {
    LinesAccounted(s) && Answered(s) && Bounded(s)
  }

  lemma {:induction false} SplitCount(s: string)
    ensures |Split(s)| <= |s| + 1
  {
    if s != "" {
      SplitCount(s[1..]);
    }
  }

  /** A chunk extends the last, partial line and appends the lines after it. */
  lemma ReadAccounts(done: seq<string>, partial: string, input: string, data: string)
    requires done + [partial] == Split(input)
    ensures var lines := Split(data);
            var joined := [partial + lines[0]] + lines[1..];
            done + joined == Split(input + data)
  {
    SplitAppend(input, data);
    var before := Split(input);
    assert before[..|before| - 1] == done && before[|before| - 1] == partial;
  }

  lemma ReadKeeps(s: State, data: string)
    requires Sound(s) && Enabled(s, Read(data))
    ensures Sound(AfterRead(s, data))
  {
    hide Split, Oks;
    var lines := Split(data);
    var joined := [s.partial + lines[0]] + lines[1..];
    var n := |joined| - 1;
    SplitCount(data);
    var done := s.executed + InFlight(s) + s.pending;
    ReadAccounts(done, s.partial, s.input, data);
    assert joined == joined[..n] + [joined[n]];
    assert done + joined == s.executed + InFlight(s) + (s.pending + joined[..n]) + [joined[n]];
    var queued := s.(partial := joined[n], pending := s.pending + joined[..n], input := s.input + data);
    assert LinesAccounted(queued);
    if !s.processing {
      LoopTopKeeps(queued.(processing := true));
    }
  }

  /** Taking up the queue as the next batch, or stopping, moves no line out of order. */
  lemma LoopTopKeeps(s: State)
    requires LinesAccounted(s) && Answered(s) && s.processing && InFlight(s) == []
    requires |s.pending| <= QUEUE_LIMIT - 1 + MAX_READ
    ensures Sound(LoopTop(s))
  {
    hide Split, Oks;
    assert s.running.None? && s.batch == [];
    var t := LoopTop(s);
    assert InFlight(t) + t.pending == s.pending;
    assert t.executed + InFlight(t) + t.pending == s.executed + InFlight(s) + s.pending;
  }

  lemma OksNext(rs: seq<Response>, r: Response)
    ensures Oks(rs + [r]) == Oks(rs) + (if r.Ok? then 1 else 0)
  {
    assert (rs + [r])[..|rs|] == rs;
  }

  lemma FinishKeeps(s: State, outcome: Outcome)
    requires Sound(s) && s.running.Some?
    ensures Sound(Finished(s, outcome))
  {
    hide Split, Oks;
    OksNext(s.answering, Ok(""));
    if !outcome.Completed? {
      OksNext(s.answering, Error(outcome.msg));
      OksNext(s.answering + [Error(outcome.msg)], Ok(""));
    }
    var t := Finished(s, outcome);
    assert t.executed + InFlight(t) == s.executed + InFlight(s);
  }

  /** Every step keeps the accounts, the acknowledgements and the bounds. */
  lemma StepKeeps(s: State, step: Step)
    requires Sound(s) && Enabled(s, step)
    ensures Sound(Apply(s, step))
  {
    hide Split, Oks, AfterRead, Finished;
    match step
    case Read(data) => ReadKeeps(s, data);
    case ReadFailed =>
    case NextBatch =>
      assert InFlight(s) == [];
      LoopTopKeeps(s);
    case StartLine =>
      var t := Apply(s, step);
      assert InFlight(t) == InFlight(s);
      NoOks();
    case Ack(msg) => OksNext(s.answering, Ok(msg));
    case Respond(msg) => OksNext(s.answering, Raw(msg));
    case FinishLine(outcome) => FinishKeeps(s, outcome);
  }

  lemma NoOks()
    ensures Oks([]) == 0
  {
  }

  /**
   * For every chunking of the input and every interleaving of reads with line processing:
   * no line is lost, duplicated, split or reordered, every executed line is acknowledged
   * exactly once whatever its handler does, and the queue stays bounded.
   */
  lemma {:induction false} RunIsSound(s: State, steps: seq<Step>, t: State)
    requires Sound(s) && Reaches(s, steps, t)
    ensures Sound(t)
    decreases |steps|
  {
    hide Sound, Apply, Enabled;
    if steps != [] {
      StepKeeps(s, steps[0]);
      RunIsSound(Apply(s, steps[0]), steps[1..], t);
    }
  }

  lemma StartIsSound()
    ensures Sound(START)
  {
  }

  // ----- Every queue is worked off -----

  /** Steps of the processing loop itself: they take up a batch or stop, begin a line or end one. */
  predicate IsProgress(step: Step) {
    step.NextBatch? || step.StartLine? || step.FinishLine?
  }

  function Progress(steps: seq<Step>): nat {
    if steps == [] then 0 else (if IsProgress(steps[0]) then 1 else 0) + Progress(steps[1..])
  }

  predicate ReadFree(steps: seq<Step>) {
    forall k | 0 <= k < |steps| :: !steps[k].Read?
  }

  /** How many steps of the loop are left: two for each line, one for taking up the queue, one to stop. */
  function Work(s: State): nat {
    (if s.processing then 1 else 0) + (if s.pending != [] then 1 else 0)
    + 2 * |s.pending| + 2 * |s.batch| + (if s.running.Some? then 1 else 0)
  }

  lemma StepWorks(s: State, step: Step)
    requires Sound(s) && Enabled(s, step) && !step.Read?
    ensures Work(s) == Work(Apply(s, step)) + (if IsProgress(step) then 1 else 0)
    ensures Apply(s, step).input == s.input
  {
    hide LinesAccounted, Answered;
  }

  /** The reader is idle exactly if no work is left; otherwise the loop can go on. */
  lemma IdleOrBusy(s: State)
    requires Sound(s)
    ensures Work(s) == 0 <==> !s.processing
    ensures Work(s) == 0 ==> s.listening && s.executed + [s.partial] == Split(s.input)
    ensures Work(s) > 0 ==> exists step :: IsProgress(step) && Enabled(s, step)
  {
    hide Answered, Split;
    if Work(s) > 0 && s.processing {
      assert Enabled(s, NextBatch) || Enabled(s, StartLine) || Enabled(s, FinishLine(Completed));
    }
  }

  /**
   * For every run without further reads, whatever the handlers do and however often they
   * answer: each step of the loop leaves exactly one less to do. So the reader is idle after
   * exactly `Work(s)` of them, never stuck before; and then it listens, and has executed every
   * complete line of the input.
   */
  lemma {:induction false} RunDrains(s: State, steps: seq<Step>, t: State)
    requires Sound(s) && Reaches(s, steps, t) && ReadFree(steps)
    ensures Work(s) == Progress(steps) + Work(t)
    ensures !t.processing <==> Progress(steps) == Work(s)
    ensures t.processing ==> exists step :: IsProgress(step) && Enabled(t, step)
    ensures !t.processing ==> t.listening && t.executed + [t.partial] == Split(s.input)
    decreases |steps|
  {
    hide Sound, Apply, Enabled, Work, Split;
    if steps == [] {
      IdleOrBusy(s);
    } else {
      StepKeeps(s, steps[0]);
      StepWorks(s, steps[0]);
      RunDrains(Apply(s, steps[0]), steps[1..], t);
    }
  }

  /** Such a run always exists. */
  lemma {:induction false} Drains(s: State) returns (steps: seq<Step>, t: State)
    requires Sound(s)
    ensures Reaches(s, steps, t) && ReadFree(steps) && !t.processing
    decreases Work(s)
  {
    hide Sound, Apply, Enabled, Work, Split;
    IdleOrBusy(s);
    if !s.processing {
      steps, t := [], s;
    } else {
      var step :| IsProgress(step) && Enabled(s, step);
      StepKeeps(s, step);
      StepWorks(s, step);
      steps, t := Drains(Apply(s, step));
      steps := [step] + steps;
    }
  }

  // ----- The reader itself -----

  class GCodeIO {
    var partialInput: string
    var pendingCommands: seq<string>
    var isProcessingData: bool
    var isListening: bool
    /** The lines of the batch under way that have not been started. */
    var batch: seq<string>
    /** The line whose handler is under way, and whether it still needs an acknowledgement. */
    var running: Option<string>
    var needAck: bool
    var output: seq<Response>
    ghost var input: string
    ghost var executed: seq<string>
    ghost var answers: seq<seq<Response>>
    ghost var answering: seq<Response>

    ghost function Snapshot(): State
      reads this
    {
      State(partialInput, pendingCommands, isProcessingData, isListening, batch, running, needAck,
            input, executed, answers, answering)
    }

    /** The run so far is sound, and what was written is what the lines were answered. */
    ghost predicate Valid()
      reads this
    {
      Sound(Snapshot()) && output == Log(Snapshot())
    }

    constructor ()
      ensures Snapshot() == START && Valid() && output == []
    {
      partialInput, pendingCommands, isProcessingData, isListening := "", [], false, true;
      batch, running, needAck, output := [], None, false, [];
      input, executed, answers, answering := "", [], [], [];
      new;
      StartIsSound();
    }

    /** Reads a chunk; starts processing unless it interrupts processing that is under way. */
    method ProcessData(data: string)
      requires Valid() && Enabled(Snapshot(), Read(data))
      modifies this
      ensures Snapshot() == Apply(old(Snapshot()), Read(data)) && Valid()
    {
      StepKeeps(Snapshot(), Read(data));
      hide Sound, Split, Concat;
      var lines := Split(data);
      lines := [partialInput + lines[0]] + lines[1..];
      partialInput := lines[|lines| - 1];
      lines := lines[..|lines| - 1];
      pendingCommands := pendingCommands + lines;
      input := input + data;
      if isProcessingData {
        if |pendingCommands| >= QUEUE_LIMIT {
          isListening := false;
        }
        return;
      }
      isProcessingData := true;
      TakeBatch();
    }

    /** The top of the processing loop. */
    method TakeBatch()
      requires output == Log(Snapshot())
      modifies this
      ensures Snapshot() == LoopTop(old(Snapshot())) && output == Log(Snapshot())
    {
      if pendingCommands != [] {
        batch := pendingCommands;
        pendingCommands := [];
      } else {
        isProcessingData := false;
        if !isListening {
          isListening := true;
        }
      }
    }

    /** The start of a line: a command that still needs its acknowledgement. */
    method StartNextLine()
      requires Valid() && Enabled(Snapshot(), StartLine)
      modifies this
      ensures Snapshot() == Apply(old(Snapshot()), StartLine) && Valid()
    {
      StepKeeps(Snapshot(), StartLine);
      hide Sound, Concat;
      running, batch, needAck := Some(batch[0]), batch[1..], true;
    }

    /** An acknowledgement by the handler or after it; reports whether it was the first. */
    method Acknowledge(msg: string) returns (did: bool)
      requires output == Log(Snapshot())
      modifies this
      ensures Snapshot() == Acknowledged(old(Snapshot()), msg) && output == Log(Snapshot())
      ensures did == old(needAck)
      ensures output == old(output) + (if did then [Ok(msg)] else [])
    {
      if !needAck { return false; }
      output := output + [Ok(msg)];
      answering := answering + [Ok(msg)];
      needAck := false;
      return true;
    }

    /** The end of a handler: an error is reported, then the line is acknowledged if it has not been. */
    method FinishCurrentLine(outcome: Outcome)
      requires Valid() && Enabled(Snapshot(), FinishLine(outcome))
      modifies this
      ensures Snapshot() == Apply(old(Snapshot()), FinishLine(outcome)) && Valid()
    {
      StepKeeps(Snapshot(), FinishLine(outcome));
      hide Sound, Log, Acknowledged, Reported, Retired;
      ReportOutcome(outcome);
      var _ := Acknowledge("");
      Retire();
    }

    method ReportOutcome(outcome: Outcome)
      requires output == Log(Snapshot())
      modifies this
      ensures Snapshot() == Reported(old(Snapshot()), outcome) && output == Log(Snapshot())
    {
      match outcome {
        case Completed =>
        case CommandError(msg) =>
          output := output + [Error(msg)];
          answering := answering + [Error(msg)];
        case InternalError(msg) =>
          output := output + [Error(msg)];
          answering := answering + [Error(msg)];
      }
    }

    method Retire()
      requires running.Some? && output == Log(Snapshot())
      modifies this
      ensures Snapshot() == Retired(old(Snapshot())) && output == Log(Snapshot())
    {
      ConcatNext(answers, answering);
      executed, answers, answering := executed + [running.value], answers + [answering], [];
      running := None;
    }
  }

  lemma ConcatNext(rss: seq<seq<Response>>, rs: seq<Response>)
    ensures Concat(rss + [rs]) == Concat(rss) + rs
  {
    assert (rss + [rs])[..|rss|] == rss;
  }
}
