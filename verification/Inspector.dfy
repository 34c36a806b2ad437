/** The bounded token inspector, and how its verdict relates to the decoder's. */
module Inspector {
  import opened Results
  import opened Bytes
  import opened TokenFormat
  import opened Scatterload

  datatype InspectError = TruncatedToken | ZeroCountField | InvalidDistance | Overrun

  datatype Record = Record(compressedOffset: nat, compressedSize: nat,
                           outputStart: nat, matchStart: nat,
                           literalCount: nat, matchLength: nat, distance: nat)

  datatype Inspection = Inspection(records: seq<Record>, consumed: nat)

  function ToInspectError(e: ReadError): InspectError {
    match e
    case Truncated => TruncatedToken
    case ZeroLiteralCount => ZeroCountField
  }

  /** The record of a token read at `position` when `output` bytes have been produced. */
  function RecordOf(reading: Reading, position: nat, output: nat): Record
    requires position <= reading.next && reading.token.length >= 0 && reading.token.distance >= 0
  {
    var t := reading.token;
    Record(position, reading.next - position, output, output + |t.literals|,
           |t.literals|, t.length, t.distance)
  }

  /** What inspecting from offset `position` returns or raises. */
  function InspectFrom(stream: seq<byte>, outputSize: int, position: nat, output: nat)
    : Result<Inspection, InspectError>
    decreases |stream| - position
  {
    if output >= outputSize then Success(Inspection([], position))
    else
      match ReadToken(stream, position, true)
      case Failure(e) => Failure(ToInspectError(e))
      case Success(reading) =>
        var t := reading.token;
        var matchStart := output + |t.literals|;
        if t.length != 0 && !(1 <= t.distance <= matchStart) then Failure(InvalidDistance)
        else if matchStart + t.length > outputSize then Failure(Overrun)
        else
          var rest :- InspectFrom(stream, outputSize, reading.next, matchStart + t.length);
          Success(Inspection([RecordOf(reading, position, output)] + rest.records, rest.consumed))
  }

  /** `r` with records put in front of those it found. */
  function After(done: seq<Record>, r: Result<Inspection, InspectError>): Result<Inspection, InspectError> {
    match r
    case Failure(e) => Failure(e)
    case Success(i) => Success(Inspection(done + i.records, i.consumed))
  }

  lemma AfterNothing(r: Result<Inspection, InspectError>)
    ensures After([], r) == r
  {
    if r.Success? {
      assert [] + r.value.records == r.value.records;
    }
  }

  lemma AfterOne(done: seq<Record>, one: Record, r: Result<Inspection, InspectError>)
    ensures After(done + [one], r) == After(done, After([one], r))
  {
    if r.Success? {
      assert (done + [one]) + r.value.records == done + ([one] + r.value.records);
    }
  }

  method Inspect(stream: seq<byte>, outputSize: int) returns (r: Result<Inspection, InspectError>)
    ensures r == InspectFrom(stream, outputSize, 0, 0)
  {
    hide ReadToken;
    var position: nat, output: nat, records := 0, 0, [];
    AfterNothing(InspectFrom(stream, outputSize, 0, 0));
    while output < outputSize
      invariant After(records, InspectFrom(stream, outputSize, position, output))
             == InspectFrom(stream, outputSize, 0, 0)
      decreases |stream| - position
    {
      var reading := TakeToken(stream, position, true);
      if reading.Failure? { return Failure(ToInspectError(reading.error)); }
      var t := reading.value.token;
      if t.length != 0 && !(1 <= t.distance <= output + |t.literals|) { return Failure(InvalidDistance); }
      var record := RecordOf(reading.value, position, output);
      AfterOne(records, record, InspectFrom(stream, outputSize, reading.value.next, output + |t.literals| + t.length));
      records := records + [record];
      if output + |t.literals| + t.length > outputSize { return Failure(Overrun); }
      position, output := reading.value.next, output + |t.literals| + t.length;
    }
    assert records + [] == records;
    return Success(Inspection(records, position));
  }

  // ----- What an accepted stream means -----

  /** The records tile the compressed range and the expanded range, each without gaps. */
  predicate Tiles(records: seq<Record>, position: nat, output: nat, consumed: nat, size: int) {
    if records == [] then position == consumed && output == size
    else
      var r := records[0];
      && r.compressedOffset == position && r.compressedSize > 0
      && r.outputStart == output && r.matchStart == output + r.literalCount
      && Tiles(records[1..], position + r.compressedSize, r.matchStart + r.matchLength, consumed, size)
  }

  /** A record is a token of the stream: its literals and its match are what stands in the output. */
  predicate Describes(stream: seq<byte>, bytes: seq<byte>, r: Record) {
    && r.outputStart <= r.matchStart <= r.matchStart + r.matchLength <= |bytes|
    && ReadToken(stream, r.compressedOffset, true)
       == Success(Reading(Token(bytes[r.outputStart..r.matchStart], r.matchLength, r.distance),
                          r.compressedOffset + r.compressedSize))
    && (r.matchLength != 0 ==> Repeats(bytes, r.matchStart, r.matchStart + r.matchLength, r.distance))
  }

  /** The bytes that a token appends. */
  function Appended(dst: seq<byte>, t: Token): (r: seq<byte>)
    requires t.length > 0 ==> 1 <= t.distance <= |dst| + |t.literals|
    ensures t.length >= 0 ==> |r| == |dst| + |t.literals| + t.length && dst + t.literals <= r
  {
    if t.length <= 0 then dst + t.literals else CopyMatch(dst + t.literals, t.distance, t.length)
  }

  /** One accepted token is one step of both loops. */
  lemma AcceptedStep(stream: seq<byte>, size: int, position: nat, dst: seq<byte>)
    returns (reading: Reading, rest: Inspection)
    requires |dst| < size && InspectFrom(stream, size, position, |dst|).Success?
    ensures ReadToken(stream, position, true) == Success(reading) && position < reading.next <= |stream|
    ensures reading.token.length >= 0 && reading.token.distance >= 0
    ensures reading.token.length > 0 ==> 1 <= reading.token.distance <= |dst| + |reading.token.literals|
    ensures |Appended(dst, reading.token)| <= size
    ensures Expand(stream, size, position, dst) == Expand(stream, size, reading.next, Appended(dst, reading.token))
    ensures InspectFrom(stream, size, reading.next, |Appended(dst, reading.token)|) == Success(rest)
    ensures InspectFrom(stream, size, position, |dst|)
         == Success(Inspection([RecordOf(reading, position, |dst|)] + rest.records, rest.consumed))
  {
    StrictReading(stream, position);
    hide ReadToken;
    reading := ReadToken(stream, position, true).value;
    rest := InspectFrom(stream, size, reading.next, |Appended(dst, reading.token)|).value;
  }

  /** An accepted stream expands to exactly the requested size, from any point of both loops. */
  lemma {:induction false} AcceptedExpands(stream: seq<byte>, size: int, position: nat, dst: seq<byte>)
    requires |dst| <= size
    requires InspectFrom(stream, size, position, |dst|).Success?
    ensures Expand(stream, size, position, dst).Success?
    ensures var expanded := Expand(stream, size, position, dst).value;
            && expanded.consumed == InspectFrom(stream, size, position, |dst|).value.consumed
            && |expanded.bytes| == size && dst <= expanded.bytes
    decreases |stream| - position
  {
    hide ReadToken;
    if |dst| < size {
      var reading, _ := AcceptedStep(stream, size, position, dst);
      AcceptedExpands(stream, size, reading.next, Appended(dst, reading.token));
    }
  }

  lemma NothingLeft(stream: seq<byte>, size: int, position: nat, output: nat)
    requires output >= size
    ensures InspectFrom(stream, size, position, output) == Success(Inspection([], position))
  {
  }

  /** The records of an accepted stream tile both ranges and describe the output. */
  lemma {:induction false} AcceptedRecords(stream: seq<byte>, size: int, position: nat, dst: seq<byte>,
                                           bytes: seq<byte>)
    requires |dst| <= size
    requires InspectFrom(stream, size, position, |dst|).Success?
    requires Expand(stream, size, position, dst).Success? && Expand(stream, size, position, dst).value.bytes == bytes
    ensures var inspected := InspectFrom(stream, size, position, |dst|).value;
            && Tiles(inspected.records, position, |dst|, inspected.consumed, size)
            && forall k | 0 <= k < |inspected.records| :: Describes(stream, bytes, inspected.records[k])
    decreases |stream| - position
  {
    hide ReadToken, Expand, Describes, CopyMatch, InspectFrom, Appended;
    if |dst| >= size {
      NothingLeft(stream, size, position, |dst|);
    } else {
      var reading, rest := AcceptedStep(stream, size, position, dst);
      var dst' := Appended(dst, reading.token);
      AcceptedExpands(stream, size, reading.next, dst');
      AcceptedRecords(stream, size, reading.next, dst', bytes);
      RecordDescribes(stream, position, dst, bytes, reading);
      var record := RecordOf(reading, position, |dst|);
      assert ([record] + rest.records)[1..] == rest.records;
    }
  }

  lemma RecordDescribes(stream: seq<byte>, position: nat, dst: seq<byte>, bytes: seq<byte>, reading: Reading)
    requires ReadToken(stream, position, true) == Success(reading)
    requires reading.token.length > 0 ==> 1 <= reading.token.distance <= |dst| + |reading.token.literals|
    requires Appended(dst, reading.token) <= bytes
    ensures Describes(stream, bytes, RecordOf(reading, position, |dst|))
  {
    hide ReadToken;
    var t := reading.token;
    var dst' := Appended(dst, t);
    assert forall k | 0 <= k < |dst'| :: bytes[k] == dst'[k];
    assert forall k | 0 <= k < |dst + t.literals| :: dst'[k] == (dst + t.literals)[k];
    assert bytes[|dst|..|dst| + |t.literals|] == t.literals;
  }

  /** A stream refused for anything but a zero count field fails in the decoder, or overruns. */
  lemma {:induction false} RefusedFrom(stream: seq<byte>, size: int, position: nat, dst: seq<byte>)
    requires |dst| <= size
    requires InspectFrom(stream, size, position, |dst|).Failure?
    requires InspectFrom(stream, size, position, |dst|).error != ZeroCountField
    ensures var r := Expand(stream, size, position, dst); r.Failure? || |r.value.bytes| > size
    decreases |stream| - position
  {
    StrictReading(stream, position);
    hide ReadToken;
    if ReadToken(stream, position, true).Success? {
      var Reading(t, next) := ReadToken(stream, position, true).value;
      var dst' := dst + t.literals;
      if t.length == 0 || 1 <= t.distance <= |dst'| {
        var dst'' := if t.length == 0 then dst' else CopyMatch(dst', t.distance, t.length);
        if |dst''| <= size {
          RefusedFrom(stream, size, next, dst'');
        }
      }
    }
  }

  /** No token that the decoder comes to read has a zero literal-count field. */
  ghost predicate CountsPresent(stream: seq<byte>, size: int, position: nat, dst: seq<byte>)
    decreases |stream| - position
  {
    |dst| >= size
    || (&& (ReadHeader(stream, position).Success? ==> ReadHeader(stream, position).value.count != 0)
        && match ReadToken(stream, position, false)
           case Failure(_) => true
           case Success(Reading(t, next)) =>
             (t.length == 0 || 1 <= t.distance <= |dst| + |t.literals|)
             ==> CountsPresent(stream, size, next, Appended(dst, t)))
  }

  /** On its way the inspector meets a zero count field only if the decoder does. */
  lemma {:induction false} CountsDecide(stream: seq<byte>, size: int, position: nat, dst: seq<byte>)
    requires |dst| <= size
    ensures var inspected := InspectFrom(stream, size, position, |dst|);
            && (inspected.Success? ==> CountsPresent(stream, size, position, dst))
            && (inspected == Failure(ZeroCountField) ==> !CountsPresent(stream, size, position, dst))
    decreases |stream| - position
  {
    StrictReading(stream, position);
    hide ReadToken, ReadHeader;
    if |dst| < size && ReadToken(stream, position, true).Success? {
      var Reading(t, next) := ReadToken(stream, position, true).value;
      if (t.length == 0 || 1 <= t.distance <= |dst| + |t.literals|) && |Appended(dst, t)| <= size {
        CountsDecide(stream, size, next, Appended(dst, t));
      }
    }
  }

  /**
   * The inspector's verdict, for every stream and every size: it accepts exactly the streams
   * that expand to exactly the requested size without the decoder reading a zero literal-count
   * field, and on those it agrees with the decoder about consumption, tiling and every
   * region's origin.
   */
  lemma InspectionVerdict(stream: seq<byte>, size: nat)
    ensures var inspected := InspectFrom(stream, size, 0, 0);
            var expanded := Expand(stream, size, 0, []);
            && (inspected.Success? <==>
                && expanded.Success? && |expanded.value.bytes| == size
                && CountsPresent(stream, size, 0, []))
            && (inspected.Success? ==>
                && inspected.value.consumed == expanded.value.consumed
                && Tiles(inspected.value.records, 0, 0, inspected.value.consumed, size)
                && forall k | 0 <= k < |inspected.value.records| ::
                     Describes(stream, expanded.value.bytes, inspected.value.records[k]))
  {
    hide InspectFrom, Expand, CountsPresent;
    CountsDecide(stream, size, 0, []);
    if InspectFrom(stream, size, 0, 0).Success? {
      AcceptedExpands(stream, size, 0, []);
      AcceptedRecords(stream, size, 0, [], Expand(stream, size, 0, []).value.bytes);
    } else if InspectFrom(stream, size, 0, 0).error != ZeroCountField {
      RefusedFrom(stream, size, 0, []);
    }
  }

  /** A stream that expands to the requested size and is refused for its zero count field. */
  lemma StricterThanTheDecoder()
    ensures Expand([2, 0, 7, 16, 0, 1], 4, 0, []) == Success(Expansion([7, 7, 7, 7], 6))
    ensures InspectFrom([2, 0, 7, 16, 0, 1], 4, 0, 0) == Failure(ZeroCountField)
  {
    var stream: seq<byte> := [2, 0, 7, 16, 0, 1];
    ZeroCountTokens(stream);
    hide ReadToken;
    assert CopyMatch([7], 1, 3) == [7, 7, 7, 7] by {
      assert CopyMatch([7], 1, 3) == CopyMatch([7, 7], 1, 2) == CopyMatch([7, 7, 7], 1, 1);
    }
    assert [] + [7] == [7] && [7] + [] == [7];
    assert Expand(stream, 4, 3, [7]) == Expand(stream, 4, 6, [7, 7, 7, 7]);
    assert InspectFrom(stream, 4, 3, 1) == Failure(ZeroCountField);
  }

  lemma ZeroCountTokens(stream: seq<byte>)
    requires stream == [2, 0, 7, 16, 0, 1]
    ensures ReadToken(stream, 0, true) == ReadToken(stream, 0, false) == Success(Reading(Token([7], 0, 0), 3))
    ensures ReadToken(stream, 3, false) == Success(Reading(Token([], 3, 1), 6))
    ensures ReadToken(stream, 3, true) == Failure(ZeroLiteralCount)
  {
    assert ReadHeader(stream, 0) == Success(Header(2, 0, 0, 2));
    assert ReadHeader(stream, 3) == Success(Header(0, 1, 0, 5));
    hide ReadHeader;
    assert stream[2..3] == [7] && stream[5..5] == [];
  }
}
