/** Token sequences that spell out given data, and what the decoder and the inspector make of them. */
module Streams {
  import opened Results
  import opened Bytes
  import opened TokenFormat
  import opened Scatterload
  import opened Inspector

  /** The number of bytes that a token stands for. */
  function Span(t: Token): int {
    |t.literals| + t.length
  }

  /** From `done` on, the tokens spell out exactly the rest of the data, without an empty token. */
  predicate Spells(ts: seq<Token>, done: nat, data: seq<byte>) {
    if ts == [] then done == |data|
    else
      var t := ts[0];
      var matchStart := done + |t.literals|;
      && WellFormed(t) && 0 < Span(t) && done + Span(t) <= |data|
      && data[done..matchStart] == t.literals
      && (t.length != 0 ==> Repeats(data, matchStart, matchStart + t.length, t.distance))
      && Spells(ts[1..], done + Span(t), data)
  }

  /** A token in front of spelling tokens, given what it must spell itself. */
  lemma SpellsCons(t: Token, ts: seq<Token>, done: nat, data: seq<byte>)
    requires WellFormed(t) && 0 < Span(t) && done + Span(t) <= |data|
    requires data[done..done + |t.literals|] == t.literals
    requires t.length != 0 ==> Repeats(data, done + |t.literals|, done + Span(t), t.distance)
    requires Spells(ts, done + Span(t), data) && AllWellFormed(ts)
    ensures Spells([t] + ts, done, data) && AllWellFormed([t] + ts)
  {
    assert ([t] + ts)[1..] == ts;
  }

  /** One spelled token takes the decoder from one prefix of the data to the next. */
  lemma SpelledStep(t: Token, done: nat, data: seq<byte>, src: seq<byte>, i: nat)
    requires WellFormed(t) && 0 < Span(t) && done + Span(t) <= |data|
    requires data[done..done + |t.literals|] == t.literals
    requires t.length != 0 ==> Repeats(data, done + |t.literals|, done + Span(t), t.distance)
    requires StandsAt(src, i, EncodedToken(t))
    ensures Expand(src, |data|, i, data[..done])
         == Expand(src, |data|, i + |EncodedToken(t)|, data[..done + Span(t)])
    ensures t.length != 0 ==> 1 <= t.distance <= done + |t.literals|
  {
    hide EncodedToken, ReadToken, CopyMatch;
    ReadsBack(t, src, i, false);
    var matchStart := done + |t.literals|;
    assert data[..done] + t.literals == data[..matchStart];
    if t.length != 0 {
      CopyIsDetermined(data, matchStart, t.distance, t.length);
    }
  }

  /** Wherever spelling tokens stand, expanding them gives the data and stops behind them. */
  lemma {:induction false} SpelledExpands(ts: seq<Token>, done: nat, data: seq<byte>, src: seq<byte>, i: nat)
    requires Spells(ts, done, data) && AllWellFormed(ts) && StandsAt(src, i, EncodeAll(ts))
    ensures done <= |data|
    ensures Expand(src, |data|, i, data[..done]) == Success(Expansion(data, i + |EncodeAll(ts)|))
  {
    hide EncodedToken, ReadToken, CopyMatch, Repeats;
    if ts == [] {
      assert data[..done] == data;
    } else {
      StandsAtParts(src, i, EncodedToken(ts[0]), EncodeAll(ts[1..]));
      SpelledStep(ts[0], done, data, src, i);
      SpelledExpands(ts[1..], done + Span(ts[0]), data, src, i + |EncodedToken(ts[0])|);
    }
  }

  /** The inspector's record of each token. */
  function RecordsOf(ts: seq<Token>, position: nat, output: nat): seq<Record>
    requires AllWellFormed(ts)
  {
    if ts == [] then []
    else
      var t := ts[0];
      var size := |EncodedToken(t)|;
      [Record(position, size, output, output + |t.literals|, |t.literals|, t.length, t.distance)]
      + RecordsOf(ts[1..], position + size, output + Span(t))
  }

  /** Wherever spelling tokens stand, the inspector accepts them and recovers every token. */
  lemma {:induction false} SpelledInspects(ts: seq<Token>, done: nat, data: seq<byte>, src: seq<byte>, i: nat)
    requires Spells(ts, done, data) && AllWellFormed(ts) && StandsAt(src, i, EncodeAll(ts))
    ensures InspectFrom(src, |data|, i, done) == Success(Inspection(RecordsOf(ts, i, done), i + |EncodeAll(ts)|))
  {
    hide EncodedToken, ReadToken;
    if ts != [] {
      var t, e := ts[0], EncodedToken(ts[0]);
      StandsAtParts(src, i, e, EncodeAll(ts[1..]));
      ReadsBack(t, src, i, true);
      SpelledInspects(ts[1..], done + Span(t), data, src, i + |e|);
      assert t.length != 0 ==> 1 <= t.distance <= done + |t.literals|;
    }
  }

  // ----- How long the encoding can be -----

  /** Every token but the last either carries a match or as many literals as fit. */
  predicate Packed(ts: seq<Token>) {
    forall k | 0 <= k < |ts| - 1 :: ts[k].length != 0 || |ts[k].literals| == MAX_LITERALS
  }

  /** A full token costs at most seven bytes for every six; a last one at most three bytes more. */
  lemma TokenCost(t: Token)
    requires WellFormed(t)
    ensures 6 * |EncodedToken(t)| <= 6 * Span(t) + 18
    ensures t.length != 0 || |t.literals| == MAX_LITERALS ==> 6 * |EncodedToken(t)| <= 7 * Span(t)
  {
    hide HeaderByte;
    assert |HeaderBytes(t)| <= 3;
    assert t.length != 0 && |t.literals| <= 2 && t.length <= 17 ==> |HeaderBytes(t)| == 1;
    assert t.length != 0 && (|t.literals| <= 2 || t.length <= 17) ==> |HeaderBytes(t)| <= 2;
    assert |DistanceBytes(t)| <= (if t.length == 0 then 0 else 2);
  }

  lemma {:induction false} SpelledCost(ts: seq<Token>, done: nat, data: seq<byte>)
    requires Spells(ts, done, data) && AllWellFormed(ts) && Packed(ts)
    ensures 6 * |EncodeAll(ts)| <= 7 * (|data| - done) + 18
  {
    hide EncodedToken, Repeats;
    if ts != [] {
      TokenCost(ts[0]);
      if |ts| == 1 {
        assert ts[1..] == [];
      } else {
        assert forall k | 0 <= k < |ts| - 2 :: ts[1..][k] == ts[k + 1];
        SpelledCost(ts[1..], done + Span(ts[0]), data);
      }
    }
  }
}
