/** The boot-time decompressor: expands a token stream to at least a requested size. */
module Scatterload {
  import opened Results
  import opened Bytes
  import opened TokenFormat

  datatype DecodeError = IndexOutOfRange | MatchBeforeStart

  /** The expanded bytes and the number of compressed bytes consumed. */
  datatype Expansion = Expansion(bytes: seq<byte>, consumed: nat)

  /** Every byte of `s` from `from` to `to` repeats the byte `distance` before it. */
  predicate Repeats(s: seq<byte>, from: nat, to: nat, distance: nat) {
    distance <= from <= to <= |s| && forall k | from <= k < to :: s[k] == s[k - distance]
  }

  /** Appends `n` bytes, each the byte `distance` before the end: the copy may overlap itself. */
  function CopyMatch(dst: seq<byte>, distance: nat, n: nat): (out: seq<byte>)
    requires 1 <= distance <= |dst|
    ensures |out| == |dst| + n && dst <= out
    ensures Repeats(out, |dst|, |dst| + n, distance)
    decreases n
  {
    if n == 0 then dst else CopyMatch(dst + [dst[|dst| - distance]], distance, n - 1)
  }

  /** What expanding from offset `i`, with `dst` already expanded, returns or raises. */
  function Expand(src: seq<byte>, outSize: int, i: nat, dst: seq<byte>): Result<Expansion, DecodeError>
    decreases |src| - i
  {
    if |dst| >= outSize then Success(Expansion(dst, i))
    else
      match ReadToken(src, i, false)
      case Failure(_) => Failure(IndexOutOfRange)
      case Success(Reading(t, next)) =>
        var dst' := dst + t.literals;
        if t.length == 0 then Expand(src, outSize, next, dst')
        else if t.distance > |dst'| then Failure(MatchBeforeStart)
        else if t.distance == 0 then Failure(IndexOutOfRange)
        else Expand(src, outSize, next, CopyMatch(dst', t.distance, t.length))
  }

  /** The decoder's loop over header, escapes, literals and overlapping copy. */
  method Decompress(src: seq<byte>, outSize: int) returns (r: Result<Expansion, DecodeError>)
    ensures r == Expand(src, outSize, 0, [])
  {
    var i: nat := 0;
    var dst: seq<byte> := [];
    while |dst| < outSize
      invariant Expand(src, outSize, i, dst) == Expand(src, outSize, 0, [])
      decreases |src| - i
    {
      var reading := TakeToken(src, i, false);
      if reading.Failure? { return Failure(IndexOutOfRange); }
      var Reading(t, next) := reading.value;
      dst, i := dst + t.literals, next;
      if t.length != 0 {
        var pos := |dst| - t.distance;
        if pos < 0 { return Failure(MatchBeforeStart); }
        if pos == |dst| { return Failure(IndexOutOfRange); }
        dst := CopyBack(dst, t.distance, t.length);
      }
    }
    return Success(Expansion(dst, i));
  }

  /** The copy loop, reading back bytes it has just appended. */
  method CopyBack(before: seq<byte>, distance: nat, n: nat) returns (dst: seq<byte>)
    requires 1 <= distance <= |before|
    ensures dst == CopyMatch(before, distance, n)
  {
    dst := before;
    var pos := |dst| - distance;
    for k := 0 to n
      invariant pos == |dst| - distance && 0 <= pos < |dst|
      invariant CopyMatch(dst, distance, n - k) == CopyMatch(before, distance, n)
    {
      dst := dst + [dst[pos]];
      pos := pos + 1;
    }
  }

  /** An overlapping copy is the only continuation that repeats at the given distance. */
  lemma {:induction false} CopyIsDetermined(s: seq<byte>, from: nat, distance: nat, n: nat)
    requires 1 <= distance && Repeats(s, from, from + n, distance)
    ensures CopyMatch(s[..from], distance, n) == s[..from + n]
    decreases n
  {
    if n != 0 {
      assert s[..from] + [s[..from][from - distance]] == s[..from + 1];
      CopyIsDetermined(s, from + 1, distance, n - 1);
    }
  }
}
