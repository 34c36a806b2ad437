/**
 * The byte format of one scatter LZ77 token: a header byte that packs a literal count,
 * a distance class and a match length, escape bytes for the fields that do not fit,
 * the literals, and one or two distance bytes.
 *
 * The header's bit fields are disjoint, so its bitwise "or" is written as a sum and its
 * masks and shifts as remainders and quotients.
 */
module TokenFormat {
  import opened Results
  import opened Bytes

  const MAX_MATCH := 257
  const MAX_DISTANCE := 65535
  const MAX_LITERALS := 254

  datatype Token = Token(literals: seq<byte>, length: int, distance: int)

  /** What the encoder accepts: literals, then an optional match. */
  predicate WellFormed(t: Token) {
    && |t.literals| <= MAX_LITERALS
    && (t.length != 0 ==> 3 <= t.length <= MAX_MATCH && 1 <= t.distance <= MAX_DISTANCE)
    && (t.length == 0 ==> t.distance == 0)
  }

  datatype EncodeError = LengthOutOfRange | DistanceOutOfRange

  datatype ReadError = Truncated | ZeroLiteralCount

  // ----- Encoding -----

  /** The header byte: literal count, distance class and match count, where they fit. */
  function HeaderByte(t: Token): byte
    requires WellFormed(t)
  {
    var literalCount := |t.literals| + 1;
    var matchCount := if t.length != 0 then t.length - 2 else 0;
    (if literalCount <= 3 then literalCount else 0)
    + (if t.length == 0 then 0 else if t.distance < 768 then t.distance / 256 * 4 else 12)
    + (if 1 <= matchCount <= 15 then matchCount else 0) * 16
  }

  /** The header byte and the escape bytes of the counts that do not fit in it. */
  function HeaderBytes(t: Token): seq<byte>
    requires WellFormed(t)
  {
    var matchCount := if t.length != 0 then t.length - 2 else 0;
    [HeaderByte(t)]
    + (if |t.literals| >= 3 then [|t.literals| + 1] else [])
    + (if 1 <= matchCount <= 15 then [] else [matchCount])
  }

  function DistanceBytes(t: Token): seq<byte>
    requires WellFormed(t)
  {
    if t.length == 0 then []
    else if t.distance < 768 then [t.distance % 256]
    else [t.distance % 256, t.distance / 256]
  }

  /** The bytes of a token. */
  function EncodedToken(t: Token): seq<byte>
    requires WellFormed(t)
  {
    HeaderBytes(t) + t.literals + DistanceBytes(t)
  }

  predicate AllWellFormed(ts: seq<Token>) {
    forall k | 0 <= k < |ts| :: WellFormed(ts[k])
  }

  function EncodeAll(ts: seq<Token>): seq<byte>
    requires AllWellFormed(ts)
  {
    if ts == [] then [] else EncodedToken(ts[0]) + EncodeAll(ts[1..])
  }

  /** Encodes one token step by step; a bad length is objected to before a bad distance. */
  method EncodeToken(literals: seq<byte>, length: int, distance: int)
    returns (r: Result<seq<byte>, EncodeError>)
    ensures r.Success? <==> WellFormed(Token(literals, length, distance))
    ensures r.Success? ==> r.value == EncodedToken(Token(literals, length, distance))
    ensures r.Failure? ==> (r.error.LengthOutOfRange? <==>
                            |literals| > MAX_LITERALS || (length != 0 && !(3 <= length <= MAX_MATCH)))
  {
    if |literals| > MAX_LITERALS || (length != 0 && !(3 <= length <= MAX_MATCH)) {
      return Failure(LengthOutOfRange);
    }
    if (length != 0 && !(1 <= distance <= MAX_DISTANCE)) || (length == 0 && distance != 0) {
      return Failure(DistanceOutOfRange);
    }
    var literalCount := |literals| + 1;
    var matchCount := if length != 0 then length - 2 else 0;
    var token: byte := if literalCount <= 3 then literalCount else 0;
    token := token + (if 1 <= matchCount <= 15 then matchCount else 0) * 16;
    if length != 0 {
      token := token + (if distance < 768 then distance / 256 * 4 else 12);
    }
    ghost var t := Token(literals, length, distance);
    assert token == HeaderByte(t);
    HeaderFields(t);
    var bytes: seq<byte> := [token];
    if token % 4 == 0 {
      bytes := bytes + [literalCount];
    }
    if token / 16 == 0 {
      bytes := bytes + [matchCount];
    }
    assert bytes == HeaderBytes(t);
    bytes := bytes + literals;
    if length != 0 {
      bytes := bytes + [distance % 256];
      if distance >= 768 {
        bytes := bytes + [distance / 256];
      }
    }
    return Success(bytes);
  }

  // ----- Reading -----

  /** The header of a token: the two counts after their escapes, and the distance class. */
  datatype Header = Header(count: byte, matchCount: byte, high: byte, next: nat)

  /** A token as it is read, and the offset of the byte after it. */
  datatype Reading = Reading(token: Token, next: nat)

  function ReadHeader(src: seq<byte>, i: nat): (r: Result<Header, ReadError>)
    ensures r.Success? ==> i < r.value.next <= |src|
  {
    if i >= |src| then Failure(Truncated)
    else
      var token := src[i];
      var j := if token % 4 == 0 then i + 2 else i + 1;
      if j > |src| then Failure(Truncated)
      else
        var count := if token % 4 == 0 then src[i + 1] else token % 4;
        var k := if token / 16 == 0 then j + 1 else j;
        if k > |src| then Failure(Truncated)
        else
          var matchCount := if token / 16 == 0 then src[j] else token / 16;
          Success(Header(count, matchCount, token / 4 % 4, k))
  }

  /** The number of literals that a count field stands for; a zero field stands for none. */
  function LiteralCount(h: Header): nat {
    if h.count == 0 then 0 else h.count - 1
  }

  /** The distance bytes of a match: class 3 takes a second byte, the others scale by 256. */
  function ReadDistance(src: seq<byte>, i: nat, high: byte): (r: Result<(nat, nat), ReadError>)
    ensures r.Success? ==> i < r.value.1 <= |src|
  {
    if i >= |src| then Failure(Truncated)
    else if high != 3 then Success((src[i] as int + high as int * 256, i + 1))
    else if i + 1 >= |src| then Failure(Truncated)
    else Success((src[i] as int + src[i + 1] as int * 256, i + 2))
  }

  /** Reads one token at offset `i`. A strict reader refuses a zero literal-count field. */
  function ReadToken(src: seq<byte>, i: nat, strict: bool): (r: Result<Reading, ReadError>)
    ensures r.Success? ==> i < r.value.next <= |src|
    ensures r.Success? ==> r.value.token.length >= 0 && r.value.token.distance >= 0
  {
    var h :- ReadHeader(src, i);
    if strict && h.count == 0 then Failure(ZeroLiteralCount)
    else
      var j := h.next + LiteralCount(h);
      if j > |src| then Failure(Truncated)
      else if h.matchCount == 0 then Success(Reading(Token(src[h.next..j], 0, 0), j))
      else
        var d :- ReadDistance(src, j, h.high);
        Success(Reading(Token(src[h.next..j], h.matchCount + 2, d.0), d.1))
  }

  /** The byte-by-byte reader that the decoder and the inspector share. */
  method TakeToken(src: seq<byte>, start: nat, strict: bool) returns (r: Result<Reading, ReadError>)
    ensures r == ReadToken(src, start, strict)
  {
    var i := start;
    if i >= |src| { return Failure(Truncated); }
    var token := src[i]; i := i + 1;
    var count := token % 4;
    if count == 0 {
      if i >= |src| { return Failure(Truncated); }
      count := src[i]; i := i + 1;
    }
    var matchCount := token / 16;
    if matchCount == 0 {
      if i >= |src| { return Failure(Truncated); }
      matchCount := src[i]; i := i + 1;
    }
    assert ReadHeader(src, start) == Success(Header(count, matchCount, token / 4 % 4, i));
    if strict && count == 0 { return Failure(ZeroLiteralCount); }
    var literals, ok := TakeLiterals(src, i, if count == 0 then 0 else count - 1);
    if !ok { return Failure(Truncated); }
    i := i + |literals|;
    if matchCount == 0 { return Success(Reading(Token(literals, 0, 0), i)); }
    if i >= |src| { return Failure(Truncated); }
    var distance: int := src[i]; i := i + 1;
    if token / 4 % 4 == 3 {
      if i >= |src| { return Failure(Truncated); }
      distance := distance + src[i] as int * 256; i := i + 1;
    } else {
      distance := distance + (token / 4 % 4) as int * 256;
    }
    return Success(Reading(Token(literals, matchCount as int + 2, distance), i));
  }

  /** The literal loop: `n` bytes from offset `i`, unless the source ends first. */
  method TakeLiterals(src: seq<byte>, i: nat, n: nat) returns (literals: seq<byte>, ok: bool)
    requires i <= |src|
    ensures ok <==> i + n <= |src|
    ensures ok ==> literals == src[i..i + n]
  {
    literals := [];
    while |literals| < n
      invariant |literals| <= n && i + |literals| <= |src|
      invariant literals == src[i..i + |literals|]
    {
      if i + |literals| >= |src| { return literals, false; }
      literals := literals + [src[i + |literals|]];
    }
    ok := true;
  }

  // ----- Properties -----

  /** `part` stands in `s` at offset `i`. */
  predicate StandsAt(s: seq<byte>, i: nat, part: seq<byte>) {
    i + |part| <= |s| && s[i..i + |part|] == part
  }

  /** The three bit fields of a header byte come apart again. */
  lemma HeaderFields(t: Token)
    requires WellFormed(t)
    ensures HeaderByte(t) % 4 == (if |t.literals| <= 2 then |t.literals| + 1 else 0)
    ensures HeaderByte(t) / 4 % 4 == (if t.length == 0 then 0 else Min(t.distance / 256, 3))
    ensures HeaderByte(t) / 16 == (if 3 <= t.length <= 17 then t.length - 2 else 0)
  {
    var low := if |t.literals| <= 2 then |t.literals| + 1 else 0;
    var high := if t.length == 0 then 0 else Min(t.distance / 256, 3);
    var count := if 3 <= t.length <= 17 then t.length - 2 else 0;
    assert HeaderByte(t) == low + high * 4 + count * 16;
    FieldsComeApart(low, high, count);
  }

  lemma FieldsComeApart(low: int, high: int, count: int)
    requires 0 <= low < 4 && 0 <= high < 4 && 0 <= count < 16
    ensures (low + high * 4 + count * 16) % 4 == low
    ensures (low + high * 4 + count * 16) / 4 % 4 == high
    ensures (low + high * 4 + count * 16) / 16 == count
  {
  }

  /** Header bytes read back as the two counts and the distance class. */
  lemma HeaderReadsBack(t: Token, src: seq<byte>, i: nat)
    requires WellFormed(t) && StandsAt(src, i, HeaderBytes(t))
    ensures ReadHeader(src, i)
         == Success(Header(|t.literals| + 1,
                           if t.length == 0 then 0 else t.length - 2,
                           if t.length == 0 then 0 else Min(t.distance / 256, 3),
                           i + |HeaderBytes(t)|))
  {
    var e := HeaderBytes(t);
    assert forall k | 0 <= k < |e| :: src[i + k] == src[i..i + |e|][k] == e[k];
    assert src[i] == e[0] == HeaderByte(t);
    HeaderFields(t);
    assert |t.literals| >= 3 ==> src[i + 1] == e[1] == |t.literals| + 1;
    if !(3 <= t.length <= 17) {
      var j := if |t.literals| >= 3 then 2 else 1;
      assert src[i + j] == e[j] == if t.length == 0 then 0 else t.length - 2;
    }
  }

  lemma DistanceReadsBack(t: Token, src: seq<byte>, i: nat)
    requires WellFormed(t) && t.length != 0 && StandsAt(src, i, DistanceBytes(t))
    ensures ReadDistance(src, i, Min(t.distance / 256, 3)) == Success((t.distance, i + |DistanceBytes(t)|))
  {
    var e := DistanceBytes(t);
    assert forall k | 0 <= k < |e| :: src[i + k] == src[i..i + |e|][k] == e[k];
  }

  lemma StandsAtParts(src: seq<byte>, i: nat, a: seq<byte>, b: seq<byte>)
    requires StandsAt(src, i, a + b)
    ensures StandsAt(src, i, a) && StandsAt(src, i + |a|, b)
  {
    var s := src[i..i + |a + b|];
    assert src[i..i + |a|] == s[..|a|] == a;
    assert src[i + |a|..i + |a + b|] == s[|a|..] == b;
  }

  /**
   * Reading undoes encoding: wherever the bytes of a token stand, both readers recover
   * exactly that token and stop exactly after it.
   */
  lemma ReadsBack(t: Token, src: seq<byte>, i: nat, strict: bool)
    requires WellFormed(t) && StandsAt(src, i, EncodedToken(t))
    ensures ReadToken(src, i, strict) == Success(Reading(t, i + |EncodedToken(t)|))
  {
    StandsAtParts(src, i, HeaderBytes(t) + t.literals, DistanceBytes(t));
    StandsAtParts(src, i, HeaderBytes(t), t.literals);
    HeaderReadsBack(t, src, i);
    var j := i + |HeaderBytes(t)|;
    assert src[j..j + |t.literals|] == t.literals;
    if t.length != 0 {
      DistanceReadsBack(t, src, j + |t.literals|);
    }
  }

  /** The two readers differ only on a zero literal-count field. */
  lemma StrictReading(src: seq<byte>, i: nat)
    ensures ReadToken(src, i, true).Success? ==> ReadToken(src, i, false) == ReadToken(src, i, true)
    ensures ReadToken(src, i, true) == Failure(Truncated) ==> ReadToken(src, i, false) == Failure(Truncated)
    ensures ReadToken(src, i, true) == Failure(ZeroLiteralCount) <==>
              ReadHeader(src, i).Success? && ReadHeader(src, i).value.count == 0
  {
  }

  lemma Associates(a: seq<byte>, b: seq<byte>, c: seq<byte>)
    ensures (a + b) + c == a + (b + c)
  {
  }
}
