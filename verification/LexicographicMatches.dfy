/**
 * The match finder that keeps the window's keys in lexicographic order and looks only at
 * the two neighbours of the current key.
 *
 * A list entry is a key with a tag: the list of the duplicate-keeping variants holds
 * (key, position) pairs, the list of the unique variant bare keys, whose tag is always 0.
 * A key limit of 0 stands for whole suffixes.
 */
module LexicographicMatches {
  import opened Results
  import opened Bytes
  import opened TokenFormat
  import opened Window
  import opened Keys

  // ----- The reference answer: neighbours found by scanning the window -----

  /** Whether `p` sorts before the current position; equal keys do when duplicates are kept. */
  predicate Below(data: seq<byte>, limit: nat, unique: bool, position: nat, p: nat)
    requires p <= position <= |data|
  {
    Less(Key(data, limit, p), Key(data, limit, position))
    || (!unique && Key(data, limit, p) == Key(data, limit, position))
  }

  /** The greatest key below the current one; the newest position among equals. */
  function PredecessorSince(data: seq<byte>, limit: nat, unique: bool, position: nat, lo: nat): (r: Option<nat>)
    requires position <= |data|
    ensures r.Some? ==> lo <= r.value < position && Below(data, limit, unique, position, r.value)
    decreases position - lo
  {
    if lo >= position then None
    else
      var rest := PredecessorSince(data, limit, unique, position, lo + 1);
      if && Below(data, limit, unique, position, lo)
         && (rest.None? || Less(Key(data, limit, rest.value), Key(data, limit, lo)))
      then Some(lo) else rest
  }

  /**
   * The least key not below the current one; among equals the newest position when keys
   * are unique, the oldest when duplicates are kept.
   */
  function SuccessorSince(data: seq<byte>, limit: nat, unique: bool, position: nat, lo: nat): (r: Option<nat>)
    requires position <= |data|
    ensures r.Some? ==> lo <= r.value < position && !Below(data, limit, unique, position, r.value)
    decreases position - lo
  {
    if lo >= position then None
    else
      var rest := SuccessorSince(data, limit, unique, position, lo + 1);
      if && !Below(data, limit, unique, position, lo)
         && (rest.None?
             || Less(Key(data, limit, lo), Key(data, limit, rest.value))
             || (!unique && Key(data, limit, lo) == Key(data, limit, rest.value)))
      then Some(lo) else rest
  }

  function Offer(data: seq<byte>, position: nat, p: Option<nat>): Match
    requires position <= |data| && (p.Some? ==> p.value <= position)
  {
    match p
    case None => NO_MATCH
    case Some(previous) => Candidate(data, previous, position)
  }

  /** The successor's offer wins ties. */
  function Later(a: Match, b: Match): Match {
    if b.length >= 3 && b.length >= a.length then b else a
  }

  /** What the finder stores for a position. */
  function NeighbourBest(data: seq<byte>, limit: nat, unique: bool, window: nat, position: nat): Match {
    if position >= |data| then NO_MATCH
    else
      var lo := Oldest(position, window);
      Later(Offer(data, position, PredecessorSince(data, limit, unique, position, lo)),
            Offer(data, position, SuccessorSince(data, limit, unique, position, lo)))
  }

  // ----- The neighbour theorem -----

  /** Every key below lies at or below the predecessor. */
  lemma {:induction false} PredecessorIsGreatest(data: seq<byte>, limit: nat, unique: bool, position: nat, lo: nat, q: nat)
    requires lo <= q < position <= |data| && Below(data, limit, unique, position, q)
    ensures var r := PredecessorSince(data, limit, unique, position, lo);
            r.Some? && LessEq(Key(data, limit, q), Key(data, limit, r.value))
    decreases position - lo
  {
    var rest := PredecessorSince(data, limit, unique, position, lo + 1);
    if lo < q {
      PredecessorIsGreatest(data, limit, unique, position, lo + 1, q);
      var r := PredecessorSince(data, limit, unique, position, lo);
      if r != rest {
        LessTransitive(Key(data, limit, q), Key(data, limit, rest.value), Key(data, limit, lo));
      }
    } else if rest.Some? {
      LessTotal(Key(data, limit, lo), Key(data, limit, rest.value));
    }
  }

  /** Every key not below lies at or above the successor. */
  lemma {:induction false} SuccessorIsLeast(data: seq<byte>, limit: nat, unique: bool, position: nat, lo: nat, q: nat)
    requires lo <= q < position <= |data| && !Below(data, limit, unique, position, q)
    ensures var r := SuccessorSince(data, limit, unique, position, lo);
            r.Some? && LessEq(Key(data, limit, r.value), Key(data, limit, q))
    decreases position - lo
  {
    var rest := SuccessorSince(data, limit, unique, position, lo + 1);
    if lo < q {
      SuccessorIsLeast(data, limit, unique, position, lo + 1, q);
      var r := SuccessorSince(data, limit, unique, position, lo);
      if r != rest {
        LcpBetween(Key(data, limit, lo), Key(data, limit, rest.value), Key(data, limit, q));
      }
    } else if rest.Some? {
      LessTotal(Key(data, limit, lo), Key(data, limit, rest.value));
    }
  }

  /** No position of the window shares more of the key than the better of the two neighbours. */
  lemma NeighboursSuffice(data: seq<byte>, limit: nat, unique: bool, position: nat, lo: nat, q: nat)
    requires lo <= q < position <= |data|
    ensures var pred := PredecessorSince(data, limit, unique, position, lo);
            var succ := SuccessorSince(data, limit, unique, position, lo);
            var capped := Min(MatchLength(data, q, position), Cap(limit));
            || (pred.Some? && capped <= Min(MatchLength(data, pred.value, position), Cap(limit)))
            || (succ.Some? && capped <= Min(MatchLength(data, succ.value, position), Cap(limit)))
  {
    hide MatchLength, Key, PredecessorSince, SuccessorSince, Lcp, Less;
    var key := Key(data, limit, position);
    KeyLcp(data, limit, q, position);
    if Below(data, limit, unique, position, q) {
      PredecessorIsGreatest(data, limit, unique, position, lo, q);
      var p := PredecessorSince(data, limit, unique, position, lo).value;
      LcpBetween(Key(data, limit, q), Key(data, limit, p), key);
      KeyLcp(data, limit, p, position);
    } else {
      SuccessorIsLeast(data, limit, unique, position, lo, q);
      var p := SuccessorSince(data, limit, unique, position, lo).value;
      LessTotal(Key(data, limit, p), key);
      LcpBetween(key, Key(data, limit, p), Key(data, limit, q));
      LcpCommutes(key, Key(data, limit, p));
      LcpCommutes(key, Key(data, limit, q));
      KeyLcp(data, limit, p, position);
    }
  }

  /** The neighbours' answer comes from a position of the window, or there is none. */
  lemma NeighbourBestFromWindow(data: seq<byte>, limit: nat, unique: bool, window: nat, position: nat)
    requires position < |data|
    ensures var m := NeighbourBest(data, limit, unique, window, position);
            m == NO_MATCH
            || (1 <= m.distance <= Min(position, window)
                && m == Candidate(data, position - m.distance, position)
                && IsMatch(data, position, window, m))
  {
    hide MatchLength, PredecessorSince, SuccessorSince, IsMatch, Below;
    var lo := Oldest(position, window);
    var pred := PredecessorSince(data, limit, unique, position, lo);
    var succ := SuccessorSince(data, limit, unique, position, lo);
    if pred.Some? && Offer(data, position, pred) != NO_MATCH {
      CandidateIsMatch(data, pred.value, position, window);
    }
    if succ.Some? && Offer(data, position, succ) != NO_MATCH {
      CandidateIsMatch(data, succ.value, position, window);
    }
  }

  /**
   * The neighbour theorem, for every input, position, window and key limit of at least three
   * bytes: looking only at the predecessor and the successor finds a match exactly when
   * exhaustive search does, and the two lengths agree as far as the keys reach.
   */
  lemma NeighbourTheorem(data: seq<byte>, limit: nat, unique: bool, window: nat, position: nat)
    requires Cap(limit) >= 3 && position <= |data|
    ensures var m := NeighbourBest(data, limit, unique, window, position);
            var longest := LongestMatch(data, position, window);
            && Min(m.length, Cap(limit)) == Min(longest, Cap(limit))
            && (m == NO_MATCH <==> longest == 0)
            && m.length <= longest
            && (Cap(limit) == MAX_MATCH || longest < Cap(limit) ==> m.length == longest)
  {
    hide MatchLength, PredecessorSince, SuccessorSince, IsMatch, NearestSince, Below;
    var lo := Oldest(position, window);
    var m := NeighbourBest(data, limit, unique, window, position);
    var nearest := NearestSince(data, position, lo);
    SearchesAgree(data, position, lo);
    NearestIsNearest(data, position, lo);
    if nearest != NO_MATCH {
      MatchLengthLimit(data, position - nearest.distance, position);
    }
    if position < |data| {
      NeighbourBestFromWindow(data, limit, unique, window, position);
      if nearest != NO_MATCH {
        NeighboursSuffice(data, limit, unique, position, lo, position - nearest.distance);
      }
    }
  }

  // ----- Exactly when truncated keys find the longest match -----

  /** The newest position since `lo` whose key is that of `position`. */
  ghost predicate NewestEqual(data: seq<byte>, limit: nat, lo: nat, position: nat, p: nat)
    requires position <= |data|
  {
    && lo <= p < position && Key(data, limit, p) == Key(data, limit, position)
    && forall q | p < q < position :: Key(data, limit, q) != Key(data, limit, position)
  }

  /** Of the positions with an equal key, the finder looks only at the newest. */
  lemma NewestEqualIsTaken(data: seq<byte>, limit: nat, unique: bool, window: nat, position: nat, p: nat)
    requires 3 <= limit <= MAX_MATCH && position + limit <= |data|
    requires NewestEqual(data, limit, Oldest(position, window), position, p)
    ensures NeighbourBest(data, limit, unique, window, position) == Candidate(data, p, position)
    ensures MatchLength(data, p, position) >= limit
  {
    var lo := Oldest(position, window);
    EqualKeys(data, limit, p, position);
    hide MatchLength, Key, Less, PredecessorSince, SuccessorSince;
    var key := Key(data, limit, position);
    LessTotal(key, key);
    forall q | lo <= q < position ensures Key(data, limit, q) == key ==> q <= p {
      LessTotal(Key(data, limit, q), key);
    }
    var pred := PredecessorSince(data, limit, unique, position, lo);
    var succ := SuccessorSince(data, limit, unique, position, lo);
    if unique {
      forall q | lo <= q < position && !Below(data, limit, unique, position, q)
        ensures Less(Key(data, limit, p), Key(data, limit, q)) || (Key(data, limit, q) == Key(data, limit, p) && q <= p)
      {
        LessTotal(Key(data, limit, q), key);
      }
      SuccessorIs(data, limit, unique, position, lo, p);
      if pred.Some? {
        EqualKeys(data, limit, pred.value, position);
        LessTotal(Key(data, limit, pred.value), key);
      }
    } else {
      PredecessorIs(data, limit, unique, position, lo, p);
      if succ.Some? {
        EqualKeys(data, limit, succ.value, position);
      }
    }
  }

  /** Full keys are equal exactly if the match is as long as the keys. */
  lemma EqualKeys(data: seq<byte>, limit: nat, p: nat, position: nat)
    requires 0 < limit <= MAX_MATCH && p <= position && position + limit <= |data|
    ensures Key(data, limit, p) == Key(data, limit, position) <==> MatchLength(data, p, position) >= limit
  {
    hide MatchLength, Lcp;
    var a, b := Key(data, limit, p), Key(data, limit, position);
    KeyLcp(data, limit, p, position);
    LcpAtLeast(a, b, limit);
    assert a[..limit] == a && b[..limit] == b;
  }

  lemma {:induction false} NewestEqualExists(data: seq<byte>, limit: nat, lo: nat, position: nat, p: nat) returns (n: nat)
    requires lo <= p < position <= |data| && Key(data, limit, p) == Key(data, limit, position)
    ensures NewestEqual(data, limit, lo, position, n)
    decreases position - p
  {
    hide Key;
    if q :| p < q < position && Key(data, limit, q) == Key(data, limit, position) {
      n := NewestEqualExists(data, limit, lo, position, q);
    } else {
      n := p;
    }
  }

  /** The longest match is shorter than a key, or the newest position with an equal key has it. */
  ghost predicate NewestIsLongest(data: seq<byte>, limit: nat, window: nat, position: nat)
    requires position <= |data|
  {
    var longest := LongestMatch(data, position, window);
    longest < limit || exists p :: && NewestEqual(data, limit, Oldest(position, window), position, p)
                                   && MatchLength(data, p, position) == longest
  }

  /**
   * At every position of every input, whether or not duplicates are kept: the answer is as long
   * as that of an exhaustive search if and only if the longest match is shorter than a key, or
   * the newest position with an equal key attains it.
   */
  lemma KeysExact(data: seq<byte>, limit: nat, unique: bool, window: nat, position: nat)
    requires 3 <= limit <= MAX_MATCH && position < |data|
    ensures NeighbourBest(data, limit, unique, window, position).length == LongestMatch(data, position, window)
       <==> NewestIsLongest(data, limit, window, position)
  {
    hide MatchLength, Key, NeighbourBest, NearestSince;
    NeighbourTheorem(data, limit, unique, window, position);
    var lo := Oldest(position, window);
    var longest := LongestMatch(data, position, window);
    if longest >= limit {
      NearestIsNearest(data, position, lo);
      var p := position - NearestSince(data, position, lo).distance;
      MatchLengthLimit(data, p, position);
      EqualKeys(data, limit, p, position);
      var n := NewestEqualExists(data, limit, lo, position, p);
      NewestEqualIsTaken(data, limit, unique, window, position, n);
    }
  }

  /** The bytes 0 to 127 three times, followed by 200, 201 and 200. */
  function Thrice(): seq<byte> {
    seq(387, i requires 0 <= i => ThriceByte(i))
  }

  function ThriceByte(i: nat): byte {
    if i % 129 < 128 then i % 129 else if i / 129 == 1 then 201 else 200
  }

  /** An input on which unique 128-byte keys miss: the newest of two equal keys has the shorter match. */
  lemma KeysFallShort()
    ensures NeighbourBest(Thrice(), 128, true, MAX_DISTANCE, 258).length < LongestMatch(Thrice(), 258, MAX_DISTANCE)
  {
    var data := Thrice();
    hide MatchLength, Key, NeighbourBest, NearestSince, ThriceByte, Thrice;
    ThriceMatches(data);
    forall q | 129 < q < 258 ensures Key(data, 128, q) != Key(data, 128, 258) {
      ThriceDiffers(data, q);
      EqualKeys(data, 128, q, 258);
    }
    EqualKeys(data, 128, 129, 258);
    NewestEqualIsTaken(data, 128, true, MAX_DISTANCE, 258, 129);
    SearchesAgree(data, 258, 0);
    assert Candidate(data, 0, 258).length >= 129;
  }

  lemma ThriceMatches(data: seq<byte>)
    requires data == Thrice()
    ensures |data| == 387 && MatchLength(data, 0, 258) >= 129 && MatchLength(data, 129, 258) == 128
  {
    hide MatchLength, ThriceByte;
    ThriceBytes();
    MatchLengthRepeats(data, 0, 258, 129);
    MatchLengthRepeats(data, 129, 258, 128);
    MatchLengthRepeats(data, 129, 258, 129);
    assert data[386] != data[386 - 129];
  }

  lemma ThriceBytes()
    ensures forall i | 258 <= i < 387 :: ThriceByte(i) == ThriceByte(i - 258)
    ensures forall i | 258 <= i < 386 :: ThriceByte(i) == ThriceByte(i - 129)
    ensures ThriceByte(386) != ThriceByte(257)
  {
  }

  lemma ThriceDiffers(data: seq<byte>, q: nat)
    requires data == Thrice() && 129 < q < 258
    ensures MatchLength(data, q, 258) == 0
  {
    hide MatchLength;
    assert data[258] == 0 && data[q] != 0;
    MatchLengthRepeats(data, q, 258, 1);
    assert data[258 - (258 - q)] == data[q];
  }

  // ----- The ordered list and the dictionary of representatives -----

  datatype Entry = Entry(key: seq<byte>, tag: nat)

  predicate EntryLess(a: Entry, b: Entry) {
    Less(a.key, b.key) || (a.key == b.key && a.tag < b.tag)
  }

  function EntryOf(data: seq<byte>, limit: nat, unique: bool, p: nat): Entry
    requires p <= |data|
  {
    Entry(Key(data, limit, p), if unique then 0 else p)
  }

  predicate Ordered(keys: seq<Entry>) {
    forall i, j | 0 <= i < j < |keys| :: EntryLess(keys[i], keys[j])
  }

  lemma EntryTotal(a: Entry, b: Entry)
    ensures a == b || EntryLess(a, b) || EntryLess(b, a)
    ensures !(EntryLess(a, b) && EntryLess(b, a)) && !EntryLess(a, a)
  {
    LessTotal(a.key, b.key);
    LessTotal(a.key, a.key);
  }

  lemma EntryTransitive(a: Entry, b: Entry, c: Entry)
    requires EntryLess(a, b) && EntryLess(b, c)
    ensures EntryLess(a, c)
  {
    if a.key != b.key || b.key != c.key {
      LessTransitive(a.key, b.key, c.key);
    }
  }

  /** The leftmost place for `x` in an ordered list of entries. */
  method BisectLeft(keys: seq<Entry>, x: Entry) returns (k: nat)
    requires Ordered(keys)
    ensures k <= |keys|
    ensures forall i | 0 <= i < k :: EntryLess(keys[i], x)
    ensures forall i | k <= i < |keys| :: !EntryLess(keys[i], x)
    ensures x in keys <==> k < |keys| && keys[k] == x
  {
    hide EntryLess;
    var lo, hi := 0, |keys|;
    while lo < hi
      invariant 0 <= lo <= hi <= |keys|
      invariant forall i | 0 <= i < lo :: EntryLess(keys[i], x)
      invariant forall i | hi <= i < |keys| :: !EntryLess(keys[i], x)
    {
      var mid := (lo + hi) / 2;
      if EntryLess(keys[mid], x) {
        forall i | lo <= i < mid ensures EntryLess(keys[i], x) {
          EntryTransitive(keys[i], keys[mid], x);
        }
        lo := mid + 1;
      } else {
        forall i | mid < i < hi ensures !EntryLess(keys[i], x) {
          if EntryLess(keys[i], x) {
            EntryTransitive(keys[mid], keys[i], x);
          }
        }
        hi := mid;
      }
    }
    k := lo;
    EntryTotal(x, x);
    if x in keys {
      var i :| 0 <= i < |keys| && keys[i] == x;
      if i > k {
        EntryTotal(keys[k], x);
      }
    }
  }

  lemma RemoveEntry(keys: seq<Entry>, k: nat)
    requires Ordered(keys) && k < |keys|
    ensures var rest := keys[..k] + keys[k + 1..];
            Ordered(rest) && forall e :: e in rest <==> e in keys && e != keys[k]
  {
    hide EntryLess;
    var rest := keys[..k] + keys[k + 1..];
    forall i | 0 <= i < |keys| && i != k ensures keys[i] != keys[k] && keys[i] in rest {
      EntryTotal(keys[i], keys[k]);
      assert keys[i] == rest[if i < k then i else i - 1];
    }
  }

  lemma InsertEntry(keys: seq<Entry>, k: nat, x: Entry)
    requires Ordered(keys) && k <= |keys| && x !in keys
    requires forall i | 0 <= i < k :: EntryLess(keys[i], x)
    requires forall i | k <= i < |keys| :: !EntryLess(keys[i], x)
    ensures var more := keys[..k] + [x] + keys[k..];
            Ordered(more) && forall e :: e in more <==> e in keys || e == x
  {
    hide EntryLess;
    var more := keys[..k] + [x] + keys[k..];
    forall i | k <= i < |keys| ensures EntryLess(x, keys[i]) {
      EntryTotal(x, keys[i]);
    }
    assert keys == keys[..k] + keys[k..];
  }

  type Representatives = map<seq<byte>, nat>

  /**
   * The list and the dictionary index exactly the positions from `lo` to `hi`: the list is
   * strictly ordered and holds their entries and no others, and when keys are unique every
   * key maps to the newest of its positions.
   */
  ghost predicate Dictionary(data: seq<byte>, limit: nat, unique: bool, lo: nat, hi: nat,
                             keys: seq<Entry>, reps: Representatives)
    requires hi <= |data|
  {
    && Ordered(keys)
    && (forall p | lo <= p < hi :: EntryOf(data, limit, unique, p) in keys)
    && (forall e | e in keys :: Represented(data, limit, unique, lo, hi, reps, e))
    && (unique ==> forall p | lo <= p < hi ::
          Key(data, limit, p) in reps && p <= reps[Key(data, limit, p)])
    && (unique ==> forall key | key in reps ::
          lo <= reps[key] < hi && Key(data, limit, reps[key]) == key)
  }

  /** An entry of the list stands for a position of the window. */
  ghost predicate Represented(data: seq<byte>, limit: nat, unique: bool, lo: nat, hi: nat,
                              reps: Representatives, e: Entry)
    requires hi <= |data|
  {
    if unique then e.tag == 0 && e.key in reps
    else lo <= e.tag < hi && e.key == Key(data, limit, e.tag)
  }

  /** Drops the position that has left the window. */
  method Expire(data: seq<byte>, limit: nat, unique: bool, expired: nat, hi: nat,
                keys: seq<Entry>, reps: Representatives)
    returns (keys': seq<Entry>, reps': Representatives)
    requires expired < hi <= |data| && Dictionary(data, limit, unique, expired, hi, keys, reps)
    ensures Dictionary(data, limit, unique, expired + 1, hi, keys', reps')
  {
    hide Key, EntryLess;
    keys', reps' := keys, reps;
    var entry := EntryOf(data, limit, unique, expired);
    if unique {
      if entry.key in reps && reps[entry.key] == expired {
        var k := BisectLeft(keys, entry);
        RemoveEntry(keys, k);
        keys' := keys[..k] + keys[k + 1..];
        reps' := reps - {entry.key};
      }
    } else {
      var k := BisectLeft(keys, entry);
      RemoveEntry(keys, k);
      keys' := keys[..k] + keys[k + 1..];
    }
  }

  /** Adds the current position, or renews the representative of its key. */
  method Insert(data: seq<byte>, limit: nat, unique: bool, lo: nat, position: nat,
                keys: seq<Entry>, reps: Representatives, index: nat)
    returns (keys': seq<Entry>, reps': Representatives)
    requires lo <= position < |data| && Dictionary(data, limit, unique, lo, position, keys, reps)
    requires index <= |keys|
    requires forall i | 0 <= i < index :: EntryLess(keys[i], EntryOf(data, limit, unique, position))
    requires forall i | index <= i < |keys| :: !EntryLess(keys[i], EntryOf(data, limit, unique, position))
    ensures Dictionary(data, limit, unique, lo, position + 1, keys', reps')
  {
    hide Key, EntryLess;
    keys', reps' := keys, reps;
    var entry := EntryOf(data, limit, unique, position);
    if unique {
      if entry.key !in reps {
        InsertEntry(keys, index, entry);
        keys' := keys[..index] + [entry] + keys[index..];
      } else {
        assert entry == EntryOf(data, limit, unique, reps[entry.key]);
      }
      reps' := reps[entry.key := position];
    } else {
      InsertEntry(keys, index, entry);
      keys' := keys[..index] + [entry] + keys[index..];
    }
  }

  /** The position that an entry stands for. */
  function At(unique: bool, reps: Representatives, e: Entry): nat
    requires unique ==> e.key in reps
  {
    if unique then reps[e.key] else e.tag
  }

  /** An entry's position is in the window and has that entry; no newer position shares a unique key. */
  lemma EntryStandsFor(data: seq<byte>, limit: nat, unique: bool, lo: nat, hi: nat,
                       keys: seq<Entry>, reps: Representatives, e: Entry)
    requires hi <= |data| && Dictionary(data, limit, unique, lo, hi, keys, reps) && e in keys
    ensures unique ==> e.key in reps
    ensures var p := At(unique, reps, e);
            && lo <= p < hi && EntryOf(data, limit, unique, p) == e
            && (unique ==> forall q | lo <= q < hi && Key(data, limit, q) == e.key :: q <= p)
  {
    hide Key, EntryLess;
    assert Represented(data, limit, unique, lo, hi, reps, e);
  }

  /** Whatever sorts highest below the current position is what the scan finds. */
  lemma {:induction false} PredecessorIs(data: seq<byte>, limit: nat, unique: bool, position: nat, lo: nat, p: nat)
    requires lo <= p < position <= |data| && Below(data, limit, unique, position, p)
    requires forall q | lo <= q < position && Below(data, limit, unique, position, q) ::
               Less(Key(data, limit, q), Key(data, limit, p)) || (Key(data, limit, q) == Key(data, limit, p) && q <= p)
    ensures PredecessorSince(data, limit, unique, position, lo) == Some(p)
    decreases position - lo
  {
    hide Key, Less, Below;
    var rest := PredecessorSince(data, limit, unique, position, lo + 1);
    if lo < p {
      PredecessorIs(data, limit, unique, position, lo + 1, p);
      LessTotal(Key(data, limit, lo), Key(data, limit, p));
    }
  }

  lemma {:induction false} SuccessorIs(data: seq<byte>, limit: nat, unique: bool, position: nat, lo: nat, p: nat)
    requires lo <= p < position <= |data| && !Below(data, limit, unique, position, p)
    requires forall q | lo <= q < position && !Below(data, limit, unique, position, q) ::
               Less(Key(data, limit, p), Key(data, limit, q))
               || (Key(data, limit, q) == Key(data, limit, p) && if unique then q <= p else p <= q)
    ensures SuccessorSince(data, limit, unique, position, lo) == Some(p)
    decreases position - lo
  {
    hide Key, Less, Below;
    var rest := SuccessorSince(data, limit, unique, position, lo + 1);
    if lo < p {
      SuccessorIs(data, limit, unique, position, lo + 1, p);
      LessTotal(Key(data, limit, lo), Key(data, limit, p));
    }
  }

  /** The list is cut at the current entry exactly where the window's positions are cut. */
  lemma BelowIsLess(data: seq<byte>, limit: nat, unique: bool, position: nat, q: nat)
    requires q < position <= |data|
    ensures Below(data, limit, unique, position, q)
       <==> EntryLess(EntryOf(data, limit, unique, q), EntryOf(data, limit, unique, position))
  {
  }

  /** The entry before the cut is the scan's predecessor, and the entry at the cut its successor. */
  lemma NeighboursAreThere(data: seq<byte>, limit: nat, unique: bool, lo: nat, position: nat,
                           keys: seq<Entry>, reps: Representatives, index: nat)
    requires position < |data| && Dictionary(data, limit, unique, lo, position, keys, reps)
    requires index <= |keys|
    requires forall i | 0 <= i < index :: EntryLess(keys[i], EntryOf(data, limit, unique, position))
    requires forall i | index <= i < |keys| :: !EntryLess(keys[i], EntryOf(data, limit, unique, position))
    ensures forall i | 0 <= i < |keys| :: unique ==> keys[i].key in reps
    ensures PredecessorSince(data, limit, unique, position, lo)
         == if index == 0 then None else Some(At(unique, reps, keys[index - 1]))
    ensures SuccessorSince(data, limit, unique, position, lo)
         == if index == |keys| then None else Some(At(unique, reps, keys[index]))
  {
    PredecessorIsThere(data, limit, unique, lo, position, keys, reps, index);
    SuccessorIsThere(data, limit, unique, lo, position, keys, reps, index);
  }

  lemma PredecessorIsThere(data: seq<byte>, limit: nat, unique: bool, lo: nat, position: nat,
                           keys: seq<Entry>, reps: Representatives, index: nat)
    requires position < |data| && Dictionary(data, limit, unique, lo, position, keys, reps)
    requires index <= |keys|
    requires forall i | 0 <= i < index :: EntryLess(keys[i], EntryOf(data, limit, unique, position))
    requires forall i | index <= i < |keys| :: !EntryLess(keys[i], EntryOf(data, limit, unique, position))
    ensures forall i | 0 <= i < |keys| :: unique ==> keys[i].key in reps
    ensures PredecessorSince(data, limit, unique, position, lo)
         == if index == 0 then None else Some(At(unique, reps, keys[index - 1]))
  {
    hide Key, Less, Below, PredecessorSince;
    forall i | 0 <= i < |keys| ensures unique ==> keys[i].key in reps {
      assert keys[i] in keys;
    }
    if index == 0 {
      var pred := PredecessorSince(data, limit, unique, position, lo);
      if pred.Some? {
        BelowIsLess(data, limit, unique, position, pred.value);
      }
    } else {
      var e := keys[index - 1];
      EntryStandsFor(data, limit, unique, lo, position, keys, reps, e);
      var p := At(unique, reps, e);
      BelowIsLess(data, limit, unique, position, p);
      forall q | lo <= q < position && Below(data, limit, unique, position, q)
        ensures Less(Key(data, limit, q), Key(data, limit, p)) || (Key(data, limit, q) == Key(data, limit, p) && q <= p)
      {
        BelowIsLess(data, limit, unique, position, q);
        var i :| 0 <= i < |keys| && keys[i] == EntryOf(data, limit, unique, q);
        assert i <= index - 1;
      }
      PredecessorIs(data, limit, unique, position, lo, p);
    }
  }

  lemma SuccessorIsThere(data: seq<byte>, limit: nat, unique: bool, lo: nat, position: nat,
                         keys: seq<Entry>, reps: Representatives, index: nat)
    requires position < |data| && Dictionary(data, limit, unique, lo, position, keys, reps)
    requires index <= |keys|
    requires forall i | 0 <= i < index :: EntryLess(keys[i], EntryOf(data, limit, unique, position))
    requires forall i | index <= i < |keys| :: !EntryLess(keys[i], EntryOf(data, limit, unique, position))
    ensures forall i | 0 <= i < |keys| :: unique ==> keys[i].key in reps
    ensures SuccessorSince(data, limit, unique, position, lo)
         == if index == |keys| then None else Some(At(unique, reps, keys[index]))
  {
    hide Key, Less, Below, SuccessorSince;
    forall i | 0 <= i < |keys| ensures unique ==> keys[i].key in reps {
      assert keys[i] in keys;
    }
    if index == |keys| {
      var succ := SuccessorSince(data, limit, unique, position, lo);
      if succ.Some? {
        BelowIsLess(data, limit, unique, position, succ.value);
      }
    } else {
      var e := keys[index];
      EntryStandsFor(data, limit, unique, lo, position, keys, reps, e);
      var p := At(unique, reps, e);
      BelowIsLess(data, limit, unique, position, p);
      forall q | lo <= q < position && !Below(data, limit, unique, position, q)
        ensures Less(Key(data, limit, p), Key(data, limit, q))
                || (Key(data, limit, q) == Key(data, limit, p) && if unique then q <= p else p <= q)
      {
        BelowIsLess(data, limit, unique, position, q);
        var i :| 0 <= i < |keys| && keys[i] == EntryOf(data, limit, unique, q);
        assert index <= i;
      }
      SuccessorIs(data, limit, unique, position, lo, p);
    }
  }

  method VisitOne(data: seq<byte>, previous: nat, position: nat, soFar: Match) returns (best: Match)
    requires previous < position < |data|
    ensures best == Later(soFar, Candidate(data, previous, position))
  {
    best := soFar;
    var length := Extend(data, previous, position, 0);
    if length >= 3 && length >= best.length {
      best := Match(length, position - previous);
    }
  }

  lemma LaterThanNothing(data: seq<byte>, previous: nat, position: nat)
    requires previous <= position <= |data|
    ensures Later(NO_MATCH, Candidate(data, previous, position)) == Candidate(data, previous, position)
  {
    hide MatchLength;
  }

  lemma NothingLater(a: Match)
    ensures Later(a, NO_MATCH) == a
  {
  }

  /** The loop over the two neighbours, predecessor first; the successor wins equal lengths. */
  method VisitBoth(data: seq<byte>, unique: bool, position: nat, keys: seq<Entry>, reps: Representatives, index: nat,
                   ghost pred: Option<nat>, ghost succ: Option<nat>)
    returns (best: Match)
    requires position < |data| && index <= |keys|
    requires forall e | e in keys :: unique ==> e.key in reps
    requires pred == if index == 0 then None else Some(At(unique, reps, keys[index - 1]))
    requires succ == if index == |keys| then None else Some(At(unique, reps, keys[index]))
    requires (pred.Some? ==> pred.value < position) && (succ.Some? ==> succ.value < position)
    ensures best == Later(Offer(data, position, pred), Offer(data, position, succ))
  {
    hide Candidate, Later;
    NothingLater(Offer(data, position, pred));
    best := NO_MATCH;
    var neighbor: int := index - 1;
    while neighbor <= index
      invariant index - 1 <= neighbor <= index + 1
      invariant best == if neighbor == index - 1 then NO_MATCH
                        else if neighbor == index then Offer(data, position, pred)
                        else Later(Offer(data, position, pred), Offer(data, position, succ))
    {
      if 0 <= neighbor < |keys| {
        var previous := At(unique, reps, keys[neighbor]);
        LaterThanNothing(data, previous, position);
        best := VisitOne(data, previous, position, best);
      }
      neighbor := neighbor + 1;
    }
  }

  method VisitNeighbours(data: seq<byte>, limit: nat, unique: bool, window: nat, position: nat,
                         keys: seq<Entry>, reps: Representatives, index: nat)
    returns (best: Match)
    requires position < |data|
    requires Dictionary(data, limit, unique, Oldest(position, window), position, keys, reps)
    requires index <= |keys|
    requires forall i | 0 <= i < index :: EntryLess(keys[i], EntryOf(data, limit, unique, position))
    requires forall i | index <= i < |keys| :: !EntryLess(keys[i], EntryOf(data, limit, unique, position))
    ensures best == NeighbourBest(data, limit, unique, window, position)
  {
    hide Dictionary, PredecessorSince, SuccessorSince, Candidate, EntryLess, EntryOf, Below, Key, Offer, Later;
    ghost var lo := Oldest(position, window);
    NeighboursAreThere(data, limit, unique, lo, position, keys, reps, index);
    ghost var pred := PredecessorSince(data, limit, unique, position, lo);
    ghost var succ := SuccessorSince(data, limit, unique, position, lo);
    best := VisitBoth(data, unique, position, keys, reps, index, pred, succ);
  }

  class LexicographicMatches {
    const data: seq<byte>
    const limit: nat
    const unique: bool
    const window: nat
    var matches: seq<Match>

    /** The stored answers are the neighbours' answers, one for each position. */
    ghost predicate Valid()
      reads this
    {
      |matches| == |data|
      && forall p | 0 <= p < |data| :: matches[p] == NeighbourBest(data, limit, unique, window, p)
    }

    constructor (data: seq<byte>, limit: nat, unique: bool, window: nat)
      ensures this.data == data && this.limit == limit && this.unique == unique && this.window == window
      ensures Valid()
    {
      hide Dictionary, NeighbourBest, EntryLess, Key;
      this.data, this.limit, this.unique, this.window := data, limit, unique, window;
      var keys: seq<Entry>, reps: Representatives, answers: seq<Match> := [], map[], [];
      EmptyDictionary(data, limit, unique);
      for position := 0 to |data|
        invariant Dictionary(data, limit, unique, Oldest(position, window + 1), position, keys, reps)
        invariant |answers| == position
        invariant forall p | 0 <= p < position :: answers[p] == NeighbourBest(data, limit, unique, window, p)
      {
        var expired := position - window - 1;
        if expired >= 0 {
          keys, reps := Expire(data, limit, unique, expired, position, keys, reps);
        }
        var lookup := EntryOf(data, limit, unique, position);
        DictionaryIsOrdered(data, limit, unique, Oldest(position, window), position, keys, reps);
        var index := BisectLeft(keys, lookup);
        var best := VisitNeighbours(data, limit, unique, window, position, keys, reps, index);
        answers := answers + [best];
        keys, reps := Insert(data, limit, unique, Oldest(position, window), position, keys, reps, index);
      }
      matches := answers;
    }

    method Best(position: nat) returns (best: Match)
      requires Valid()
      ensures best == NeighbourBest(data, limit, unique, window, position)
    {
      best := if position < |matches| then matches[position] else NO_MATCH;
    }
  }

  lemma EmptyDictionary(data: seq<byte>, limit: nat, unique: bool)
    ensures Dictionary(data, limit, unique, 0, 0, [], map[])
  {
  }

  lemma DictionaryIsOrdered(data: seq<byte>, limit: nat, unique: bool, lo: nat, hi: nat,
                            keys: seq<Entry>, reps: Representatives)
    requires hi <= |data| && Dictionary(data, limit, unique, lo, hi, keys, reps)
    ensures Ordered(keys)
  {
  }
}
