/** Earlier occurrences of the bytes at a position, and what an exhaustive search would find. */
module Window {
  import opened Results
  import opened Bytes
  import opened TokenFormat
  import opened Scatterload

  /** A match length and distance; a position without a match has both zero. */
  datatype Match = Match(length: nat, distance: nat)

  const NO_MATCH := Match(0, 0)

  /** The longest that a match from `previous` to `position` can be. */
  function MatchLength(data: seq<byte>, previous: nat, position: nat): nat
    requires previous <= position <= |data|
  {
    Min(Lcp(data[previous..], data[position..]), MAX_MATCH)
  }

  /** The longest that any match at `position` can be. */
  function Limit(data: seq<byte>, position: nat): int {
    Min(MAX_MATCH, |data| - position)
  }

  /** A match that the format can express and that repeats what stands in the data. */
  predicate IsMatch(data: seq<byte>, position: nat, window: nat, m: Match) {
    && 3 <= m.length <= MAX_MATCH && 1 <= m.distance <= window
    && m.distance <= position && position + m.length <= |data|
    && Repeats(data, position, position + m.length, m.distance)
  }

  /** The first position that is still inside the window. */
  function Oldest(position: nat, window: nat): nat {
    Max(0, position - window)
  }

  /** What the position `previous` offers: nothing below three bytes. */
  function Candidate(data: seq<byte>, previous: nat, position: nat): Match
    requires previous <= position <= |data|
  {
    var n := MatchLength(data, previous, position);
    if n >= 3 then Match(n, position - previous) else NO_MATCH
  }

  /** A second offer wins only by being strictly longer. */
  function Better(a: Match, b: Match): Match {
    if b.length > a.length then b else a
  }

  /** Exhaustive search from `position - 1` down to `lo`: nearest among the longest. */
  function NearestSince(data: seq<byte>, position: nat, lo: nat): Match
    requires position <= |data|
    decreases position - lo
  {
    if lo >= position then NO_MATCH
    else Better(NearestSince(data, position, lo + 1), Candidate(data, lo, position))
  }

  /** Exhaustive search from `lo` up to `position - 1`: oldest among the longest. */
  function OldestSince(data: seq<byte>, position: nat, lo: nat): Match
    requires position <= |data|
    decreases position - lo
  {
    if lo >= position then NO_MATCH
    else Better(Candidate(data, lo, position), OldestSince(data, position, lo + 1))
  }

  /** The length of the longest match of three bytes or more in the window, or zero. */
  function LongestMatch(data: seq<byte>, position: nat, window: nat): nat {
    if position > |data| then 0 else NearestSince(data, position, Oldest(position, window)).length
  }

  // ----- Matches and common prefixes -----

  /** A match of `n` bytes is exactly a shift of `n` bytes of the data. */
  lemma MatchLengthRepeats(data: seq<byte>, previous: nat, position: nat, n: nat)
    requires previous <= position <= |data| && n <= MAX_MATCH
    ensures n <= MatchLength(data, previous, position)
       <==> position + n <= |data| && Repeats(data, position, position + n, position - previous)
  {
    LcpAtLeast(data[previous..], data[position..], n);
    if position + n <= |data| {
      var a, b := data[previous..][..n], data[position..][..n];
      if Repeats(data, position, position + n, position - previous) {
        forall j | 0 <= j < n ensures a[j] == b[j] {
          assert data[position + j] == data[position + j - (position - previous)];
        }
      }
      if a == b {
        forall k | position <= k < position + n ensures data[k] == data[k - (position - previous)] {
          assert a[k - position] == b[k - position];
        }
      }
    }
  }

  lemma MatchLengthLimit(data: seq<byte>, previous: nat, position: nat)
    requires previous <= position <= |data|
    ensures MatchLength(data, previous, position) <= Limit(data, position)
  {
  }

  /** The byte after a longest match differs, unless the match is at its limit. */
  lemma MatchLengthStops(data: seq<byte>, previous: nat, position: nat, n: nat)
    requires previous <= position <= |data| && n < Limit(data, position)
    requires data[previous + n] != data[position + n]
    ensures MatchLength(data, previous, position) <= n
  {
    MatchLengthRepeats(data, previous, position, n + 1);
    assert position + n - (position - previous) == previous + n;
  }

  /** Extends a match byte by byte from `start` bytes that are known to agree. */
  method Extend(data: seq<byte>, previous: nat, position: nat, start: nat) returns (length: nat)
    requires previous <= position <= |data| && start <= MatchLength(data, previous, position)
    ensures length == MatchLength(data, previous, position)
  {
    length := start;
    var limit := Limit(data, position);
    MatchLengthLimit(data, previous, position);
    while length < limit && data[previous + length] == data[position + length]
      invariant length <= MatchLength(data, previous, position)
    {
      MatchLengthRepeats(data, previous, position, length);
      MatchLengthRepeats(data, previous, position, length + 1);
      length := length + 1;
    }
    if length < limit {
      MatchLengthStops(data, previous, position, length);
    }
  }

  lemma CandidateIsMatch(data: seq<byte>, previous: nat, position: nat, window: nat)
    requires Oldest(position, window) <= previous < position <= |data|
    requires Candidate(data, previous, position) != NO_MATCH
    ensures IsMatch(data, position, window, Candidate(data, previous, position))
  {
    MatchLengthRepeats(data, previous, position, MatchLength(data, previous, position));
  }

  // ----- What exhaustive search finds -----

  /** Both searches find the same length, and no position offers more. */
  lemma {:induction false} SearchesAgree(data: seq<byte>, position: nat, lo: nat)
    requires position <= |data|
    ensures NearestSince(data, position, lo).length == OldestSince(data, position, lo).length
    ensures forall p | lo <= p < position ::
              Candidate(data, p, position).length <= NearestSince(data, position, lo).length
    decreases position - lo
  {
    hide MatchLength;
    if lo < position {
      SearchesAgree(data, position, lo + 1);
    }
  }

  /** The nearest longest match is attained, and no nearer position attains it. */
  lemma {:induction false} NearestIsNearest(data: seq<byte>, position: nat, lo: nat)
    requires position <= |data|
    ensures var m := NearestSince(data, position, lo);
            && (m == NO_MATCH || (1 <= m.distance <= position - lo
                                  && Candidate(data, position - m.distance, position) == m))
            && forall p | lo <= p < position && position - p < m.distance ::
                 Candidate(data, p, position).length < m.length
    decreases position - lo
  {
    hide MatchLength;
    if lo < position {
      NearestIsNearest(data, position, lo + 1);
      SearchesAgree(data, position, lo + 1);
    }
  }

  /** The oldest longest match is attained, and no older position of the window attains it. */
  lemma {:induction false} OldestIsOldest(data: seq<byte>, position: nat, lo: nat)
    requires position <= |data|
    ensures var m := OldestSince(data, position, lo);
            && (m == NO_MATCH || (1 <= m.distance <= position - lo
                                  && Candidate(data, position - m.distance, position) == m))
            && forall p | lo <= p < position && position - p > m.distance && m != NO_MATCH ::
                 Candidate(data, p, position).length < m.length
    decreases position - lo
  {
    hide MatchLength;
    if lo < position {
      OldestIsOldest(data, position, lo + 1);
      SearchesAgree(data, position, lo + 1);
    }
  }

  /** The longest match length, independently of how it is searched for. */
  lemma LongestMatchIs(data: seq<byte>, position: nat, window: nat, n: nat)
    requires position <= |data|
    requires forall p | Oldest(position, window) <= p < position :: Candidate(data, p, position).length <= n
    requires n == 0 || exists p | Oldest(position, window) <= p < position :: Candidate(data, p, position).length == n
    ensures LongestMatch(data, position, window) == n
  {
    SearchesAgree(data, position, Oldest(position, window));
    NearestIsNearest(data, position, Oldest(position, window));
  }

  lemma LongestIsNoStub(data: seq<byte>, position: nat, window: nat)
    ensures LongestMatch(data, position, window) == 0 || LongestMatch(data, position, window) >= 3
  {
    hide MatchLength;
    if position <= |data| {
      NearestIsNearest(data, position, Oldest(position, window));
    }
  }

  // ----- Skipping positions that offer nothing -----

  predicate OffersNothing(data: seq<byte>, position: nat, first: nat, upTo: nat)
    requires upTo <= position <= |data|
  {
    forall p | first <= p < upTo :: Candidate(data, p, position) == NO_MATCH
  }

  lemma {:induction false} SkipGap(data: seq<byte>, position: nat, first: nat, upTo: nat)
    requires first <= upTo <= position <= |data| && OffersNothing(data, position, first, upTo)
    ensures NearestSince(data, position, first) == NearestSince(data, position, upTo)
    ensures OldestSince(data, position, first) == OldestSince(data, position, upTo)
    decreases upTo - first
  {
    if first < upTo {
      SkipGap(data, position, first + 1, upTo);
      assert Candidate(data, first, position) == NO_MATCH;
      if OldestSince(data, position, upTo).length == 0 {
        OldestIsOldest(data, position, upTo);
      }
    }
  }

  /** Once a search has a match at the limit, the rest of the window cannot improve it. */
  lemma {:induction false} FullMatchStays(data: seq<byte>, position: nat, lo: nat, q: nat)
    requires lo <= q <= position <= |data|
    requires NearestSince(data, position, q).length >= Limit(data, position)
    ensures NearestSince(data, position, lo) == NearestSince(data, position, q)
    decreases q - lo
  {
    if lo < q {
      FullMatchStays(data, position, lo + 1, q);
      MatchLengthLimit(data, lo, position);
    }
  }

  lemma OldestWithinLimit(data: seq<byte>, position: nat, lo: nat)
    requires position <= |data|
    ensures OldestSince(data, position, lo).length <= Limit(data, position)
  {
    OldestIsOldest(data, position, lo);
    var m := OldestSince(data, position, lo);
    if m != NO_MATCH {
      MatchLengthLimit(data, position - m.distance, position);
    }
  }
}
