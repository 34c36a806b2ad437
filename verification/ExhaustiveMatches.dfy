/** The exhaustive match finder: every position, indexed by its first three bytes. */
module ExhaustiveMatches {
  import opened Results
  import opened Bytes
  import opened TokenFormat
  import opened Window

  type Index = map<seq<byte>, seq<nat>>

  /** A lookup in the index; a missing key has no positions. */
  function Get(index: Index, key: seq<byte>): seq<nat> {
    if key in index then index[key] else []
  }

  /** The three bytes at a position. */
  function Trigram(data: seq<byte>, p: nat): seq<byte>
    requires p + 3 <= |data|
  {
    data[p..p + 3]
  }

  /** The number of positions that start three bytes. */
  function Starts(data: seq<byte>): nat {
    Max(0, |data| - 2)
  }

  /** The positions below `n` where the three bytes of `key` stand, in increasing order. */
  function Occurrences(data: seq<byte>, key: seq<byte>, n: nat): seq<nat>
    requires n <= Starts(data)
  {
    if n == 0 then []
    else Occurrences(data, key, n - 1) + (if Trigram(data, n - 1) == key then [n - 1] else [])
  }

  predicate Increasing(ps: seq<nat>) {
    forall i, j | 0 <= i < j < |ps| :: ps[i] < ps[j]
  }

  lemma {:induction false} OccurrencesAre(data: seq<byte>, key: seq<byte>, n: nat)
    requires n <= Starts(data)
    ensures var ps := Occurrences(data, key, n);
            && Increasing(ps)
            && (forall i | 0 <= i < |ps| :: ps[i] < n && Trigram(data, ps[i]) == key)
            && forall p: nat | p < n && Trigram(data, p) == key :: p in ps
  {
    hide Trigram;
    if n > 0 {
      OccurrencesAre(data, key, n - 1);
      var before, ps := Occurrences(data, key, n - 1), Occurrences(data, key, n);
      assert forall p: nat | p in before :: p in ps;
      assert Trigram(data, n - 1) == key ==> ps[|before|] == n - 1;
    }
  }

  /** The reference answer: an exhaustive scan of the window, in the requested direction. */
  function ExhaustiveBest(data: seq<byte>, position: nat, oldest: bool): Match {
    if position > |data| then NO_MATCH
    else if oldest then OldestSince(data, position, Oldest(position, MAX_DISTANCE))
    else NearestSince(data, position, Oldest(position, MAX_DISTANCE))
  }

  /** The leftmost place for `x` in an increasing list. */
  method BisectLeft(ps: seq<nat>, x: nat) returns (k: nat)
    requires Increasing(ps)
    ensures k <= |ps|
    ensures forall i | 0 <= i < k :: ps[i] < x
    ensures forall i | k <= i < |ps| :: ps[i] >= x
  {
    var lo, hi := 0, |ps|;
    while lo < hi
      invariant 0 <= lo <= hi <= |ps|
      invariant forall i | 0 <= i < lo :: ps[i] < x
      invariant forall i | hi <= i < |ps| :: ps[i] >= x
    {
      var mid := (lo + hi) / 2;
      if ps[mid] < x { lo := mid + 1; } else { hi := mid; }
    }
    k := lo;
  }

  /** A position offers a match exactly when it shares three bytes with the current one. */
  lemma TrigramDecides(data: seq<byte>, p: nat, position: nat)
    requires p < position && position + 3 <= |data|
    ensures Trigram(data, p) == Trigram(data, position) <==> MatchLength(data, p, position) >= 3
  {
    LcpAtLeast(data[p..], data[position..], 3);
    assert data[p..p + 3] == data[p..][..3] && data[position..position + 3] == data[position..][..3];
  }

  /** The list of a position's own trigram, as the finder walks it. */
  predicate Indexed(data: seq<byte>, position: nat, choices: seq<nat>) {
    && position + 3 <= |data|
    && Increasing(choices)
    && (forall i | 0 <= i < |choices| ::
          choices[i] + 3 <= |data| && Trigram(data, choices[i]) == Trigram(data, position))
    && forall p: nat | p < position && Trigram(data, p) == Trigram(data, position) :: p in choices
  }

  /** Nothing that could match stands between two consecutive indexed positions. */
  lemma GapBetween(data: seq<byte>, position: nat, choices: seq<nat>, k: nat, first: nat, upTo: nat)
    requires Indexed(data, position, choices) && k <= |choices| && upTo <= position
    requires k > 0 ==> choices[k - 1] < first
    requires k < |choices| ==> upTo <= choices[k]
    ensures OffersNothing(data, position, first, upTo)
  {
    forall p | first <= p < upTo ensures Candidate(data, p, position) == NO_MATCH {
      forall i | 0 <= i < |choices| ensures choices[i] != p {
        assert if i < k then choices[i] <= choices[k - 1] else choices[k] <= choices[i];
      }
      assert p !in choices;
      TrigramDecides(data, p, position);
    }
  }

  /** The search state: `best` and what is left of the window give the exhaustive answer. */
  ghost predicate Seen(data: seq<byte>, position: nat, oldest: bool, best: Match, rest: nat)
    requires position <= |data|
  {
    var start := Oldest(position, MAX_DISTANCE);
    && start <= rest <= position
    && if oldest then Better(best, OldestSince(data, position, rest)) == OldestSince(data, position, start)
       else best == NearestSince(data, position, rest)
  }

  /** Visiting the next position that offers something keeps the search state. */
  lemma SeenNext(data: seq<byte>, position: nat, oldest: bool, best: Match, rest: nat, previous: nat)
    requires Oldest(position, MAX_DISTANCE) <= previous < position <= |data|
    requires Seen(data, position, oldest, best, rest)
    requires if oldest then rest <= previous && OffersNothing(data, position, rest, previous)
             else previous < rest && OffersNothing(data, position, previous + 1, rest)
    ensures Seen(data, position, oldest, Better(best, Candidate(data, previous, position)),
                 if oldest then previous + 1 else previous)
  {
    if oldest {
      SkipGap(data, position, rest, previous);
    } else {
      SkipGap(data, position, previous + 1, rest);
    }
  }

  /** A search that has nothing left to visit is complete. */
  lemma SeenAll(data: seq<byte>, position: nat, oldest: bool, best: Match, rest: nat)
    requires position <= |data| && Seen(data, position, oldest, best, rest)
    requires if oldest then OffersNothing(data, position, rest, position)
             else OffersNothing(data, position, Oldest(position, MAX_DISTANCE), rest)
    ensures best == ExhaustiveBest(data, position, oldest)
  {
    if oldest {
      SkipGap(data, position, rest, position);
    } else {
      SkipGap(data, position, Oldest(position, MAX_DISTANCE), rest);
    }
  }

  /** A match at the limit ends the search: nothing left of the window can win. */
  lemma StopAtLimit(data: seq<byte>, position: nat, oldest: bool, best: Match, rest: nat)
    requires position <= |data| && Seen(data, position, oldest, best, rest)
    requires best.length == Limit(data, position)
    ensures best == ExhaustiveBest(data, position, oldest)
  {
    if oldest {
      OldestWithinLimit(data, position, rest);
    } else {
      FullMatchStays(data, position, Oldest(position, MAX_DISTANCE), rest);
    }
  }

  /** Too close to the end of the data, no position offers a match. */
  lemma NothingShort(data: seq<byte>, position: nat, oldest: bool)
    requires Limit(data, position) < 3
    ensures ExhaustiveBest(data, position, oldest) == NO_MATCH
  {
    if position <= |data| {
      var lo := Oldest(position, MAX_DISTANCE);
      forall p | lo <= p < position ensures Candidate(data, p, position) == NO_MATCH {
        MatchLengthLimit(data, p, position);
      }
      SkipGap(data, position, lo, position);
    }
  }

  /** Where the walk stands after `k` visits: everything outside is still to be searched. */
  function Rest(position: nat, oldest: bool, choices: seq<nat>, lo: nat, hi: nat, k: nat): nat
    requires lo <= |choices| && hi <= |choices| && (k == 0 || lo + k <= hi)
  {
    if oldest then (if k == 0 then Oldest(position, MAX_DISTANCE) else choices[lo + k - 1] + 1)
    else if k == 0 then position else choices[hi - k]
  }

  /** The bounds that bisection finds: `choices[lo..hi]` are the indexed positions of the window. */
  predicate Bounds(position: nat, choices: seq<nat>, lo: nat, hi: nat) {
    && lo <= |choices| && hi <= |choices|
    && (forall i | 0 <= i < lo :: choices[i] < Oldest(position, MAX_DISTANCE))
    && (forall i | lo <= i < |choices| :: choices[i] >= Oldest(position, MAX_DISTANCE))
    && (forall i | 0 <= i < hi :: choices[i] < position)
    && forall i | hi <= i < |choices| :: choices[i] >= position
  }

  lemma WalkStarts(data: seq<byte>, position: nat, oldest: bool, choices: seq<nat>, lo: nat, hi: nat)
    requires position <= |data| && lo <= |choices| && hi <= |choices|
    ensures Seen(data, position, oldest, NO_MATCH, Rest(position, oldest, choices, lo, hi, 0))
  {
    OldestIsOldest(data, position, Oldest(position, MAX_DISTANCE));
  }

  /** The `k`-th visit of the walk keeps the search state. */
  lemma WalkNext(data: seq<byte>, position: nat, oldest: bool, choices: seq<nat>, lo: nat, hi: nat, k: nat, best: Match)
    requires Indexed(data, position, choices) && Bounds(position, choices, lo, hi) && lo + k < hi
    requires Seen(data, position, oldest, best, Rest(position, oldest, choices, lo, hi, k))
    ensures var previous := choices[if oldest then lo + k else hi - 1 - k];
            Seen(data, position, oldest, Better(best, Candidate(data, previous, position)),
                 Rest(position, oldest, choices, lo, hi, k + 1))
  {
    hide Seen, OffersNothing, Trigram, Candidate;
    var at := if oldest then lo + k else hi - 1 - k;
    var rest := Rest(position, oldest, choices, lo, hi, k);
    if oldest {
      GapBetween(data, position, choices, at, rest, choices[at]);
    } else {
      GapBetween(data, position, choices, at + 1, choices[at] + 1, rest);
    }
    SeenNext(data, position, oldest, best, rest, choices[at]);
  }

  lemma WalkEnds(data: seq<byte>, position: nat, oldest: bool, choices: seq<nat>, lo: nat, hi: nat, k: nat, best: Match)
    requires Indexed(data, position, choices) && Bounds(position, choices, lo, hi)
    requires (k == 0 && hi <= lo) || lo + k == hi
    requires Seen(data, position, oldest, best, Rest(position, oldest, choices, lo, hi, k))
    ensures best == ExhaustiveBest(data, position, oldest)
  {
    var rest := Rest(position, oldest, choices, lo, hi, k);
    if oldest {
      GapBetween(data, position, choices, hi, rest, position);
    } else {
      GapBetween(data, position, choices, lo, Oldest(position, MAX_DISTANCE), rest);
    }
    SeenAll(data, position, oldest, best, rest);
  }

  /** The loop body: skips a position that cannot beat `best`, else extends its match. */
  method Visit(data: seq<byte>, position: nat, previous: nat, soFar: Match) returns (best: Match)
    requires previous < position && position + 3 <= |data| && Trigram(data, previous) == Trigram(data, position)
    requires soFar == NO_MATCH || 3 <= soFar.length < Limit(data, position)
    ensures best == Better(soFar, Candidate(data, previous, position))
    ensures 3 <= best.length <= Limit(data, position)
  {
    hide MatchLength;
    TrigramDecides(data, previous, position);
    MatchLengthLimit(data, previous, position);
    best := soFar;
    if best.length != 0 && data[previous + best.length] != data[position + best.length] {
      MatchLengthStops(data, previous, position, best.length);
      return;
    }
    var length := Extend(data, previous, position, 3);
    if length > best.length {
      best := Match(length, position - previous);
    }
  }

  /** The walk over `choices[lo..hi]` in either direction, ending early on a match at the limit. */
  method Walk(data: seq<byte>, position: nat, oldest: bool, choices: seq<nat>, lo: nat, hi: nat)
    returns (best: Match)
    requires Indexed(data, position, choices) && Bounds(position, choices, lo, hi)
    ensures best == ExhaustiveBest(data, position, oldest)
  {
    hide Seen, ExhaustiveBest, Candidate, Trigram, Rest;
    best := NO_MATCH;
    WalkStarts(data, position, oldest, choices, lo, hi);
    var k := 0;
    while k < hi - lo
      invariant 0 <= k && (k == 0 || lo + k <= hi)
      invariant best == NO_MATCH || 3 <= best.length < Limit(data, position)
      invariant Seen(data, position, oldest, best, Rest(position, oldest, choices, lo, hi, k))
    {
      var at := if oldest then lo + k else hi - 1 - k;
      WalkNext(data, position, oldest, choices, lo, hi, k, best);
      best := Visit(data, position, choices[at], best);
      k := k + 1;
      if best.length == Limit(data, position) {
        StopAtLimit(data, position, oldest, best, Rest(position, oldest, choices, lo, hi, k));
        return;
      }
    }
    WalkEnds(data, position, oldest, choices, lo, hi, k, best);
  }

  class Matches {
    const data: seq<byte>
    var index: Index

    ghost predicate Valid()
      reads this
    {
      forall key :: Get(index, key) == Occurrences(data, key, Starts(data))
    }

    constructor (data: seq<byte>)
      ensures this.data == data && Valid()
    {
      this.data := data;
      var built: Index := map[];
      for position := 0 to Starts(data)
        invariant forall key :: Get(built, key) == Occurrences(data, key, position)
      {
        var key := Trigram(data, position);
        ghost var before := built;
        built := built[key := Get(built, key) + [position]];
        forall other
          ensures Get(built, other) == Occurrences(data, other, position + 1)
        {
          assert Get(before, other) == Occurrences(data, other, position);
        }
      }
      index := built;
    }

    method Best(position: nat, oldest: bool) returns (best: Match)
      requires Valid()
      ensures best == ExhaustiveBest(data, position, oldest)
    {
      hide ExhaustiveBest, Occurrences;
      if Limit(data, position) < 3 {
        NothingShort(data, position, oldest);
        return NO_MATCH;
      }
      var key := Trigram(data, position);
      assert Get(index, key) == Occurrences(data, key, Starts(data));
      OccurrencesAre(data, key, Starts(data));
      var choices := Get(index, key);
      var lo := BisectLeft(choices, Oldest(position, MAX_DISTANCE));
      var hi := BisectLeft(choices, position);
      best := Walk(data, position, oldest, choices, lo, hi);
    }
  }
}
