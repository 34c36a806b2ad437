/** The encoder: a lazy or greedy parse of the input, guided by one of the match finders. */
module Compressor {
  import opened Results
  import opened Bytes
  import opened TokenFormat
  import opened Scatterload
  import opened Inspector
  import opened Streams
  import opened Window
  import Exhaustive = ExhaustiveMatches
  import Lexicographic = LexicographicMatches
  import BinaryTree = BinaryTreeMatches

  datatype Hypothesis =
    | GreedyNearest | LazyNearest | LazyOldest | LazyBst | LazyLex257 | LazyFullSuffix | LazyLex128

  /** The hypothesis of a name; other names are refused. */
  function Named(name: string): Option<Hypothesis> {
    match name
    case "greedy-nearest" => Some(GreedyNearest)
    case "lazy-nearest" => Some(LazyNearest)
    case "lazy-oldest" => Some(LazyOldest)
    case "lazy-bst" => Some(LazyBst)
    case "lazy-lex257" => Some(LazyLex257)
    case "lazy-fullsuffix" => Some(LazyFullSuffix)
    case "lazy-lex128" => Some(LazyLex128)
    case _ => None
  }

  predicate Lazy(h: Hypothesis) {
    h != GreedyNearest
  }

  /** The match that a hypothesis' finder reports at a position. */
  function Answer(data: seq<byte>, h: Hypothesis, position: nat): Match {
    match h
    case GreedyNearest => Exhaustive.ExhaustiveBest(data, position, false)
    case LazyNearest => Exhaustive.ExhaustiveBest(data, position, false)
    case LazyOldest => Exhaustive.ExhaustiveBest(data, position, true)
    case LazyBst => BinaryTree.TreeBest(data, position)
    case LazyLex257 => Lexicographic.NeighbourBest(data, MAX_MATCH, false, MAX_DISTANCE, position)
    case LazyFullSuffix => Lexicographic.NeighbourBest(data, 0, false, MAX_DISTANCE, position)
    case LazyLex128 => Lexicographic.NeighbourBest(data, 128, true, MAX_DISTANCE, position)
  }

  /** Whatever the finder, its answer is a match of the data inside the format's bounds. */
  lemma AnswerIsMatch(data: seq<byte>, h: Hypothesis, position: nat)
    requires position < |data|
    ensures var m := Answer(data, h, position); m == NO_MATCH || IsMatch(data, position, MAX_DISTANCE, m)
  {
    hide IsMatch, Candidate, NearestSince, OldestSince, Lexicographic.NeighbourBest, BinaryTree.TreeBest;
    var lo := Oldest(position, MAX_DISTANCE);
    match h
    case LazyOldest =>
      OldestIsOldest(data, position, lo);
      if Answer(data, h, position) != NO_MATCH {
        CandidateIsMatch(data, position - Answer(data, h, position).distance, position, MAX_DISTANCE);
      }
    case LazyBst => BinaryTree.TreeBestIsMatch(data, position);
    case LazyLex257 => Lexicographic.NeighbourBestFromWindow(data, MAX_MATCH, false, MAX_DISTANCE, position);
    case LazyFullSuffix => Lexicographic.NeighbourBestFromWindow(data, 0, false, MAX_DISTANCE, position);
    case LazyLex128 => Lexicographic.NeighbourBestFromWindow(data, 128, true, MAX_DISTANCE, position);
    case _ =>
      NearestIsNearest(data, position, lo);
      if Answer(data, h, position) != NO_MATCH {
        CandidateIsMatch(data, position - Answer(data, h, position).distance, position, MAX_DISTANCE);
      }
  }

  /** The parser's decision: a lazy parse gives up a match if the next one is longer by two. */
  function Chosen(data: seq<byte>, h: Hypothesis, position: nat): Match {
    var m := Answer(data, h, position);
    if m.length != 0 && Lazy(h) && Answer(data, h, position + 1).length > m.length + 1 then NO_MATCH else m
  }

  lemma ChosenIsMatch(data: seq<byte>, h: Hypothesis, position: nat)
    requires position < |data|
    ensures var m := Chosen(data, h, position); m == NO_MATCH || IsMatch(data, position, MAX_DISTANCE, m)
  {
    AnswerIsMatch(data, h, position);
  }

  /** The tokens of the rest of the input, with some literals pending. */
  function Parse(data: seq<byte>, h: Hypothesis, position: nat, literals: seq<byte>): seq<Token>
    decreases |data| - position
  {
    if position >= |data| then (if literals == [] then [] else [Token(literals, 0, 0)])
    else
      var m := Chosen(data, h, position);
      if m.length != 0 then
        [Token(literals, m.length, m.distance)] + Parse(data, h, position + m.length, [])
      else
        var more := literals + [data[position]];
        if |more| == MAX_LITERALS then [Token(more, 0, 0)] + Parse(data, h, position + 1, [])
        else Parse(data, h, position + 1, more)
  }

  /** The pending literals are the bytes just before the position. */
  predicate Pending(data: seq<byte>, position: nat, literals: seq<byte>) {
    && |literals| < MAX_LITERALS
    && |literals| <= position <= |data|
    && data[position - |literals|..position] == literals
  }

  /** One round of the parsing loop takes one token, or one literal, off the parse. */
  lemma ParseStep(data: seq<byte>, h: Hypothesis, position: nat, literals: seq<byte>)
    requires position < |data| && Pending(data, position, literals)
    ensures var m := Chosen(data, h, position);
            var more := literals + [data[position]];
            && (m.length != 0 ==>
                && WellFormed(Token(literals, m.length, m.distance))
                && Pending(data, position + m.length, [])
                && Parse(data, h, position, literals)
                   == [Token(literals, m.length, m.distance)] + Parse(data, h, position + m.length, []))
            && (m.length == 0 && |more| == MAX_LITERALS ==>
                && WellFormed(Token(more, 0, 0))
                && Pending(data, position + 1, [])
                && Parse(data, h, position, literals) == [Token(more, 0, 0)] + Parse(data, h, position + 1, []))
            && (m.length == 0 && |more| != MAX_LITERALS ==>
                && Pending(data, position + 1, more)
                && Parse(data, h, position, literals) == Parse(data, h, position + 1, more))
  {
    hide Chosen, Repeats;
    ChosenIsMatch(data, h, position);
    assert data[position - |literals|..position + 1] == literals + [data[position]];
  }

  /** The parse spells out the data, from any point of the loop. */
  lemma {:induction false} ParseSpells(data: seq<byte>, h: Hypothesis, position: nat, literals: seq<byte>)
    requires Pending(data, position, literals)
    ensures Spells(Parse(data, h, position, literals), position - |literals|, data)
    ensures AllWellFormed(Parse(data, h, position, literals))
    decreases |data| - position
  {
    hide Chosen, Repeats, Spells, AllWellFormed, WellFormed, Parse;
    var done := position - |literals|;
    if position >= |data| {
      ParseEnd(data, h, literals);
    } else {
      ParseStep(data, h, position, literals);
      var m := Chosen(data, h, position);
      var more := literals + [data[position]];
      if m.length != 0 {
        ParseSpells(data, h, position + m.length, []);
        SpellsMatch(data, h, position, literals, Parse(data, h, position + m.length, []));
      } else if |more| == MAX_LITERALS {
        ParseSpells(data, h, position + 1, []);
        assert data[done..position + 1] == more;
        SpellsCons(Token(more, 0, 0), Parse(data, h, position + 1, []), done, data);
      } else {
        ParseSpells(data, h, position + 1, more);
      }
    }
  }

  lemma SpellsMatch(data: seq<byte>, h: Hypothesis, position: nat, literals: seq<byte>, ts: seq<Token>)
    requires Pending(data, position, literals) && position < |data|
    requires var m := Chosen(data, h, position);
             m.length != 0 && Spells(ts, position + m.length, data) && AllWellFormed(ts)
    ensures var m := Chosen(data, h, position);
            var t := Token(literals, m.length, m.distance);
            Spells([t] + ts, position - |literals|, data) && AllWellFormed([t] + ts)
  {
    hide Chosen, Repeats, Spells, AllWellFormed;
    ChosenIsMatch(data, h, position);
    var m := Chosen(data, h, position);
    SpellsCons(Token(literals, m.length, m.distance), ts, position - |literals|, data);
  }

  lemma ParseEnd(data: seq<byte>, h: Hypothesis, literals: seq<byte>)
    requires Pending(data, |data|, literals)
    ensures Spells(Parse(data, h, |data|, literals), |data| - |literals|, data)
    ensures AllWellFormed(Parse(data, h, |data|, literals))
  {
    if literals != [] {
      assert [Token(literals, 0, 0)][1..] == [];
    }
  }

  /** Only the last token of a parse may carry neither a match nor a full run of literals. */
  lemma {:induction false} ParsePacked(data: seq<byte>, h: Hypothesis, position: nat, literals: seq<byte>)
    ensures Packed(Parse(data, h, position, literals))
    decreases |data| - position
  {
    hide Chosen;
    if position < |data| {
      var m := Chosen(data, h, position);
      var more := literals + [data[position]];
      if m.length != 0 {
        ParsePacked(data, h, position + m.length, []);
      } else if |more| == MAX_LITERALS {
        ParsePacked(data, h, position + 1, []);
      } else {
        ParsePacked(data, h, position + 1, more);
      }
    }
  }

  /** The compressed stream. */
  function Compressed(data: seq<byte>, h: Hypothesis): seq<byte> {
    ParseSpells(data, h, 0, []);
    EncodeAll(Parse(data, h, 0, []))
  }

  // ----- Main results -----

  /**
   * Round trip, for every input, every hypothesis and any bytes that follow: the decoder
   * returns the input and consumes exactly the compressed stream.
   */
  lemma RoundTrip(data: seq<byte>, h: Hypothesis, rest: seq<byte>)
    ensures Expand(Compressed(data, h) + rest, |data|, 0, [])
         == Success(Expansion(data, |Compressed(data, h)|))
  {
    hide EncodeAll, Parse, Expand;
    ParseSpells(data, h, 0, []);
    var src := Compressed(data, h) + rest;
    assert src[0..|Compressed(data, h)|] == Compressed(data, h);
    SpelledExpands(Parse(data, h, 0, []), 0, data, src, 0);
    assert data[..0] == [];
  }

  /** The inspector accepts every compressed stream and recovers the parser's tokens from it. */
  lemma Inspectable(data: seq<byte>, h: Hypothesis, rest: seq<byte>)
    ensures AllWellFormed(Parse(data, h, 0, []))
    ensures InspectFrom(Compressed(data, h) + rest, |data|, 0, 0)
         == Success(Inspection(RecordsOf(Parse(data, h, 0, []), 0, 0), |Compressed(data, h)|))
  {
    hide EncodeAll, Parse, InspectFrom, RecordsOf;
    ParseSpells(data, h, 0, []);
    var src := Compressed(data, h) + rest;
    assert src[0..|Compressed(data, h)|] == Compressed(data, h);
    SpelledInspects(Parse(data, h, 0, []), 0, data, src, 0);
  }

  /** No input grows by more than a sixth and three bytes. */
  lemma ExpansionBound(data: seq<byte>, h: Hypothesis)
    ensures 6 * |Compressed(data, h)| <= 7 * |data| + 18
  {
    ParseSpells(data, h, 0, []);
    ParsePacked(data, h, 0, []);
    SpelledCost(Parse(data, h, 0, []), 0, data);
  }

  /** When a hypothesis' finder reports the longest match length everywhere. */
  ghost predicate FindsLongest(data: seq<byte>, h: Hypothesis) {
    match h
    case LazyBst => forall p | 0 <= p < |data| :: BinaryTree.ReachesLongest(data, p)
    case LazyLex128 => forall p | 0 <= p < |data| :: Lexicographic.NewestIsLongest(data, 128, MAX_DISTANCE, p)
    case _ => true
  }

  /** At the end of the data there is nothing to match. */
  lemma NothingAtEnd(data: seq<byte>, h: Hypothesis, position: nat)
    requires position >= |data|
    ensures Answer(data, h, position) == NO_MATCH
  {
    Exhaustive.NothingShort(data, position, false);
    Exhaustive.NothingShort(data, position, true);
  }

  lemma AnswerLength(data: seq<byte>, h: Hypothesis, position: nat)
    requires FindsLongest(data, h) && position < |data|
    ensures Answer(data, h, position).length == LongestMatch(data, position, MAX_DISTANCE)
  {
    hide NearestSince, OldestSince, Lexicographic.NeighbourBest, BinaryTree.TreeBest;
    match h
    case LazyOldest => SearchesAgree(data, position, Oldest(position, MAX_DISTANCE));
    case LazyBst => BinaryTree.TreeExact(data, position);
    case LazyLex257 => Lexicographic.NeighbourTheorem(data, MAX_MATCH, false, MAX_DISTANCE, position);
    case LazyFullSuffix => Lexicographic.NeighbourTheorem(data, 0, false, MAX_DISTANCE, position);
    case LazyLex128 => Lexicographic.KeysExact(data, 128, true, MAX_DISTANCE, position);
    case _ =>
  }

  /** For the tree, this is the case if and only if it reaches a longest match everywhere. */
  lemma TreeFindsLongest(data: seq<byte>)
    ensures FindsLongest(data, LazyBst) <==>
              forall p | 0 <= p < |data| :: Answer(data, LazyBst, p).length == LongestMatch(data, p, MAX_DISTANCE)
    ensures (forall p | 0 <= p < |data| :: BinaryTree.Unrivalled(data, p)) ==> FindsLongest(data, LazyBst)
    ensures |data| <= MAX_DISTANCE + 1 ==> FindsLongest(data, LazyBst)
  {
    hide BinaryTree.TreeBest, BinaryTree.ReachesLongest, LongestMatch;
    forall p | 0 <= p < |data|
      ensures BinaryTree.ReachesLongest(data, p) <==>
                Answer(data, LazyBst, p).length == LongestMatch(data, p, MAX_DISTANCE)
      ensures BinaryTree.Unrivalled(data, p) ==> BinaryTree.ReachesLongest(data, p)
    {
      BinaryTree.TreeExact(data, p);
      if BinaryTree.Unrivalled(data, p) {
        BinaryTree.TreeTheorem(data, p);
      }
    }
  }

  /** For the canonical keys, this is the case if and only if the newest equal key always has a longest match. */
  lemma KeysFindLongest(data: seq<byte>)
    ensures FindsLongest(data, LazyLex128) <==>
              forall p | 0 <= p < |data| :: Answer(data, LazyLex128, p).length == LongestMatch(data, p, MAX_DISTANCE)
    ensures (forall p | 0 <= p < |data| :: LongestMatch(data, p, MAX_DISTANCE) < 128) ==> FindsLongest(data, LazyLex128)
  {
    hide Lexicographic.NeighbourBest, LongestMatch;
    forall p | 0 <= p < |data|
      ensures Lexicographic.NewestIsLongest(data, 128, MAX_DISTANCE, p) <==>
                Answer(data, LazyLex128, p).length == LongestMatch(data, p, MAX_DISTANCE)
    {
      Lexicographic.KeysExact(data, 128, true, MAX_DISTANCE, p);
    }
  }

  /** Tokens with their distances erased: literals and match lengths. */
  function Undistanced(ts: seq<Token>): seq<Token> {
    if ts == [] then [] else [ts[0].(distance := 0)] + Undistanced(ts[1..])
  }

  /** Equal answers in length lead to equal decisions in length. */
  lemma ChosenLength(data: seq<byte>, h1: Hypothesis, h2: Hypothesis, position: nat)
    requires Lazy(h1) == Lazy(h2) && FindsLongest(data, h1) && FindsLongest(data, h2) && position < |data|
    ensures Chosen(data, h1, position).length == Chosen(data, h2, position).length
  {
    hide Answer, FindsLongest;
    AnswerLength(data, h1, position);
    AnswerLength(data, h2, position);
    if position + 1 < |data| {
      AnswerLength(data, h1, position + 1);
      AnswerLength(data, h2, position + 1);
    } else {
      NothingAtEnd(data, h1, position + 1);
      NothingAtEnd(data, h2, position + 1);
    }
  }

  lemma UndistancedCons(t: Token, ts: seq<Token>)
    ensures Undistanced([t] + ts) == [t.(distance := 0)] + Undistanced(ts)
  {
    assert ([t] + ts)[1..] == ts;
  }

  lemma ParseIs(data: seq<byte>, h: Hypothesis, position: nat, literals: seq<byte>)
    ensures Parse(data, h, position, literals) ==
              if position >= |data| then (if literals == [] then [] else [Token(literals, 0, 0)])
              else
                var m, more := Chosen(data, h, position), literals + [data[position]];
                if m.length != 0 then [Token(literals, m.length, m.distance)] + Parse(data, h, position + m.length, [])
                else if |more| == MAX_LITERALS then [Token(more, 0, 0)] + Parse(data, h, position + 1, [])
                else Parse(data, h, position + 1, more)
  {
    hide Chosen;
  }

  lemma {:induction false} SameParseFrom(data: seq<byte>, h1: Hypothesis, h2: Hypothesis,
                                         position: nat, literals: seq<byte>)
    requires Lazy(h1) == Lazy(h2) && FindsLongest(data, h1) && FindsLongest(data, h2)
    ensures Undistanced(Parse(data, h1, position, literals)) == Undistanced(Parse(data, h2, position, literals))
    decreases |data| - position
  {
    hide Chosen, FindsLongest, Undistanced, Parse;
    ParseIs(data, h1, position, literals);
    ParseIs(data, h2, position, literals);
    if position < |data| {
      ChosenLength(data, h1, h2, position);
      var m1, m2 := Chosen(data, h1, position), Chosen(data, h2, position);
      var more := literals + [data[position]];
      if m1.length != 0 {
        SameParseFrom(data, h1, h2, position + m1.length, []);
        UndistancedCons(Token(literals, m1.length, m1.distance), Parse(data, h1, position + m1.length, []));
        UndistancedCons(Token(literals, m2.length, m2.distance), Parse(data, h2, position + m2.length, []));
      } else if |more| == MAX_LITERALS {
        SameParseFrom(data, h1, h2, position + 1, []);
        UndistancedCons(Token(more, 0, 0), Parse(data, h1, position + 1, []));
        UndistancedCons(Token(more, 0, 0), Parse(data, h2, position + 1, []));
      } else {
        SameParseFrom(data, h1, h2, position + 1, more);
      }
    }
  }

  /**
   * On every input the lazy hypotheses with exact finders parse alike: the same literals
   * and the same match lengths in the same order, differing only in distances. The tree
   * joins them on every input where it reaches a longest match everywhere, the canonical
   * 128-byte keys on every input where the newest equal key always has a longest match.
   */
  lemma SameParse(data: seq<byte>, h1: Hypothesis, h2: Hypothesis)
    requires Lazy(h1) && Lazy(h2) && FindsLongest(data, h1) && FindsLongest(data, h2)
    ensures Undistanced(Parse(data, h1, 0, [])) == Undistanced(Parse(data, h2, 0, []))
  {
    SameParseFrom(data, h1, h2, 0, []);
  }

  /**
   * A match that the lazy parse gives up is always made good: at most 127 literals later a
   * match is taken that is longer by at least two for every literal spent.
   */
  lemma {:induction false} DeferralPays(data: seq<byte>, h: Hypothesis, position: nat) returns (taken: nat)
    requires position < |data| && Answer(data, h, position).length > 0 && Chosen(data, h, position).length == 0
    ensures position < taken < |data| && taken - position <= 127
    ensures forall p | position <= p < taken :: Chosen(data, h, p).length == 0
    ensures Chosen(data, h, taken).length >= Answer(data, h, position).length + 2 * (taken - position)
    decreases |data| - position
  {
    hide Answer, IsMatch;
    AnswerWithinFormat(data, h, position);
    if position + 1 >= |data| {
      NothingAtEnd(data, h, position + 1);
    }
    if Chosen(data, h, position + 1).length != 0 {
      taken := position + 1;
    } else {
      taken := DeferralPays(data, h, position + 1);
    }
    AnswerWithinFormat(data, h, taken);
  }

  lemma AnswerWithinFormat(data: seq<byte>, h: Hypothesis, position: nat)
    requires position < |data|
    ensures Answer(data, h, position).length == 0 || 3 <= Answer(data, h, position).length <= MAX_MATCH
  {
    hide Answer;
    AnswerIsMatch(data, h, position);
  }

  /** The literals before the first match of some tokens, and the length of that match. */
  function FirstMatch(ts: seq<Token>): (nat, int) {
    if ts == [] then (0, 0)
    else if ts[0].length != 0 then (|ts[0].literals|, ts[0].length)
    else
      var (n, length) := FirstMatch(ts[1..]);
      (|ts[0].literals| + n, length)
  }

  /**
   * From any point of the parse at which a match is on offer: the tokens go on with fewer than
   * 128 further literals and then a match, longer than the one on offer by at least two for
   * every literal.
   */
  lemma {:induction false} OffersAreUsed(data: seq<byte>, h: Hypothesis, position: nat, literals: seq<byte>)
    requires Answer(data, h, position).length > 0
    ensures var (n, length) := FirstMatch(Parse(data, h, position, literals));
            && |literals| <= n < |literals| + 128
            && length >= Answer(data, h, position).length + 2 * (n - |literals|)
            && length <= MAX_MATCH
    decreases |data| - position
  {
    hide Answer, FirstMatch;
    if position >= |data| {
      NothingAtEnd(data, h, position);
    }
    AnswerWithinFormat(data, h, position);
    var m := Chosen(data, h, position);
    var more := literals + [data[position]];
    if m.length != 0 {
      FirstIsMatch(Token(literals, m.length, m.distance), Parse(data, h, position + m.length, []));
    } else if |more| == MAX_LITERALS {
      OffersAreUsed(data, h, position + 1, []);
      FirstIsMatch(Token(more, 0, 0), Parse(data, h, position + 1, []));
    } else {
      OffersAreUsed(data, h, position + 1, more);
    }
  }

  lemma FirstIsMatch(t: Token, ts: seq<Token>)
    ensures FirstMatch([t] + ts) == if t.length != 0 then (|t.literals|, t.length)
                                    else (|t.literals| + FirstMatch(ts).0, FirstMatch(ts).1)
  {
    assert ([t] + ts)[1..] == ts;
  }

  // ----- The encoder itself -----

  datatype Finder =
    | ByTrigram(matches: Exhaustive.Matches)
    | ByOrder(ordered: Lexicographic.LexicographicMatches)
    | ByTree(tree: BinaryTree.BinaryTreeMatches)

  /** The finder is ready and belongs to the data and the hypothesis. */
  ghost predicate Ready(f: Finder, data: seq<byte>, h: Hypothesis)
    reads match f
          case ByTrigram(m) => m as object
          case ByOrder(m) => m as object
          case ByTree(m) => m as object
  {
    match f
    case ByTrigram(m) => m.Valid() && m.data == data && h in {GreedyNearest, LazyNearest, LazyOldest}
    case ByOrder(m) =>
      && m.Valid() && m.data == data && m.window == MAX_DISTANCE
      && ((h == LazyLex257 && m.limit == MAX_MATCH && !m.unique)
          || (h == LazyFullSuffix && m.limit == 0 && !m.unique)
          || (h == LazyLex128 && m.limit == 128 && m.unique))
    case ByTree(m) => m.Valid() && m.data == data && h == LazyBst
  }

  method NewFinder(data: seq<byte>, h: Hypothesis) returns (f: Finder)
    ensures Ready(f, data, h)
  {
    match h
    case LazyBst =>
      var m := new BinaryTree.BinaryTreeMatches(data);
      f := ByTree(m);
    case LazyLex257 =>
      var m := new Lexicographic.LexicographicMatches(data, MAX_MATCH, false, MAX_DISTANCE);
      f := ByOrder(m);
    case LazyFullSuffix =>
      var m := new Lexicographic.LexicographicMatches(data, 0, false, MAX_DISTANCE);
      f := ByOrder(m);
    case LazyLex128 =>
      var m := new Lexicographic.LexicographicMatches(data, 128, true, MAX_DISTANCE);
      f := ByOrder(m);
    case _ =>
      var m := new Exhaustive.Matches(data);
      f := ByTrigram(m);
  }

  method BestAt(f: Finder, position: nat, oldest: bool, ghost data: seq<byte>, ghost h: Hypothesis) returns (m: Match)
    requires Ready(f, data, h) && (oldest <==> h == LazyOldest)
    ensures m == Answer(data, h, position)
  {
    match f
    case ByTrigram(finder) => m := finder.Best(position, oldest);
    case ByOrder(finder) => m := finder.Best(position);
    case ByTree(finder) => m := finder.Best(position);
  }

  datatype CompressError = UnknownHypothesis

  /** The encoder refuses unknown names only; its stream decodes to the input and stays small. */
  method Compress(data: seq<byte>, name: string) returns (r: Result<seq<byte>, CompressError>)
    ensures r.Success? <==> Named(name).Some?
    ensures r.Success? ==> r.value == Compressed(data, Named(name).value)
    ensures r.Success? ==> forall rest ::
              Expand(r.value + rest, |data|, 0, []) == Success(Expansion(data, |r.value|))
    ensures r.Success? ==> 6 * |r.value| <= 7 * |data| + 18
  {
    if Named(name).None? { return Failure(UnknownHypothesis); }
    var h := Named(name).value;
    var stream := Encode(data, h);
    forall rest ensures Expand(stream + rest, |data|, 0, []) == Success(Expansion(data, |stream|)) {
      RoundTrip(data, h, rest);
    }
    ExpansionBound(data, h);
    return Success(stream);
  }

  lemma EncodeAllCons(t: Token, ts: seq<Token>)
    requires WellFormed(t) && AllWellFormed(ts)
    ensures AllWellFormed([t] + ts) && EncodeAll([t] + ts) == EncodedToken(t) + EncodeAll(ts)
  {
    assert ([t] + ts)[1..] == ts;
  }

  /** What has been written, followed by the encoding of what is left, is the whole stream. */
  ghost predicate Written(data: seq<byte>, h: Hypothesis, stream: seq<byte>, position: nat, literals: seq<byte>) {
    && Pending(data, position, literals)
    && AllWellFormed(Parse(data, h, position, literals))
    && stream + EncodeAll(Parse(data, h, position, literals)) == Compressed(data, h)
  }

  /** Writing a token that the parse begins with. */
  lemma WriteToken(data: seq<byte>, h: Hypothesis, stream: seq<byte>, position: nat, literals: seq<byte>,
                   t: Token, next: nat)
    requires Written(data, h, stream, position, literals)
    requires WellFormed(t) && Pending(data, next, [])
    requires Parse(data, h, position, literals) == [t] + Parse(data, h, next, [])
    ensures Written(data, h, stream + EncodedToken(t), next, [])
  {
    hide Parse, EncodedToken;
    ParseSpells(data, h, next, []);
    EncodeAllCons(t, Parse(data, h, next, []));
    Associates(stream, EncodedToken(t), EncodeAll(Parse(data, h, next, [])));
  }

  lemma WriteStarts(data: seq<byte>, h: Hypothesis)
    ensures Written(data, h, [], 0, [])
  {
    ParseSpells(data, h, 0, []);
  }

  lemma WriteEnds(data: seq<byte>, h: Hypothesis, stream: seq<byte>, position: nat, literals: seq<byte>)
    requires Written(data, h, stream, position, literals) && position >= |data|
    ensures literals == [] ==> stream == Compressed(data, h)
    ensures literals != [] ==> WellFormed(Token(literals, 0, 0))
                               && stream + EncodedToken(Token(literals, 0, 0)) == Compressed(data, h)
  {
    if literals != [] {
      EncodeAllCons(Token(literals, 0, 0), []);
      assert Parse(data, h, position, literals) == [Token(literals, 0, 0)] + [];
    }
  }

  /** The finder is asked for the match at the position and, if lazy, for the one after it. */
  method Decide(f: Finder, position: nat, oldest: bool, lazy: bool, ghost data: seq<byte>, ghost h: Hypothesis)
    returns (m: Match)
    requires Ready(f, data, h) && (oldest <==> h == LazyOldest) && (lazy <==> h != GreedyNearest)
    ensures m.length == Chosen(data, h, position).length
    ensures m.length != 0 ==> m == Chosen(data, h, position)
  {
    hide Answer, Ready;
    m := BestAt(f, position, oldest, data, h);
    if m.length != 0 && lazy {
      var next := BestAt(f, position + 1, oldest, data, h);
      if next.length > m.length + 1 {
        m := Match(0, m.distance);
      }
    }
  }

  /** The parsing loop. */
  method Encode(data: seq<byte>, h: Hypothesis) returns (stream: seq<byte>)
    ensures stream == Compressed(data, h)
  {
    hide Chosen, Ready, EncodedToken, Parse, Pending, WellFormed, Written, Compressed;
    var f := NewFinder(data, h);
    var oldest := h == LazyOldest;
    var lazy := h != GreedyNearest;
    var literals: seq<byte>, position: nat := [], 0;
    stream := [];
    WriteStarts(data, h);
    while position < |data|
      invariant Ready(f, data, h)
      invariant Written(data, h, stream, position, literals)
      decreases |data| - position
    {
      assert Pending(data, position, literals) by { WrittenPending(data, h, stream, position, literals); }
      ParseStep(data, h, position, literals);
      var m := Decide(f, position, oldest, lazy, data, h);
      if m.length != 0 {
        var token := EncodeToken(literals, m.length, m.distance);
        WriteToken(data, h, stream, position, literals, Token(literals, m.length, m.distance), position + m.length);
        stream := stream + token.value;
        literals := [];
        position := position + m.length;
      } else {
        ghost var before := literals;
        literals := literals + [data[position]];
        position := position + 1;
        if |literals| == MAX_LITERALS {
          var token := EncodeToken(literals, 0, 0);
          WriteToken(data, h, stream, position - 1, before, Token(literals, 0, 0), position);
          stream := stream + token.value;
          literals := [];
        } else {
          WriteLiteral(data, h, stream, position - 1, before);
        }
      }
    }
    WriteEnds(data, h, stream, position, literals);
    if literals != [] {
      var token := EncodeToken(literals, 0, 0);
      stream := stream + token.value;
    }
  }

  lemma WrittenPending(data: seq<byte>, h: Hypothesis, stream: seq<byte>, position: nat, literals: seq<byte>)
    requires Written(data, h, stream, position, literals)
    ensures Pending(data, position, literals)
  {
  }

  lemma WriteLiteral(data: seq<byte>, h: Hypothesis, stream: seq<byte>, position: nat, literals: seq<byte>)
    requires Written(data, h, stream, position, literals) && position < |data|
    requires Pending(data, position + 1, literals + [data[position]])
    requires Parse(data, h, position, literals) == Parse(data, h, position + 1, literals + [data[position]])
    ensures Written(data, h, stream, position + 1, literals + [data[position]])
  {
  }
}
