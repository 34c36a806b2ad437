/**
 * The match finder that inserts positions into a binary search tree in input order. The tree
 * lives in two arrays of child links; its shape is stated here as a datatype.
 */
module BinaryTreeMatches {
  import opened Results
  import opened Bytes
  import opened TokenFormat
  import opened Scatterload
  import opened Window
  import opened Keys

  datatype Tree = Leaf | Node(left: Tree, at: nat, right: Tree)

  function TreeKey(data: seq<byte>, p: nat): seq<byte>
    requires p <= |data|
  {
    Key(data, MAX_MATCH, p)
  }

  function Positions(t: Tree): set<nat> {
    match t
    case Leaf => {}
    case Node(l, n, r) => Positions(l) + {n} + Positions(r)
  }

  predicate Within(t: Tree, hi: nat) {
    forall n | n in Positions(t) :: n < hi
  }

  // ----- The reference answer: insertion and search on the datatype -----

  /** Inserts a position; an equal key replaces the position that represented it. */
  function Insert(data: seq<byte>, t: Tree, position: nat): (r: Tree)
    requires position <= |data| && Within(t, |data|)
    ensures Positions(r) <= Positions(t) + {position} && position in Positions(r)
  {
    match t
    case Leaf => Node(Leaf, position, Leaf)
    case Node(l, n, r) =>
      assert n in Positions(t) && Positions(l) <= Positions(t) && Positions(r) <= Positions(t);
      if TreeKey(data, position) == TreeKey(data, n) then Node(l, position, r)
      else if Less(TreeKey(data, position), TreeKey(data, n)) then Node(Insert(data, l, position), n, r)
      else Node(l, n, Insert(data, r, position))
  }

  /** What a node offers: nothing once it has left the window. */
  function NodeOffer(data: seq<byte>, n: nat, position: nat): Match
    requires n <= position <= |data|
  {
    if position - n <= MAX_DISTANCE then Candidate(data, n, position) else NO_MATCH
  }

  /** The first longest match along the search path, starting from `best`. */
  function SearchBest(data: seq<byte>, t: Tree, position: nat, best: Match): Match
    requires position <= |data| && Within(t, position)
  {
    match t
    case Leaf => best
    case Node(l, n, r) =>
      assert n in Positions(t) && Positions(l) <= Positions(t) && Positions(r) <= Positions(t);
      var best' := Better(best, NodeOffer(data, n, position));
      if TreeKey(data, position) == TreeKey(data, n) then best'
      else if Less(TreeKey(data, position), TreeKey(data, n)) then SearchBest(data, l, position, best')
      else SearchBest(data, r, position, best')
  }

  /** The tree after the positions below `position` have been inserted in order. */
  function TreeAfter(data: seq<byte>, position: nat): (t: Tree)
    requires position <= |data|
    ensures Within(t, position)
  {
    if position == 0 then Leaf else Insert(data, TreeAfter(data, position - 1), position - 1)
  }

  /** What the finder stores for a position. */
  function TreeBest(data: seq<byte>, position: nat): Match {
    if position >= |data| then NO_MATCH
    else SearchBest(data, TreeAfter(data, position), position, NO_MATCH)
  }

  // ----- The tree stays a search tree of the newest positions -----

  ghost predicate AllLess(data: seq<byte>, t: Tree, key: seq<byte>)
    requires Within(t, |data|)
  {
    forall n | n in Positions(t) :: Less(TreeKey(data, n), key)
  }

  ghost predicate AllGreater(data: seq<byte>, t: Tree, key: seq<byte>)
    requires Within(t, |data|)
  {
    forall n | n in Positions(t) :: Less(key, TreeKey(data, n))
  }

  /** The search-tree order: every key is strictly between those of its two subtrees. */
  ghost predicate SearchTree(data: seq<byte>, t: Tree)
    requires Within(t, |data|)
  {
    match t
    case Leaf => true
    case Node(l, n, r) =>
      assert n in Positions(t) && Positions(l) <= Positions(t) && Positions(r) <= Positions(t);
      && AllLess(data, l, TreeKey(data, n)) && AllGreater(data, r, TreeKey(data, n))
      && SearchTree(data, l) && SearchTree(data, r)
  }

  /** Insertion keeps the order, and touches no position but the one whose key it replaces. */
  lemma {:induction false} InsertKeepsOrder(data: seq<byte>, t: Tree, position: nat)
    requires position <= |data| && Within(t, |data|) && SearchTree(data, t)
    requires position < |data|
    ensures SearchTree(data, Insert(data, t, position))
    ensures forall n | n in Positions(t) ::
              n in Positions(Insert(data, t, position)) || TreeKey(data, n) == TreeKey(data, position)
    ensures forall n | n in Positions(Insert(data, t, position)) && n != position ::
              n in Positions(t) && TreeKey(data, n) != TreeKey(data, position)
  {
    hide TreeKey, Less;
    match t
    case Leaf =>
    case Node(l, n, r) =>
      assert n in Positions(t) && Positions(l) <= Positions(t) && Positions(r) <= Positions(t);
      var key, at := TreeKey(data, position), TreeKey(data, n);
      LessTotal(key, at);
      forall m | m in Positions(l) ensures Less(TreeKey(data, m), at) && (!Less(key, at) ==> TreeKey(data, m) != key) {
        LessTotal(TreeKey(data, m), at);
      }
      forall m | m in Positions(r) ensures Less(at, TreeKey(data, m)) && (!Less(at, key) ==> TreeKey(data, m) != key) {
        LessTotal(at, TreeKey(data, m));
      }
      if Less(key, at) {
        InsertKeepsOrder(data, l, position);
      } else if key != at {
        InsertKeepsOrder(data, r, position);
      }
  }

  /** No position between `p` and `hi` has the key of `p`. */
  ghost predicate Newest(data: seq<byte>, p: nat, hi: nat)
    requires p <= |data| && hi <= |data|
  {
    forall q | p < q < hi :: TreeKey(data, q) != TreeKey(data, p)
  }

  lemma NewestNext(data: seq<byte>, p: nat, hi: nat)
    requires p <= hi < |data|
    ensures Newest(data, p, hi + 1) <==> p == hi || (Newest(data, p, hi) && TreeKey(data, hi) != TreeKey(data, p))
  {
    hide TreeKey;
  }

  /** A search tree that holds exactly the newest positions below `hi`. */
  ghost predicate HoldsNewest(data: seq<byte>, t: Tree, hi: nat)
    requires hi <= |data|
  {
    && Within(t, hi) && Within(t, |data|) && SearchTree(data, t)
    && forall p | 0 <= p < hi :: p in Positions(t) <==> Newest(data, p, hi)
  }

  lemma TreeGrows(data: seq<byte>, position: nat)
    requires position < |data|
    ensures Within(TreeAfter(data, position), |data|)
    ensures TreeAfter(data, position + 1) == Insert(data, TreeAfter(data, position), position)
  {
    hide Insert, TreeKey;
  }

  lemma EmptyHoldsNewest(data: seq<byte>)
    ensures HoldsNewest(data, TreeAfter(data, 0), 0)
  {
  }

  lemma HeldAfterInsert(data: seq<byte>, t: Tree, position: nat, p: nat)
    requires p <= position < |data| && Within(t, |data|) && SearchTree(data, t)
    requires p < position ==> (p in Positions(t) <==> Newest(data, p, position))
    ensures p in Positions(Insert(data, t, position)) <==> Newest(data, p, position + 1)
  {
    hide TreeKey, SearchTree, Newest, Insert, Positions;
    NewestNext(data, p, position);
    InsertKeepsOrder(data, t, position);
  }

  lemma InsertHoldsNewest(data: seq<byte>, t: Tree, position: nat)
    requires position < |data| && Within(t, |data|) && HoldsNewest(data, t, position)
    ensures HoldsNewest(data, Insert(data, t, position), position + 1)
  {
    hide TreeKey, SearchTree, Newest, Insert, Positions;
    InsertKeepsOrder(data, t, position);
    var t' := Insert(data, t, position);
    forall p | 0 <= p < position + 1 ensures p in Positions(t') <==> Newest(data, p, position + 1) {
      HeldAfterInsert(data, t, position, p);
    }
  }

  /**
   * After every prefix of the input, the tree is a search tree that holds each distinct key
   * exactly once, at the newest position that has it.
   */
  lemma {:induction false} TreeHoldsNewest(data: seq<byte>, position: nat)
    requires position <= |data|
    ensures HoldsNewest(data, TreeAfter(data, position), position)
  {
    hide *;
    if position == 0 {
      EmptyHoldsNewest(data);
    } else {
      var before := TreeAfter(data, position - 1);
      TreeGrows(data, position - 1);
      TreeHoldsNewest(data, position - 1);
      InsertHoldsNewest(data, before, position - 1);
    }
  }

  /** Some position at or after `p` is the newest with its key. */
  lemma {:induction false} NewestExists(data: seq<byte>, p: nat, hi: nat) returns (n: nat)
    requires p < hi <= |data|
    ensures p <= n < hi && Newest(data, n, hi) && TreeKey(data, n) == TreeKey(data, p)
    decreases hi - p
  {
    if q :| p < q < hi && TreeKey(data, q) == TreeKey(data, p) {
      n := NewestExists(data, q, hi);
    } else {
      n := p;
    }
  }

  /** The tree holds every key of its prefix. */
  lemma KeyIsHeld(data: seq<byte>, p: nat, position: nat) returns (n: nat)
    requires p < position <= |data|
    ensures Within(TreeAfter(data, position), |data|) && SearchTree(data, TreeAfter(data, position))
    ensures n in Positions(TreeAfter(data, position)) && p <= n < position && TreeKey(data, n) == TreeKey(data, p)
  {
    hide TreeKey, SearchTree, Newest, TreeAfter, Positions, Within;
    n := NewestExists(data, p, position);
    TreeHoldsNewest(data, position);
  }

  // ----- The search path suffices -----

  /** The key `a` is compared on the way to `key`. */
  ghost predicate OnPath(data: seq<byte>, t: Tree, key: seq<byte>, a: seq<byte>)
    requires Within(t, |data|)
  {
    match t
    case Leaf => false
    case Node(l, n, r) =>
      assert n in Positions(t) && Positions(l) <= Positions(t) && Positions(r) <= Positions(t);
      || TreeKey(data, n) == a
      || (key != TreeKey(data, n) && if Less(key, TreeKey(data, n)) then OnPath(data, l, key, a) else OnPath(data, r, key, a))
  }

  /** The answer is the initial match or the offer of a node on the path. */
  lemma {:induction false} SearchBestFromTree(data: seq<byte>, t: Tree, position: nat, best: Match)
    requires position <= |data| && Within(t, position)
    ensures var m := SearchBest(data, t, position, best);
            best.length <= m.length
            && (m == best || exists n :: && n in Positions(t) && m == NodeOffer(data, n, position)
                                         && OnPath(data, t, TreeKey(data, position), TreeKey(data, n)))
  {
    hide NodeOffer, TreeKey, Less;
    match t
    case Leaf =>
    case Node(l, n, r) =>
      assert n in Positions(t) && Positions(l) <= Positions(t) && Positions(r) <= Positions(t);
      var best' := Better(best, NodeOffer(data, n, position));
      SearchBestFromTree(data, l, position, best');
      SearchBestFromTree(data, r, position, best');
  }

  /** Keys that are equal offer equal lengths. */
  lemma MatchLengthIsLcp(data: seq<byte>, n: nat, position: nat)
    requires n <= position <= |data|
    ensures MatchLength(data, n, position) == Lcp(TreeKey(data, n), TreeKey(data, position))
  {
    KeyLcp(data, MAX_MATCH, n, position);
  }

  /** A node beyond the turn at `m` offers no more than `m` itself. */
  lemma BeyondTheTurn(data: seq<byte>, n: nat, m: nat, position: nat)
    requires n <= position <= |data| && m <= position
    requires var key := TreeKey(data, position);
             || (LessEq(key, TreeKey(data, m)) && LessEq(TreeKey(data, m), TreeKey(data, n)))
             || (LessEq(TreeKey(data, n), TreeKey(data, m)) && LessEq(TreeKey(data, m), key))
             || key == TreeKey(data, m)
    ensures MatchLength(data, n, position) <= MatchLength(data, m, position)
  {
    hide TreeKey, Lcp, Less, MatchLength;
    var key, a, b := TreeKey(data, position), TreeKey(data, m), TreeKey(data, n);
    MatchLengthIsLcp(data, n, position);
    MatchLengthIsLcp(data, m, position);
    LcpCommutes(key, a);
    LcpCommutes(key, b);
    if key == a {
      LcpIs(key, key, |key|);
    } else if LessEq(key, a) && LessEq(a, b) {
      LcpBetween(key, a, b);
    } else {
      LcpBetween(b, a, key);
    }
  }

  /** No node that has left the window matches as long as `n` does. */
  ghost predicate Outlasts(data: seq<byte>, t: Tree, position: nat, n: nat)
    requires position <= |data| && Within(t, position) && n <= position
  {
    forall m | m in Positions(t) && position - m > MAX_DISTANCE ::
      MatchLength(data, m, position) < Max(3, MatchLength(data, n, position))
  }

  /** A node that no expired node rivals offers no more than the search path does. */
  lemma {:induction false} SearchPathSuffices(data: seq<byte>, t: Tree, position: nat, best: Match, n: nat)
    requires position <= |data| && Within(t, position) && SearchTree(data, t)
    requires n in Positions(t) && Outlasts(data, t, position, n)
    ensures Candidate(data, n, position).length <= SearchBest(data, t, position, best).length
  {
    var Node(l, m, r) := t;
    assert m in Positions(t) && Positions(l) <= Positions(t) && Positions(r) <= Positions(t);
    hide TreeKey, Less, MatchLength;
    var key := TreeKey(data, position);
    var best' := Better(best, NodeOffer(data, m, position));
    LessTotal(key, TreeKey(data, m));
    SearchBestFromTree(data, l, position, best');
    SearchBestFromTree(data, r, position, best');
    if Less(key, TreeKey(data, m)) && n in Positions(l) {
      SearchPathSuffices(data, l, position, best', n);
    } else if Less(TreeKey(data, m), key) && n in Positions(r) {
      SearchPathSuffices(data, r, position, best', n);
    } else {
      BeyondTheTurn(data, n, m, position);
    }
  }

  /** The stored answer is always a match inside the window, never longer than the longest. */
  lemma TreeBestIsMatch(data: seq<byte>, position: nat)
    requires position < |data|
    ensures var m := TreeBest(data, position);
            && (m == NO_MATCH || IsMatch(data, position, MAX_DISTANCE, m))
            && m.length <= LongestMatch(data, position, MAX_DISTANCE)
  {
    var m := TreeBest(data, position);
    SearchBestFromTree(data, TreeAfter(data, position), position, NO_MATCH);
    SearchesAgree(data, position, Oldest(position, MAX_DISTANCE));
    if m != NO_MATCH {
      var n :| n in Positions(TreeAfter(data, position)) && m == NodeOffer(data, n, position);
      CandidateIsMatch(data, n, position, MAX_DISTANCE);
    }
  }

  /** No position that has left the window matches as long as the longest match inside it. */
  ghost predicate Unrivalled(data: seq<byte>, position: nat)
    requires position <= |data|
  {
    forall p | 0 <= p < position - MAX_DISTANCE ::
      MatchLength(data, p, position) < Max(3, LongestMatch(data, position, MAX_DISTANCE))
  }

  /**
   * Wherever no expired position rivals the longest match, the first longest match along the
   * search path is as long as the longest match of an exhaustive search; in particular at
   * every position that nothing can have left behind.
   */
  lemma TreeTheorem(data: seq<byte>, position: nat)
    requires position < |data| && Unrivalled(data, position)
    ensures TreeBest(data, position).length == LongestMatch(data, position, MAX_DISTANCE)
  {
    hide TreeKey, Less, SearchTree, TreeAfter, SearchBest, MatchLength, Lcp, Positions;
    TreeBestIsMatch(data, position);
    var lo := Oldest(position, MAX_DISTANCE);
    var nearest := NearestSince(data, position, lo);
    NearestIsNearest(data, position, lo);
    if nearest != NO_MATCH {
      var p := position - nearest.distance;
      var n := KeyIsHeld(data, p, position);
      MatchLengthIsLcp(data, n, position);
      MatchLengthIsLcp(data, p, position);
      SearchPathSuffices(data, TreeAfter(data, position), position, NO_MATCH, n);
    }
  }

  // ----- Exactly when the tree finds the longest match -----

  ghost predicate Holds(data: seq<byte>, t: Tree, a: seq<byte>)
    requires Within(t, |data|)
  {
    exists n :: n in Positions(t) && TreeKey(data, n) == a
  }

  /** On the way from `a` to `key` one comes past `b`. */
  predicate Cuts(b: seq<byte>, a: seq<byte>, key: seq<byte>) {
    (Less(a, b) && LessEq(b, key)) || (Less(b, a) && LessEq(key, b))
  }

  /** Among the positions below `hi`, every key between `a` and `key` came in after `a`. */
  ghost predicate Reached(data: seq<byte>, hi: nat, key: seq<byte>, a: seq<byte>)
    requires hi <= |data|
  {
    forall q | 0 <= q < hi && Cuts(TreeKey(data, q), a, key) :: Occurs(data, q, a)
  }

  ghost predicate Occurs(data: seq<byte>, hi: nat, a: seq<byte>)
    requires hi <= |data|
  {
    exists r :: 0 <= r < hi && TreeKey(data, r) == a
  }

  lemma {:induction false} OnPathHolds(data: seq<byte>, t: Tree, key: seq<byte>, a: seq<byte>)
    requires Within(t, |data|) && OnPath(data, t, key, a)
    ensures Holds(data, t, a)
  {
    hide TreeKey, Less;
    var Node(l, n, r) := t;
    assert n in Positions(t) && Positions(l) <= Positions(t) && Positions(r) <= Positions(t);
    if TreeKey(data, n) != a {
      if Less(key, TreeKey(data, n)) {
        OnPathHolds(data, l, key, a);
      } else {
        OnPathHolds(data, r, key, a);
      }
    }
  }

  /** Insertion leaves the path to every key that is there already, or stays away, as it was. */
  lemma {:induction false} InsertKeepsPath(data: seq<byte>, t: Tree, position: nat, key: seq<byte>, a: seq<byte>)
    requires position < |data| && Within(t, |data|) && SearchTree(data, t)
    requires Holds(data, t, a) || a != TreeKey(data, position)
    ensures OnPath(data, Insert(data, t, position), key, a) <==> OnPath(data, t, key, a)
  {
    hide TreeKey, Less;
    match t
    case Leaf =>
    case Node(l, n, r) =>
      assert n in Positions(t) && Positions(l) <= Positions(t) && Positions(r) <= Positions(t);
      var c, at := TreeKey(data, position), TreeKey(data, n);
      LessTotal(c, at);
      if Less(c, at) {
        InsertKeepsPath(data, l, position, key, a);
      } else if c != at {
        InsertKeepsPath(data, r, position, key, a);
      }
  }

  /** Nothing on the far side of `at` comes between two keys on its near side. */
  lemma SameSide(b: seq<byte>, a: seq<byte>, key: seq<byte>, at: seq<byte>)
    requires || (Less(a, at) && Less(key, at) && LessEq(at, b))
             || (Less(at, a) && Less(at, key) && LessEq(b, at))
    ensures !Cuts(b, a, key)
  {
    hide Less;
    LessTotal(a, at);
    if Less(a, at) {
      LessTransitive(a, at, b);
      LessTransitive(key, at, b);
    } else {
      LessTransitive(b, at, a);
      LessTransitive(b, at, key);
    }
    LessTotal(a, b);
    LessTotal(key, b);
  }

  /** A new key is on the path exactly if no key of the tree cuts it off. */
  lemma {:induction false} NewKeyOnPath(data: seq<byte>, t: Tree, position: nat, key: seq<byte>)
    requires position < |data| && Within(t, |data|) && SearchTree(data, t)
    requires !Holds(data, t, TreeKey(data, position))
    ensures OnPath(data, Insert(data, t, position), key, TreeKey(data, position))
       <==> forall m | m in Positions(t) :: !Cuts(TreeKey(data, m), TreeKey(data, position), key)
  {
    hide TreeKey, Less;
    match t
    case Leaf =>
    case Node(l, n, r) =>
      assert n in Positions(t) && Positions(l) <= Positions(t) && Positions(r) <= Positions(t);
      var c, at := TreeKey(data, position), TreeKey(data, n);
      LessTotal(c, at);
      LessTotal(key, at);
      var near, far := if Less(c, at) then l else r, if Less(c, at) then r else l;
      NewKeyOnPath(data, near, position, key);
      if key != at && (Less(key, at) <==> Less(c, at)) {
        forall m | m in Positions(far) || m == n ensures !Cuts(TreeKey(data, m), c, key) {
          SameSide(TreeKey(data, m), c, key, at);
        }
      } else {
        assert Cuts(at, c, key);
        if key != at && OnPath(data, far, key, c) {
          OnPathHolds(data, far, key, c);
        }
      }
  }

  lemma ReachedNext(data: seq<byte>, hi: nat, key: seq<byte>, a: seq<byte>)
    requires hi < |data|
    ensures Occurs(data, hi, a) ==> (Reached(data, hi + 1, key, a) <==> Reached(data, hi, key, a))
    ensures !Occurs(data, hi, a) && TreeKey(data, hi) == a ==>
              (Reached(data, hi + 1, key, a) <==> forall q | 0 <= q < hi :: !Cuts(TreeKey(data, q), a, key))
  {
    hide TreeKey, Less;
    LessTotal(a, a);
  }

  /** The tree holds exactly the keys of its prefix. */
  lemma HoldsExactly(data: seq<byte>, hi: nat, a: seq<byte>)
    requires hi <= |data|
    ensures Within(TreeAfter(data, hi), |data|) && SearchTree(data, TreeAfter(data, hi))
    ensures Holds(data, TreeAfter(data, hi), a) <==> Occurs(data, hi, a)
  {
    hide TreeKey, SearchTree, TreeAfter, Positions, Newest;
    TreeHoldsNewest(data, hi);
    if r :| 0 <= r < hi && TreeKey(data, r) == a {
      var n := KeyIsHeld(data, r, hi);
    }
  }

  /**
   * The search path, from the input alone: a key lies on the way to another one exactly if
   * every key between the two has come in after it.
   */
  lemma {:induction false} PathIs(data: seq<byte>, hi: nat, key: seq<byte>, a: seq<byte>)
    requires hi <= |data| && Occurs(data, hi, a)
    ensures Within(TreeAfter(data, hi), |data|)
    ensures OnPath(data, TreeAfter(data, hi), key, a) <==> Reached(data, hi, key, a)
  {
    hide TreeKey, SearchTree, TreeAfter, Positions, Insert, OnPath, Reached, Cuts;
    var last := hi - 1;
    var before := TreeAfter(data, last);
    TreeGrows(data, last);
    HoldsExactly(data, last, a);
    ReachedNext(data, last, key, a);
    if Occurs(data, last, a) {
      PathIs(data, last, key, a);
      InsertKeepsPath(data, before, last, key, a);
    } else {
      NewKeyOnPath(data, before, last, key);
      KeysOfPrefix(data, last, key, a);
    }
  }

  /** A key cuts off among the nodes exactly if it does among the positions. */
  lemma KeysOfPrefix(data: seq<byte>, hi: nat, key: seq<byte>, a: seq<byte>)
    requires hi <= |data| && Within(TreeAfter(data, hi), |data|)
    ensures (forall m | m in Positions(TreeAfter(data, hi)) :: !Cuts(TreeKey(data, m), a, key))
       <==> (forall q | 0 <= q < hi :: !Cuts(TreeKey(data, q), a, key))
  {
    hide TreeKey, SearchTree, TreeAfter, Positions, Cuts;
    if q :| 0 <= q < hi && Cuts(TreeKey(data, q), a, key) {
      var n := KeyIsHeld(data, q, hi);
    }
  }

  /** A node on the path offers no more than the answer. */
  lemma {:induction false} PathOffers(data: seq<byte>, t: Tree, position: nat, best: Match, n: nat)
    requires position <= |data| && Within(t, position) && SearchTree(data, t) && n in Positions(t)
    requires OnPath(data, t, TreeKey(data, position), TreeKey(data, n))
    ensures NodeOffer(data, n, position).length <= SearchBest(data, t, position, best).length
  {
    hide TreeKey, Less, NodeOffer;
    var Node(l, m, r) := t;
    assert m in Positions(t) && Positions(l) <= Positions(t) && Positions(r) <= Positions(t);
    var key, at := TreeKey(data, position), TreeKey(data, m);
    var best' := Better(best, NodeOffer(data, m, position));
    LessTotal(TreeKey(data, n), at);
    if n == m {
      SearchBestFromTree(data, l, position, best');
      SearchBestFromTree(data, r, position, best');
    } else {
      var side := if Less(key, at) then l else r;
      OnPathHolds(data, side, key, TreeKey(data, n));
      PathOffers(data, side, position, best', n);
    }
  }

  /** Among the positions of the window with the longest match, one has its key on the path. */
  ghost predicate ReachesLongest(data: seq<byte>, position: nat)
    requires position <= |data|
  {
    var longest := LongestMatch(data, position, MAX_DISTANCE);
    longest == 0 || exists p :: && Oldest(position, MAX_DISTANCE) <= p < position
                                && MatchLength(data, p, position) == longest
                                && Reached(data, position, TreeKey(data, position), TreeKey(data, p))
  }

  /**
   * At every position of every input: the answer is as long as that of an exhaustive search
   * if and only if, for some longest match of the window, every key between it and the
   * position's came into the tree after it.
   */
  lemma TreeExact(data: seq<byte>, position: nat)
    requires position < |data|
    ensures TreeBest(data, position).length == LongestMatch(data, position, MAX_DISTANCE)
       <==> ReachesLongest(data, position)
  {
    hide TreeKey, SearchTree, TreeAfter, SearchBest, MatchLength, Positions, Reached, OnPath, LongestMatch;
    TreeBestIsMatch(data, position);
    LongestIsNoStub(data, position, MAX_DISTANCE);
    var t, key, longest := TreeAfter(data, position), TreeKey(data, position), LongestMatch(data, position, MAX_DISTANCE);
    if ReachesLongest(data, position) && longest != 0 {
      var p :| && Oldest(position, MAX_DISTANCE) <= p < position
               && MatchLength(data, p, position) == longest && Reached(data, position, key, TreeKey(data, p));
      var n := KeyIsHeld(data, p, position);
      PathIs(data, position, key, TreeKey(data, p));
      MatchLengthIsLcp(data, n, position);
      MatchLengthIsLcp(data, p, position);
      PathOffers(data, t, position, NO_MATCH, n);
    } else if TreeBest(data, position).length == longest && longest != 0 {
      SearchBestFromTree(data, t, position, NO_MATCH);
      var n :| && n in Positions(t) && TreeBest(data, position) == NodeOffer(data, n, position)
               && OnPath(data, t, key, TreeKey(data, n));
      assert Occurs(data, position, TreeKey(data, n));
      PathIs(data, position, key, TreeKey(data, n));
    }
  }

  /** The key `[1, 2, 3, 5]` comes first and has left the window when `[1, 2, 3, 4]` is looked up. */
  function StrayByte(i: nat): byte {
    if i in {0, 65540, 65550} then 1
    else if i in {1, 65541, 65551} then 2
    else if i in {2, 65542, 65552} then 3
    else if i == 3 then 5 else if i == 65543 then 6 else if i == 65553 then 4
    else 0
  }

  function Stray(): seq<byte> {
    seq(65554, i requires 0 <= i => StrayByte(i))
  }

  /** An input on which the tree misses: the expired key leads the search away from the only match. */
  lemma TreeFallsShort()
    ensures TreeBest(Stray(), 65550).length < LongestMatch(Stray(), 65550, MAX_DISTANCE)
  {
    hide TreeBest, LongestMatch, TreeKey, Stray;
    var data, position := Stray(), 65550;
    StrayMatches();
    TreeBestIsMatch(data, position);
    TreeExact(data, position);
    StrayIsCut();
  }

  lemma StrayMatches()
    ensures |Stray()| == 65554 && LongestMatch(Stray(), 65550, MAX_DISTANCE) >= 3
    ensures forall p | 15 <= p < 65550 && MatchLength(Stray(), p, 65550) >= 3 :: p == 65540
  {
    hide MatchLength, NearestSince, StrayByte;
    var data := Stray();
    forall p | 15 <= p < 65550 ensures MatchLength(data, p, 65550) >= 3 <==> p == 65540 {
      StrayMatch(data, p);
    }
    SearchesAgree(data, 65550, 15);
    assert Candidate(data, 65540, 65550).length >= 3;
  }

  lemma StrayMatch(data: seq<byte>, p: nat)
    requires data == Stray() && 15 <= p < 65550
    ensures MatchLength(data, p, 65550) >= 3 <==> p == 65540
  {
    hide MatchLength;
    MatchLengthRepeats(data, p, 65550, 3);
    assert data[65550] == 1 && data[65551] == 2 && data[65552] == 3;
    assert Repeats(data, 65550, 65553, 65550 - p) <==> data[p] == 1 && data[p + 1] == 2 && data[p + 2] == 3 by {
      assert p == 65550 - (65550 - p) && p + 1 == 65551 - (65550 - p) && p + 2 == 65552 - (65550 - p);
    }
  }

  lemma StrayIsCut()
    ensures |Stray()| == 65554
    ensures !Reached(Stray(), 65550, TreeKey(Stray(), 65550), TreeKey(Stray(), 65540))
  {
    var data := Stray();
    FirstFour(data, 65540);
    FirstFour(data, 0);
    FirstFour(data, 65550);
    hide TreeKey, Stray, Less;
    var a, b, key := TreeKey(data, 65540), TreeKey(data, 0), TreeKey(data, 65550);
    FourthDecides(b, a);
    FourthDecides(key, b);
    assert Cuts(b, a, key);
  }

  lemma FirstFour(data: seq<byte>, p: nat)
    requires p + 4 <= |data|
    ensures |TreeKey(data, p)| >= 4
    ensures TreeKey(data, p)[..4] == [data[p], data[p + 1], data[p + 2], data[p + 3]]
  {
  }

  lemma FourthDecides(a: seq<byte>, b: seq<byte>)
    requires |a| >= 4 && |b| >= 4 && a[..4][..3] == b[..4][..3] && a[..4][3] < b[..4][3]
    ensures Less(a, b)
  {
    assert a[..3] == a[..4][..3] == b[..3];
    LcpIs(a, b, 3);
  }

  // ----- The tree in arrays -----

  /** The links below `node` spell out the tree `t`; -1 is no node. */
  ghost predicate Represents(left: seq<int>, right: seq<int>, node: int, t: Tree)
    decreases t
  {
    match t
    case Leaf => node == -1
    case Node(l, n, r) =>
      && node == n && n < |left| && n < |right|
      && Represents(left, right, left[n], l) && Represents(left, right, right[n], r)
  }

  /** No position occurs twice. */
  ghost predicate NoRepeats(t: Tree) {
    match t
    case Leaf => true
    case Node(l, n, r) =>
      && n !in Positions(l) && n !in Positions(r) && Positions(l) !! Positions(r)
      && NoRepeats(l) && NoRepeats(r)
  }

  /** The way from the root down to the node under consideration. */
  datatype Context = Top | InLeft(up: Context, at: nat, right: Tree) | InRight(up: Context, left: Tree, at: nat)

  function Plug(c: Context, t: Tree): Tree {
    match c
    case Top => t
    case InLeft(up, n, r) => Plug(up, Node(t, n, r))
    case InRight(up, l, n) => Plug(up, Node(l, n, t))
  }

  function ContextPositions(c: Context): set<nat> {
    match c
    case Top => {}
    case InLeft(up, n, r) => ContextPositions(up) + {n} + Positions(r)
    case InRight(up, l, n) => ContextPositions(up) + {n} + Positions(l)
  }

  ghost predicate ContextNoRepeats(c: Context) {
    match c
    case Top => true
    case InLeft(up, n, r) =>
      && n !in Positions(r) && n !in ContextPositions(up) && Positions(r) !! ContextPositions(up)
      && NoRepeats(r) && ContextNoRepeats(up)
    case InRight(up, l, n) =>
      && n !in Positions(l) && n !in ContextPositions(up) && Positions(l) !! ContextPositions(up)
      && NoRepeats(l) && ContextNoRepeats(up)
  }

  /** The links above `hole` spell out the context `c`. */
  ghost predicate RepresentsContext(left: seq<int>, right: seq<int>, root: int, c: Context, hole: int) {
    match c
    case Top => root == hole
    case InLeft(up, n, r) =>
      && n < |left| && n < |right| && left[n] == hole
      && Represents(left, right, right[n], r) && RepresentsContext(left, right, root, up, n)
    case InRight(up, l, n) =>
      && n < |left| && n < |right| && right[n] == hole
      && Represents(left, right, left[n], l) && RepresentsContext(left, right, root, up, n)
  }

  /** Two pairs of link arrays agree on a set of positions. */
  ghost predicate SameLinks(left: seq<int>, right: seq<int>, left': seq<int>, right': seq<int>, ps: set<nat>) {
    && |left'| == |left| && |right'| == |right|
    && forall n | n in ps && n < |left| && n < |right| :: left'[n] == left[n] && right'[n] == right[n]
  }

  lemma {:induction false} RepresentsFrame(left: seq<int>, right: seq<int>, left': seq<int>, right': seq<int>,
                                           node: int, t: Tree)
    requires Represents(left, right, node, t) && SameLinks(left, right, left', right', Positions(t))
    ensures Represents(left', right', node, t)
    decreases t
  {
    match t
    case Leaf =>
    case Node(l, n, r) =>
      RepresentsFrame(left, right, left', right', left[n], l);
      RepresentsFrame(left, right, left', right', right[n], r);
  }

  lemma {:induction false} ContextFrame(left: seq<int>, right: seq<int>, left': seq<int>, right': seq<int>,
                                        root: int, c: Context, hole: int)
    requires RepresentsContext(left, right, root, c, hole)
    requires SameLinks(left, right, left', right', ContextPositions(c))
    ensures RepresentsContext(left', right', root, c, hole)
  {
    match c
    case Top =>
    case InLeft(up, n, r) =>
      RepresentsFrame(left, right, left', right', right[n], r);
      ContextFrame(left, right, left', right', root, up, n);
    case InRight(up, l, n) =>
      RepresentsFrame(left, right, left', right', left[n], l);
      ContextFrame(left, right, left', right', root, up, n);
  }

  /** A represented context around a represented tree is a represented tree. */
  lemma {:induction false} PlugRepresents(left: seq<int>, right: seq<int>, root: int, c: Context, hole: int, t: Tree)
    requires RepresentsContext(left, right, root, c, hole) && Represents(left, right, hole, t)
    ensures Represents(left, right, root, Plug(c, t))
    decreases c
  {
    match c
    case Top =>
    case InLeft(up, n, r) => PlugRepresents(left, right, root, up, n, Node(t, n, r));
    case InRight(up, l, n) => PlugRepresents(left, right, root, up, n, Node(l, n, t));
  }

  /** The node above the hole, or -1 at the root. */
  function ParentOf(c: Context): int {
    if c.Top? then -1 else c.at
  }

  /** Hanging another node into the hole rewrites one link, or the root. */
  lemma HangInHole(left: seq<int>, right: seq<int>, left': seq<int>, right': seq<int>,
                   root: int, c: Context, hole: int, node: nat)
    requires RepresentsContext(left, right, root, c, hole) && ContextNoRepeats(c)
    requires node !in ContextPositions(c)
    requires SameLinks(left, right, left', right', ContextPositions(c) - (if c.Top? then {} else {c.at}))
    requires c.InLeft? ==> left'[c.at] == node && right'[c.at] == right[c.at]
    requires c.InRight? ==> right'[c.at] == node && left'[c.at] == left[c.at]
    ensures RepresentsContext(left', right', if c.Top? then node else root, c, node)
  {
    match c
    case Top =>
    case InLeft(up, n, r) =>
      RepresentsFrame(left, right, left', right', right[n], r);
      ContextFrame(left, right, left', right', root, up, n);
    case InRight(up, l, n) =>
      RepresentsFrame(left, right, left', right', left[n], l);
      ContextFrame(left, right, left', right', root, up, n);
  }

  /** Insertion keeps positions from repeating. */
  lemma {:induction false} InsertNoRepeats(data: seq<byte>, t: Tree, position: nat)
    requires position < |data| && Within(t, position) && NoRepeats(t)
    ensures NoRepeats(Insert(data, t, position))
  {
    hide TreeKey, Less;
    match t
    case Leaf =>
    case Node(l, n, r) =>
      assert n in Positions(t) && Positions(l) <= Positions(t) && Positions(r) <= Positions(t);
      InsertNoRepeats(data, l, position);
      InsertNoRepeats(data, r, position);
  }

  /** The loop that measures the common prefix of two keys. */
  method CommonPrefix(a: seq<byte>, b: seq<byte>) returns (length: nat)
    ensures length == Lcp(a, b)
  {
    length := 0;
    while length < |a| && length < |b| && a[length] == b[length]
      invariant length <= |a| && length <= |b| && a[..length] == b[..length]
    {
      length := length + 1;
    }
    LcpIs(a, b, length);
  }

  /** Where an insertion stands: in a represented context, at the node `s` of the represented tree. */
  ghost predicate Located(data: seq<byte>, left: seq<int>, right: seq<int>, root: int, whole: Tree, position: nat,
                          c: Context, node: int, s: Tree)
    requires position < |data| && Within(whole, position)
  {
    && Within(s, position)
    && RepresentsContext(left, right, root, c, node) && Represents(left, right, node, s)
    && ContextNoRepeats(c) && NoRepeats(s) && Positions(s) !! ContextPositions(c)
    && (forall n | n in ContextPositions(c) :: n < position)
    && Insert(data, whole, position) == Plug(c, Insert(data, s, position))
  }

  lemma AtNode(data: seq<byte>, left: seq<int>, right: seq<int>, root: int, whole: Tree, position: nat,
               c: Context, node: int, s: Tree)
    requires position < |data| && Within(whole, position)
    requires Located(data, left, right, root, whole, position, c, node, s)
    ensures if node == -1 then s.Leaf? else s.Node? && node == s.at && s.at < position && s.at < |left| && s.at < |right|
  {
    assert s.Node? ==> s.at in Positions(s);
  }

  lemma InsertStep(data: seq<byte>, s: Tree, position: nat)
    requires position < |data| && Within(s, position) && s.Node?
    ensures Within(s.left, position) && Within(s.right, position) && s.at < position
    ensures TreeKey(data, position) != TreeKey(data, s.at) ==>
              Insert(data, s, position)
              == if Less(TreeKey(data, position), TreeKey(data, s.at)) then Node(Insert(data, s.left, position), s.at, s.right)
                 else Node(s.left, s.at, Insert(data, s.right, position))
  {
    hide TreeKey, Less;
    assert Positions(s) == Positions(s.left) + {s.at} + Positions(s.right);
  }

  lemma StepLeft(data: seq<byte>, left: seq<int>, right: seq<int>, root: int, whole: Tree, position: nat,
                 c: Context, s: Tree)
    requires position < |data| && Within(whole, position) && s.Node? && s.at < |left| && s.at < |right|
    requires Located(data, left, right, root, whole, position, c, s.at, s)
    requires s.at < position && TreeKey(data, position) != TreeKey(data, s.at)
    requires Less(TreeKey(data, position), TreeKey(data, s.at))
    ensures Located(data, left, right, root, whole, position, InLeft(c, s.at, s.right), left[s.at], s.left)
  {
    hide TreeKey, Less, Insert;
    InsertStep(data, s, position);
    assert Positions(s) == Positions(s.left) + {s.at} + Positions(s.right);
  }

  lemma StepRight(data: seq<byte>, left: seq<int>, right: seq<int>, root: int, whole: Tree, position: nat,
                  c: Context, s: Tree)
    requires position < |data| && Within(whole, position) && s.Node? && s.at < |left| && s.at < |right|
    requires Located(data, left, right, root, whole, position, c, s.at, s)
    requires s.at < position && TreeKey(data, position) != TreeKey(data, s.at)
    requires !Less(TreeKey(data, position), TreeKey(data, s.at))
    ensures Located(data, left, right, root, whole, position, InRight(c, s.left, s.at), right[s.at], s.right)
  {
    hide TreeKey, Less, Insert;
    InsertStep(data, s, position);
    assert Positions(s) == Positions(s.left) + {s.at} + Positions(s.right);
  }

  /** One step down stays located. */
  lemma StepDown(data: seq<byte>, left: seq<int>, right: seq<int>, root: int, whole: Tree, position: nat,
                 c: Context, s: Tree)
    requires position < |data| && Within(whole, position) && s.Node? && s.at < |left| && s.at < |right|
    requires Located(data, left, right, root, whole, position, c, s.at, s)
    requires s.at < position && TreeKey(data, position) != TreeKey(data, s.at)
    ensures if Less(TreeKey(data, position), TreeKey(data, s.at))
            then Located(data, left, right, root, whole, position, InLeft(c, s.at, s.right), left[s.at], s.left)
            else Located(data, left, right, root, whole, position, InRight(c, s.left, s.at), right[s.at], s.right)
  {
    hide TreeKey, Less, Insert, Located;
    if Less(TreeKey(data, position), TreeKey(data, s.at)) {
      StepLeft(data, left, right, root, whole, position, c, s);
    } else {
      StepRight(data, left, right, root, whole, position, c, s);
    }
  }

  /** One step of the search for the best match: stop at an equal key, else go on to one side. */
  lemma SearchStep(data: seq<byte>, s: Tree, position: nat, best: Match)
    requires position < |data| && Within(s, position) && s.Node?
    ensures Within(s.left, position) && Within(s.right, position) && s.at < position
    ensures var best' := Better(best, NodeOffer(data, s.at, position));
            SearchBest(data, s, position, best)
            == if TreeKey(data, position) == TreeKey(data, s.at) then best'
               else if Less(TreeKey(data, position), TreeKey(data, s.at)) then SearchBest(data, s.left, position, best')
               else SearchBest(data, s.right, position, best')
  {
    assert Positions(s) == Positions(s.left) + {s.at} + Positions(s.right);
  }

  /** The measured prefix of two keys is what the node offers. */
  lemma OfferIs(data: seq<byte>, n: nat, position: nat)
    requires n < position < |data|
    ensures var length := Lcp(TreeKey(data, position), TreeKey(data, n));
            NodeOffer(data, n, position)
            == if length >= 3 && position - n <= MAX_DISTANCE then Match(length, position - n) else NO_MATCH
  {
    hide TreeKey, Lcp, MatchLength;
    MatchLengthIsLcp(data, n, position);
    LcpCommutes(TreeKey(data, position), TreeKey(data, n));
  }

  /** The loop down the search path, measuring every key that it passes. */
  method Descend(data: seq<byte>, left: array<int>, right: array<int>, root: int, position: nat, ghost whole: Tree)
    returns (node: int, parent: int, goLeft: bool, best: Match, ghost c: Context, ghost s: Tree)
    requires left.Length == right.Length == |data| && position < |data|
    requires Within(whole, position) && NoRepeats(whole) && Represents(left[..], right[..], root, whole)
    ensures Located(data, left[..], right[..], root, whole, position, c, node, s)
    ensures s.Leaf? || (s.at < |data| && TreeKey(data, position) == TreeKey(data, s.at))
    ensures parent == ParentOf(c) && (c.InLeft? ==> goLeft) && (c.InRight? ==> !goLeft)
    ensures best == SearchBest(data, whole, position, NO_MATCH)
  {
    var key := TreeKey(data, position);
    node, parent, goLeft, best := root, -1, false, NO_MATCH;
    c, s := Top, whole;
    assert Located(data, left[..], right[..], root, whole, position, c, node, s);
    hide TreeKey, Less, NodeOffer, Located, Lcp, SearchBest, Within, Insert;
    while node != -1
      invariant Located(data, left[..], right[..], root, whole, position, c, node, s) && Within(s, position)
      invariant parent == ParentOf(c) && (c.InLeft? ==> goLeft) && (c.InRight? ==> !goLeft)
      invariant SearchBest(data, whole, position, NO_MATCH) == SearchBest(data, s, position, best)
      decreases s
    {
      AtNode(data, left[..], right[..], root, whole, position, c, node, s);
      SearchStep(data, s, position, best);
      OfferIs(data, node, position);
      var previousKey := TreeKey(data, node);
      var length := CommonPrefix(key, previousKey);
      if length >= 3 && length > best.length && position - node <= MAX_DISTANCE {
        best := Match(length, position - node);
      }
      if key == previousKey {
        return;
      }
      StepDown(data, left[..], right[..], root, whole, position, c, s);
      parent, goLeft := node, Less(key, previousKey);
      node := if goLeft then left[node] else right[node];
      c := if goLeft then InLeft(c, s.at, s.right) else InRight(c, s.left, s.at);
      s := if goLeft then s.left else s.right;
    }
    AtNode(data, left[..], right[..], root, whole, position, c, node, s);
    assert SearchBest(data, Leaf, position, best) == best by { SearchLeaf(data, position, best); }
  }

  lemma SearchLeaf(data: seq<byte>, position: nat, best: Match)
    requires position < |data|
    ensures Within(Leaf, position) && SearchBest(data, Leaf, position, best) == best
  {
  }

  /** Hanging the new node into the hole gives the arrays of the tree after insertion. */
  lemma Attached(data: seq<byte>, left: seq<int>, right: seq<int>, left': seq<int>, right': seq<int>, root: int,
                 whole: Tree, position: nat, c: Context, node: int, s: Tree)
    requires position < |data| && Within(whole, position) && |left| == |right| == |data|
    requires Located(data, left, right, root, whole, position, c, node, s)
    requires s.Leaf? || (s.at < |data| && TreeKey(data, position) == TreeKey(data, s.at))
    requires |left'| == |left| && |right'| == |right|
    requires forall n | 0 <= n < position && n != ParentOf(c) :: left'[n] == left[n] && right'[n] == right[n]
    requires c.InLeft? && c.at < position ==> left'[c.at] == position && right'[c.at] == right[c.at]
    requires c.InRight? && c.at < position ==> right'[c.at] == position && left'[c.at] == left[c.at]
    requires s.Leaf? ==> left'[position] == right'[position] == -1
    requires s.Node? ==> left'[position] == left[s.at] && right'[position] == right[s.at]
    ensures Represents(left', right', if c.Top? then position else root, Insert(data, whole, position))
  {
    hide TreeKey, Less;
    assert s.Node? ==> Positions(s) == Positions(s.left) + {s.at} + Positions(s.right);
    HangInHole(left, right, left', right', root, c, node, position);
    var t := Insert(data, s, position);
    if s.Node? {
      RepresentsFrame(left, right, left', right', left[s.at], s.left);
      RepresentsFrame(left, right, left', right', right[s.at], s.right);
    }
    assert Represents(left', right', position, t);
    PlugRepresents(left', right', if c.Top? then position else root, c, position, t);
  }

  /** Inserts one position into the arrays; an equal key takes over the links of the old node. */
  method Place(data: seq<byte>, left: array<int>, right: array<int>, oldRoot: int, position: nat, ghost whole: Tree)
    returns (root: int, best: Match)
    requires left != right && left.Length == right.Length == |data| && position < |data|
    requires left[position] == right[position] == -1
    requires Within(whole, position) && NoRepeats(whole) && Represents(left[..], right[..], oldRoot, whole)
    modifies left, right
    ensures Represents(left[..], right[..], root, Insert(data, whole, position))
    ensures best == SearchBest(data, whole, position, NO_MATCH)
    ensures forall n | position < n < |data| :: left[n] == old(left[n]) && right[n] == old(right[n])
  {
    ghost var left0, right0 := left[..], right[..];
    var node, parent, goLeft, found, c, s := Descend(data, left, right, oldRoot, position, whole);
    AtNode(data, left[..], right[..], oldRoot, whole, position, c, node, s);
    ParentIsOlder(data, left[..], right[..], oldRoot, whole, position, c, node, s);
    hide *;
    root, best := oldRoot, found;
    if node != -1 {
      left[position], right[position] := left[node], right[node];
    }
    if parent < 0 {
      root := position;
    } else if goLeft {
      left[parent] := position;
    } else {
      right[parent] := position;
    }
    Attached(data, left0, right0, left[..], right[..], oldRoot, whole, position, c, node, s);
  }

  lemma ParentIsOlder(data: seq<byte>, left: seq<int>, right: seq<int>, root: int, whole: Tree, position: nat,
                      c: Context, node: int, s: Tree)
    requires position < |data| && Within(whole, position)
    requires Located(data, left, right, root, whole, position, c, node, s)
    ensures ParentOf(c) < position && (c.Top? <==> ParentOf(c) < 0)
  {
  }

  lemma {:induction false} TreeNoRepeats(data: seq<byte>, position: nat)
    requires position <= |data|
    ensures NoRepeats(TreeAfter(data, position))
  {
    hide Insert, TreeKey;
    if position > 0 {
      TreeNoRepeats(data, position - 1);
      InsertNoRepeats(data, TreeAfter(data, position - 1), position - 1);
    }
  }

  class BinaryTreeMatches {
    const data: seq<byte>
    var matches: seq<Match>

    /** The stored answers are those of the search paths, one for each position. */
    ghost predicate Valid()
      reads this
    {
      |matches| == |data| && forall p | 0 <= p < |data| :: matches[p] == TreeBest(data, p)
    }

    constructor (data: seq<byte>)
      ensures this.data == data && Valid()
    {
      hide Insert, SearchBest, Represents, NoRepeats;
      this.data := data;
      var root := -1;
      var left := new int[|data|](_ => -1);
      var right := new int[|data|](_ => -1);
      var answers: seq<Match> := [];
      assert Represents(left[..], right[..], -1, TreeAfter(data, 0)) by { NoTree(left[..], right[..]); }
      for position := 0 to |data|
        invariant Represents(left[..], right[..], root, TreeAfter(data, position))
        invariant forall n | position <= n < |data| :: left[n] == right[n] == -1
        invariant |answers| == position
        invariant forall p | 0 <= p < position :: answers[p] == TreeBest(data, p)
      {
        TreeNoRepeats(data, position);
        var best;
        root, best := Place(data, left, right, root, position, TreeAfter(data, position));
        answers := answers + [best];
      }
      matches := answers;
    }

    method Best(position: nat) returns (best: Match)
      requires Valid()
      ensures best == TreeBest(data, position)
    {
      best := if position < |matches| then matches[position] else NO_MATCH;
    }
  }

  lemma NoTree(left: seq<int>, right: seq<int>)
    ensures Represents(left, right, -1, Leaf)
  {
  }
}
