/** Sets of addresses as disjoint, sorted, half-open intervals. */
module Intervals {

  datatype Interval = Interval(start: int, end: int, size: int)

  /** Non-empty, in order, with a gap between any two. */
  predicate Separated(runs: seq<Interval>) {
    && (forall i | 0 <= i < |runs| :: runs[i].start < runs[i].end && runs[i].size == runs[i].end - runs[i].start)
    && forall i, j | 0 <= i < j < |runs| :: runs[i].end < runs[j].start
  }

  predicate Contains(runs: seq<Interval>, x: int) {
    exists i :: 0 <= i < |runs| && runs[i].start <= x < runs[i].end
  }

  predicate Ascending(ps: seq<int>) {
    forall i, j | 0 <= i < j < |ps| :: ps[i] < ps[j]
  }

  /** The points of a set in increasing order. */
  method SortedPoints(points: set<int>) returns (ps: seq<int>)
    ensures Ascending(ps) && forall x :: x in ps <==> x in points
  {
    ps := [];
    var rest := points;
    while rest != {}
      invariant rest <= points && Ascending(ps)
      invariant forall x :: x in ps <==> x in points && x !in rest
      invariant forall x, y | x in ps && y in rest :: x < y
      decreases rest
    {
      var least := Least(rest);
      assert forall i | 0 <= i < |ps| :: ps[i] in ps;
      ps := ps + [least];
      rest := rest - {least};
    }
  }

  lemma Inhabited(s: set<int>)
    ensures s != {} ==> exists x :: x in s
  {
    if forall x :: x !in s {
      assert s == {};
    }
  }

  method Least(points: set<int>) returns (least: int)
    requires points != {}
    ensures least in points && forall x | x in points :: least <= x
  {
    Inhabited(points);
    least :| least in points;
    var rest := points - {least};
    while rest != {}
      invariant least in points && rest <= points
      invariant forall x | x in points && x !in rest :: least <= x
      decreases rest
    {
      Inhabited(rest);
      var x :| x in rest;
      if x < least {
        least := x;
      }
      rest := rest - {x};
    }
  }

  /** The maximal intervals of a set of addresses. */
  method Intervals(points: set<int>) returns (runs: seq<Interval>)
    ensures Separated(runs)
    ensures forall x :: x in points <==> Contains(runs, x)
  {
    var ps := SortedPoints(points);
    runs := [];
    for k := 0 to |ps|
      invariant Separated(runs)
      invariant k > 0 ==> runs != [] && runs[|runs| - 1].end == ps[k - 1] + 1
      invariant runs == [] <==> k == 0
      invariant forall x :: Contains(runs, x) <==> x in ps[..k]
    {
      var point := ps[k];
      ghost var before := runs;
      assert k > 0 ==> ps[k - 1] < point;
      if runs != [] && runs[|runs| - 1].end == point {
        var last := runs[|runs| - 1];
        runs := runs[|runs| - 1 := Interval(last.start, last.end + 1, last.size + 1)];
      } else {
        runs := runs + [Interval(point, point + 1, 1)];
      }
      ExtendedSeparated(before, runs, point);
      hide Contains, Separated, Ascending;
      forall x ensures Contains(runs, x) <==> Contains(before, x) || x == point {
        ExtendedContains(before, runs, point, x);
      }
    }
    assert ps[..|ps|] == ps;
  }

  /** `runs` is `before` with `point` added at its end. */
  ghost predicate Extended(before: seq<Interval>, runs: seq<Interval>, point: int) {
    if before != [] && before[|before| - 1].end == point
    then runs == before[|before| - 1 := Interval(before[|before| - 1].start, point + 1, before[|before| - 1].size + 1)]
    else runs == before + [Interval(point, point + 1, 1)]
  }

  lemma ExtendedSeparated(before: seq<Interval>, runs: seq<Interval>, point: int)
    requires Separated(before) && Extended(before, runs, point)
    requires before != [] ==> before[|before| - 1].end <= point
    ensures Separated(runs)
  {
    forall i, j | 0 <= i < j < |runs| ensures runs[i].end < runs[j].start {
      assert before[i].end <= before[|before| - 1].end;
    }
  }

  lemma ExtendedContains(before: seq<Interval>, runs: seq<Interval>, point: int, x: int)
    requires Separated(before) && Extended(before, runs, point)
    ensures Contains(runs, x) <==> Contains(before, x) || x == point
  {
    var n := |before| - 1;
    if Contains(before, x) {
      var i :| 0 <= i < |before| && before[i].start <= x < before[i].end;
      assert runs[i].start <= x < runs[i].end;
    }
    if x == point {
      assert runs[|runs| - 1].start <= x < runs[|runs| - 1].end;
    }
    if Contains(runs, x) && x != point {
      var i :| 0 <= i < |runs| && runs[i].start <= x < runs[i].end;
      assert i < |before| && before[i].start <= x < before[i].end;
    }
  }
}
