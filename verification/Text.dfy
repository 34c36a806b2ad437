/** Text split at newlines and joined again, and trailing white space. */
module Text {

  predicate IsSpace(c: char) {
    || '\t' <= c <= '\r' || '\U{1C}' <= c <= ' ' || c == '\U{85}' || c == '\U{A0}' || c == '\U{1680}'
    || '\U{2000}' <= c <= '\U{200A}' || c == '\U{2028}' || c == '\U{2029}' || c == '\U{202F}'
    || c == '\U{205F}' || c == '\U{3000}'
  }

  /** The pieces between newlines; there is always at least one. */
  function Split(s: string): (lines: seq<string>)
    ensures |lines| >= 1
  {
    if s == "" then [""]
    else
      var rest := Split(s[1..]);
      if s[0] == '\n' then [""] + rest else [[s[0]] + rest[0]] + rest[1..]
  }

  /** The lines with a newline between any two. */
  function Join(lines: seq<string>): string {
    if lines == [] then "" else if |lines| == 1 then lines[0] else lines[0] + "\n" + Join(lines[1..])
  }

  predicate IsLine(s: string) {
    '\n' !in s
  }

  lemma {:induction false} JoinSplit(s: string)
    ensures Join(Split(s)) == s
  {
    if s != "" {
      JoinSplit(s[1..]);
      var rest := Split(s[1..]);
      if s[0] == '\n' {
        assert Split(s)[1..] == rest;
        assert "" + "\n" + s[1..] == s;
      } else {
        assert Split(s)[1..] == rest[1..];
        JoinPushFront(s[0], rest);
      }
    }
  }

  lemma JoinPushFront(c: char, lines: seq<string>)
    requires lines != []
    ensures Join([[c] + lines[0]] + lines[1..]) == [c] + Join(lines)
  {
    var pushed := [[c] + lines[0]] + lines[1..];
    assert pushed[1..] == lines[1..];
    if |lines| > 1 {
      assert ([c] + lines[0]) + "\n" + Join(lines[1..]) == [c] + (lines[0] + "\n" + Join(lines[1..]));
    }
  }

  lemma {:induction false} SplitLines(s: string)
    ensures forall k | 0 <= k < |Split(s)| :: IsLine(Split(s)[k])
  {
    if s != "" {
      SplitLines(s[1..]);
    }
  }

  /** Joining lines and splitting the text gives the lines back. */
  lemma {:induction false} SplitJoin(lines: seq<string>)
    requires lines != [] && forall k | 0 <= k < |lines| :: IsLine(lines[k])
    ensures Split(Join(lines)) == lines
  {
    if |lines| == 1 {
      SplitLine(lines[0]);
      assert lines == [lines[0]];
    } else {
      SplitJoin(lines[1..]);
      SplitAfterLine(lines[0], Join(lines[1..]));
      assert [lines[0]] + lines[1..] == lines;
    }
  }

  /** The first line of a text ends at the first newline. */
  lemma {:induction false} SplitAfterLine(line: string, s: string)
    requires IsLine(line)
    ensures Split(line + "\n" + s) == [line] + Split(s)
  {
    var t := line + "\n" + s;
    if line == "" {
      assert t[1..] == s;
    } else {
      assert IsLine(line[1..]);
      SplitAfterLine(line[1..], s);
      assert t[1..] == line[1..] + "\n" + s;
      assert [line[0]] + line[1..] == line;
    }
  }

  lemma {:induction false} SplitLine(s: string)
    requires IsLine(s)
    ensures Split(s) == [s]
  {
    if s != "" {
      assert IsLine(s[1..]);
      SplitLine(s[1..]);
      assert [s[0]] + s[1..] == s;
    }
  }

  /** Two lists of pieces, where the last piece of one runs into the first of the other. */
  function Glue(a: seq<string>, b: seq<string>): seq<string>
    requires a != [] && b != []
  {
    a[..|a| - 1] + [a[|a| - 1] + b[0]] + b[1..]
  }

  /** Splitting a text that arrives in two parts. */
  lemma {:induction false} SplitAppend(a: string, b: string)
    ensures Split(a + b) == Glue(Split(a), Split(b))
  {
    if a == "" {
      assert a + b == b;
      assert "" + Split(b)[0] == Split(b)[0];
      assert [Split(b)[0]] + Split(b)[1..] == Split(b);
    } else {
      assert (a + b)[1..] == a[1..] + b;
      SplitAppend(a[1..], b);
      GlueFront(a[0], Split(a[1..]), Split(b));
    }
  }

  lemma GlueFront(c: char, a: seq<string>, b: seq<string>)
    requires a != [] && b != []
    ensures [""] + Glue(a, b) == Glue([""] + a, b)
    ensures [[c] + Glue(a, b)[0]] + Glue(a, b)[1..] == Glue([[c] + a[0]] + a[1..], b)
  {
    var x := [[c] + a[0]] + a[1..];
    assert |x| == |a|;
    if |a| == 1 {
      assert ([c] + a[0]) + b[0] == [c] + (a[0] + b[0]);
      assert Glue(a, b) == [a[0] + b[0]] + b[1..];
      assert Glue(x, b) == [x[0] + b[0]] + b[1..];
    } else {
      assert x[|a| - 1] == a[|a| - 1];
      assert x[..|a| - 1] == [[c] + a[0]] + a[1..|a| - 1];
      assert Glue(a, b)[0] == a[0];
      assert Glue(a, b)[1..] == a[1..|a| - 1] + [a[|a| - 1] + b[0]] + b[1..];
    }
  }
}
