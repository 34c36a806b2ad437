/**
 * One SAVE_CONFIG: the file is read, the regular fields that the autosave block defines are
 * commented out, and regular text and block are written again; and any sequence of them.
 */
module SaveConfig {
  import opened Results
  import opened Text
  import opened Stripping
  import opened Autosave
  import opened Duplicates

  /** The regular text with its duplicates commented out. */
  function Undoubled(has: HasOption, text: string): string {
    Join(Commented(has, TOP, Split(text)))
  }

  /** The file that a save writes over `data`. */
  function SavedOver(data: string, has: HasOption, autosave: string): string {
    SavedText(Undoubled(has, FindAutosave(data).0), autosave)
  }

  /** The file is read without complaint: what counts as regular text holds no marker. */
  predicate Readable(data: string) {
    !Occurs(FindAutosave(data).0, MARKER)
  }

  /** No section has an option without a name. */
  ghost predicate NamedOptions(has: HasOption) {
    forall section :: !has(section, "")
  }

  /** Reads the file, comments out what the block defines, and assembles the new file. */
  method SaveOver(data: string, has: HasOption, autosave: string) returns (saved: string)
    ensures saved == SavedOver(data, has, autosave)
  {
    hide Commented, FindAutosave, SavedText;
    var regular, _ := FindAutosaveData(data);
    var split := Split(regular);
    var lines := new string[|split|](i requires 0 <= i < |split| => split[i]);
    assert lines[..] == split;
    StripDuplicates(lines, has);
    saved := Save(Join(lines[..]), autosave);
  }

  // ----- Markers are lines -----

  const PREFIX := "#*# "

  ghost predicate MarkerAfter(lines: seq<string>, from: nat) {
    exists k :: from <= k < |lines| && PREFIX <= lines[k]
  }

  predicate MarkedAt(s: string, i: int) {
    0 <= i && i + 4 <= |s| && s[i] == '#' && s[i + 1] == '*' && s[i + 2] == '#' && s[i + 3] == ' '
  }

  lemma MarkerChars(s: string, i: nat)
    ensures OccursAt(s, MARKER, i) <==> i < |s| && s[i] == '\n' && MarkedAt(s, i + 1)
    ensures PREFIX <= s <==> MarkedAt(s, 0)
  {
    if i + 5 <= |s| {
      assert s[i..i + 5] == [s[i], s[i + 1], s[i + 2], s[i + 3], s[i + 4]];
    }
  }

  lemma PrefixOfJoin(lines: seq<string>)
    requires lines != []
    ensures PREFIX <= Join(lines) <==> PREFIX <= lines[0]
  {
    MarkerChars(lines[0], 0);
    MarkerChars(Join(lines), 0);
    if |lines| > 1 {
      assert Join(lines) == lines[0] + ("\n" + Join(lines[1..]));
      assert Join(lines)[|lines[0]|] == '\n';
    }
  }

  lemma MarkerAtLineEnd(line: string, rest: string, i: nat)
    requires IsLine(line)
    ensures var s := line + "\n" + rest;
            OccursAt(s, MARKER, i) <==>
              (i == |line| && PREFIX <= rest) || (i > |line| && OccursAt(rest, MARKER, i - |line| - 1))
  {
    var s := line + "\n" + rest;
    MarkerChars(s, i);
    MarkerChars(rest, if i > |line| then i - |line| - 1 else 0);
    hide OccursAt;
    assert |s| == |line| + 1 + |rest|;
    assert forall k | 0 <= k < |line| :: s[k] == line[k];
    assert forall k | |line| < k < |s| :: s[k] == rest[k - |line| - 1];
    assert i < |line| ==> line[i] in line;
  }

  /** The marker occurs in a text exactly if a line after the first begins with the prefix. */
  lemma {:induction false} MarkersAreLines(lines: seq<string>)
    requires lines != [] && forall k | 0 <= k < |lines| :: IsLine(lines[k])
    ensures Occurs(Join(lines), MARKER) <==> MarkerAfter(lines, 1)
  {
    var s := Join(lines);
    if |lines| == 1 {
      forall i: nat ensures !OccursAt(s, MARKER, i) {
        MarkerChars(s, i);
        assert i < |s| ==> s[i] in s;
      }
    } else {
      var rest := lines[1..];
      MarkersAreLines(rest);
      PrefixOfJoin(rest);
      forall i: nat {
        MarkerAtLineEnd(lines[0], Join(rest), i);
      }
      assert MarkerAfter(lines, 1) <==> PREFIX <= rest[0] || MarkerAfter(rest, 1) by {
        if k :| 1 <= k < |rest| && PREFIX <= rest[k] {
          assert PREFIX <= lines[k + 1];
        }
      }
      if i :| 0 <= i <= |Join(rest)| && OccursAt(Join(rest), MARKER, i) {
        assert OccursAt(s, MARKER, i + |lines[0]| + 1);
      }
      if PREFIX <= rest[0] {
        assert OccursAt(s, MARKER, |lines[0]|);
      }
    }
  }

  // ----- What commenting does to markers -----

  const STAR := "*# "

  /** A line that commenting out would turn into a marker has a field without a name. */
  lemma StarLine(line: string)
    requires STAR <= line
    ensures IsField(line) && FieldName(Pruned(line)) == ""
  {
    assert line[0] == '*' && line[1] == '#';
    assert Uncommented(line[1..]) == "";
    assert Uncommented(line) == "*";
    assert RStrip("*") == "*";
  }

  lemma CommentIsBlank(line: string)
    requires line == "" || line[0] == '#'
    ensures IsBlank(line)
  {
  }

  lemma NotMarkedByComment(line: string)
    requires PREFIX <= "#" + line
    ensures STAR <= line
  {
    assert ("#" + line)[1..] == line;
    assert ("#" + line)[1..4] == STAR;
  }

  lemma MarkedAfterComment(has: HasOption, lines: seq<string>, k: nat)
    requires k < |lines|
    ensures PREFIX <= Commented(has, TOP, lines)[k] <==>
              PREFIX <= lines[k] || (STAR <= lines[k] && has(SectionAt(lines, k), ""))
  {
    hide Commented, Pruned, FieldName, SectionAt, OwnerAt, IsSpace, SectionName;
    CommentedExactly(has, lines, k);
    var line := lines[k];
    if PREFIX <= line {
      CommentIsBlank(line);
    } else if STAR <= line {
      StarLine(line);
      assert "#" + line == PREFIX + line[3..];
    } else {
      if PREFIX <= "#" + line {
        NotMarkedByComment(line);
      }
    }
  }

  /**
   * Commenting out duplicates keeps every marker, and adds one exactly where a line begins
   * with the rest of the prefix and the block has an option without a name.
   */
  lemma CommentingAndMarkers(has: HasOption, text: string)
    ensures Occurs(Undoubled(has, text), MARKER) <==>
              || Occurs(text, MARKER)
              || exists k :: 1 <= k < |Split(text)| && STAR <= Split(text)[k] && has(SectionAt(Split(text), k), "")
  {
    hide Commented, SectionAt, Occurs;
    var lines := Split(text);
    var out := Commented(has, TOP, lines);
    SplitLines(text);
    JoinSplit(text);
    forall k | 0 <= k < |lines|
      ensures IsLine(out[k])
      ensures PREFIX <= out[k] <==> PREFIX <= lines[k] || (STAR <= lines[k] && has(SectionAt(lines, k), ""))
    {
      MarkedAfterComment(has, lines, k);
    }
    MarkersAreLines(lines);
    MarkersAreLines(out);
  }

  // ----- Any sequence of saves -----

  lemma NoMarkerInPrefix(s: string, n: nat)
    requires n <= |s| && Occurs(s[..n], MARKER)
    ensures Occurs(s, MARKER)
  {
    var i :| 0 <= i <= n && OccursAt(s[..n], MARKER, i);
    assert s[i..i + 5] == s[..n][i..i + 5];
    assert OccursAt(s, MARKER, i);
  }

  /** Saving over a readable file reads back: the undoubled regular text and the autosave lines. */
  lemma SaveKeepsReadable(data: string, has: HasOption, autosave: string)
    requires Readable(data) && NamedOptions(has)
    ensures Readable(SavedOver(data, has, autosave))
    ensures FindAutosave(SavedOver(data, has, autosave))
         == (RStrip(Undoubled(has, FindAutosave(data).0)) + "\n", Join([""] + Map(RStrip, Split(autosave)) + [""]))
  {
    hide FindAutosave, Undoubled, SavedText, RStrip, Join, Split, Occurs;
    var regular := Undoubled(has, FindAutosave(data).0);
    CommentingAndMarkers(has, FindAutosave(data).0);
    if Occurs(RStrip(regular), MARKER) {
      assert RStrip(regular) == regular[..|RStrip(regular)|];
      NoMarkerInPrefix(regular, |RStrip(regular)|);
    }
    SavedTextReadsBack(regular, autosave);
    NoMarkerAtEnd(RStrip(regular));
  }

  // ----- When a saved file is readable at all -----

  function First(): string {
    PREFIX + Title()
  }

  function Second(): string {
    PREFIX + Warning()
  }

  lemma HeaderIs()
    ensures Header() == "\n" + First() + "\n" + Second() + "\n#*#\n"
    ensures IsLine(First()) && IsLine(Second())
  {
    hide Title, Warning;
    TitleIsLine();
    WarningIsLine();
    Assembled(Title(), Warning());
    assert IsLine(PREFIX);
  }

  lemma TitleIsLine()
    ensures IsLine(Title())
  {
    LinesJoin("<----------------------", " SAVE_CONFIG ", "---------------------->");
  }

  lemma WarningIsLine()
    ensures IsLine(Warning())
  {
    LinesJoin("DO NOT EDIT THIS BLOCK", " OR BELOW. The contents are", " auto-generated.");
  }

  lemma Assembled(t: string, w: string)
    ensures MARKER + (t + "\n#*# " + w) + "\n#*#\n" == "\n" + (PREFIX + t) + "\n" + (PREFIX + w) + "\n#*#\n"
  {
    assert MARKER == "\n" + PREFIX;
  }

  lemma LinesJoin(a: string, b: string, c: string)
    requires IsLine(a) && IsLine(b) && IsLine(c)
    ensures IsLine(a + b + c)
  {
  }

  /** The header without its last newline. */
  function Bare(): string {
    "\n" + First() + "\n" + Second() + "\n#*#"
  }

  /** The text ends in a bare header, and there is no marker before it. */
  predicate EndsInHeader(s: string) {
    && |Bare()| <= |s| && s[|s| - |Bare()|..] == Bare()
    && !Occurs(s[..|s| - |Bare()|], MARKER)
  }

  lemma SplitAtNewline(a: string, b: string)
    ensures Split(a + "\n" + b) == Split(a) + Split(b)
  {
    hide Split;
    assert a + "\n" + b == a + ("\n" + b);
    SplitAppend(a, "\n" + b);
    assert Split("\n" + b) == [""] + Split(b) by { SplitAfterLine("", b); assert "" + "\n" + b == "\n" + b; }
    var n := |Split(a)| - 1;
    assert Split(a)[n] + "" == Split(a)[n];
    assert Split(a) == Split(a)[..n] + [Split(a)[n]];
  }

  /** The lines of a header with something below it. */
  lemma BlockLines(body: string)
    ensures Split(Header()[1..] + body) == [First(), Second(), "#*#"] + Split(body)
  {
    HeaderIs();
    hide Split, Header, First, Second;
    var s := Header()[1..] + body;
    assert s == First() + "\n" + (Second() + "\n" + ("#*#" + "\n" + body));
    SplitAfterLine("#*#", body);
    SplitAfterLine(Second(), "#*#" + "\n" + body);
    SplitAfterLine(First(), Second() + "\n" + ("#*#" + "\n" + body));
  }

  lemma BareIs()
    ensures Header() == Bare() + "\n" && |Header()| > 5 && Header()[0] == '\n' && Header()[1] == '#'
    ensures forall k | 0 <= k < |Header()| - 1 :: !(Header()[k] == '\n' && Header()[k + 1] == '\n')
  {
    HeaderIs();
    hide Header;
    NoEmptyLine(First(), Second());
    assert First()[0] == '#';
  }

  lemma NoEmptyLine(first: string, second: string)
    requires IsLine(first) && IsLine(second) && |first| > 4 && |second| > 4
    ensures var h := "\n" + first + "\n" + second + "\n#*#\n";
            forall k | 0 <= k < |h| - 1 :: !(h[k] == '\n' && h[k + 1] == '\n')
  {
    var h := "\n" + first + "\n" + second + "\n#*#\n";
    forall k | 0 <= k < |h| - 1 ensures !(h[k] == '\n' && h[k + 1] == '\n') {
      var m := |first| + 2;
      if 1 <= k < m - 1 {
        assert h[k] == first[k - 1];
      } else if k == 0 {
        assert h[1] == first[0];
      } else if k == m - 1 {
        assert h[m] == second[0];
      } else if k < m + |second| {
        assert h[k] == second[k - m];
      } else {
        assert h[k..] == "\n#*#\n"[k - m - |second|..];
      }
    }
  }

  /** The first header of a text, if there is no marker before it. */
  lemma HeaderAt(before: string, after: string)
    requires !Occurs(before, MARKER)
    ensures FindFrom(before + Header() + after, Header(), 0) == Some(|before|)
  {
    hide HeaderText;
    var data := before + Header() + after;
    assert data == before + (Header() + after);
    assert data[|before|..|before| + |Header()|] == Header();
    forall q | 0 <= q < |before| ensures !OccursAt(data, Header(), q) {
      if q + |MARKER| <= |before| {
        HeaderShowsMarker(before, Header() + after, q);
      } else {
        Mismatch(data, Header(), q, |before| - q);
      }
    }
    FindIs(data, Header(), 0, |before|);
  }

  lemma {:induction false} FoundBefore(s: string, pattern: string, i: nat, p: nat)
    requires i <= p && OccursAt(s, pattern, p)
    ensures FindFrom(s, pattern, i).Some? && i <= FindFrom(s, pattern, i).value <= p
    ensures OccursAt(s, pattern, FindFrom(s, pattern, i).value)
    decreases p - i
  {
    if !OccursAt(s, pattern, i) {
      FoundBefore(s, pattern, i + 1, p);
    }
  }

  lemma HeaderUntouched()
    ensures Untouched(First()) && Untouched(Second()) && Untouched("#*#")
  {
    hide Title, Warning;
  }

  /** A block as it is written: solid at both ends, and every line untouched. */
  lemma BlockIs(autosave: string)
    ensures var text := Header()[1..] + Body(autosave);
            && StartsSolid(text) && EndsSolid(text)
            && forall line | line in Split(text) :: Untouched(line)
  {
    BareIs();
    HeaderUntouched();
    AllUntouched(autosave);
    BodyIs(autosave);
    BlockLines(Body(autosave));
    hide Header, Split, Body, Untouched, Prefixed, First, Second;
    var text := Header()[1..] + Body(autosave);
    assert text[|text| - 1] == Body(autosave)[|Body(autosave)| - 1] && text[0] == '#';
    forall line | line in Split(text) ensures Untouched(line) {
      if line !in [First(), Second(), "#*#"] {
        var k :| 0 <= k < |Split(autosave)| && line == Prefixed(Split(autosave)[k]);
      }
    }
  }

  /** A text that ends in a bare header takes the block that is written below it for its own. */
  lemma BareHeaderReads(s: string, autosave: string, data: string)
    requires EndsInHeader(s) && data == s + "\n" + Header() + Body(autosave) + "\n"
    ensures FindAutosave(data).0 == s[..|s| - |Bare()|] && Readable(data)
  {
    BareIs();
    BlockIs(autosave);
    hide Header, Bare, Split, Body, Strip, Untouched, Occurs, Join, IsSpace, FindFrom;
    var before, text := s[..|s| - |Bare()|], Header()[1..] + Body(autosave);
    HeaderAt(before, Header() + Body(autosave) + "\n");
    assert s == before + Bare();
    assert data == before + Header() + (Header() + Body(autosave) + "\n");
    assert data[..|before|] == before;
    assert Header() == "\n" + Header()[1..];
    assert data[|before| + |Header()|..] == Header() + Body(autosave) + "\n" == "\n" + (text + "\n");
    StripBoth(text);
  }

  lemma {:induction false} LStripFront(t: string, x: string)
    requires EndsSolid(t)
    ensures LStrip(t + x) == LStrip(t) + x && LStrip(t) != ""
  {
    if IsSpace(t[0]) {
      LStripFront(t[1..], x);
      assert (t + x)[1..] == t[1..] + x;
    }
  }

  /** Below an earlier header, the empty line before the written one shows. */
  lemma TailIsTouched(tail: string, autosave: string)
    requires EndsSolid(tail)
    ensures var rest := Strip(tail + "\n" + Header() + Body(autosave) + "\n");
            rest != "" && "" in Split(rest)
  {
    BareIs();
    BodyIs(autosave);
    hide Header, Body, Split, IsSpace, Strip, Prefixed;
    var text := Header()[1..] + Body(autosave);
    assert text[|text| - 1] == Body(autosave)[|Body(autosave)| - 1];
    RegroupTail(tail, Header(), Body(autosave));
    EmptyLineShows(tail, text);
  }

  lemma RegroupTail(tail: string, h: string, body: string)
    requires h != "" && h[0] == '\n'
    ensures tail + "\n" + h + body + "\n" == tail + ("\n\n" + (h[1..] + body)) + "\n"
  {
    assert h == "\n" + h[1..];
  }

  lemma EmptyLineShows(tail: string, text: string)
    requires EndsSolid(tail) && EndsSolid(text)
    ensures var rest := Strip(tail + ("\n\n" + text) + "\n");
            rest != "" && "" in Split(rest)
  {
    hide Split, IsSpace;
    NewlineIsSpace();
    var s := tail + ("\n\n" + text);
    assert s[|s| - 1] == text[|text| - 1];
    RStripTail(s, "\n");
    LStripFront(tail, "\n\n" + text);
    assert LStrip(tail) + ("\n\n" + text) == LStrip(tail) + "\n" + ("" + "\n" + text);
    SplitAtNewline(LStrip(tail), "" + "\n" + text);
    SplitAfterLine("", text);
    assert Split(LStrip(tail) + ("\n\n" + text))[|Split(LStrip(tail))|] == "";
  }

  lemma NewlineIsSpace()
    ensures IsSpace('\n')
  {
  }

  /** A header that is found at or before the end of a solid text ends there, or inside it. */
  lemma NoStraddling(s: string, rest: string, p: nat)
    requires EndsSolid(s) && p <= |s| && OccursAt(s + "\n" + Header() + rest, Header(), p)
    ensures p + |Header()| <= |s| + 1 && p + |Header()| != |s|
  {
    BareIs();
    NewlineIsSpace();
    hide Header, IsSpace;
    var data := s + "\n" + Header() + rest;
    var h := Header();
    assert forall k | 0 <= k < |h| :: h[k] == data[p..p + |h|][k] == data[p + k];
    assert data[|s|] == '\n' && data[|s| + 1] == '\n' && data[|s| - 1] == s[|s| - 1];
    assert data[p + (|s| - p)] == data[|s|];
  }

  /** A marker in the regular text shows when the file is read, unless the text ends in a bare header. */
  lemma MarkerShows(s: string, autosave: string, data: string)
    requires EndsSolid(s) && Occurs(s, MARKER) && !EndsInHeader(s)
    requires data == s + "\n" + Header() + Body(autosave) + "\n"
    ensures FindAutosave(data) == (data, "") && !Readable(data)
  {
    BareIs();
    hide Header, Bare, Split, Body, Strip, Occurs, Join, IsSpace, FindFrom;
    var rest := Body(autosave) + "\n";
    assert data == s + "\n" + Header() + rest;
    assert data[..|s|] == s;
    NoMarkerInPrefix(data, |s|);
    assert data[|s| + 1..|s| + 1 + |Header()|] == Header();
    FoundBefore(data, Header(), 0, |s| + 1);
    var p := FindFrom(data, Header(), 0).value;
    if !Occurs(data[..p], MARKER) {
      EarlierHeader(s, autosave, data, p);
      assert !Untouched("");
    }
  }

  /** What is found at an earlier header: a bare header at the end of the text, or a touched line. */
  lemma EarlierHeader(s: string, autosave: string, data: string, p: nat)
    requires EndsSolid(s) && Occurs(s, MARKER)
    requires data == s + "\n" + Header() + Body(autosave) + "\n"
    requires p <= |s| + 1 && OccursAt(data, Header(), p) && !Occurs(data[..p], MARKER)
    ensures p + |Header()| <= |data|
    ensures EndsInHeader(s) || (var rest := Strip(data[p + |Header()|..]); rest != "" && "" in Split(rest))
  {
    BareIs();
    hide Header, Bare, Split, Body, Strip, Occurs, IsSpace;
    var rest := Body(autosave) + "\n";
    assert data == s + "\n" + Header() + rest;
    assert p <= |s| by {
      if p == |s| + 1 {
        assert data[..p][..|s|] == s;
        NoMarkerInPrefix(data[..p], |s|);
      }
    }
    NoStraddling(s, rest, p);
    var end := p + |Header()|;
    if end == |s| + 1 {
      assert s == data[..end][..|s|];
      assert s[p..] == data[p..end][..|Bare()|] == Bare();
      assert s[..p] == data[..p];
    } else {
      var tail := s[end..];
      assert tail[|tail| - 1] == s[|s| - 1];
      assert data[end..] == tail + "\n" + Header() + Body(autosave) + "\n";
      TailIsTouched(tail, autosave);
    }
  }

  /**
   * For every regular text and every autosave text: the saved file is read without complaint
   * if and only if the stripped regular text holds no marker, or ends in a bare header with no
   * marker before it.
   */
  lemma SavedIsReadable(regular: string, autosave: string)
    ensures Readable(SavedText(regular, autosave)) <==>
              !Occurs(RStrip(regular), MARKER) || EndsInHeader(RStrip(regular))
  {
    hide FindAutosave, SavedText, RStrip, Occurs, EndsInHeader, Header, Body, Join, Split;
    var s := RStrip(regular);
    SavedTextIs(regular, autosave);
    SavedTextReadsBack(regular, autosave);
    NoMarkerAtEnd(s);
    RStripIs(regular);
    if EndsInHeader(s) {
      BareHeaderReads(s, autosave, SavedText(regular, autosave));
    } else if Occurs(s, MARKER) {
      MarkerIsSomething(s);
      MarkerShows(s, autosave, SavedText(regular, autosave));
    }
  }

  lemma MarkerIsSomething(s: string)
    requires Occurs(s, MARKER)
    ensures s != ""
  {
  }

  // ----- The first save decides -----

  lemma {:induction false} JoinAppend(a: seq<string>, b: seq<string>)
    requires a != [] && b != []
    ensures Join(a + b) == Join(a) + "\n" + Join(b)
    decreases |a|
  {
    assert (a + b)[1..] == a[1..] + b;
    if |a| > 1 {
      JoinAppend(a[1..], b);
      JoinUnfolds(a);
      assert a[0] + "\n" + (Join(a[1..]) + "\n" + Join(b)) == (a[0] + "\n" + Join(a[1..])) + "\n" + Join(b);
    }
  }

  /** The lines of a written block are comments and empty lines. */
  lemma WrittenLines(autosave: string)
    ensures forall line | line in Split(Header() + Body(autosave) + "\n") :: IsBlank(line)
  {
    BareIs();
    BlockIs(autosave);
    hide Header, Body, Split, Pruned;
    var text := Header()[1..] + Body(autosave);
    assert Header() == "\n" + Header()[1..];
    assert Header() + Body(autosave) + "\n" == "" + "\n" + (text + "\n" + "");
    SplitAfterLine("", text + "\n" + "");
    SplitAtNewline(text, "");
    SplitLine("");
    forall line | line in [""] + (Split(text) + [""]) ensures IsBlank(line) {
      CommentIsBlank(line);
    }
  }

  /** Commenting out duplicates passes over a written block. */
  lemma BlockSurvives(has: HasOption, s: string, autosave: string)
    ensures var block := Header() + Body(autosave) + "\n";
            Undoubled(has, s + "\n" + block) == Undoubled(has, s) + "\n" + block
  {
    hide Header, Body, Split, Commented, IsField, IsContinuation, IsBlank, SectionAt, OwnerAt, Join;
    var block := Header() + Body(autosave) + "\n";
    var above, below := Split(s), Split(block);
    var lines := above + below;
    SplitAtNewline(s, block);
    WrittenLines(autosave);
    CommentedPrefix(has, lines, |above|);
    assert lines[..|above|] == above;
    forall k | |above| <= k < |lines| ensures Commented(has, TOP, lines)[k] == lines[k] {
      assert lines[k] in below;
      BlankStays(has, lines, k);
    }
    assert Commented(has, TOP, lines) == Commented(has, TOP, above) + below;
    JoinAppend(Commented(has, TOP, above), below);
    JoinSplit(block);
  }

  lemma BlankStays(has: HasOption, lines: seq<string>, k: nat)
    requires k < |lines| && IsBlank(lines[k])
    ensures Commented(has, TOP, lines)[k] == lines[k]
  {
    hide Commented, Pruned, SectionAt, OwnerAt;
    CommentedExactly(has, lines, k);
  }

  lemma HeaderStartsWithMarker()
    ensures |Header()| > 5 && Header()[..5] == MARKER
  {
    hide HeaderText;
  }

  /** A text with a block below it does not end in a bare header that has no marker before it. */
  lemma BlockInTheWay(x: string, y: string)
    requires |y| >= 3
    ensures Occurs(x + Header() + y, MARKER) && !EndsInHeader(x + Header() + y)
  {
    BareIs();
    HeaderStartsWithMarker();
    hide Header, Bare, Occurs;
    MarkerInTheWay(x, Header(), Bare(), y);
  }

  lemma MarkerInTheWay(x: string, h: string, bare: string, y: string)
    requires |h| > 5 && h == bare + "\n" && h[..5] == MARKER && |y| >= 3
    ensures var s := x + h + y;
            && Occurs(s, MARKER)
            && (s[|s| - |bare|..] == bare ==> Occurs(s[..|s| - |bare|], MARKER))
  {
    var s := x + h + y;
    var end := |s| - |bare|;
    assert s[|x|..|x| + 5] == h[..5];
    assert OccursAt(s, MARKER, |x|);
    if s[end..] == bare {
      assert bare[0] == h[0] == MARKER[0];
      assert s[end] == s[end..][0] == '\n';
      assert s[|x| + 4] == h[..5][4] == ' ';
      assert end >= |x| + 5;
      assert s[..end][|x|..|x| + 5] == s[|x|..|x| + 5];
      assert OccursAt(s[..end], MARKER, |x|);
    }
  }

  /** Once a save has left a file that cannot be read, no later save makes it readable. */
  lemma DamageStays(regular: string, autosave: string, has: HasOption, autosave': string)
    requires !Readable(SavedText(regular, autosave))
    ensures !Readable(SavedOver(SavedText(regular, autosave), has, autosave'))
  {
    var data, s, body := SavedText(regular, autosave), RStrip(regular), Body(autosave);
    RegularHasNoMarker(data);
    SavedTextIs(regular, autosave);
    BodyIs(autosave);
    BodyIsLong(autosave);
    hide FindAutosave, SavedText, RStrip, Occurs, EndsInHeader, Header, Body, Join, Split, Undoubled, IsSpace;
    BlockSurvives(has, s, autosave);
    assert data == s + "\n" + (Header() + body + "\n");
    var x := Undoubled(has, s) + "\n";
    var s' := x + Header() + body;
    assert Undoubled(has, data) == s' + "\n";
    assert s'[|s'| - 1] == body[|body| - 1];
    assert AllSpace("\n") by { NewlineIsSpace(); }
    RStripTail(s', "\n");
    BlockInTheWay(x, body);
    SavedIsReadable(Undoubled(has, data), autosave');
  }

  lemma BodyIsLong(autosave: string)
    ensures |Body(autosave)| >= 3
  {
    var lines := Map(Prefixed, Split(autosave));
    SplitLines(autosave);
    PrefixedIs(Split(autosave)[0]);
    hide Prefixed, Split, Join;
    JoinStarts(lines);
  }

  /** What one save brings along: the options of the block, and its text. */
  datatype Saving = Saving(has: HasOption, autosave: string)

  /** The file after some saves in a row. */
  function Saves(data: string, saves: seq<Saving>): string {
    if saves == [] then data
    else
      var last := saves[|saves| - 1];
      SavedOver(Saves(data, saves[..|saves| - 1]), last.has, last.autosave)
  }

  /**
   * Over any sequence of saves: a readable file stays readable and gives back the text of the
   * last save; and whatever the file was, the first save decides whether it can be read ever
   * after.
   */
  lemma {:induction false} FirstSaveDecides(data: string, saves: seq<Saving>)
    requires saves != [] && forall k | 0 <= k < |saves| :: NamedOptions(saves[k].has)
    ensures Readable(Saves(data, saves)) <==> Readable(Saves(data, saves[..1]))
    ensures Readable(data) ==> Readable(Saves(data, saves))
    ensures Readable(Saves(data, saves)) && (Readable(data) || |saves| > 1) ==>
              FindAutosave(Saves(data, saves)).1 == Join([""] + Map(RStrip, Split(saves[|saves| - 1].autosave)) + [""])
    decreases |saves|
  {
    hide FindAutosave, SavedText, Undoubled, RStrip, Join, Split, NamedOptions, Readable;
    var n := |saves| - 1;
    var before, last := Saves(data, saves[..n]), saves[n];
    if n == 0 {
      assert saves[..1] == saves;
      if Readable(data) {
        SaveKeepsReadable(data, last.has, last.autosave);
      }
    } else {
      FirstSaveDecides(data, saves[..n]);
      assert saves[..n][..1] == saves[..1];
      if Readable(before) {
        SaveKeepsReadable(before, last.has, last.autosave);
      } else {
        var b := saves[n - 1];
        DamageStays(Undoubled(b.has, FindAutosave(Saves(data, saves[..n][..n - 1])).0), b.autosave, last.has, last.autosave);
      }
    }
  }

  // ----- Inputs on which reading back fails, or comes back -----

  /** A text of comments and section headers alone has nothing to comment out. */
  lemma NoFields(has: HasOption, text: string)
    requires forall line | line in Split(text) :: IsBlank(line) || IsHeader(line)
    ensures Undoubled(has, text) == text
  {
    hide Commented, Split, Pruned, SectionAt, OwnerAt, IsSpace;
    var lines := Split(text);
    forall k | 0 <= k < |lines| ensures Commented(has, TOP, lines)[k] == lines[k] {
      assert lines[k] in lines;
      CommentedExactly(has, lines, k);
    }
    assert Commented(has, TOP, lines) == lines;
    JoinSplit(text);
  }

  /** A section `[a]` and a comment below it. */
  lemma SectionAndComment(has: HasOption, comment: string)
    requires IsLine(comment) && comment != "" && comment[0] == '#'
    ensures Undoubled(has, "[a]\n" + comment) == "[a]\n" + comment
  {
    SectionIsHeader();
    CommentIsBlank(comment);
    hide IsBlank, IsHeader, Undoubled, Split;
    assert "[a]\n" + comment == "[a]" + "\n" + comment;
    SplitAfterLine("[a]", comment);
    SplitLine(comment);
    NoFields(has, "[a]\n" + comment);
  }

  lemma SectionIsHeader()
    ensures IsHeader("[a]") && IsLine("[a]")
  {
    var s := "[a]";
    assert s[1..] == "a]" && s[1..][1..] == "]" && s[1..][1..][1..] == "";
    assert Uncommented(s) == s;
    assert RStrip(s) == s;
  }

  /** A text with a marker and without a header cannot be read. */
  lemma MarkedWithoutHeader(data: string)
    requires Occurs(data, MARKER) && forall i: nat :: !OccursAt(data, Header(), i)
    ensures FindAutosave(data) == (data, "") && !Readable(data)
  {
    hide Header, Occurs, Join, Split, Strip;
    FindFinds(data, Header(), 0);
  }

  lemma TooShortForHeader(data: string)
    requires |data| <= 9
    ensures |data| < |Bare()| && forall i: nat :: !OccursAt(data, Header(), i)
  {
    BareIs();
    assert |First()| > 9 by { hide Warning; }
  }

  /**
   * A section and a marker line below it: whatever block is saved, the file that is written is
   * taken as regular altogether.
   */
  lemma MarkerLineIsNotReadBack(has: HasOption, autosave: string)
    ensures var regular := "[a]\n#*# b";
            var saved := SavedOver(regular, has, autosave);
            && saved == SavedText(regular, autosave)
            && FindAutosave(saved) == (saved, "") && FindAutosave(saved).0 != RStrip(regular) + "\n"
  {
    var regular := "[a]\n#*# b";
    MarkerChars(regular, 3);
    assert Occurs(regular, MARKER);
    assert RStrip(regular) == regular;
    assert regular == "[a]\n" + "#*# b";
    hide FindAutosave, SavedText, RStrip, Header, Body, Bare, Undoubled;
    TooShortForHeader(regular);
    MarkedWithoutHeader(regular);
    SectionAndComment(has, "#*# b");
    SavedTextIs(regular, autosave);
    SavedTextReadsBack(regular, autosave);
    MarkerShows(regular, autosave, SavedText(regular, autosave));
  }

  /** A marker that ends in trailing space: the file cannot be read, but after any save it can. */
  lemma TrailingMarkerHeals(has: HasOption, autosave: string)
    ensures var data := "[a]\n#*# ";
            !Readable(data) && Readable(SavedOver(data, has, autosave))
  {
    var data, s := "[a]\n#*# ", "[a]\n#*#";
    MarkerChars(data, 3);
    assert Occurs(data, MARKER);
    assert data == s + " " == "[a]\n" + "#*# ";
    RStripTail(s, " ");
    forall i: nat ensures !OccursAt(s, MARKER, i) {
      MarkerChars(s, i);
    }
    hide FindAutosave, SavedText, RStrip, Header, Undoubled, EndsInHeader;
    TooShortForHeader(data);
    MarkedWithoutHeader(data);
    SectionAndComment(has, "#*# ");
    SavedIsReadable(data, autosave);
  }

  /** A section and a header without its last newline: it is not recognised, but after any save it is. */
  lemma BareHeaderHeals(has: HasOption, autosave: string)
    ensures var data := "[a]" + Bare();
            !Readable(data) && Readable(SavedOver(data, has, autosave))
  {
    BareIs();
    HeaderStartsWithMarker();
    BareEndsSolid();
    SectionAndBare(has);
    hide Header, Bare, Undoubled;
    var data := "[a]" + Bare();
    assert data[3..8] == Header()[..5];
    assert OccursAt(data, MARKER, 3);
    forall i: nat ensures !OccursAt(data, Header(), i) {
      if i + |Header()| <= |data| {
        assert data[i..i + |Header()|][0] == data[i] == "[a]"[i];
      }
    }
    assert data[|data| - |Bare()|..] == Bare() && data[..|data| - |Bare()|] == "[a]";
    NoMarkerInSection();
    RStripTail(data, "");
    assert data + "" == data;
    hide FindAutosave, SavedText, RStrip, Occurs;
    MarkedWithoutHeader(data);
    SavedIsReadable(data, autosave);
  }

  lemma NoMarkerInSection()
    ensures !Occurs("[a]", MARKER)
  {
  }

  lemma SectionAndBare(has: HasOption)
    ensures Undoubled(has, "[a]" + Bare()) == "[a]" + Bare()
  {
    HeaderIs();
    SectionIsHeader();
    BareLinesAreBlank();
    hide Header, First, Second, IsBlank, IsHeader, Undoubled, Split, IsLine;
    BareLines("[a]", First(), Second());
    NoFields(has, "[a]" + Bare());
  }

  lemma BareLinesAreBlank()
    ensures IsBlank(First()) && IsBlank(Second()) && IsBlank("#*#")
  {
    assert First()[0] == Second()[0] == '#' by { hide Title, Warning; }
    hide First, Second, IsBlank;
    CommentIsBlank(First());
    CommentIsBlank(Second());
    CommentIsBlank("#*#");
  }

  lemma BareLines(above: string, first: string, second: string)
    requires IsLine(above) && IsLine(first) && IsLine(second)
    ensures Split(above + ("\n" + first + "\n" + second + "\n#*#")) == [above, first, second, "#*#"]
  {
    hide Split;
    var text := above + ("\n" + first + "\n" + second + "\n#*#");
    assert text == above + "\n" + (first + "\n" + (second + "\n" + "#*#"));
    SplitAfterLine(above, first + "\n" + (second + "\n" + "#*#"));
    SplitAfterLine(first, second + "\n" + "#*#");
    SplitAfterLine(second, "#*#");
    SplitLine("#*#");
  }

  lemma BareEndsSolid()
    ensures EndsSolid(Bare())
  {
    hide First, Second;
  }
}
