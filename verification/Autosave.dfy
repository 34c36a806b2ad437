/** Saving automatically maintained settings below the regular configuration text, and reading them back. */
module Autosave {
  import opened Results
  import opened Text
  import opened Stripping

  /** The text of the header between its first marker and its last, bare one. */
  function HeaderText(): string {
    Title() + "\n#*# " + Warning()
  }

  function Title(): string {
    "<----------------------" + " SAVE_CONFIG " + "---------------------->"
  }

  function Warning(): string {
    "DO NOT EDIT THIS BLOCK" + " OR BELOW. The contents are" + " auto-generated."
  }

  const MARKER := "\n#*# "

  function Header(): string {
    MARKER + HeaderText() + "\n#*#\n"
  }

  // ----- Specification -----

  /** An autosave line as it is written: prefixed, and stripped. */
  function Prefixed(line: string): string {
    Strip("#*# " + line)
  }

  function Map(f: string -> string, lines: seq<string>): (r: seq<string>)
    ensures |r| == |lines| && forall k | 0 <= k < |lines| :: r[k] == f(lines[k])
  {
    if lines == [] then [] else [f(lines[0])] + Map(f, lines[1..])
  }

  function SavedText(regular: string, autosave: string): string {
    RStrip(regular) + Join(["\n" + RStrip(Header())] + Map(Prefixed, Split(autosave)) + [""])
  }

  /** A line below the header that nobody has edited. */
  predicate Untouched(line: string) {
    "#*#" <= line && (|line| < 4 || "#*# " <= line)
  }

  function Unprefixed(line: string): string {
    if |line| < 4 then "" else line[4..]
  }

  /** The regular text and the autosave text; damaged files are taken as regular altogether. */
  function FindAutosave(data: string): (string, string) {
    var pos := FindFrom(data, Header(), 0);
    var regular := match pos case Some(p) => data[..Min(p, |data|)] case None => data;
    var autosave := match pos
      case Some(p) => if p + |Header()| <= |data| then Strip(data[p + |Header()|..]) else ""
      case None => "";
    if Occurs(regular, MARKER) then (data, "")
    else if autosave != "" && exists line :: line in Split(autosave) && !Untouched(line) then (data, "")
    else (regular, Join([""] + Map(Unprefixed, Split(autosave)) + [""]))
  }

  // ----- The two programs -----

  /** Assembles the text of the saved file. */
  method Save(regular: string, autosave: string) returns (data: string)
    ensures data == SavedText(regular, autosave)
  {
    var lines: seq<string> := [];
    var split := Split(autosave);
    for k := 0 to |split|
      invariant |lines| == k && forall i | 0 <= i < k :: lines[i] == Prefixed(split[i])
    {
      lines := lines + [Strip("#*# " + split[k])];
    }
    assert lines == Map(Prefixed, split);
    lines := ["\n" + RStrip(Header())] + lines;
    lines := lines + [""];
    data := RStrip(regular) + Join(lines);
  }

  /** Takes a file apart, checking every line below the header. */
  method FindAutosaveData(data: string) returns (regular: string, autosave: string)
    ensures (regular, autosave) == FindAutosave(data)
  {
    hide Header, Strip, Split, Join, Untouched;
    FindFinds(data, Header(), 0);
    regular, autosave := data, "";
    var pos := FindFrom(data, Header(), 0);
    if pos.Some? {
      regular := data[..pos.value];
      autosave := Strip(data[pos.value + |Header()|..]);
    }
    if Occurs(regular, MARKER) { return data, ""; }
    var out: seq<string> := [""];
    ghost var taken: seq<string> := [];
    var split := Split(autosave);
    for k := 0 to |split|
      invariant out == [""] + taken && |taken| == k
      invariant forall i | 0 <= i < k :: taken[i] == Unprefixed(split[i])
      invariant autosave != "" ==> forall i | 0 <= i < k :: Untouched(split[i])
    {
      if !Untouched(split[k]) && autosave != "" { return data, ""; }
      out := out + [Unprefixed(split[k])];
      taken := taken + [Unprefixed(split[k])];
    }
    assert taken == Map(Unprefixed, split);
    out := out + [""];
    autosave := Join(out);
  }

  // ----- The shape of a saved file -----

  /** The header is its own stripped form and a newline. */
  lemma HeaderEndsInNewline()
    ensures RStrip(Header()) + "\n" == Header()
  {
    hide HeaderText;
    var solid := MARKER + HeaderText() + "\n#*#";
    assert Header() == solid + "\n";
    RStripTail(solid, "\n");
  }

  lemma PrefixBlank(tail: string)
    requires AllSpace(tail)
    ensures Prefixed(tail) == "#*#"
  {
    hide Strip;
    assert "#*# " + tail == "#*#" + (" " + tail);
    StripAround("#*#", " " + tail);
  }

  lemma PrefixSolid(solid: string, tail: string)
    requires EndsSolid(solid) && AllSpace(tail)
    ensures Prefixed(solid + tail) == "#*# " + solid
  {
    hide Strip;
    var s := "#*# " + solid;
    assert s[|s| - 1] == solid[|solid| - 1];
    assert "#*# " + (solid + tail) == s + tail;
    StripAround(s, tail);
  }

  /** Prefixing loses exactly the trailing space of a line. */
  lemma PrefixedForm(line: string)
    ensures Prefixed(line) == if RStrip(line) == "" then "#*#" else "#*# " + RStrip(line)
  {
    hide Prefixed, RStrip;
    var solid := RStrip(line);
    var tail := line[|solid|..];
    RStripIs(line);
    assert line == solid + tail;
    if solid == "" {
      assert line == tail;
      PrefixBlank(tail);
    } else {
      PrefixSolid(solid, tail);
    }
  }

  /** A prefixed line is solid at both ends, passes for untouched, and gives back the line. */
  lemma PrefixedIs(line: string)
    requires IsLine(line)
    ensures StartsSolid(Prefixed(line)) && EndsSolid(Prefixed(line)) && IsLine(Prefixed(line))
    ensures Untouched(Prefixed(line)) && Unprefixed(Prefixed(line)) == RStrip(line)
  {
    PrefixedForm(line);
    RStripIs(line);
    hide Prefixed, RStrip;
    var solid := RStrip(line);
    assert IsLine(solid) by { assert forall c | c in solid :: c in line; }
    assert ("#*# " + solid)[4..] == solid;
  }

  lemma {:induction false} JoinWithLast(lines: seq<string>, last: string)
    requires lines != []
    ensures Join(lines + [last]) == Join(lines) + "\n" + last
    decreases |lines|
  {
    if |lines| == 1 {
      assert (lines + [last])[1..] == [last];
    } else {
      JoinWithLast(lines[1..], last);
      assert (lines + [last])[1..] == lines[1..] + [last];
      assert lines[0] + "\n" + (Join(lines[1..]) + "\n" + last) == (lines[0] + "\n" + Join(lines[1..])) + "\n" + last;
    }
  }

  function Body(autosave: string): string {
    Join(Map(Prefixed, Split(autosave)))
  }

  /** A saved file is the stripped regular text, an empty line, the header and the prefixed lines. */
  lemma SavedTextIs(regular: string, autosave: string)
    ensures SavedText(regular, autosave) == RStrip(regular) + "\n" + Header() + Body(autosave) + "\n"
  {
    hide Header, RStrip, Split, Prefixed, Join;
    var lines := Map(Prefixed, Split(autosave));
    HeaderEndsInNewline();
    JoinThree("\n" + RStrip(Header()), lines);
    Regroup(RStrip(regular), RStrip(Header()), Join(lines));
  }

  lemma JoinThree(first: string, lines: seq<string>)
    requires lines != []
    ensures Join([first] + lines + [""]) == first + "\n" + (Join(lines) + "\n")
  {
    JoinWithLast(lines, "");
    var all := [first] + lines + [""];
    assert all[1..] == lines + [""];
    hide Join;
    assert Join(lines) + "\n" + "" == Join(lines) + "\n";
    assert Join(all) == all[0] + "\n" + Join(all[1..]) by { JoinUnfolds(all); }
  }

  lemma JoinUnfolds(lines: seq<string>)
    requires |lines| > 1
    ensures Join(lines) == lines[0] + "\n" + Join(lines[1..])
  {
  }

  lemma Regroup(a: string, h: string, b: string)
    ensures a + (("\n" + h) + "\n" + (b + "\n")) == a + "\n" + (h + "\n") + b + "\n"
  {
  }

  /** The body is solid at both ends, and splits into the prefixed lines. */
  lemma BodyIs(autosave: string)
    ensures StartsSolid(Body(autosave)) && EndsSolid(Body(autosave))
    ensures Split(Body(autosave)) == Map(Prefixed, Split(autosave))
  {
    var lines := Split(autosave);
    SplitLines(autosave);
    var prefixed := Map(Prefixed, lines);
    forall k | 0 <= k < |lines|
      ensures IsLine(prefixed[k]) && StartsSolid(prefixed[k]) && EndsSolid(prefixed[k])
    {
      PrefixedIs(lines[k]);
    }
    hide Prefixed, Split;
    SplitJoin(prefixed);
    JoinSolid(prefixed);
  }

  lemma {:induction false} JoinSolid(lines: seq<string>)
    requires lines != [] && StartsSolid(lines[0]) && EndsSolid(lines[|lines| - 1])
    ensures StartsSolid(Join(lines)) && EndsSolid(Join(lines))
  {
    var n := |lines| - 1;
    if n > 0 {
      assert lines == lines[..n] + [lines[n]];
      JoinWithLast(lines[..n], lines[n]);
      JoinStarts(lines);
    }
  }

  lemma JoinStarts(lines: seq<string>)
    requires lines != []
    ensures lines[0] <= Join(lines)
  {
  }

  // ----- Reading back -----

  lemma Mismatch(s: string, pattern: string, i: nat, k: nat)
    requires k < |pattern| && i + k < |s| && s[i + k] != pattern[k]
    ensures !OccursAt(s, pattern, i)
  {
    if i + |pattern| <= |s| {
      assert s[i..i + |pattern|][k] == s[i + k];
    }
  }

  lemma HeaderShowsMarker(stripped: string, rest: string, q: nat)
    requires q + |MARKER| <= |stripped|
    ensures OccursAt(stripped + rest, Header(), q) ==> OccursAt(stripped, MARKER, q)
  {
    hide HeaderText;
    var data := stripped + rest;
    if OccursAt(data, Header(), q) {
      assert data[q..q + |Header()|] == Header();
      assert Header()[..5] == MARKER;
      assert stripped[q..q + 5] == data[q..q + |Header()|][..5];
    }
  }

  /** Neither inside the regular text nor straddling its end is there anything like the header. */
  lemma HeaderNotEarlier(stripped: string, rest: string, q: nat)
    requires !Occurs(stripped, MARKER) && q <= |stripped|
    ensures !OccursAt(stripped + "\n" + Header() + rest, Header(), q)
  {
    hide HeaderText;
    var data := stripped + "\n" + Header() + rest;
    assert data == stripped + ("\n" + Header() + rest);
    assert data[|stripped|] == data[|stripped| + 1] == '\n';
    if q + |MARKER| <= |stripped| {
      HeaderShowsMarker(stripped, "\n" + Header() + rest, q);
    } else if q < |stripped| {
      Mismatch(data, Header(), q, |stripped| - q);
    } else {
      Mismatch(data, Header(), q, 1);
    }
  }

  /** The first header of a saved file is the one that was written. */
  lemma HeaderFound(stripped: string, rest: string)
    requires !Occurs(stripped, MARKER)
    ensures FindFrom(stripped + "\n" + Header() + rest, Header(), 0) == Some(|stripped| + 1)
  {
    hide Header;
    var data := stripped + "\n" + Header() + rest;
    assert data[|stripped| + 1..|stripped| + 1 + |Header()|] == Header();
    forall q | 0 <= q < |stripped| + 1 ensures !OccursAt(data, Header(), q) {
      HeaderNotEarlier(stripped, rest, q);
    }
    FindIs(data, Header(), 0, |stripped| + 1);
  }

  /** A newline at the end adds no marker. */
  lemma NoMarkerAtEnd(stripped: string)
    ensures Occurs(stripped + "\n", MARKER) <==> Occurs(stripped, MARKER)
  {
    var s := stripped + "\n";
    if i :| 0 <= i <= |stripped| && OccursAt(stripped, MARKER, i) {
      assert s[i..i + 5] == stripped[i..i + 5];
      assert OccursAt(s, MARKER, i);
    }
    if i :| 0 <= i <= |s| && OccursAt(s, MARKER, i) {
      assert s[i..i + 5][4] == ' ';
      assert i + 5 <= |stripped|;
      assert stripped[i..i + 5] == s[i..i + 5];
      assert OccursAt(stripped, MARKER, i);
    }
  }

  lemma AllUntouched(autosave: string)
    ensures forall k | 0 <= k < |Split(autosave)| :: Untouched(Prefixed(Split(autosave)[k]))
    ensures Map(Unprefixed, Map(Prefixed, Split(autosave))) == Map(RStrip, Split(autosave))
  {
    var lines := Split(autosave);
    SplitLines(autosave);
    hide Split, Prefixed, Unprefixed, Untouched;
    forall k | 0 <= k < |lines|
      ensures Untouched(Prefixed(lines[k])) && Unprefixed(Prefixed(lines[k])) == RStrip(lines[k])
    {
      PrefixedIs(lines[k]);
    }
  }

  /**
   * Reading back a saved file, for every regular text and every autosave text: the regular
   * part comes back, stripped at the end, exactly when it holds no marker; and then so does
   * the autosave part, with every line stripped at the end.
   */
  lemma SavedTextReadsBack(regular: string, autosave: string)
    ensures FindAutosave(SavedText(regular, autosave)).0 == RStrip(regular) + "\n" <==> !Occurs(RStrip(regular), MARKER)
    ensures !Occurs(RStrip(regular), MARKER) ==>
              FindAutosave(SavedText(regular, autosave))
              == (RStrip(regular) + "\n", Join([""] + Map(RStrip, Split(autosave)) + [""]))
  {
    hide Header, Strip, Split, Body, RStrip, SavedText, Join;
    var stripped, data := RStrip(regular), SavedText(regular, autosave);
    SavedTextIs(regular, autosave);
    NoMarkerAtEnd(stripped);
    if Occurs(stripped, MARKER) {
      RegularHasNoMarker(data);
      assert |data| > |stripped| + 1;
    } else {
      ReadsBackClean(stripped, autosave, data);
    }
  }

  /** What is returned as regular text holds no marker, unless it is the whole file. */
  lemma RegularHasNoMarker(data: string)
    ensures FindAutosave(data).0 == data || !Occurs(FindAutosave(data).0, MARKER)
  {
  }

  lemma ReadsBackClean(stripped: string, autosave: string, data: string)
    requires !Occurs(stripped, MARKER)
    requires data == stripped + "\n" + Header() + Body(autosave) + "\n"
    ensures FindAutosave(data) == (stripped + "\n", Join([""] + Map(RStrip, Split(autosave)) + [""]))
  {
    hide Header, Strip, Split, Body, RStrip, Join;
    var rest := Body(autosave) + "\n";
    assert data == stripped + "\n" + Header() + rest;
    HeaderFound(stripped, rest);
    NoMarkerAtEnd(stripped);
    var p := |stripped| + 1;
    assert data[..p] == stripped + "\n";
    assert data[p + |Header()|..] == rest;
    BodyIs(autosave);
    StripAround(Body(autosave), "\n");
    AllUntouched(autosave);
    forall line | line in Map(Prefixed, Split(autosave)) ensures Untouched(line) {
    }
  }

  // ----- Saving again -----

  lemma StrippedStaysStripped(regular: string)
    ensures RStrip(RStrip(regular) + "\n") == RStrip(regular)
  {
    RStripIs(regular);
    RStripTail(RStrip(regular), "\n");
  }

  /** The prefixed lines do not see trailing space. */
  lemma PrefixedIgnoresTrailingSpace(line: string)
    ensures Prefixed(RStrip(line)) == Prefixed(line)
  {
    hide Prefixed, RStrip;
    PrefixedForm(line);
    PrefixedForm(RStrip(line));
    RStripTwice(line);
  }

  /** The lines of a text, each stripped at its end. */
  function Trimmed(autosave: string): string {
    Join(Map(RStrip, Split(autosave)))
  }

  lemma TrimmedLines(autosave: string)
    ensures Split(Trimmed(autosave)) == Map(RStrip, Split(autosave))
  {
    var lines := Split(autosave);
    SplitLines(autosave);
    hide Split, RStrip;
    forall k | 0 <= k < |lines| ensures IsLine(RStrip(lines[k])) {
      assert forall c | c in RStrip(lines[k]) :: c in lines[k];
    }
    SplitJoin(Map(RStrip, lines));
  }

  /** Saving what was read back, regular text and autosave text, writes the same file again. */
  lemma SavingAgainIsFixed(regular: string, autosave: string)
    ensures SavedText(RStrip(regular) + "\n", autosave) == SavedText(regular, autosave)
    ensures SavedText(RStrip(regular) + "\n", Trimmed(autosave)) == SavedText(regular, autosave)
  {
    hide RStrip, Prefixed, Split, Trimmed, Header, Join;
    StrippedStaysStripped(regular);
    TrimmedLines(autosave);
    var lines := Split(autosave);
    forall k | 0 <= k < |lines| ensures Prefixed(RStrip(lines[k])) == Prefixed(lines[k]) {
      PrefixedIgnoresTrailingSpace(lines[k]);
    }
    assert Map(Prefixed, Map(RStrip, lines)) == Map(Prefixed, lines);
  }

  /** The autosave text that is read back strips to the trimmed lines of what was saved. */
  lemma ReadBackStrips(autosave: string)
    requires StartsSolid(autosave) && EndsSolid(autosave)
    ensures Strip(Join([""] + Map(RStrip, Split(autosave)) + [""])) == Trimmed(autosave)
  {
    var lines := Map(RStrip, Split(autosave));
    TrimmedIsSolid(autosave);
    JoinThree("", lines);
    var text := Trimmed(autosave);
    hide Trimmed, Join, RStrip, Split;
    assert "" + "\n" + (text + "\n") == "\n" + (text + "\n");
    StripBoth(text);
  }

  lemma StripBoth(text: string)
    requires StartsSolid(text) && EndsSolid(text)
    ensures Strip("\n" + (text + "\n")) == text
  {
    var s := "\n" + text;
    assert s[|s| - 1] == text[|text| - 1];
    assert "\n" + (text + "\n") == s + "\n";
    RStripTail(s, "\n");
    assert s[1..] == text;
    assert LStrip(text) == text;
  }

  lemma TrimmedIsSolid(autosave: string)
    requires StartsSolid(autosave) && EndsSolid(autosave)
    ensures StartsSolid(Trimmed(autosave)) && EndsSolid(Trimmed(autosave))
  {
    hide Split, Join, RStrip, IsSpace;
    var lines := Split(autosave);
    JoinSplit(autosave);
    FirstAndLast(lines);
    var first, last := lines[0], lines[|lines| - 1];
    RStripKeepsSolid(first, 0);
    RStripKeepsSolid(last, |last| - 1);
    RStripIs(last);
    assert StartsSolid(RStrip(first)) && EndsSolid(RStrip(last));
    JoinSolid(Map(RStrip, lines));
  }

  /** A text that is solid at both ends begins and ends in solid lines. */
  lemma {:induction false} FirstAndLast(lines: seq<string>)
    requires lines != [] && StartsSolid(Join(lines)) && EndsSolid(Join(lines))
    ensures StartsSolid(lines[0]) && EndsSolid(lines[|lines| - 1])
  {
    var n := |lines| - 1;
    if n > 0 {
      JoinUnfolds(lines);
      assert lines == lines[..n] + [lines[n]];
      JoinWithLast(lines[..n], lines[n]);
    }
  }

  lemma {:induction false} RStripKeepsSolid(s: string, k: nat)
    requires k < |s| && !IsSpace(s[k])
    ensures k < |RStrip(s)|
  {
    RStripIs(s);
    assert s == RStrip(s) + s[|RStrip(s)|..];
  }

  /**
   * Save, read, save: for every regular text without a marker and every stripped autosave
   * text, saving again what was read back gives the same file.
   */
  lemma SaveReadSave(regular: string, autosave: string)
    requires !Occurs(RStrip(regular), MARKER) && StartsSolid(autosave) && EndsSolid(autosave)
    ensures var saved := SavedText(regular, autosave);
            var (regular', autosave') := FindAutosave(saved);
            SavedText(regular', Strip(autosave')) == saved
  {
    hide FindAutosave, SavedText, Strip, Join, RStrip, Split;
    SavedTextReadsBack(regular, autosave);
    ReadBackStrips(autosave);
    SavingAgainIsFixed(regular, autosave);
  }
}
