/** Commenting out fields of a configuration text that another configuration defines. */
module Duplicates {
  import opened Results
  import opened Text
  import opened Stripping

  /** Whether the other configuration has an option; before the first section header there is no section. */
  type HasOption = (Option<string>, string) -> bool

  function Uncommented(line: string): string {
    if line == "" || line[0] == '#' || line[0] == ';' then "" else [line[0]] + Uncommented(line[1..])
  }

  /** A line without its comment and trailing space. */
  function Pruned(line: string): string {
    RStrip(Uncommented(line))
  }

  predicate IsNameChar(c: char) {
    'A' <= c <= 'Z' || 'a' <= c <= 'z' || '0' <= c <= '9' || c == '_'
  }

  /** The name that a line begins with. */
  function FieldName(s: string): string {
    if s == "" || !IsNameChar(s[0]) then "" else [s[0]] + FieldName(s[1..])
  }

  /** Where the pass stands: the section, and whether the last field is a duplicate. */
  datatype Place = Place(section: Option<string>, duplicate: bool)

  const TOP := Place(None, false)

  function SectionName(pruned: string): string {
    if |pruned| <= 2 then "" else Strip(pruned[1..|pruned| - 1])
  }

  /** The place after a line, and whether the line is to be commented out. */
  function Next(has: HasOption, p: Place, line: string): (Place, bool) {
    var pruned := Pruned(line);
    if pruned == "" then (p, false)
    else if IsSpace(pruned[0]) then (p, p.duplicate)
    else if pruned[0] == '[' then (Place(Some(SectionName(pruned)), false), false)
    else
      var duplicate := has(p.section, FieldName(pruned));
      (Place(p.section, duplicate), duplicate)
  }

  function PlaceAfter(has: HasOption, p: Place, lines: seq<string>): Place {
    if lines == [] then p else Next(has, PlaceAfter(has, p, lines[..|lines| - 1]), lines[|lines| - 1]).0
  }

  function Commented(has: HasOption, p: Place, lines: seq<string>): (r: seq<string>)
    ensures |r| == |lines|
    ensures forall k | 0 <= k < |lines| :: r[k] == lines[k] || r[k] == "#" + lines[k]
  {
    if lines == [] then []
    else
      var before, line := lines[..|lines| - 1], lines[|lines| - 1];
      Commented(has, p, before)
      + [if Next(has, PlaceAfter(has, p, before), line).1 then "#" + line else line]
  }

  lemma CommentedNext(has: HasOption, lines: seq<string>, k: nat)
    requires k < |lines|
    ensures var (place, comment) := Next(has, PlaceAfter(has, TOP, lines[..k]), lines[k]);
            && PlaceAfter(has, TOP, lines[..k + 1]) == place
            && Commented(has, TOP, lines[..k + 1])
               == Commented(has, TOP, lines[..k]) + [if comment then "#" + lines[k] else lines[k]]
  {
    hide Next;
    assert lines[..k + 1][..k] == lines[..k] && lines[..k + 1][k] == lines[k];
  }

  /** The pass over the lines, in place. */
  method StripDuplicates(lines: array<string>, has: HasOption)
    modifies lines
    ensures lines[..] == Commented(has, TOP, old(lines[..]))
  {
    ghost var was := lines[..];
    NothingCommented(has);
    hide Commented, PlaceAfter, Pruned, FieldName, SectionName, IsSpace;
    var section: Option<string>, duplicate := None, false;
    for k := 0 to lines.Length
      invariant Place(section, duplicate) == PlaceAfter(has, TOP, was[..k])
      invariant lines[..k] == Commented(has, TOP, was[..k])
      invariant forall j | k <= j < lines.Length :: lines[j] == was[j]
    {
      CommentedNext(has, was, k);
      ghost var before := lines[..k];
      var comment := false;
      var pruned := Pruned(lines[k]);
      if pruned != "" {
        if IsSpace(pruned[0]) {
          comment := duplicate;
        } else {
          duplicate := false;
          if pruned[0] == '[' {
            section := Some(SectionName(pruned));
          } else if has(section, FieldName(pruned)) {
            duplicate, comment := true, true;
          }
        }
      }
      if comment {
        lines[k] := "#" + lines[k];
      }
      assert lines[..k + 1] == before + [lines[k]];
    }
    assert lines[..] == lines[..lines.Length] && was == was[..lines.Length];
  }

  // ----- Properties -----

  /** A commented line is skipped. */
  lemma CommentIsSkipped(has: HasOption, p: Place, line: string)
    ensures Next(has, p, "#" + line) == (p, false)
  {
  }

  /** A second pass is in the same section as the first and finds no duplicate. */
  lemma {:induction false} SecondPass(has: HasOption, lines: seq<string>)
    ensures var once := Commented(has, TOP, lines);
            && PlaceAfter(has, TOP, once) == Place(PlaceAfter(has, TOP, lines).section, false)
            && Commented(has, TOP, once) == once
  {
    hide Next, Commented, PlaceAfter;
    if lines == [] {
      NothingCommented(has);
    } else {
      var n := |lines| - 1;
      SecondPass(has, lines[..n]);
      assert lines[..n + 1] == lines;
      CommentedNext(has, lines, n);
      var p := PlaceAfter(has, TOP, lines[..n]);
      var once := Commented(has, TOP, lines);
      assert once[..n] == Commented(has, TOP, lines[..n]) && once[..n + 1] == once;
      CommentedNext(has, once, n);
      SecondLook(has, p, lines[n]);
    }
  }

  lemma NothingCommented(has: HasOption)
    ensures Commented(has, TOP, []) == [] && PlaceAfter(has, TOP, []) == TOP
  {
  }

  /** A line that was commented is skipped, one that was not still is not a duplicate. */
  lemma SecondLook(has: HasOption, p: Place, line: string)
    ensures var (place, comment) := Next(has, p, line);
            Next(has, Place(p.section, false), if comment then "#" + line else line) == (Place(place.section, false), false)
  {
    CommentIsSkipped(has, Place(p.section, false), line);
    hide Pruned, FieldName, SectionName, IsSpace;
  }

  /** Stripping duplicates twice is the same as stripping them once: none is left behind. */
  lemma StrippingIsIdempotent(has: HasOption, lines: seq<string>)
    ensures Commented(has, TOP, Commented(has, TOP, lines)) == Commented(has, TOP, lines)
  {
    SecondPass(has, lines);
  }

  // ----- Which lines are commented out -----

  predicate IsBlank(line: string) {
    Pruned(line) == ""
  }

  predicate IsContinuation(line: string) {
    !IsBlank(line) && IsSpace(Pruned(line)[0])
  }

  predicate IsHeader(line: string) {
    !IsBlank(line) && !IsContinuation(line) && Pruned(line)[0] == '['
  }

  predicate IsField(line: string) {
    !IsBlank(line) && !IsContinuation(line) && !IsHeader(line)
  }

  /** The section of line `k`: the name in the last header before it. */
  function SectionAt(lines: seq<string>, k: nat): Option<string>
    requires k <= |lines|
  {
    if k == 0 then None
    else if IsHeader(lines[k - 1]) then Some(SectionName(Pruned(lines[k - 1])))
    else SectionAt(lines, k - 1)
  }

  /** The line that a continuation at `k` belongs to: the last header or field before it. */
  function OwnerAt(lines: seq<string>, k: nat): Option<nat>
    requires k <= |lines|
  {
    if k == 0 then None
    else if IsHeader(lines[k - 1]) || IsField(lines[k - 1]) then Some(k - 1)
    else OwnerAt(lines, k - 1)
  }

  /** Whether line `k` is a field that the other configuration defines in the same section. */
  predicate Defined(has: HasOption, lines: seq<string>, k: nat)
    requires k < |lines|
  {
    IsField(lines[k]) && has(SectionAt(lines, k), FieldName(Pruned(lines[k])))
  }

  lemma {:induction false} OwnerInRange(lines: seq<string>, k: nat)
    requires k <= |lines|
    ensures OwnerAt(lines, k).Some? ==> OwnerAt(lines, k).value < k
  {
    hide Pruned, IsField, IsHeader;
    if k > 0 {
      OwnerInRange(lines, k - 1);
    }
  }

  /** What one line does, by its kind. */
  lemma NextIs(has: HasOption, p: Place, line: string)
    ensures Next(has, p, line).1
       <==> (IsField(line) && has(p.section, FieldName(Pruned(line)))) || (IsContinuation(line) && p.duplicate)
    ensures Next(has, p, line).0
         == if IsHeader(line) then Place(Some(SectionName(Pruned(line))), false)
            else if IsField(line) then Place(p.section, has(p.section, FieldName(Pruned(line))))
            else p
  {
    hide Pruned, FieldName, SectionName, IsSpace;
  }

  lemma {:induction false} PlaceIs(has: HasOption, lines: seq<string>, k: nat)
    requires k <= |lines|
    ensures OwnerAt(lines, k).Some? ==> OwnerAt(lines, k).value < k
    ensures var owner := OwnerAt(lines, k);
            PlaceAfter(has, TOP, lines[..k])
            == Place(SectionAt(lines, k), owner.Some? && Defined(has, lines, owner.value))
  {
    hide Pruned, FieldName, SectionName, IsSpace, Next, IsHeader, Commented;
    OwnerInRange(lines, k);
    if k > 0 {
      PlaceIs(has, lines, k - 1);
      CommentedNext(has, lines, k - 1);
      NextIs(has, PlaceAfter(has, TOP, lines[..k - 1]), lines[k - 1]);
    }
  }

  /**
   * Exactly the defined fields and the continuation lines that belong to them are commented
   * out; every other line is left as it is.
   */
  lemma CommentedExactly(has: HasOption, lines: seq<string>, k: nat)
    requires k < |lines|
    ensures OwnerAt(lines, k).Some? ==> OwnerAt(lines, k).value < k
    ensures var owner := OwnerAt(lines, k);
            Commented(has, TOP, lines)[k]
            == if Defined(has, lines, k)
                  || (IsContinuation(lines[k]) && owner.Some? && Defined(has, lines, owner.value))
               then "#" + lines[k] else lines[k]
  {
    hide Pruned, FieldName, SectionName, IsSpace, Commented, PlaceAfter, Next, IsField, IsContinuation, SectionAt;
    OwnerInRange(lines, k);
    PlaceIs(has, lines, k);
    CommentedNext(has, lines, k);
    NextIs(has, PlaceAfter(has, TOP, lines[..k]), lines[k]);
    CommentedPrefix(has, lines, k + 1);
    assert Commented(has, TOP, lines)[k] == Commented(has, TOP, lines)[..k + 1][k];
  }

  lemma {:induction false} CommentedPrefix(has: HasOption, lines: seq<string>, k: nat)
    requires k <= |lines|
    ensures Commented(has, TOP, lines)[..k] == Commented(has, TOP, lines[..k])
  {
    hide Next, Commented;
    if k == |lines| {
      assert lines[..k] == lines;
    } else {
      var n := |lines| - 1;
      CommentedPrefix(has, lines[..n], k);
      assert lines[..n][..k] == lines[..k];
      assert lines[..n + 1] == lines;
      CommentedNext(has, lines, n);
    }
  }
}
