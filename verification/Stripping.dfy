/** Stripping of white space and searching in text, as Python's string methods do it. */
module Stripping {
  import opened Results
  import opened Text

  function RStrip(s: string): (r: string)
    ensures r <= s
  {
    if s != "" && IsSpace(s[|s| - 1]) then RStrip(s[..|s| - 1]) else s
  }

  function LStrip(s: string): string {
    if s != "" && IsSpace(s[0]) then LStrip(s[1..]) else s
  }

  function Strip(s: string): string {
    LStrip(RStrip(s))
  }

  predicate AllSpace(s: string) {
    forall k | 0 <= k < |s| :: IsSpace(s[k])
  }

  /** Ends in something other than white space. */
  predicate EndsSolid(s: string) {
    s != "" && !IsSpace(s[|s| - 1])
  }

  predicate StartsSolid(s: string) {
    s != "" && !IsSpace(s[0])
  }

  lemma {:induction false} RStripIs(s: string)
    ensures RStrip(s) == "" || EndsSolid(RStrip(s))
    ensures AllSpace(s[|RStrip(s)|..])
  {
    if s != "" && IsSpace(s[|s| - 1]) {
      RStripIs(s[..|s| - 1]);
    }
  }

  lemma {:induction false} RStripTail(s: string, tail: string)
    requires s == "" || EndsSolid(s)
    requires AllSpace(tail)
    ensures RStrip(s + tail) == s
    decreases |tail|
  {
    var t := s + tail;
    if tail == "" {
      assert t == s;
    } else {
      assert t[..|t| - 1] == s + tail[..|tail| - 1];
      RStripTail(s, tail[..|tail| - 1]);
    }
  }

  lemma RStripTwice(s: string)
    ensures RStrip(RStrip(s)) == RStrip(s)
  {
    RStripIs(s);
    RStripTail(RStrip(s), "");
    assert RStrip(s) + "" == RStrip(s);
  }

  /** Stripping removes exactly the white space around a solid text. */
  lemma StripAround(s: string, tail: string)
    requires StartsSolid(s) && EndsSolid(s) && AllSpace(tail)
    ensures Strip(s + tail) == s
  {
    RStripTail(s, tail);
  }

  // ----- Searching -----

  predicate OccursAt(s: string, pattern: string, i: nat) {
    i + |pattern| <= |s| && s[i..i + |pattern|] == pattern
  }

  predicate Occurs(s: string, pattern: string) {
    exists i :: 0 <= i <= |s| && OccursAt(s, pattern, i)
  }

  /** The first occurrence at or after `i`. */
  function FindFrom(s: string, pattern: string, i: nat): Option<nat>
    decreases |s| - i
  {
    if OccursAt(s, pattern, i) then Some(i)
    else if i >= |s| then None
    else FindFrom(s, pattern, i + 1)
  }

  lemma {:induction false} FindIs(s: string, pattern: string, i: nat, p: nat)
    requires i <= p && OccursAt(s, pattern, p)
    requires forall q | i <= q < p :: !OccursAt(s, pattern, q)
    ensures FindFrom(s, pattern, i) == Some(p)
    decreases p - i
  {
    if i < p {
      FindIs(s, pattern, i + 1, p);
    }
  }

  lemma {:induction false} FindFinds(s: string, pattern: string, i: nat)
    ensures FindFrom(s, pattern, i).Some? ==>
              FindFrom(s, pattern, i).value >= i && OccursAt(s, pattern, FindFrom(s, pattern, i).value)
    decreases |s| - i
  {
    if !OccursAt(s, pattern, i) && i < |s| {
      FindFinds(s, pattern, i + 1);
    }
  }
}
