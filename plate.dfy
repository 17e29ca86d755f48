/** `extractPlateCandidates` of src/components/NumberPlateRecognition.tsx:
    clean the OCR text, collect every match of the two plate patterns,
    collapse whitespace and trim, drop repeats in first-seen order and sort
    by descending length. */
module Plate {
  import opened Text
  import opened Seqs
  import opened Patterns

  predicate IsAlNumChar(ch: char) {
    'A' <= ch <= 'Z' || '0' <= ch <= '9'
  }

  /** The characters `[^A-Z0-9 -]` does not replace. */
  predicate IsPlateChar(ch: char) {
    IsAlNumChar(ch) || ch == ' ' || ch == '-'
  }

  /** `text.replace(/[^A-Z0-9 -]/g, ' ')`. */
  function Clean(text: string): (r: string)
    ensures |r| == |text|
    ensures forall i :: 0 <= i < |r| ==> IsPlateChar(r[i])
    ensures forall i :: 0 <= i < |r| ==> r[i] == text[i] || r[i] == ' '
    ensures forall i :: 0 <= i < |r| && IsPlateChar(text[i]) ==> r[i] == text[i]
  {
    seq(|text|, i requires 0 <= i < |text| => if IsPlateChar(text[i]) then text[i] else ' ')
  }

  /** `/[A-Z]{2,3}[- ]?[0-9]{3,4}/g`, e.g. ABC-1234 or AB 123. */
  function PlatePattern(): Pattern {
    [Atom(Upper, 2, 3), Atom(Sep, 0, 1), Atom(Digit, 3, 4)]
  }

  /** `/[A-Z0-9]{2,4}[- ]?[A-Z0-9]{2,4}/g`, two generic blocks. */
  function BlockPattern(): Pattern {
    [Atom(AlNum, 2, 4), Atom(Sep, 0, 1), Atom(AlNum, 2, 4)]
  }

  // ---------------------------------------------------------------------
  // Whitespace runs

  /** The leading characters of s that satisfy `inRun`, removed. */
  function DropRun(s: string, inRun: char -> bool): (r: string)
    ensures |r| <= |s| && r == s[|s| - |r|..]
    ensures r == [] || !inRun(r[0])
    decreases |s|
  {
    if s != [] && inRun(s[0]) then DropRun(s[1..], inRun) else s
  }

  /** `s.replace(/c+/g, ' ')` for the class `inRun`: each maximal run of its
      characters becomes one space. */
  function CollapseRuns(s: string, inRun: char -> bool): (r: string)
    ensures |r| <= |s|
    ensures forall i :: 0 <= i < |r| ==> r[i] == ' ' || !inRun(r[i])
    decreases |s|
  {
    if s == [] then []
    else if inRun(s[0]) then [' '] + CollapseRuns(DropRun(s[1..], inRun), inRun)
    else [s[0]] + CollapseRuns(s[1..], inRun)
  }

  /** Every run character of s is a space with no run character after it. */
  ghost predicate LoneRuns(s: string, inRun: char -> bool) {
    && (forall i :: 0 <= i < |s| && inRun(s[i]) ==> s[i] == ' ')
    && (forall i, j :: 0 <= i < j < |s| && j == i + 1 && inRun(s[i]) ==> !inRun(s[j]))
  }

  /** A string in which every run character is a lone space is left as it is. */
  lemma {:induction false} CollapseRunsNoop(s: string, inRun: char -> bool)
    requires LoneRuns(s, inRun)
    ensures CollapseRuns(s, inRun) == s
    decreases |s|
  {
    if s != [] {
      var t := s[1..];
      assert LoneRuns(t, inRun) by {
        forall i | 0 <= i < |t| ensures t[i] == s[i + 1] {
        }
      }
      CollapseRunsNoop(t, inRun);
      assert s == [s[0]] + t;
      if inRun(s[0]) {
        assert DropRun(t, inRun) == t by {
          if t != [] {
            assert !inRun(s[1]);
          }
        }
        assert CollapseRuns(s, inRun) == [' '] + CollapseRuns(t, inRun);
      } else {
        assert CollapseRuns(s, inRun) == [s[0]] + CollapseRuns(t, inRun);
      }
    }
  }

  /** `f.replace(/\s+/g, ' ').trim()`. */
  function Normalize(f: string): string {
    Trim(CollapseRuns(f, IsWhitespace))
  }

  // ---------------------------------------------------------------------
  // The shape of a match

  /** What every match of either pattern looks like: 4 to 9 plate
      characters, a letter or digit at both ends, at most one separator. */
  predicate PlateShaped(w: string) {
    && 4 <= |w| <= 9
    && (forall i :: 0 <= i < |w| ==> IsPlateChar(w[i]))
    && IsAlNumChar(w[0]) && IsAlNumChar(w[|w| - 1])
    && (forall i, j :: 0 <= i < j < |w| ==> IsAlNumChar(w[i]) || IsAlNumChar(w[j]))
  }

  lemma ClassIsAlNum(c: CharClass, ch: char)
    requires c != Sep && InClass(c, ch)
    ensures IsAlNumChar(ch)
  {
  }

  /** The three pieces of a full match of `a[- ]?b`. */
  lemma SplitThree(a: Atom, b: Atom, w: string) returns (k1: nat, k2: nat, k3: nat)
    requires Fits([a, Atom(Sep, 0, 1), b], w)
    ensures |w| == k1 + k2 + k3
    ensures a.lo <= k1 <= a.hi && k2 <= 1 && b.lo <= k3 <= b.hi
    ensures AllIn(w[..k1], a.cls) && AllIn(w[k1..k1 + k2], Sep) && AllIn(w[k1 + k2..], b.cls)
  {
    var p := [a, Atom(Sep, 0, 1), b];
    k1 := FitsFirst(p, w);
    assert p[1..] == [Atom(Sep, 0, 1), b];
    var w2 := w[k1..];
    k2, k3 := SplitTwo(Atom(Sep, 0, 1), b, w2);
    assert w2[..k2] == w[k1..k1 + k2];
    assert w2[k2..] == w[k1 + k2..];
  }

  /** A full match of two atoms splits into one piece per atom. */
  lemma SplitTwo(a: Atom, b: Atom, w: string) returns (k1: nat, k2: nat)
    requires Fits([a, b], w)
    ensures |w| == k1 + k2
    ensures a.lo <= k1 <= a.hi && b.lo <= k2 <= b.hi
    ensures AllIn(w[..k1], a.cls) && AllIn(w[k1..], b.cls)
  {
    var p := [a, b];
    k1 := FitsFirst(p, w);
    assert p[1..] == [b];
    var w2 := w[k1..];
    k2 := FitsFirst([b], w2);
    assert [b][1..] == [];
    assert w2[..k2] == w2;
  }

  /** A full match of `a[- ]?b`, with a and b letter/digit classes that take
      at least one character each. */
  lemma ThreeAtomShape(a: Atom, b: Atom, w: string)
    requires a.cls != Sep && b.cls != Sep && a.lo >= 1 && b.lo >= 1
    requires Fits([a, Atom(Sep, 0, 1), b], w)
    ensures a.lo + b.lo <= |w| <= a.hi + 1 + b.hi
    ensures forall i :: 0 <= i < |w| ==> IsPlateChar(w[i])
    ensures IsAlNumChar(w[0]) && IsAlNumChar(w[|w| - 1])
    ensures forall i, j :: 0 <= i < j < |w| ==> IsAlNumChar(w[i]) || IsAlNumChar(w[j])
  {
    var k1, k2, k3 := SplitThree(a, b, w);
    forall i | 0 <= i < |w|
      ensures i < k1 || k1 + k2 <= i ==> IsAlNumChar(w[i])
      ensures IsPlateChar(w[i])
    {
      if i < k1 {
        assert w[..k1][i] == w[i];
        ClassIsAlNum(a.cls, w[i]);
      } else if i < k1 + k2 {
        assert w[k1..k1 + k2][i - k1] == w[i];
      } else {
        assert w[k1 + k2..][i - k1 - k2] == w[i];
        ClassIsAlNum(b.cls, w[i]);
      }
    }
    forall i, j | 0 <= i < j < |w|
      ensures IsAlNumChar(w[i]) || IsAlNumChar(w[j])
    {
    }
  }

  /** Every full match of either plate pattern is plate-shaped. */
  lemma MatchIsPlateShaped(w: string)
    requires Fits(PlatePattern(), w) || Fits(BlockPattern(), w)
    ensures PlateShaped(w)
  {
    if Fits(PlatePattern(), w) {
      ThreeAtomShape(Atom(Upper, 2, 3), Atom(Digit, 3, 4), w);
    } else {
      ThreeAtomShape(Atom(AlNum, 2, 4), Atom(AlNum, 2, 4), w);
    }
  }

  lemma PlateWhitespace(ch: char)
    requires IsPlateChar(ch)
    ensures IsWhitespace(ch) <==> ch == ' '
  {
  }

  /** Collapsing whitespace and trimming change nothing on a match. */
  lemma NormalizeShaped(w: string)
    requires PlateShaped(w)
    ensures Normalize(w) == w
  {
    forall i | 0 <= i < |w| && IsWhitespace(w[i]) ensures w[i] == ' ' {
      PlateWhitespace(w[i]);
    }
    forall i, j | 0 <= i < j < |w| && j == i + 1 && IsWhitespace(w[i]) ensures !IsWhitespace(w[j]) {
      PlateWhitespace(w[i]);
      PlateWhitespace(w[j]);
      assert IsAlNumChar(w[i]) || IsAlNumChar(w[j]);
    }
    CollapseRunsNoop(w, IsWhitespace);
    PlateWhitespace(w[0]);
    PlateWhitespace(w[|w| - 1]);
    TrimNoop(w);
  }

  // ---------------------------------------------------------------------
  // The candidate list

  /** `patterns.flatMap(re => Array.from(cleaned.matchAll(re)).map(m => m[0]))`. */
  function Found(text: string): seq<string> {
    MatchedTexts(PlatePattern(), Clean(text)) + MatchedTexts(BlockPattern(), Clean(text))
  }

  function NormalizeAll(xs: seq<string>): (r: seq<string>)
    ensures |r| == |xs|
  {
    seq(|xs|, i requires 0 <= i < |xs| => Normalize(xs[i]))
  }

  function PlateLen(s: string): int {
    |s|
  }

  /** `extractPlateCandidates(text)`. */
  function ExtractPlateCandidates(text: string): (r: seq<string>)
    ensures SortedDesc(r, PlateLen)
    ensures |r| <= |Found(text)|
  {
    SortByKeyDesc(Dedup(NormalizeAll(Found(text))), PlateLen)
  }

  lemma FoundAreMatches(text: string)
    ensures forall i :: 0 <= i < |Found(text)| ==>
              Fits(PlatePattern(), Found(text)[i]) || Fits(BlockPattern(), Found(text)[i])
  {
    var c := Clean(text);
    MatchedTextsFit(PlatePattern(), c);
    MatchedTextsFit(BlockPattern(), c);
    var f1 := MatchedTexts(PlatePattern(), c);
    var f2 := MatchedTexts(BlockPattern(), c);
    forall i | 0 <= i < |Found(text)|
      ensures Fits(PlatePattern(), Found(text)[i]) || Fits(BlockPattern(), Found(text)[i])
    {
      if i < |f1| {
        assert Found(text)[i] == f1[i];
      } else {
        assert Found(text)[i] == f2[i - |f1|];
      }
    }
  }

  /** Whitespace normalization is the identity on what the patterns match. */
  lemma NormalizeFound(text: string)
    ensures NormalizeAll(Found(text)) == Found(text)
  {
    FoundAreMatches(text);
    var f := Found(text);
    forall i | 0 <= i < |f| ensures Normalize(f[i]) == f[i] {
      MatchIsPlateShaped(f[i]);
      NormalizeShaped(f[i]);
    }
  }

  /** The candidates, without repeats and longest first; among candidates of
      equal length, the order in which they were first found (all matches of
      the first pattern before those of the second). */
  lemma CandidatesOrder(text: string, len: int)
    ensures NoDup(ExtractPlateCandidates(text))
    ensures SortedDesc(ExtractPlateCandidates(text), PlateLen)
    ensures Filter(ExtractPlateCandidates(text), KeyIs(PlateLen, len))
         == Filter(Dedup(Found(text)), KeyIs(PlateLen, len))
  {
    NormalizeFound(text);
    var d := Dedup(Found(text));
    PermutationKeepsNoDup(d, SortByKeyDesc(d, PlateLen));
    SortStable(d, PlateLen, len);
  }

  /** Every candidate is a full match of one of the two patterns, so it has
      4 to 9 plate characters and no space or '-' at either end. */
  lemma CandidatesWellFormed(text: string)
    ensures forall i :: 0 <= i < |ExtractPlateCandidates(text)| ==>
              && (Fits(PlatePattern(), ExtractPlateCandidates(text)[i])
                  || Fits(BlockPattern(), ExtractPlateCandidates(text)[i]))
              && PlateShaped(ExtractPlateCandidates(text)[i])
  {
    NormalizeFound(text);
    FoundAreMatches(text);
    var f := Found(text);
    var r := ExtractPlateCandidates(text);
    forall i | 0 <= i < |r|
      ensures (Fits(PlatePattern(), r[i]) || Fits(BlockPattern(), r[i])) && PlateShaped(r[i])
    {
      SortDedupMember(f, PlateLen, r[i]);
      var j :| 0 <= j < |f| && f[j] == r[i];
      MatchIsPlateShaped(r[i]);
    }
  }

  /** The list is empty exactly when neither pattern matches anywhere in the
      cleaned text. */
  lemma CandidatesEmptyIff(text: string)
    ensures ExtractPlateCandidates(text) == [] <==>
              forall b, e :: 0 <= b <= e <= |text| ==>
                !Fits(PlatePattern(), Clean(text)[b..e]) && !Fits(BlockPattern(), Clean(text)[b..e])
  {
    NormalizeFound(text);
    var c := Clean(text);
    NoMatchesIff(PlatePattern(), c);
    NoMatchesIff(BlockPattern(), c);
    var f := Found(text);
    if f != [] {
      assert f[0] in Dedup(f);
    }
  }
}
