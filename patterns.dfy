/** The regular expressions of `extractPlateCandidates`
    (src/components/NumberPlateRecognition.tsx): sequences of character
    classes with greedy bounded quantifiers, such as `[A-Z]{2,3}[- ]?[0-9]{3,4}`,
    matched with the backtracking semantics of section 22.2 of ECMA-262
    and enumerated as `String.prototype.matchAll` with the global flag does. */
module Patterns {
  import opened Wrappers

  /** The character classes the two plate patterns use. */
  datatype CharClass = Upper | Digit | Sep | AlNum

  predicate InClass(c: CharClass, ch: char) {
    match c
    case Upper => 'A' <= ch <= 'Z'
    case Digit => '0' <= ch <= '9'
    case Sep => ch == '-' || ch == ' '
    case AlNum => 'A' <= ch <= 'Z' || '0' <= ch <= '9'
  }

  /** `cls{lo,hi}`, greedy; `cls?` is `cls{0,1}`. */
  datatype Atom = Atom(cls: CharClass, lo: nat, hi: nat)

  type Pattern = seq<Atom>

  /** How many characters from pos are in class c, counting at most hi. */
  function Run(s: string, pos: nat, c: CharClass, hi: nat): (n: nat)
    requires pos <= |s|
    ensures n <= hi && pos + n <= |s|
    ensures forall k :: pos <= k < pos + n ==> InClass(c, s[k])
    ensures n < hi && pos + n < |s| ==> !InClass(c, s[pos + n])
    decreases hi
  {
    if hi == 0 || pos == |s| || !InClass(c, s[pos]) then 0 else 1 + Run(s, pos + 1, c, hi - 1)
  }

  /** The end of the match of p at pos, if any. The first atom takes as many
      characters as it can, then gives them back one at a time until the
      rest of the pattern matches: the backtracking order of a greedy
      quantifier. */
  function MatchAt(p: Pattern, s: string, pos: nat): (r: Option<nat>)
    requires pos <= |s|
    ensures r.Some? ==> pos <= r.value <= |s|
    decreases |p|, 1, 0
  {
    if p == [] then Some(pos)
    else
      var n := Run(s, pos, p[0].cls, p[0].hi);
      if n < p[0].lo then None else TryCounts(p, s, pos, n)
  }

  /** Give the first atom k characters, then k - 1, ... down to its minimum. */
  function TryCounts(p: Pattern, s: string, pos: nat, k: nat): (r: Option<nat>)
    requires p != [] && pos + k <= |s| && p[0].lo <= k
    ensures r.Some? ==> pos + p[0].lo <= r.value <= |s|
    decreases |p|, 0, k
  {
    match MatchAt(p[1..], s, pos + k)
    case Some(e) => Some(e)
    case None => if k == p[0].lo then None else TryCounts(p, s, pos, k - 1)
  }

  // ---------------------------------------------------------------------
  // What a match is, independently of the search order

  predicate AllIn(w: string, c: CharClass) {
    forall i :: 0 <= i < |w| ==> InClass(c, w[i])
  }

  /** w is a full match of p: it splits into one piece per atom, each piece
      within its atom's bounds and made of its atom's class. */
  predicate Fits(p: Pattern, w: string)
    decreases |p|
  {
    if p == [] then w == []
    else exists k :: p[0].lo <= k <= p[0].hi && k <= |w| && AllIn(w[..k], p[0].cls) && Fits(p[1..], w[k..])
  }

  /** The length of the piece the first atom takes in a full match. */
  lemma FitsFirst(p: Pattern, w: string) returns (k: nat)
    requires p != [] && Fits(p, w)
    ensures p[0].lo <= k <= p[0].hi && k <= |w| && AllIn(w[..k], p[0].cls) && Fits(p[1..], w[k..])
  {
    k :| p[0].lo <= k <= p[0].hi && k <= |w| && AllIn(w[..k], p[0].cls) && Fits(p[1..], w[k..]);
  }

  /** Whatever the search returns is a full match of the pattern. */
  lemma {:induction false} MatchAtSound(p: Pattern, s: string, pos: nat)
    requires pos <= |s| && MatchAt(p, s, pos).Some?
    ensures Fits(p, s[pos..MatchAt(p, s, pos).value])
    decreases |p|, 1, 0
  {
    if p != [] {
      var n := Run(s, pos, p[0].cls, p[0].hi);
      TryCountsSound(p, s, pos, n);
    }
  }

  lemma {:induction false} TryCountsSound(p: Pattern, s: string, pos: nat, k: nat)
    requires p != [] && pos + k <= |s| && p[0].lo <= k <= Run(s, pos, p[0].cls, p[0].hi)
    requires TryCounts(p, s, pos, k).Some?
    ensures Fits(p, s[pos..TryCounts(p, s, pos, k).value])
    decreases |p|, 0, k + 1
  {
    var r := MatchAt(p[1..], s, pos + k);
    if r.Some? {
      assert TryCounts(p, s, pos, k) == r;
      SplitFits(p, s, pos, k, r.value);
    } else {
      TryCountsSound(p, s, pos, k - 1);
    }
  }

  /** k characters of the first atom's run followed by a full match of the
      rest of the pattern make a full match. */
  lemma SplitFits(p: Pattern, s: string, pos: nat, k: nat, e: nat)
    requires p != [] && pos + k <= e <= |s| && p[0].lo <= k <= Run(s, pos, p[0].cls, p[0].hi)
    requires MatchAt(p[1..], s, pos + k) == Some(e)
    ensures Fits(p, s[pos..e])
    decreases |p|, 0, 0
  {
    MatchAtSound(p[1..], s, pos + k);
    RunAllIn(s, pos, p[0].cls, p[0].hi, k);
    SliceSplit(s, pos, k, e);
    FitsCons(p, s[pos..e], k);
  }

  lemma SliceSplit(s: string, a: nat, k: nat, e: nat)
    requires a + k <= e <= |s|
    ensures s[a..e][..k] == s[a..a + k] && s[a..e][k..] == s[a + k..e]
  {
  }

  /** The first k characters of a run are all in its class. */
  lemma RunAllIn(s: string, pos: nat, c: CharClass, hi: nat, k: nat)
    requires pos <= |s| && k <= Run(s, pos, c, hi)
    ensures AllIn(s[pos..pos + k], c)
  {
    var w := s[pos..pos + k];
    forall i | 0 <= i < k ensures InClass(c, w[i]) {
      assert w[i] == s[pos + i];
    }
  }

  /** A first piece for the first atom and a full match of the rest make a
      full match. */
  lemma FitsCons(p: Pattern, w: string, k: nat)
    requires p != [] && p[0].lo <= k <= p[0].hi && k <= |w|
    requires AllIn(w[..k], p[0].cls) && Fits(p[1..], w[k..])
    ensures Fits(p, w)
  {
  }

  /** Backtracking is exhaustive: if some full match of p starts at pos, the
      search at pos succeeds. */
  lemma {:induction false} MatchAtComplete(p: Pattern, s: string, pos: nat, e: nat)
    requires pos <= e <= |s| && Fits(p, s[pos..e])
    ensures MatchAt(p, s, pos).Some?
    decreases |p|
  {
    if p != [] {
      var w := s[pos..e];
      var k := FitsFirst(p, w);
      assert w[k..] == s[pos + k..e];
      MatchAtComplete(p[1..], s, pos + k, e);
      assert forall i :: pos <= i < pos + k ==> s[i] == w[..k][i - pos];
      RunAtLeast(s, pos, p[0].cls, p[0].hi, k);
      TryCountsComplete(p, s, pos, Run(s, pos, p[0].cls, p[0].hi), k);
    }
  }

  lemma {:induction false} RunAtLeast(s: string, pos: nat, c: CharClass, hi: nat, k: nat)
    requires pos + k <= |s| && k <= hi
    requires forall i :: pos <= i < pos + k ==> InClass(c, s[i])
    ensures Run(s, pos, c, hi) >= k
    decreases hi
  {
    if k > 0 {
      RunAtLeast(s, pos + 1, c, hi - 1, k - 1);
    }
  }

  lemma {:induction false} TryCountsComplete(p: Pattern, s: string, pos: nat, n: nat, k: nat)
    requires p != [] && pos + n <= |s| && p[0].lo <= k <= n
    requires MatchAt(p[1..], s, pos + k).Some?
    ensures TryCounts(p, s, pos, n).Some?
    decreases n
  {
    if n > k && MatchAt(p[1..], s, pos + n).None? {
      TryCountsComplete(p, s, pos, n - 1, k);
    }
  }

  // ---------------------------------------------------------------------
  // Leftmost search and global enumeration

  datatype Span = Span(start: nat, end: nat)

  predicate MatchesAt(p: Pattern, s: string, b: nat) {
    b <= |s| && MatchAt(p, s, b).Some?
  }

  /** `RegExp.prototype.exec` from lastIndex `from`: the leftmost position
      at or after `from` where the pattern matches. */
  function FindFrom(p: Pattern, s: string, from: nat): (r: Option<Span>)
    requires from <= |s|
    ensures r.None? <==> forall b :: from <= b <= |s| ==> !MatchesAt(p, s, b)
    ensures r.Some? ==> from <= r.value.start <= |s| && MatchAt(p, s, r.value.start) == Some(r.value.end)
    ensures r.Some? ==> forall b :: from <= b < r.value.start ==> !MatchesAt(p, s, b)
    decreases |s| - from
  {
    if MatchesAt(p, s, from) then Some(Span(from, MatchAt(p, s, from).value))
    else if from == |s| then None
    else FindFrom(p, s, from + 1)
  }

  /** Every match `matchAll` produces from lastIndex `from`, in order. After
      an empty match the search resumes one position further on. */
  function AllMatches(p: Pattern, s: string, from: nat): (r: seq<Span>)
    requires from <= |s|
    ensures forall i :: 0 <= i < |r| ==>
              from <= r[i].start <= r[i].end <= |s| && MatchAt(p, s, r[i].start) == Some(r[i].end)
    ensures forall i, j :: 0 <= i < j < |r| ==> r[i].end <= r[j].start && r[i].start < r[j].start
    ensures r == [] <==> forall b :: from <= b <= |s| ==> !MatchesAt(p, s, b)
    decreases |s| - from, 0
  {
    var f := FindFrom(p, s, from);
    if f.None? then []
    else
      var m := f.value;
      assert MatchesAt(p, s, m.start);
      var next := if m.end == m.start then m.start + 1 else m.end;
      if next > |s| then [m]
      else
        var rest := AllMatches(p, s, next);
        SpansCons(m, rest, next);
        MatchesCons(p, s, from, m, rest, next);
        [m] + rest
  }

  /** Prepending a match that ends before the later ones keeps the spans in order. */
  lemma SpansCons(m: Span, rest: seq<Span>, next: nat)
    requires m.start <= m.end <= next && m.start < next
    requires forall i :: 0 <= i < |rest| ==> next <= rest[i].start
    requires forall i, j :: 0 <= i < j < |rest| ==> rest[i].end <= rest[j].start && rest[i].start < rest[j].start
    ensures forall i, j :: 0 <= i < j < |[m] + rest| ==>
              ([m] + rest)[i].end <= ([m] + rest)[j].start && ([m] + rest)[i].start < ([m] + rest)[j].start
  {
    var r := [m] + rest;
    forall i, j | 0 <= i < j < |r|
      ensures r[i].end <= r[j].start && r[i].start < r[j].start
    {
      assert r[j] == rest[j - 1];
      if i > 0 {
        assert r[i] == rest[i - 1];
      }
    }
  }

  /** Prepending a match found at or after `from` to later matches keeps
      every span a match of the pattern. */
  lemma MatchesCons(p: Pattern, s: string, from: nat, m: Span, rest: seq<Span>, next: nat)
    requires from <= m.start <= m.end <= |s| && MatchAt(p, s, m.start) == Some(m.end)
    requires from <= next
    requires forall i :: 0 <= i < |rest| ==>
               next <= rest[i].start <= rest[i].end <= |s| && MatchAt(p, s, rest[i].start) == Some(rest[i].end)
    ensures forall i :: 0 <= i < |[m] + rest| ==>
              from <= ([m] + rest)[i].start <= ([m] + rest)[i].end <= |s|
              && MatchAt(p, s, ([m] + rest)[i].start) == Some(([m] + rest)[i].end)
  {
    var r := [m] + rest;
    forall i | 0 <= i < |r|
      ensures from <= r[i].start <= r[i].end <= |s| && MatchAt(p, s, r[i].start) == Some(r[i].end)
    {
      if i > 0 {
        assert r[i] == rest[i - 1];
      }
    }
  }

  /** The matched substrings, `Array.from(s.matchAll(re)).map(m => m[0])`. */
  function MatchedTexts(p: Pattern, s: string): (r: seq<string>)
    ensures |r| == |AllMatches(p, s, 0)|
  {
    var spans := AllMatches(p, s, 0);
    seq(|spans|, i requires 0 <= i < |spans| => s[spans[i].start..spans[i].end])
  }

  /** Every text `matchAll` yields is a full match of the pattern. */
  lemma MatchedTextsFit(p: Pattern, s: string)
    ensures forall i :: 0 <= i < |MatchedTexts(p, s)| ==> Fits(p, MatchedTexts(p, s)[i])
  {
    var spans := AllMatches(p, s, 0);
    forall i | 0 <= i < |spans|
      ensures Fits(p, MatchedTexts(p, s)[i])
    {
      MatchAtSound(p, s, spans[i].start);
    }
  }

  /** A text has no matches exactly when no position starts a full match. */
  lemma NoMatchesIff(p: Pattern, s: string)
    ensures MatchedTexts(p, s) == [] <==> forall b, e :: 0 <= b <= e <= |s| ==> !Fits(p, s[b..e])
  {
    if MatchedTexts(p, s) == [] {
      forall b, e | 0 <= b <= e <= |s| && Fits(p, s[b..e])
        ensures false
      {
        MatchAtComplete(p, s, b, e);
        assert MatchesAt(p, s, b);
      }
    } else {
      var m := AllMatches(p, s, 0)[0];
      MatchAtSound(p, s, m.start);
    }
  }
}
