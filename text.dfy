/** The string operations of JavaScript that the application relies on:
    ASCII case mapping, `includes`, `trim`, `split`, `join`, `padStart`,
    decimal numerals, `Number(string)` and `parseInt(string)`. */
module Text {
  import opened Wrappers

  /** The WhiteSpace and LineTerminator code points of ECMAScript, the set
      that both String.prototype.trim and the regular-expression class \s use. */
  predicate IsWhitespace(c: char) {
    c == ' ' || c == '\t' || c == '\n' || c == '\U{000B}' || c == '\U{000C}' || c == '\r'
    || c == '\U{00A0}' || c == '\U{1680}' || ('\U{2000}' <= c <= '\U{200A}')
    || c == '\U{2028}' || c == '\U{2029}' || c == '\U{202F}' || c == '\U{205F}'
    || c == '\U{3000}' || c == '\U{FEFF}'
  }

  predicate IsAsciiUpper(c: char) { 'A' <= c <= 'Z' }

  predicate IsDigit(c: char) { '0' <= c <= '9' }

  predicate AllDigits(s: string) {
    forall i :: 0 <= i < |s| ==> IsDigit(s[i])
  }

  // ---------------------------------------------------------------------
  // Case mapping (ASCII letters only)

  function LowerChar(c: char): (r: char)
    ensures !IsAsciiUpper(r)
    ensures IsAsciiUpper(c) || r == c
  {
    if IsAsciiUpper(c) then (c as int + 32) as char else c
  }

  function UpperChar(c: char): (r: char)
    ensures !('a' <= r <= 'z')
    ensures ('a' <= c <= 'z') || r == c
  {
    if 'a' <= c <= 'z' then (c as int - 32) as char else c
  }

  /** `s.toLowerCase()` restricted to ASCII letters. */
  function ToLower(s: string): (r: string)
    ensures |r| == |s|
    ensures forall i :: 0 <= i < |s| ==> r[i] == LowerChar(s[i])
  {
    seq(|s|, i requires 0 <= i < |s| => LowerChar(s[i]))
  }

  /** `s.toUpperCase()` restricted to ASCII letters. */
  function ToUpper(s: string): (r: string)
    ensures |r| == |s|
    ensures forall i :: 0 <= i < |s| ==> r[i] == UpperChar(s[i])
  {
    seq(|s|, i requires 0 <= i < |s| => UpperChar(s[i]))
  }

  /** Upper-casing twice is upper-casing once. */
  lemma ToUpperIdempotent(s: string)
    ensures ToUpper(ToUpper(s)) == ToUpper(s)
  {
  }

  // ---------------------------------------------------------------------
  // Substring search

  /** `s.includes(q)`. */
  predicate Contains(s: string, q: string)
    decreases |s|
  {
    q <= s || (s != [] && Contains(s[1..], q))
  }

  predicate OccursAt(s: string, q: string, i: int) {
    0 <= i && i + |q| <= |s| && s[i..i + |q|] == q
  }

  /** `includes` holds exactly when q occurs at some index of s. */
  lemma {:induction false} ContainsIffOccurs(s: string, q: string)
    ensures Contains(s, q) <==> exists i :: OccursAt(s, q, i)
    decreases |s|
  {
    OccursAtStart(s, q);
    if q <= s {
    } else if s != [] {
      ContainsIffOccurs(s[1..], q);
      if Contains(s[1..], q) {
        var i :| OccursAt(s[1..], q, i);
        OccursShift(s, q, i);
      }
      if exists i :: OccursAt(s, q, i) {
        var i :| OccursAt(s, q, i);
        OccursUnshift(s, q, i);
      }
    }
  }

  lemma OccursAtStart(s: string, q: string)
    ensures OccursAt(s, q, 0) <==> q <= s
  {
    if q <= s {
      assert s[0..|q|] == q;
    }
  }

  lemma OccursShift(s: string, q: string, i: int)
    requires s != [] && OccursAt(s[1..], q, i)
    ensures OccursAt(s, q, i + 1)
  {
    assert s[1..][i..i + |q|] == s[i + 1..i + 1 + |q|];
  }

  lemma OccursUnshift(s: string, q: string, i: int)
    requires s != [] && OccursAt(s, q, i) && i > 0
    ensures OccursAt(s[1..], q, i - 1)
  {
    assert s[1..][i - 1..i - 1 + |q|] == s[i..i + |q|];
  }

  /** `field.toLowerCase().includes(query.toLowerCase())`, the search boxes' test. */
  predicate MentionsIgnoringCase(field: string, query: string) {
    Contains(ToLower(field), ToLower(query))
  }

  /** Every string includes the empty string. */
  lemma ContainsEmpty(s: string)
    ensures Contains(s, [])
  {
  }

  // ---------------------------------------------------------------------
  // trim

  function TrimStart(s: string): (r: string)
    ensures |r| <= |s| && r == s[|s| - |r|..]
    ensures forall i :: 0 <= i < |s| - |r| ==> IsWhitespace(s[i])
    ensures r == [] || !IsWhitespace(r[0])
    decreases |s|
  {
    if s != [] && IsWhitespace(s[0]) then TrimStart(s[1..]) else s
  }

  function TrimEnd(s: string): (r: string)
    ensures |r| <= |s| && r == s[..|r|]
    ensures forall i :: |r| <= i < |s| ==> IsWhitespace(s[i])
    ensures r == [] || !IsWhitespace(r[|r| - 1])
    decreases |s|
  {
    if s != [] && IsWhitespace(s[|s| - 1]) then TrimEnd(s[..|s| - 1]) else s
  }

  /** `s.trim()`. */
  function Trim(s: string): string {
    TrimEnd(TrimStart(s))
  }

  /** Trimming only removes characters. */
  lemma TrimKeepsChars(s: string, c: char)
    requires c in Trim(s)
    ensures c in s
  {
    var t := TrimStart(s);
    var r := TrimEnd(t);
    var i :| 0 <= i < |r| && r[i] == c;
    assert t[i] == c by {
      assert r == t[..|r|];
    }
    assert s[|s| - |t| + i] == c by {
      assert t == s[|s| - |t|..];
    }
  }

  /** `Boolean` as the predicate of `filter` over strings: the string is not empty. */
  function NonEmpty(s: string): bool { s != [] }

  /** A string that neither starts nor ends with whitespace is its own trim. */
  lemma TrimNoop(s: string)
    requires s == [] || (!IsWhitespace(s[0]) && !IsWhitespace(s[|s| - 1]))
    ensures Trim(s) == s
  {
  }

  /** The result of trim neither starts nor ends with whitespace, and trimming
      it again changes nothing. */
  lemma TrimmedIsTrimmed(s: string)
    ensures Trim(s) == [] || (!IsWhitespace(Trim(s)[0]) && !IsWhitespace(Trim(s)[|Trim(s)| - 1]))
    ensures Trim(Trim(s)) == Trim(s)
  {
    var t := TrimStart(s);
    var r := TrimEnd(t);
    if r != [] {
      assert r[0] == t[0];
    }
    TrimNoop(r);
  }

  /** trim gives the empty string exactly for all-whitespace strings. */
  lemma TrimEmptyIff(s: string)
    ensures Trim(s) == [] <==> forall i :: 0 <= i < |s| ==> IsWhitespace(s[i])
  {
    var t := TrimStart(s);
    if Trim(s) == [] {
      forall i | 0 <= i < |s| ensures IsWhitespace(s[i]) {
        if i >= |s| - |t| {
          assert s[i] == t[i - (|s| - |t|)];
        }
      }
    } else {
      var r := Trim(s);
      assert r[0] == t[0] == s[|s| - |t|];
    }
  }

  // ---------------------------------------------------------------------
  // split and join

  /** `s.split(sep)` where the separator is one character of the set `seps`
      (a string separator of length 1, or a one-character regex class). */
  function Split(s: string, seps: set<char>): (r: seq<string>)
    ensures |r| >= 1
    ensures forall i, c :: 0 <= i < |r| && c in r[i] ==> c !in seps
    decreases |s|
  {
    if s == [] then [[]]
    else
      var rest := Split(s[1..], seps);
      if s[0] in seps then [[]] + rest
      else [[s[0]] + rest[0]] + rest[1..]
  }

  /** `xs.join(sep)`. */
  function Join(xs: seq<string>, sep: string): string
    decreases |xs|
  {
    if |xs| == 0 then []
    else if |xs| == 1 then xs[0]
    else xs[0] + sep + Join(xs[1..], sep)
  }

  /** A text without the separator is a single field. */
  lemma {:induction false} SplitNoSeparator(s: string, seps: set<char>)
    requires forall c :: c in s ==> c !in seps
    ensures Split(s, seps) == [s]
    decreases |s|
  {
    if s != [] {
      SplitNoSeparator(s[1..], seps);
      assert [s[0]] + s[1..] == s;
    }
  }

  /** A separator ends the field before it. */
  lemma {:induction false} SplitAppend(a: string, c: char, t: string, seps: set<char>)
    requires c in seps
    requires forall x :: x in a ==> x !in seps
    ensures Split(a + [c] + t, seps) == [a] + Split(t, seps)
    decreases |a|
  {
    var s := a + [c] + t;
    if a == [] {
      assert s[0] == c && s[1..] == t;
    } else {
      assert s[0] == a[0];
      assert s[1..] == a[1..] + [c] + t;
      SplitAppend(a[1..], c, t, seps);
      assert [a[0]] + a[1..] == a;
    }
  }

  /** Splitting on `c` what was joined with `c` followed by `pad` gives the
      first field back and every later field with `pad` in front. */
  lemma {:induction false} SplitJoin(xs: seq<string>, c: char, pad: string)
    requires |xs| >= 1
    requires c !in pad
    requires forall i :: 0 <= i < |xs| ==> c !in xs[i]
    ensures Split(Join(xs, [c] + pad), {c}) == [xs[0]] + seq(|xs| - 1, i requires 0 <= i < |xs| - 1 => pad + xs[i + 1])
    decreases |xs|
  {
    if |xs| == 1 {
      SplitNoSeparator(xs[0], {c});
    } else {
      SplitJoin(xs[1..], c, pad);
      var rest := Join(xs[1..], [c] + pad);
      assert Join(xs, [c] + pad) == xs[0] + [c] + (pad + rest);
      SplitAppend(xs[0], c, pad + rest, {c});
      var inner := Split(rest, {c});
      var later := seq(|xs[1..]| - 1, i requires 0 <= i < |xs[1..]| - 1 => pad + xs[1..][i + 1]);
      assert inner == [xs[1]] + later;
      assert inner[0] == xs[1] && inner[1..] == later;
      // The padding is glued to the first field of the remainder.
      PadFirstField(pad, rest, c);
      assert Split(pad + rest, {c}) == [pad + xs[1]] + later;
      PaddedCons(xs, pad);
    }
  }

  lemma PaddedCons(xs: seq<string>, pad: string)
    requires |xs| >= 2
    ensures seq(|xs| - 1, i requires 0 <= i < |xs| - 1 => pad + xs[i + 1])
         == [pad + xs[1]] + seq(|xs[1..]| - 1, i requires 0 <= i < |xs[1..]| - 1 => pad + xs[1..][i + 1])
  {
  }

  lemma {:induction false} PadFirstField(pad: string, rest: string, c: char)
    requires c !in pad
    ensures Split(pad + rest, {c}) == [pad + Split(rest, {c})[0]] + Split(rest, {c})[1..]
    decreases |pad|
  {
    if pad != [] {
      var s := pad + rest;
      assert s[0] == pad[0] && s[1..] == pad[1..] + rest;
      PadFirstField(pad[1..], rest, c);
      assert [pad[0]] + (pad[1..] + Split(rest, {c})[0]) == pad + Split(rest, {c})[0];
    } else {
      var sp := Split(rest, {c});
      assert pad + rest == rest;
      assert pad + sp[0] == sp[0];
      assert [sp[0]] + sp[1..] == sp;
    }
  }

  /** Joining the fields of a split with the separator restores the text. */
  lemma {:induction false} JoinSplit(s: string, c: char)
    ensures Join(Split(s, {c}), [c]) == s
    decreases |s|
  {
    if s != [] {
      JoinSplit(s[1..], c);
      var rest := Split(s[1..], {c});
      if s[0] == c {
        assert Join([[]] + rest, [c]) == [] + [c] + Join(rest, [c]);
      } else {
        var r := [[s[0]] + rest[0]] + rest[1..];
        assert r[1..] == rest[1..];
        if |rest| == 1 {
          assert rest == [rest[0]];
        } else {
          assert Join(rest, [c]) == rest[0] + [c] + Join(rest[1..], [c]);
        }
      }
    }
  }

  // ---------------------------------------------------------------------
  // padStart and decimal numerals

  function Repeat(c: char, n: nat): (r: string)
    ensures |r| == n && forall i :: 0 <= i < n ==> r[i] == c
  {
    seq(n, _ => c)
  }

  /** `s.padStart(n, c)` for a one-character fill string. */
  function PadStart(s: string, n: nat, c: char): (r: string)
    ensures |r| == if |s| >= n then |s| else n
    ensures r[|r| - |s|..] == s
    ensures forall i :: 0 <= i < |r| - |s| ==> r[i] == c
  {
    if |s| >= n then s else Repeat(c, n - |s|) + s
  }

  function DigitChar(d: nat): (c: char)
    requires d < 10
    ensures IsDigit(c)
  {
    ('0' as int + d) as char
  }

  function DigitValue(c: char): (d: nat)
    requires IsDigit(c)
    ensures d < 10 && DigitChar(d) == c
  {
    c as int - '0' as int
  }

  /** The decimal numeral of n, as `String(n)` writes it. */
  function ToDecimal(n: nat): (r: string)
    ensures |r| >= 1 && AllDigits(r)
    ensures r[0] == '0' ==> n == 0
    decreases n
  {
    if n < 10 then [DigitChar(n)] else ToDecimal(n / 10) + [DigitChar(n % 10)]
  }

  /** The value of a run of decimal digits (leading zeros allowed). */
  function DigitsValue(s: string): nat
    requires AllDigits(s)
    decreases |s|
  {
    if s == [] then 0 else 10 * DigitsValue(s[..|s| - 1]) + DigitValue(s[|s| - 1])
  }

  /** Reading back a numeral gives the number. */
  lemma {:induction false} DecimalRoundTrip(n: nat)
    ensures DigitsValue(ToDecimal(n)) == n
    decreases n
  {
    if n >= 10 {
      DecimalRoundTrip(n / 10);
      var r := ToDecimal(n);
      assert r[..|r| - 1] == ToDecimal(n / 10);
    }
  }

  /** Leading zeros do not change the value of a numeral. */
  lemma {:induction false} LeadingZeros(z: nat, s: string)
    requires AllDigits(s)
    ensures AllDigits(Repeat('0', z) + s)
    ensures DigitsValue(Repeat('0', z) + s) == DigitsValue(s)
    decreases |s|, z
  {
    var w := Repeat('0', z) + s;
    if s == [] {
      assert w == Repeat('0', z);
      if z > 0 {
        assert w[..|w| - 1] == Repeat('0', z - 1) + [];
        LeadingZeros(z - 1, []);
      }
    } else {
      assert w[..|w| - 1] == Repeat('0', z) + s[..|s| - 1];
      LeadingZeros(z, s[..|s| - 1]);
    }
  }

  // ---------------------------------------------------------------------
  // Numbers

  /** A JavaScript number as far as this model needs one: NaN or an integer. */
  datatype JsNumber = NaN | Num(value: int)

  /** `Number(s)`: after trimming, the empty string is 0 and a run of ASCII
      digits is its decimal value; every other string is NaN here. */
  function StringToNumber(s: string): JsNumber {
    var t := Trim(s);
    if t == [] then Num(0) else if AllDigits(t) then Num(DigitsValue(t)) else NaN
  }

  /** `String(x)` for NaN or an integer. */
  function NumberToString(x: JsNumber): string {
    match x
    case NaN => "NaN"
    case Num(v) => if v < 0 then "-" + ToDecimal(-v) else ToDecimal(v)
  }

  /** `Number(String(n))` is n for every natural number. */
  lemma NumberRoundTrip(n: nat)
    ensures StringToNumber(ToDecimal(n)) == Num(n)
  {
    NumeralIsTrimmed(n);
    DecimalRoundTrip(n);
  }

  lemma NumeralIsTrimmed(n: nat)
    ensures Trim(ToDecimal(n)) == ToDecimal(n)
  {
    var r := ToDecimal(n);
    DigitNotWhitespace(r[0]);
    DigitNotWhitespace(r[|r| - 1]);
    TrimNoop(r);
  }

  lemma DigitNotWhitespace(c: char)
    requires IsDigit(c)
    ensures !IsWhitespace(c)
  {
  }

  /** The longest prefix of s made of decimal digits. */
  function DigitPrefix(s: string): (r: string)
    ensures AllDigits(r) && r <= s
    ensures |r| < |s| ==> !IsDigit(s[|r|])
    decreases |s|
  {
    if s != [] && IsDigit(s[0]) then [s[0]] + DigitPrefix(s[1..]) else []
  }

  /** `parseInt(s)` with the default radix: leading whitespace, an optional
      sign, then the longest run of decimal digits; no digits gives NaN. */
  function ParseInt(s: string): JsNumber {
    ParseSigned(TrimStart(s))
  }

  /** The part of `parseInt` after the leading whitespace. */
  function ParseSigned(t: string): JsNumber {
    var negative := t != [] && t[0] == '-';
    var body := if t != [] && (t[0] == '-' || t[0] == '+') then t[1..] else t;
    var ds := DigitPrefix(body);
    var v: int := if ds == [] then 0 else DigitsValue(ds);
    if ds == [] then NaN else Num(if negative then -v else v)
  }

  lemma ParseIntNoLeadingSpace(s: string)
    requires s != [] && !IsWhitespace(s[0])
    ensures ParseInt(s) == ParseSigned(s)
  {
  }

  lemma {:induction false} DigitPrefixOfDigits(s: string)
    requires AllDigits(s)
    ensures DigitPrefix(s) == s
    decreases |s|
  {
    if s != [] {
      DigitPrefixOfDigits(s[1..]);
    }
  }

  lemma ParseIntOfNumeral(v: int)
    requires v >= 0
    ensures ParseInt(NumberToString(Num(v))) == Num(v)
  {
    var d := ToDecimal(v);
    assert NumberToString(Num(v)) == d;
    DecimalRoundTrip(v);
    DigitPrefixOfDigits(d);
    assert IsDigit(d[0]);
    ParseIntNoLeadingSpace(d);
  }

  lemma ParseIntOfNegativeNumeral(v: int)
    requires v < 0
    ensures ParseInt(NumberToString(Num(v))) == Num(v)
  {
    var d := ToDecimal(-v);
    var s := "-" + d;
    assert NumberToString(Num(v)) == s;
    assert ParseSigned(s) == Num(v) by {
      assert s[0] == '-' && s[1..] == d;
      ParseSignedMinus(s, d);
      DecimalRoundTrip(-v);
    }
    ParseIntNoLeadingSpace(s);
  }

  /** A minus sign followed by digits reads as the negated value. */
  lemma ParseSignedMinus(t: string, d: string)
    requires t != [] && t[0] == '-' && t[1..] == d
    requires d != [] && AllDigits(d)
    ensures ParseSigned(t) == Num(-(DigitsValue(d) as int))
  {
    DigitPrefixOfDigits(d);
  }

  lemma ParseIntOfNaN()
    ensures ParseInt(NumberToString(NaN)) == NaN
  {
    assert NumberToString(NaN) == "NaN";
    ParseIntNoLeadingSpace("NaN");
    assert DigitPrefix("NaN") == [];
  }

  lemma ParseIntOfInteger(v: int)
    ensures ParseInt(NumberToString(Num(v))) == Num(v)
  {
    if v < 0 {
      ParseIntOfNegativeNumeral(v);
    } else {
      ParseIntOfNumeral(v);
    }
  }

  /** `parseInt(String(x))` is x, for NaN and for every integer. */
  lemma ParseIntRoundTrip(x: JsNumber)
    ensures ParseInt(NumberToString(x)) == x
  {
    match x
    case NaN => ParseIntOfNaN();
    case Num(v) => ParseIntOfInteger(v);
  }
}
