/** The parts of Python's `str` that the pipeline relies on, over `seq<char>`
    (one `char` per code point, as in Python). Case mapping covers ASCII letters only. */
module Text {

  /** The characters for which Python's `str.isspace()` holds. `str.strip()`,
      `str.split()` and the regex class `\s` all use this set. */
  const Whitespace: set<char> := {
    ' ', '\t', '\n', '\U{0B}', '\U{0C}', '\r', '\U{1C}', '\U{1D}', '\U{1E}', '\U{1F}',
    '\U{85}', '\U{A0}', '\U{1680}', '\U{2000}', '\U{2001}', '\U{2002}', '\U{2003}',
    '\U{2004}', '\U{2005}', '\U{2006}', '\U{2007}', '\U{2008}', '\U{2009}', '\U{200A}',
    '\U{2028}', '\U{2029}', '\U{202F}', '\U{205F}', '\U{3000}'
  }

  /** Membership in `Whitespace`, by code point ranges. */
  predicate IsSpace(c: char) {
    var n := c as int;
    (9 <= n <= 13) || (28 <= n <= 32) || n == 0x85 || n == 0xA0 || n == 0x1680
    || (0x2000 <= n <= 0x200A) || n == 0x2028 || n == 0x2029 || n == 0x202F || n == 0x205F
    || n == 0x3000
  }

  lemma SpaceIsWhitespace(c: char)
    ensures IsSpace(c) <==> c in Whitespace
  {
  }
  predicate IsDigit(c: char) { '0' <= c <= '9' }
  predicate IsUpper(c: char) { 'A' <= c <= 'Z' }
  predicate IsLower(c: char) { 'a' <= c <= 'z' }
  predicate IsLetter(c: char) { IsUpper(c) || IsLower(c) }

  predicate AllDigits(s: string) { forall i :: 0 <= i < |s| ==> IsDigit(s[i]) }
  predicate AllUpper(s: string) { forall i :: 0 <= i < |s| ==> IsUpper(s[i]) }

  function UpperChar(c: char): char { if IsLower(c) then (c as int - 32) as char else c }
  function LowerChar(c: char): char { if IsUpper(c) then (c as int + 32) as char else c }

  /** Python's `str.upper()` (ASCII letters only). */
  function Upper(s: string): string { seq(|s|, i requires 0 <= i < |s| => UpperChar(s[i])) }

  /** Python's `str.lower()` (ASCII letters only). */
  function Lower(s: string): string { seq(|s|, i requires 0 <= i < |s| => LowerChar(s[i])) }

  /** Python's `str.title()`: a letter is upper-cased when the character before it is not a
      letter, and lower-cased otherwise. `prevCased` says whether that character was a letter. */
  function TitleFrom(s: string, prevCased: bool): string
  {
    if s == [] then []
    else [if prevCased then LowerChar(s[0]) else UpperChar(s[0])] + TitleFrom(s[1..], IsLetter(s[0]))
  }

  function Title(s: string): string { TitleFrom(s, false) }

  // ---------------------------------------------------------------- stripping

  predicate IsStripped(s: string, cs: set<char>) {
    s == [] || (s[0] !in cs && s[|s| - 1] !in cs)
  }

  function StripLeft(s: string, cs: set<char>): string
  {
    if s != [] && s[0] in cs then StripLeft(s[1..], cs) else s
  }

  function StripRight(s: string, cs: set<char>): string
  {
    if s != [] && s[|s| - 1] in cs then StripRight(s[..|s| - 1], cs) else s
  }

  /** Python's `s.strip(chars)`: the leading, then the trailing characters of `cs` removed. */
  function Strip(s: string, cs: set<char>): string
  {
    StripRight(StripLeft(s, cs), cs)
  }

  /** `lstrip` removes a prefix made of `cs` and stops at a character outside `cs`. */
  lemma {:induction false} StripLeftShape(s: string, cs: set<char>)
    ensures var r := StripLeft(s, cs);
      && |r| <= |s| && r == s[|s| - |r|..]
      && (forall i :: 0 <= i < |s| - |r| ==> s[i] in cs)
      && (r == [] || r[0] !in cs)
  {
    if s != [] && s[0] in cs {
      var t := s[1..];
      StripLeftShape(t, cs);
      var r := StripLeft(t, cs);
      assert t[|t| - |r|..] == s[|s| - |r|..];
      forall i | 0 <= i < |s| - |r|
        ensures s[i] in cs
      {
        if i > 0 {
          assert s[i] == t[i - 1];
        }
      }
    }
  }

  /** `rstrip` removes a suffix made of `cs` and stops at a character outside `cs`. */
  lemma {:induction false} StripRightShape(s: string, cs: set<char>)
    ensures var r := StripRight(s, cs);
      && |r| <= |s| && r == s[..|r|]
      && (forall i :: |r| <= i < |s| ==> s[i] in cs)
      && (r == [] || r[|r| - 1] !in cs)
  {
    if s != [] && s[|s| - 1] in cs {
      StripRightShape(s[..|s| - 1], cs);
    }
  }

  /** `strip` keeps an infix of `s` that neither starts nor ends with a character of `cs`;
      everything cut off on either side is in `cs`. */
  lemma StripShape(s: string, cs: set<char>)
    ensures IsStripped(Strip(s, cs), cs)
    ensures |Strip(s, cs)| <= |StripLeft(s, cs)| <= |s|
    ensures var r, k := Strip(s, cs), |s| - |StripLeft(s, cs)|;
      && k + |r| <= |s| && r == s[k..k + |r|]
      && forall i :: 0 <= i < |s| && (i < k || k + |r| <= i) ==> s[i] in cs
  {
    var l := StripLeft(s, cs);
    StripLeftShape(s, cs);
    StripRightShape(l, cs);
    var r := StripRight(l, cs);
    assert r == [] || r[0] == l[0];
  }

  /** Python's `s.strip()`. */
  function Trim(s: string): string { Strip(s, Whitespace) }

  /** What `strip()` returns is stripped. */
  lemma TrimTrimmed(s: string)
    ensures IsTrimmed(Trim(s))
  {
    StripShape(s, Whitespace);
  }

  predicate IsTrimmed(s: string) { IsStripped(s, Whitespace) }

  /** Stripping what is already stripped changes nothing. */
  lemma StripStripped(s: string, cs: set<char>)
    requires IsStripped(s, cs)
    ensures Strip(s, cs) == s
  {
  }

  lemma TrimIdempotent(s: string)
    ensures Trim(Trim(s)) == Trim(s)
  {
    StripShape(s, Whitespace);
    StripStripped(Trim(s), Whitespace);
  }

  /** Case mapping never turns a space into a non-space or back. */
  lemma CaseCharKeepsSpace(c: char)
    ensures (UpperChar(c) in Whitespace) == (c in Whitespace)
    ensures (LowerChar(c) in Whitespace) == (c in Whitespace)
    ensures IsLetter(UpperChar(c)) == IsLetter(c) && IsLetter(LowerChar(c)) == IsLetter(c)
  {
  }

  lemma UpperKeepsTrimmed(s: string)
    requires IsTrimmed(s)
    ensures IsTrimmed(Upper(s))
  {
    if s != [] {
      CaseCharKeepsSpace(s[0]);
      CaseCharKeepsSpace(s[|s| - 1]);
    }
  }

  lemma UpperIdempotent(s: string)
    ensures Upper(Upper(s)) == Upper(s)
  {
  }

  /** `x.strip().upper()` is a fixed point of `.strip().upper()`: normalising a course code
      twice gives what normalising it once gave. */
  lemma TrimUpperIdempotent(s: string)
    ensures Upper(Trim(Upper(Trim(s)))) == Upper(Trim(s))
  {
    StripShape(s, Whitespace);
    UpperKeepsTrimmed(Trim(s));
    StripStripped(Upper(Trim(s)), Whitespace);
    UpperIdempotent(Trim(s));
  }

  lemma {:induction false} TitleFromShape(s: string, b: bool)
    ensures |TitleFrom(s, b)| == |s|
    ensures forall i :: 0 <= i < |s| ==>
      (TitleFrom(s, b)[i] in Whitespace) == (s[i] in Whitespace) &&
      IsLetter(TitleFrom(s, b)[i]) == IsLetter(s[i])
  {
    if s != [] {
      TitleFromShape(s[1..], IsLetter(s[0]));
      CaseCharKeepsSpace(s[0]);
      forall i | 1 <= i < |s|
        ensures TitleFrom(s, b)[i] == TitleFrom(s[1..], IsLetter(s[0]))[i - 1]
      {
      }
    }
  }

  /** Title-casing twice is title-casing once. */
  lemma {:induction false} TitleFromIdempotent(s: string, b: bool)
    ensures TitleFrom(TitleFrom(s, b), b) == TitleFrom(s, b)
  {
    if s != [] {
      var t := TitleFrom(s, b);
      CaseCharKeepsSpace(s[0]);
      assert t[0] == (if b then LowerChar(s[0]) else UpperChar(s[0]));
      assert t[1..] == TitleFrom(s[1..], IsLetter(s[0]));
      assert IsLetter(t[0]) == IsLetter(s[0]);
      TitleFromIdempotent(s[1..], IsLetter(s[0]));
    }
  }

  lemma TitleKeepsTrimmed(s: string)
    requires IsTrimmed(s)
    ensures IsTrimmed(Title(s))
  {
    TitleFromShape(s, false);
  }

  /** `x.strip().title()` is a fixed point of `.strip().title()`. */
  lemma TrimTitleIdempotent(s: string)
    ensures Title(Trim(Title(Trim(s)))) == Title(Trim(s))
  {
    StripShape(s, Whitespace);
    TitleKeepsTrimmed(Trim(s));
    StripStripped(Title(Trim(s)), Whitespace);
    TitleFromIdempotent(Trim(s), false);
  }

  // ---------------------------------------------------------------- splitting

  /** The first position of `c` in `s`. */
  function IndexOf(s: string, c: char): (r: nat)
    requires c in s
    ensures r < |s| && s[r] == c && c !in s[..r]
  {
    if s[0] == c then 0 else 1 + IndexOf(s[1..], c)
  }

  /** Python's `s.split(sep)` for a one-character separator: the pieces between separators,
      empty pieces included, so there is always at least one. */
  function Split(s: string, sep: char): (parts: seq<string>)
    ensures |parts| >= 1
    ensures forall k :: 0 <= k < |parts| ==> sep !in parts[k]
    decreases |s|
  {
    if sep !in s then [s]
    else
      var i := IndexOf(s, sep);
      [s[..i]] + Split(s[i + 1..], sep)
  }

  /** Python's `sep.join(parts)`. */
  function Join(parts: seq<string>, sep: char): string
  {
    if parts == [] then []
    else if |parts| == 1 then parts[0]
    else parts[0] + [sep] + Join(parts[1..], sep)
  }

  /** Python's `sep.join(parts)` for a separator string. */
  function JoinWith(parts: seq<string>, sep: string): string
  {
    if parts == [] then []
    else if |parts| == 1 then parts[0]
    else parts[0] + sep + JoinWith(parts[1..], sep)
  }

  lemma JoinCons(x: string, rest: seq<string>, sep: char)
    requires |rest| >= 1
    ensures Join([x] + rest, sep) == x + [sep] + Join(rest, sep)
  {
    assert ([x] + rest)[1..] == rest;
  }

  lemma {:induction false} IndexOfAt(s: string, c: char, i: nat)
    requires i < |s| && s[i] == c && c !in s[..i]
    ensures c in s && IndexOf(s, c) == i
  {
    if i > 0 {
      assert s[0] == s[..i][0];
      assert s[1..][..i - 1] == s[..i][1..];
      IndexOfAt(s[1..], c, i - 1);
    }
  }

  /** Joining the pieces with the separator gives back the string. */
  lemma {:induction false} JoinSplit(s: string, sep: char)
    ensures Join(Split(s, sep), sep) == s
    decreases |s|
  {
    if sep in s {
      var i := IndexOf(s, sep);
      var tail := s[i + 1..];
      var rest := Split(tail, sep);
      assert Split(s, sep) == [s[..i]] + rest;
      JoinSplit(tail, sep);
      JoinCons(s[..i], rest, sep);
      calc {
        Join(Split(s, sep), sep);
        s[..i] + [sep] + Join(rest, sep);
        s[..i] + [sep] + tail;
        { assert s[i] == sep; }
        s;
      }
    }
  }

  /** Splitting a join of separator-free pieces gives back the pieces. */
  lemma {:induction false} SplitJoin(parts: seq<string>, sep: char)
    requires |parts| >= 1
    requires forall k :: 0 <= k < |parts| ==> sep !in parts[k]
    ensures Split(Join(parts, sep), sep) == parts
  {
    if |parts| > 1 {
      SplitJoin(parts[1..], sep);
      SplitCons(parts[0], Join(parts[1..], sep), sep);
      assert parts == [parts[0]] + parts[1..];
    }
  }

  /** A separator-free piece followed by the separator is split off first. */
  lemma SplitCons(x: string, tail: string, sep: char)
    requires sep !in x
    ensures Split(x + [sep] + tail, sep) == [x] + Split(tail, sep)
  {
    var s := x + [sep] + tail;
    assert s[..|x|] == x;
    IndexOfAt(s, sep, |x|);
    assert s[|x| + 1..] == tail;
  }

  // ---------------------------------------------------------------- decimal numerals

  function DigitChar(d: nat): char
    requires d < 10
  {
    ('0' as int + d) as char
  }

  /** Python's `str(n)` for a non-negative integer. */
  function NatToString(n: nat): (s: string)
    ensures |s| >= 1 && AllDigits(s)
  {
    if n < 10 then [DigitChar(n)] else NatToString(n / 10) + [DigitChar(n % 10)]
  }

  /** The value of a string of decimal digits. */
  function DigitsValue(s: string): nat
    requires AllDigits(s)
  {
    if s == [] then 0 else DigitsValue(s[..|s| - 1]) * 10 + (s[|s| - 1] as int - '0' as int)
  }

  /** `int(str(n)) == n`. */
  lemma {:induction false} NatToStringRoundTrip(n: nat)
    ensures DigitsValue(NatToString(n)) == n
  {
    if n >= 10 {
      NatToStringRoundTrip(n / 10);
      var s := NatToString(n);
      assert s[..|s| - 1] == NatToString(n / 10);
    }
  }

  /** Different numbers print differently. */
  lemma NatToStringInjective(m: nat, n: nat)
    requires NatToString(m) == NatToString(n)
    ensures m == n
  {
    NatToStringRoundTrip(m);
    NatToStringRoundTrip(n);
  }
}
