/** The pure text parsers of the catalogue scraper (scripts/web-extract.py). Each regular
    expression is written out as a recogniser that follows Python's `re` semantics for that
    pattern: greedy repetitions, lazy `+?`, leftmost matches, and the backtracking the
    pattern allows. `\s` is Python's whitespace; `\d` and `[A-Z]` are the ASCII classes. */
module WebExtract {
  import opened Wrappers
  import opened Text
  import opened Sequences

  // ---------------------------------------------------------------- runs of a character class

  /** The character classes the patterns repeat: `\s`, `\d` and `[A-Z]`. */
  datatype CharClass = SpaceClass | DigitClass | UpperClass

  predicate InClass(k: CharClass, c: char) {
    match k
    case SpaceClass => IsSpace(c)
    case DigitClass => IsDigit(c)
    case UpperClass => IsUpper(c)
  }

  /** The end of the longest run of characters satisfying `p` that starts at `i`
      (a greedy `p*`). */
  function RunEnd(s: string, i: nat, p: CharClass): (j: nat)
    requires i <= |s|
    ensures i <= j <= |s|
    decreases |s| - i
  {
    if i < |s| && InClass(p, s[i]) then RunEnd(s, i + 1, p) else i
  }

  /** The run holds only characters satisfying `p` and stops before one that does not. */
  lemma {:induction false} RunEndShape(s: string, i: nat, p: CharClass)
    requires i <= |s|
    ensures var j := RunEnd(s, i, p);
      (forall k :: i <= k < j ==> InClass(p, s[k])) && (j == |s| || !InClass(p, s[j]))
    decreases |s| - i
  {
    if i < |s| && InClass(p, s[i]) {
      RunEndShape(s, i + 1, p);
    }
  }

  /** A run is determined by where it starts and where it is cut off. */
  lemma {:induction false} RunEndAt(s: string, i: nat, j: nat, p: CharClass)
    requires i <= j <= |s|
    requires forall k :: i <= k < j ==> InClass(p, s[k])
    requires j == |s| || !InClass(p, s[j])
    ensures RunEnd(s, i, p) == j
    decreases j - i
  {
    if i < j {
      RunEndAt(s, i + 1, j, p);
    }
  }

  /** A whitespace character is none of the characters the patterns look for. */
  lemma SpaceIsNot(c: char)
    requires IsSpace(c)
    ensures !IsUpper(c) && !IsLower(c) && !IsDigit(c)
    ensures c != '.' && c != '(' && c != ')' && c != '-' && c != '+' && c != ',' && c != ';'
  {
  }

  /** A run reaches at least as far as the characters satisfying `p` go. */
  lemma {:induction false} RunEndAtLeast(s: string, i: nat, j: nat, p: CharClass)
    requires i <= j <= |s|
    requires forall k :: i <= k < j ==> InClass(p, s[k])
    ensures RunEnd(s, i, p) >= j
    decreases j - i
  {
    if i < j {
      RunEndAtLeast(s, i + 1, j, p);
    }
  }

  // ---------------------------------------------------------------- course codes

  /** A course code as the pattern `[A-Z]+\s\d+` reads it: uppercase letters, one whitespace
      character, then digits. */
  predicate IsCourseCode(c: string) {
    exists k :: 0 < k < |c| - 1 && UpperOn(c, 0, k) && IsSpace(c[k]) && DigitsOn(c, k + 1, |c|)
  }

  predicate UpperOn(c: string, lo: int, hi: int) {
    forall m :: lo <= m < hi && 0 <= m < |c| ==> IsUpper(c[m])
  }

  predicate DigitsOn(c: string, lo: int, hi: int) {
    forall m :: lo <= m < hi && 0 <= m < |c| ==> IsDigit(c[m])
  }

  /** Letters on `[i, u)`, whitespace at `u` and digits on `(u, d)` make a course code. */
  lemma CodeFromParts(s: string, i: nat, u: nat, d: nat)
    requires i < u && u + 1 < d <= |s|
    requires forall m :: i <= m < u ==> IsUpper(s[m])
    requires IsSpace(s[u])
    requires forall m :: u < m < d ==> IsDigit(s[m])
    ensures IsCourseCode(s[i..d])
  {
    var c := s[i..d];
    var k := u - i;
    assert c[k] == s[u];
    assert UpperOn(c, 0, k);
    assert DigitsOn(c, k + 1, |c|);
  }

  /** `[A-Z]+\s\d+` matched at position `i`: the end of the match, or `None`. The letter run
      cannot give anything back (a letter is not whitespace) and the digit run is greedy. */
  function CodeAt(s: string, i: nat): (r: Option<nat>)
    requires i <= |s|
    ensures r.Some? ==> i < r.value <= |s| && IsCourseCode(s[i..r.value])
    ensures r.Some? ==> r.value == |s| || !IsDigit(s[r.value])
  {
    var u := RunEnd(s, i, UpperClass);
    if i < u < |s| && IsSpace(s[u]) then
      var d := RunEnd(s, u + 1, DigitClass);
      if d > u + 1 then
        RunEndShape(s, i, UpperClass);
        RunEndShape(s, u + 1, DigitClass);
        CodeFromParts(s, i, u, d);
        Some(d)
      else None
    else None
  }

  /** The recogniser finds a code whenever some prefix of `s[i..]` is one, and then the
      longest. */
  lemma CodeAtComplete(s: string, i: nat, j: nat)
    requires i < j <= |s| && IsCourseCode(s[i..j])
    ensures CodeAt(s, i).Some? && j <= CodeAt(s, i).value
  {
    var u := CodeSplitAt(s, i, j);
  }

  /** The letters of a code found at `i` end at `u`, a whitespace character, and its digits
      reach at least to `j`. */
  lemma CodeSplitAt(s: string, i: nat, j: nat) returns (u: nat)
    requires i < j <= |s| && IsCourseCode(s[i..j])
    ensures i < u && u + 1 < j && RunEnd(s, i, UpperClass) == u && IsSpace(s[u])
    ensures RunEnd(s, u + 1, DigitClass) >= j
  {
    var c := s[i..j];
    var k :| 0 < k < |c| - 1 && UpperOn(c, 0, k) && IsSpace(c[k]) && DigitsOn(c, k + 1, |c|);
    u := i + k;
    forall m | i <= m < u ensures IsUpper(s[m]) { assert s[m] == c[m - i]; }
    assert s[u] == c[k];
    SpaceIsNot(s[u]);
    RunEndAt(s, i, u, UpperClass);
    forall m | u + 1 <= m < j ensures IsDigit(s[m]) { assert s[m] == c[m - i]; }
    RunEndAtLeast(s, u + 1, j, DigitClass);
  }

  /** A code followed by anything that does not continue its digits is read back whole. */
  lemma CodeAtPrefix(code: string, rest: string)
    requires IsCourseCode(code)
    requires rest == [] || !IsDigit(rest[0])
    ensures CodeAt(code + rest, 0) == Some(|code|)
  {
    var s := code + rest;
    assert s[0..|code|] == code;
    CodeAtComplete(s, 0, |code|);
    var k :| 0 < k < |code| - 1 && UpperOn(code, 0, k) && IsSpace(code[k]) && DigitsOn(code, k + 1, |code|);
    forall m | 0 <= m < k ensures IsUpper(s[m]) { assert s[m] == code[m]; }
    assert s[k] == code[k];
    SpaceIsNot(s[k]);
    RunEndAt(s, 0, k, UpperClass);
    forall m | k < m < |code| ensures IsDigit(s[m]) { assert s[m] == code[m]; }
    if |code| < |s| { assert s[|code|] == rest[0]; }
    RunEndAt(s, k + 1, |code|, DigitClass);
  }

  /** Where no prefix of `s[i..]` is a course code, the recogniser answers `None`. */
  lemma CodeAtNone(s: string, i: nat)
    requires i <= |s|
    ensures CodeAt(s, i).None? <==> forall j :: i < j <= |s| ==> !IsCourseCode(s[i..j])
  {
    if CodeAt(s, i).None? {
      forall j | i < j <= |s| ensures !IsCourseCode(s[i..j]) {
        if IsCourseCode(s[i..j]) { CodeAtComplete(s, i, j); }
      }
    }
  }

  // ---------------------------------------------------------------- course header

  /** The three groups of a parsed course header. */
  datatype Header = Header(code: string, title: string, credits: string)

  /** `\d+(?:-\d+)?`: a number of hours or a range of them. */
  predicate IsCredits(c: string) {
    (|c| > 0 && DigitsOn(c, 0, |c|))
    || exists k :: 0 < k < |c| - 1 && c[k] == '-' && DigitsOn(c, 0, k) && DigitsOn(c, k + 1, |c|)
  }

  /** The end of `\d+(?:-\d+)?` started at `i`, a digit: the optional range is taken when a
      hyphen and a digit follow. */
  function CreditsEnd(s: string, i: nat): (e: nat)
    requires i < |s| && IsDigit(s[i])
    ensures i < e <= |s| && IsCredits(s[i..e])
  {
    var d := RunEnd(s, i, DigitClass);
    RunEndShape(s, i, DigitClass);
    if d < |s| && s[d] == '-' && RunEnd(s, d + 1, DigitClass) > d + 1 then
      var d2 := RunEnd(s, d + 1, DigitClass);
      RunEndShape(s, d + 1, DigitClass);
      var c := s[i..d2];
      assert c[d - i] == '-';
      assert DigitsOn(c, 0, d - i);
      assert DigitsOn(c, d - i + 1, |c|);
      d2
    else
      assert DigitsOn(s[i..d], 0, d - i);
      d
  }

  /** `\s+Hours?\)` at `w`, which already starts past the whitespace run. */
  predicate HoursAt(s: string, w: nat) {
    w + 5 <= |s| && s[w..w + 4] == "Hour"
    && (s[w + 4] == ')' || (w + 6 <= |s| && s[w + 4] == 's' && s[w + 5] == ')'))
  }

  /** `\.\s+\((\d+(?:-\d+)?)\s+Hours?\)` matched at `e`: the credits group, or `None`. No
      repetition in it can give anything back, so the match is unique. */
  function SuffixAt(s: string, e: nat): (r: Option<string>)
    requires e <= |s|
    ensures r.Some? ==> IsCredits(r.value)
  {
    if e < |s| && s[e] == '.' then
      var a := RunEnd(s, e + 1, SpaceClass);
      if a > e + 1 && a + 1 < |s| && s[a] == '(' && IsDigit(s[a + 1]) then
        var c := CreditsEnd(s, a + 1);
        var w := RunEnd(s, c, SpaceClass);
        if w > c && HoursAt(s, w) then Some(s[a + 1..c]) else None
      else None
    else None
  }

  /** The lazy `(.+?)` whose last character is `s[e - 1]`: the title grows one character at a
      time until the rest of the pattern matches, and `.` stops at a newline. Yields the end
      of the title and the credits. */
  function LazyTitle(s: string, e: nat): (r: Option<(nat, string)>)
    requires 0 < e
    ensures r.Some? ==> e <= r.value.0 <= |s| && IsCredits(r.value.1)
    decreases |s| + 1 - e
  {
    if e > |s| || s[e - 1] == '\n' then None
    else
      match SuffixAt(s, e)
      case Some(c) => Some((e, c))
      case None => LazyTitle(s, e + 1)
  }

  /** The title starting at `st`, then, on failure, the greedy `\s+` before it giving back one
      whitespace character at a time down to `lo`. Yields start, end and credits. */
  function BacktrackTitle(s: string, lo: nat, st: nat): (r: Option<(nat, nat, string)>)
    requires 0 < lo <= st <= |s|
    ensures r.Some? ==> lo <= r.value.0 < r.value.1 <= |s|
    ensures r.Some? ==> IsCredits(r.value.2)
    decreases st
  {
    match LazyTitle(s, st + 1)
    case Some((e, c)) => Some((st, e, c))
    case None => if st > lo then BacktrackTitle(s, lo, st - 1) else None
  }

  /** The lazy title ends where the rest of the pattern matches, and yields its credits. */
  lemma {:induction false} LazyTitleSuffix(s: string, e: nat)
    requires 0 < e && LazyTitle(s, e).Some?
    ensures SuffixAt(s, LazyTitle(s, e).value.0) == Some(LazyTitle(s, e).value.1)
    decreases |s| + 1 - e
  {
    if SuffixAt(s, e).None? {
      LazyTitleSuffix(s, e + 1);
    }
  }

  /** So does the title found after backtracking. */
  lemma {:induction false} BacktrackTitleSuffix(s: string, lo: nat, st: nat)
    requires 0 < lo <= st <= |s| && BacktrackTitle(s, lo, st).Some?
    ensures SuffixAt(s, BacktrackTitle(s, lo, st).value.1) == Some(BacktrackTitle(s, lo, st).value.2)
    decreases st
  {
    if LazyTitle(s, st + 1).Some? {
      LazyTitleSuffix(s, st + 1);
    } else {
      BacktrackTitleSuffix(s, lo, st - 1);
    }
  }

  /** `parse_course_header`: `re.match` of
      `([A-Z]+\s\d+)\.\s+(.+?)\.\s+\((\d+(?:-\d+)?)\s+Hours?\)` against the stripped header;
      the title group is stripped again. */
  function ParseCourseHeader(h: string): (r: Option<Header>)
    ensures r.Some? ==> IsCourseCode(r.value.code) && IsCredits(r.value.credits)
    ensures r.Some? ==> IsTrimmed(r.value.title)
    ensures r.Some? ==> |r.value.code| < |Trim(h)| && Trim(h)[..|r.value.code| + 1] == r.value.code + "."
  {
    MatchHeader(Trim(h))
  }

  /** The match itself, on the stripped header `s`. */
  function MatchHeader(s: string): (r: Option<Header>)
    ensures r.Some? ==> IsCourseCode(r.value.code) && IsCredits(r.value.credits)
    ensures r.Some? ==> IsTrimmed(r.value.title)
    ensures r.Some? ==> |r.value.code| < |s| && s[..|r.value.code| + 1] == r.value.code + "."
  {
    match CodeAt(s, 0)
    case None => None
    case Some(j) =>
      if j < |s| && s[j] == '.' then
        var w := RunEnd(s, j + 1, SpaceClass);
        if w > j + 1 then
          match BacktrackTitle(s, j + 2, w)
          case Some((st, e, c)) => MatchedHeader(s, j, st, e, c)
          case None => None
        else None
      else None
  }

  /** The groups of a match whose code ends at `j` and whose title spans `[st, e)`. */
  function MatchedHeader(s: string, j: nat, st: nat, e: nat, c: string): (r: Option<Header>)
    requires 0 < j < st <= e <= |s| && s[j] == '.'
    requires CodeAt(s, 0) == Some(j) && IsCredits(c)
    ensures r.Some? && r.value.code == s[..j]
    ensures IsCourseCode(r.value.code) && IsCredits(r.value.credits)
    ensures IsTrimmed(r.value.title)
    ensures s[..|r.value.code| + 1] == r.value.code + "."
  {
    TrimTrimmed(s[st..e]);
    assert s[0..j] == s[..j];
    assert s[..j + 1] == s[..j] + ".";
    Some(Header(s[..j], Trim(s[st..e]), c))
  }

  /** A header matches only from its first (non-blank) character, which is a capital letter
      of the course code. */
  lemma HeaderStartsWithCode(h: string)
    requires Trim(h) == [] || !IsUpper(Trim(h)[0])
    ensures ParseCourseHeader(h).None?
  {
  }

  /** The lazy title search runs past every position that is not a full stop and stops at
      the first one where the suffix matches. */
  lemma {:induction false} LazyTitleSkips(s: string, e: nat, stop: nat)
    requires 0 < e <= stop <= |s|
    requires forall k :: e <= k < stop ==> s[k] != '.'
    requires forall k :: e - 1 <= k < stop ==> s[k] != '\n'
    requires SuffixAt(s, stop).Some?
    ensures LazyTitle(s, e) == Some((stop, SuffixAt(s, stop).value))
    decreases stop - e
  {
    if e < stop {
      LazyTitleSkips(s, e + 1, stop);
    }
  }

  /** A header written in the catalogue's form is read back into its parts, provided the
      title is non-empty, stripped, and holds no full stop or newline. */
  lemma HeaderRoundTrip(code: string, title: string, credits: string)
    requires IsCourseCode(code) && IsCredits(credits)
    requires title != [] && IsTrimmed(title) && '.' !in title && '\n' !in title
    ensures ParseCourseHeader(code + ". " + title + ". (" + credits + " Hours)")
      == Some(Header(code, title, credits))
  {
    HeaderIsStripped(code, title, credits);
    HeaderMatches(code, title, credits);
  }

  lemma HeaderMatches(code: string, title: string, credits: string)
    requires IsCourseCode(code) && IsCredits(credits)
    requires title != [] && IsTrimmed(title) && '.' !in title && '\n' !in title
    ensures MatchHeader(code + ". " + title + ". (" + credits + " Hours)")
      == Some(Header(code, title, credits))
  {
    var s := code + ". " + title + ". (" + credits + " Hours)";
    HeaderPieces(code, title, credits, s);
    MatchHeaderParts(s, |code|, title, credits);
  }

  /** A header written in the catalogue's form has the pieces the match looks for. */
  lemma HeaderPieces(code: string, title: string, credits: string, s: string)
    requires IsCourseCode(code) && IsCredits(credits)
    requires title != [] && IsTrimmed(title) && '.' !in title && '\n' !in title
    requires s == code + ". " + title + ". (" + credits + " Hours)"
    ensures |code| <= |s| && s[..|code|] == code
    ensures HeaderShape(s, |code|, title, credits)
  {
    HeaderLayout(code, title, credits);
    HeaderCode(code, title, credits);
    SuffixRead(code + ". " + title, credits);
    SpaceIsWhitespace(title[0]);
  }

  /** Where the pieces of a header written in the catalogue's form lie. */
  lemma HeaderLayout(code: string, title: string, credits: string)
    ensures var s := code + ". " + title + ". (" + credits + " Hours)"; var n := |code|;
      n + 2 + |title| == |code + ". " + title| < |s| && s[..n] == code && s[n] == '.' && s[n + 1] == ' '
      && s[n + 2..n + 2 + |title|] == title
  {
    var head := code + ". ";
    var pre := head + title;
    var s := pre + ". (" + credits + " Hours)";
    var n := |code|;
    assert s[..|pre|] == pre;
    assert s[..n] == pre[..n] == head[..n] == code;
    assert s[n] == pre[n] == head[n];
    assert s[n + 1] == pre[n + 1] == head[n + 1];
    assert s[n + 2..|pre|] == pre[n + 2..] == title;
  }

  /** A header written in the catalogue's form starts with its course code. */
  lemma HeaderCode(code: string, title: string, credits: string)
    requires IsCourseCode(code)
    ensures CodeAt(code + ". " + title + ". (" + credits + " Hours)", 0) == Some(|code|)
  {
    var s := code + ". " + title + ". (" + credits + " Hours)";
    var n := |code|;
    HeaderLayout(code, title, credits);
    assert s == code + s[n..];
    CodeAtPrefix(code, s[n..]);
  }

  /** The pieces the match looks for: the code ends at `n`, a full stop and one space follow,
      and the title is the first stretch after them at whose end the suffix matches. */
  predicate HeaderShape(s: string, n: nat, title: string, credits: string) {
    && 0 < n && n + 2 + |title| <= |s| && title != []
    && CodeAt(s, 0) == Some(n) && s[n] == '.' && s[n + 1] == ' '
    && s[n + 2..n + 2 + |title|] == title && !IsSpace(title[0]) && IsTrimmed(title)
    && '.' !in title && '\n' !in title
    && SuffixAt(s, n + 2 + |title|) == Some(credits)
  }

  /** The match found on a header of that shape. */
  lemma MatchHeaderParts(s: string, n: nat, title: string, credits: string)
    requires HeaderShape(s, n, title, credits)
    ensures MatchHeader(s) == Some(Header(s[..n], title, credits))
  {
    var stop := n + 2 + |title|;
    HeaderShapeMatched(s, n, title, credits);
    HeaderShapeGroups(s, n, title, credits);
    MatchHeaderWhen(s, n, n + 2, n + 2, stop, credits);
  }

  /** The code, the whitespace run after its full stop, and the title found after it. */
  predicate TitleMatched(s: string, j: nat, w: nat, st: nat, e: nat, c: string) {
    && CodeAt(s, 0) == Some(j) && j < |s| && s[j] == '.'
    && RunEnd(s, j + 1, SpaceClass) == w && w > j + 1
    && BacktrackTitle(s, j + 2, w) == Some((st, e, c))
  }

  /** On a header of that shape the title is found right after the one space. */
  lemma HeaderShapeMatched(s: string, n: nat, title: string, credits: string)
    ensures HeaderShape(s, n, title, credits) ==> TitleMatched(s, n, n + 2, n + 2, n + 2 + |title|, credits)
  {
    if HeaderShape(s, n, title, credits) {
      RunEndAt(s, n + 1, n + 2, SpaceClass);
      TitleFound(s, n + 2, title, credits);
    }
  }

  /** The groups are then the code, the title and the credits. */
  lemma HeaderShapeGroups(s: string, n: nat, title: string, credits: string)
    ensures HeaderShape(s, n, title, credits) ==>
      MatchedHeader(s, n, n + 2, n + 2 + |title|, credits) == Some(Header(s[..n], title, credits))
  {
    if HeaderShape(s, n, title, credits) {
      StripStripped(title, Whitespace);
    }
  }

  /** The match once the code, the whitespace run and the title are known. */
  lemma MatchHeaderWhen(s: string, j: nat, w: nat, st: nat, e: nat, c: string)
    ensures TitleMatched(s, j, w, st, e, c) ==> MatchHeader(s) == MatchedHeader(s, j, st, e, c)
  {
  }

  /** A title without full stops or newlines, written from `a` on and followed by the suffix,
      is where the lazy search stops. */
  lemma TitleFound(s: string, a: nat, title: string, credits: string)
    requires 0 < a && a + |title| <= |s| && title != [] && s[a..a + |title|] == title
    requires '.' !in title && '\n' !in title
    requires SuffixAt(s, a + |title|) == Some(credits)
    ensures BacktrackTitle(s, a, a) == Some((a, a + |title|, credits))
  {
    TitleChars(s, a, title);
    LazyTitleSkips(s, a + 1, a + |title|);
  }

  lemma TitleChars(s: string, a: nat, title: string)
    requires a + |title| <= |s| && s[a..a + |title|] == title
    requires '.' !in title && '\n' !in title
    ensures forall m :: a <= m < a + |title| ==> s[m] != '.' && s[m] != '\n'
  {
    forall m | a <= m < a + |title| ensures s[m] != '.' && s[m] != '\n' {
      assert s[m] == title[m - a];
    }
  }

  /** A header starting with a course code and ending with `)` has nothing to strip. */
  lemma HeaderIsStripped(code: string, title: string, credits: string)
    requires IsCourseCode(code)
    ensures var s := code + ". " + title + ". (" + credits + " Hours)"; Trim(s) == s
  {
    var s := code + ". " + title + ". (" + credits + " Hours)";
    assert s[0] == code[0];
    assert IsUpper(code[0]);
    SpaceIsWhitespace(s[0]);
    assert s[|s| - 1] == ')';
    StripStripped(s, Whitespace);
  }

  /** The suffix `. (credits Hours)` written after any text is matched where it starts. */
  lemma SuffixRead(pre: string, credits: string)
    requires IsCredits(credits)
    ensures SuffixAt(pre + ". (" + credits + " Hours)", |pre|) == Some(credits)
  {
    var hours := " Hours)";
    var s := pre + ". (" + credits + hours;
    var e := |pre|;
    var c1 := e + 3 + |credits|;
    assert s[e] == '.' && s[e + 1] == ' ' && s[e + 2] == '(';
    assert s[e + 3..c1] == credits;
    assert s[c1..] == hours;
    assert HoursAt(s, c1 + 1) by {
      assert s[c1 + 1..c1 + 5] == hours[1..5];
      assert s[c1 + 5] == 's' && s[c1 + 6] == ')';
    }
    SuffixAtParts(s, e, credits);
  }

  /** The suffix is matched at `e` when its pieces are found there, one space apart. */
  lemma SuffixAtParts(s: string, e: nat, credits: string)
    requires IsCredits(credits)
    requires e + 3 + |credits| < |s|
    requires s[e] == '.' && s[e + 1] == ' ' && s[e + 2] == '('
    requires s[e + 3..e + 3 + |credits|] == credits && s[e + 3 + |credits|] == ' '
    requires HoursAt(s, e + 4 + |credits|)
    ensures SuffixAt(s, e) == Some(credits)
  {
    var c0 := e + 3;
    var c1 := c0 + |credits|;
    RunEndAt(s, e + 1, e + 2, SpaceClass);
    CreditsRead(s, c0, credits);
    RunEndAt(s, c1, c1 + 1, SpaceClass);
  }

  /** `CreditsEnd` reads a credits string back whole when a space follows it. */
  lemma CreditsRead(s: string, i: nat, credits: string)
    requires IsCredits(credits)
    requires i + |credits| < |s| && s[i..i + |credits|] == credits && s[i + |credits|] == ' '
    ensures IsDigit(s[i]) && CreditsEnd(s, i) == i + |credits|
  {
    var e := i + |credits|;
    if |credits| > 0 && DigitsOn(credits, 0, |credits|) {
      assert s[i] == credits[0];
      forall m | i <= m < e ensures IsDigit(s[m]) { assert s[m] == credits[m - i]; }
      RunEndAt(s, i, e, DigitClass);
    } else {
      var k :| 0 < k < |credits| - 1 && credits[k] == '-' && DigitsOn(credits, 0, k) && DigitsOn(credits, k + 1, |credits|);
      assert s[i] == credits[0];
      forall m | i <= m < i + k ensures IsDigit(s[m]) { assert s[m] == credits[m - i]; }
      assert s[i + k] == credits[k];
      RunEndAt(s, i, i + k, DigitClass);
      forall m | i + k + 1 <= m < e ensures IsDigit(s[m]) { assert s[m] == credits[m - i]; }
      RunEndAt(s, i + k + 1, e, DigitClass);
    }
  }

  /** The catalogue's own example header. */
  lemma HeaderExample()
    ensures ParseCourseHeader("IE 2310" + ". " + "Introduction to Industrial Engineering" + ". (" + "4" + " Hours)")
      == Some(Header("IE 2310", "Introduction to Industrial Engineering", "4"))
  {
    ExampleCode();
    ExampleTitle();
    assert DigitsOn("4", 0, 1);
    HeaderRoundTrip("IE 2310", "Introduction to Industrial Engineering", "4");
  }

  lemma ExampleCode()
    ensures IsCourseCode("IE 2310")
  {
    var code := "IE 2310";
    assert UpperOn(code, 0, 2) && IsSpace(code[2]) && DigitsOn(code, 3, |code|);
  }

  lemma ExampleTitle()
    ensures var t := "Introduction to Industrial Engineering";
      t != [] && IsTrimmed(t) && '.' !in t && '\n' !in t
  {
    var t := "Introduction to Industrial Engineering";
    assert forall i :: 0 <= i < |t| ==> t[i] != '.' && t[i] != '\n';
    assert t[0] == 'I' && t[|t| - 1] == 'g';
    SpaceIsWhitespace('I');
    SpaceIsWhitespace('g');
  }

  // ---------------------------------------------------------------- shifting a match

  /** A run inside the second half of a concatenation does not see the first half. */
  lemma {:induction false} RunEndShift(p: string, r: string, j: nat, q: CharClass)
    requires j <= |r|
    ensures RunEnd(p + r, |p| + j, q) == |p| + RunEnd(r, j, q)
    decreases |r| - j
  {
    if j < |r| && InClass(q, r[j]) {
      assert (p + r)[|p| + j] == r[j];
      RunEndShift(p, r, j + 1, q);
    } else if j < |r| {
      assert (p + r)[|p| + j] == r[j];
    }
  }

  // ---------------------------------------------------------------- "<digit>with"

  /** `(\d)with` matched at `i`. */
  predicate DigitWithAt(t: string, i: nat) {
    i + 5 <= |t| && IsDigit(t[i]) && t[i + 1..i + 5] == "with"
  }

  lemma DigitWithShift(p: string, r: string, j: nat)
    ensures DigitWithAt(p + r, |p| + j) == DigitWithAt(r, j)
  {
    if j + 5 <= |r| {
      assert (p + r)[|p| + j] == r[j];
      assert (p + r)[|p| + j + 1..|p| + j + 5] == r[j + 1..j + 5];
    }
  }

  /** `re.sub(r"(\d)with", r"\1 with", t)` from position `i` on: a space goes between a
      digit and a `with` that follows it directly. */
  function SpaceBeforeWithFrom(t: string, i: nat): string
    requires i <= |t|
    decreases |t| - i
  {
    if i == |t| then []
    else if DigitWithAt(t, i) then [t[i], ' '] + "with" + SpaceBeforeWithFrom(t, i + 5)
    else [t[i]] + SpaceBeforeWithFrom(t, i + 1)
  }

  function SpaceBeforeWith(t: string): string { SpaceBeforeWithFrom(t, 0) }

  /** The rewrite starts with the character it starts from. */
  lemma SpaceBeforeWithHead(t: string, i: nat)
    requires i < |t|
    ensures SpaceBeforeWithFrom(t, i) != [] && SpaceBeforeWithFrom(t, i)[0] == t[i]
  {
  }

  /** A digit-free prefix of the output is copied from the input. */
  lemma {:induction false} SpaceBeforeWithPrefix(t: string, i: nat, w: string)
    requires i <= |t|
    requires forall m :: 0 <= m < |w| ==> !IsDigit(w[m])
    requires |w| <= |SpaceBeforeWithFrom(t, i)| && SpaceBeforeWithFrom(t, i)[..|w|] == w
    ensures i + |w| <= |t| && t[i..i + |w|] == w
    decreases |w|
  {
    if w != [] {
      var o := SpaceBeforeWithFrom(t, i);
      assert o[0] == w[0];
      assert i < |t|;
      SpaceBeforeWithHead(t, i);
      assert !DigitWithAt(t, i);
      var rest := SpaceBeforeWithFrom(t, i + 1);
      assert o == [t[i]] + rest;
      assert rest[..|w| - 1] == w[1..];
      SpaceBeforeWithPrefix(t, i + 1, w[1..]);
      assert t[i..i + |w|] == [t[i]] + t[i + 1..i + |w|];
    }
  }

  /** After the rewrite no digit is directly followed by `with`. */
  lemma {:induction false} SpaceBeforeWithDone(t: string, i: nat)
    requires i <= |t|
    ensures forall j: nat :: !DigitWithAt(SpaceBeforeWithFrom(t, i), j)
    decreases |t| - i
  {
    if i < |t| {
      if DigitWithAt(t, i) {
        SpaceBeforeWithDone(t, i + 5);
        DigitWithPiece(t[i], SpaceBeforeWithFrom(t, i + 5));
      } else {
        SpaceBeforeWithDone(t, i + 1);
        DigitWithCopied(t, i, SpaceBeforeWithFrom(t, i + 1), SpaceBeforeWithFrom(t, i));
      }
    }
  }

  /** The spaced-out piece adds no digit directly followed by `with`. */
  lemma DigitWithPiece(x: char, rest: string)
    requires forall j: nat :: !DigitWithAt(rest, j)
    ensures forall j: nat :: !DigitWithAt([x, ' '] + "with" + rest, j)
  {
    var piece := [x, ' '] + "with";
    var o := piece + rest;
    forall j: nat ensures !DigitWithAt(o, j) {
      if j >= 6 {
        DigitWithShift(piece, rest, j - 6);
      } else if 0 < j && j + 5 <= |o| {
        assert o[j] == piece[j];
      } else if j == 0 && j + 5 <= |o| {
        assert o[1] == ' ';
      }
    }
  }

  /** Nor does a character copied where the input has no digit directly followed by `with`. */
  lemma DigitWithCopied(t: string, i: nat, rest: string, o: string)
    requires i < |t| && !DigitWithAt(t, i) && rest == SpaceBeforeWithFrom(t, i + 1) && o == [t[i]] + rest
    requires forall j: nat :: !DigitWithAt(rest, j)
    ensures forall j: nat :: !DigitWithAt(o, j)
  {
    forall j: nat ensures !DigitWithAt(o, j) {
      if j >= 1 {
        DigitWithShift([t[i]], rest, j - 1);
      } else if DigitWithAt(o, 0) {
        assert o[1..5] == rest[..4];
        SpaceBeforeWithPrefix(t, i + 1, "with");
      }
    }
  }

  /** Text with no digit directly before `with` is left as it is. */
  lemma {:induction false} SpaceBeforeWithUnchanged(t: string, i: nat)
    requires i <= |t|
    requires forall j: nat :: !DigitWithAt(t, j)
    ensures SpaceBeforeWithFrom(t, i) == t[i..]
    decreases |t| - i
  {
    if i < |t| {
      SpaceBeforeWithUnchanged(t, i + 1);
      assert t[i..] == [t[i]] + t[i + 1..];
    }
  }

  // ---------------------------------------------------------------- "-orX"

  /** `-\s*or([A-Z])` matched at `i`: the end of the match. `\s*` cannot give anything back,
      since `o` is not whitespace. */
  function DashOrAt(t: string, i: nat): (r: Option<nat>)
    requires i <= |t|
    ensures r.Some? ==> i + 4 <= r.value <= |t| && IsUpper(t[r.value - 1])
  {
    if i < |t| && t[i] == '-' then
      var a := RunEnd(t, i + 1, SpaceClass);
      if a + 3 <= |t| && t[a] == 'o' && t[a + 1] == 'r' && IsUpper(t[a + 2]) then Some(a + 3) else None
    else None
  }

  lemma DashOrShift(p: string, r: string, j: nat)
    requires j <= |r|
    ensures DashOrAt(p + r, |p| + j).Some? == DashOrAt(r, j).Some?
  {
    var t := p + r;
    if j < |r| {
      assert t[|p| + j] == r[j];
      RunEndShift(p, r, j + 1, SpaceClass);
      var a := RunEnd(r, j + 1, SpaceClass);
      if a + 3 <= |r| {
        assert t[|p| + a] == r[a] && t[|p| + a + 1] == r[a + 1] && t[|p| + a + 2] == r[a + 2];
      }
    }
  }

  /** `re.sub(r"-\s*or([A-Z])", r"- or \1", t)` from position `i` on. */
  function SpaceDashOrFrom(t: string, i: nat): string
    requires i <= |t|
    decreases |t| - i
  {
    if i == |t| then []
    else
      match DashOrAt(t, i)
      case Some(k) => "- or " + [t[k - 1]] + SpaceDashOrFrom(t, k)
      case None => [t[i]] + SpaceDashOrFrom(t, i + 1)
  }

  function SpaceDashOr(t: string): string { SpaceDashOrFrom(t, 0) }

  lemma SpaceDashOrHead(t: string, i: nat)
    requires i < |t|
    ensures SpaceDashOrFrom(t, i) != [] && SpaceDashOrFrom(t, i)[0] == t[i]
  {
  }

  /** A prefix of the output without hyphens is copied from the input. */
  lemma {:induction false} SpaceDashOrPrefix(t: string, i: nat, w: string)
    requires i <= |t|
    requires '-' !in w
    requires |w| <= |SpaceDashOrFrom(t, i)| && SpaceDashOrFrom(t, i)[..|w|] == w
    ensures i + |w| <= |t| && t[i..i + |w|] == w
    decreases |w|
  {
    if w != [] {
      var o := SpaceDashOrFrom(t, i);
      assert o[0] == w[0];
      assert i < |t|;
      SpaceDashOrHead(t, i);
      assert DashOrAt(t, i).None?;
      var rest := SpaceDashOrFrom(t, i + 1);
      assert o == [t[i]] + rest;
      assert rest[..|w| - 1] == w[1..];
      SpaceDashOrPrefix(t, i + 1, w[1..]);
      assert t[i..i + |w|] == [t[i]] + t[i + 1..i + |w|];
    }
  }

  /** The pieces a `-\s*or[A-Z]` match at `i` is made of, `a` being where `or` starts. */
  predicate DashOrParts(t: string, i: nat, a: nat) {
    i < a && a + 3 <= |t| && t[i] == '-' && (forall m :: i < m < a ==> IsSpace(t[m]))
    && t[a] == 'o' && t[a + 1] == 'r' && IsUpper(t[a + 2])
  }

  lemma DashOrSplit(t: string, i: nat)
    requires i <= |t| && DashOrAt(t, i).Some?
    ensures DashOrParts(t, i, DashOrAt(t, i).value - 3)
  {
    RunEndShape(t, i + 1, SpaceClass);
  }

  lemma DashOrJoin(t: string, i: nat, a: nat)
    requires i <= |t| && DashOrParts(t, i, a)
    ensures DashOrAt(t, i).Some?
  {
    RunEndAt(t, i + 1, a, SpaceClass);
  }

  /** The replacement text matches nowhere inside itself. */
  lemma DashOrPieceNone(x: char, rest: string, j: nat)
    requires IsUpper(x) && j < 6
    ensures DashOrAt("- or " + [x] + rest, j).None?
  {
    var o := "- or " + [x] + rest;
    assert o[0] == '-' && o[1] == ' ' && o[2] == 'o' && o[3] == 'r' && o[4] == ' ' && o[5] == x;
    if DashOrAt(o, j).Some? {
      DashOrSplit(o, j);
    }
  }

  /** No hyphen is followed by `or` and a capital letter, with or without whitespace between. */
  predicate NoDashOr(o: string) {
    forall j: nat :: j <= |o| ==> DashOrAt(o, j).None?
  }

  /** After the rewrite the pattern matches nowhere. */
  lemma {:induction false} SpaceDashOrDone(t: string, i: nat)
    requires i <= |t|
    ensures NoDashOr(SpaceDashOrFrom(t, i))
    decreases |t| - i
  {
    if i < |t| {
      match DashOrAt(t, i)
      case Some(k) =>
        SpaceDashOrDone(t, k);
        NoDashOrAfterPiece(t[k - 1], SpaceDashOrFrom(t, k));
      case None =>
        var rest := SpaceDashOrFrom(t, i + 1);
        SpaceDashOrDone(t, i + 1);
        DashOrHeadNone(t, i, rest);
        NoDashOrAfterCopy(t[i], rest);
    }
  }

  lemma NoDashOrAfterPiece(x: char, rest: string)
    requires IsUpper(x) && NoDashOr(rest)
    ensures NoDashOr("- or " + [x] + rest)
  {
    var piece := "- or " + [x];
    var o := piece + rest;
    forall j: nat | j <= |o| ensures DashOrAt(o, j).None? {
      if j >= 6 {
        assert DashOrAt(rest, j - 6).None?;
        DashOrShift(piece, rest, j - 6);
      } else {
        DashOrPieceNone(x, rest, j);
      }
    }
  }

  lemma NoDashOrAfterCopy(c: char, rest: string)
    requires NoDashOr(rest) && DashOrAt([c] + rest, 0).None?
    ensures NoDashOr([c] + rest)
  {
    var o := [c] + rest;
    forall j: nat | 1 <= j <= |o| ensures DashOrAt(o, j).None? {
      assert DashOrAt(rest, j - 1).None?;
      DashOrShift([c], rest, j - 1);
    }
  }

  lemma DashOrHeadNone(t: string, i: nat, rest: string)
    requires i < |t| && DashOrAt(t, i).None? && rest == SpaceDashOrFrom(t, i + 1)
    ensures DashOrAt([t[i]] + rest, 0).None?
  {
    var o := [t[i]] + rest;
    if DashOrAt(o, 0).Some? {
      DashOrSplit(o, 0);
      DashOrCopied(t, i, o, rest, DashOrAt(o, 0).value - 3);
    }
  }

  /** A match at the head of the output would have been a match in the input. */
  lemma DashOrCopied(t: string, i: nat, o: string, rest: string, a: nat)
    requires i < |t| && o == [t[i]] + rest && rest == SpaceDashOrFrom(t, i + 1)
    requires DashOrParts(o, 0, a)
    ensures DashOrAt(t, i).Some?
  {
    var w := DashOrCopy(t, i, o, rest, a);
    DashOrPartsCopy(t, i, a, w, o);
  }

  /** The characters of such a match after its head were copied unchanged from the input. */
  lemma DashOrCopy(t: string, i: nat, o: string, rest: string, a: nat) returns (w: string)
    requires i < |t| && o == [t[i]] + rest && rest == SpaceDashOrFrom(t, i + 1)
    requires DashOrParts(o, 0, a)
    ensures |w| == a + 2 && (forall m :: 0 <= m < |w| ==> w[m] == o[m + 1])
    ensures i + 1 + |w| <= |t| && t[i + 1..i + 1 + |w|] == w
  {
    w := DashOrFree(o, a, rest);
    SpaceDashOrPrefix(t, i + 1, w);
  }

  lemma DashOrFree(o: string, a: nat, rest: string) returns (w: string)
    requires DashOrParts(o, 0, a) && o[1..] == rest
    ensures '-' !in w && |w| == a + 2 && w == rest[..a + 2]
    ensures forall m :: 0 <= m < |w| ==> w[m] == o[m + 1]
  {
    w := rest[..a + 2];
    forall m | 0 <= m < |w| ensures w[m] == o[m + 1] && w[m] != '-' {
      assert w[m] == rest[m] == o[m + 1];
      if m < a - 1 { SpaceIsNot(o[m + 1]); }
    }
  }

  lemma DashOrPartsCopy(t: string, i: nat, a: nat, w: string, o: string)
    requires DashOrParts(o, 0, a) && |w| == a + 2 && (forall m :: 0 <= m < |w| ==> w[m] == o[m + 1])
    requires i < |t| && t[i] == o[0] && i + 1 + |w| <= |t| && t[i + 1..i + 1 + |w|] == w
    ensures DashOrAt(t, i).Some?
  {
    forall m | i < m < i + a ensures IsSpace(t[m]) {
      assert t[m] == t[i + 1..i + 1 + |w|][m - i - 1] == o[m - i];
    }
    assert t[i + a] == t[i + 1..i + 1 + |w|][a - 1];
    assert t[i + a + 1] == t[i + 1..i + 1 + |w|][a];
    assert t[i + a + 2] == t[i + 1..i + 1 + |w|][a + 1];
    DashOrJoin(t, i, i + a);
  }

  /** Text without the pattern is left as it is. */
  lemma {:induction false} SpaceDashOrUnchanged(t: string, i: nat)
    requires i <= |t|
    requires forall j: nat :: j <= |t| ==> DashOrAt(t, j).None?
    ensures SpaceDashOrFrom(t, i) == t[i..]
    decreases |t| - i
  {
    if i < |t| {
      SpaceDashOrUnchanged(t, i + 1);
      assert t[i..] == [t[i]] + t[i + 1..];
    }
  }

  // ---------------------------------------------------------------- whitespace runs

  /** Every whitespace character is a plain space and no two of them are adjacent. */
  predicate SingleSpaced(s: string) {
    forall i :: 0 <= i < |s| && IsSpace(s[i]) ==> s[i] == ' ' && (i + 1 == |s| || !IsSpace(s[i + 1]))
  }

  /** `re.sub(r"\s+", " ", t)` from position `i` on. */
  function CollapseFrom(t: string, i: nat): string
    requires i <= |t|
    decreases |t| - i
  {
    if i == |t| then []
    else if IsSpace(t[i]) then " " + CollapseFrom(t, RunEnd(t, i, SpaceClass))
    else [t[i]] + CollapseFrom(t, i + 1)
  }

  function CollapseSpaces(t: string): string { CollapseFrom(t, 0) }

  /** After collapsing, whitespace is single spaces. */
  lemma {:induction false} CollapseDone(t: string, i: nat)
    requires i <= |t|
    ensures SingleSpaced(CollapseFrom(t, i))
    decreases |t| - i
  {
    if i < |t| {
      var o := CollapseFrom(t, i);
      if IsSpace(t[i]) {
        var e := RunEnd(t, i, SpaceClass);
        RunEndShape(t, i, SpaceClass);
        var rest := CollapseFrom(t, e);
        CollapseDone(t, e);
        assert o == " " + rest;
        if e < |t| {
          assert rest[0] == t[e];
        }
        forall m | 0 <= m < |o| && IsSpace(o[m]) ensures o[m] == ' ' && (m + 1 == |o| || !IsSpace(o[m + 1])) {
          if m > 0 { assert o[m] == rest[m - 1]; if m + 1 < |o| { assert o[m + 1] == rest[m]; } }
        }
      } else {
        var rest := CollapseFrom(t, i + 1);
        CollapseDone(t, i + 1);
        assert o == [t[i]] + rest;
        forall m | 0 <= m < |o| && IsSpace(o[m]) ensures o[m] == ' ' && (m + 1 == |o| || !IsSpace(o[m + 1])) {
          assert o[m] == rest[m - 1];
          if m + 1 < |o| { assert o[m + 1] == rest[m]; }
        }
      }
    }
  }

  /** Single-spaced text is left as it is. */
  lemma {:induction false} CollapseUnchanged(t: string, i: nat)
    requires i <= |t| && SingleSpaced(t)
    ensures CollapseFrom(t, i) == t[i..]
    decreases |t| - i
  {
    if i < |t| {
      if IsSpace(t[i]) {
        RunEndAt(t, i, i + 1, SpaceClass);
      }
      CollapseUnchanged(t, i + 1);
      assert t[i..] == [t[i]] + t[i + 1..];
    }
  }

  /** Stripping keeps text single-spaced. */
  lemma TrimSingleSpaced(s: string)
    requires SingleSpaced(s)
    ensures SingleSpaced(Trim(s))
  {
    StripShape(s, Whitespace);
    var r := Trim(s);
    var k := |s| - |StripLeft(s, Whitespace)|;
    forall m | 0 <= m < |r| && IsSpace(r[m]) ensures r[m] == ' ' && (m + 1 == |r| || !IsSpace(r[m + 1])) {
      assert r[m] == s[k + m];
      if m + 1 < |r| { assert r[m + 1] == s[k + m + 1]; }
    }
  }

  // ---------------------------------------------------------------- normalisation

  /** The text as it is split: stripped, `<digit>with` and `-orX` spaced out, whitespace runs
      collapsed to one space, stripped again. */
  function Normalise(t: string): string {
    Trim(CollapseSpaces(SpaceDashOr(SpaceBeforeWith(Trim(t)))))
  }

  /** Normalised text is stripped and single-spaced. */
  lemma NormaliseShape(t: string)
    ensures IsTrimmed(Normalise(t)) && SingleSpaced(Normalise(t))
  {
    var c := CollapseSpaces(SpaceDashOr(SpaceBeforeWith(Trim(t))));
    CollapseDone(SpaceDashOr(SpaceBeforeWith(Trim(t))), 0);
    TrimSingleSpaced(c);
    StripShape(c, Whitespace);
  }

  // ---------------------------------------------------------------- graduate admission clause

  const GradPhrase := "graduate program admission"
  const GraduateAlternative := "graduate_program_admission"

  predicate OccursAt(s: string, w: string, k: nat) {
    k + |w| <= |s| && s[k..k + |w|] == w
  }

  /** Python's `w in s[i..]`, scanning from `i`. */
  predicate ContainsFrom(s: string, w: string, i: nat)
    decreases |s| - i
  {
    if i + |w| > |s| then false else OccursAt(s, w, i) || ContainsFrom(s, w, i + 1)
  }

  predicate Contains(s: string, w: string) { ContainsFrom(s, w, 0) }

  /** The scan finds `w` exactly when it occurs at or after `i`. */
  lemma {:induction false} ContainsFromIff(s: string, w: string, i: nat)
    ensures ContainsFrom(s, w, i) <==> exists k: nat :: i <= k && OccursAt(s, w, k)
    decreases |s| - i
  {
    if i + |w| <= |s| {
      ContainsFromIff(s, w, i + 1);
      if exists k: nat :: i <= k && OccursAt(s, w, k) {
        var k: nat :| i <= k && OccursAt(s, w, k);
        if k > i { assert i + 1 <= k; }
      }
    }
  }

  /** `\s*or\s+graduate program admission`, ignoring case, matched at `i`: the end of the match.
      Neither run of whitespace can give anything back, since `o` and `g` are not whitespace. */
  function ClauseAt(t: string, i: nat): (r: Option<nat>)
    requires i <= |t|
    ensures r.Some? ==> i + 29 <= r.value <= |t|
  {
    var a := RunEnd(t, i, SpaceClass);
    if a + 2 <= |t| && LowerChar(t[a]) == 'o' && LowerChar(t[a + 1]) == 'r' then
      var b := RunEnd(t, a + 2, SpaceClass);
      if a + 2 < b && b + 26 <= |t| && Lower(t[b..b + 26]) == GradPhrase then Some(b + 26) else None
    else None
  }

  /** `re.sub(r"\s*or\s+graduate program admission", "", t, flags=re.IGNORECASE)` from `i` on. */
  function RemoveClauseFrom(t: string, i: nat): string
    requires i <= |t|
    decreases |t| - i
  {
    if i == |t| then []
    else
      match ClauseAt(t, i)
      case Some(k) => RemoveClauseFrom(t, k)
      case None => [t[i]] + RemoveClauseFrom(t, i + 1)
  }

  function RemoveClause(t: string): string { RemoveClauseFrom(t, 0) }

  // ---------------------------------------------------------------- alternatives

  /** `\s+or\s+` matched at `i`: the end of the match. */
  function OrSepAt(g: string, i: nat): (r: Option<nat>)
    requires i <= |g|
    ensures r.Some? ==> i + 4 <= r.value <= |g|
  {
    if i < |g| && IsSpace(g[i]) then
      var a := RunEnd(g, i, SpaceClass);
      if a + 2 < |g| && g[a] == 'o' && g[a + 1] == 'r' && IsSpace(g[a + 2]) then
        Some(RunEnd(g, a + 2, SpaceClass))
      else None
    else None
  }

  /** `re.split(r"\s+or\s+", g[start..])`, the scan being at `i`. */
  function SplitOrFrom(g: string, start: nat, i: nat): (parts: seq<string>)
    requires start <= i <= |g|
    ensures |parts| >= 1
    decreases |g| - i
  {
    if i == |g| then [g[start..]]
    else
      match OrSepAt(g, i)
      case Some(e) => [g[start..i]] + SplitOrFrom(g, e, e)
      case None => SplitOrFrom(g, start, i + 1)
  }

  function SplitOr(g: string): seq<string> { SplitOrFrom(g, 0, 0) }

  // ---------------------------------------------------------------- requirements

  /** One alternative of an AND-group: a course, with the minimum grade when one is stated. */
  datatype Requirement = Requirement(course: string, minGrade: Option<string>)

  const MinGradePhrase := "with a minimum grade of"

  /** A letter, optionally followed by `+` or `-`. */
  predicate IsGrade(g: string) {
    (|g| == 1 || (|g| == 2 && (g[1] == '+' || g[1] == '-'))) && IsLetter(g[0])
  }

  /** `([A-Z]+\s\d+)\s+with a minimum grade of\s+([A-Za-z][+-]?)` matched at the start of `p`. */
  function GradedAt(p: string): (r: Option<Requirement>)
    ensures r.Some? ==> r.value.minGrade.Some? && IsGrade(r.value.minGrade.value)
  {
    match CodeAt(p, 0)
    case None => None
    case Some(c) =>
      var a := RunEnd(p, c, SpaceClass);
      if c < a && a + 23 <= |p| && p[a..a + 23] == MinGradePhrase then
        var b := RunEnd(p, a + 23, SpaceClass);
        if a + 23 < b < |p| && IsLetter(p[b]) then
          var g := if b + 1 < |p| && (p[b + 1] == '+' || p[b + 1] == '-') then p[b..b + 2] else p[b..b + 1];
          Some(Requirement(p[..c], Some(g)))
        else None
      else None
  }

  /** The graded pattern, else a bare course code at the start, else nothing. */
  function ParseEntry(p: string): Option<Requirement> {
    match GradedAt(p)
    case Some(r) => Some(r)
    case None =>
      match CodeAt(p, 0)
      case Some(c) => Some(Requirement(p[..c], None))
      case None => None
  }

  /** Python's `s.strip().strip("()").strip()`. */
  function CleanPart(s: string): string { Trim(Strip(Trim(s), {'(', ')'})) }

  /** What one alternative adds to its group's list. */
  function EntryOf(part: string): seq<Requirement> {
    match ParseEntry(CleanPart(part))
    case Some(r) => [r]
    case None => []
  }

  /** The entries of one cleaned AND-group; an empty group or one without courses adds nothing. */
  function GroupOf(group: string): seq<seq<Requirement>> {
    if group == [] then []
    else
      var entries := FlatMap(SplitOr(group), EntryOf);
      if entries == [] then [] else [entries]
  }

  /** The cleaned `;`-separated segments. */
  function AndGroups(t: string): (groups: seq<string>)
    ensures |groups| == |Split(t, ';')|
  {
    var segments := Split(t, ';');
    seq(|segments|, k requires 0 <= k < |segments| => CleanPart(segments[k]))
  }

  /** What `parse_prerequisites` returns. */
  function PrerequisiteParse(text: Option<string>): (seq<seq<Requirement>>, Option<string>) {
    if text.None? || text.value == [] then ([], None)
    else
      var n := Normalise(text.value);
      var grad := Contains(Lower(n), GradPhrase);
      var t := if grad then Trim(RemoveClause(n)) else n;
      var alt := if grad then Some(GraduateAlternative) else None;
      if t == [] then ([], alt) else (PrereqGroups(t), alt)
  }

  /** The AND-groups of normalised text. */
  function PrereqGroups(t: string): seq<seq<Requirement>> { FlatMap(AndGroups(t), GroupOf) }

  /** `parse_prerequisites`: the AND-groups, each a list of alternatives, and the graduate
      admission alternative when the text offers it. */
  method ParsePrerequisites(text: Option<string>)
    returns (prerequisites: seq<seq<Requirement>>, graduateAlt: Option<string>)
    ensures (prerequisites, graduateAlt) == PrerequisiteParse(text)
  {
    if text.None? || text.value == [] {
      return [], None;
    }
    var t := Normalise(text.value);
    var hasGraduateAdmission := false;
    if Contains(Lower(t), GradPhrase) {
      hasGraduateAdmission := true;
      t := Trim(RemoveClause(t));
    }
    if t == [] {
      return [], if hasGraduateAdmission then Some(GraduateAlternative) else None;
    }
    var groups := AndGroups(t);
    prerequisites := [];
    for i := 0 to |groups|
      invariant prerequisites == FlatMap(groups[..i], GroupOf)
    {
      FlatMapSnoc(groups, i, GroupOf);
      var group := groups[i];
      if group == [] {
        continue;
      }
      var orParts := SplitOr(group);
      var orList := [];
      for k := 0 to |orParts|
        invariant orList == FlatMap(orParts[..k], EntryOf)
      {
        FlatMapSnoc(orParts, k, EntryOf);
        var part := CleanPart(orParts[k]);
        match ParseEntry(part) {
          case Some(r) => orList := orList + [r];
          case None =>
        }
      }
      assert orParts[..|orParts|] == orParts;
      if orList != [] {
        prerequisites := prerequisites + [orList];
      }
    }
    assert groups[..|groups|] == groups;
    graduateAlt := if hasGraduateAdmission then Some(GraduateAlternative) else None;
  }

  // ---------------------------------------------------------------- properties of the alternatives

  /** No separator anywhere. */
  predicate NoOrSep(g: string) {
    forall i: nat :: i <= |g| ==> OrSepAt(g, i).None?
  }

  /** Text without a separator is one alternative. */
  lemma {:induction false} SplitOrFromNone(g: string, start: nat, i: nat)
    requires start <= i <= |g| && NoOrSep(g)
    ensures SplitOrFrom(g, start, i) == [g[start..]]
    decreases |g| - i
  {
    if i < |g| {
      assert OrSepAt(g, i).None?;
      SplitOrFromNone(g, start, i + 1);
    }
  }

  lemma SplitOrNone(g: string)
    requires NoOrSep(g)
    ensures SplitOr(g) == [g]
  {
    SplitOrFromNone(g, 0, 0);
  }

  /** Where the separator match lands does not depend on the text before it. */
  lemma OrSepShift(p: string, r: string, j: nat)
    requires j <= |r|
    ensures OrSepAt(p + r, |p| + j) == (if OrSepAt(r, j).Some? then Some(|p| + OrSepAt(r, j).value) else None)
  {
    var t := p + r;
    if j < |r| {
      assert t[|p| + j] == r[j];
      RunEndShift(p, r, j, SpaceClass);
      var a := RunEnd(r, j, SpaceClass);
      if a + 2 < |r| {
        assert t[|p| + a] == r[a] && t[|p| + a + 1] == r[a + 1] && t[|p| + a + 2] == r[a + 2];
        RunEndShift(p, r, a + 2, SpaceClass);
      }
    }
  }

  /** The same, for text `t` that holds `r` from `d` on. */
  lemma OrSepShiftAt(t: string, r: string, d: nat, j: nat)
    requires d + |r| == |t| && t[d..] == r && j <= |r|
    ensures OrSepAt(t, d + j) == (if OrSepAt(r, j).Some? then Some(d + OrSepAt(r, j).value) else None)
  {
    var p := t[..d];
    assert t == p + r;
    OrSepShift(p, r, j);
  }

  /** Splitting text that holds `r` from `d` on, from `d` on, splits `r`. */
  lemma {:induction false} SplitOrShift(t: string, r: string, d: nat, start: nat, i: nat)
    requires d + |r| == |t| && t[d..] == r && start <= i <= |r|
    ensures SplitOrFrom(t, d + start, d + i) == SplitOrFrom(r, start, i)
    decreases |r| - i, 2
  {
    if i < |r| {
      SplitOrShiftAt(t, r, d, start, i);
    } else {
      SliceOfDrop(t, d, start, i);
      SplitOrShiftEnd(t, r, d, start);
    }
  }

  /** The same, the scan being inside the text. */
  lemma {:induction false} SplitOrShiftAt(t: string, r: string, d: nat, start: nat, i: nat)
    requires d + |r| == |t| && t[d..] == r && start <= i < |r|
    ensures SplitOrFrom(t, d + start, d + i) == SplitOrFrom(r, start, i)
    decreases |r| - i, 1
  {
    OrSepShiftAt(t, r, d, i);
    if OrSepAt(r, i).Some? {
      SplitOrShiftSep(t, r, d, start, i, OrSepAt(r, i).value);
    } else {
      SplitOrShift(t, r, d, start, i + 1);
      SplitOrShiftSkip(t, r, d, start, i);
    }
  }

  /** The same, at a separator of `r` that ends at `e`. */
  lemma {:induction false} SplitOrShiftSep(t: string, r: string, d: nat, start: nat, i: nat, e: nat)
    requires d + |r| == |t| && t[d..] == r && start <= i < e <= |r|
    requires OrSepAt(t, d + i) == Some(d + e) && OrSepAt(r, i) == Some(e)
    ensures SplitOrFrom(t, d + start, d + i) == SplitOrFrom(r, start, i)
    decreases |r| - i, 0
  {
    SplitOrShift(t, r, d, e, e);
    SliceOfDrop(t, d, start, i);
    SplitOrShiftStep(t, r, d, start, i, e);
  }

  /** At the end of the text both splits close with the same last piece. */
  lemma SplitOrShiftEnd(t: string, r: string, d: nat, start: nat)
    requires d + |r| == |t| && start <= |r|
    requires t[d + start..] == r[start..]
    ensures SplitOrFrom(t, d + start, d + |r|) == SplitOrFrom(r, start, |r|)
  {
  }

  /** Past a position where neither text has a separator, both splits go on alike. */
  lemma SplitOrShiftSkip(t: string, r: string, d: nat, start: nat, i: nat)
    requires d + |r| == |t| && start <= i < |r|
    requires OrSepAt(t, d + i).None? && OrSepAt(r, i).None?
    requires SplitOrFrom(t, d + start, d + i + 1) == SplitOrFrom(r, start, i + 1)
    ensures SplitOrFrom(t, d + start, d + i) == SplitOrFrom(r, start, i)
  {
  }

  /** One separator further, the split of `t` from `d + start` is the split of `r` from
      `start`, `t` holding `r` from `d` on. */
  lemma SplitOrShiftStep(t: string, r: string, d: nat, start: nat, i: nat, e: nat)
    requires d + |r| == |t| && start <= i < e <= |r|
    requires OrSepAt(t, d + i) == Some(d + e) && OrSepAt(r, i) == Some(e)
    requires SplitOrFrom(t, d + e, d + e) == SplitOrFrom(r, e, e)
    requires t[d + start..d + i] == r[start..i]
    ensures SplitOrFrom(t, d + start, d + i) == SplitOrFrom(r, start, i)
  {
  }

  /** A separator match survives text appended after it. */
  lemma OrSepExtend(p: string, q: string, i: nat)
    requires i <= |p| && OrSepAt(p, i).Some?
    ensures OrSepAt(p + q, i).Some?
  {
    var t := p + q;
    var a := RunEnd(p, i, SpaceClass);
    RunEndShape(p, i, SpaceClass);
    assert t[a] == p[a] && t[a + 1] == p[a + 1] && t[a + 2] == p[a + 2];
    RunEndAt(t, i, a, SpaceClass);
  }

  /** A piece that can stand between separators: not empty, not starting or ending with
      whitespace, and not containing the word `or` between whitespace, even once a space
      follows it. */
  predicate IsAlternative(x: string) {
    x != [] && !IsSpace(x[0]) && !IsSpace(x[|x| - 1]) && NoOrSep(x + " ")
  }

  lemma AlternativeNoOrSep(x: string)
    requires IsAlternative(x)
    ensures NoOrSep(x)
  {
    forall i: nat | i <= |x| ensures OrSepAt(x, i).None? {
      if OrSepAt(x, i).Some? {
        OrSepExtend(x, " ", i);
      }
    }
  }

  /** Inside `x + " or " + y` the first separator is the one written out. */
  lemma OrSepBefore(x: string, y: string, i: nat)
    requires IsAlternative(x) && i < |x|
    ensures OrSepAt(x + " or " + y, i).None?
  {
    var g := x + " or " + y;
    var h := x + " ";
    assert OrSepAt(h, i).None?;
    if i < |g| && IsSpace(g[i]) {
      assert g[i] == h[i];
      var a := RunEnd(h, i, SpaceClass);
      RunEndShape(h, i, SpaceClass);
      assert !IsSpace(h[|x| - 1]);
      assert a < |x|;
      forall m | i <= m < a ensures IsSpace(g[m]) { assert g[m] == h[m]; }
      assert g[a] == h[a];
      RunEndAt(g, i, a, SpaceClass);
      if a + 2 <= |x| {
        assert g[a + 1] == h[a + 1] && g[a + 2] == h[a + 2];
      } else {
        assert g[a + 1] == ' ';
      }
    }
  }

  /** `re.split` peels off the first alternative of `x + " or " + y`. */
  lemma SplitOrCons(x: string, y: string)
    requires IsAlternative(x) && (y == [] || !IsSpace(y[0]))
    ensures SplitOr(x + " or " + y) == [x] + SplitOr(y)
  {
    var g := x + " or " + y;
    SplitOrSkip(x, y, 0);
    OrSepWritten(x, y);
    SplitOrShift(g, y, |x| + 4, 0, 0);
    SplitOrAtSep(g, 0, |x|, |x| + 4);
  }

  /** The separator written out between `x` and `y` is matched in full. */
  lemma OrSepWritten(x: string, y: string)
    requires y == [] || !IsSpace(y[0])
    ensures var g := x + " or " + y;
      && |g| == |x| + 4 + |y| && g[0..|x|] == x && g[|x| + 4..] == y
      && OrSepAt(g, |x|) == Some(|x| + 4)
  {
    var g := x + " or " + y;
    assert g[|x|] == ' ' && g[|x| + 1] == 'o' && g[|x| + 2] == 'r' && g[|x| + 3] == ' ';
    RunEndAt(g, |x|, |x| + 1, SpaceClass);
    if y != [] { assert g[|x| + 4] == y[0]; }
    RunEndAt(g, |x| + 3, |x| + 4, SpaceClass);
    assert g[0..|x|] == x;
    assert g == (x + " or ") + y;
    SliceAfter(x + " or ", y, 0, |y|);
  }

  /** At a separator the split closes the current piece and starts after the separator. */
  lemma SplitOrAtSep(g: string, start: nat, i: nat, e: nat)
    requires start <= i < |g| && OrSepAt(g, i) == Some(e)
    ensures SplitOrFrom(g, start, i) == [g[start..i]] + SplitOrFrom(g, e, e)
  {
  }

  lemma {:induction false} SplitOrSkip(x: string, y: string, i: nat)
    requires IsAlternative(x) && i <= |x|
    ensures SplitOrFrom(x + " or " + y, 0, i) == SplitOrFrom(x + " or " + y, 0, |x|)
    decreases |x| - i
  {
    if i < |x| {
      OrSepBefore(x, y, i);
      SplitOrSkip(x, y, i + 1);
    }
  }

  /** Splitting a join of alternatives gives them back. */
  lemma {:induction false} SplitOrJoin(alternatives: seq<string>)
    requires |alternatives| >= 1
    requires forall k :: 0 <= k < |alternatives| ==> IsAlternative(alternatives[k])
    ensures SplitOr(JoinWith(alternatives, " or ")) == alternatives
  {
    if |alternatives| == 1 {
      AlternativeNoOrSep(alternatives[0]);
      SplitOrNone(alternatives[0]);
    } else {
      var rest := alternatives[1..];
      assert IsAlternative(rest[0]);
      SplitOrJoin(rest);
      var y := JoinWith(rest, " or ");
      JoinOrHead(rest);
      SplitOrCons(alternatives[0], y);
    }
  }

  lemma JoinOrHead(alternatives: seq<string>)
    requires |alternatives| >= 1 && IsAlternative(alternatives[0])
    ensures JoinWith(alternatives, " or ") != [] && JoinWith(alternatives, " or ")[0] == alternatives[0][0]
  {
  }

  // ---------------------------------------------------------------- properties of the entries

  /** An entry names the course code the part starts with; a grade, when there is one, is a
      letter with an optional sign that follows the words "with a minimum grade of". */
  lemma EntryShape(p: string)
    requires ParseEntry(p).Some?
    ensures var r := ParseEntry(p).value;
      IsCourseCode(r.course) && |r.course| <= |p| && p[..|r.course|] == r.course
      && CodeAt(p, 0) == Some(|r.course|)
      && (r.minGrade.Some? ==> IsGrade(r.minGrade.value) && GradeStated(p, |r.course|, r.minGrade.value))
  {
    var c := CodeAt(p, 0).value;
    assert p[0..c] == p[..c];
    if GradedAt(p).Some? {
      GradedShape(p, c);
    }
  }

  /** A graded entry names the code ending at `c`, and its grade is stated after it. */
  lemma GradedShape(p: string, c: nat)
    requires CodeAt(p, 0) == Some(c) && GradedAt(p).Some?
    ensures GradedAt(p).value.course == p[..c]
    ensures GradeStated(p, c, GradedAt(p).value.minGrade.value)
  {
    var a := RunEnd(p, c, SpaceClass);
    var b := RunEnd(p, a + 23, SpaceClass);
    RunEndShape(p, c, SpaceClass);
    RunEndShape(p, a + 23, SpaceClass);
    assert GradeStatedAt(p, c, GradedAt(p).value.minGrade.value, a, b);
  }

  /** After the code ending at `c`: whitespace, the phrase, whitespace, then the grade. */
  ghost predicate GradeStated(p: string, c: nat, g: string) {
    exists a: nat, b: nat :: GradeStatedAt(p, c, g, a, b)
  }

  predicate GradeStatedAt(p: string, c: nat, g: string, a: nat, b: nat) {
    c < a && a + 23 < b && b + |g| <= |p|
    && (forall m :: c <= m < a ==> IsSpace(p[m])) && p[a..a + 23] == MinGradePhrase
    && (forall m :: a + 23 <= m < b ==> IsSpace(p[m])) && p[b..b + |g|] == g
  }

  /** A part yields nothing exactly when no prefix of it is a course code. */
  lemma EntryNone(p: string)
    ensures ParseEntry(p).None? <==> forall j :: 0 < j <= |p| ==> !IsCourseCode(p[0..j])
  {
    CodeAtNone(p, 0);
  }

  /** A bare course code is an entry without a grade. */
  lemma EntryOfCode(code: string)
    requires IsCourseCode(code)
    ensures ParseEntry(code) == Some(Requirement(code, None))
  {
    CodeAtPrefix(code, []);
    assert code + [] == code;
    assert code[..|code|] == code;
  }

  /** `"<code> with a minimum grade of <g>"` is an entry with grade `g`. */
  lemma EntryOfGraded(code: string, g: string)
    requires IsCourseCode(code) && IsGrade(g)
    ensures ParseEntry(code + " " + MinGradePhrase + " " + g) == Some(Requirement(code, Some(g)))
  {
    var p := code + " " + MinGradePhrase + " " + g;
    var c := |code|;
    var tail := " " + MinGradePhrase + " " + g;
    assert p == code + tail;
    CodeAtPrefix(code, tail);
    GradedParts(p, code, g);
  }

  lemma GradedParts(p: string, code: string, g: string)
    requires IsCourseCode(code) && IsGrade(g) && p == code + " " + MinGradePhrase + " " + g
    requires CodeAt(p, 0) == Some(|code|)
    ensures GradedAt(p) == Some(Requirement(code, Some(g)))
  {
    GradedLayout(p, code, g);
    GradedFromLayout(p, code, g);
  }

  lemma GradedLayout(p: string, code: string, g: string)
    requires IsGrade(g) && p == code + " " + MinGradePhrase + " " + g
    ensures var c := |code|;
      |p| == c + 25 + |g| && p[..c] == code && p[c] == ' ' && p[c + 1] == 'w'
      && p[c + 1..c + 24] == MinGradePhrase && p[c + 24] == ' ' && p[c + 25..] == g
  {
    var c := |code|;
    var pre := code + " " + MinGradePhrase;
    assert p == pre + " " + g;
    assert pre[c + 1..] == MinGradePhrase;
    assert p[..c + 24] == pre;
  }

  lemma GradedFromLayout(p: string, code: string, g: string)
    requires IsGrade(g) && CodeAt(p, 0) == Some(|code|)
    requires var c := |code|;
      |p| == c + 25 + |g| && p[..c] == code && p[c] == ' ' && p[c + 1] == 'w'
      && p[c + 1..c + 24] == MinGradePhrase && p[c + 24] == ' ' && p[c + 25..] == g
    ensures GradedAt(p) == Some(Requirement(code, Some(g)))
  {
    var c := |code|;
    RunEndAt(p, c, c + 1, SpaceClass);
    assert p[c + 25] == g[0];
    RunEndAt(p, c + 24, c + 25, SpaceClass);
    GradeRead(p, c + 25, g);
    GradedWhen(p, c, c + 1, c + 25, g);
  }

  /** The graded pattern once the code, both whitespace runs and the grade are known. */
  lemma GradedWhen(p: string, c: nat, a: nat, b: nat, g: string)
    requires CodeAt(p, 0) == Some(c) && c <= |p| && RunEnd(p, c, SpaceClass) == a && c < a
    requires a + 23 <= |p| && p[a..a + 23] == MinGradePhrase
    requires RunEnd(p, a + 23, SpaceClass) == b && a + 23 < b < |p| && IsLetter(p[b])
    requires (if b + 1 < |p| && (p[b + 1] == '+' || p[b + 1] == '-') then p[b..b + 2] else p[b..b + 1]) == g
    ensures GradedAt(p) == Some(Requirement(p[..c], Some(g)))
  {
  }

  /** A grade written at the end of the text, from `b` on, is read back whole. */
  lemma GradeRead(p: string, b: nat, g: string)
    requires IsGrade(g) && b + |g| == |p| && p[b..] == g
    ensures IsLetter(p[b])
    ensures (if b + 1 < |p| && (p[b + 1] == '+' || p[b + 1] == '-') then p[b..b + 2] else p[b..b + 1]) == g
  {
    assert p[b] == g[0];
    if |g| == 2 {
      assert p[b + 1] == g[1];
      assert p[b..b + 2] == g;
    } else {
      assert p[b..b + 1] == g;
    }
  }

  // ---------------------------------------------------------------- properties of the groups

  /** A requirement as the parser produces it: a course code, and a grade when one is set. */
  predicate ValidRequirement(r: Requirement) {
    IsCourseCode(r.course) && (r.minGrade.Some? ==> IsGrade(r.minGrade.value))
  }

  predicate WellFormedGroups(groups: seq<seq<Requirement>>) {
    forall k :: 0 <= k < |groups| ==>
      groups[k] != [] && (forall m :: 0 <= m < |groups[k]| ==> ValidRequirement(groups[k][m]))
  }

  lemma EntryOfValid(part: string, r: Requirement)
    requires r in EntryOf(part)
    ensures ValidRequirement(r)
  {
    EntryShape(CleanPart(part));
  }

  /** No group is empty and every alternative is a course code with an optional grade. */
  lemma PrereqGroupsWellFormed(t: string)
    ensures WellFormedGroups(PrereqGroups(t))
  {
    var groups := PrereqGroups(t);
    forall k | 0 <= k < |groups|
      ensures groups[k] != [] && (forall m :: 0 <= m < |groups[k]| ==> ValidRequirement(groups[k][m]))
    {
      var group := groups[k];
      FlatMapMember(AndGroups(t), GroupOf, group);
      var x :| x in AndGroups(t) && group in GroupOf(x);
      GroupOfValid(x, group);
    }
  }

  /** A group's list is not empty and holds valid requirements only. */
  lemma GroupOfValid(x: string, group: seq<Requirement>)
    requires group in GroupOf(x)
    ensures group != [] && forall m :: 0 <= m < |group| ==> ValidRequirement(group[m])
  {
    assert group == FlatMap(SplitOr(x), EntryOf);
    forall m | 0 <= m < |group| ensures ValidRequirement(group[m]) {
      FlatMapMember(SplitOr(x), EntryOf, group[m]);
      var part :| part in SplitOr(x) && group[m] in EntryOf(part);
      EntryOfValid(part, group[m]);
    }
  }

  lemma PrerequisitesWellFormed(text: Option<string>)
    ensures WellFormedGroups(PrerequisiteParse(text).0)
  {
    if text.Some? && text.value != [] {
      var n := Normalise(text.value);
      PrereqGroupsWellFormed(n);
      PrereqGroupsWellFormed(Trim(RemoveClause(n)));
    }
  }

  /** Splitting at the first separator. */
  lemma SplitCons(x: string, y: string, sep: char)
    requires sep !in x
    ensures Split(x + [sep] + y, sep) == [x] + Split(y, sep)
  {
    var s := x + [sep] + y;
    assert s[|x|] == sep;
    assert s[..|x|] == x;
    assert IndexOf(s, sep) == |x|;
    assert s[|x| + 1..] == y;
  }

  /** Segments keep their order: the groups of `x;y` are those of `x` followed by those
      of `y`. */
  lemma PrereqGroupsOrder(x: string, y: string)
    requires ';' !in x
    ensures PrereqGroups(x + ";" + y) == GroupOf(CleanPart(x)) + PrereqGroups(y)
  {
    SplitCons(x, y, ';');
    var gs := AndGroups(x + ";" + y);
    assert gs == [CleanPart(x)] + AndGroups(y);
    FlatMapAppend([CleanPart(x)], AndGroups(y), GroupOf);
    assert FlatMap([CleanPart(x)], GroupOf) == GroupOf(CleanPart(x)) by {
      assert [CleanPart(x)][..0] == [];
    }
  }

  /** The graduate alternative is reported exactly when the normalised text contains the
      phrase, ignoring case. */
  lemma PrerequisitesGraduate(text: Option<string>)
    ensures var alt := PrerequisiteParse(text).1;
      alt.None? || alt == Some(GraduateAlternative)
    ensures PrerequisiteParse(text).1 == Some(GraduateAlternative) <==>
      text.Some? && text.value != [] && exists k: nat :: OccursAt(Lower(Normalise(text.value)), GradPhrase, k)
  {
    if text.Some? && text.value != [] {
      ContainsFromIff(Lower(Normalise(text.value)), GradPhrase, 0);
    }
  }

  /** Empty or absent text gives no groups and no alternative. */
  lemma PrerequisitesEmpty()
    ensures PrerequisiteParse(None) == ([], None)
    ensures PrerequisiteParse(Some("")) == ([], None)
  {
  }

  /** Text without the clause is left as it is. */
  lemma {:induction false} RemoveClauseUnchanged(t: string, i: nat)
    requires i <= |t|
    requires forall j: nat :: j <= |t| ==> ClauseAt(t, j).None?
    ensures RemoveClauseFrom(t, i) == t[i..]
    decreases |t| - i
  {
    if i < |t| {
      RemoveClauseUnchanged(t, i + 1);
      assert t[i..] == [t[i]] + t[i + 1..];
    }
  }

  const ClauseText := " or graduate program admission"

  /** A trailing clause is removed when it is the first match. */
  lemma RemoveClauseTail(x: string)
    requires forall i: nat :: i < |x| ==> ClauseAt(x + ClauseText, i).None?
    ensures RemoveClause(x + ClauseText) == x
  {
    var g := x + ClauseText;
    var n := |x|;
    RemoveClauseSkip(g, n, 0);
    assert g[n..] == ClauseText;
    ClauseLayout(g, n);
    ClauseAtTail(g, n);
    assert g[0..n] == x;
  }

  /** Positions before `n` where nothing matches are copied. */
  lemma {:induction false} RemoveClauseSkip(g: string, n: nat, i: nat)
    requires i <= n <= |g|
    requires forall j: nat :: j < n ==> ClauseAt(g, j).None?
    ensures RemoveClauseFrom(g, i) == g[i..n] + RemoveClauseFrom(g, n)
    decreases n - i
  {
    if i < n {
      RemoveClauseSkip(g, n, i + 1);
      RemoveClauseStep(g, i);
      ConsSlice(g, i, n, RemoveClauseFrom(g, n));
    }
  }

  lemma ConsSlice(g: string, i: nat, n: nat, r: string)
    requires i < n <= |g|
    ensures [g[i]] + (g[i + 1..n] + r) == g[i..n] + r
  {
    assert g[i..n] == [g[i]] + g[i + 1..n];
  }

  lemma RemoveClauseStep(g: string, i: nat)
    requires i < |g| && ClauseAt(g, i).None?
    ensures RemoveClauseFrom(g, i) == [g[i]] + RemoveClauseFrom(g, i + 1)
  {
  }

  lemma ClauseLayout(g: string, n: nat)
    requires n <= |g| && g[n..] == ClauseText
    ensures |g| == n + 30 && g[n] == ' ' && g[n + 1] == 'o' && g[n + 2] == 'r' && g[n + 3] == ' '
    ensures g[n + 4] == 'g' && g[n + 4..n + 30] == GradPhrase
  {
    forall k | 0 <= k < 30 ensures g[n + k] == ClauseText[k] { assert g[n + k] == g[n..][k]; }
    assert g[n + 4..n + 30] == ClauseText[4..];
  }

  lemma LowerGradPhrase()
    ensures Lower(GradPhrase) == GradPhrase
  {
    forall k | 0 <= k < |GradPhrase| ensures !IsUpper(GradPhrase[k]) { }
  }

  lemma ClauseAtTail(g: string, n: nat)
    requires |g| == n + 30 && g[n] == ' ' && g[n + 1] == 'o' && g[n + 2] == 'r' && g[n + 3] == ' '
    requires g[n + 4] == 'g' && g[n + 4..n + 30] == GradPhrase
    ensures ClauseAt(g, n) == Some(|g|)
    ensures RemoveClauseFrom(g, n) == []
  {
    RunEndAt(g, n, n + 1, SpaceClass);
    RunEndAt(g, n + 3, n + 4, SpaceClass);
    LowerGradPhrase();
  }

  /** Text the rewrites have nothing to do to comes out of normalisation as it went in. */
  lemma NormaliseUnchanged(t: string)
    requires IsTrimmed(t) && SingleSpaced(t)
    requires forall j: nat :: !DigitWithAt(t, j)
    requires forall j: nat :: j <= |t| ==> DashOrAt(t, j).None?
    ensures Normalise(t) == t
  {
    StripStripped(t, Whitespace);
    SpaceBeforeWithUnchanged(t, 0);
    SpaceDashOrUnchanged(t, 0);
    CollapseUnchanged(t, 0);
    assert t[0..] == t;
    StripStripped(t, Whitespace);
  }

  const OnlyClause := "or " + GradPhrase

  /** Text that is only the clause gives no groups, but the graduate alternative. */
  lemma PrerequisitesOnlyClause()
    ensures PrerequisiteParse(Some(OnlyClause)) == ([], Some(GraduateAlternative))
  {
    var c := OnlyClause;
    OnlyClauseLetters();
    OnlyClauseSpaces();
    WordsNormal(c);
    OnlyClauseContains();
    OnlyClauseRemoved();
  }

  lemma OnlyClauseLetters()
    ensures forall k :: 0 <= k < |OnlyClause| ==> IsLower(OnlyClause[k]) || OnlyClause[k] == ' '
  {
  }

  lemma OnlyClauseSpaces()
    ensures forall k :: 0 <= k < |OnlyClause| && OnlyClause[k] == ' ' ==>
      0 < k < |OnlyClause| - 1 && IsLower(OnlyClause[k + 1])
  {
  }

  /** Lower-case words separated by single spaces are left alone by normalisation and by
      lowering. */
  lemma WordsNormal(t: string)
    requires forall k :: 0 <= k < |t| ==> IsLower(t[k]) || t[k] == ' '
    requires forall k :: 0 <= k < |t| && t[k] == ' ' ==> 0 < k < |t| - 1 && IsLower(t[k + 1])
    ensures Normalise(t) == t && Lower(t) == t
  {
    assert SingleSpaced(t);
    if t != [] {
      SpaceIsWhitespace(t[0]);
      SpaceIsWhitespace(t[|t| - 1]);
    }
    forall j: nat ensures !DigitWithAt(t, j) {
      if j < |t| { assert !IsDigit(t[j]); }
    }
    NormaliseUnchanged(t);
  }

  lemma OnlyClauseContains()
    ensures Contains(Lower(OnlyClause), GradPhrase)
    ensures Lower(OnlyClause) == OnlyClause ==> Contains(OnlyClause, GradPhrase)
  {
    var c := OnlyClause;
    assert c[3..] == GradPhrase && |c| == 29;
    assert OccursAt(c, GradPhrase, 3);
    ContainsFromIff(c, GradPhrase, 0);
    OnlyClauseLetters();
    OnlyClauseSpaces();
    WordsNormal(c);
  }

  lemma OnlyClauseRemoved()
    ensures Trim(RemoveClause(OnlyClause)) == []
  {
    var c := OnlyClause;
    assert c[3..] == GradPhrase && |c| == 29;
    assert c[0] == 'o' && c[1] == 'r' && c[2] == ' ' && c[3] == 'g';
    RunEndAt(c, 0, 0, SpaceClass);
    RunEndAt(c, 2, 3, SpaceClass);
    assert c[3..29] == GradPhrase;
    LowerGradPhrase();
    assert ClauseAt(c, 0) == Some(29);
    assert RemoveClause(c) == RemoveClauseFrom(c, 29) == [];
    StripStripped([], Whitespace);
  }

  // ---------------------------------------------------------------- corequisites

  /** `re.findall(r"[A-Z]+\s\d+", t)`: the matches left to right, each search resuming where
      the previous match ended. A match depends only on the text from where it starts, so the
      search is written on suffixes. */
  function FindCodes(t: string): seq<string>
    decreases |t|
  {
    if t == [] then []
    else
      match CodeAt(t, 0)
      case Some(e) => [t[..e]] + FindCodes(t[e..])
      case None => FindCodes(t[1..])
  }

  /** `parse_corequisites`. */
  function ParseCorequisites(text: Option<string>): seq<string> {
    if text.None? || text.value == [] then [] else FindCodes(text.value)
  }

  /** Every match is a course code. */
  lemma {:induction false} FindCodesShape(t: string)
    ensures forall k :: 0 <= k < |FindCodes(t)| ==> IsCourseCode(FindCodes(t)[k])
    decreases |t|
  {
    if t != [] {
      match CodeAt(t, 0)
      case Some(e) =>
        FindCodesShape(t[e..]);
        assert t[..e] == t[0..e];
      case None => FindCodesShape(t[1..]);
    }
  }

  lemma CorequisitesShape(text: Option<string>)
    ensures forall k :: 0 <= k < |ParseCorequisites(text)| ==> IsCourseCode(ParseCorequisites(text)[k])
  {
    if text.Some? && text.value != [] { FindCodesShape(text.value); }
  }

  /** No course code anywhere in `t`. */
  predicate NoCodeIn(t: string) {
    forall j, k :: 0 <= j < k <= |t| ==> !IsCourseCode(t[j..k])
  }

  /** Nothing is found exactly when the text holds no course code. */
  lemma {:induction false} FindCodesEmpty(t: string)
    ensures FindCodes(t) == [] <==> NoCodeIn(t)
    decreases |t|
  {
    if t != [] {
      CodeAtNone(t, 0);
      if CodeAt(t, 0).None? {
        FindCodesEmpty(t[1..]);
        NoCodeInTail(t);
      } else {
        CodeAtFound(t, 0);
      }
    }
  }

  lemma CodeAtFound(t: string, i: nat)
    requires i <= |t| && CodeAt(t, i).Some?
    ensures !NoCodeIn(t)
  {
    var e := CodeAt(t, i).value;
    assert IsCourseCode(t[i..e]);
  }

  /** With no code at the start, `t` holds a code exactly when its tail does. */
  lemma NoCodeInTail(t: string)
    requires t != [] && forall k :: 0 < k <= |t| ==> !IsCourseCode(t[0..k])
    ensures NoCodeIn(t) <==> NoCodeIn(t[1..])
  {
    var r := t[1..];
    if NoCodeIn(t) {
      forall j, k | 0 <= j < k <= |r| ensures !IsCourseCode(r[j..k]) { assert r[j..k] == t[j + 1..k + 1]; }
    }
    if NoCodeIn(r) {
      forall j, k | 0 <= j < k <= |t| ensures !IsCourseCode(t[j..k]) {
        if j > 0 { assert t[j..k] == r[j - 1..k - 1]; }
      }
    }
  }

  /** The corequisites are empty exactly when the text holds no course code. */
  lemma CorequisitesEmpty(text: Option<string>)
    ensures ParseCorequisites(text) == [] <==> text.None? || NoCodeIn(text.value)
  {
    if text.Some? {
      FindCodesEmpty(text.value);
    }
  }

  /** Characters that start no code are skipped. */
  lemma {:induction false} FindCodesSkip(sep: string, rest: string)
    requires forall m :: 0 <= m < |sep| ==> !IsUpper(sep[m])
    ensures FindCodes(sep + rest) == FindCodes(rest)
    decreases |sep|
  {
    if sep != [] {
      var t := sep + rest;
      RunEndAt(t, 0, 0, UpperClass);
      assert t[1..] == sep[1..] + rest;
      FindCodesSkip(sep[1..], rest);
    } else {
      assert sep + rest == rest;
    }
  }

  /** A separator that holds no capital letter and does not start with a digit. */
  predicate IsCodeSeparator(sep: string) {
    sep != [] && !IsDigit(sep[0]) && forall m :: 0 <= m < |sep| ==> !IsUpper(sep[m])
  }

  /** The codes of `code + sep + rest` are `code` and then those of `rest`. */
  lemma FindCodesCons(code: string, sep: string, rest: string)
    requires IsCourseCode(code) && IsCodeSeparator(sep)
    ensures FindCodes(code + sep + rest) == [code] + FindCodes(rest)
  {
    var r := sep + rest;
    var t := code + r;
    assert code + sep + rest == t;
    CodeAtPrefix(code, r);
    assert t[..|code|] == code && t[|code|..] == r;
    FindCodesSkip(sep, rest);
  }

  /** Finding the codes of a list joined by a separator gives back the list. */
  lemma {:induction false} FindCodesJoin(codes: seq<string>, sep: string)
    requires IsCodeSeparator(sep)
    requires forall k :: 0 <= k < |codes| ==> IsCourseCode(codes[k])
    ensures FindCodes(JoinWith(codes, sep)) == codes
  {
    if |codes| == 1 {
      CodeAtPrefix(codes[0], []);
      assert codes[0] + [] == codes[0];
      assert codes[0][..|codes[0]|] == codes[0];
      assert codes[0][|codes[0]|..] == [];
    } else if |codes| > 1 {
      FindCodesJoin(codes[1..], sep);
      FindCodesCons(codes[0], sep, JoinWith(codes[1..], sep));
      assert codes == [codes[0]] + codes[1..];
    }
  }

  // ---------------------------------------------------------------- attributes

  /** What one comma-separated piece adds: its stripped text, unless that is empty. */
  function AttributeOf(piece: string): seq<string> {
    var a := Trim(piece);
    if a == [] then [] else [a]
  }

  /** `parse_attributes`. */
  function ParseAttributes(text: Option<string>): seq<string> {
    if text.None? || text.value == [] then [] else FlatMap(Split(text.value, ','), AttributeOf)
  }

  /** An attribute as the parser produces it. */
  predicate IsAttribute(a: string) {
    a != [] && IsTrimmed(a) && ',' !in a
  }

  lemma AttributeOfShape(piece: string, a: string)
    requires ',' !in piece && a in AttributeOf(piece)
    ensures IsAttribute(a)
  {
    StripShape(piece, Whitespace);
    var k := |piece| - |StripLeft(piece, Whitespace)|;
    assert a == piece[k..k + |a|];
  }

  /** Attributes are non-empty, stripped and free of commas. */
  lemma AttributesShape(text: Option<string>)
    ensures forall k :: 0 <= k < |ParseAttributes(text)| ==> IsAttribute(ParseAttributes(text)[k])
  {
    if text.Some? && text.value != [] {
      var parts := Split(text.value, ',');
      var r := ParseAttributes(text);
      forall k | 0 <= k < |r| ensures IsAttribute(r[k]) {
        FlatMapMember(parts, AttributeOf, r[k]);
        var piece :| piece in parts && r[k] in AttributeOf(piece);
        AttributeOfShape(piece, r[k]);
      }
    }
  }

  lemma {:induction false} AttributesKept(items: seq<string>)
    requires forall k :: 0 <= k < |items| ==> IsAttribute(items[k])
    ensures FlatMap(items, AttributeOf) == items
  {
    if items != [] {
      var init := items[..|items| - 1];
      AttributesKept(init);
      StripStripped(items[|items| - 1], Whitespace);
    }
  }

  /** Parsing attributes joined by commas gives them back, in order. */
  lemma AttributesJoin(items: seq<string>)
    requires forall k :: 0 <= k < |items| ==> IsAttribute(items[k])
    ensures ParseAttributes(Some(Join(items, ','))) == items
  {
    if items != [] {
      SplitJoin(items, ',');
      AttributesKept(items);
      JoinNonEmpty(items);
    }
  }

  lemma JoinNonEmpty(items: seq<string>)
    requires items != [] && items[0] != []
    ensures Join(items, ',') != []
  {
  }
}
