/** The deterministic parts of the PDF ingestion script: the course code found in a PDF's
    text, the department derived from it, the metadata stamped on each chunk, the vector ids of
    the chunks, and the tracker test that skips a file whose checksum has not changed. */
module PdfExtract {
  import opened Wrappers
  import opened Text
  import opened Sequences

  // ---------------------------------------------------------------- course code

  /** Only this many leading characters are searched for a course code. */
  const HeaderLength: nat := 500

  /** `text[:500]`. */
  function Header(text: string): (h: string)
    ensures |h| <= HeaderLength && h <= text
    ensures |text| >= HeaderLength ==> |h| == HeaderLength
    ensures |text| <= HeaderLength ==> h == text
  {
    if |text| <= HeaderLength then text else text[..HeaderLength]
  }

  /** The pattern `[A-Z]{k}\s\d{4}`, for a letter count `k` from 2 to 5, matches at `i`. */
  predicate CodeMatch(h: string, i: nat, k: nat) {
    2 <= k <= 5 && i + k + 5 <= |h|
    && AllUpper(h[i..i + k]) && IsSpace(h[i + k]) && AllDigits(h[i + k + 1..i + k + 5])
  }

  /** At one start position at most one letter count matches: the character after the letters
      is a space, which no longer run of capitals can contain. */
  lemma CodeMatchUnique(h: string, i: nat, k1: nat, k2: nat)
    requires CodeMatch(h, i, k1) && CodeMatch(h, i, k2)
    ensures k1 == k2
  {
    assert IsUpper(h[i..i + k2][0]) && IsUpper(h[i..i + k1][0]);
  }

  /** The greedy `[A-Z]{2,5}`: the longest letter count first, backtracking down to two. */
  function LettersFrom(h: string, i: nat, k: nat): (r: Option<nat>)
    requires k <= 5
    ensures r.Some? ==> r.value <= k && CodeMatch(h, i, r.value)
    ensures r.None? ==> forall j: nat :: j <= k ==> !CodeMatch(h, i, j)
    decreases k
  {
    if k < 2 then None
    else if CodeMatch(h, i, k) then Some(k)
    else LettersFrom(h, i, k - 1)
  }

  /** The lazy `.*?` in front of the group: the first start position from `i` on at which the
      pattern matches, with its letter count. */
  function SearchFrom(h: string, i: nat): (r: Option<(nat, nat)>)
    ensures r.Some? ==> i <= r.value.0 && CodeMatch(h, r.value.0, r.value.1)
    ensures r.Some? ==> forall j, k :: i <= j < r.value.0 ==> !CodeMatch(h, j, k)
    ensures r.None? ==> forall j, k :: i <= j ==> !CodeMatch(h, j, k)
    decreases |h| - i
  {
    if i >= |h| then None
    else match LettersFrom(h, i, 5)
      case Some(k) => Some((i, k))
      case None => SearchFrom(h, i + 1)
  }

  /** `extract_course_code`: the group of the first match in the first 500 characters. */
  function ExtractCourseCode(text: string): Option<string>
  {
    var h := Header(text);
    match SearchFrom(h, 0)
    case Some((i, k)) => Some(h[i..i + k + 5])
    case None => None
  }

  /** Two to five capitals, one whitespace character, four digits. */
  predicate PdfCodeShape(c: string) {
    7 <= |c| <= 10
    && var k := |c| - 5;
    AllUpper(c[..k]) && IsSpace(c[k]) && AllDigits(c[k + 1..])
  }

  /** No code is returned exactly when no position of the header starts a match. */
  lemma ExtractNone(text: string)
    ensures ExtractCourseCode(text).None? <==> forall i, k :: !CodeMatch(Header(text), i, k)
  {
    var h := Header(text);
    match SearchFrom(h, 0)
    case Some((i, k)) =>
      assert CodeMatch(h, i, k);
    case None =>
  }

  /** The code returned is the match that starts earliest in the header. */
  lemma ExtractEarliest(text: string, i: nat, k: nat)
    requires CodeMatch(Header(text), i, k)
    requires forall j: nat, m: nat :: j < i ==> !CodeMatch(Header(text), j, m)
    ensures ExtractCourseCode(text) == Some(Header(text)[i..i + k + 5])
  {
    var h := Header(text);
    var r := SearchFrom(h, 0);
    if r.Some? {
      CodeMatchUnique(h, i, k, r.value.1);
    }
  }

  /** Every code returned has the course-code shape and occurs in the first 500 characters. */
  lemma ExtractShape(text: string)
    ensures ExtractCourseCode(text).Some? ==>
      var c := ExtractCourseCode(text).value;
      PdfCodeShape(c)
      && exists i: nat :: i + |c| <= HeaderLength && SubstringAt(text, c, i)
  {
    var h := Header(text);
    match SearchFrom(h, 0)
    case Some((i, k)) =>
      MatchShape(h, i, k);
      assert text[i..i + k + 5] == h[i..i + k + 5];
      assert SubstringAt(text, h[i..i + k + 5], i);
    case None =>
  }

  /** The text of a match has the course-code shape. */
  lemma MatchShape(h: string, i: nat, k: nat)
    requires CodeMatch(h, i, k)
    ensures PdfCodeShape(h[i..i + k + 5])
  {
    var c := h[i..i + k + 5];
    assert c[..k] == h[i..i + k];
    assert c[k] == h[i + k];
    assert c[k + 1..] == h[i + k + 1..i + k + 5];
  }

  /** The shape alone, for a code already extracted. */
  lemma ExtractedShape(text: string, c: string)
    requires ExtractCourseCode(text) == Some(c)
    ensures PdfCodeShape(c)
  {
    ExtractShape(text);
  }

  /** `c` occurs in `s` at position `i`. */
  predicate SubstringAt(s: string, c: string, i: nat) {
    i + |c| <= |s| && s[i..i + |c|] == c
  }

  /** Whatever follows the first 500 characters has no influence on the code. */
  lemma ExtractIgnoresTail(text: string, more: string)
    requires |text| >= HeaderLength
    ensures ExtractCourseCode(text + more) == ExtractCourseCode(text)
  {
    assert Header(text + more) == Header(text);
  }

  // ---------------------------------------------------------------- department

  /** The leading run of non-whitespace characters of `t`. */
  function TakeWord(t: string): (w: string)
    ensures w <= t
    ensures forall i :: 0 <= i < |w| ==> !IsSpace(w[i])
    ensures |w| < |t| ==> IsSpace(t[|w|])
  {
    if t == [] || IsSpace(t[0]) then [] else [t[0]] + TakeWord(t[1..])
  }

  /** `s.split()[0]`: the first whitespace-separated word, or None where Python would raise
      `IndexError` because `s` is blank. */
  function FirstWord(s: string): (r: Option<string>)
  {
    var t := StripLeft(s, Whitespace);
    if t == [] then None else Some(TakeWord(t))
  }

  /** `w` is a whole word of `s` at position `a` with only whitespace before it. */
  predicate WordAt(s: string, w: string, a: nat) {
    a + |w| <= |s| && s[a..a + |w|] == w && w != []
    && (forall i :: 0 <= i < a ==> IsSpace(s[i]))
    && (forall i :: 0 <= i < |w| ==> !IsSpace(w[i]))
    && (a + |w| < |s| ==> IsSpace(s[a + |w|]))
  }

  /** The first word is a non-empty run of non-whitespace, preceded only by whitespace and
      followed by whitespace or the end; it is missing only for a blank string. */
  lemma FirstWordShape(s: string)
    ensures FirstWord(s).None? <==> forall i :: 0 <= i < |s| ==> IsSpace(s[i])
    ensures FirstWord(s).Some? ==>
      var w := FirstWord(s).value;
      exists a: nat :: WordAt(s, w, a)
  {
    var t := StripLeft(s, Whitespace);
    StripLeftShape(s, Whitespace);
    forall c ensures IsSpace(c) <==> c in Whitespace { SpaceIsWhitespace(c); }
    if t != [] {
      var w := TakeWord(t);
      var a := |s| - |t|;
      assert t[0] !in Whitespace;
      assert w != [] by { assert [t[0]] <= w; }
      assert s[a..a + |w|] == t[..|w|] == w;
      if a + |w| < |s| { assert s[a + |w|] == t[|w|]; }
      assert WordAt(s, w, a);
    } else {
      assert forall i :: 0 <= i < |s| ==> s[i] in Whitespace;
    }
  }

  /** The department of an extracted code is its leading capitals. */
  lemma DepartmentOfCode(c: string)
    requires PdfCodeShape(c)
    ensures FirstWord(c) == Some(c[..|c| - 5])
    ensures 2 <= |c[..|c| - 5]| <= 5 && AllUpper(c[..|c| - 5])
  {
    var k := |c| - 5;
    assert c[0] == c[..k][0];
    SpaceIsWhitespace(c[0]);
    assert StripLeft(c, Whitespace) == c;
    TakeWordUpTo(c, k);
  }

  /** `TakeWord` stops at the first whitespace character. */
  lemma {:induction false} TakeWordUpTo(t: string, k: nat)
    requires k < |t| && IsSpace(t[k])
    requires forall i :: 0 <= i < k ==> !IsSpace(t[i])
    ensures TakeWord(t) == t[..k]
  {
    if k > 0 {
      TakeWordUpTo(t[1..], k - 1);
      assert t[..k] == [t[0]] + t[1..][..k - 1];
    }
  }

  // ---------------------------------------------------------------- chunks and ids

  /** The merged document's metadata once its code and department are known. */
  datatype DocMeta = DocMeta(sourceFile: string, checksum: string, courseCode: string, department: string)

  /** Extracting the course code and its department from the merged text: None when no code
      is found, and the file then counts as failed. */
  function DocumentMeta(name: string, checksum: string, text: string): (r: Option<DocMeta>)
    ensures r.None? <==> ExtractCourseCode(text).None?
    ensures r.Some? ==> Some(r.value.courseCode) == ExtractCourseCode(text)
    ensures r.Some? ==> var c := r.value.courseCode;
      PdfCodeShape(c) && r.value.department == c[..|c| - 5]
  {
    match ExtractCourseCode(text)
    case None => None
    case Some(c) =>
      ExtractedShape(text, c);
      DepartmentOfCode(c);
      Some(DocMeta(name, checksum, c, FirstWord(c).value))
  }

  /** The chunk metadata keys that the pipeline writes or reads. */
  datatype ChunkMeta = ChunkMeta(
    courseCode: Option<string>,
    department: Option<string>,
    source: Option<string>,
    sourceFile: Option<string>,
    checksum: Option<string>,
    chunkIndex: Option<nat>)

  /** The metadata of the chunk at position `i` after the pipeline has stamped it. */
  function Stamped(doc: DocMeta, i: nat): ChunkMeta {
    ChunkMeta(Some(doc.courseCode), Some(doc.department), Some("pdf"), Some(doc.sourceFile),
      Some(doc.checksum), Some(i))
  }

  /** The loop that copies the document's metadata onto each chunk and numbers the chunks
      from 0 in chunk order. */
  method StampChunks(chunks: seq<ChunkMeta>, doc: DocMeta) returns (stamped: seq<ChunkMeta>)
    ensures |stamped| == |chunks|
    ensures forall i :: 0 <= i < |stamped| ==> stamped[i] == Stamped(doc, i)
  {
    stamped := [];
    for i := 0 to |chunks|
      invariant |stamped| == i
      invariant forall j :: 0 <= j < i ==> stamped[j] == Stamped(doc, j)
    {
      var m := chunks[i];
      m := m.(courseCode := Some(doc.courseCode), department := Some(doc.department));
      m := m.(source := Some("pdf"), sourceFile := Some(doc.sourceFile));
      m := m.(checksum := Some(doc.checksum), chunkIndex := Some(i));
      stamped := stamped + [m];
    }
  }

  /** `s.replace(a, b)` for one-character `a` and `b`. */
  function ReplaceChar(s: string, a: char, b: char): (r: string)
    ensures |r| == |s|
  {
    seq(|s|, i requires 0 <= i < |s| => if s[i] == a then b else s[i])
  }

  const IdPrefix := "pdf_"
  const IndexTag := "_chunk_"

  /** The code part of an id: the course code with spaces turned into underscores, or
      "UNKNOWN" when the chunk has none. */
  function IdCode(m: ChunkMeta): string {
    ReplaceChar(m.courseCode.GetOr("UNKNOWN"), ' ', '_')
  }

  /** The id of one chunk, `pdf_{code}_chunk_{index}`, the index defaulting to 0. */
  function ChunkId(m: ChunkMeta): string {
    IdPrefix + IdCode(m) + IndexTag + NatToString(m.chunkIndex.GetOr(0))
  }

  /** `prepare_pdf_ids`: one id per chunk, in chunk order. */
  method PreparePdfIds(chunks: seq<ChunkMeta>) returns (ids: seq<string>)
    ensures |ids| == |chunks|
    ensures forall i :: 0 <= i < |chunks| ==> ids[i] == ChunkId(chunks[i])
  {
    ids := [];
    for i := 0 to |chunks|
      invariant |ids| == i
      invariant forall j :: 0 <= j < i ==> ids[j] == ChunkId(chunks[j])
    {
      var code := chunks[i].courseCode.GetOr("UNKNOWN");
      code := ReplaceChar(code, ' ', '_');
      var idx := chunks[i].chunkIndex.GetOr(0);
      ids := ids + [IdPrefix + code + IndexTag + NatToString(idx)];
    }
  }

  /** Two ids that share their code part differ exactly when their indices differ. */
  lemma ChunkIdIndex(m1: ChunkMeta, m2: ChunkMeta)
    requires IdCode(m1) == IdCode(m2)
    ensures ChunkId(m1) == ChunkId(m2) <==> m1.chunkIndex.GetOr(0) == m2.chunkIndex.GetOr(0)
  {
    var p := IdPrefix + IdCode(m1) + IndexTag;
    var n1, n2 := NatToString(m1.chunkIndex.GetOr(0)), NatToString(m2.chunkIndex.GetOr(0));
    if ChunkId(m1) == ChunkId(m2) {
      assert n1 == (p + n1)[|p|..] == (p + n2)[|p|..] == n2;
      NatToStringInjective(m1.chunkIndex.GetOr(0), m2.chunkIndex.GetOr(0));
    }
  }

  /** The chunks of one document, as stamped, get pairwise different ids. */
  lemma StampedIdsDistinct(chunks: seq<ChunkMeta>, doc: DocMeta)
    requires forall i :: 0 <= i < |chunks| ==> chunks[i] == Stamped(doc, i)
    ensures Distinct(seq(|chunks|, i requires 0 <= i < |chunks| => ChunkId(chunks[i])))
  {
    forall i, j | 0 <= i < j < |chunks|
      ensures ChunkId(chunks[i]) != ChunkId(chunks[j])
    {
      ChunkIdIndex(chunks[i], chunks[j]);
    }
  }

  /** A string of decimal digits contains no underscore. */
  lemma DigitsNoUnderscore(s: string)
    requires AllDigits(s)
    ensures '_' !in s
  {
  }

  /** The index is what follows the last underscore: from `x + "_" + n`, with no underscore
      in `n`, the suffix `n` is determined. */
  lemma LastUnderscore(x1: string, n1: string, x2: string, n2: string)
    requires '_' !in n1 && '_' !in n2
    requires x1 + "_" + n1 == x2 + "_" + n2
    ensures n1 == n2 && x1 == x2
  {
    var s := x1 + "_" + n1;
    assert s[|x1|] == '_' && (x2 + "_" + n2)[|x2|] == '_';
    assert n1 == s[|s| - |n1|..];
    assert n2 == (x2 + "_" + n2)[|s| - |n2|..];
    assert x1 == s[..|x1|];
    assert x2 == (x2 + "_" + n2)[..|x2|];
  }

  /** Replacing spaces with underscores loses nothing on strings without underscores. */
  lemma ReplaceInjective(c1: string, c2: string)
    requires '_' !in c1 && '_' !in c2
    requires ReplaceChar(c1, ' ', '_') == ReplaceChar(c2, ' ', '_')
    ensures c1 == c2
  {
    var r := ReplaceChar(c1, ' ', '_');
    forall i | 0 <= i < |c1| ensures c1[i] == c2[i] {
      assert r[i] == ReplaceChar(c2, ' ', '_')[i];
    }
  }

  /** For chunks whose course codes contain no underscore (every extracted code, and the
      "UNKNOWN" default), equal ids mean equal code and equal index. */
  lemma ChunkIdInjective(m1: ChunkMeta, m2: ChunkMeta)
    requires '_' !in m1.courseCode.GetOr("UNKNOWN") && '_' !in m2.courseCode.GetOr("UNKNOWN")
    ensures ChunkId(m1) == ChunkId(m2) <==>
      m1.courseCode.GetOr("UNKNOWN") == m2.courseCode.GetOr("UNKNOWN")
      && m1.chunkIndex.GetOr(0) == m2.chunkIndex.GetOr(0)
  {
    var n1, n2 := NatToString(m1.chunkIndex.GetOr(0)), NatToString(m2.chunkIndex.GetOr(0));
    if ChunkId(m1) == ChunkId(m2) {
      DigitsNoUnderscore(n1);
      DigitsNoUnderscore(n2);
      var x1 := IdPrefix + IdCode(m1) + "_chunk";
      var x2 := IdPrefix + IdCode(m2) + "_chunk";
      assert ChunkId(m1) == x1 + "_" + n1;
      assert ChunkId(m2) == x2 + "_" + n2;
      LastUnderscore(x1, n1, x2, n2);
      NatToStringInjective(m1.chunkIndex.GetOr(0), m2.chunkIndex.GetOr(0));
      assert IdCode(m1) == x1[4..|x1| - 6];
      assert IdCode(m2) == x2[4..|x2| - 6];
      ReplaceInjective(m1.courseCode.GetOr("UNKNOWN"), m2.courseCode.GetOr("UNKNOWN"));
    }
  }

  /** An extracted course code has no underscore, so chunks of PDFs with different codes
      never share an id. */
  lemma PdfCodeNoUnderscore(c: string)
    requires PdfCodeShape(c)
    ensures '_' !in c
  {
    var k := |c| - 5;
    assert c == c[..k] + [c[k]] + c[k + 1..];
  }

  /** Chunks stamped from documents with extracted codes share an id exactly when their
      documents have the same course code and the chunks the same position; a second PDF
      with the same code therefore reuses, and overwrites, the ids of the first. */
  lemma StampedIdsAcrossDocuments(d1: DocMeta, i1: nat, d2: DocMeta, i2: nat)
    requires PdfCodeShape(d1.courseCode) && PdfCodeShape(d2.courseCode)
    ensures ChunkId(Stamped(d1, i1)) == ChunkId(Stamped(d2, i2))
      <==> d1.courseCode == d2.courseCode && i1 == i2
  {
    PdfCodeNoUnderscore(d1.courseCode);
    PdfCodeNoUnderscore(d2.courseCode);
    ChunkIdInjective(Stamped(d1, i1), Stamped(d2, i2));
  }

  // ---------------------------------------------------------------- tracker

  /** What the tracker remembers about a processed file (the processing time is left out). */
  datatype TrackerEntry = TrackerEntry(checksum: string, courseCode: string, chunksCreated: nat)

  type Tracker = map<string, TrackerEntry>

  /** A file is skipped when the tracker already has it with the same checksum. */
  predicate SkipUnchanged(tracker: Tracker, name: string, checksum: string) {
    name in tracker && tracker[name].checksum == checksum
  }

  /** The tracker after a file has been processed successfully. */
  function RecordProcessed(tracker: Tracker, name: string, checksum: string, code: string,
    chunks: nat): (t: Tracker)
    ensures t.Keys == tracker.Keys + {name}
  {
    tracker[name := TrackerEntry(checksum, code, chunks)]
  }

  /** Once a file is recorded, the next run skips it exactly while its checksum is the same. */
  lemma RecordThenSkip(tracker: Tracker, name: string, checksum: string, code: string,
    chunks: nat, next: string)
    ensures SkipUnchanged(RecordProcessed(tracker, name, checksum, code, chunks), name, next)
      <==> next == checksum
  {
  }

  /** Recording one file changes the skip decision for no other file. */
  lemma RecordKeepsOthers(tracker: Tracker, name: string, checksum: string, code: string,
    chunks: nat, other: string, sum: string)
    requires other != name
    ensures SkipUnchanged(RecordProcessed(tracker, name, checksum, code, chunks), other, sum)
      == SkipUnchanged(tracker, other, sum)
  {
  }
}
