/** The normalizer: cleans the raw course and prerequisite tables before they are validated
    and loaded (Data-Pipeline/scripts/preprocess_data.py). */
module Preprocess {
  import opened Wrappers
  import opened Text
  import opened Sequences
  import opened Records

  // ---------------------------------------------------------------- courses, stage by stage

  /** A course row after `.strip()` on the four string columns, `.upper()` on code and
      program and `.title()` on the type. The name keeps its case; credits are untouched. */
  function NormaliseCourse(r: RawCourse): Course
    requires Complete(r)
  {
    Course(
      Upper(Trim(r.code.value)),
      Trim(r.name.value),
      r.credits.value,
      Upper(Trim(r.program.value)),
      Title(Trim(r.courseType.value)))
  }

  function NormaliseCourses(rows: seq<RawCourse>): (cs: seq<Course>)
    requires forall r :: r in rows ==> Complete(r)
    ensures |cs| == |rows|
    ensures forall i :: 0 <= i < |rows| ==> cs[i] == NormaliseCourse(rows[i])
  {
    if rows == [] then []
    else NormaliseCourses(rows[..|rows| - 1]) + [NormaliseCourse(rows[|rows| - 1])]
  }

  lemma CodesSnoc(cs: seq<Course>, x: Course)
    ensures CourseCodes(cs + [x]) == CourseCodes(cs) + {x.code}
  {
    assert forall c :: c in cs + [x] <==> c in cs || c == x;
  }

  /** The position of the first row with `code`. */
  function FirstIndexOfCode(cs: seq<Course>, code: string): (i: nat)
    requires code in CourseCodes(cs)
    ensures i < |cs| && cs[i].code == code
    ensures forall j :: 0 <= j < i ==> cs[j].code != code
  {
    var init := cs[..|cs| - 1];
    assert cs == init + [cs[|cs| - 1]];
    if code in CourseCodes(init) then FirstIndexOfCode(init, code)
    else
      assert forall j :: 0 <= j < |init| ==> init[j] in init;
      |cs| - 1
  }

  lemma FirstIndexSnoc(cs: seq<Course>, x: Course, code: string)
    requires code in CourseCodes(cs)
    ensures code in CourseCodes(cs + [x])
    ensures FirstIndexOfCode(cs + [x], code) == FirstIndexOfCode(cs, code)
  {
    CodesSnoc(cs, x);
    assert (cs + [x])[..|cs|] == cs;
  }

  /** `drop_duplicates(subset=["course_code"])`: one row per code, in order, none lost. */
  function DedupByCode(cs: seq<Course>): (r: seq<Course>)
    ensures IsSubseq(r, cs)
    ensures CourseCodes(r) == CourseCodes(cs)
    ensures forall i, j :: 0 <= i < j < |r| ==> r[i].code != r[j].code
  {
    if cs == [] then []
    else
      var init := cs[..|cs| - 1];
      var x := cs[|cs| - 1];
      assert cs == init + [x];
      CodesSnoc(init, x);
      var r := DedupByCode(init);
      if x.code in CourseCodes(init) then
        SubseqExtend(r, init, x);
        r
      else
        DedupAppend(r, init, x);
        r + [x]
  }

  /** A row with a code not seen before is kept, and the kept codes stay distinct. */
  lemma DedupAppend(r: seq<Course>, init: seq<Course>, x: Course)
    requires IsSubseq(r, init) && CourseCodes(r) == CourseCodes(init)
    requires forall i, j :: 0 <= i < j < |r| ==> r[i].code != r[j].code
    requires x.code !in CourseCodes(init)
    ensures IsSubseq(r + [x], init + [x]) && CourseCodes(r + [x]) == CourseCodes(init + [x])
    ensures forall i, j :: 0 <= i < j < |r + [x]| ==> (r + [x])[i].code != (r + [x])[j].code
  {
    SubseqSnoc(r, init, x);
    CodesSnoc(r, x);
    CodesSnoc(init, x);
    forall i | 0 <= i < |r|
      ensures r[i].code in CourseCodes(init)
    {
      assert r[i] in r;
    }
  }

  /** The row kept for each code is the first row with that code. */
  lemma {:induction false} DedupByCodeKeepsFirst(cs: seq<Course>)
    ensures forall c :: c in DedupByCode(cs) ==>
      c.code in CourseCodes(cs) && c == cs[FirstIndexOfCode(cs, c.code)]
  {
    if cs != [] {
      var init := cs[..|cs| - 1];
      var x := cs[|cs| - 1];
      assert cs == init + [x];
      DedupByCodeKeepsFirst(init);
      var r := DedupByCode(init);
      forall c | c in r
        ensures c.code in CourseCodes(cs) && c == cs[FirstIndexOfCode(cs, c.code)]
      {
        FirstIndexSnoc(init, x, c.code);
      }
      if x.code !in CourseCodes(init) {
        CodesSnoc(init, x);
        assert FirstIndexOfCode(cs, x.code) == |cs| - 1;
      }
    }
  }

  predicate HasValidProgram(c: Course) { c.program in ValidProgramCodes }
  predicate HasValidType(c: Course) { c.courseType in ValidCourseTypes }

  /** The rows that reach the de-duplication step: nulls dropped first, then normalised. */
  function NormalisedCourses(raw: seq<RawCourse>): seq<Course> {
    NormaliseCourses(Filter(raw, Complete))
  }

  /** `preprocess_courses` as one expression: drop rows with a null required field, normalise,
      keep the first row of each code, then keep valid programs and valid types. */
  function CleanCourses(raw: seq<RawCourse>): seq<Course> {
    Filter(Filter(DedupByCode(NormalisedCourses(raw)), HasValidProgram), HasValidType)
  }

  /** Rows whose credits are not the expected value; they are only reported, never removed. */
  function UnexpectedCredits(cs: seq<Course>): (r: seq<Course>)
    ensures forall c :: c in r <==> c in cs && c.credits !in ValidCredits
  {
    Filter(cs, (c: Course) => c.credits !in ValidCredits)
  }

  /** The credits test runs on the cleaned rows and removes nothing: the first row of a code
      with a valid program and type is kept whatever its credits, and is reported when its
      credits are unexpected. */
  lemma UnexpectedCreditsKept(raw: seq<RawCourse>, code: string)
    requires code in CourseCodes(NormalisedCourses(raw))
    ensures var n := NormalisedCourses(raw);
      var first := n[FirstIndexOfCode(n, code)];
      HasValidProgram(first) && HasValidType(first) ==>
        && first in CleanCourses(raw)
        && (first in UnexpectedCredits(CleanCourses(raw)) <==> first.credits !in ValidCredits)
    ensures forall c :: c in UnexpectedCredits(CleanCourses(raw)) ==> c in CleanCourses(raw)
  {
    CleanCoursesFirstWins(raw, code);
  }

  /** The string-normalisation pass over rows that have no null field. */
  method NormaliseCourseRows(rows: seq<RawCourse>) returns (cs: seq<Course>)
    requires forall r :: r in rows ==> Complete(r)
    ensures cs == NormaliseCourses(rows)
  {
    cs := [];
    var i := 0;
    while i < |rows|
      invariant i <= |rows|
      invariant cs == NormaliseCourses(rows[..i])
    {
      assert rows[..i + 1] == rows[..i] + [rows[i]];
      cs := cs + [NormaliseCourse(rows[i])];
      i := i + 1;
    }
    assert rows[..i] == rows;
  }

  /** `drop_duplicates(subset=["course_code"])`, remembering the codes seen so far. */
  method DropDuplicateCodes(cs: seq<Course>) returns (r: seq<Course>)
    ensures r == DedupByCode(cs)
  {
    r := [];
    var seen: set<string> := {};
    var i := 0;
    while i < |cs|
      invariant i <= |cs|
      invariant r == DedupByCode(cs[..i])
      invariant seen == CourseCodes(cs[..i])
    {
      assert cs[..i + 1] == cs[..i] + [cs[i]];
      CodesSnoc(cs[..i], cs[i]);
      if cs[i].code !in seen {
        r := r + [cs[i]];
      }
      seen := seen + {cs[i].code};
      i := i + 1;
    }
    assert cs[..i] == cs;
  }

  /** `preprocess_courses`: the frame is rebound stage by stage. */
  method PreprocessCourses(raw: seq<RawCourse>) returns (df: seq<Course>)
    ensures df == CleanCourses(raw)
  {
    var complete := SelectWhere(raw, Complete);
    var normalised := NormaliseCourseRows(complete);
    var unique := DropDuplicateCodes(normalised);
    var programs := SelectWhere(unique, HasValidProgram);
    df := SelectWhere(programs, HasValidType);
  }

  // ---------------------------------------------------------------- properties of the course cleaner

  /** The casing the normalizer promises. */
  predicate IsNormalised(c: Course) {
    && IsTrimmed(c.code) && Upper(c.code) == c.code
    && IsTrimmed(c.name)
    && IsTrimmed(c.program) && Upper(c.program) == c.program
    && IsTrimmed(c.courseType) && Title(c.courseType) == c.courseType
  }

  lemma NormaliseCourseIsNormalised(r: RawCourse)
    requires Complete(r)
    ensures IsNormalised(NormaliseCourse(r))
  {
    StripShape(r.code.value, Whitespace);
    StripShape(r.name.value, Whitespace);
    StripShape(r.program.value, Whitespace);
    StripShape(r.courseType.value, Whitespace);
    UpperKeepsTrimmed(Trim(r.code.value));
    UpperIdempotent(Trim(r.code.value));
    UpperKeepsTrimmed(Trim(r.program.value));
    UpperIdempotent(Trim(r.program.value));
    TitleKeepsTrimmed(Trim(r.courseType.value));
    TitleFromIdempotent(Trim(r.courseType.value), false);
  }

  /** A normalised row is its own normal form. */
  lemma NormaliseNormalised(c: Course)
    requires IsNormalised(c)
    ensures NormaliseCourse(AsRaw(c)) == c
  {
    StripStripped(c.code, Whitespace);
    StripStripped(c.name, Whitespace);
    StripStripped(c.program, Whitespace);
    StripStripped(c.courseType, Whitespace);
  }

  /** Every cleaned row is a normalised row, in input order and with its credits as read. */
  lemma CleanCoursesSubseq(raw: seq<RawCourse>)
    ensures IsSubseq(CleanCourses(raw), NormalisedCourses(raw))
  {
    var u := DedupByCode(NormalisedCourses(raw));
    var p := Filter(u, HasValidProgram);
    SubseqTrans(p, u, NormalisedCourses(raw));
    SubseqTrans(CleanCourses(raw), p, NormalisedCourses(raw));
  }

  /** A row with a null required field contributes nothing: each cleaned row is the
      normalisation of a complete input row. */
  lemma CleanCoursesFromCompleteRows(raw: seq<RawCourse>, c: Course)
    requires c in CleanCourses(raw)
    ensures exists r :: r in raw && Complete(r) && c == NormaliseCourse(r)
  {
    CleanCoursesSubseq(raw);
    SubseqMember(CleanCourses(raw), NormalisedCourses(raw), c);
    var complete := Filter(raw, Complete);
    var k :| 0 <= k < |NormalisedCourses(raw)| && NormalisedCourses(raw)[k] == c;
    assert complete[k] in complete;
  }

  /** Output casing, enumerations and uniqueness. */
  lemma CleanCoursesWellFormed(raw: seq<RawCourse>)
    ensures forall c :: c in CleanCourses(raw) ==>
      IsNormalised(c) && c.program in ValidProgramCodes && c.courseType in ValidCourseTypes
    ensures forall i, j :: 0 <= i < j < |CleanCourses(raw)| ==>
      CleanCourses(raw)[i].code != CleanCourses(raw)[j].code
  {
    var out := CleanCourses(raw);
    forall c | c in out
      ensures IsNormalised(c)
    {
      CleanCoursesFromCompleteRows(raw, c);
      var r :| r in raw && Complete(r) && c == NormaliseCourse(r);
      NormaliseCourseIsNormalised(r);
    }
    var u := DedupByCode(NormalisedCourses(raw));
    var p := Filter(u, HasValidProgram);
    SubseqTrans(out, p, u);
    SubseqDistinctCodes(out, u);
  }

  lemma {:induction false} SubseqDistinctCodes(a: seq<Course>, b: seq<Course>)
    requires IsSubseq(a, b)
    requires forall i, j :: 0 <= i < j < |b| ==> b[i].code != b[j].code
    ensures forall i, j :: 0 <= i < j < |a| ==> a[i].code != a[j].code
    decreases |b|
  {
    if a != [] {
      var a', b' := a[..|a| - 1], b[..|b| - 1];
      if a[|a| - 1] == b[|b| - 1] {
        SubseqDistinctCodes(a', b');
        forall i | 0 <= i < |a'|
          ensures a'[i].code != a[|a| - 1].code
        {
          SubseqMember(a', b', a'[i]);
          var k :| 0 <= k < |b'| && b'[k] == a'[i];
          assert b[k] == b'[k];
        }
        assert forall i :: 0 <= i < |a'| ==> a[i] == a'[i];
      } else {
        SubseqDistinctCodes(a, b');
      }
    }
  }

  /** First occurrence wins: among normalised rows sharing a code, only the first can appear,
      and it appears exactly when its program and type are valid. So when the first row of a
      code is invalid, no row with that code survives. */
  lemma CleanCoursesFirstWins(raw: seq<RawCourse>, code: string)
    requires code in CourseCodes(NormalisedCourses(raw))
    ensures var n := NormalisedCourses(raw);
      var first := n[FirstIndexOfCode(n, code)];
      && (forall c :: c in CleanCourses(raw) && c.code == code ==> c == first)
      && (first in CleanCourses(raw) <==> HasValidProgram(first) && HasValidType(first))
  {
    var n := NormalisedCourses(raw);
    var first := n[FirstIndexOfCode(n, code)];
    var u := DedupByCode(n);
    DedupByCodeKeepsFirst(n);
    KeptRowIsFirst(n, u, code, first);
    FilterTwice(u, HasValidProgram, HasValidType);
  }

  /** In the de-duplicated rows, the row with `code` is exactly the first input row with it. */
  lemma KeptRowIsFirst(n: seq<Course>, u: seq<Course>, code: string, first: Course)
    requires code in CourseCodes(n) && first == n[FirstIndexOfCode(n, code)]
    requires u == DedupByCode(n)
    requires forall c :: c in u ==> c.code in CourseCodes(n) && c == n[FirstIndexOfCode(n, c.code)]
    ensures first in u
    ensures forall c :: c in u && c.code == code ==> c == first
  {
    assert code in CourseCodes(u);
    var d :| d in u && d.code == code;
  }

  lemma FilterTwice<T(!new)>(s: seq<T>, p: T -> bool, q: T -> bool)
    ensures forall x :: x in Filter(Filter(s, p), q) <==> x in s && p(x) && q(x)
  {
  }

  // ---------------------------------------------------------------- prerequisites

  function NormaliseEdge(r: RawPrereq): Edge
    requires HasEndpoints(r)
  {
    Edge(Upper(Trim(r.course.value)), Upper(Trim(r.required.value)))
  }

  function NormaliseEdges(rows: seq<RawPrereq>): (es: seq<Edge>)
    requires forall r :: r in rows ==> HasEndpoints(r)
    ensures |es| == |rows|
    ensures forall i :: 0 <= i < |rows| ==> es[i] == NormaliseEdge(rows[i])
  {
    if rows == [] then []
    else NormaliseEdges(rows[..|rows| - 1]) + [NormaliseEdge(rows[|rows| - 1])]
  }

  /** Both endpoints are known course codes. */
  function EndpointsIn(valid: set<string>): Edge -> bool {
    (e: Edge) => e.course in valid && e.required in valid
  }

  function NormalisedEdges(raw: seq<RawPrereq>): seq<Edge> {
    NormaliseEdges(Filter(raw, HasEndpoints))
  }

  /** `preprocess_prerequisites` as one expression: drop rows with a null endpoint, normalise
      both endpoints, drop repeated pairs, then drop edges with an unknown endpoint. */
  function CleanPrereqs(raw: seq<RawPrereq>, valid: set<string>): seq<Edge> {
    Filter(Dedup(NormalisedEdges(raw)), EndpointsIn(valid))
  }

  method NormaliseEdgeRows(rows: seq<RawPrereq>) returns (es: seq<Edge>)
    requires forall r :: r in rows ==> HasEndpoints(r)
    ensures es == NormaliseEdges(rows)
  {
    es := [];
    var i := 0;
    while i < |rows|
      invariant i <= |rows|
      invariant es == NormaliseEdges(rows[..i])
    {
      assert rows[..i + 1] == rows[..i] + [rows[i]];
      es := es + [NormaliseEdge(rows[i])];
      i := i + 1;
    }
    assert rows[..i] == rows;
  }

  /** `preprocess_prerequisites`: the frame is rebound stage by stage. */
  method PreprocessPrerequisites(raw: seq<RawPrereq>, valid: set<string>) returns (df: seq<Edge>)
    ensures df == CleanPrereqs(raw, valid)
  {
    var present := SelectWhere(raw, HasEndpoints);
    var normalised := NormaliseEdgeRows(present);
    var unique := DropDuplicates(normalised);
    df := SelectWhere(unique, EndpointsIn(valid));
  }

  /** Every cleaned edge: endpoints present, trimmed and upper-cased, both known, pairs unique.
      Self-loops are not removed. */
  lemma CleanPrereqsWellFormed(raw: seq<RawPrereq>, valid: set<string>)
    ensures Distinct(CleanPrereqs(raw, valid))
    ensures forall e :: e in CleanPrereqs(raw, valid) ==>
      && e.course in valid && e.required in valid
      && IsTrimmed(e.course) && Upper(e.course) == e.course
      && IsTrimmed(e.required) && Upper(e.required) == e.required
      && exists r :: r in raw && HasEndpoints(r) && e == NormaliseEdge(r)
    ensures forall r :: r in raw && HasEndpoints(r) && EndpointsIn(valid)(NormaliseEdge(r)) ==>
      NormaliseEdge(r) in CleanPrereqs(raw, valid)
  {
    var present := Filter(raw, HasEndpoints);
    var n := NormalisedEdges(raw);
    var u := Dedup(n);
    var out := CleanPrereqs(raw, valid);
    SubseqDistinct(out, u);
    forall e | e in out
      ensures IsTrimmed(e.course) && Upper(e.course) == e.course
      ensures IsTrimmed(e.required) && Upper(e.required) == e.required
      ensures exists r :: r in raw && HasEndpoints(r) && e == NormaliseEdge(r)
    {
      var k :| 0 <= k < |n| && n[k] == e;
      var r := present[k];
      assert r in present;
      StripShape(r.course.value, Whitespace);
      StripShape(r.required.value, Whitespace);
      UpperKeepsTrimmed(Trim(r.course.value));
      UpperIdempotent(Trim(r.course.value));
      UpperKeepsTrimmed(Trim(r.required.value));
      UpperIdempotent(Trim(r.required.value));
    }
    forall r | r in raw && HasEndpoints(r) && EndpointsIn(valid)(NormaliseEdge(r))
      ensures NormaliseEdge(r) in out
    {
      var k :| 0 <= k < |present| && present[k] == r;
      assert n[k] == NormaliseEdge(r);
    }
  }

  lemma {:induction false} SubseqDistinct<T>(a: seq<T>, b: seq<T>)
    requires IsSubseq(a, b) && Distinct(b)
    ensures Distinct(a)
    decreases |b|
  {
    if a != [] {
      var a', b' := a[..|a| - 1], b[..|b| - 1];
      assert forall i :: 0 <= i < |a'| ==> a[i] == a'[i];
      if a[|a| - 1] == b[|b| - 1] {
        SubseqDistinct(a', b');
        forall i | 0 <= i < |a'|
          ensures a'[i] != a[|a| - 1]
        {
          SubseqMember(a', b', a'[i]);
        }
      } else {
        SubseqDistinct(a, b');
      }
    }
  }

  // ---------------------------------------------------------------- the whole normalizer

  /** `preprocess_data`: the prerequisites are cleaned against exactly the cleaned codes. */
  function CleanData(rawCourses: seq<RawCourse>, rawPrereqs: seq<RawPrereq>): (seq<Course>, seq<Edge>) {
    var courses := CleanCourses(rawCourses);
    (courses, CleanPrereqs(rawPrereqs, CourseCodes(courses)))
  }

  method PreprocessData(rawCourses: seq<RawCourse>, rawPrereqs: seq<RawPrereq>)
    returns (courses: seq<Course>, prereqs: seq<Edge>)
    ensures (courses, prereqs) == CleanData(rawCourses, rawPrereqs)
  {
    courses := PreprocessCourses(rawCourses);
    var validCodes := set c | c in courses :: c.code;
    prereqs := PreprocessPrerequisites(rawPrereqs, validCodes);
  }

  /** Referential closure holds by construction: every cleaned edge joins two cleaned courses. */
  lemma CleanDataClosed(rawCourses: seq<RawCourse>, rawPrereqs: seq<RawPrereq>)
    ensures var (courses, prereqs) := CleanData(rawCourses, rawPrereqs);
      forall e :: e in prereqs ==> e.course in CourseCodes(courses) && e.required in CourseCodes(courses)
  {
    var courses := CleanCourses(rawCourses);
    CleanPrereqsWellFormed(rawPrereqs, CourseCodes(courses));
  }

  lemma NormaliseCoursesFixed(cs: seq<Course>)
    requires forall c :: c in cs ==> IsNormalised(c)
    ensures forall r :: r in AsRawCourses(cs) ==> Complete(r)
    ensures NormaliseCourses(AsRawCourses(cs)) == cs
  {
    CoursesRoundTrip(cs);
    var raw := AsRawCourses(cs);
    var n := NormaliseCourses(raw);
    forall i | 0 <= i < |cs|
      ensures n[i] == cs[i]
    {
      assert cs[i] in cs;
      NormaliseNormalised(cs[i]);
    }
  }

  predicate IsNormalEdge(e: Edge) {
    IsTrimmed(e.course) && Upper(e.course) == e.course && IsTrimmed(e.required) && Upper(e.required) == e.required
  }

  lemma NormaliseEdgesFixed(es: seq<Edge>)
    requires forall e :: e in es ==> IsNormalEdge(e)
    ensures forall r :: r in AsRawPrereqs(es) ==> HasEndpoints(r)
    ensures NormaliseEdges(AsRawPrereqs(es)) == es
  {
    EdgesRoundTrip(es);
    var n := NormaliseEdges(AsRawPrereqs(es));
    forall i | 0 <= i < |es|
      ensures n[i] == es[i]
    {
      assert es[i] in es;
      StripStripped(es[i].course, Whitespace);
      StripStripped(es[i].required, Whitespace);
    }
  }

  lemma {:induction false} DedupByCodeDistinct(cs: seq<Course>)
    requires forall i, j :: 0 <= i < j < |cs| ==> cs[i].code != cs[j].code
    ensures DedupByCode(cs) == cs
  {
    if cs != [] {
      var init := cs[..|cs| - 1];
      assert cs == init + [cs[|cs| - 1]];
      DedupByCodeDistinct(init);
      assert cs[|cs| - 1].code !in CourseCodes(init);
    }
  }

  /** Running the normalizer on its own output changes nothing. */
  lemma CleanDataIdempotent(rawCourses: seq<RawCourse>, rawPrereqs: seq<RawPrereq>)
    ensures var (courses, prereqs) := CleanData(rawCourses, rawPrereqs);
      CleanData(AsRawCourses(courses), AsRawPrereqs(prereqs)) == (courses, prereqs)
  {
    var (courses, prereqs) := CleanData(rawCourses, rawPrereqs);
    CleanCoursesWellFormed(rawCourses);
    var raw' := AsRawCourses(courses);
    NormaliseCoursesFixed(courses);
    FilterAll(raw', Complete);
    DedupByCodeDistinct(courses);
    FilterAll(courses, HasValidProgram);
    FilterAll(courses, HasValidType);
    assert CleanCourses(raw') == courses;

    CleanPrereqsWellFormed(rawPrereqs, CourseCodes(courses));
    var rawP := AsRawPrereqs(prereqs);
    NormaliseEdgesFixed(prereqs);
    FilterAll(rawP, HasEndpoints);
    DedupDistinct(prereqs);
    FilterAll(prereqs, EndpointsIn(CourseCodes(courses)));
  }
}
