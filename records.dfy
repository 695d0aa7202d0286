/** The two tables of the course dataset and the fixed enumerations they are checked against. */
module Records {
  import opened Wrappers

  /** A course row as read from the source file; `None` is a null cell. */
  datatype RawCourse = RawCourse(
    code: Option<string>,
    name: Option<string>,
    credits: Option<int>,
    program: Option<string>,
    courseType: Option<string>)

  /** A course row with every required field present. */
  datatype Course = Course(code: string, name: string, credits: int, program: string, courseType: string)

  /** A prerequisite row as read: `course` requires `required`. */
  datatype RawPrereq = RawPrereq(course: Option<string>, required: Option<string>)

  /** A prerequisite edge: `course` requires `required`. */
  datatype Edge = Edge(course: string, required: string)

  const ValidProgramCodes: set<string> := {"MS_DAE", "MS_DS", "MS_CS", "MS_DA", "MS_IS"}
  const ValidCourseTypes: set<string> := {"Core", "Elective"}
  const ValidCredits: set<int> := {4}

  predicate Complete(r: RawCourse) {
    r.code.Some? && r.name.Some? && r.credits.Some? && r.program.Some? && r.courseType.Some?
  }

  predicate HasEndpoints(r: RawPrereq) { r.course.Some? && r.required.Some? }

  function CourseCodes(cs: seq<Course>): set<string> { set c | c in cs :: c.code }

  /** A cleaned course written back as a row, as when the cleaned table is read in again. */
  function AsRaw(c: Course): RawCourse {
    RawCourse(Some(c.code), Some(c.name), Some(c.credits), Some(c.program), Some(c.courseType))
  }

  function AsRawPrereq(e: Edge): RawPrereq { RawPrereq(Some(e.course), Some(e.required)) }

  function AsRawCourses(cs: seq<Course>): (rs: seq<RawCourse>)
    ensures |rs| == |cs| && forall i :: 0 <= i < |cs| ==> rs[i] == AsRaw(cs[i])
  {
    seq(|cs|, i requires 0 <= i < |cs| => AsRaw(cs[i]))
  }

  function AsRawPrereqs(es: seq<Edge>): (rs: seq<RawPrereq>)
    ensures |rs| == |es| && forall i :: 0 <= i < |es| ==> rs[i] == AsRawPrereq(es[i])
  {
    seq(|es|, i requires 0 <= i < |es| => AsRawPrereq(es[i]))
  }

  /** A row with no null field read as a course, values as they are. */
  function ToCourse(r: RawCourse): Course
    requires Complete(r)
  {
    Course(r.code.value, r.name.value, r.credits.value, r.program.value, r.courseType.value)
  }

  function ToCourses(rs: seq<RawCourse>): (cs: seq<Course>)
    requires forall r :: r in rs ==> Complete(r)
    ensures |cs| == |rs| && forall i :: 0 <= i < |rs| ==> cs[i] == ToCourse(rs[i])
  {
    seq(|rs|, i requires 0 <= i < |rs| => ToCourse(rs[i]))
  }

  function ToEdge(r: RawPrereq): Edge
    requires HasEndpoints(r)
  {
    Edge(r.course.value, r.required.value)
  }

  function ToEdges(rs: seq<RawPrereq>): (es: seq<Edge>)
    requires forall r :: r in rs ==> HasEndpoints(r)
    ensures |es| == |rs| && forall i :: 0 <= i < |rs| ==> es[i] == ToEdge(rs[i])
  {
    seq(|rs|, i requires 0 <= i < |rs| => ToEdge(rs[i]))
  }

  /** Writing a table out and reading it back gives the same table. */
  lemma CoursesRoundTrip(cs: seq<Course>)
    ensures forall r :: r in AsRawCourses(cs) ==> Complete(r)
    ensures ToCourses(AsRawCourses(cs)) == cs
  {
  }

  lemma EdgesRoundTrip(es: seq<Edge>)
    ensures forall r :: r in AsRawPrereqs(es) ==> HasEndpoints(r)
    ensures ToEdges(AsRawPrereqs(es)) == es
  {
  }
}
