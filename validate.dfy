/** The schema validator and the statistics report (Data-Pipeline/scripts/validate_data.py).
    A data frame is its set of column labels and its rows; a cell of a column the frame lacks
    is never read. */
module Validate {
  import opened Wrappers
  import opened Sequences
  import opened Records

  /** The column labels the validator knows; a frame's other columns are never read. */
  datatype Column = CourseCodeCol | CourseNameCol | CreditsCol | ProgramCodeCol | CourseTypeCol | RequiredCourseCodeCol
  {
    function Label(): string {
      match this
      case CourseCodeCol => "course_code"
      case CourseNameCol => "course_name"
      case CreditsCol => "credits"
      case ProgramCodeCol => "program_code"
      case CourseTypeCol => "course_type"
      case RequiredCourseCodeCol => "required_course_code"
    }
  }

  const RequiredCourseColumns: set<Column> :=
    {CourseCodeCol, CourseNameCol, CreditsCol, ProgramCodeCol, CourseTypeCol}
  const RequiredPrereqColumns: set<Column> := {CourseCodeCol, RequiredCourseCodeCol}

  /** The columns `validate_courses` indexes directly, in the order it does so; the first one
      missing raises `KeyError`. */
  const CourseAccessOrder: seq<Column> := [CourseCodeCol, ProgramCodeCol, CourseTypeCol, CreditsCol]

  datatype CourseFrame = CourseFrame(columns: set<Column>, rows: seq<RawCourse>)
  datatype PrereqFrame = PrereqFrame(columns: set<Column>, rows: seq<RawPrereq>)

  /** One entry of a violation list; the fields are the entries of the reported dict. */
  datatype Violation =
    | RequiredColumns(missing: set<Column>)
    | NoNulls(column: Column, nullCount: nat)
    | UniqueCourseCode(duplicateCount: nat)
    | ValidProgramCode(invalidValues: seq<Option<string>>)
    | ValidCourseType(invalidValues: seq<Option<string>>)
    | PositiveCredits
    | UniquePrereqPairs(duplicateCount: nat)
    | NoSelfReference(selfRefs: seq<string>)
    | ValidFkReferences

  /** The exceptions the validator lets escape. */
  datatype Raised = KeyError(column: Column) | ValueError(violationCount: nat)

  /** `order` is an iteration order of the set `s`: each element exactly once. Python leaves the
      order in which a set is iterated unspecified, so the model takes it as a parameter. */
  ghost predicate Enumerates(order: seq<Column>, s: set<Column>) {
    Distinct(order) && forall c :: c in order <==> c in s
  }

  // ---------------------------------------------------------------- shared checks

  function MissingColumnsCheck(columns: set<Column>, required: set<Column>): seq<Violation> {
    var missing := required - columns;
    if missing != {} then [RequiredColumns(missing)] else []
  }

  /** The missing-columns check is silent exactly when every required column is present. */
  lemma MissingColumnsSilent(columns: set<Column>, required: set<Column>)
    ensures MissingColumnsCheck(columns, required) == [] <==> required <= columns
  {
    if !(required <= columns) {
      var x :| x in required && x !in columns;
      assert x in required - columns;
    }
  }

  /** The `no_nulls` loop over `cols`, given each column's null count. */
  function NullChecks(cols: seq<Column>, count: Column -> nat): seq<Violation> {
    if cols == [] then []
    else
      var col := cols[|cols| - 1];
      NullChecks(cols[..|cols| - 1], count) + (if count(col) > 0 then [NoNulls(col, count(col))] else [])
  }

  /** The null checks report exactly the listed columns that hold a null, each with its count. */
  lemma {:induction false} NullChecksMeaning(cols: seq<Column>, count: Column -> nat)
    ensures forall v :: v in NullChecks(cols, count) ==>
      v.NoNulls? && v.column in cols && v.nullCount == count(v.column) > 0
    ensures forall c :: c in cols && count(c) > 0 ==> NoNulls(c, count(c)) in NullChecks(cols, count)
  {
    if cols != [] {
      var init := cols[..|cols| - 1];
      assert cols == init + [cols[|cols| - 1]];
      NullChecksMeaning(init, count);
    }
  }

  lemma NullChecksEmpty(cols: seq<Column>, count: Column -> nat)
    ensures NullChecks(cols, count) == [] <==> forall c :: c in cols ==> count(c) == 0
  {
    NullChecksMeaning(cols, count);
    if NullChecks(cols, count) != [] {
      assert NullChecks(cols, count)[0] in NullChecks(cols, count);
    }
  }

  /** The `for col in ...` loop: one `no_nulls` entry per column with a null, in loop order. */
  method ReportNulls(cols: seq<Column>, count: Column -> nat) returns (violations: seq<Violation>)
    ensures violations == NullChecks(cols, count)
  {
    violations := [];
    var i := 0;
    while i < |cols|
      invariant i <= |cols|
      invariant violations == NullChecks(cols[..i], count)
    {
      assert cols[..i + 1][..i] == cols[..i];
      var col := cols[i];
      var nullCount := count(col);
      if nullCount > 0 {
        violations := violations + [NoNulls(col, nullCount)];
      }
      i := i + 1;
    }
    assert cols[..i] == cols;
  }

  // ---------------------------------------------------------------- courses

  predicate CourseNullAt(r: RawCourse, col: Column) {
    if col == CourseCodeCol then r.code.None?
    else if col == CourseNameCol then r.name.None?
    else if col == CreditsCol then r.credits.None?
    else if col == ProgramCodeCol then r.program.None?
    else if col == CourseTypeCol then r.courseType.None?
    else false
  }

  function CourseNullIn(col: Column): RawCourse -> bool {
    (r: RawCourse) => CourseNullAt(r, col)
  }

  /** `df[col].isnull().sum()`. */
  function CourseNullCount(rows: seq<RawCourse>, col: Column): nat {
    |Filter(rows, CourseNullIn(col))|
  }

  function CourseNullCounter(rows: seq<RawCourse>): Column -> nat {
    (col: Column) => CourseNullCount(rows, col)
  }

  function CodeColumn(rows: seq<RawCourse>): (s: seq<Option<string>>)
    ensures |s| == |rows| && forall i :: 0 <= i < |rows| ==> s[i] == rows[i].code
  {
    seq(|rows|, i requires 0 <= i < |rows| => rows[i].code)
  }

  function ProgramColumn(rows: seq<RawCourse>): (s: seq<Option<string>>)
    ensures |s| == |rows| && forall i :: 0 <= i < |rows| ==> s[i] == rows[i].program
  {
    seq(|rows|, i requires 0 <= i < |rows| => rows[i].program)
  }

  function TypeColumn(rows: seq<RawCourse>): (s: seq<Option<string>>)
    ensures |s| == |rows| && forall i :: 0 <= i < |rows| ==> s[i] == rows[i].courseType
  {
    seq(|rows|, i requires 0 <= i < |rows| => rows[i].courseType)
  }

  /** `isin` never matches a null, so a null program or type counts as invalid. */
  predicate InvalidProgramCell(v: Option<string>) { !(v.Some? && v.value in ValidProgramCodes) }
  predicate InvalidTypeCell(v: Option<string>) { !(v.Some? && v.value in ValidCourseTypes) }

  /** `credits <= 0`; a null compares false. */
  predicate NonPositiveCredits(r: RawCourse) { r.credits.Some? && r.credits.value <= 0 }

  function DuplicateCodeCheck(rows: seq<RawCourse>): seq<Violation> {
    var dupes := RepeatCount(CodeColumn(rows));
    if dupes > 0 then [UniqueCourseCode(dupes)] else []
  }

  function ProgramCheck(rows: seq<RawCourse>): seq<Violation> {
    var invalid := Filter(ProgramColumn(rows), InvalidProgramCell);
    if |invalid| > 0 then [ValidProgramCode(Dedup(invalid))] else []
  }

  function TypeCheck(rows: seq<RawCourse>): seq<Violation> {
    var invalid := Filter(TypeColumn(rows), InvalidTypeCell);
    if |invalid| > 0 then [ValidCourseType(Dedup(invalid))] else []
  }

  function CreditsCheck(rows: seq<RawCourse>): seq<Violation> {
    if exists r :: r in rows && NonPositiveCredits(r) then [PositiveCredits] else []
  }

  /** `validate_courses`: the violations in the order they are appended, or the `KeyError`
      raised when a column it indexes is missing. */
  function CourseViolations(f: CourseFrame, order: seq<Column>): Result<seq<Violation>, Raised>
    requires Enumerates(order, RequiredCourseColumns * f.columns)
  {
    var head := MissingColumnsCheck(f.columns, RequiredCourseColumns) + NullChecks(order, CourseNullCounter(f.rows));
    if CourseCodeCol !in f.columns then Failure(KeyError(CourseCodeCol))
    else if ProgramCodeCol !in f.columns then Failure(KeyError(ProgramCodeCol))
    else if CourseTypeCol !in f.columns then Failure(KeyError(CourseTypeCol))
    else if CreditsCol !in f.columns then Failure(KeyError(CreditsCol))
    else Success(head + DuplicateCodeCheck(f.rows) + ProgramCheck(f.rows) + TypeCheck(f.rows) + CreditsCheck(f.rows))
  }

  /** `validate_courses`, appending to the violation list check by check. */
  method ValidateCourses(f: CourseFrame, order: seq<Column>) returns (r: Result<seq<Violation>, Raised>)
    requires Enumerates(order, RequiredCourseColumns * f.columns)
    ensures r == CourseViolations(f, order)
  {
    var violations: seq<Violation> := [];
    var missing := RequiredCourseColumns - f.columns;
    if missing != {} {
      violations := violations + [RequiredColumns(missing)];
    }
    assert violations == MissingColumnsCheck(f.columns, RequiredCourseColumns);
    var nullViolations := ReportNulls(order, CourseNullCounter(f.rows));
    violations := violations + nullViolations;
    ghost var head := violations;
    if CourseCodeCol !in f.columns {
      return Failure(KeyError(CourseCodeCol));
    }
    var dupes := RepeatCount(CodeColumn(f.rows));
    if dupes > 0 {
      violations := violations + [UniqueCourseCode(dupes)];
    }
    assert violations == head + DuplicateCodeCheck(f.rows);
    if ProgramCodeCol !in f.columns {
      return Failure(KeyError(ProgramCodeCol));
    }
    var invalid := SelectWhere(ProgramColumn(f.rows), InvalidProgramCell);
    if |invalid| > 0 {
      var values := DropDuplicates(invalid);
      violations := violations + [ValidProgramCode(values)];
    }
    assert violations == head + DuplicateCodeCheck(f.rows) + ProgramCheck(f.rows);
    if CourseTypeCol !in f.columns {
      return Failure(KeyError(CourseTypeCol));
    }
    invalid := SelectWhere(TypeColumn(f.rows), InvalidTypeCell);
    if |invalid| > 0 {
      var values := DropDuplicates(invalid);
      violations := violations + [ValidCourseType(values)];
    }
    assert violations == head + DuplicateCodeCheck(f.rows) + ProgramCheck(f.rows) + TypeCheck(f.rows);
    if CreditsCol !in f.columns {
      return Failure(KeyError(CreditsCol));
    }
    var anyNonPositive := exists row :: row in f.rows && NonPositiveCredits(row);
    if anyNonPositive {
      violations := violations + [PositiveCredits];
    }
    assert violations == head + DuplicateCodeCheck(f.rows) + ProgramCheck(f.rows) + TypeCheck(f.rows) + CreditsCheck(f.rows);
    r := Success(violations);
  }

  /** The violation list is the required-columns entry, the null checks, then one entry per
      failed check on the rows. */
  lemma CourseViolationParts(f: CourseFrame, order: seq<Column>)
    requires Enumerates(order, RequiredCourseColumns * f.columns)
    requires CourseViolations(f, order).Success?
    ensures forall v :: v in CourseViolations(f, order).value <==>
      || v in MissingColumnsCheck(f.columns, RequiredCourseColumns)
      || v in NullChecks(order, CourseNullCounter(f.rows))
      || v in DuplicateCodeCheck(f.rows) || v in ProgramCheck(f.rows)
      || v in TypeCheck(f.rows) || v in CreditsCheck(f.rows)
    ensures CourseViolations(f, order).value == [] <==>
      && MissingColumnsCheck(f.columns, RequiredCourseColumns) == []
      && NullChecks(order, CourseNullCounter(f.rows)) == []
      && DuplicateCodeCheck(f.rows) == [] && ProgramCheck(f.rows) == []
      && TypeCheck(f.rows) == [] && CreditsCheck(f.rows) == []
  {
    var head := MissingColumnsCheck(f.columns, RequiredCourseColumns) + NullChecks(order, CourseNullCounter(f.rows));
    assert CourseViolations(f, order).value
      == head + DuplicateCodeCheck(f.rows) + ProgramCheck(f.rows) + TypeCheck(f.rows) + CreditsCheck(f.rows);
  }

  /** A course frame every check accepts. */
  predicate CoursesConform(f: CourseFrame) {
    && RequiredCourseColumns <= f.columns
    && (forall r :: r in f.rows ==> Complete(r))
    && Distinct(CodeColumn(f.rows))
    && (forall r :: r in f.rows ==> !InvalidProgramCell(r.program) && !InvalidTypeCell(r.courseType))
    && (forall r :: r in f.rows ==> !NonPositiveCredits(r))
  }

  /** `validate_courses` raises `KeyError` exactly when a column it indexes is missing, and for
      the first such column in the order it indexes them. */
  lemma CourseKeyError(f: CourseFrame, order: seq<Column>)
    requires Enumerates(order, RequiredCourseColumns * f.columns)
    ensures CourseViolations(f, order).Failure? <==> exists c :: c in CourseAccessOrder && c !in f.columns
    ensures CourseViolations(f, order).Failure? ==>
      exists k :: 0 <= k < |CourseAccessOrder| && CourseAccessOrder[k] !in f.columns
        && (forall j :: 0 <= j < k ==> CourseAccessOrder[j] in f.columns)
        && CourseViolations(f, order).error == KeyError(CourseAccessOrder[k])
  {
    var r := CourseViolations(f, order);
    if r.Failure? {
      if CourseCodeCol !in f.columns {
        assert CourseAccessOrder[0] == CourseCodeCol;
      } else if ProgramCodeCol !in f.columns {
        assert CourseAccessOrder[1] == ProgramCodeCol;
      } else if CourseTypeCol !in f.columns {
        assert CourseAccessOrder[2] == CourseTypeCol;
      } else {
        assert CourseAccessOrder[3] == CreditsCol;
      }
    }
  }

  lemma CourseNullCountZero(rows: seq<RawCourse>, col: Column)
    ensures CourseNullCount(rows, col) == 0 <==> forall r :: r in rows ==> !CourseNullAt(r, col)
  {
    FilterEmpty(rows, CourseNullIn(col));
  }

  lemma CheckedColumns(f: CourseFrame, order: seq<Column>)
    requires Enumerates(order, RequiredCourseColumns * f.columns)
    requires RequiredCourseColumns <= f.columns
    ensures NullChecks(order, CourseNullCounter(f.rows)) == [] <==> forall r :: r in f.rows ==> Complete(r)
  {
    NullChecksEmpty(order, CourseNullCounter(f.rows));
    forall c | c in RequiredCourseColumns {
      CourseNullCountZero(f.rows, c);
    }
    assert forall c :: c in order <==> c in RequiredCourseColumns;
  }

  lemma ColumnMembers(rows: seq<RawCourse>)
    ensures forall v :: v in ProgramColumn(rows) <==> exists r :: r in rows && r.program == v
    ensures forall v :: v in TypeColumn(rows) <==> exists r :: r in rows && r.courseType == v
    ensures forall v :: v in CodeColumn(rows) <==> exists r :: r in rows && r.code == v
  {
    forall v | v in ProgramColumn(rows) ensures exists r :: r in rows && r.program == v {
      var i :| 0 <= i < |rows| && ProgramColumn(rows)[i] == v;
      assert rows[i] in rows;
    }
    forall v | v in TypeColumn(rows) ensures exists r :: r in rows && r.courseType == v {
      var i :| 0 <= i < |rows| && TypeColumn(rows)[i] == v;
      assert rows[i] in rows;
    }
    forall v | v in CodeColumn(rows) ensures exists r :: r in rows && r.code == v {
      var i :| 0 <= i < |rows| && CodeColumn(rows)[i] == v;
      assert rows[i] in rows;
    }
    forall r | r in rows ensures r.program in ProgramColumn(rows) && r.courseType in TypeColumn(rows)
      && r.code in CodeColumn(rows)
    {
      var i :| 0 <= i < |rows| && rows[i] == r;
      assert ProgramColumn(rows)[i] == r.program;
      assert TypeColumn(rows)[i] == r.courseType;
      assert CodeColumn(rows)[i] == r.code;
    }
  }

  /** Clean courses produce no violation, and only clean courses do. */
  lemma CoursesPassIff(f: CourseFrame, order: seq<Column>)
    requires Enumerates(order, RequiredCourseColumns * f.columns)
    ensures CourseViolations(f, order) == Success([]) <==> CoursesConform(f)
  {
    if CourseViolations(f, order).Success? {
      CourseViolationParts(f, order);
      if RequiredCourseColumns <= f.columns {
        CheckedColumns(f, order);
        RowChecksPass(f.rows);
      } else {
        MissingColumnsSilent(f.columns, RequiredCourseColumns);
      }
    }
  }

  /** The four row checks find nothing exactly when the codes are distinct and every row has a
      valid program, a valid type and no non-positive credits. */
  lemma RowChecksPass(rows: seq<RawCourse>)
    ensures DuplicateCodeCheck(rows) == [] <==> Distinct(CodeColumn(rows))
    ensures ProgramCheck(rows) == [] && TypeCheck(rows) == [] <==>
      forall r :: r in rows ==> !InvalidProgramCell(r.program) && !InvalidTypeCell(r.courseType)
    ensures CreditsCheck(rows) == [] <==> forall r :: r in rows ==> !NonPositiveCredits(r)
  {
    RepeatCountZero(CodeColumn(rows));
    RowCellsPass(rows);
  }

  /** The program and type checks pass exactly when no row has an invalid cell. */
  lemma RowCellsPass(rows: seq<RawCourse>)
    ensures ProgramCheck(rows) == [] && TypeCheck(rows) == [] <==>
      forall r :: r in rows ==> !InvalidProgramCell(r.program) && !InvalidTypeCell(r.courseType)
  {
    ColumnMembers(rows);
    FilterEmpty(ProgramColumn(rows), InvalidProgramCell);
    FilterEmpty(TypeColumn(rows), InvalidTypeCell);
  }

  /** A `no_nulls` violation is reported for a required column exactly when it is present and
      holds a null, and it carries that column's null count. */
  lemma CourseNullViolation(f: CourseFrame, order: seq<Column>, col: Column, n: nat)
    requires Enumerates(order, RequiredCourseColumns * f.columns)
    requires CourseViolations(f, order).Success?
    ensures NoNulls(col, n) in CourseViolations(f, order).value <==>
      col in RequiredCourseColumns && col in f.columns && n > 0 && n == CourseNullCount(f.rows, col)
  {
    assert col in RequiredCourseColumns && col in f.columns ==> col in order;
    CourseViolationParts(f, order);
    NullChecksMeaning(order, CourseNullCounter(f.rows));
    RowChecksKinds(f.rows);
  }

  /** Each row check contributes at most one entry, of its own kind. */
  lemma RowChecksKinds(rows: seq<RawCourse>)
    ensures forall v :: v in DuplicateCodeCheck(rows) ==> v.UniqueCourseCode?
    ensures forall v :: v in ProgramCheck(rows) ==> v.ValidProgramCode?
    ensures forall v :: v in TypeCheck(rows) ==> v.ValidCourseType?
    ensures forall v :: v in CreditsCheck(rows) ==> v == PositiveCredits
  {
  }

  /** One `unique_course_code` violation exactly when some code repeats; its count is the number
      of rows minus the number of distinct codes. */
  lemma CourseDuplicateViolation(f: CourseFrame, order: seq<Column>, d: nat)
    requires Enumerates(order, RequiredCourseColumns * f.columns)
    requires CourseViolations(f, order).Success?
    ensures UniqueCourseCode(d) in CourseViolations(f, order).value <==>
      d > 0 && d == |f.rows| - |set r | r in f.rows :: r.code|
  {
    CourseViolationParts(f, order);
    NullChecksMeaning(order, CourseNullCounter(f.rows));
    RowChecksKinds(f.rows);
    var codes := CodeColumn(f.rows);
    RepeatCountMeaning(codes);
    ColumnMembers(f.rows);
    assert (set x | x in codes) == (set r | r in f.rows :: r.code);
  }

  lemma ProgramCheckMeaning(rows: seq<RawCourse>)
    ensures ProgramCheck(rows) != [] <==> exists r :: r in rows && InvalidProgramCell(r.program)
    ensures forall v :: v in ProgramCheck(rows) ==>
      && Distinct(v.invalidValues)
      && forall x :: x in v.invalidValues <==> InvalidProgramCell(x) && exists r :: r in rows && r.program == x
  {
    ColumnMembers(rows);
    FilterEmpty(ProgramColumn(rows), InvalidProgramCell);
  }

  lemma TypeCheckMeaning(rows: seq<RawCourse>)
    ensures TypeCheck(rows) != [] <==> exists r :: r in rows && InvalidTypeCell(r.courseType)
    ensures forall v :: v in TypeCheck(rows) ==>
      && Distinct(v.invalidValues)
      && forall x :: x in v.invalidValues <==> InvalidTypeCell(x) && exists r :: r in rows && r.courseType == x
  {
    ColumnMembers(rows);
    FilterEmpty(TypeColumn(rows), InvalidTypeCell);
  }

  /** `valid_program_code` is reported exactly when some program is invalid (null included);
      it lists each invalid value once, and only those. */
  lemma CourseProgramViolation(f: CourseFrame, order: seq<Column>)
    requires Enumerates(order, RequiredCourseColumns * f.columns)
    requires CourseViolations(f, order).Success?
    ensures (exists v :: v in CourseViolations(f, order).value && v.ValidProgramCode?) <==>
      exists r :: r in f.rows && InvalidProgramCell(r.program)
    ensures forall v :: v in CourseViolations(f, order).value && v.ValidProgramCode? ==>
      && Distinct(v.invalidValues)
      && forall x :: x in v.invalidValues <==> InvalidProgramCell(x) && exists r :: r in f.rows && r.program == x
  {
    CourseViolationParts(f, order);
    NullChecksMeaning(order, CourseNullCounter(f.rows));
    RowChecksKinds(f.rows);
    ProgramCheckMeaning(f.rows);
    if ProgramCheck(f.rows) != [] {
      assert ProgramCheck(f.rows)[0] in ProgramCheck(f.rows);
    }
  }

  /** `valid_course_type`, likewise. */
  lemma CourseTypeViolation(f: CourseFrame, order: seq<Column>)
    requires Enumerates(order, RequiredCourseColumns * f.columns)
    requires CourseViolations(f, order).Success?
    ensures (exists v :: v in CourseViolations(f, order).value && v.ValidCourseType?) <==>
      exists r :: r in f.rows && InvalidTypeCell(r.courseType)
    ensures forall v :: v in CourseViolations(f, order).value && v.ValidCourseType? ==>
      && Distinct(v.invalidValues)
      && forall x :: x in v.invalidValues <==> InvalidTypeCell(x) && exists r :: r in f.rows && r.courseType == x
  {
    CourseViolationParts(f, order);
    NullChecksMeaning(order, CourseNullCounter(f.rows));
    RowChecksKinds(f.rows);
    TypeCheckMeaning(f.rows);
    if TypeCheck(f.rows) != [] {
      assert TypeCheck(f.rows)[0] in TypeCheck(f.rows);
    }
  }

  /** `positive_credits` is reported exactly when some credits value is at most 0. */
  lemma CourseCreditsViolation(f: CourseFrame, order: seq<Column>)
    requires Enumerates(order, RequiredCourseColumns * f.columns)
    requires CourseViolations(f, order).Success?
    ensures PositiveCredits in CourseViolations(f, order).value <==>
      exists r :: r in f.rows && NonPositiveCredits(r)
  {
    CourseViolationParts(f, order);
    NullChecksMeaning(order, CourseNullCounter(f.rows));
    RowChecksKinds(f.rows);
  }

  // ---------------------------------------------------------------- prerequisites

  predicate PrereqNullAt(r: RawPrereq, col: Column) {
    if col == CourseCodeCol then r.course.None?
    else if col == RequiredCourseCodeCol then r.required.None?
    else false
  }

  function PrereqNullIn(col: Column): RawPrereq -> bool {
    (r: RawPrereq) => PrereqNullAt(r, col)
  }

  function PrereqNullCount(rows: seq<RawPrereq>, col: Column): nat {
    |Filter(rows, PrereqNullIn(col))|
  }

  function PrereqNullCounter(rows: seq<RawPrereq>): Column -> nat {
    (col: Column) => PrereqNullCount(rows, col)
  }

  /** `course_code == required_course_code`; a null equals nothing, not even a null. */
  predicate SelfReference(r: RawPrereq) {
    r.course.Some? && r.required.Some? && r.course.value == r.required.value
  }

  /** The `course_code` of every self-referencing row, in row order. */
  function SelfRefSources(rows: seq<RawPrereq>): (s: seq<string>)
    ensures |s| == |Filter(rows, SelfReference)|
    ensures forall x :: x in s <==> exists r :: r in rows && SelfReference(r) && r.course.value == x
  {
    if rows == [] then []
    else
      var init := rows[..|rows| - 1];
      var last := rows[|rows| - 1];
      assert rows == init + [last];
      SelfRefSources(init) + (if SelfReference(last) then [last.course.value] else [])
  }

  /** `~isin(valid_codes)` on either endpoint. */
  predicate Orphaned(r: RawPrereq, valid: set<Option<string>>) {
    r.course !in valid || r.required !in valid
  }

  function DuplicatePairCheck(rows: seq<RawPrereq>): seq<Violation> {
    var dupes := RepeatCount(rows);
    if dupes > 0 then [UniquePrereqPairs(dupes)] else []
  }

  function SelfRefCheck(rows: seq<RawPrereq>): seq<Violation> {
    var refs := SelfRefSources(rows);
    if |refs| > 0 then [NoSelfReference(refs)] else []
  }

  function FkCheck(rows: seq<RawPrereq>, valid: set<Option<string>>): seq<Violation> {
    if exists r :: r in rows && Orphaned(r, valid) then [ValidFkReferences] else []
  }

  /** `validate_prerequisites`: a missing column is reported alone; otherwise every check. */
  function PrereqViolations(f: PrereqFrame, valid: set<Option<string>>, order: seq<Column>): seq<Violation>
    requires Enumerates(order, RequiredPrereqColumns)
  {
    var missing := RequiredPrereqColumns - f.columns;
    if missing != {} then [RequiredColumns(missing)]
    else
      NullChecks(order, PrereqNullCounter(f.rows)) + DuplicatePairCheck(f.rows)
        + SelfRefCheck(f.rows) + FkCheck(f.rows, valid)
  }

  method ValidatePrerequisites(f: PrereqFrame, valid: set<Option<string>>, order: seq<Column>)
    returns (violations: seq<Violation>)
    requires Enumerates(order, RequiredPrereqColumns)
    ensures violations == PrereqViolations(f, valid, order)
  {
    violations := [];
    var missing := RequiredPrereqColumns - f.columns;
    if missing != {} {
      violations := violations + [RequiredColumns(missing)];
      return;
    }
    violations := ReportNulls(order, PrereqNullCounter(f.rows));
    ghost var nulls := violations;
    var dupes := RepeatCount(f.rows);
    if dupes > 0 {
      violations := violations + [UniquePrereqPairs(dupes)];
    }
    assert violations == nulls + DuplicatePairCheck(f.rows);
    ghost var upToDupes := violations;
    var selfRefs := SelfRefSources(f.rows);
    if |selfRefs| > 0 {
      violations := violations + [NoSelfReference(selfRefs)];
    }
    assert violations == upToDupes + SelfRefCheck(f.rows);
    ghost var upToSelf := violations;
    if exists r :: r in f.rows && Orphaned(r, valid) {
      violations := violations + [ValidFkReferences];
    }
    assert violations == upToSelf + FkCheck(f.rows, valid);
  }

  /** A prerequisite frame every check accepts against `valid`. */
  predicate PrereqsConform(f: PrereqFrame, valid: set<Option<string>>) {
    && RequiredPrereqColumns <= f.columns
    && (forall r :: r in f.rows ==> HasEndpoints(r) && !SelfReference(r) && !Orphaned(r, valid))
    && Distinct(f.rows)
  }

  /** A missing column yields exactly one `required_columns` violation and no other check runs;
      with both columns present none is reported. */
  lemma PrereqMissingColumns(f: PrereqFrame, valid: set<Option<string>>, order: seq<Column>)
    requires Enumerates(order, RequiredPrereqColumns)
    ensures !(RequiredPrereqColumns <= f.columns) ==>
      PrereqViolations(f, valid, order) == [RequiredColumns(RequiredPrereqColumns - f.columns)]
    ensures RequiredPrereqColumns <= f.columns ==>
      forall v :: v in PrereqViolations(f, valid, order) ==> !v.RequiredColumns?
  {
    MissingColumnsSilent(f.columns, RequiredPrereqColumns);
    NullChecksMeaning(order, PrereqNullCounter(f.rows));
  }

  lemma PrereqNullCountZero(rows: seq<RawPrereq>, col: Column)
    ensures PrereqNullCount(rows, col) == 0 <==> forall r :: r in rows ==> !PrereqNullAt(r, col)
  {
    FilterEmpty(rows, PrereqNullIn(col));
  }

  /** With both columns present, the violation list is the null checks then one entry per
      failed check on the rows. */
  lemma PrereqViolationParts(f: PrereqFrame, valid: set<Option<string>>, order: seq<Column>)
    requires Enumerates(order, RequiredPrereqColumns)
    requires RequiredPrereqColumns <= f.columns
    ensures forall v :: v in PrereqViolations(f, valid, order) <==>
      || v in NullChecks(order, PrereqNullCounter(f.rows))
      || v in DuplicatePairCheck(f.rows) || v in SelfRefCheck(f.rows) || v in FkCheck(f.rows, valid)
    ensures PrereqViolations(f, valid, order) == [] <==>
      && NullChecks(order, PrereqNullCounter(f.rows)) == []
      && DuplicatePairCheck(f.rows) == [] && SelfRefCheck(f.rows) == [] && FkCheck(f.rows, valid) == []
    ensures forall v :: v in DuplicatePairCheck(f.rows) ==> v.UniquePrereqPairs?
    ensures forall v :: v in SelfRefCheck(f.rows) ==> v.NoSelfReference?
    ensures forall v :: v in FkCheck(f.rows, valid) ==> v == ValidFkReferences
  {
    assert RequiredPrereqColumns - f.columns == {};
    assert PrereqViolations(f, valid, order) == NullChecks(order, PrereqNullCounter(f.rows))
      + DuplicatePairCheck(f.rows) + SelfRefCheck(f.rows) + FkCheck(f.rows, valid);
  }

  /** Clean edges produce no violation, and only clean edges do. */
  lemma PrereqsPassIff(f: PrereqFrame, valid: set<Option<string>>, order: seq<Column>)
    requires Enumerates(order, RequiredPrereqColumns)
    ensures PrereqViolations(f, valid, order) == [] <==> PrereqsConform(f, valid)
  {
    MissingColumnsSilent(f.columns, RequiredPrereqColumns);
    if RequiredPrereqColumns <= f.columns {
      PrereqViolationParts(f, valid, order);
      NullChecksEmpty(order, PrereqNullCounter(f.rows));
      assert CourseCodeCol in order && RequiredCourseCodeCol in order;
      PrereqNullCountZero(f.rows, CourseCodeCol);
      PrereqNullCountZero(f.rows, RequiredCourseCodeCol);
      RepeatCountZero(f.rows);
      FilterEmpty(f.rows, SelfReference);
      assert (forall r :: r in f.rows ==> HasEndpoints(r)) <==>
        PrereqNullCount(f.rows, CourseCodeCol) == 0 && PrereqNullCount(f.rows, RequiredCourseCodeCol) == 0;
    }
  }

  /** `no_self_reference` is reported exactly when some row is a self-loop, listing the source of
      every self-loop row (one entry per row) and nothing else. */
  lemma PrereqSelfReference(f: PrereqFrame, valid: set<Option<string>>, order: seq<Column>)
    requires Enumerates(order, RequiredPrereqColumns)
    requires RequiredPrereqColumns <= f.columns
    ensures (exists v :: v in PrereqViolations(f, valid, order) && v.NoSelfReference?) <==>
      exists r :: r in f.rows && SelfReference(r)
    ensures forall v :: v in PrereqViolations(f, valid, order) && v.NoSelfReference? ==>
      && |v.selfRefs| == |Filter(f.rows, SelfReference)|
      && forall x :: x in v.selfRefs <==> exists r :: r in f.rows && SelfReference(r) && r.course.value == x
  {
    PrereqViolationParts(f, valid, order);
    NullChecksMeaning(order, PrereqNullCounter(f.rows));
    FilterEmpty(f.rows, SelfReference);
    if SelfRefCheck(f.rows) != [] {
      assert SelfRefCheck(f.rows)[0] in SelfRefCheck(f.rows);
    }
  }

  /** A single `valid_fk_references` violation exactly when some endpoint is not a known code
      (a null endpoint included, unless a null code is among the known ones). */
  lemma PrereqForeignKeys(f: PrereqFrame, valid: set<Option<string>>, order: seq<Column>)
    requires Enumerates(order, RequiredPrereqColumns)
    requires RequiredPrereqColumns <= f.columns
    ensures ValidFkReferences in PrereqViolations(f, valid, order) <==>
      exists r :: r in f.rows && Orphaned(r, valid)
  {
    PrereqViolationParts(f, valid, order);
    NullChecksMeaning(order, PrereqNullCounter(f.rows));
  }

  /** `unique_prereq_pairs` counts the rows that repeat an earlier pair. */
  lemma PrereqDuplicateViolation(f: PrereqFrame, valid: set<Option<string>>, order: seq<Column>, d: nat)
    requires Enumerates(order, RequiredPrereqColumns)
    requires RequiredPrereqColumns <= f.columns
    ensures UniquePrereqPairs(d) in PrereqViolations(f, valid, order) <==>
      d > 0 && d == |f.rows| - |set r | r in f.rows|
  {
    PrereqViolationParts(f, valid, order);
    NullChecksMeaning(order, PrereqNullCounter(f.rows));
    RepeatCountMeaning(f.rows);
  }

  // ---------------------------------------------------------------- statistics

  datatype CourseStats = CourseStats(
    totalCourses: nat,
    byProgram: map<string, nat>,
    byType: map<string, nat>,
    uniquePrograms: nat)

  datatype PrereqStats = PrereqStats(
    totalPrereqPairs: nat,
    coursesWithPrereqs: nat,
    mostRequiredCourse: Option<string>)

  datatype Statistics = Statistics(courses: CourseStats, prerequisites: PrereqStats)

  function Programs(cs: seq<Course>): (s: seq<string>)
    ensures |s| == |cs| && forall i :: 0 <= i < |cs| ==> s[i] == cs[i].program
  {
    seq(|cs|, i requires 0 <= i < |cs| => cs[i].program)
  }

  function Types(cs: seq<Course>): (s: seq<string>)
    ensures |s| == |cs| && forall i :: 0 <= i < |cs| ==> s[i] == cs[i].courseType
  {
    seq(|cs|, i requires 0 <= i < |cs| => cs[i].courseType)
  }

  function Sources(es: seq<Edge>): (s: seq<string>)
    ensures |s| == |es| && forall i :: 0 <= i < |es| ==> s[i] == es[i].course
  {
    seq(|es|, i requires 0 <= i < |es| => es[i].course)
  }

  function Requireds(es: seq<Edge>): (s: seq<string>)
    ensures |s| == |es| && forall i :: 0 <= i < |es| ==> s[i] == es[i].required
  {
    seq(|es|, i requires 0 <= i < |es| => es[i].required)
  }

  /** The course half of `generate_statistics`. */
  function CourseStatistics(courses: seq<Course>): CourseStats {
    CourseStats(
      |courses|,
      ValueCounts(Programs(courses)),
      ValueCounts(Types(courses)),
      |set p | p in Programs(courses)|)
  }

  /** The prerequisite half of `generate_statistics`. */
  function PrereqStatistics(prereqs: seq<Edge>): PrereqStats {
    PrereqStats(
      |prereqs|,
      |set c | c in Sources(prereqs)|,
      MostCommon(Requireds(prereqs)))
  }

  /** The counting fields of `generate_statistics`. */
  function GenerateStatistics(courses: seq<Course>, prereqs: seq<Edge>): Statistics {
    Statistics(CourseStatistics(courses), PrereqStatistics(prereqs))
  }

  /** The programs' counts add up to the number of courses, and so do the types'; there is one
      `by_program` key per distinct program, and each counts the courses of that program. */
  lemma CourseStatsConsistent(courses: seq<Course>)
    ensures var s := CourseStatistics(courses);
      && s.totalCourses == |courses|
      && Distinct(Dedup(Programs(courses)))
      && (forall p :: p in Dedup(Programs(courses)) <==> p in s.byProgram)
      && SumOver(s.byProgram, Dedup(Programs(courses))) == s.totalCourses
      && (forall p :: p in s.byProgram ==> s.byProgram[p] == |Filter(courses, ProgramIs(p))|)
      && SumOver(s.byType, Dedup(Types(courses))) == s.totalCourses
      && s.uniquePrograms == |s.byProgram.Keys|
  {
    var ps := Programs(courses);
    ValueCountsTotal(ps);
    ValueCountsTotal(Types(courses));
    var m := ValueCounts(ps);
    assert (set p | p in ps) == m.Keys;
    forall p | p in m
      ensures m[p] == |Filter(courses, ProgramIs(p))|
    {
      ProgramCount(courses, p);
    }
  }

  /** `courses_with_prereqs` counts the distinct sources; `most_required_course` is absent only
      without edges and otherwise is required by at least as many edges as any other course. */
  lemma PrereqStatsConsistent(prereqs: seq<Edge>)
    ensures var s := PrereqStatistics(prereqs);
      && s.totalPrereqPairs == |prereqs|
      && s.coursesWithPrereqs == |set e | e in prereqs :: e.course|
      && (s.mostRequiredCourse.None? <==> prereqs == [])
      && (s.mostRequiredCourse.Some? ==>
        && (exists e :: e in prereqs && e.required == s.mostRequiredCourse.value)
        && forall e :: e in prereqs ==>
          InDegree(prereqs, e.required) <= InDegree(prereqs, s.mostRequiredCourse.value))
  {
    SourcesAsSet(prereqs);
    MostRequired(prereqs);
  }

  lemma SourcesAsSet(prereqs: seq<Edge>)
    ensures (set c | c in Sources(prereqs)) == (set e | e in prereqs :: e.course)
  {
    forall e | e in prereqs ensures e.course in Sources(prereqs) {
      var i :| 0 <= i < |prereqs| && prereqs[i] == e;
      assert Sources(prereqs)[i] == e.course;
    }
  }

  lemma MostRequired(prereqs: seq<Edge>)
    ensures MostCommon(Requireds(prereqs)).None? <==> prereqs == []
    ensures MostCommon(Requireds(prereqs)).Some? ==>
      var best := MostCommon(Requireds(prereqs)).value;
      && (exists e :: e in prereqs && e.required == best)
      && forall e :: e in prereqs ==> InDegree(prereqs, e.required) <= InDegree(prereqs, best)
  {
    var rs := Requireds(prereqs);
    if prereqs != [] {
      var best := MostCommon(rs).value;
      forall e | e in prereqs ensures InDegree(prereqs, e.required) <= InDegree(prereqs, best) {
        var i :| 0 <= i < |prereqs| && prereqs[i] == e;
        assert rs[i] == e.required;
        InDegreeCount(prereqs, e.required);
        InDegreeCount(prereqs, best);
      }
      var i :| 0 <= i < |rs| && rs[i] == best;
      assert prereqs[i] in prereqs;
    }
  }

  function ProgramIs(p: string): Course -> bool {
    (c: Course) => c.program == p
  }

  /** Number of edges that require `code`. */
  function InDegree(es: seq<Edge>, code: string): nat {
    |Filter(es, (e: Edge) => e.required == code)|
  }

  lemma {:induction false} InDegreeCount(es: seq<Edge>, code: string)
    ensures InDegree(es, code) == Occurrences(Requireds(es), code)
  {
    if es != [] {
      var init := es[..|es| - 1];
      assert es == init + [es[|es| - 1]];
      assert Requireds(es)[..|es| - 1] == Requireds(init);
      InDegreeCount(init, code);
    }
  }

  lemma {:induction false} ProgramCount(cs: seq<Course>, p: string)
    ensures Occurrences(Programs(cs), p) == |Filter(cs, ProgramIs(p))|
  {
    if cs != [] {
      var init := cs[..|cs| - 1];
      assert cs == init + [cs[|cs| - 1]];
      assert Programs(cs)[..|cs| - 1] == Programs(init);
      ProgramCount(init, p);
    }
  }

  // ---------------------------------------------------------------- the validate step

  /** The course codes as the set the foreign-key check compares against (a null included). */
  function CodeSet(f: CourseFrame): set<Option<string>> {
    set r | r in f.rows :: r.code
  }

  /** `validate_data`: statistics when every check passes; otherwise the `KeyError` met on the
      way, or a `ValueError` carrying the number of violations. */
  function ValidateData(courses: CourseFrame, prereqs: PrereqFrame, courseOrder: seq<Column>, prereqOrder: seq<Column>): Result<Statistics, Raised>
    requires Enumerates(courseOrder, RequiredCourseColumns * courses.columns)
    requires Enumerates(prereqOrder, RequiredPrereqColumns)
  {
    if CourseCodeCol !in courses.columns then Failure(KeyError(CourseCodeCol))
    else match CourseViolations(courses, courseOrder)
      case Failure(e) => Failure(e)
      case Success(cv) =>
        var all := cv + PrereqViolations(prereqs, CodeSet(courses), prereqOrder);
        if |all| > 0 then Failure(ValueError(|all|))
        else
          CoursesPassIff(courses, courseOrder);
          PrereqsPassIff(prereqs, CodeSet(courses), prereqOrder);
          Success(GenerateStatistics(ToCourses(courses.rows), ToEdges(prereqs.rows)))
  }

  /** `validate_data` returns statistics exactly when both tables conform, raises `ValueError`
      exactly when the checks ran and found something, and then reports how many. */
  lemma ValidateDataOutcome(courses: CourseFrame, prereqs: PrereqFrame, courseOrder: seq<Column>, prereqOrder: seq<Column>)
    requires Enumerates(courseOrder, RequiredCourseColumns * courses.columns)
    requires Enumerates(prereqOrder, RequiredPrereqColumns)
    ensures ValidateData(courses, prereqs, courseOrder, prereqOrder).Success? <==>
      CoursesConform(courses) && PrereqsConform(prereqs, CodeSet(courses))
    ensures var r := ValidateData(courses, prereqs, courseOrder, prereqOrder);
      r.Failure? && r.error.ValueError? <==>
        && CourseViolations(courses, courseOrder).Success?
        && |CourseViolations(courses, courseOrder).value| + |PrereqViolations(prereqs, CodeSet(courses), prereqOrder)| > 0
    ensures var r := ValidateData(courses, prereqs, courseOrder, prereqOrder);
      r.Failure? && r.error.ValueError? ==>
        r.error.violationCount
          == |CourseViolations(courses, courseOrder).value| + |PrereqViolations(prereqs, CodeSet(courses), prereqOrder)|
    ensures var r := ValidateData(courses, prereqs, courseOrder, prereqOrder);
      r.Failure? && r.error.KeyError? <==> exists c :: c in CourseAccessOrder && c !in courses.columns
  {
    CoursesPassIff(courses, courseOrder);
    PrereqsPassIff(prereqs, CodeSet(courses), prereqOrder);
    CourseKeyError(courses, courseOrder);
  }
}
