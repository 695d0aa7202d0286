/** The two hard-anomaly queries of Data-Pipeline/scripts/detect_anomalies.py, over in-memory
    tables: the `students` table as a map from id to email (its primary key), the
    `student_courses` completions and the `prerequisites` edges. SQL leaves the order of result
    rows open; the model produces them in nested-loop order and its properties speak about
    membership and multiplicity only. */
module Anomalies {
  import opened Sequences
  import opened Records

  /** A `student_courses` row: the student completed the course. */
  datatype Completion = Completion(studentId: int, course: string)

  /** A result row of the missing-prerequisite query. */
  datatype MissingRow = MissingRow(email: string, enrolledCourse: string, missingPrereq: string)

  // ---------------------------------------------------------------- missing prerequisites

  /** The join pairs completion `c` with edge `p` and the `NOT EXISTS` lets the pair through:
      the student has a `students` row, `p` leaves the completed course, and no completion in
      `all` is of `p`'s required course by the same student. */
  predicate Emits(students: map<int, string>, all: seq<Completion>, c: Completion, p: Edge) {
    c.studentId in students && p.course == c.course && Completion(c.studentId, p.required) !in all
  }

  function RowFor(students: map<int, string>, c: Completion, p: Edge): MissingRow
    requires c.studentId in students
  {
    MissingRow(students[c.studentId], c.course, p.required)
  }

  /** The rows one completion contributes, one per edge it is paired with. */
  function RowsFor(students: map<int, string>, all: seq<Completion>, es: seq<Edge>, c: Completion): seq<MissingRow>
  {
    if es == [] then []
    else
      var p := es[|es| - 1];
      RowsFor(students, all, es[..|es| - 1], c)
        + (if Emits(students, all, c, p) then [RowFor(students, c, p)] else [])
  }

  /** The rows of the completions `scs`, the `NOT EXISTS` looking at all completions `all`. */
  function JoinRows(students: map<int, string>, all: seq<Completion>, scs: seq<Completion>, es: seq<Edge>): seq<MissingRow>
  {
    if scs == [] then []
    else JoinRows(students, all, scs[..|scs| - 1], es) + RowsFor(students, all, es, scs[|scs| - 1])
  }

  /** `detect_missing_prerequisites`: the anti-join, without `DISTINCT`. */
  function MissingPrerequisites(students: map<int, string>, completions: seq<Completion>, edges: seq<Edge>): seq<MissingRow>
  {
    JoinRows(students, completions, completions, edges)
  }

  lemma {:induction false} RowsForMember(st: map<int, string>, all: seq<Completion>, es: seq<Edge>, c: Completion, row: MissingRow)
    ensures row in RowsFor(st, all, es, c) <==>
      exists p :: p in es && Emits(st, all, c, p) && row == RowFor(st, c, p)
  {
    if es != [] {
      var init := es[..|es| - 1];
      assert es == init + [es[|es| - 1]];
      RowsForMember(st, all, init, c, row);
    }
  }

  lemma {:induction false} JoinRowsMember(st: map<int, string>, all: seq<Completion>, scs: seq<Completion>, es: seq<Edge>, row: MissingRow)
    ensures row in JoinRows(st, all, scs, es) <==> exists c :: c in scs && row in RowsFor(st, all, es, c)
  {
    if scs != [] {
      var init := scs[..|scs| - 1];
      var last := scs[|scs| - 1];
      assert scs == init + [last];
      JoinRowsMember(st, all, init, es, row);
      assert JoinRows(st, all, scs, es) == JoinRows(st, all, init, es) + RowsFor(st, all, es, last);
      if row in RowsFor(st, all, es, last) {
        assert last in scs;
      }
      if exists c :: c in scs && row in RowsFor(st, all, es, c) {
        var c :| c in scs && row in RowsFor(st, all, es, c);
        if c != last {
          assert c in init;
        }
      }
    }
  }

  /** A row (email, c, r) is reported exactly when some completion of `c` by a student with
      that email is paired with an edge c -> r and that student has no completion of `r`. */
  lemma MissingPrerequisitesMember(st: map<int, string>, cs: seq<Completion>, es: seq<Edge>, row: MissingRow)
    ensures row in MissingPrerequisites(st, cs, es) <==>
      exists c, p :: c in cs && p in es && Emits(st, cs, c, p) && row == RowFor(st, c, p)
  {
    JoinRowsMember(st, cs, cs, es, row);
    forall c | c in cs {
      RowsForMember(st, cs, es, c, row);
    }
  }

  /** A completion contributes nothing when its course has no outgoing edge, and nothing
      when its student has no `students` row (the inner join). */
  lemma {:induction false} RowsForEmpty(st: map<int, string>, all: seq<Completion>, es: seq<Edge>, c: Completion)
    requires c.studentId !in st || forall p :: p in es ==> p.course != c.course
    ensures RowsFor(st, all, es, c) == []
  {
    if es != [] {
      RowsForEmpty(st, all, es[..|es| - 1], c);
    }
  }

  /** Only the set of completions matters to the `NOT EXISTS`. */
  lemma {:induction false} RowsForSameCompletions(st: map<int, string>, a1: seq<Completion>, a2: seq<Completion>, es: seq<Edge>, c: Completion)
    requires forall x :: x in a1 <==> x in a2
    ensures RowsFor(st, a1, es, c) == RowsFor(st, a2, es, c)
  {
    if es != [] {
      RowsForSameCompletions(st, a1, a2, es[..|es| - 1], c);
    }
  }

  lemma {:induction false} JoinRowsSameCompletions(st: map<int, string>, a1: seq<Completion>, a2: seq<Completion>, scs: seq<Completion>, es: seq<Edge>)
    requires forall x :: x in a1 <==> x in a2
    ensures JoinRows(st, a1, scs, es) == JoinRows(st, a2, scs, es)
  {
    if scs != [] {
      JoinRowsSameCompletions(st, a1, a2, scs[..|scs| - 1], es);
      RowsForSameCompletions(st, a1, a2, es, scs[|scs| - 1]);
    }
  }

  /** Repeating a completion repeats its rows: there is no `DISTINCT`. */
  lemma DuplicateCompletion(st: map<int, string>, cs: seq<Completion>, es: seq<Edge>, c: Completion)
    requires c in cs
    ensures MissingPrerequisites(st, cs + [c], es)
      == MissingPrerequisites(st, cs, es) + RowsFor(st, cs, es, c)
    ensures multiset(MissingPrerequisites(st, cs + [c], es))
      == multiset(MissingPrerequisites(st, cs, es)) + multiset(RowsFor(st, cs, es, c))
  {
    var all := cs + [c];
    assert all[..|all| - 1] == cs;
    JoinRowsSameCompletions(st, all, cs, cs, es);
    RowsForSameCompletions(st, all, cs, es, c);
  }

  /** A course without outgoing edges is never reported as enrolled, and a completion whose
      student has no `students` row contributes nothing. */
  lemma MissingBoundaries(st: map<int, string>, cs: seq<Completion>, es: seq<Edge>, code: string)
    ensures (forall p :: p in es ==> p.course != code) ==>
      forall row :: row in MissingPrerequisites(st, cs, es) ==> row.enrolledCourse != code
    ensures (forall c :: c in cs ==> c.studentId !in st) ==> MissingPrerequisites(st, cs, es) == []
  {
    forall row | row in MissingPrerequisites(st, cs, es) {
      MissingPrerequisitesMember(st, cs, es, row);
    }
    if MissingPrerequisites(st, cs, es) != [] {
      var row := MissingPrerequisites(st, cs, es)[0];
      MissingPrerequisitesMember(st, cs, es, row);
    }
  }

  // ---------------------------------------------------------------- the recursive chain query

  /** A row of the `prereq_chain` working table. */
  datatype ChainRow = ChainRow(course: string, required: string, visited: seq<string>, isCycle: bool)

  /** The anchor member: one row per edge, visited holding its source. */
  function Anchor(edges: seq<Edge>): (rows: seq<ChainRow>)
    ensures |rows| == |edges|
    ensures forall i :: 0 <= i < |edges| ==>
      rows[i] == ChainRow(edges[i].course, edges[i].required, [edges[i].course], false)
  {
    seq(|edges|, i requires 0 <= i < |edges| => ChainRow(edges[i].course, edges[i].required, [edges[i].course], false))
  }

  /** The recursive member's row for chain row `pc` joined with edge `p`. */
  function Follow(pc: ChainRow, p: Edge): ChainRow {
    ChainRow(p.course, p.required, pc.visited + [p.course], p.course in pc.visited)
  }

  /** The rows `pc` produces: one per edge leaving `pc.required`, none once `pc` is a cycle row. */
  function Extend(es: seq<Edge>, pc: ChainRow): seq<ChainRow> {
    if es == [] then []
    else
      var p := es[|es| - 1];
      Extend(es[..|es| - 1], pc) + (if !pc.isCycle && p.course == pc.required then [Follow(pc, p)] else [])
  }

  /** One evaluation of the recursive member over the working table `work`. */
  function Step(edges: seq<Edge>, work: seq<ChainRow>): seq<ChainRow> {
    if work == [] then []
    else Step(edges, work[..|work| - 1]) + Extend(edges, work[|work| - 1])
  }

  /** The working table after `k` evaluations of the recursive member. */
  function Level(edges: seq<Edge>, k: nat): seq<ChainRow> {
    if k == 0 then Anchor(edges) else Step(edges, Level(edges, k - 1))
  }

  function Sources(edges: seq<Edge>): set<string> {
    set e | e in edges :: e.course
  }

  /** The working tables are appended until one comes out empty (`UNION ALL`). The recursion
      stops because a chain is extended only while its visited courses are distinct. */
  function ChainFrom(edges: seq<Edge>, k: nat): seq<ChainRow>
    requires k <= |Sources(edges)|
    decreases |Sources(edges)| - k
  {
    Level(edges, k)
      + if Level(edges, k + 1) == [] then []
        else LevelBound(edges, k); ChainFrom(edges, k + 1)
  }

  /** All rows of `prereq_chain`. */
  function PrereqChain(edges: seq<Edge>): seq<ChainRow> {
    ChainFrom(edges, 0)
  }

  /** The flagged rows' pairs, in row order. */
  function FlaggedPairs(rows: seq<ChainRow>): seq<Edge> {
    if rows == [] then []
    else
      var r := rows[|rows| - 1];
      FlaggedPairs(rows[..|rows| - 1]) + (if r.isCycle then [Edge(r.course, r.required)] else [])
  }

  /** `detect_circular_prerequisites`: the distinct pairs of the flagged chain rows. */
  function CircularPrerequisites(edges: seq<Edge>): seq<Edge> {
    Dedup(FlaggedPairs(PrereqChain(edges)))
  }

  // ---------------------------------------------------------------- walks and cycles

  /** Consecutive courses of `w` are joined by edges. */
  ghost predicate Walk(edges: seq<Edge>, w: seq<string>) {
    forall i :: 0 <= i < |w| - 1 ==> Edge(w[i], w[i + 1]) in edges
  }

  /** A walk of at least one edge that returns to where it starts. */
  ghost predicate ClosedWalk(edges: seq<Edge>, w: seq<string>) {
    |w| >= 2 && w[0] == w[|w| - 1] && Walk(edges, w)
  }

  /** `x` lies on a directed cycle of the prerequisite graph. */
  ghost predicate OnCycle(edges: seq<Edge>, x: string) {
    exists w :: ClosedWalk(edges, w) && w[0] == x
  }

  /** A row of level `k` records a walk of `k` edges ending at its course, followed by the edge
      (course, required); the walk's courses before the last are distinct, and the row is a
      cycle row exactly when its course is among them. */
  ghost predicate ChainInvariant(edges: seq<Edge>, r: ChainRow, k: nat) {
    && |r.visited| == k + 1
    && r.visited[k] == r.course
    && Edge(r.course, r.required) in edges
    && Walk(edges, r.visited)
    && Distinct(r.visited[..k])
    && (r.isCycle <==> r.course in r.visited[..k])
  }

  lemma {:induction false} ExtendMember(es: seq<Edge>, pc: ChainRow, x: ChainRow)
    ensures x in Extend(es, pc) <==>
      exists p :: p in es && !pc.isCycle && p.course == pc.required && x == Follow(pc, p)
  {
    if es != [] {
      var init := es[..|es| - 1];
      assert es == init + [es[|es| - 1]];
      ExtendMember(init, pc, x);
    }
  }

  /** A row of the next working table is a non-cycle row of the current one followed by an edge
      leaving its required course. */
  lemma {:induction false} StepMember(edges: seq<Edge>, work: seq<ChainRow>, x: ChainRow)
    ensures x in Step(edges, work) <==>
      exists pc, p :: pc in work && p in edges && !pc.isCycle && p.course == pc.required && x == Follow(pc, p)
  {
    if work != [] {
      var init := work[..|work| - 1];
      assert work == init + [work[|work| - 1]];
      StepMember(edges, init, x);
      ExtendMember(edges, work[|work| - 1], x);
    }
  }

  lemma FollowInvariant(edges: seq<Edge>, pc: ChainRow, p: Edge, k: nat)
    requires ChainInvariant(edges, pc, k) && !pc.isCycle
    requires p in edges && p.course == pc.required
    ensures ChainInvariant(edges, Follow(pc, p), k + 1)
  {
    var v := pc.visited + [p.course];
    assert v[..k + 1] == pc.visited;
    assert pc.visited == pc.visited[..k] + [pc.course];
    forall i | 0 <= i < |v| - 1 ensures Edge(v[i], v[i + 1]) in edges {
      if i < k {
        assert Edge(pc.visited[i], pc.visited[i + 1]) in edges;
      }
    }
  }

  /** An anchor row records the one-course walk of its own edge. */
  lemma AnchorInvariant(edges: seq<Edge>, r: ChainRow)
    requires r in Anchor(edges)
    ensures ChainInvariant(edges, r, 0)
  {
    var i :| 0 <= i < |edges| && Anchor(edges)[i] == r;
    assert Edge(r.course, r.required) == edges[i];
  }

  /** The next working table keeps the chain invariant, one evaluation further. */
  lemma StepInvariant(edges: seq<Edge>, prev: seq<ChainRow>, k: nat, r: ChainRow)
    requires forall pc :: pc in prev ==> ChainInvariant(edges, pc, k)
    requires r in Step(edges, prev)
    ensures ChainInvariant(edges, r, k + 1)
  {
    StepMember(edges, prev, r);
    var pc, p :| pc in prev && p in edges && !pc.isCycle && p.course == pc.required
      && r == Follow(pc, p);
    FollowInvariant(edges, pc, p, k);
  }

  /** Every row of level `k` satisfies the chain invariant. */
  lemma {:induction false} LevelInvariant(edges: seq<Edge>, k: nat, r: ChainRow)
    requires r in Level(edges, k)
    ensures ChainInvariant(edges, r, k)
  {
    if k == 0 {
      AnchorInvariant(edges, r);
    } else {
      var prev := Level(edges, k - 1);
      forall pc | pc in prev ensures ChainInvariant(edges, pc, k - 1) {
        LevelInvariant(edges, k - 1, pc);
      }
      StepInvariant(edges, prev, k - 1, r);
    }
  }

  /** The courses of a recorded walk are edge sources. */
  lemma WalkSources(edges: seq<Edge>, r: ChainRow, k: nat)
    requires ChainInvariant(edges, r, k)
    ensures forall x :: x in r.visited ==> x in Sources(edges)
  {
    forall x | x in r.visited ensures x in Sources(edges) {
      var i :| 0 <= i < |r.visited| && r.visited[i] == x;
      if i < k {
        var e := Edge(r.visited[i], r.visited[i + 1]);
        assert e in edges;
      } else {
        var e := Edge(r.course, r.required);
        assert e in edges;
      }
    }
  }

  /** A level after the `k`-th is non-empty only if `k` evaluations still left a chain of
      `k + 1` distinct courses, so `k` is below the number of edge sources. */
  lemma LevelBound(edges: seq<Edge>, k: nat)
    requires Level(edges, k + 1) != []
    ensures k + 1 <= |Sources(edges)|
  {
    var x := Level(edges, k + 1)[0];
    StepMember(edges, Level(edges, k), x);
    var pc, p :| pc in Level(edges, k) && p in edges && !pc.isCycle && p.course == pc.required
      && x == Follow(pc, p);
    LevelInvariant(edges, k, pc);
    NonCycleDistinct(edges, pc, k);
    WalkSources(edges, pc, k);
    DistinctBounded(pc.visited, Sources(edges));
  }

  /** A chain that is not flagged has visited each of its courses once. */
  lemma NonCycleDistinct(edges: seq<Edge>, pc: ChainRow, k: nat)
    requires ChainInvariant(edges, pc, k) && !pc.isCycle
    ensures Distinct(pc.visited)
  {
    assert pc.visited == pc.visited[..k] + [pc.course];
  }

  /** Once a working table is empty every later one is. */
  lemma {:induction false} LevelsStayEmpty(edges: seq<Edge>, k: nat, j: nat)
    requires Level(edges, k) == [] && k <= j
    ensures Level(edges, j) == []
    decreases j - k
  {
    if k < j {
      assert Level(edges, k + 1) == Step(edges, []);
      LevelsStayEmpty(edges, k + 1, j);
    }
  }

  /** The recursion ends: beyond as many evaluations as there are edge sources, nothing is
      produced. */
  lemma LevelsVanish(edges: seq<Edge>, k: nat)
    requires k > |Sources(edges)|
    ensures Level(edges, k) == []
  {
    if Level(edges, k) != [] {
      LevelBound(edges, k - 1);
    }
  }

  /** `x` is a row of the `j`-th working table. */
  ghost predicate InLevel(edges: seq<Edge>, x: ChainRow, j: nat) {
    x in Level(edges, j)
  }

  lemma {:induction false} ChainFromMember(edges: seq<Edge>, k: nat, x: ChainRow)
    requires k <= |Sources(edges)|
    ensures x in ChainFrom(edges, k) <==> exists j: nat :: k <= j && InLevel(edges, x, j)
    decreases |Sources(edges)| - k
  {
    if Level(edges, k + 1) == [] {
      LastLevel(edges, k, x);
    } else {
      LevelBound(edges, k);
      ChainFromMember(edges, k + 1, x);
      ChainFromUnfold(edges, k, x);
    }
  }

  lemma LastLevel(edges: seq<Edge>, k: nat, x: ChainRow)
    requires k <= |Sources(edges)| && Level(edges, k + 1) == []
    ensures x in ChainFrom(edges, k) <==> exists j: nat :: k <= j && InLevel(edges, x, j)
  {
    assert ChainFrom(edges, k) == Level(edges, k) + [];
    if x in Level(edges, k) {
      assert InLevel(edges, x, k);
    }
    forall j: nat | k <= j && InLevel(edges, x, j) ensures x in Level(edges, k) {
      if j > k {
        LevelsStayEmpty(edges, k + 1, j);
      }
    }
  }

  lemma ChainFromCons(edges: seq<Edge>, k: nat)
    requires k + 1 <= |Sources(edges)| && Level(edges, k + 1) != []
    ensures ChainFrom(edges, k) == Level(edges, k) + ChainFrom(edges, k + 1)
  {
  }

  lemma ChainFromUnfold(edges: seq<Edge>, k: nat, x: ChainRow)
    requires k + 1 <= |Sources(edges)| && Level(edges, k + 1) != []
    requires x in ChainFrom(edges, k + 1) <==> exists j: nat :: k + 1 <= j && InLevel(edges, x, j)
    ensures x in ChainFrom(edges, k) <==> exists j: nat :: k <= j && InLevel(edges, x, j)
  {
    ChainFromCons(edges, k);
    if x in Level(edges, k) {
      assert InLevel(edges, x, k);
    }
    forall j: nat | k <= j && InLevel(edges, x, j) ensures x in ChainFrom(edges, k) {
      if j > k {
        assert x in ChainFrom(edges, k + 1);
      }
    }
  }

  lemma {:induction false} FlaggedPairsMember(rows: seq<ChainRow>, e: Edge)
    ensures e in FlaggedPairs(rows) <==> exists r :: r in rows && r.isCycle && e == Edge(r.course, r.required)
  {
    if rows != [] {
      var init := rows[..|rows| - 1];
      assert rows == init + [rows[|rows| - 1]];
      FlaggedPairsMember(init, e);
    }
  }

  /** A pair is reported exactly when some chain row of some level is flagged with it. */
  lemma CircularMember(edges: seq<Edge>, e: Edge)
    ensures e in CircularPrerequisites(edges) <==>
      exists k: nat, r :: InLevel(edges, r, k) && r.isCycle && e == Edge(r.course, r.required)
  {
    FlaggedPairsMember(PrereqChain(edges), e);
    if e in CircularPrerequisites(edges) {
      var r :| r in PrereqChain(edges) && r.isCycle && e == Edge(r.course, r.required);
      ChainFromMember(edges, 0, r);
    }
    if exists k: nat, r :: InLevel(edges, r, k) && r.isCycle && e == Edge(r.course, r.required) {
      var k: nat, r :| InLevel(edges, r, k) && r.isCycle && e == Edge(r.course, r.required);
      ChainFromMember(edges, 0, r);
      assert InLevel(edges, r, k);
      assert r in PrereqChain(edges);
    }
  }

  lemma SubWalk(edges: seq<Edge>, w: seq<string>, i: nat, j: nat)
    requires Walk(edges, w) && i <= j <= |w|
    ensures Walk(edges, w[i..j])
  {
    forall m | 0 <= m < j - i - 1 ensures Edge(w[i..j][m], w[i..j][m + 1]) in edges {
      assert w[i..j][m] == w[i + m] && w[i..j][m + 1] == w[i + m + 1];
    }
  }

  /** A flagged row's course lies on a cycle: the part of its walk from the earlier visit. */
  lemma FlaggedOnCycle(edges: seq<Edge>, r: ChainRow, k: nat)
    requires r in Level(edges, k) && r.isCycle
    ensures Edge(r.course, r.required) in edges && OnCycle(edges, r.course)
  {
    LevelInvariant(edges, k, r);
    var i :| 0 <= i < k && r.visited[..k][i] == r.course;
    var w := r.visited[i..k + 1];
    SubWalk(edges, r.visited, i, k + 1);
    assert w[0] == r.course && w[|w| - 1] == r.course;
    assert ClosedWalk(edges, w);
  }

  /** Joining two walks that meet at a course gives a walk. */
  lemma WalkSplice(edges: seq<Edge>, a: seq<string>, b: seq<string>)
    requires Walk(edges, a) && Walk(edges, b) && |a| >= 1 && |b| >= 1
    requires Edge(a[|a| - 1], b[0]) in edges
    ensures Walk(edges, a + b)
  {
    var w := a + b;
    forall i | 0 <= i < |w| - 1 ensures Edge(w[i], w[i + 1]) in edges {
      if i < |a| - 1 {
        assert w[i] == a[i] && w[i + 1] == a[i + 1];
      } else if i >= |a| {
        assert w[i] == b[i - |a|] && w[i + 1] == b[i - |a| + 1];
      }
    }
  }

  /** A closed walk can be shortened to one whose courses, but the last, are distinct. */
  lemma SimpleCycle(edges: seq<Edge>, w: seq<string>) returns (v: seq<string>)
    requires ClosedWalk(edges, w)
    ensures ClosedWalk(edges, v) && v[0] == w[0] && Distinct(v[..|v| - 1])
    decreases |w|
  {
    var n := |w| - 1;
    if Distinct(w[..n]) {
      return w;
    }
    var i, j :| 0 <= i < j < n && w[..n][i] == w[..n][j];
    if i == 0 {
      var u := w[j..];
      SubWalk(edges, w, j, |w|);
      v := SimpleCycle(edges, u);
    } else {
      var a := w[..i];
      var b := w[j..];
      SubWalk(edges, w, 0, i);
      SubWalk(edges, w, j, |w|);
      assert Edge(w[i - 1], w[i]) in edges;
      WalkSplice(edges, a, b);
      var u := a + b;
      assert u[0] == w[0] && u[|u| - 1] == w[n];
      v := SimpleCycle(edges, u);
    }
  }

  /** Walking a simple cycle, the chain that starts at its first edge is not yet flagged after
      `j` evaluations. */
  lemma {:induction false} CycleChain(edges: seq<Edge>, w: seq<string>, j: nat)
    requires ClosedWalk(edges, w) && Distinct(w[..|w| - 1])
    requires j < |w| - 1
    ensures ChainRow(w[j], w[j + 1], w[..j + 1], false) in Level(edges, j)
  {
    if j == 0 {
      var e := Edge(w[0], w[1]);
      var i :| 0 <= i < |edges| && edges[i] == e;
      assert Anchor(edges)[i] == ChainRow(w[0], w[1], [w[0]], false);
      assert w[..1] == [w[0]];
    } else {
      CycleChain(edges, w, j - 1);
      var pc := ChainRow(w[j - 1], w[j], w[..j], false);
      var p := Edge(w[j], w[j + 1]);
      assert w[..j + 1] == w[..j] + [w[j]];
      assert w[j] !in w[..j] by {
        assert w[..|w| - 1][j] == w[j];
        forall m | 0 <= m < j ensures w[m] != w[j] {
          assert w[..|w| - 1][m] == w[m];
        }
      }
      assert Follow(pc, p) == ChainRow(w[j], w[j + 1], w[..j + 1], false);
      StepMember(edges, Level(edges, j - 1), Follow(pc, p));
    }
  }

  /** Every edge leaving a course on a cycle is flagged: follow a simple cycle through that
      course, then the edge. */
  lemma CycleSourceFlagged(edges: seq<Edge>, e: Edge)
    requires e in edges && OnCycle(edges, e.course)
    ensures e in CircularPrerequisites(edges)
  {
    var w0 :| ClosedWalk(edges, w0) && w0[0] == e.course;
    var w := SimpleCycle(edges, w0);
    var m, r := CycleClosed(edges, w, e);
    assert InLevel(edges, r, m);
    CircularMember(edges, e);
  }

  /** The chain along a simple cycle, followed by an edge leaving its first course, is flagged. */
  lemma CycleClosed(edges: seq<Edge>, w: seq<string>, e: Edge) returns (m: nat, r: ChainRow)
    requires ClosedWalk(edges, w) && Distinct(w[..|w| - 1])
    requires e in edges && e.course == w[0]
    ensures r in Level(edges, m) && r.isCycle && e == Edge(r.course, r.required)
  {
    m := |w| - 1;
    CycleChain(edges, w, m - 1);
    var pc := ChainRow(w[m - 1], w[m], w[..m], false);
    assert w[..m][0] == e.course;
    r := Follow(pc, e);
    StepMember(edges, Level(edges, m - 1), r);
  }

  /** An edge is reported exactly when it is an edge whose SOURCE lies on a directed cycle;
      edges leaving a cycle are reported as well as the cycle's own. */
  lemma CircularIff(edges: seq<Edge>, e: Edge)
    ensures e in CircularPrerequisites(edges) <==> e in edges && OnCycle(edges, e.course)
  {
    CircularMember(edges, e);
    if e in CircularPrerequisites(edges) {
      var k: nat, r :| InLevel(edges, r, k) && r.isCycle && e == Edge(r.course, r.required);
      FlaggedOnCycle(edges, r, k);
    }
    if e in edges && OnCycle(edges, e.course) {
      CycleSourceFlagged(edges, e);
    }
  }

  /** No pair is reported twice, and every reported pair is an input edge. */
  lemma CircularReportsEdges(edges: seq<Edge>)
    ensures Distinct(CircularPrerequisites(edges))
    ensures forall e :: e in CircularPrerequisites(edges) ==> e in edges
  {
    forall e | e in CircularPrerequisites(edges) {
      CircularIff(edges, e);
    }
  }

  /** An acyclic graph yields nothing. */
  lemma AcyclicNoReport(edges: seq<Edge>)
    requires forall x :: !OnCycle(edges, x)
    ensures CircularPrerequisites(edges) == []
  {
    if CircularPrerequisites(edges) != [] {
      CircularIff(edges, CircularPrerequisites(edges)[0]);
    }
  }

  /** A self-loop is reported. */
  lemma SelfLoopReported(edges: seq<Edge>, x: string)
    requires Edge(x, x) in edges
    ensures Edge(x, x) in CircularPrerequisites(edges)
  {
    assert ClosedWalk(edges, [x, x]);
    CircularIff(edges, Edge(x, x));
  }

  /** Both edges of a two-course cycle are reported. */
  lemma TwoCycleReported(edges: seq<Edge>, a: string, b: string)
    requires Edge(a, b) in edges && Edge(b, a) in edges
    ensures Edge(a, b) in CircularPrerequisites(edges) && Edge(b, a) in CircularPrerequisites(edges)
  {
    assert ClosedWalk(edges, [a, b, a]);
    assert ClosedWalk(edges, [b, a, b]);
    CircularIff(edges, Edge(a, b));
    CircularIff(edges, Edge(b, a));
  }

  /** With A -> B, B -> A and A -> C the edge A -> C is reported too, although it lies on no
      cycle. */
  lemma ExitEdgeReported()
    ensures Edge("A", "C") in CircularPrerequisites([Edge("A", "B"), Edge("B", "A"), Edge("A", "C")])
  {
    var edges := [Edge("A", "B"), Edge("B", "A"), Edge("A", "C")];
    assert ClosedWalk(edges, ["A", "B", "A"]);
    CircularIff(edges, Edge("A", "C"));
  }

  // ---------------------------------------------------------------- the summary

  datatype AnomalyReport = AnomalyReport(missingPrerequisites: seq<MissingRow>, circularPrerequisites: seq<Edge>)

  /** `detect_anomalies`: both lists, as the queries return them. */
  function DetectAnomalies(students: map<int, string>, completions: seq<Completion>, edges: seq<Edge>): AnomalyReport {
    AnomalyReport(MissingPrerequisites(students, completions, edges), CircularPrerequisites(edges))
  }

  /** The number of hard anomalies the summary logs. */
  function HardAnomalies(r: AnomalyReport): nat {
    |r.missingPrerequisites| + |r.circularPrerequisites|
  }

  /** There is no hard anomaly exactly when no completion misses a prerequisite and no course
      with an outgoing edge lies on a cycle. */
  lemma NoHardAnomalies(st: map<int, string>, cs: seq<Completion>, es: seq<Edge>)
    ensures HardAnomalies(DetectAnomalies(st, cs, es)) == 0 <==>
      && (forall c, p :: c in cs && p in es ==> !Emits(st, cs, c, p))
      && (forall e :: e in es ==> !OnCycle(es, e.course))
  {
    var r := DetectAnomalies(st, cs, es);
    if r.missingPrerequisites != [] {
      MissingPrerequisitesMember(st, cs, es, r.missingPrerequisites[0]);
    }
    if r.circularPrerequisites != [] {
      CircularIff(es, r.circularPrerequisites[0]);
    }
    forall c, p | c in cs && p in es && Emits(st, cs, c, p)
      ensures r.missingPrerequisites != []
    {
      MissingPrerequisitesMember(st, cs, es, RowFor(st, c, p));
    }
    forall e | e in es && OnCycle(es, e.course)
      ensures r.circularPrerequisites != []
    {
      CircularIff(es, e);
    }
  }
}
