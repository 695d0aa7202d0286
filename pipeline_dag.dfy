/** The anomaly gate and the bias analysis of the pipeline's DAG
    (Data-Pipeline/dags/pipeline_dag.py). Percentages and averages are kept exactly, as whole
    hundredths rounded half up, instead of as binary floats. */
module PipelineDag {
  import opened Sequences
  import opened Records
  import opened Validate
  import opened Anomalies

  // ---------------------------------------------------------------- the anomaly gate

  datatype GateOutcome = GatePassed | GateRaised(totalAnomalies: nat)

  /** `task_detect_anomalies` after the queries: the total of both lists, raised with
      `ValueError` when positive. */
  function AnomalyGate(r: AnomalyReport): (g: GateOutcome)
    ensures g.GateRaised? ==> g.totalAnomalies > 0
  {
    var total := |r.missingPrerequisites| + |r.circularPrerequisites|;
    if total > 0 then GateRaised(total) else GatePassed
  }

  /** The gate raises exactly when some completion misses a prerequisite or some edge leaves a
      course on a cycle, and then with the hard-anomaly count. */
  lemma AnomalyGateRaisesIff(st: map<int, string>, cs: seq<Completion>, es: seq<Edge>)
    ensures var g := AnomalyGate(DetectAnomalies(st, cs, es));
      && (g.GateRaised? <==>
        || (exists c, p :: c in cs && p in es && Emits(st, cs, c, p))
        || (exists e :: e in es && OnCycle(es, e.course)))
      && (g.GateRaised? ==> g.totalAnomalies == HardAnomalies(DetectAnomalies(st, cs, es)))
  {
    NoHardAnomalies(st, cs, es);
  }

  // ---------------------------------------------------------------- rounded arithmetic

  /** The floor of `x / d`, by repeated subtraction. */
  function Quotient(x: int, d: nat): int
    requires d > 0
    decreases if x >= 0 then x else d - x
  {
    if 0 <= x < d then 0
    else if x >= d then 1 + Quotient(x - d, d)
    else Quotient(x + d, d) - 1
  }

  lemma {:induction false} QuotientBounds(x: int, d: nat)
    requires d > 0
    ensures d * Quotient(x, d) <= x < d * Quotient(x, d) + d
    decreases if x >= 0 then x else d - x
  {
    if x >= d {
      var q := Quotient(x - d, d);
      QuotientBounds(x - d, d);
      assert Quotient(x, d) == q + 1;
      MulSucc(d, q);
    } else if x < 0 {
      var q := Quotient(x + d, d);
      QuotientBounds(x + d, d);
      assert Quotient(x, d) == q - 1;
      MulSucc(d, q - 1);
    }
  }

  /** `round(count / total * 100, 2)` in hundredths of a percent, 0 without courses. */
  function PercentHundredths(count: nat, total: nat): nat {
    if total == 0 then 0
    else
      QuotientBounds(20000 * count + total, 2 * total);
      Quotient(20000 * count + total, 2 * total)
  }

  /** `round(sum / n, 2)` in hundredths. */
  function MeanHundredths(sum: int, n: nat): int
    requires n > 0
  {
    Quotient(200 * sum + n, 2 * n)
  }

  /** The percentage is the hundredth nearest to `100 * count / total`. */
  lemma PercentNearest(count: nat, total: nat)
    requires total > 0
    ensures var h := PercentHundredths(count, total);
      2 * total * h <= 20000 * count + total < 2 * total * (h + 1)
  {
    QuotientBounds(20000 * count + total, 2 * total);
  }

  /** Below 10 percent after rounding is below 9.995 percent before it. */
  lemma LowThreshold(count: nat, total: nat)
    requires total > 0
    ensures PercentHundredths(count, total) < 1000 <==> 20000 * count < 1999 * total
  {
    var h := PercentHundredths(count, total);
    PercentNearest(count, total);
    if h < 1000 {
      assert 2 * total * (h + 1) <= 2 * total * 1000 by {
        MulMonotone(2 * total, h + 1, 1000);
      }
    } else {
      assert 2 * total * 1000 <= 2 * total * h by {
        MulMonotone(2 * total, 1000, h);
      }
    }
  }

  lemma MulSucc(a: int, q: int)
    ensures a * (q + 1) == a * q + a
    ensures (q + 1) * a == q * a + a
  {
  }

  lemma ScaleMul(n: nat, v: int)
    ensures (2 * n) * (100 * v) == 200 * (n * v)
  {
  }

  lemma MulMonotone(a: nat, b: int, c: int)
    requires b <= c
    ensures a * b <= a * c
  {
  }

  /** A rounded mean lies between the rounded minimum and maximum. */
  lemma MeanBetween(sum: int, n: nat, lo: int, hi: int)
    requires n > 0 && n * lo <= sum <= n * hi
    ensures 100 * lo <= MeanHundredths(sum, n) <= 100 * hi
  {
    var x := 200 * sum + n;
    var d := 2 * n;
    var q := Quotient(x, d);
    QuotientBounds(x, d);
    ScaleMul(n, lo);
    ScaleMul(n, hi);
    MulSucc(d, q);
    MulSucc(d, 100 * hi);
    if q < 100 * lo {
      MulMonotone(d, q + 1, 100 * lo);
    }
    if q > 100 * hi {
      MulMonotone(d, 100 * hi + 1, q);
    }
  }

  // ---------------------------------------------------------------- program coverage

  const ExpectedPrograms: set<string> := {"MS_DAE", "MS_DS", "MS_CS", "MS_DA", "MS_IS"}

  datatype Coverage = Coverage(count: nat, percentageHundredths: nat)

  datatype CreditStats = CreditStats(avgHundredths: int, minCredits: int, maxCredits: int)

  /** A bias flag; the source renders each as a message string. */
  datatype BiasFlag =
    | LowCoverage(program: string, percentageHundredths: nat, count: nat)
    | MissingProgram(program: string)
    | CreditImbalance(minAvgHundredths: int, maxAvgHundredths: int)

  datatype BiasReport = BiasReport(
    programCoverage: map<string, Coverage>,
    creditDistribution: map<string, CreditStats>,
    biasFlags: seq<BiasFlag>)

  /** `order` lists each member of `programs` once: an iteration order of the set. */
  ghost predicate Lists(order: seq<string>, programs: set<string>) {
    Distinct(order) && forall p :: p in order <==> p in programs
  }

  /** The number of courses of program `p` (0 when absent) and its rounded percentage. */
  function CoverageOf(courses: seq<Course>, p: string): Coverage {
    var count := Occurrences(Programs(courses), p);
    Coverage(count, PercentHundredths(count, |courses|))
  }

  function CoverageMap(courses: seq<Course>, programs: set<string>): map<string, Coverage> {
    map p | p in programs :: CoverageOf(courses, p)
  }

  /** The flags one program earns: low coverage below 10 percent, and missing with no course. */
  function FlagsFor(courses: seq<Course>, p: string): seq<BiasFlag> {
    var cov := CoverageOf(courses, p);
    (if cov.percentageHundredths < 1000 then [LowCoverage(p, cov.percentageHundredths, cov.count)] else [])
      + (if cov.count == 0 then [MissingProgram(p)] else [])
  }

  /** The coverage flags, program by program in the iteration order. */
  function CoverageFlags(courses: seq<Course>, order: seq<string>): seq<BiasFlag> {
    FlatMap(order, ProgramFlags(courses))
  }

  function ProgramFlags(courses: seq<Course>): string -> seq<BiasFlag> {
    p => FlagsFor(courses, p)
  }

  // ---------------------------------------------------------------- credit distribution

  /** The credits of the courses of program `p`, in order (one `groupby` group). */
  function GroupCredits(cs: seq<Course>, p: string): seq<int> {
    if cs == [] then []
    else
      var c := cs[|cs| - 1];
      GroupCredits(cs[..|cs| - 1], p) + (if c.program == p then [c.credits] else [])
  }

  function Sum(s: seq<int>): int {
    if s == [] then 0 else Sum(s[..|s| - 1]) + s[|s| - 1]
  }

  function Min(s: seq<int>): int
    requires s != []
  {
    if |s| == 1 then s[0]
    else
      var m := Min(s[..|s| - 1]);
      if s[|s| - 1] < m then s[|s| - 1] else m
  }

  function Max(s: seq<int>): int
    requires s != []
  {
    if |s| == 1 then s[0]
    else
      var m := Max(s[..|s| - 1]);
      if s[|s| - 1] > m then s[|s| - 1] else m
  }

  function StatsOf(g: seq<int>): CreditStats
    requires g != []
  {
    CreditStats(MeanHundredths(Sum(g), |g|), Min(g), Max(g))
  }

  function GroupStats(courses: seq<Course>, p: string): CreditStats
    requires p in Programs(courses)
  {
    GroupMembers(courses, p);
    StatsOf(GroupCredits(courses, p))
  }

  function CreditDistribution(courses: seq<Course>): map<string, CreditStats> {
    map p | p in Programs(courses) :: GroupStats(courses, p)
  }

  /** The averages in the order the groups are listed. */
  function Averages(courses: seq<Course>, groups: seq<string>): seq<int>
    requires forall p :: p in groups ==> p in Programs(courses)
  {
    if groups == [] then []
    else
      Averages(courses, groups[..|groups| - 1]) + [GroupStats(courses, groups[|groups| - 1]).avgHundredths]
  }

  /** At most one imbalance flag, when the averages spread by more than one credit. */
  function ImbalanceFlag(avgs: seq<int>): seq<BiasFlag> {
    if avgs != [] && Max(avgs) - Min(avgs) > 100 then [CreditImbalance(Min(avgs), Max(avgs))] else []
  }

  lemma {:induction false} GroupMembers(cs: seq<Course>, p: string)
    ensures forall x :: x in GroupCredits(cs, p) <==> exists c :: c in cs && c.program == p && c.credits == x
    ensures p in Programs(cs) <==> GroupCredits(cs, p) != []
  {
    if cs != [] {
      var init := cs[..|cs| - 1];
      assert cs == init + [cs[|cs| - 1]];
      assert Programs(cs) == Programs(init) + [cs[|cs| - 1].program];
      GroupMembers(init, p);
    }
  }

  lemma MinMaxBound(s: seq<int>)
    requires s != []
    ensures Min(s) in s && Max(s) in s
    ensures forall x :: x in s ==> Min(s) <= x <= Max(s)
    ensures |s| * Min(s) <= Sum(s) <= |s| * Max(s)
  {
    MinMaxMembers(s);
    SumBetween(s, Min(s), Max(s));
  }

  lemma {:induction false} MinMaxMembers(s: seq<int>)
    requires s != []
    ensures Min(s) in s && Max(s) in s
    ensures forall x :: x in s ==> Min(s) <= x <= Max(s)
  {
    if |s| > 1 {
      var init := s[..|s| - 1];
      assert s == init + [s[|s| - 1]];
      MinMaxMembers(init);
    }
  }

  lemma {:induction false} SumBetween(s: seq<int>, lo: int, hi: int)
    requires forall x :: x in s ==> lo <= x <= hi
    ensures |s| * lo <= Sum(s) <= |s| * hi
  {
    if s != [] {
      var init := s[..|s| - 1];
      var n := |init|;
      assert forall x :: x in init ==> x in s;
      assert s[|s| - 1] in s;
      SumBetween(init, lo, hi);
      MulSucc(lo, n);
      MulSucc(hi, n);
    }
  }

  /** `credit_distribution` has one entry per program present; each entry's minimum and maximum
      are credits of that program's courses bounding all of them, and the average lies between. */
  lemma CreditDistributionMeaning(courses: seq<Course>)
    ensures forall p :: p in CreditDistribution(courses) <==> exists c :: c in courses && c.program == p
    ensures forall p :: p in CreditDistribution(courses) ==>
      var s := CreditDistribution(courses)[p];
      && 100 * s.minCredits <= s.avgHundredths <= 100 * s.maxCredits
      && (exists c :: c in courses && c.program == p && c.credits == s.minCredits)
      && (exists c :: c in courses && c.program == p && c.credits == s.maxCredits)
      && forall c :: c in courses && c.program == p ==> s.minCredits <= c.credits <= s.maxCredits
  {
    ColumnHasPrograms(courses);
    forall p | p in CreditDistribution(courses)
      ensures var s := CreditDistribution(courses)[p];
        && 100 * s.minCredits <= s.avgHundredths <= 100 * s.maxCredits
        && (exists c :: c in courses && c.program == p && c.credits == s.minCredits)
        && (exists c :: c in courses && c.program == p && c.credits == s.maxCredits)
        && forall c :: c in courses && c.program == p ==> s.minCredits <= c.credits <= s.maxCredits
    {
      var g := GroupCredits(courses, p);
      GroupMembers(courses, p);
      MinMaxBound(g);
      MeanBetween(Sum(g), |g|, Min(g), Max(g));
      forall c | c in courses && c.program == p ensures c.credits in g { }
    }
  }

  lemma ColumnHasPrograms(cs: seq<Course>)
    ensures forall p :: p in Programs(cs) <==> exists c :: c in cs && c.program == p
  {
    forall p | p in Programs(cs) ensures exists c :: c in cs && c.program == p {
      var i :| 0 <= i < |cs| && Programs(cs)[i] == p;
      assert cs[i] in cs;
    }
    forall c | c in cs ensures c.program in Programs(cs) {
      var i :| 0 <= i < |cs| && cs[i] == c;
      assert Programs(cs)[i] == c.program;
    }
  }

  // ---------------------------------------------------------------- the task

  /** The bias-analysis body of `task_bias_detection`: coverage of each expected program in the
      set's iteration order `order`, then one credit summary per group, then the imbalance
      check over the groups' averages. */
  method BiasDetection(courses: seq<Course>, order: seq<string>) returns (report: BiasReport)
    requires Lists(order, ExpectedPrograms)
    ensures report.programCoverage == CoverageMap(courses, ExpectedPrograms)
    ensures report.creditDistribution == CreditDistribution(courses)
    ensures report.biasFlags
      == CoverageFlags(courses, order) + ImbalanceFlag(Averages(courses, Dedup(Programs(courses))))
  {
    var coverage, flags := ProgramCoverage(courses, order);
    var distribution, avgValues := CreditSummaries(courses);
    if avgValues != [] && Max(avgValues) - Min(avgValues) > 100 {
      flags := flags + [CreditImbalance(Min(avgValues), Max(avgValues))];
    }
    report := BiasReport(coverage, distribution, flags);
  }

  /** The loop over the expected programs: coverage entries and coverage flags. */
  method ProgramCoverage(courses: seq<Course>, order: seq<string>)
    returns (coverage: map<string, Coverage>, flags: seq<BiasFlag>)
    requires Lists(order, ExpectedPrograms)
    ensures coverage == CoverageMap(courses, ExpectedPrograms)
    ensures flags == CoverageFlags(courses, order)
  {
    var total := |courses|;
    var programCounts := ValueCounts(Programs(courses));
    coverage := map[];
    flags := [];
    for i := 0 to |order|
      invariant CoverageUpTo(courses, order, i, coverage)
      invariant flags == FlatMap(order[..i], ProgramFlags(courses))
    {
      var program := order[i];
      var count := if program in programCounts then programCounts[program] else 0;
      var percentage := PercentHundredths(count, total);
      CountLookup(courses, program);
      CoverageStep(courses, order, i, coverage, Coverage(count, percentage));
      coverage := coverage[program := Coverage(count, percentage)];
      ghost var before := flags;
      if percentage < 1000 {
        flags := flags + [LowCoverage(program, percentage, count)];
      }
      if count == 0 {
        flags := flags + [MissingProgram(program)];
      }
      FlagsStep(courses, order, i, before, count, percentage);
    }
    assert order[..|order|] == order;
    CoverageComplete(courses, order, coverage);
  }

  lemma FlagsStep(courses: seq<Course>, order: seq<string>, i: nat, before: seq<BiasFlag>, count: nat, pct: nat)
    requires i < |order| && before == FlatMap(order[..i], ProgramFlags(courses))
    requires CoverageOf(courses, order[i]) == Coverage(count, pct)
    ensures before + (if pct < 1000 then [LowCoverage(order[i], pct, count)] else [])
      + (if count == 0 then [MissingProgram(order[i])] else [])
      == FlatMap(order[..i + 1], ProgramFlags(courses))
  {
    FlagsForIs(courses, order[i], count, pct);
    FlatMapSnoc(order, i, ProgramFlags(courses));
  }

  /** The coverage entries of the first `i` programs of `order`. */
  ghost predicate CoverageUpTo(courses: seq<Course>, order: seq<string>, i: nat, coverage: map<string, Coverage>)
    requires i <= |order|
  {
    && (forall p :: p in coverage <==> p in order[..i])
    && (forall p :: p in coverage ==> coverage[p] == CoverageOf(courses, p))
  }

  lemma CoverageStep(courses: seq<Course>, order: seq<string>, i: nat, coverage: map<string, Coverage>, c: Coverage)
    requires i < |order| && CoverageUpTo(courses, order, i, coverage)
    requires c == CoverageOf(courses, order[i])
    ensures CoverageUpTo(courses, order, i + 1, coverage[order[i] := c])
  {
    assert order[..i + 1] == order[..i] + [order[i]];
  }

  lemma CoverageComplete(courses: seq<Course>, order: seq<string>, coverage: map<string, Coverage>)
    requires Lists(order, ExpectedPrograms)
    requires CoverageUpTo(courses, order, |order|, coverage)
    ensures coverage == CoverageMap(courses, ExpectedPrograms)
  {
    assert order[..|order|] == order;
  }

  /** `value_counts().to_dict().get(p, 0)` is the number of courses of `p`. */
  lemma CountLookup(courses: seq<Course>, p: string)
    ensures (if p in ValueCounts(Programs(courses)) then ValueCounts(Programs(courses))[p] else 0)
      == CoverageOf(courses, p).count
  {
    if p !in Programs(courses) {
      OccurrencesAbsent(Programs(courses), p);
    }
  }

  lemma FlagsForIs(courses: seq<Course>, p: string, count: nat, pct: nat)
    requires CoverageOf(courses, p) == Coverage(count, pct)
    ensures FlagsFor(courses, p)
      == (if pct < 1000 then [LowCoverage(p, pct, count)] else []) + (if count == 0 then [MissingProgram(p)] else [])
  {
  }

  /** The loop over the `groupby` groups: one credit summary per program present, and the list
      of their averages. */
  method CreditSummaries(courses: seq<Course>)
    returns (distribution: map<string, CreditStats>, avgValues: seq<int>)
    ensures distribution == CreditDistribution(courses)
    ensures avgValues == Averages(courses, Dedup(Programs(courses)))
  {
    var groups := Dedup(Programs(courses));
    distribution := map[];
    avgValues := [];
    for i := 0 to |groups|
      invariant DistributionUpTo(courses, groups, i, distribution)
      invariant avgValues == Averages(courses, groups[..i])
    {
      var program := groups[i];
      var stats := SummariseGroup(courses, program);
      DistributionStep(courses, groups, i, distribution, stats);
      distribution := distribution[program := stats];
      avgValues := avgValues + [stats.avgHundredths];
      AveragesSnoc(courses, groups, i);
    }
    assert groups[..|groups|] == groups;
    DistributionComplete(courses, groups, distribution);
  }

  /** The credit summaries of the first `i` groups. */
  ghost predicate DistributionUpTo(courses: seq<Course>, groups: seq<string>, i: nat, distribution: map<string, CreditStats>)
    requires i <= |groups|
  {
    && (forall p :: p in distribution <==> p in groups[..i])
    && (forall p :: p in distribution ==> p in Programs(courses) && distribution[p] == GroupStats(courses, p))
  }

  lemma DistributionStep(courses: seq<Course>, groups: seq<string>, i: nat,
    distribution: map<string, CreditStats>, stats: CreditStats)
    requires i < |groups| && DistributionUpTo(courses, groups, i, distribution)
    requires groups[i] in Programs(courses) && stats == GroupStats(courses, groups[i])
    ensures DistributionUpTo(courses, groups, i + 1, distribution[groups[i] := stats])
  {
    assert groups[..i + 1] == groups[..i] + [groups[i]];
  }

  lemma DistributionComplete(courses: seq<Course>, groups: seq<string>, distribution: map<string, CreditStats>)
    requires forall p :: p in groups <==> p in Programs(courses)
    requires DistributionUpTo(courses, groups, |groups|, distribution)
    ensures distribution == CreditDistribution(courses)
  {
    assert groups[..|groups|] == groups;
  }

  /** Mean, minimum and maximum credits of one program's courses, in one pass. */
  method SummariseGroup(courses: seq<Course>, p: string) returns (stats: CreditStats)
    requires p in Programs(courses)
    ensures stats == GroupStats(courses, p)
  {
    var n := 0;
    var sum := 0;
    var lo := 0;
    var hi := 0;
    ghost var g: seq<int> := [];
    for i := 0 to |courses|
      invariant g == GroupCredits(courses[..i], p)
      invariant n == |g| && sum == Sum(g)
      invariant g != [] ==> lo == Min(g) && hi == Max(g)
    {
      GroupCreditsSnoc(courses, i, p);
      var c := courses[i];
      if c.program == p {
        if n == 0 || c.credits < lo {
          lo := c.credits;
        }
        if n == 0 || c.credits > hi {
          hi := c.credits;
        }
        n := n + 1;
        sum := sum + c.credits;
        g := g + [c.credits];
        assert g[..|g| - 1] == GroupCredits(courses[..i], p);
      }
    }
    assert courses[..|courses|] == courses;
    GroupMembers(courses, p);
    stats := CreditStats(MeanHundredths(sum, n), lo, hi);
  }

  lemma GroupCreditsSnoc(cs: seq<Course>, i: nat, p: string)
    requires i < |cs|
    ensures GroupCredits(cs[..i + 1], p)
      == GroupCredits(cs[..i], p) + (if cs[i].program == p then [cs[i].credits] else [])
  {
    assert cs[..i + 1][..i] == cs[..i];
  }

  // ---------------------------------------------------------------- properties of the report

  /** `program_coverage` has exactly the expected programs; each count is the number of that
      program's courses, and the percentage is 0 without courses. */
  lemma CoverageMeaning(courses: seq<Course>, programs: set<string>, p: string)
    ensures p in CoverageMap(courses, programs) <==> p in programs
    ensures p in CoverageMap(courses, programs) ==>
      && CoverageMap(courses, programs)[p].count == |Filter(courses, ProgramIs(p))|
      && (courses == [] ==> CoverageMap(courses, programs)[p].percentageHundredths == 0)
  {
    ProgramCount(courses, p);
  }

  lemma CoverageFlagsMember(courses: seq<Course>, order: seq<string>, f: BiasFlag)
    ensures f in CoverageFlags(courses, order) <==> exists p :: p in order && f in FlagsFor(courses, p)
  {
    FlatMapMember(order, ProgramFlags(courses), f);
  }

  /** A program gets a low-coverage flag exactly when it is expected and its rounded percentage
      is below 10, that is, its exact share is below 9.995 percent or there are no courses. */
  lemma LowCoverageIff(courses: seq<Course>, programs: set<string>, order: seq<string>, p: string)
    requires Lists(order, programs)
    ensures (exists h, n :: LowCoverage(p, h, n) in CoverageFlags(courses, order)) <==>
      p in programs
        && (courses == [] || 20000 * Occurrences(Programs(courses), p) < 1999 * |courses|)
  {
    var cov := CoverageOf(courses, p);
    if courses != [] {
      LowThreshold(cov.count, |courses|);
    }
    if exists h, n :: LowCoverage(p, h, n) in CoverageFlags(courses, order) {
      var h, n :| LowCoverage(p, h, n) in CoverageFlags(courses, order);
      CoverageFlagsMember(courses, order, LowCoverage(p, h, n));
    }
    if p in programs && cov.percentageHundredths < 1000 {
      CoverageFlagsMember(courses, order, LowCoverage(p, cov.percentageHundredths, cov.count));
    }
  }

  /** Exactly 10 percent is not low coverage. */
  lemma ExactlyTenPercent(courses: seq<Course>, programs: set<string>, order: seq<string>, p: string)
    requires Lists(order, programs)
    requires courses != [] && 10 * Occurrences(Programs(courses), p) == |courses|
    ensures forall h, n :: LowCoverage(p, h, n) !in CoverageFlags(courses, order)
  {
    LowCoverageIff(courses, programs, order, p);
  }

  /** A program gets a missing-program flag exactly when it is expected and has no course, and
      then it is flagged for low coverage as well. */
  lemma MissingProgramIff(courses: seq<Course>, programs: set<string>, order: seq<string>, p: string)
    requires Lists(order, programs)
    ensures MissingProgram(p) in CoverageFlags(courses, order) <==>
      p in programs && forall c :: c in courses ==> c.program != p
    ensures MissingProgram(p) in CoverageFlags(courses, order) ==>
      LowCoverage(p, 0, 0) in CoverageFlags(courses, order)
  {
    CoverageFlagsMember(courses, order, MissingProgram(p));
    CoverageFlagsMember(courses, order, LowCoverage(p, 0, 0));
    ProgramCount(courses, p);
    FilterEmpty(courses, ProgramIs(p));
    FilterEmpty(Programs(courses), (x: string) => x == p);
    OccurrencesZero(Programs(courses), p);
    ColumnHasPrograms(courses);
  }

  lemma {:induction false} OccurrencesZero(s: seq<string>, x: string)
    ensures Occurrences(s, x) == 0 <==> x !in s
  {
    if s != [] {
      var init := s[..|s| - 1];
      assert s == init + [s[|s| - 1]];
      OccurrencesZero(init, x);
    }
  }

  /** The flags do not depend on the order the program set is iterated in, as a multiset. */
  lemma CoverageFlagsOrderFree(courses: seq<Course>, programs: set<string>, o1: seq<string>, o2: seq<string>)
    requires Lists(o1, programs) && Lists(o2, programs)
    ensures multiset(CoverageFlags(courses, o1)) == multiset(CoverageFlags(courses, o2))
  {
    FlatMapReorder(o1, o2, ProgramFlags(courses));
  }

  /** Without courses every expected program is flagged twice: ten coverage flags. */
  lemma EmptyDatasetFlags(order: seq<string>)
    requires Lists(order, ExpectedPrograms)
    ensures |CoverageFlags([], order)| == 10
    ensures ImbalanceFlag(Averages([], Dedup(Programs([])))) == []
  {
    DistinctCard(order);
    assert (set p | p in order) == ExpectedPrograms;
    EmptyFlagsCount(order);
  }

  lemma {:induction false} EmptyFlagsCount(order: seq<string>)
    ensures |CoverageFlags([], order)| == 2 * |order|
  {
    if order != [] {
      EmptyFlagsCount(order[..|order| - 1]);
      assert |FlagsFor([], order[|order| - 1])| == 2;
    }
  }

  lemma AveragesSnoc(courses: seq<Course>, groups: seq<string>, i: nat)
    requires i < |groups| && forall p :: p in groups ==> p in Programs(courses)
    ensures Averages(courses, groups[..i + 1])
      == Averages(courses, groups[..i]) + [GroupStats(courses, groups[i]).avgHundredths]
  {
    assert groups[..i + 1][..i] == groups[..i];
  }

  lemma {:induction false} AveragesMembers(courses: seq<Course>, groups: seq<string>)
    requires forall p :: p in groups ==> p in Programs(courses)
    ensures |Averages(courses, groups)| == |groups|
    ensures forall i :: 0 <= i < |groups| ==>
      Averages(courses, groups)[i] == GroupStats(courses, groups[i]).avgHundredths
  {
    if groups != [] {
      AveragesMembers(courses, groups[..|groups| - 1]);
    }
  }

  /** One imbalance flag at most, raised exactly when two programs present have averages more
      than one credit apart. */
  lemma ImbalanceIff(courses: seq<Course>)
    ensures var flags := ImbalanceFlag(Averages(courses, Dedup(Programs(courses))));
      var dist := CreditDistribution(courses);
      && |flags| <= 1
      && (flags != [] <==> exists p, q :: p in dist && q in dist && dist[p].avgHundredths - dist[q].avgHundredths > 100)
  {
    var groups := Dedup(Programs(courses));
    AveragesMembers(courses, groups);
    SpreadIff(Averages(courses, groups), groups, CreditDistribution(courses));
  }

  /** The spread of a list of averages, read off the map they come from. */
  lemma SpreadIff(avgs: seq<int>, keys: seq<string>, m: map<string, CreditStats>)
    requires |avgs| == |keys|
    requires forall i :: 0 <= i < |keys| ==> keys[i] in m && avgs[i] == m[keys[i]].avgHundredths
    requires forall p :: p in m ==> p in keys
    ensures |ImbalanceFlag(avgs)| <= 1
    ensures ImbalanceFlag(avgs) != [] <==>
      exists p, q :: p in m && q in m && m[p].avgHundredths - m[q].avgHundredths > 100
  {
    if avgs != [] {
      MinMaxBound(avgs);
      if Max(avgs) - Min(avgs) > 100 {
        var i :| 0 <= i < |avgs| && avgs[i] == Max(avgs);
        var j :| 0 <= j < |avgs| && avgs[j] == Min(avgs);
        assert keys[i] in m && keys[j] in m;
      }
      forall p, q | p in m && q in m
        ensures m[p].avgHundredths - m[q].avgHundredths <= Max(avgs) - Min(avgs)
      {
        var i :| 0 <= i < |keys| && keys[i] == p;
        var j :| 0 <= j < |keys| && keys[j] == q;
        assert avgs[i] in avgs && avgs[j] in avgs;
      }
    } else {
      NoMembersEmpty(keys);
      assert forall p :: p !in m;
    }
  }
}
