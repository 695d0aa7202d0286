# CourseWeave data pipeline in Dafny

CourseWeave's data pipeline is an Airflow DAG. It reads the university's course catalogue and
prerequisite tables. It cleans them, validates them, loads them into PostgreSQL, checks the
loaded data for anomalies and reports bias across programs. Two scrapers feed course text into
a vector store. One parses catalogue web pages, the other PDF syllabi.

This project models the deterministic core of that pipeline and proves properties of it:

- `records.dfy`: the course and prerequisite rows, raw (with null cells) and cleaned, and the
  fixed enumerations of program codes, course types and credits.
- `text.dfy`: the parts of Python's `str` the pipeline uses: `strip`, `upper`, `title`,
  `split`, `join` and `str(n)`, over `seq<char>`. Case mapping covers ASCII letters only.
- `sequences.dfy`: subsequences, filtering, de-duplication, value counts and the most common
  value (the pandas operations the pipeline uses), on sequences.
- `preprocess.dfy`: the normalizer (`preprocess_courses`, `preprocess_prerequisites`,
  `preprocess_data`).
- `validate.dfy`: the schema checks, the statistics report and `validate_data`.
- `anomalies.dfy`: the missing-prerequisite anti-join and the recursive cycle query, evaluated
  over in-memory tables.
- `pipeline_dag.dfy`: the anomaly gate of the DAG and the bias analysis (program coverage,
  credit distribution, imbalance).
- `web_extract.dfy`: the catalogue scraper's text parsers (course header, prerequisites,
  corequisites, attributes). Each regular expression is a hand-written recogniser that follows
  Python's `re` semantics for its pattern.
- `pdf_extract.dfy`: the PDF script's course-code extraction, department, chunk ids and
  tracker skip rule.
- `wrappers.dfy`: `Option` and `Result`.

The table methods state their result as a function of their input. The functions are then
characterised by lemmas:

- membership in both directions;
- order;
- first occurrence wins;
- idempotence;
- round trips between printing and parsing;
- referential closure;
- the exact condition under which each check, flag or exception fires.

Where Python leaves an order unspecified (iterating a `set`), the model takes the order as a
parameter and proves that the result does not depend on it.

## Model

| member | source | states |
|---|---|---|
| Preprocess.NormaliseCourseIsNormalised | Data-Pipeline/scripts/preprocess_data.py:43-49 | a normalised row has stripped fields, an upper-cased code and program, and a title-cased type |
| Preprocess.NormaliseNormalised | Data-Pipeline/scripts/preprocess_data.py:43-49 | normalising an already normalised row gives the same row back |
| Preprocess.NormaliseCourseRows | Data-Pipeline/scripts/preprocess_data.py:42-49 | the strip/upper/title loop yields, row by row and in order, the normalised rows |
| Preprocess.DedupByCode | Data-Pipeline/scripts/preprocess_data.py:51-53 | `drop_duplicates` on the code keeps a subsequence of the rows with the same set of codes, each code once |
| Preprocess.DedupByCodeKeepsFirst | Data-Pipeline/scripts/preprocess_data.py:53 | the row kept for a code is the first input row with that code |
| Preprocess.DropDuplicateCodes | Data-Pipeline/scripts/preprocess_data.py:51-56 | the loop with a set of seen codes computes `DedupByCode` |
| Preprocess.UnexpectedCreditsKept | Data-Pipeline/scripts/preprocess_data.py:58-76 | the credits test runs on the rows left after the program and type filters and removes nothing: the first row of a code with a valid program and type stays in the output whatever its credits, and it is reported exactly when its credits are not 4; every reported row is an output row |
| Preprocess.PreprocessCourses | Data-Pipeline/scripts/preprocess_data.py:18-83 | the stage-by-stage method computes null drop, normalise, de-duplicate, then the program and type filters |
| Preprocess.CleanCoursesSubseq | Data-Pipeline/scripts/preprocess_data.py:34-70 | the cleaned courses are the normalised complete rows, in input order, with some left out |
| Preprocess.CleanCoursesFromCompleteRows | Data-Pipeline/scripts/preprocess_data.py:34-40 | every cleaned course is the normalisation of an input row with no null required field |
| Preprocess.CleanCoursesWellFormed | Data-Pipeline/scripts/preprocess_data.py:43-70 | every cleaned course is normalised and has a valid program and type; codes are unique |
| Preprocess.CleanCoursesFirstWins | Data-Pipeline/scripts/preprocess_data.py:51-70 | only the first row of a code can survive, and it survives exactly when its program and type are valid |
| Preprocess.KeptRowIsFirst | Data-Pipeline/scripts/preprocess_data.py:53 | after de-duplication the row with a given code is the first input row with it |
| Preprocess.NormaliseEdgeRows | Data-Pipeline/scripts/preprocess_data.py:101-102 | the loop strips and upper-cases both endpoints of every edge, in order |
| Preprocess.PreprocessPrerequisites | Data-Pipeline/scripts/preprocess_data.py:86-118 | the method computes null drop, normalise, de-duplicate pairs, then drop orphans |
| Preprocess.CleanPrereqsWellFormed | Data-Pipeline/scripts/preprocess_data.py:99-114 | cleaned edges are distinct, normalised and have both endpoints known, and every such normalised input edge is kept |
| Preprocess.PreprocessData | Data-Pipeline/scripts/preprocess_data.py:121-133 | prerequisites are cleaned against exactly the set of cleaned course codes |
| Preprocess.CleanDataClosed | Data-Pipeline/scripts/preprocess_data.py:126-128 | every cleaned edge joins two cleaned courses |
| Preprocess.CleanDataIdempotent | Data-Pipeline/scripts/preprocess_data.py:121-133 | cleaning the cleaned tables again changes nothing |
| Preprocess.DedupByCodeDistinct | Data-Pipeline/scripts/preprocess_data.py:53 | de-duplicating rows whose codes are already distinct changes nothing |
| Validate.NullChecksMeaning | Data-Pipeline/scripts/validate_data.py:42-46 | the null checks report exactly the listed columns that hold a null, each with its count |
| Validate.ReportNulls | Data-Pipeline/scripts/validate_data.py:42-46 | the `for col` loop appends one `no_nulls` entry per column with a null, in loop order |
| Validate.ValidateCourses | Data-Pipeline/scripts/validate_data.py:32-73 | the method appends the violations check by check, or raises `KeyError` at the first indexed column missing |
| Validate.CourseViolationParts | Data-Pipeline/scripts/validate_data.py:32-73 | the violation list is the columns entry, the null checks and the four row checks, and is empty exactly when each part is |
| Validate.CourseKeyError | Data-Pipeline/scripts/validate_data.py:49-70 | `KeyError` is raised exactly when an indexed column is missing, naming the first in access order |
| Validate.CoursesPassIff | Data-Pipeline/scripts/validate_data.py:32-73 | a course frame yields no violation exactly when it conforms (columns present, no nulls, unique codes, valid enumerations, positive credits) |
| Validate.RowChecksPass | Data-Pipeline/scripts/validate_data.py:48-71 | each row check is silent exactly when its condition holds on every row |
| Validate.CourseNullViolation | Data-Pipeline/scripts/validate_data.py:42-46 | a `no_nulls` entry is reported exactly for present required columns with a null, with the column's null count |
| Validate.CourseDuplicateViolation | Data-Pipeline/scripts/validate_data.py:48-51 | `unique_course_code` is reported exactly when codes repeat, counting rows minus distinct codes |
| Validate.CourseProgramViolation | Data-Pipeline/scripts/validate_data.py:53-59 | `valid_program_code` is reported exactly when some program is invalid (null included), listing each invalid value once |
| Validate.CourseTypeViolation | Data-Pipeline/scripts/validate_data.py:61-67 | `valid_course_type` likewise for course types |
| Validate.CourseCreditsViolation | Data-Pipeline/scripts/validate_data.py:69-71 | `positive_credits` is reported exactly when some credits value is at most 0 |
| Validate.ValidatePrerequisites | Data-Pipeline/scripts/validate_data.py:76-114 | the method returns the missing-columns entry alone, else every check's entries in order |
| Validate.PrereqMissingColumns | Data-Pipeline/scripts/validate_data.py:80-84 | a missing column yields exactly one `required_columns` entry; with both present none |
| Validate.PrereqsPassIff | Data-Pipeline/scripts/validate_data.py:76-114 | a prerequisite frame yields no violation exactly when it conforms |
| Validate.PrereqSelfReference | Data-Pipeline/scripts/validate_data.py:97-103 | `no_self_reference` is reported exactly when a self-loop exists, listing the source of every self-loop row |
| Validate.PrereqForeignKeys | Data-Pipeline/scripts/validate_data.py:105-112 | `valid_fk_references` is reported exactly when some endpoint is not a known code |
| Validate.PrereqDuplicateViolation | Data-Pipeline/scripts/validate_data.py:92-95 | `unique_prereq_pairs` counts the rows repeating an earlier pair |
| Validate.CourseStatsConsistent | Data-Pipeline/scripts/validate_data.py:128-134 | the program and type counts sum to the course total, one key per program, each counting its courses |
| Validate.PrereqStatsConsistent | Data-Pipeline/scripts/validate_data.py:135-142 | pair total, number of distinct courses with prerequisites, and a most-required course that is absent only without edges and is required at least as often as any other |
| Validate.MostRequired | Data-Pipeline/scripts/validate_data.py:138-141 | `value_counts().idxmax()` names a required course of maximal in-degree, None only for no edges |
| Validate.ValidateDataOutcome | Data-Pipeline/scripts/validate_data.py:151-179 | statistics are returned exactly when both tables conform; `ValueError` exactly when the checks ran and found violations, with their number; `KeyError` exactly when an indexed course column is missing |
| Anomalies.MissingPrerequisitesMember | Data-Pipeline/scripts/detect_anomalies.py:26-37 | a row (email, course, missing) is returned exactly when a known student completed the course, it requires `missing`, and the student has no completion of `missing` |
| Anomalies.RowsForSameCompletions | Data-Pipeline/scripts/detect_anomalies.py:32-36 | the `NOT EXISTS` depends only on the set of completions |
| Anomalies.DuplicateCompletion | Data-Pipeline/scripts/detect_anomalies.py:26-37 | without `DISTINCT`, a repeated completion repeats its rows |
| Anomalies.MissingBoundaries | Data-Pipeline/scripts/detect_anomalies.py:29-31 | a course without prerequisites is never reported; completions by unknown students report nothing |
| Anomalies.LevelInvariant | Data-Pipeline/scripts/detect_anomalies.py:61-75 | a row of the k-th working table records a walk of k input edges whose first k courses are distinct, flagged exactly when its course is among them |
| Anomalies.LevelsVanish | Data-Pipeline/scripts/detect_anomalies.py:67-75 | the recursive CTE terminates: beyond as many steps as there are edge sources, the working table is empty |
| Anomalies.CircularMember | Data-Pipeline/scripts/detect_anomalies.py:76-78 | a pair is returned exactly when some flagged chain row carries it |
| Anomalies.FlaggedOnCycle | Data-Pipeline/scripts/detect_anomalies.py:69-74 | a flagged row's edge is an input edge whose source lies on a directed cycle |
| Anomalies.CycleSourceFlagged | Data-Pipeline/scripts/detect_anomalies.py:60-78 | every edge leaving a course on a cycle is reported |
| Anomalies.CircularIff | Data-Pipeline/scripts/detect_anomalies.py:60-78 | an edge is reported exactly when it is an input edge whose source lies on a cycle |
| Anomalies.CircularReportsEdges | Data-Pipeline/scripts/detect_anomalies.py:76-78 | `DISTINCT` pairs: no duplicates, and only input edges |
| Anomalies.AcyclicNoReport | Data-Pipeline/scripts/detect_anomalies.py:60-78 | an acyclic graph reports nothing |
| Anomalies.SelfLoopReported | Data-Pipeline/scripts/detect_anomalies.py:71 | a self-loop is reported |
| Anomalies.TwoCycleReported | Data-Pipeline/scripts/detect_anomalies.py:58 | both edges of A -> B -> A are reported |
| Anomalies.ExitEdgeReported | Data-Pipeline/scripts/detect_anomalies.py:69-78 | with A -> B, B -> A, A -> C, the edge A -> C is reported although it lies on no cycle |
| Anomalies.NoHardAnomalies | Data-Pipeline/scripts/detect_anomalies.py:103-111 | the hard-anomaly total is 0 exactly when no completion misses a prerequisite and no edge leaves a course on a cycle |
| PipelineDag.AnomalyGateRaisesIff | Data-Pipeline/dags/pipeline_dag.py:216-231 | the task raises exactly when some completion misses a prerequisite or some edge leaves a course on a cycle, and reports the total |
| PipelineDag.QuotientBounds | Data-Pipeline/dags/pipeline_dag.py:265 | the integer quotient used for rounding is the floor |
| PipelineDag.PercentNearest | Data-Pipeline/dags/pipeline_dag.py:265 | the stored percentage is the hundredth nearest to 100 * count / total |
| PipelineDag.LowThreshold | Data-Pipeline/dags/pipeline_dag.py:265-271 | a rounded percentage below 10 means a count below 9.995 percent of the total |
| PipelineDag.MeanBetween | Data-Pipeline/dags/pipeline_dag.py:283-287 | a rounded mean lies between the minimum and the maximum |
| PipelineDag.BiasDetection | Data-Pipeline/dags/pipeline_dag.py:258-297 | the report holds the coverage of each expected program, the credit distribution per program present, and the coverage flags then the imbalance flag |
| PipelineDag.ProgramCoverage | Data-Pipeline/dags/pipeline_dag.py:263-279 | the loop over the expected programs computes the coverage map and the flags in iteration order |
| PipelineDag.CreditSummaries | Data-Pipeline/dags/pipeline_dag.py:282-290 | the groupby loop computes one summary per program present and the list of averages |
| PipelineDag.SummariseGroup | Data-Pipeline/dags/pipeline_dag.py:283-287 | one pass computes the rounded mean, minimum and maximum credits of a program |
| PipelineDag.CreditDistributionMeaning | Data-Pipeline/dags/pipeline_dag.py:282-288 | one entry per program present; its minimum and maximum are attained and bound every course, the mean lies between them |
| PipelineDag.CoverageMeaning | Data-Pipeline/dags/pipeline_dag.py:263-269 | the coverage map has exactly the expected programs, each with its course count, percentage 0 without courses |
| PipelineDag.LowCoverageIff | Data-Pipeline/dags/pipeline_dag.py:271-274 | a low-coverage flag is raised exactly for expected programs under 9.995 percent (all of them with no courses) |
| PipelineDag.ExactlyTenPercent | Data-Pipeline/dags/pipeline_dag.py:271 | exactly 10 percent is not low coverage |
| PipelineDag.MissingProgramIff | Data-Pipeline/dags/pipeline_dag.py:276-279 | a missing-program flag is raised exactly for expected programs without courses, and they also get a low-coverage flag |
| PipelineDag.CoverageFlagsOrderFree | Data-Pipeline/dags/pipeline_dag.py:261-263 | the multiset of coverage flags does not depend on the order the program set is iterated in |
| PipelineDag.EmptyDatasetFlags | Data-Pipeline/dags/pipeline_dag.py:259-297 | with no courses there are ten coverage flags and no imbalance flag |
| PipelineDag.ImbalanceIff | Data-Pipeline/dags/pipeline_dag.py:290-297 | at most one imbalance flag, raised exactly when two programs' rounded averages differ by more than one credit |
| WebExtract.CodeAtComplete | scripts/web-extract.py:86 | the `[A-Z]+\s\d+` recogniser finds a code whenever some prefix is one, reaching at least as far |
| WebExtract.CodeAtNone | scripts/web-extract.py:86 | the recogniser fails exactly when no prefix is a course code |
| WebExtract.ParseCourseHeader | scripts/web-extract.py:83-95 | a parsed header has a course code, credits of the form `N` or `N-M`, and a stripped title; the code starts the stripped header, followed by a full stop |
| WebExtract.HeaderStartsWithCode | scripts/web-extract.py:85-88 | a header whose stripped text does not start with a capital letter does not parse |
| WebExtract.HeaderRoundTrip | scripts/web-extract.py:83-95 | `"<code>. <title>. (<credits> Hours)"` parses back into its three parts (title without full stop or newline) |
| WebExtract.HeaderExample | scripts/web-extract.py:84 | the docstring's example header parses into its code, title and credits |
| WebExtract.SpaceBeforeWithDone | scripts/web-extract.py:104 | after the rewrite no digit is directly followed by `with` |
| WebExtract.SpaceBeforeWithUnchanged | scripts/web-extract.py:104 | text without a digit before `with` is left unchanged |
| WebExtract.SpaceDashOrDone | scripts/web-extract.py:105 | after the rewrite no hyphen is followed by `or` and a capital letter |
| WebExtract.SpaceDashOrUnchanged | scripts/web-extract.py:105 | text without that pattern is left unchanged |
| WebExtract.CollapseDone | scripts/web-extract.py:106 | after collapsing, whitespace is single spaces |
| WebExtract.CollapseUnchanged | scripts/web-extract.py:106 | single-spaced text is left unchanged |
| WebExtract.NormaliseShape | scripts/web-extract.py:103-106 | the normalised text is stripped and single-spaced |
| WebExtract.NormaliseUnchanged | scripts/web-extract.py:103-106 | text the three rewrites leave alone comes out of normalisation unchanged |
| WebExtract.ContainsFromIff | scripts/web-extract.py:109 | the substring test finds the phrase exactly when it occurs |
| WebExtract.RemoveClauseUnchanged | scripts/web-extract.py:111-113 | text without the `or graduate program admission` clause is left unchanged |
| WebExtract.RemoveClauseTail | scripts/web-extract.py:111-113 | a trailing clause is removed when it is the first match |
| WebExtract.SplitOrJoin | scripts/web-extract.py:124 | `re.split(r"\s+or\s+")` of alternatives joined by `" or "` gives them back |
| WebExtract.SplitOrCons | scripts/web-extract.py:124 | the split peels off the first alternative |
| WebExtract.EntryShape | scripts/web-extract.py:127-137 | an entry names the course code the part starts with; a grade, when present, follows `with a minimum grade of` and is a letter with an optional `+`/`-` |
| WebExtract.EntryNone | scripts/web-extract.py:128-137 | a part yields no entry exactly when none of its prefixes is a course code |
| WebExtract.EntryOfCode | scripts/web-extract.py:135-137 | a bare course code is an entry without a grade |
| WebExtract.EntryOfGraded | scripts/web-extract.py:128-133 | `"<code> with a minimum grade of <g>"` is an entry with grade `g` |
| WebExtract.ParsePrerequisites | scripts/web-extract.py:98-142 | the nested loops compute the groups and graduate alternative of `PrerequisiteParse` |
| WebExtract.PrerequisitesWellFormed | scripts/web-extract.py:118-139 | no group is empty and every alternative is a course code with an optional grade |
| WebExtract.PrereqGroupsOrder | scripts/web-extract.py:118-139 | the groups of `x;y` are those of `x` followed by those of `y` |
| WebExtract.PrerequisitesGraduate | scripts/web-extract.py:108-116 | the graduate alternative is reported exactly when the lower-cased normalised text contains `graduate program admission`; otherwise None |
| WebExtract.PrerequisitesEmpty | scripts/web-extract.py:100-101 | absent or empty text gives no groups and no alternative |
| WebExtract.PrerequisitesOnlyClause | scripts/web-extract.py:115-116 | text that is only the clause gives no groups but the graduate alternative |
| WebExtract.FindCodesShape | scripts/web-extract.py:149 | every match of `re.findall` is a course code |
| WebExtract.CorequisitesShape | scripts/web-extract.py:145-149 | every corequisite is a course code |
| WebExtract.CorequisitesEmpty | scripts/web-extract.py:145-149 | no corequisites exactly when the text is absent or holds no course code |
| WebExtract.FindCodesJoin | scripts/web-extract.py:149 | codes joined by a separator without capitals, not starting with a digit, are found back in order |
| WebExtract.AttributesShape | scripts/web-extract.py:152-156 | every attribute is non-empty, stripped and free of commas |
| WebExtract.AttributesJoin | scripts/web-extract.py:152-156 | attributes joined by commas are parsed back, in order |
| PdfExtract.SearchFrom | Data-Pipeline/scripts/pdf-extract.py:121 | the lazy `.*?` finds the first start position with a match, and none before it |
| PdfExtract.CodeMatchUnique | Data-Pipeline/scripts/pdf-extract.py:121 | at one position at most one letter count of `[A-Z]{2,5}` matches |
| PdfExtract.ExtractNone | Data-Pipeline/scripts/pdf-extract.py:120-124 | no code is returned exactly when no position of the first 500 characters starts a match |
| PdfExtract.ExtractEarliest | Data-Pipeline/scripts/pdf-extract.py:120-123 | the code returned is the match that starts earliest in the first 500 characters |
| PdfExtract.ExtractShape | Data-Pipeline/scripts/pdf-extract.py:120-123 | a returned code is 2-5 capitals, one whitespace character and four digits, occurring within the first 500 characters |
| PdfExtract.ExtractIgnoresTail | Data-Pipeline/scripts/pdf-extract.py:120 | text after the first 500 characters has no influence |
| PdfExtract.FirstWordShape | Data-Pipeline/scripts/pdf-extract.py:218 | `split()[0]` is the first maximal run of non-whitespace, preceded only by whitespace; it is missing only for blank text |
| PdfExtract.DepartmentOfCode | Data-Pipeline/scripts/pdf-extract.py:218 | the department of an extracted code is its leading capitals |
| PdfExtract.DocumentMeta | Data-Pipeline/scripts/pdf-extract.py:210-218 | a document fails this stage exactly when no code is extracted; otherwise it carries the code and that code's letters as department |
| PdfExtract.StampChunks | Data-Pipeline/scripts/pdf-extract.py:227-233 | every chunk gets the document's metadata and its position as `chunk_index` |
| PdfExtract.PreparePdfIds | Data-Pipeline/scripts/pdf-extract.py:131-138 | one id per chunk, in chunk order, `pdf_{code}_chunk_{index}` with spaces as underscores and defaults `UNKNOWN` and 0 |
| PdfExtract.ChunkIdIndex | Data-Pipeline/scripts/pdf-extract.py:135-137 | ids with the same code part are equal exactly when their indices are |
| PdfExtract.StampedIdsDistinct | Data-Pipeline/scripts/pdf-extract.py:227-241 | the chunks of one document get pairwise different ids |
| PdfExtract.ChunkIdInjective | Data-Pipeline/scripts/pdf-extract.py:131-138 | for codes without underscores, equal ids mean equal code and equal index |
| PdfExtract.StampedIdsAcrossDocuments | Data-Pipeline/scripts/pdf-extract.py:212-241 | chunks of documents with extracted codes share an id exactly when the codes and positions are equal |
| PdfExtract.RecordThenSkip | Data-Pipeline/scripts/pdf-extract.py:193-195 | once a file is recorded in the tracker, it is skipped exactly while its checksum is unchanged |
| PdfExtract.RecordKeepsOthers | Data-Pipeline/scripts/pdf-extract.py:255-260 | recording one file changes the skip decision of no other file |
| Records.CoursesRoundTrip | Data-Pipeline/scripts/preprocess_data.py:34-40 | a cleaned course, written as a row, has every cell present, so the `dropna` keeps it, and it reads back as itself; CleanDataIdempotent rests on it |
| Records.EdgesRoundTrip | Data-Pipeline/scripts/preprocess_data.py:99 | a cleaned edge, written as a row, has both endpoints, so the `dropna` keeps it, and it reads back as itself; CleanDataIdempotent rests on it |
| Text.JoinSplit | scripts/web-extract.py:118 | joining the pieces of `split` with the separator gives the string back |
| Text.NatToStringRoundTrip | Data-Pipeline/scripts/pdf-extract.py:137 | `int(str(n)) == n` for the printed chunk index |

## Left out

- I/O and services are not modelled. This covers CSV reading, PostgreSQL, the Slack webhook,
  Google Cloud Storage (listing, downloads, uploads and the tracker file), Pinecone, the
  embedding model and the semantic chunker. PyMuPDF text extraction, BeautifulSoup page parsing
  and `parse_course_block` are also out. The model receives their results as parameters.
- MD5 checksums are opaque strings.
- Logging, timestamps (`generated_at`, `processed_date`, `run_timestamp`) and the pipeline
  summary counters carry no logic and are not modelled.
- Fairlearn's `MetricFrame` is a foreign call whose failure is swallowed. It is not modelled.
- Rounding: Python's `round(x, 2)` rounds half to even on binary floats. The model rounds the
  exact rational half up.
  - PipelineDag.PercentNearest: this is weaker than the float behaviour only at exact ties.
  - `avg_credits` is modelled the same way.
  - PipelineDag.ImbalanceIff: the source subtracts two binary floats and compares with 1.0.
    At a difference of exactly 1.00 that test can go either way: 4.9 - 3.9 is
    1.0000000000000004 in IEEE doubles, so the source flags it. The model compares exact
    hundredths and never flags a difference of exactly 1.00.
- Unspecified iteration orders are parameters, with order-independence proved where it matters.
  This covers Python `set` iteration (`required_cols`, `expected_programs`) and SQL row order.
  pandas iterates `groupby` groups in sorted key order. The model uses first-occurrence
  order. This changes nothing, because the result is a map and only the maximum and minimum
  of the averages are read.
- Validate.MostRequired: `value_counts().idxmax()` does not fix which of several equally
  frequent courses it names. The model fixes that choice to the first to appear. The contract
  promises only a course of maximal in-degree.
- Preprocess.NormaliseCourse, Preprocess.NormaliseEdge: `upper()` and `title()` map ASCII
  letters only. Python also maps non-ASCII letters, and some mappings change the length.
  For example `"ı".upper()` is `"I"` and `"ß".upper()` is `"SS"`. So a program code
  `ms_ıs` is kept as `MS_IS` by the source but dropped by the model, and `ınfo 5100`
  duplicates `INFO 5100` in the source only.
- The SQL queries are evaluated over in-memory tables: students as a map from id to email, the
  CTE level by level. `ON CONFLICT` and the other database constraints are not modelled.
  The map from student id to email assumes `students.id` is unique, as its primary key makes
  it. Duplicate ids are not modelled. With them, the join on the students table would emit one
  row per matching student row.
- Regular expressions use ASCII classes: `\d` is ASCII digits, and `IGNORECASE` and `lower()`
  fold ASCII letters only. `\s` is Python's full whitespace set.
- WebExtract.RemoveClauseTail: this covers only a clause that is the first match. Removing
  one clause can bring two pieces together into a new clause, and `re.sub` does not rescan.
- PdfExtract.ChunkIdInjective: this requires codes without underscores, which covers every
  extracted code and the `UNKNOWN` default. Codes such as `A B` and `A_B` would collide.
- PdfExtract.StampChunks: this returns new metadata records instead of updating the chunk
  objects in place. Chunk metadata is modelled only through the six keys the script writes.
- The control flow of the PDF script's `run_pipeline` is not modelled beyond the skip test,
  the code-extraction stage and the tracker update. Those two stages are modelled separately.
  The `.pdf` name filter is not modelled either.
- Two behaviours of the code that readers may not expect are modelled as written:
  - `task_bias_detection` flags a program with no courses as both low coverage and missing
    (Data-Pipeline/dags/pipeline_dag.py:271-279). The flags are not mutually exclusive;
    PipelineDag.MissingProgramIff proves both are raised.
  - The cycle query reports every edge whose source lies on a cycle
    (Data-Pipeline/scripts/detect_anomalies.py:69-78). Exit edges of a cycle are therefore
    reported too; Anomalies.ExitEdgeReported exhibits one.
