/** Problem analysis: one analysis result per evaluation run, the problems
    found in it, and per-item analysis data that may point at a problem.
    Listings are newest first. */
module Analysis {
  import opened Outcomes
  import opened Seqs
  import opened Tables

  const AnalysisResultTable := "analysis_result_table"
  const ProblemTable := "problem_table"
  const AnalysisDataTable := "analysis_data_table"

  datatype AnalysisResult = AnalysisResult(dir: string, timestamp: Option<string>, evaluationResultId: int)

  datatype Problem = Problem(name: string, description: string, status: string, analysisResultId: int)

  datatype AnalysisData = AnalysisData(
    evaluationDataId: int,
    analysisResultId: int,
    problemId: Option<int>,
    isProblem: int,
    dir: string,
    description: string)

  /** The timestamp guard. A missing or empty timestamp is accepted as is;
      any other text must parse as `YYYY-MM-DD HH:MM:SS`, which `parses`
      stands for. */
  function CheckTimestamp(ts: Option<string>, parses: string -> bool): (r: Option<DwhError>)
    ensures ts.None? || ts.value == "" ==> r.None?
    ensures r.None? <==> ts.None? || ts.value == "" || parses(ts.value)
    ensures r.Some? ==> r.value == ValidationError(Some("analysis_timestamp"))
  {
    if ts.None? || ts.value == "" then None
    else if parses(ts.value) then None
    else Some(ValidationError(Some("analysis_timestamp")))
  }

  /** `create_analysis_result`: the timestamp guard, then the insert, which
      the foreign key on the evaluation result can reject. */
  function CreateAnalysisResult(t: seq<Entry<AnalysisResult>>, evaluationResults: set<int>,
                                dir: string, evaluationResultId: int, ts: Option<string>,
                                parses: string -> bool): (w: Write<Entry<AnalysisResult>, int>)
    ensures w.result.Ok? <==> CheckTimestamp(ts, parses).None? && evaluationResultId in evaluationResults
    ensures w.result.Err? ==> w.rows == t
    ensures CheckTimestamp(ts, parses).None? && evaluationResultId !in evaluationResults ==>
      w.result == Err(ConstraintError(AnalysisResultTable))
    ensures w.result.Ok? ==>
      && w.rows == t + [Entry(w.result.value, AnalysisResult(dir, ts, evaluationResultId))]
      && !HasId(t, w.result.value)
  {
    match CheckTimestamp(ts, parses)
    case Some(e) => Write(t, Err(e))
    case None =>
      if evaluationResultId !in evaluationResults then Write(t, Err(ConstraintError(AnalysisResultTable)))
      else Write(Appended(t, AnalysisResult(dir, ts, evaluationResultId)), Ok(NextId(t)))
  }

  /** `get_analysis_result`. */
  function GetAnalysisResult(t: seq<Entry<AnalysisResult>>, id: int): (r: Result<AnalysisResult>)
    ensures r.Err? <==> !HasId(t, id)
    ensures r.Err? ==> r.error == NotFoundError(AnalysisResultTable, id)
    ensures r.Ok? ==> Entry(id, r.value) in t
  {
    match Find(t, id)
    case None => Err(NotFoundError(AnalysisResultTable, id))
    case Some(a) => Ok(a)
  }

  /** `list_analysis_results`: optionally those of one evaluation result,
      each as often as it is stored, newest first. */
  function ListAnalysisResults(t: seq<Entry<AnalysisResult>>, evaluationResultId: Option<int>): (r: seq<Entry<AnalysisResult>>)
    ensures forall e :: multiset(r)[e] == if evaluationResultId.None? || e.row.evaluationResultId == evaluationResultId.value then multiset(t)[e] else 0
    ensures forall e :: e in r <==> e in t && (evaluationResultId.None? || e.row.evaluationResultId == evaluationResultId.value)
    ensures forall i, j :: 0 <= i < j < |r| ==> r[i].id >= r[j].id
  {
    var p := (a: AnalysisResult) => evaluationResultId.None? || a.evaluationResultId == evaluationResultId.value;
    NewestFirstFacts(t, p);
    NewestFirst(t, p)
  }

  /** `create_problem`: the insert, which the foreign key on the analysis
      result can reject. */
  function CreateProblem(t: seq<Entry<Problem>>, analysisResults: set<int>,
                         name: string, description: string, status: string,
                         analysisResultId: int): (w: Write<Entry<Problem>, int>)
    ensures w.result.Ok? <==> analysisResultId in analysisResults
    ensures w.result.Err? ==> w.rows == t && w.result.error == ConstraintError(ProblemTable)
    ensures w.result.Ok? ==>
      && w.rows == t + [Entry(w.result.value, Problem(name, description, status, analysisResultId))]
      && !HasId(t, w.result.value)
  {
    if analysisResultId !in analysisResults then Write(t, Err(ConstraintError(ProblemTable)))
    else Write(Appended(t, Problem(name, description, status, analysisResultId)), Ok(NextId(t)))
  }

  /** `get_problem`. */
  function GetProblem(t: seq<Entry<Problem>>, id: int): (r: Result<Problem>)
    ensures r.Err? <==> !HasId(t, id)
    ensures r.Err? ==> r.error == NotFoundError(ProblemTable, id)
    ensures r.Ok? ==> Entry(id, r.value) in t
  {
    match Find(t, id)
    case None => Err(NotFoundError(ProblemTable, id))
    case Some(p) => Ok(p)
  }

  /** `list_problems`: optionally those of one analysis result, each as
      often as it is stored, newest first. */
  function ListProblems(t: seq<Entry<Problem>>, analysisResultId: Option<int>): (r: seq<Entry<Problem>>)
    ensures forall e :: multiset(r)[e] == if analysisResultId.None? || e.row.analysisResultId == analysisResultId.value then multiset(t)[e] else 0
    ensures forall e :: e in r <==> e in t && (analysisResultId.None? || e.row.analysisResultId == analysisResultId.value)
    ensures forall i, j :: 0 <= i < j < |r| ==> r[i].id >= r[j].id
  {
    var p := (q: Problem) => analysisResultId.None? || q.analysisResultId == analysisResultId.value;
    NewestFirstFacts(t, p);
    NewestFirst(t, p)
  }

  /** Without a filter every stored problem is listed, as often as it is
      stored. */
  lemma ListProblemsUnfiltered(t: seq<Entry<Problem>>)
    ensures multiset(ListProblems(t, None)) == multiset(t)
  {
  }

  /** The business guard of `create_analysis_data`: the flag must be 0 or 1,
      and a flag of 1 needs a problem id that is neither missing nor 0 (the
      source tests the id for truthiness). */
  function CheckAnalysisData(isProblem: int, problemId: Option<int>): (r: Option<DwhError>)
    ensures r.None? <==>
      (isProblem == 0 || isProblem == 1) && (isProblem == 1 ==> problemId.Some? && problemId.value != 0)
    ensures isProblem != 0 && isProblem != 1 ==> r == Some(ValidationError(Some("analysis_data_isproblem")))
    ensures isProblem == 1 && (problemId.None? || problemId.value == 0) ==> r == Some(ValidationError(Some("problem_ID")))
  {
    if isProblem != 0 && isProblem != 1 then Some(ValidationError(Some("analysis_data_isproblem")))
    else if isProblem == 1 && (problemId.None? || problemId.value == 0) then Some(ValidationError(Some("problem_ID")))
    else None
  }

  /** The rule binds in one direction only: with the flag at 0 any problem
      id, present or not, passes the guard. */
  lemma NotAProblemPassesAnyProblemId(problemId: Option<int>)
    ensures CheckAnalysisData(0, problemId).None?
  {
  }

  /** The foreign keys of an analysis-data row; a missing problem id
      references nothing. */
  predicate DataRefsExist(d: AnalysisData, evaluationData: set<int>, analysisResults: set<int>, problems: set<int>)
  {
    && d.evaluationDataId in evaluationData
    && d.analysisResultId in analysisResults
    && (d.problemId.None? || d.problemId.value in problems)
  }

  /** `create_analysis_data`: the business guard before any write, then the
      insert, which the foreign keys can reject. */
  function CreateAnalysisData(t: seq<Entry<AnalysisData>>, evaluationData: set<int>, analysisResults: set<int>,
                              problems: set<int>, d: AnalysisData): (w: Write<Entry<AnalysisData>, int>)
    ensures w.result.Ok? <==>
      CheckAnalysisData(d.isProblem, d.problemId).None? && DataRefsExist(d, evaluationData, analysisResults, problems)
    ensures w.result.Err? ==> w.rows == t
    ensures CheckAnalysisData(d.isProblem, d.problemId).Some? ==> w.result.Err? && w.result.error.ValidationError?
    ensures CheckAnalysisData(d.isProblem, d.problemId).None? && !DataRefsExist(d, evaluationData, analysisResults, problems) ==>
      w.result == Err(ConstraintError(AnalysisDataTable))
    ensures w.result.Ok? ==> w.rows == t + [Entry(w.result.value, d)] && !HasId(t, w.result.value)
  {
    match CheckAnalysisData(d.isProblem, d.problemId)
    case Some(e) => Write(t, Err(e))
    case None =>
      if !DataRefsExist(d, evaluationData, analysisResults, problems) then Write(t, Err(ConstraintError(AnalysisDataTable)))
      else Write(Appended(t, d), Ok(NextId(t)))
  }

  /** Every stored analysis-data row satisfies the guard and its keys. */
  predicate DataValid(t: seq<Entry<AnalysisData>>, evaluationData: set<int>, analysisResults: set<int>, problems: set<int>)
  {
    forall i :: 0 <= i < |t| ==>
      CheckAnalysisData(t[i].row.isProblem, t[i].row.problemId).None? &&
      DataRefsExist(t[i].row, evaluationData, analysisResults, problems)
  }

  /** The write path keeps the table valid: a flagged row always names an
      existing problem. */
  lemma CreateAnalysisDataKeepsValid(t: seq<Entry<AnalysisData>>, evaluationData: set<int>, analysisResults: set<int>,
                                     problems: set<int>, d: AnalysisData)
    requires DataValid(t, evaluationData, analysisResults, problems)
    ensures var r := CreateAnalysisData(t, evaluationData, analysisResults, problems, d).rows;
      && DataValid(r, evaluationData, analysisResults, problems)
      && forall i :: 0 <= i < |r| && r[i].row.isProblem == 1 ==> r[i].row.problemId.Some? && r[i].row.problemId.value in problems
  {
    var w := CreateAnalysisData(t, evaluationData, analysisResults, problems, d);
    if w.result.Ok? {
      forall i | 0 <= i < |w.rows|
        ensures CheckAnalysisData(w.rows[i].row.isProblem, w.rows[i].row.problemId).None?
        ensures DataRefsExist(w.rows[i].row, evaluationData, analysisResults, problems)
      {
        if i < |t| {
          assert w.rows[i] == t[i];
        }
      }
    }
  }

  /** The `WHERE` of `list_analysis_data`: every supplied filter holds. */
  predicate DataMatches(analysisResultId: Option<int>, evaluationDataId: Option<int>, d: AnalysisData)
  {
    && (analysisResultId.None? || d.analysisResultId == analysisResultId.value)
    && (evaluationDataId.None? || d.evaluationDataId == evaluationDataId.value)
  }

  /** `list_analysis_data`: the rows meeting every supplied filter, each as
      often as it is stored, newest first. */
  function ListAnalysisData(t: seq<Entry<AnalysisData>>, analysisResultId: Option<int>,
                            evaluationDataId: Option<int>): (r: seq<Entry<AnalysisData>>)
    ensures forall e :: multiset(r)[e] == if DataMatches(analysisResultId, evaluationDataId, e.row) then multiset(t)[e] else 0
    ensures forall i, j :: 0 <= i < j < |r| ==> r[i].id >= r[j].id
  {
    var p := (d: AnalysisData) => DataMatches(analysisResultId, evaluationDataId, d);
    NewestFirstFacts(t, p);
    NewestFirst(t, p)
  }

  /** With no filter every row is listed; with both, a row is listed
      exactly when it matches both. */
  lemma ListAnalysisDataFilters(t: seq<Entry<AnalysisData>>, a: int, d: int, e: Entry<AnalysisData>)
    ensures multiset(ListAnalysisData(t, None, None)) == multiset(t)
    ensures e in ListAnalysisData(t, Some(a), Some(d)) <==>
      e in t && e.row.analysisResultId == a && e.row.evaluationDataId == d
  {
    var r := ListAnalysisData(t, Some(a), Some(d));
    assert e in r <==> multiset(r)[e] > 0;
    assert e in t <==> multiset(t)[e] > 0;
  }
}
