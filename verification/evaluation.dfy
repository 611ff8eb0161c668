/** Evaluation: an evaluation result summarises one algorithm version
    (true-positive rate and false positives per hour); evaluation data are
    its per-item counts of correct and total tasks. The overview sums the
    counts and derives the accuracy. */
module Evaluation {
  import opened Outcomes
  import opened Seqs
  import opened Tables

  const EvaluationResultTable := "evaluation_result_table"
  const EvaluationDataTable := "evaluation_data_table"

  /** Rates are Python floats; the model uses exact reals. */
  datatype EvaluationResult = EvaluationResult(
    version: string,
    algorithmId: int,
    truePositive: real,
    falsePositive: Option<real>,
    dir: string,
    timestamp: Option<string>)

  datatype EvaluationData = EvaluationData(
    evaluationResultId: int,
    algorithmOutputId: int,
    correct: int,
    total: int,
    path: string)

  /** The rate guard: the true-positive rate lies in [0, 1], checked first;
      a false-positive rate, when given, is not negative. */
  function CheckRates(truePositive: real, falsePositive: Option<real>): (r: Option<DwhError>)
    ensures r.None? <==> 0.0 <= truePositive <= 1.0 && (falsePositive.None? || falsePositive.value >= 0.0)
    ensures !(0.0 <= truePositive <= 1.0) ==> r == Some(ValidationError(Some("true_positive")))
    ensures 0.0 <= truePositive <= 1.0 && falsePositive.Some? && falsePositive.value < 0.0 ==>
      r == Some(ValidationError(Some("false_positive")))
  {
    if !(0.0 <= truePositive <= 1.0) then Some(ValidationError(Some("true_positive")))
    else if falsePositive.Some? && falsePositive.value < 0.0 then Some(ValidationError(Some("false_positive")))
    else None
  }

  /** `create_evaluation_result`: the rate guard, then the insert, which the
      foreign key on the algorithm can reject. */
  function CreateEvaluationResult(t: seq<Entry<EvaluationResult>>, algorithms: set<int>,
                                  e: EvaluationResult): (w: Write<Entry<EvaluationResult>, int>)
    ensures w.result.Ok? <==> CheckRates(e.truePositive, e.falsePositive).None? && e.algorithmId in algorithms
    ensures w.result.Err? ==> w.rows == t
    ensures CheckRates(e.truePositive, e.falsePositive).None? && e.algorithmId !in algorithms ==>
      w.result == Err(ConstraintError(EvaluationResultTable))
    ensures w.result.Ok? ==> w.rows == t + [Entry(w.result.value, e)] && !HasId(t, w.result.value)
  {
    match CheckRates(e.truePositive, e.falsePositive)
    case Some(err) => Write(t, Err(err))
    case None =>
      if e.algorithmId !in algorithms then Write(t, Err(ConstraintError(EvaluationResultTable)))
      else Write(Appended(t, e), Ok(NextId(t)))
  }

  /** `get_evaluation_result`. */
  function GetEvaluationResult(t: seq<Entry<EvaluationResult>>, id: int): (r: Result<EvaluationResult>)
    ensures r.Err? <==> !HasId(t, id)
    ensures r.Err? ==> r.error == NotFoundError(EvaluationResultTable, id)
    ensures r.Ok? ==> Entry(id, r.value) in t
  {
    match Find(t, id)
    case None => Err(NotFoundError(EvaluationResultTable, id))
    case Some(e) => Ok(e)
  }

  /** The `WHERE` of `list_evaluation_results`: every supplied filter
      holds. */
  predicate ResultMatches(algorithmId: Option<int>, version: Option<string>, e: EvaluationResult)
  {
    && (algorithmId.None? || e.algorithmId == algorithmId.value)
    && (version.None? || e.version == version.value)
  }

  /** `list_evaluation_results`: the rows meeting every supplied filter,
      each as often as it is stored, newest first. */
  function ListEvaluationResults(t: seq<Entry<EvaluationResult>>, algorithmId: Option<int>,
                                 version: Option<string>): (r: seq<Entry<EvaluationResult>>)
    ensures forall e :: multiset(r)[e] == if ResultMatches(algorithmId, version, e.row) then multiset(t)[e] else 0
    ensures forall i, j :: 0 <= i < j < |r| ==> r[i].id >= r[j].id
  {
    var p := (e: EvaluationResult) => ResultMatches(algorithmId, version, e);
    NewestFirstFacts(t, p);
    NewestFirst(t, p)
  }

  /** With both filters a row is listed exactly when it has that algorithm
      and that version; with none, every row is listed. */
  lemma ListEvaluationResultsFilters(t: seq<Entry<EvaluationResult>>, a: int, v: string, e: Entry<EvaluationResult>)
    ensures e in ListEvaluationResults(t, Some(a), Some(v)) <==> e in t && e.row.algorithmId == a && e.row.version == v
    ensures multiset(ListEvaluationResults(t, None, None)) == multiset(t)
  {
    var r := ListEvaluationResults(t, Some(a), Some(v));
    assert e in r <==> multiset(r)[e] > 0;
    assert e in t <==> multiset(t)[e] > 0;
  }

  /** The count guard: negative counts are rejected first, then more correct
      tasks than tasks. */
  function CheckCounts(correct: int, total: int): (r: Option<DwhError>)
    ensures r.None? <==> 0 <= correct <= total && total >= 0
    ensures correct < 0 || total < 0 ==> r == Some(ValidationError(None))
    ensures correct >= 0 && total >= 0 && correct > total ==> r == Some(ValidationError(Some("correct_task_num")))
  {
    if correct < 0 || total < 0 then Some(ValidationError(None))
    else if correct > total then Some(ValidationError(Some("correct_task_num")))
    else None
  }

  /** `create_evaluation_data`: the count guard, then the insert, which the
      foreign keys on the evaluation result and the algorithm output can
      reject. */
  function CreateEvaluationData(t: seq<Entry<EvaluationData>>, evaluationResults: set<int>,
                                algorithmOutputs: set<int>, d: EvaluationData): (w: Write<Entry<EvaluationData>, int>)
    ensures w.result.Ok? <==>
      CheckCounts(d.correct, d.total).None? && d.evaluationResultId in evaluationResults && d.algorithmOutputId in algorithmOutputs
    ensures w.result.Err? ==> w.rows == t
    ensures CheckCounts(d.correct, d.total).None? && (d.evaluationResultId !in evaluationResults || d.algorithmOutputId !in algorithmOutputs) ==>
      w.result == Err(ConstraintError(EvaluationDataTable))
    ensures w.result.Ok? ==> w.rows == t + [Entry(w.result.value, d)] && !HasId(t, w.result.value)
  {
    match CheckCounts(d.correct, d.total)
    case Some(err) => Write(t, Err(err))
    case None =>
      if d.evaluationResultId !in evaluationResults || d.algorithmOutputId !in algorithmOutputs then
        Write(t, Err(ConstraintError(EvaluationDataTable)))
      else Write(Appended(t, d), Ok(NextId(t)))
  }

  /** `list_evaluation_data`: the rows of one result whose algorithm output
      exists (the inner join), each as often as it is stored, oldest first. */
  function ListEvaluationData(t: seq<Entry<EvaluationData>>, algorithmOutputs: set<int>,
                              evaluationResultId: int): (r: seq<Entry<EvaluationData>>)
    ensures forall e :: multiset(r)[e] == if e.row.evaluationResultId == evaluationResultId && e.row.algorithmOutputId in algorithmOutputs then multiset(t)[e] else 0
    ensures forall e :: e in r <==> e in t && e.row.evaluationResultId == evaluationResultId && e.row.algorithmOutputId in algorithmOutputs
    ensures forall i, j :: 0 <= i < j < |r| ==> r[i].id <= r[j].id
  {
    var p := (d: EvaluationData) => d.evaluationResultId == evaluationResultId && d.algorithmOutputId in algorithmOutputs;
    OldestFirstFacts(t, p);
    OldestFirst(t, p)
  }

  /** When every row belongs to the result and has an existing output, the
      listing holds every stored row, as often as it is stored. */
  lemma ListEvaluationDataKeepsAll(t: seq<Entry<EvaluationData>>, outs: set<int>, id: int)
    requires forall i :: 0 <= i < |t| ==> t[i].row.evaluationResultId == id && t[i].row.algorithmOutputId in outs
    ensures |ListEvaluationData(t, outs, id)| == |t|
  {
    var r := ListEvaluationData(t, outs, id);
    assert multiset(r) == multiset(t) by {
      forall e ensures multiset(r)[e] == multiset(t)[e] {
        if multiset(t)[e] > 0 {
          var i :| 0 <= i < |t| && t[i] == e;
        }
      }
    }
    assert |multiset(r)| == |multiset(t)|;
  }

  // ---------------------------------------------------------------------
  // The overview

  /** Σ correct over the rows of result `id` (`COALESCE(SUM(...), 0)`). */
  function CorrectSum(t: seq<Entry<EvaluationData>>, id: int): int
  {
    if t == [] then 0
    else
      var last := t[|t| - 1];
      CorrectSum(t[..|t| - 1], id) + (if last.row.evaluationResultId == id then last.row.correct else 0)
  }

  /** Σ total over the rows of result `id`. */
  function ItemSum(t: seq<Entry<EvaluationData>>, id: int): int
  {
    if t == [] then 0
    else
      var last := t[|t| - 1];
      ItemSum(t[..|t| - 1], id) + (if last.row.evaluationResultId == id then last.row.total else 0)
  }

  /** `correct / items`, and 0 when there are no items. */
  function Accuracy(correct: int, items: int): real
  {
    if items > 0 then (correct as real) / (items as real) else 0.0
  }

  datatype Overview = Overview(
    version: string,
    algorithmId: int,
    truePositive: real,
    falsePositivePerHour: Option<real>,
    totalItems: int,
    totalCorrect: int,
    accuracy: real)

  /** `get_evaluation_overview`: NotFound when the result does not exist;
      otherwise its stored fields with the summed counts and the
      accuracy. */
  function GetEvaluationOverview(results: seq<Entry<EvaluationResult>>, data: seq<Entry<EvaluationData>>,
                                 id: int): (r: Result<Overview>)
    ensures r.Err? <==> !HasId(results, id)
    ensures r.Err? ==> r.error == NotFoundError(EvaluationResultTable, id)
    ensures r.Ok? ==>
      && r.value.totalCorrect == CorrectSum(data, id)
      && r.value.totalItems == ItemSum(data, id)
      && (r.value.totalItems == 0 ==> r.value.accuracy == 0.0)
      && (r.value.totalItems > 0 ==> r.value.accuracy == r.value.totalCorrect as real / r.value.totalItems as real)
      && var e := Find(results, id).value;
         r.value.version == e.version && r.value.algorithmId == e.algorithmId &&
         r.value.truePositive == e.truePositive && r.value.falsePositivePerHour == e.falsePositive
  {
    match GetEvaluationResult(results, id)
    case Err(e) => Err(e)
    case Ok(e) =>
      var c := CorrectSum(data, id);
      var n := ItemSum(data, id);
      Ok(Overview(e.version, e.algorithmId, e.truePositive, e.falsePositive, n, c, Accuracy(c, n)))
  }

  /** No rows for a result: both totals and the accuracy are 0. */
  lemma {:induction false} NoRowsNoTotals(data: seq<Entry<EvaluationData>>, id: int)
    requires forall i :: 0 <= i < |data| ==> data[i].row.evaluationResultId != id
    ensures CorrectSum(data, id) == 0 && ItemSum(data, id) == 0
    ensures Accuracy(CorrectSum(data, id), ItemSum(data, id)) == 0.0
  {
    if data != [] {
      NoRowsNoTotals(data[..|data| - 1], id);
    }
  }

  /** Every stored row passed the count guard. */
  predicate CountsValid(data: seq<Entry<EvaluationData>>)
  {
    forall i :: 0 <= i < |data| ==> 0 <= data[i].row.correct <= data[i].row.total
  }

  /** The write path keeps every stored row within the count guard. */
  lemma CreateEvaluationDataKeepsCounts(t: seq<Entry<EvaluationData>>, evaluationResults: set<int>,
                                        algorithmOutputs: set<int>, d: EvaluationData)
    requires CountsValid(t)
    ensures CountsValid(CreateEvaluationData(t, evaluationResults, algorithmOutputs, d).rows)
  {
    var w := CreateEvaluationData(t, evaluationResults, algorithmOutputs, d);
    if w.result.Ok? {
      forall i | 0 <= i < |w.rows| ensures 0 <= w.rows[i].row.correct <= w.rows[i].row.total {
        if i < |t| {
          assert w.rows[i] == t[i];
        }
      }
    }
  }

  /** With valid counts the correct total never exceeds the item total. */
  lemma {:induction false} SumsOrdered(data: seq<Entry<EvaluationData>>, id: int)
    requires CountsValid(data)
    ensures 0 <= CorrectSum(data, id) <= ItemSum(data, id)
  {
    if data != [] {
      var init := data[..|data| - 1];
      assert CountsValid(init) by {
        forall i | 0 <= i < |init| ensures 0 <= init[i].row.correct <= init[i].row.total {
          assert init[i] == data[i];
        }
      }
      SumsOrdered(init, id);
    }
  }

  /** The accuracy of counts `0 <= c <= n` lies in [0, 1]. */
  lemma AccuracyInUnitInterval(c: int, n: int)
    requires 0 <= c <= n
    ensures 0.0 <= Accuracy(c, n) <= 1.0
  {
    if n > 0 {
      var q := (c as real) / (n as real);
      assert q * (n as real) == c as real;
      if q > 1.0 {
        assert q * (n as real) > n as real;
      }
    }
  }

  /** With every stored row within the count guard the overview has
      `total_correct <= total_items` and an accuracy in [0, 1]. */
  lemma OverviewBounded(results: seq<Entry<EvaluationResult>>, data: seq<Entry<EvaluationData>>, id: int)
    requires CountsValid(data)
    requires GetEvaluationOverview(results, data, id).Ok?
    ensures var o := GetEvaluationOverview(results, data, id).value;
      0 <= o.totalCorrect <= o.totalItems && 0.0 <= o.accuracy <= 1.0
  {
    SumsOrdered(data, id);
    AccuracyInUnitInterval(CorrectSum(data, id), ItemSum(data, id));
  }

  /** A stored evaluation-data row adds its counts to its own result's
      totals and leaves every other result's totals alone. */
  lemma CreatedDataAddsToTotals(t: seq<Entry<EvaluationData>>, evaluationResults: set<int>,
                                algorithmOutputs: set<int>, d: EvaluationData, id: int)
    requires CreateEvaluationData(t, evaluationResults, algorithmOutputs, d).result.Ok?
    ensures var r := CreateEvaluationData(t, evaluationResults, algorithmOutputs, d).rows;
      && CorrectSum(r, id) == CorrectSum(t, id) + (if d.evaluationResultId == id then d.correct else 0)
      && ItemSum(r, id) == ItemSum(t, id) + (if d.evaluationResultId == id then d.total else 0)
  {
    var r := CreateEvaluationData(t, evaluationResults, algorithmOutputs, d).rows;
    assert r[..|r| - 1] == t;
  }
}
