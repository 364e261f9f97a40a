/** The sampling loop and the verdict of scripts/generate_qualification_report.py. */
module Qualification {
  import opened Json
  import opened Percentiles
  import AuthGate
  import OmegaClient
  import ScanHandler

  datatype Scenario = AllowCase | QuarantineCase | BlockCase {
    // Only the oversize text is expected to end in a fallback.
    predicate ExpectedFallback() {
      QuarantineCase?
    }
  }

  datatype Verdict = Allow | Quarantine | Block

  // One drawn scenario with the response it got.
  datatype Draw = Draw(scenario: Scenario, status: int, out: map<string, Json>, latencyMs: real)

  // What the loop reads off a draw.
  datatype Sample = Sample(
    scenario: Scenario, status: int, isFallback: bool, verdict: Verdict, latencyMs: real, out: map<string, Json>)

  type Matrix = map<Scenario, map<Verdict, nat>>

  datatype Blocker = UnexpectedFallbacks | Errors | SlowResponses

  datatype Summary = Summary(
    totalRequests: nat, errorRate: real, fallbackRate: real, unexpectedFallbackRate: real,
    p50: real, p95: real, p99: real,
    verdictMatrix: Matrix, sampleResponses: map<Scenario, map<string, Json>>,
    blockers: seq<Blocker>, go: bool)

  predicate IsFallback(out: map<string, Json>) {
    var trace := Get(out, "policy_trace", Null);
    trace.Obj? && Get(trace.fields, "source", Null) == Str("connector_fallback")
  }

  function VerdictOf(lib: ScanHandler.Library, out: map<string, Json>): Verdict {
    var text := ScanHandler.VerdictText(lib, out);
    if text == "allow" then Allow else if text == "block" then Block else Quarantine
  }

  function Reading(lib: ScanHandler.Library, d: Draw): Sample {
    Sample(d.scenario, d.status, IsFallback(d.out), VerdictOf(lib, d.out), d.latencyMs, d.out)
  }

  function Readings(lib: ScanHandler.Library, draws: seq<Draw>): seq<Sample> {
    seq(|draws|, i requires 0 <= i < |draws| => Reading(lib, draws[i]))
  }

  // ---------------------------------------------------------------- what the counters count

  datatype Kind =
    | Any
    | Failed
    | FellBack
    | NotExpected
    | Unexpected
    | Row(scenario: Scenario)
    | Cell(scenario: Scenario, verdict: Verdict)

  predicate Is(k: Kind, x: Sample) {
    match k
    case Any => true
    case Failed => x.status >= 400
    case FellBack => x.isFallback
    case NotExpected => !x.scenario.ExpectedFallback()
    case Unexpected => !x.scenario.ExpectedFallback() && x.isFallback
    case Row(s) => x.scenario == s
    case Cell(s, v) => x.scenario == s && x.verdict == v
  }

  function One(k: Kind, x: Sample): nat {
    if Is(k, x) then 1 else 0
  }

  function Count(k: Kind, samples: seq<Sample>): nat {
    if samples == [] then 0
    else Count(k, samples[..|samples| - 1]) + One(k, samples[|samples| - 1])
  }

  function Latencies(samples: seq<Sample>): seq<real> {
    seq(|samples|, i requires 0 <= i < |samples| => samples[i].latencyMs)
  }

  function AtLeastOne(n: nat): (m: nat)
    ensures m >= 1
  {
    if n > 1 then n else 1
  }

  function Ratio(part: nat, whole: nat): real
    requires whole >= 1
  {
    part as real / whole as real
  }

  ghost predicate HasCell(m: Matrix, s: Scenario, v: Verdict) {
    s in m && v in m[s]
  }

  ghost predicate IsMatrix(m: Matrix) {
    forall s: Scenario, v: Verdict :: HasCell(m, s, v)
  }

  ghost function CellOf(m: Matrix, s: Scenario, v: Verdict): nat
    requires IsMatrix(m)
  {
    assert HasCell(m, s, v);
    m[s][v]
  }

  // The matrix counts the samples cell by cell.
  ghost predicate Counts(m: Matrix, samples: seq<Sample>) {
    IsMatrix(m) && forall s: Scenario, v: Verdict :: CellOf(m, s, v) == Count(Cell(s, v), samples)
  }

  // `verdict_matrix[s][v] += 1`
  function Incremented(m: Matrix, s: Scenario, v: Verdict): Matrix
    requires HasCell(m, s, v)
  {
    m[s := m[s][v := m[s][v] + 1]]
  }

  // The response kept for each scenario.
  ghost function FirstResponses(samples: seq<Sample>): map<Scenario, map<string, Json>> {
    if samples == [] then map[]
    else
      var first := FirstResponses(samples[..|samples| - 1]);
      var x := samples[|samples| - 1];
      if x.scenario in first then first else first[x.scenario := x.out]
  }

  // It is the one of the first sample drawn for the scenario.
  ghost predicate IsFirst(samples: seq<Sample>, i: nat, s: Scenario) {
    i < |samples| && samples[i].scenario == s && forall j :: 0 <= j < i ==> samples[j].scenario != s
  }

  // ---------------------------------------------------------------- the loop

  datatype Tally = Tally(
    latencies: seq<real>, errors: nat, fallbacks: nat, unexpected: nat, notExpected: nat,
    matrix: Matrix, first: map<Scenario, map<string, Json>>)

  ghost predicate Tallies(t: Tally, samples: seq<Sample>) {
    && t.latencies == Latencies(samples)
    && t.errors == Count(Failed, samples)
    && t.fallbacks == Count(FellBack, samples)
    && t.unexpected == Count(Unexpected, samples)
    && t.notExpected == Count(NotExpected, samples)
    && Counts(t.matrix, samples)
    && t.first == FirstResponses(samples)
  }

  // What one more sample does to each count.
  ghost function Added(t: Tally, x: Sample): Tally
    requires IsMatrix(t.matrix)
  {
    assert HasCell(t.matrix, x.scenario, x.verdict);
    Tally(t.latencies + [x.latencyMs],
          t.errors + One(Failed, x),
          t.fallbacks + One(FellBack, x),
          t.unexpected + One(Unexpected, x),
          t.notExpected + One(NotExpected, x),
          Incremented(t.matrix, x.scenario, x.verdict),
          if x.scenario in t.first then t.first else t.first[x.scenario := x.out])
  }

  lemma TallyAdded(t: Tally, samples: seq<Sample>, x: Sample)
    requires Tallies(t, samples)
    ensures Tallies(Added(t, x), samples + [x])
  {
    CountAdded(Failed, samples, x);
    CountAdded(FellBack, samples, x);
    CountAdded(Unexpected, samples, x);
    CountAdded(NotExpected, samples, x);
    CellAdded(t.matrix, samples, x);
    assert (samples + [x])[..|samples|] == samples;
  }

  lemma CountAdded(k: Kind, samples: seq<Sample>, x: Sample)
    ensures Count(k, samples + [x]) == Count(k, samples) + One(k, x)
  {
    assert (samples + [x])[..|samples|] == samples;
  }

  /** The sampling loop of `main`, over the samples drawn. */
  method Collect(samples: seq<Sample>) returns (t: Tally)
    ensures Tallies(t, samples)
  {
    var latencies: seq<real> := [];
    var errorCount, fallbackCount, unexpectedCount, notExpectedTotal := 0, 0, 0, 0;
    var matrix := EmptyMatrix();
    var first: map<Scenario, map<string, Json>> := map[];
    EmptyMatrixCounts();
    for i := 0 to |samples|
      invariant Tallies(Tally(latencies, errorCount, fallbackCount, unexpectedCount, notExpectedTotal, matrix, first),
                        samples[..i])
    {
      var x := samples[i];
      assert samples[..i + 1] == samples[..i] + [x];
      ghost var before := Tally(latencies, errorCount, fallbackCount, unexpectedCount, notExpectedTotal, matrix, first);
      TallyAdded(before, samples[..i], x);
      latencies := latencies + [x.latencyMs];
      if x.status >= 400 {
        errorCount := errorCount + 1;
      }
      if x.isFallback {
        fallbackCount := fallbackCount + 1;
      }
      if !x.scenario.ExpectedFallback() {
        notExpectedTotal := notExpectedTotal + 1;
        if x.isFallback {
          unexpectedCount := unexpectedCount + 1;
        }
      }
      matrix := Incremented(matrix, x.scenario, x.verdict);
      if x.scenario !in first {
        first := first[x.scenario := x.out];
      }
      assert Added(before, x)
          == Tally(latencies, errorCount, fallbackCount, unexpectedCount, notExpectedTotal, matrix, first);
    }
    assert samples[..|samples|] == samples;
    t := Tally(latencies, errorCount, fallbackCount, unexpectedCount, notExpectedTotal, matrix, first);
  }

  function EmptyMatrix(): Matrix {
    var empty := map[Allow := 0, Quarantine := 0, Block := 0];
    map[AllowCase := empty, QuarantineCase := empty, BlockCase := empty]
  }

  lemma EmptyMatrixCounts()
    ensures Counts(EmptyMatrix(), [])
  {
    forall s: Scenario, v: Verdict ensures HasCell(EmptyMatrix(), s, v) && EmptyMatrix()[s][v] == 0 {
      var row := map[Allow := 0, Quarantine := 0, Block := 0];
      assert v == Allow || v == Quarantine || v == Block;
      assert s == AllowCase || s == QuarantineCase || s == BlockCase;
      assert v in row && row[v] == 0;
      assert s in EmptyMatrix() && EmptyMatrix()[s] == row;
    }
  }

  ghost predicate ReportsRates(r: Summary, samples: seq<Sample>) {
    && r.totalRequests == AtLeastOne(|samples|)
    && r.errorRate == Ratio(Count(Failed, samples), r.totalRequests)
    && r.fallbackRate == Ratio(Count(FellBack, samples), r.totalRequests)
    && r.unexpectedFallbackRate == Ratio(Count(Unexpected, samples), AtLeastOne(Count(NotExpected, samples)))
  }

  // What a summary says about the samples.
  ghost predicate Reports(r: Summary, samples: seq<Sample>) {
    && ReportsRates(r, samples)
    && r.p50 == Percentile(Latencies(samples), 0.50)
    && r.p95 == Percentile(Latencies(samples), 0.95)
    && r.p99 == Percentile(Latencies(samples), 0.99)
    && Counts(r.verdictMatrix, samples)
    && r.sampleResponses == FirstResponses(samples)
  }

  /** The rest of `main`: rates, percentiles, blockers and the decision. */
  method Summarize(lib: ScanHandler.Library, draws: seq<Draw>) returns (r: Summary)
    ensures Reports(r, Readings(lib, draws))
    ensures r.go <==> r.unexpectedFallbackRate <= 0.01 && r.errorRate < 0.01 && r.p95 < 1000.0
    ensures UnexpectedFallbacks in r.blockers <==> r.unexpectedFallbackRate > 0.01
    ensures Errors in r.blockers <==> r.errorRate >= 0.01
    ensures SlowResponses in r.blockers <==> r.p95 >= 1000.0
  {
    ghost var samples := Readings(lib, draws);
    var t := Collect(Readings(lib, draws));
    assert |t.latencies| == |samples|;
    var total := AtLeastOne(|t.latencies|);
    var errorRate := Ratio(t.errors, total);
    var fallbackRate := Ratio(t.fallbacks, total);
    var unexpectedRate := Ratio(t.unexpected, AtLeastOne(t.notExpected));
    var p50 := Percentile(t.latencies, 0.50);
    var p95 := Percentile(t.latencies, 0.95);
    var p99 := Percentile(t.latencies, 0.99);
    var blockers: seq<Blocker> := [];
    if unexpectedRate > 0.01 {
      blockers := blockers + [UnexpectedFallbacks];
    }
    if errorRate >= 0.01 {
      blockers := blockers + [Errors];
    }
    if p95 >= 1000.0 {
      blockers := blockers + [SlowResponses];
    }
    r := Summary(total, errorRate, fallbackRate, unexpectedRate, p50, p95, p99, t.matrix, t.first,
                 blockers, blockers == []);
    assert ReportsRates(r, samples);
  }

  lemma CellAdded(m: Matrix, samples: seq<Sample>, x: Sample)
    requires Counts(m, samples)
    ensures HasCell(m, x.scenario, x.verdict)
    ensures Counts(Incremented(m, x.scenario, x.verdict), samples + [x])
  {
    assert HasCell(m, x.scenario, x.verdict);
    var m' := Incremented(m, x.scenario, x.verdict);
    forall s: Scenario, v: Verdict
      ensures HasCell(m', s, v) && m'[s][v] == Count(Cell(s, v), samples + [x])
    {
      assert HasCell(m, s, v) && CellOf(m, s, v) == Count(Cell(s, v), samples);
      CountAdded(Cell(s, v), samples, x);
    }
  }

  /** The response reported for a scenario is that of the first sample drawn for it, and every
      scenario drawn has one. */
  lemma {:induction false} FirstResponsesAreFirst(samples: seq<Sample>, i: nat)
    requires i < |samples|
    ensures samples[i].scenario in FirstResponses(samples)
    ensures IsFirst(samples, i, samples[i].scenario) ==> FirstResponses(samples)[samples[i].scenario] == samples[i].out
  {
    var shorter := samples[..|samples| - 1];
    if i < |shorter| {
      FirstResponsesAreFirst(shorter, i);
    } else if IsFirst(samples, i, samples[i].scenario) {
      OnlyDrawn(shorter, samples[i].scenario);
    }
  }

  lemma {:induction false} OnlyDrawn(samples: seq<Sample>, s: Scenario)
    requires forall j :: 0 <= j < |samples| ==> samples[j].scenario != s
    ensures s !in FirstResponses(samples)
  {
    if samples != [] { OnlyDrawn(samples[..|samples| - 1], s); }
  }

  // ---------------------------------------------------------------- conservation

  lemma {:induction false} CountSplits(whole: Kind, a: Kind, b: Kind, c: Kind, samples: seq<Sample>)
    requires forall x: Sample :: One(whole, x) == One(a, x) + One(b, x) + One(c, x)
    ensures Count(whole, samples) == Count(a, samples) + Count(b, samples) + Count(c, samples)
  {
    if samples != [] { CountSplits(whole, a, b, c, samples[..|samples| - 1]); }
  }

  lemma {:induction false} CountGrows(a: Kind, b: Kind, samples: seq<Sample>)
    requires forall x: Sample :: Is(a, x) ==> Is(b, x)
    ensures Count(a, samples) <= Count(b, samples)
  {
    if samples != [] { CountGrows(a, b, samples[..|samples| - 1]); }
  }

  lemma {:induction false} CountAny(samples: seq<Sample>)
    ensures Count(Any, samples) == |samples|
  {
    if samples != [] { CountAny(samples[..|samples| - 1]); }
  }

  ghost function RowSum(m: Matrix, s: Scenario): nat
    requires IsMatrix(m)
  {
    CellOf(m, s, Allow) + CellOf(m, s, Quarantine) + CellOf(m, s, Block)
  }

  lemma RatioInUnit(part: nat, whole: nat)
    requires part <= whole && whole >= 1
    ensures 0.0 <= Ratio(part, whole) <= 1.0
  {
  }

  // A sample of a scenario falls into exactly one cell of its row.
  lemma OneCell(s: Scenario, x: Sample)
    ensures One(Row(s), x)
         == One(Cell(s, Allow), x) + One(Cell(s, Quarantine), x) + One(Cell(s, Block), x)
  {
  }

  lemma RowIsDraws(m: Matrix, samples: seq<Sample>, s: Scenario)
    requires Counts(m, samples)
    ensures RowSum(m, s) == Count(Row(s), samples)
  {
    forall x: Sample
      ensures One(Row(s), x) == One(Cell(s, Allow), x) + One(Cell(s, Quarantine), x) + One(Cell(s, Block), x)
    {
      OneCell(s, x);
    }
    CountSplits(Row(s), Cell(s, Allow), Cell(s, Quarantine), Cell(s, Block), samples);
  }

  /** Conservation: in a report, each row of the matrix adds up to the draws of its scenario and
      all rows to the number of latencies; the unexpected fallbacks are among the fallbacks and
      among the requests not expected to fall back; all rates lie between 0 and 1; and the
      percentiles are in order. */
  lemma ReportConserves(r: Summary, samples: seq<Sample>)
    requires Reports(r, samples)
    ensures forall s: Scenario :: RowSum(r.verdictMatrix, s) == Count(Row(s), samples)
    ensures RowSum(r.verdictMatrix, AllowCase) + RowSum(r.verdictMatrix, QuarantineCase)
            + RowSum(r.verdictMatrix, BlockCase) == |Latencies(samples)|
    ensures Count(Unexpected, samples) <= Count(FellBack, samples)
    ensures Count(Unexpected, samples) <= Count(NotExpected, samples)
    ensures 0.0 <= r.errorRate <= 1.0 && 0.0 <= r.fallbackRate <= 1.0 && 0.0 <= r.unexpectedFallbackRate <= 1.0
    ensures r.p50 <= r.p95 <= r.p99
  {
    forall s: Scenario ensures RowSum(r.verdictMatrix, s) == Count(Row(s), samples) {
      RowIsDraws(r.verdictMatrix, samples, s);
    }
    CountSplits(Any, Row(AllowCase), Row(QuarantineCase), Row(BlockCase), samples);
    CountAny(samples);
    CountGrows(Unexpected, FellBack, samples);
    CountGrows(Unexpected, NotExpected, samples);
    CountGrows(Failed, Any, samples);
    CountGrows(FellBack, Any, samples);
    RatioInUnit(Count(Failed, samples), AtLeastOne(|samples|));
    RatioInUnit(Count(FellBack, samples), AtLeastOne(|samples|));
    RatioInUnit(Count(Unexpected, samples), AtLeastOne(Count(NotExpected, samples)));
    MonotoneInLevel(Latencies(samples), 0.50, 0.95);
    MonotoneInLevel(Latencies(samples), 0.95, 0.99);
  }

  // ---------------------------------------------------------------- what the counts are counts of

  lemma {:induction false} CountIsCardinality(k: Kind, samples: seq<Sample>, which: set<int>)
    requires forall i :: i in which <==> 0 <= i < |samples| && Is(k, samples[i])
    ensures Count(k, samples) == |which|
  {
    if samples == [] {
      forall i ensures i !in which {
      }
    } else {
      var last := |samples| - 1;
      CountIsCardinality(k, samples[..last], which - {last});
    }
  }

  // The response says it comes from the connector and not from the scanner.
  ghost predicate SaysFallback(out: map<string, Json>) {
    "policy_trace" in out && out["policy_trace"].Obj? && "source" in out["policy_trace"].fields
    && out["policy_trace"].fields["source"] == Str("connector_fallback")
  }

  // A response belongs in the column of its verdict, and under quarantine if that is none.
  ghost predicate InColumn(lib: ScanHandler.Library, out: map<string, Json>, v: Verdict) {
    var text := ScanHandler.VerdictText(lib, out);
    match v
    case Allow => text == "allow"
    case Block => text == "block"
    case Quarantine => text != "allow" && text != "block"
  }

  // The draws of a kind are those that meet a condition.
  lemma KindCounts(lib: ScanHandler.Library, draws: seq<Draw>, k: Kind, which: set<int>)
    requires forall i :: i in which <==> 0 <= i < |draws| && Is(k, Reading(lib, draws[i]))
    ensures Count(k, Readings(lib, draws)) == |which|
  {
    var samples := Readings(lib, draws);
    forall i ensures i in which <==> 0 <= i < |samples| && Is(k, samples[i]) {
    }
    CountIsCardinality(k, samples, which);
  }

  // The four sets of draws the rates are about.
  ghost function FailedDraws(draws: seq<Draw>): set<int> {
    set i | 0 <= i < |draws| && draws[i].status >= 400
  }

  ghost function FallbackDraws(draws: seq<Draw>): set<int> {
    set i | 0 <= i < |draws| && SaysFallback(draws[i].out)
  }

  ghost function OrdinaryDraws(draws: seq<Draw>): set<int> {
    set i | 0 <= i < |draws| && draws[i].scenario != QuarantineCase
  }

  ghost function UnexpectedDraws(draws: seq<Draw>): set<int> {
    set i | 0 <= i < |draws| && draws[i].scenario != QuarantineCase && SaysFallback(draws[i].out)
  }

  lemma SetsCount(lib: ScanHandler.Library, draws: seq<Draw>)
    ensures var samples := Readings(lib, draws);
            && Count(Failed, samples) == |FailedDraws(draws)|
            && Count(FellBack, samples) == |FallbackDraws(draws)|
            && Count(NotExpected, samples) == |OrdinaryDraws(draws)|
            && Count(Unexpected, samples) == |UnexpectedDraws(draws)|
  {
    KindCounts(lib, draws, Failed, FailedDraws(draws));
    KindCounts(lib, draws, FellBack, FallbackDraws(draws));
    KindCounts(lib, draws, NotExpected, OrdinaryDraws(draws));
    KindCounts(lib, draws, Unexpected, UnexpectedDraws(draws));
  }

  /** What the rates are rates of, in terms of the responses drawn: statuses from 400 on, responses
      that say they are the connector's own, and those among them that no oversize text explains. */
  lemma RatesCountDraws(lib: ScanHandler.Library, draws: seq<Draw>, r: Summary)
    requires ReportsRates(r, Readings(lib, draws)) && draws != []
    ensures r.totalRequests == |draws|
    ensures r.errorRate == |FailedDraws(draws)| as real / |draws| as real
    ensures r.fallbackRate == |FallbackDraws(draws)| as real / |draws| as real
    ensures OrdinaryDraws(draws) == {} ==> r.unexpectedFallbackRate == 0.0
    ensures OrdinaryDraws(draws) != {} ==>
              r.unexpectedFallbackRate == |UnexpectedDraws(draws)| as real / |OrdinaryDraws(draws)| as real
  {
    SetsCount(lib, draws);
    assert UnexpectedDraws(draws) <= OrdinaryDraws(draws);
    RatesFromCounts(r, Readings(lib, draws), |FailedDraws(draws)|, |FallbackDraws(draws)|, |OrdinaryDraws(draws)|,
                    |UnexpectedDraws(draws)|);
  }

  lemma RatesFromCounts(r: Summary, samples: seq<Sample>, failed: nat, fellBack: nat, ordinary: nat, unexpected: nat)
    requires ReportsRates(r, samples) && samples != []
    requires Count(Failed, samples) == failed && Count(FellBack, samples) == fellBack
    requires Count(NotExpected, samples) == ordinary && Count(Unexpected, samples) == unexpected
    ensures r.totalRequests == |samples|
    ensures r.errorRate == failed as real / |samples| as real
    ensures r.fallbackRate == fellBack as real / |samples| as real
    ensures ordinary == unexpected == 0 ==> r.unexpectedFallbackRate == 0.0
    ensures ordinary > 0 ==> r.unexpectedFallbackRate == unexpected as real / ordinary as real
  {
  }

  /** A cell of the matrix counts the draws of its scenario whose verdict is its column's. */
  lemma CellsCountDraws(lib: ScanHandler.Library, draws: seq<Draw>, m: Matrix, s: Scenario, v: Verdict)
    requires Counts(m, Readings(lib, draws))
    ensures CellOf(m, s, v) == |CellDraws(lib, draws, s, v)|
  {
    KindCounts(lib, draws, Cell(s, v), CellDraws(lib, draws, s, v));
  }

  ghost function CellDraws(lib: ScanHandler.Library, draws: seq<Draw>, s: Scenario, v: Verdict): set<int> {
    set i | 0 <= i < |draws| && draws[i].scenario == s && InColumn(lib, draws[i].out, v)
  }

  // ---------------------------------------------------------------- the report and the connector

  /** The report recognises the connector's fallbacks: a response to anything but a readable answer
      counts as one, and a readable answer only if its own trace claims to be one. */
  lemma FallbacksAreRecognised(lib: ScanHandler.Library, result: OmegaClient.Result, payload: AuthGate.Payload,
                               failMode: string, freshId: string, freshEvidence: string)
    ensures var r := ScanHandler.Respond(lib, result, payload, failMode, freshId, freshEvidence);
            IsFallback(ScanHandler.AsJson(r).fields) <==>
              (ScanHandler.Readable(lib, result) ==> SaysFallback(result.body.fields))
  {
    var r := ScanHandler.Respond(lib, result, payload, failMode, freshId, freshEvidence);
    var out := ScanHandler.AsJson(r).fields;
    assert out["policy_trace"] == r.policyTrace;
    if ScanHandler.Readable(lib, result) {
      ScanHandler.ObjectsArePassedOn(lib, result, payload, failMode, freshId, freshEvidence);
    } else {
      ScanHandler.FailModeDecides(lib, result, payload, failMode, freshId, freshEvidence);
    }
  }

  /** And it files every contract-valid response under its verdict. */
  lemma VerdictsAreFiled(lib: ScanHandler.Library, r: ScanHandler.Response)
    requires ScanHandler.ContractValid(r)
    ensures var v := VerdictOf(lib, ScanHandler.AsJson(r).fields);
            && (v == Allow <==> r.verdict == "allow")
            && (v == Quarantine <==> r.verdict == "quarantine")
            && (v == Block <==> r.verdict == "block")
  {
    ScanHandler.VerdictsAreNormal(r.verdict);
    assert Get(ScanHandler.AsJson(r).fields, "verdict", Str("quarantine")) == Str(r.verdict);
  }

  /** So against a connector that gets no readable answer, the report says NO-GO as soon as one
      ordinary text is drawn. */
  lemma OutageIsNoGo(lib: ScanHandler.Library, draws: seq<Draw>, r: Summary, i: nat)
    requires ReportsRates(r, Readings(lib, draws))
    requires forall k :: 0 <= k < |draws| ==> SaysFallback(draws[k].out)
    requires i < |draws| && draws[i].scenario != QuarantineCase
    requires r.go <==> r.unexpectedFallbackRate <= 0.01 && r.errorRate < 0.01 && r.p95 < 1000.0
    ensures r.unexpectedFallbackRate == 1.0 && !r.go
  {
    assert i in OrdinaryDraws(draws);
    RatesCountDraws(lib, draws, r);
    OnlyFallbacks(draws);
    NonEmptyCounts(OrdinaryDraws(draws), i);
  }

  lemma OnlyFallbacks(draws: seq<Draw>)
    requires forall k :: 0 <= k < |draws| ==> SaysFallback(draws[k].out)
    ensures UnexpectedDraws(draws) == OrdinaryDraws(draws)
  {
  }

  lemma NonEmptyCounts(which: set<int>, i: int)
    requires i in which
    ensures |which| >= 1 && |which| as real / |which| as real == 1.0
  {
  }
}
