/** The scan handler of connector/app.py: every answer or failure of the upstream becomes a
    response that meets the contract. */
module ScanHandler {
  import opened Common
  import opened PyText
  import opened Json
  import opened OmegaClient
  import AuthGate

  // `str()` of a JSON value that is not a string, and `int()` of a string.
  datatype Library = Library(repr: Json -> string, parseInt: string -> Option<int>)

  const VERDICTS: set<string> := {"allow", "quarantine", "block"}

  // Python prints no number, list, dict, boolean or None as nothing or as a verdict.
  ghost predicate PlainRepr(lib: Library) {
    forall v: Json :: !v.Str? ==> lib.repr(v) != "" && Lower(Strip(lib.repr(v))) !in VERDICTS
  }

  datatype Response = Response(
    requestId: string, tenantId: string, riskScore: int, verdict: string, reasons: seq<string>,
    evidenceId: string, policyTrace: Json, attestation: Json)

  /** What docs/CONTRACT.md promises of a response. */
  ghost predicate ContractValid(r: Response) {
    && r.requestId != "" && r.tenantId != "" && r.evidenceId != ""
    && 0 <= r.riskScore <= 100
    && r.verdict in VERDICTS
    && r.policyTrace.Obj?
    && (r.attestation.Obj? || r.attestation.Null?)
  }

  function PyStr(lib: Library, v: Json): string {
    if v.Str? then v.s else lib.repr(v)
  }

  /** `int(v)`, None where it raises. */
  function PyInt(lib: Library, v: Json): Option<int> {
    match v
    case Bool(b) => Some(if b then 1 else 0)
    case Int(n) => Some(n)
    case Float(Some(x)) => Some(AuthGate.Truncate(x))
    case Str(s) => lib.parseInt(s)
    case _ => None
  }

  function Clamp(n: int): int {
    var low := if n < 100 then n else 100;
    if low > 0 then low else 0
  }

  /** `[str(item) for item in (v or [])]`, None where v cannot be iterated. */
  function ReasonList(lib: Library, v: Json): Option<seq<string>> {
    if !Truthy(v) then Some([])
    else
      match v
      case Arr(items) => Some(seq(|items|, i requires 0 <= i < |items| => PyStr(lib, items[i])))
      case Str(s) => Some(seq(|s|, i requires 0 <= i < |s| => [s[i]]))
      case Obj(_, order) => Some(order)
      case _ => None
  }

  function TextOr(lib: Library, v: Json, fallback: string): string {
    if Truthy(v) then PyStr(lib, v) else fallback
  }

  /** The upstream's verdict as `_normalize_response` reads it. */
  function VerdictText(lib: Library, fields: map<string, Json>): string {
    Lower(Strip(PyStr(lib, Get(fields, "verdict", Str("quarantine")))))
  }

  /** `_normalize_response`, None where it raises. */
  function Normalize(lib: Library, raw: Json, payload: AuthGate.Payload, freshId: string,
                     freshEvidence: string): Option<Response> {
    if !raw.Obj? then None
    else
      var fields := raw.fields;
      match (PyInt(lib, Get(fields, "risk_score", Int(0))), ReasonList(lib, Get(fields, "reasons", Null)))
      case (Some(risk), Some(reasons)) =>
        var requestId := TextOr(lib, Get(fields, "request_id", Null),
                                if payload.requestId.GetOr("") != "" then payload.requestId.value else freshId);
        var verdict := VerdictText(lib, fields);
        var policyTrace := Get(fields, "policy_trace", Null);
        var attestation := Get(fields, "attestation", Null);
        Some(Response(
          requestId,
          TextOr(lib, Get(fields, "tenant_id", Null), payload.tenantId),
          Clamp(risk),
          if verdict in VERDICTS then verdict else "quarantine",
          reasons,
          TextOr(lib, Get(fields, "evidence_id", Null), freshEvidence),
          if policyTrace.Obj? then policyTrace else Obj(map[], []),
          if attestation.Obj? then attestation else Null))
      case _ => None
  }

  function RiskOf(verdict: string): int {
    if verdict == "allow" then 0 else if verdict == "quarantine" then 55 else if verdict == "block" then 95 else 55
  }

  /** `_fallback_response` */
  function Fallback(payload: AuthGate.Payload, reason: string, failMode: string, detailCode: Option<string>,
                    status: Option<int>, freshId: string, freshEvidence: string): Response
  {
    var verdict := if failMode in VERDICTS then failMode else "quarantine";
    var base := map["source" := Str("connector_fallback"), "reason" := Str(reason), "fail_mode" := Str(verdict)];
    var order := ["source", "reason", "fail_mode"];
    var (detailed, order') :=
      if detailCode.GetOr("") != ""
      then (base["upstream_detail_code" := Str(detailCode.value)], order + ["upstream_detail_code"])
      else (base, order);
    var (trace, order'') :=
      if status.Some?
      then (detailed["upstream_status" := Int(status.value)], order' + ["upstream_status"])
      else (detailed, order');
    Response(if payload.requestId.GetOr("") != "" then payload.requestId.value else freshId,
             payload.tenantId, RiskOf(verdict), verdict, [reason], freshEvidence, Obj(trace, order''), Null)
  }

  /** The handler's mapping from what the upstream client returned or raised. */
  function Respond(lib: Library, result: Result, payload: AuthGate.Payload, failMode: string, freshId: string,
                   freshEvidence: string): Response {
    match result
    case Data(raw) =>
      (match Normalize(lib, raw, payload, freshId, freshEvidence)
       case Some(response) => response
       case None => Fallback(payload, "invalid_response", failMode, None, None, freshId, freshEvidence))
    case CircuitOpen => Fallback(payload, "omega_unavailable", failMode, None, None, freshId, freshEvidence)
    case Timeout => Fallback(payload, "omega_timeout", failMode, None, None, freshId, freshEvidence)
    case Rejected(status, code) =>
      Fallback(payload, "omega_rejected_4xx", failMode, Some(code), Some(status), freshId, freshEvidence)
    case Unavailable => Fallback(payload, "omega_unavailable", failMode, None, None, freshId, freshEvidence)
    case ClientError => Fallback(payload, "invalid_response", failMode, None, None, freshId, freshEvidence)
  }

  // The upstream answered with an object whose score and reasons can be read.
  ghost predicate Readable(lib: Library, result: Result) {
    && result.Data? && result.body.Obj?
    && PyInt(lib, Get(result.body.fields, "risk_score", Int(0))).Some?
    && ReasonList(lib, Get(result.body.fields, "reasons", Null)).Some?
  }

  /** Totality: whatever the upstream answered and however the client failed, the response meets
      the contract. */
  lemma RespondMeetsContract(lib: Library, result: Result, payload: AuthGate.Payload, failMode: string,
                             freshId: string, freshEvidence: string)
    requires PlainRepr(lib) && payload.tenantId != "" && freshId != "" && freshEvidence != ""
    ensures ContractValid(Respond(lib, result, payload, failMode, freshId, freshEvidence))
  {
  }

  /** Fail mode: a response says `allow` iff the upstream answered readably with a verdict that
      trims and lowers to `allow`, or did not answer readably and the fail mode is `allow`. */
  lemma AllowOnlyWhenSaid(lib: Library, result: Result, payload: AuthGate.Payload, failMode: string, freshId: string,
                          freshEvidence: string)
    ensures Respond(lib, result, payload, failMode, freshId, freshEvidence).verdict == "allow" <==>
            if Readable(lib, result) then VerdictText(lib, result.body.fields) == "allow" else failMode == "allow"
  {
  }

  // Both at once, for one response.
  lemma ResponseFacts(lib: Library, result: Result, payload: AuthGate.Payload, failMode: string, freshId: string,
                      freshEvidence: string, response: Response)
    requires PlainRepr(lib) && payload.tenantId != "" && freshId != "" && freshEvidence != ""
    requires response == Respond(lib, result, payload, failMode, freshId, freshEvidence)
    ensures ContractValid(response)
    ensures response.verdict == "allow" && failMode != "allow" ==> result.Data?
  {
    RespondMeetsContract(lib, result, payload, failMode, freshId, freshEvidence);
    AllowOnlyWhenSaid(lib, result, payload, failMode, freshId, freshEvidence);
  }

  // ---------------------------------------------------------------- what the response says

  lemma VerdictsAreNormal(v: string)
    requires v in VERDICTS
    ensures Lower(Strip(v)) == v
  {
    StripKeeps(v);
  }

  function ReasonItems(reasons: seq<string>): seq<Json> {
    seq(|reasons|, i requires 0 <= i < |reasons| => Str(reasons[i]))
  }

  lemma ReasonsReadBack(lib: Library, reasons: seq<string>)
    ensures ReasonList(lib, Arr(ReasonItems(reasons))) == Some(reasons)
  {
    var items := ReasonItems(reasons);
    assert seq(|items|, i requires 0 <= i < |items| => PyStr(lib, items[i])) == reasons;
  }

  // The reason the handler gives for a result that is not a readable answer.
  ghost function ReasonFor(result: Result): string {
    match result
    case CircuitOpen => "omega_unavailable"
    case Unavailable => "omega_unavailable"
    case Timeout => "omega_timeout"
    case Rejected(_, _) => "omega_rejected_4xx"
    case ClientError => "invalid_response"
    case Data(_) => "invalid_response"
  }

  /** Without a readable answer the response is the fail mode's: its verdict, or quarantine if it
      is none; the risk that goes with the verdict; and the reason, with what the upstream said of
      a rejection. */
  lemma FailModeDecides(lib: Library, result: Result, payload: AuthGate.Payload, failMode: string, freshId: string,
                        freshEvidence: string)
    requires !Readable(lib, result)
    ensures var r := Respond(lib, result, payload, failMode, freshId, freshEvidence);
            && (failMode in {"allow", "quarantine", "block"} ==> r.verdict == failMode)
            && (failMode !in {"allow", "quarantine", "block"} ==> r.verdict == "quarantine")
            && (r.verdict == "allow" ==> r.riskScore == 0)
            && (r.verdict == "quarantine" ==> r.riskScore == 55)
            && (r.verdict == "block" ==> r.riskScore == 95)
            && r.reasons == [ReasonFor(result)] && r.attestation == Null
            && r.tenantId == payload.tenantId && r.evidenceId == freshEvidence
            && r.requestId == (if payload.requestId.GetOr("") == "" then freshId else payload.requestId.value)
    ensures var trace := Respond(lib, result, payload, failMode, freshId, freshEvidence).policyTrace;
            && trace.Obj?
            && Get(trace.fields, "source", Null) == Str("connector_fallback")
            && Get(trace.fields, "reason", Null) == Str(ReasonFor(result))
            && Get(trace.fields, "fail_mode", Null) == Str(if failMode in VERDICTS then failMode else "quarantine")
            && Get(trace.fields, "upstream_status", Null) == (if result.Rejected? then Int(result.status) else Null)
            && Get(trace.fields, "upstream_detail_code", Null) ==
                 (if result.Rejected? && result.detailCode != "" then Str(result.detailCode) else Null)
  {
    var r := Respond(lib, result, payload, failMode, freshId, freshEvidence);
    UnreadableFallsBack(lib, result, payload, failMode, freshId, freshEvidence);
    var status := if result.Rejected? then Some(result.status) else None;
    var code := if result.Rejected? then Some(result.detailCode) else None;
    assert r == Fallback(payload, ReasonFor(result), failMode, code, status, freshId, freshEvidence);
  }

  lemma UnreadableFallsBack(lib: Library, result: Result, payload: AuthGate.Payload, failMode: string,
                            freshId: string, freshEvidence: string)
    requires !Readable(lib, result)
    ensures Respond(lib, result, payload, failMode, freshId, freshEvidence) ==
              Fallback(payload, ReasonFor(result), failMode,
                       if result.Rejected? then Some(result.detailCode) else None,
                       if result.Rejected? then Some(result.status) else None, freshId, freshEvidence)
  {
  }

  // Text that the upstream gives for a field, unless it gives nothing.
  ghost predicate Given(fields: map<string, Json>, key: string, text: string) {
    key in fields && fields[key] == Str(text) && text != ""
  }

  // Nothing, or what counts as nothing in Python.
  ghost predicate Missing(fields: map<string, Json>, key: string) {
    key in fields ==> fields[key] in {Null, Bool(false), Int(0), Float(Some(0.0)), Str(""), Arr([]), Obj(map[], [])}
  }

  /** A readable answer keeps its verdict if it is one of the three once trimmed and lowered;
      any other, and none, becomes quarantine. */
  lemma VerdictIsPassedOn(lib: Library, result: Result, payload: AuthGate.Payload, failMode: string, freshId: string,
                          freshEvidence: string)
    requires Readable(lib, result)
    ensures var verdict := Respond(lib, result, payload, failMode, freshId, freshEvidence).verdict;
            var said := VerdictText(lib, result.body.fields);
            && (said in {"allow", "quarantine", "block"} ==> verdict == said)
            && (said !in {"allow", "quarantine", "block"} ==> verdict == "quarantine")
            && ("verdict" !in result.body.fields ==> verdict == "quarantine")
  {
    VerdictsAreNormal("quarantine");
  }

  /** Its score is moved into the range from 0 to 100: an integer to the nearest end, a number with
      a fraction down to the integer below it, nothing to 0. */
  lemma ScoreIsPassedOn(lib: Library, result: Result, payload: AuthGate.Payload, failMode: string, freshId: string,
                        freshEvidence: string)
    requires Readable(lib, result)
    ensures var risk := Respond(lib, result, payload, failMode, freshId, freshEvidence).riskScore;
            var score := Get(result.body.fields, "risk_score", Null);
            && (score.Int? && 0 <= score.n <= 100 ==> risk == score.n)
            && (score.Int? && score.n < 0 ==> risk == 0)
            && (score.Int? && score.n > 100 ==> risk == 100)
            && (score.Bool? ==> risk == if score.b then 1 else 0)
            && (score.Str? && lib.parseInt(score.s).Some? && 0 <= lib.parseInt(score.s).value <= 100 ==>
                  risk == lib.parseInt(score.s).value)
            && (forall x :: score == Float(Some(x)) && 0.0 <= x <= 100.0 ==> risk as real <= x < risk as real + 1.0)
            && (forall x :: score == Float(Some(x)) && x < 0.0 ==> risk == 0)
            && (forall x :: score == Float(Some(x)) && x > 100.0 ==> risk == 100)
            && ("risk_score" !in result.body.fields ==> risk == 0)
  {
  }

  /** Its texts are kept, and what is missing is filled in: the request's own id and tenant, fresh
      ids, no reasons, an empty trace and no attestation. */
  lemma TextsArePassedOn(lib: Library, result: Result, payload: AuthGate.Payload, failMode: string, freshId: string,
                         freshEvidence: string)
    requires Readable(lib, result)
    ensures var r := Respond(lib, result, payload, failMode, freshId, freshEvidence);
            var fields := result.body.fields;
            && (forall x :: Given(fields, "request_id", x) ==> r.requestId == x)
            && (forall x :: Given(fields, "tenant_id", x) ==> r.tenantId == x)
            && (forall x :: Given(fields, "evidence_id", x) ==> r.evidenceId == x)
            && (Missing(fields, "request_id") ==>
                  r.requestId == if payload.requestId.GetOr("") == "" then freshId else payload.requestId.value)
            && (Missing(fields, "tenant_id") ==> r.tenantId == payload.tenantId)
            && (Missing(fields, "evidence_id") ==> r.evidenceId == freshEvidence)
  {
  }

  /** Its reasons are kept: a list item by item, a text character by character, and nothing as
      none. */
  lemma ReasonsArePassedOn(lib: Library, result: Result, payload: AuthGate.Payload, failMode: string, freshId: string,
                           freshEvidence: string)
    requires Readable(lib, result)
    ensures var reasons := Respond(lib, result, payload, failMode, freshId, freshEvidence).reasons;
            var fields := result.body.fields;
            && (Missing(fields, "reasons") ==> reasons == [])
            && (forall given :: Get(fields, "reasons", Null) == Arr(ReasonItems(given)) ==> reasons == given)
            && (forall x :: Given(fields, "reasons", x) ==>
                  |reasons| == |x| && forall i :: 0 <= i < |x| ==> reasons[i] == [x[i]])
  {
    var reasons := Respond(lib, result, payload, failMode, freshId, freshEvidence).reasons;
    assert Some(reasons) == ReasonList(lib, Get(result.body.fields, "reasons", Null));
    ListedReasons(lib, result.body.fields, reasons);
  }

  lemma ListedReasons(lib: Library, fields: map<string, Json>, reasons: seq<string>)
    requires ReasonList(lib, Get(fields, "reasons", Null)) == Some(reasons)
    ensures Missing(fields, "reasons") ==> reasons == []
    ensures forall given :: Get(fields, "reasons", Null) == Arr(ReasonItems(given)) ==> reasons == given
    ensures forall x :: Given(fields, "reasons", x) ==>
              |reasons| == |x| && forall i :: 0 <= i < |x| ==> reasons[i] == [x[i]]
  {
    forall given | Get(fields, "reasons", Null) == Arr(ReasonItems(given)) ensures reasons == given {
      ReasonsReadBack(lib, given);
    }
  }

  /** Its trace and attestation are kept if they are objects. */
  lemma ObjectsArePassedOn(lib: Library, result: Result, payload: AuthGate.Payload, failMode: string, freshId: string,
                           freshEvidence: string)
    requires Readable(lib, result)
    ensures var r := Respond(lib, result, payload, failMode, freshId, freshEvidence);
            var trace := Get(result.body.fields, "policy_trace", Null);
            var attestation := Get(result.body.fields, "attestation", Null);
            && r.policyTrace == (if trace.Obj? then trace else Obj(map[], []))
            && r.attestation == (if attestation.Obj? then attestation else Null)
  {
  }

  /** Which texts read as a given verdict: those that, once trimmed, differ from it in the case of
      letters only, where the Kelvin sign counts as a K. */
  lemma VerdictReading(s: string, verdict: string)
    requires verdict in VERDICTS
    ensures Lower(Strip(s)) == verdict <==>
              && |Strip(s)| == |verdict|
              && forall i :: 0 <= i < |verdict| ==> SameLetter(Strip(s)[i], verdict[i])
  {
    var t := Strip(s);
    if |t| == |verdict| {
      forall i | 0 <= i < |verdict| ensures Lower(t)[i] == verdict[i] <==> SameLetter(t[i], verdict[i]) {
        assert 'a' <= verdict[i] <= 'z';
      }
    }
  }

  ghost predicate SameLetter(c: char, lower: char) {
    c == lower || (lower as int >= 32 && c as int == lower as int - 32) || (c == '\U{212A}' && lower == 'k')
  }

  // ---------------------------------------------------------------- normal responses

  /** A response as the upstream would have to send it. */
  function AsJson(r: Response): Json {
    Obj(map["request_id" := Str(r.requestId), "tenant_id" := Str(r.tenantId), "risk_score" := Int(r.riskScore),
            "verdict" := Str(r.verdict),
            "reasons" := Arr(ReasonItems(r.reasons)),
            "evidence_id" := Str(r.evidenceId), "policy_trace" := r.policyTrace, "attestation" := r.attestation],
        ["request_id", "tenant_id", "risk_score", "verdict", "reasons", "evidence_id", "policy_trace", "attestation"])
  }

  /** Every response that meets the contract passes through normalisation unchanged, whatever the
      request was. */
  lemma {:induction false} ContractValidIsNormal(lib: Library, r: Response, payload: AuthGate.Payload,
                                                 freshId: string, freshEvidence: string)
    requires ContractValid(r)
    ensures Normalize(lib, AsJson(r), payload, freshId, freshEvidence) == Some(r)
  {
    var raw := AsJson(r);
    assert Get(raw.fields, "request_id", Null) == Str(r.requestId);
    assert Get(raw.fields, "tenant_id", Null) == Str(r.tenantId);
    assert Get(raw.fields, "risk_score", Int(0)) == Int(r.riskScore);
    assert Get(raw.fields, "verdict", Str("quarantine")) == Str(r.verdict);
    assert Get(raw.fields, "reasons", Null) == Arr(ReasonItems(r.reasons));
    assert Get(raw.fields, "evidence_id", Null) == Str(r.evidenceId);
    assert Get(raw.fields, "policy_trace", Null) == r.policyTrace;
    assert Get(raw.fields, "attestation", Null) == r.attestation;
    NormalFields(lib, raw, r, payload, freshId, freshEvidence);
  }

  lemma NormalFields(lib: Library, raw: Json, r: Response, payload: AuthGate.Payload, freshId: string,
                     freshEvidence: string)
    requires ContractValid(r) && raw.Obj?
    requires Get(raw.fields, "request_id", Null) == Str(r.requestId)
    requires Get(raw.fields, "tenant_id", Null) == Str(r.tenantId)
    requires Get(raw.fields, "risk_score", Int(0)) == Int(r.riskScore)
    requires Get(raw.fields, "verdict", Str("quarantine")) == Str(r.verdict)
    requires Get(raw.fields, "reasons", Null) == Arr(ReasonItems(r.reasons))
    requires Get(raw.fields, "evidence_id", Null) == Str(r.evidenceId)
    requires Get(raw.fields, "policy_trace", Null) == r.policyTrace
    requires Get(raw.fields, "attestation", Null) == r.attestation
    ensures Normalize(lib, raw, payload, freshId, freshEvidence) == Some(r)
  {
    VerdictsAreNormal(r.verdict);
    ReasonsReadBack(lib, r.reasons);
  }

  /** Normalisation is idempotent. */
  lemma {:induction false} NormalizeIdempotent(
    lib: Library, raw: Json, payload: AuthGate.Payload, freshId: string, freshEvidence: string,
    payload': AuthGate.Payload, freshId': string, freshEvidence': string)
    requires PlainRepr(lib) && payload.tenantId != "" && freshId != "" && freshEvidence != ""
    requires Normalize(lib, raw, payload, freshId, freshEvidence).Some?
    ensures var once := Normalize(lib, raw, payload, freshId, freshEvidence);
            Normalize(lib, AsJson(once.value), payload', freshId', freshEvidence') == once
  {
    RespondMeetsContract(lib, Data(raw), payload, "quarantine", freshId, freshEvidence);
    var once := Normalize(lib, raw, payload, freshId, freshEvidence).value;
    ContractValidIsNormal(lib, once, payload', freshId', freshEvidence');
  }
}
