/** The HMAC gate of connector/auth.py: header checks, the clock-skew window, the signature, and
    only then the replay cache. */
module AuthGate {
  import opened Common
  import opened PyText
  import opened Canonical
  import opened ReplayCache
  import Base64Url

  datatype Headers = Headers(signature: Option<string>, timestamp: Option<string>, nonce: Option<string>)

  datatype Request = Request(verb: string, path: string, headers: Headers, body: Bytes)

  // The two fields of the scan payload that are signed.
  datatype Payload = Payload(tenantId: string, requestId: Option<string>)

  datatype AuthConfig = AuthConfig(requireHmac: bool, hmacSecret: string, maxClockSkewSec: int)

  datatype Refusal =
    | MissingHeaders
    | InvalidTimestamp
    | StaleTimestamp
    | SecretNotConfigured
    | SignatureNotAscii  // `hmac.compare_digest` raises; the handler answers with a server error
    | SignatureMismatch
    | ReplayDetected

  datatype Outcome = Accepted | Refused(reason: Refusal)

  // One call: the request, the API key it was admitted with, and the two clock readings.
  datatype Arrival = Arrival(request: Request, payload: Payload, apiKey: string, authNow: real, cacheNow: real)

  datatype Gate = Gate(p: Primitives, config: AuthConfig, ttlSec: int, maxEntries: int)

  /** `int()` of a float drops the fraction. */
  function Truncate(x: real): (n: int)
    ensures x >= 0.0 ==> n as real <= x < n as real + 1.0
    ensures x <= 0.0 ==> n as real - 1.0 < x <= n as real
  {
    if x >= 0.0 then x.Floor else -((-x).Floor)
  }

  function Abs(n: int): int {
    if n < 0 then -n else n
  }

  function TimestampOf(request: Request): string {
    Strip(request.headers.timestamp.GetOr(""))
  }

  function NonceOf(request: Request): string {
    Strip(request.headers.nonce.GetOr(""))
  }

  function SignatureOf(request: Request): string {
    Strip(request.headers.signature.GetOr(""))
  }

  function SignedFields(p: Primitives, request: Request, payload: Payload): Fields {
    Fields(request.verb, request.path, p.sha256Hex(request.body), payload.tenantId,
           payload.requestId.GetOr(""), TimestampOf(request), NonceOf(request))
  }

  /** Every check that comes before the replay cache, in order. */
  function BeforeReplay(p: Primitives, config: AuthConfig, request: Request, payload: Payload,
                        now: real): Option<Refusal> {
    if SignatureOf(request) == "" || TimestampOf(request) == "" || NonceOf(request) == "" then Some(MissingHeaders)
    else match p.parseInt(TimestampOf(request))
      case None => Some(InvalidTimestamp)
      case Some(ts) =>
        if Abs(Truncate(now) - ts) > config.maxClockSkewSec then Some(StaleTimestamp)
        else if config.hmacSecret == "" then Some(SecretNotConfigured)
        else if !IsAscii(SignatureOf(request)) then Some(SignatureNotAscii)
        else if Sign(p, BuildCanonical(p, SignedFields(p, request, payload)), config.hmacSecret) != SignatureOf(request)
        then Some(SignatureMismatch)
        else None
  }

  // What the replay key is the hash of.
  function ReplayText(p: Primitives, tenantId: string, apiKey: string, nonce: string): string {
    tenantId + "|" + p.sha256Hex(p.utf8(apiKey)) + "|" + nonce
  }

  function ReplayKey(p: Primitives, tenantId: string, apiKey: string, nonce: string): string {
    p.sha256Hex(p.utf8(ReplayText(p, tenantId, apiKey, nonce)))
  }

  function KeyOf(p: Primitives, a: Arrival): string {
    ReplayKey(p, a.payload.tenantId, a.apiKey, NonceOf(a.request))
  }

  /** The whole gate on values: the outcome and the cache afterwards. */
  ghost function Admitted(g: Gate, entries: seq<Entry>, a: Arrival): (Outcome, seq<Entry>) {
    if !g.config.requireHmac then (Accepted, entries)
    else match BeforeReplay(g.p, g.config, a.request, a.payload, a.authNow)
      case Some(reason) => (Refused(reason), entries)
      case None =>
        var (ok, after) := Checked(entries, g.ttlSec, g.maxEntries, KeyOf(g.p, a), a.cacheNow);
        (if ok then Accepted else Refused(ReplayDetected), after)
  }

  // A call as far as the history is concerned: what the earlier checks said, the replay key, and
  // the cache's clock reading.
  datatype Presented = Presented(before: Option<Refusal>, key: string, now: real)

  ghost function PresentedAs(g: Gate, a: Arrival): Presented {
    Presented(BeforeReplay(g.p, g.config, a.request, a.payload, a.authNow), KeyOf(g.p, a), a.cacheNow)
  }

  ghost function PresentedAll(g: Gate, arrivals: seq<Arrival>): (calls: seq<Presented>)
    ensures |calls| == |arrivals|
    ensures forall i :: 0 <= i < |arrivals| ==> calls[i] == PresentedAs(g, arrivals[i])
  {
    seq(|arrivals|, i requires 0 <= i < |arrivals| => PresentedAs(g, arrivals[i]))
  }

  // The gate's decision from the full history of acceptances.
  ghost function Judged(g: Gate, history: seq<Acceptance>, c: Presented): Outcome {
    if !g.config.requireHmac then Accepted
    else match c.before
      case Some(reason) => Refused(reason)
      case None =>
        if Remembered(history, g.ttlSec, g.maxEntries, c.key, c.now) then Refused(ReplayDetected) else Accepted
  }

  // A nonce is recorded when the signature gate is on and the request was accepted.
  ghost function Extended(g: Gate, history: seq<Acceptance>, c: Presented): seq<Acceptance> {
    if g.config.requireHmac && Judged(g, history, c) == Accepted then history + [Acceptance(c.key, c.now)] else history
  }

  class AuthValidator {
    const p: Primitives
    const config: AuthConfig
    const replayCache: NonceReplayCache

    constructor (p: Primitives, config: AuthConfig, replayCache: NonceReplayCache)
      ensures this.p == p && this.config == config && this.replayCache == replayCache
    {
      this.p := p;
      this.config := config;
      this.replayCache := replayCache;
    }

    ghost function AsGate(): Gate {
      Gate(p, config, replayCache.ttlSec, replayCache.maxEntries)
    }

    /** The outcome is decided by the gate; the cache is touched only when every earlier check has
        passed; and while the clock does not step back the outcome is the one the full history of
        accepted requests calls for. */
    method ValidateHmac(request: Request, payload: Payload, apiKey: string, authNow: real, cacheNow: real)
      returns (outcome: Outcome)
      requires replayCache.Valid()
      modifies replayCache
      ensures replayCache.Valid()
      ensures (outcome, replayCache.entries)
           == Admitted(AsGate(), old(replayCache.entries), Arrival(request, payload, apiKey, authNow, cacheNow))
      ensures outcome.Refused? && outcome.reason != ReplayDetected ==> unchanged(replayCache)
      ensures outcome.Refused? ==> replayCache.history == old(replayCache.history)
      ensures old(replayCache.Faithful()) && old(replayCache.clock) <= cacheNow ==>
                var c := PresentedAs(AsGate(), Arrival(request, payload, apiKey, authNow, cacheNow));
                && replayCache.Faithful()
                && outcome == Judged(AsGate(), old(replayCache.history), c)
                && replayCache.history == Extended(AsGate(), old(replayCache.history), c)
    {
      ghost var a := Arrival(request, payload, apiKey, authNow, cacheNow);
      if replayCache.Faithful() && replayCache.clock <= cacheNow {
        AdmittedIsJudged(AsGate(), replayCache.entries, replayCache.history, replayCache.clock, a);
      }
      if !config.requireHmac {
        return Accepted;
      }
      ghost var before := BeforeReplay(p, config, request, payload, authNow);
      var signature := SignatureOf(request);
      var rawTimestamp := TimestampOf(request);
      var nonce := NonceOf(request);
      if signature == "" || rawTimestamp == "" || nonce == "" {
        assert before == Some(MissingHeaders);
        return Refused(MissingHeaders);
      }
      var timestamp := p.parseInt(rawTimestamp);
      if timestamp.None? {
        assert before == Some(InvalidTimestamp);
        return Refused(InvalidTimestamp);
      }
      if Abs(Truncate(authNow) - timestamp.value) > config.maxClockSkewSec {
        assert before == Some(StaleTimestamp);
        return Refused(StaleTimestamp);
      }
      if config.hmacSecret == "" {
        assert before == Some(SecretNotConfigured);
        return Refused(SecretNotConfigured);
      }
      var canonical := BuildCanonical(p, Fields(request.verb, request.path, p.sha256Hex(request.body), payload.tenantId,
                                                payload.requestId.GetOr(""), rawTimestamp, nonce));
      var expected := Sign(p, canonical, config.hmacSecret);
      if !IsAscii(signature) {
        assert before == Some(SignatureNotAscii);
        return Refused(SignatureNotAscii);
      }
      if expected != signature {
        assert before == Some(SignatureMismatch);
        return Refused(SignatureMismatch);
      }
      assert PresentedAs(AsGate(), a).before == before == None;
      var ok := replayCache.CheckAndMark(ReplayKey(p, payload.tenantId, apiKey, nonce), cacheNow);
      if !ok {
        return Refused(ReplayDetected);
      }
      return Accepted;
    }
  }

  // ---------------------------------------------------------------- runs

  ghost function Outcomes(g: Gate, entries: seq<Entry>, arrivals: seq<Arrival>): (outcomes: seq<Outcome>)
    ensures |outcomes| == |arrivals|
    decreases |arrivals|
  {
    if arrivals == [] then []
    else
      var (outcome, after) := Admitted(g, entries, arrivals[0]);
      [outcome] + Outcomes(g, after, arrivals[1..])
  }

  ghost function JudgedOutcomes(g: Gate, history: seq<Acceptance>, calls: seq<Presented>): (outcomes: seq<Outcome>)
    ensures |outcomes| == |calls|
    decreases |calls|
  {
    if calls == [] then []
    else [Judged(g, history, calls[0])] + JudgedOutcomes(g, Extended(g, history, calls[0]), calls[1..])
  }

  // The wall clock never steps back, within a call or between calls.
  ghost predicate ClockRuns(clock: real, arrivals: seq<Arrival>)
    decreases |arrivals|
  {
    arrivals != [] ==>
      && clock <= arrivals[0].authNow <= arrivals[0].cacheNow
      && ClockRuns(arrivals[0].cacheNow, arrivals[1..])
  }

  /** The bounded, expiring cache never makes the gate decide otherwise than the full history of
      acceptances would. */
  lemma {:induction false} OutcomesAreJudged(g: Gate, entries: seq<Entry>, history: seq<Acceptance>, clock: real,
                                             arrivals: seq<Arrival>)
    requires Tracks(entries, history, g.ttlSec, g.maxEntries, clock)
    requires ClockRuns(clock, arrivals)
    ensures Outcomes(g, entries, arrivals) == JudgedOutcomes(g, history, PresentedAll(g, arrivals))
    decreases |arrivals|
  {
    if arrivals != [] {
      var a := arrivals[0];
      var c := PresentedAs(g, a);
      AdmittedIsJudged(g, entries, history, clock, a);
      OutcomesAreJudged(g, Admitted(g, entries, a).1, Extended(g, history, c), a.cacheNow, arrivals[1..]);
      assert PresentedAll(g, arrivals)[1..] == PresentedAll(g, arrivals[1..]);
    }
  }

  lemma {:induction false} AdmittedIsJudged(g: Gate, entries: seq<Entry>, history: seq<Acceptance>, clock: real,
                                            a: Arrival)
    requires Tracks(entries, history, g.ttlSec, g.maxEntries, clock) && clock <= a.cacheNow
    ensures Admitted(g, entries, a).0 == Judged(g, history, PresentedAs(g, a))
    ensures Tracks(Admitted(g, entries, a).1, Extended(g, history, PresentedAs(g, a)),
                   g.ttlSec, g.maxEntries, a.cacheNow)
  {
    if g.config.requireHmac && PresentedAs(g, a).before.None? {
      CheckedFollowsHistory(entries, history, g.ttlSec, g.maxEntries, clock, KeyOf(g.p, a), a.cacheNow);
    } else {
      TracksLater(entries, history, g.ttlSec, g.maxEntries, clock, a.cacheNow);
    }
  }

  // An unused cache is still right later.
  lemma {:induction false} TracksLater(entries: seq<Entry>, history: seq<Acceptance>, ttlSec: int, maxEntries: int,
                                       clock: real, later: real)
    requires Tracks(entries, history, ttlSec, maxEntries, clock) && clock <= later
    ensures Tracks(entries, history, ttlSec, maxEntries, later)
  {
    forall i | 0 <= i < |history| - |entries| ensures !RemembersAt(history, ttlSec, maxEntries, i, later) {
      assert !RemembersAt(history, ttlSec, maxEntries, i, clock);
    }
  }

  // ---------------------------------------------------------------- what each answer means

  // The checks of the gate, each as a reason to refuse.
  ghost predicate Fails(g: Gate, entries: seq<Entry>, a: Arrival, reason: Refusal) {
    var headers := a.request.headers;
    var timestamp := g.p.parseInt(Strip(headers.timestamp.GetOr("")));
    match reason
    case MissingHeaders =>
      || Strip(headers.signature.GetOr("")) == ""
      || Strip(headers.timestamp.GetOr("")) == ""
      || Strip(headers.nonce.GetOr("")) == ""
    case InvalidTimestamp => timestamp.None?
    case StaleTimestamp =>
      var skew := g.config.maxClockSkewSec;
      timestamp.Some? && !(timestamp.value - skew <= Truncate(a.authNow) <= timestamp.value + skew)
    case SecretNotConfigured => g.config.hmacSecret == ""
    case SignatureNotAscii => !IsAscii(Strip(headers.signature.GetOr("")))
    case SignatureMismatch => Strip(headers.signature.GetOr("")) != ExpectedSignature(g, a)
    case ReplayDetected =>
      var nonce := Strip(headers.nonce.GetOr(""));
      HasKey(Cleaned(entries, g.maxEntries, a.cacheNow), ReplayKey(g.p, a.payload.tenantId, a.apiKey, nonce))
  }

  // The digest, under the secret, of the string for the request as it came.
  ghost function ExpectedSignature(g: Gate, a: Arrival): string {
    var f := Fields(a.request.verb, a.request.path, g.p.sha256Hex(a.request.body), a.payload.tenantId,
                    a.payload.requestId.GetOr(""), Strip(a.request.headers.timestamp.GetOr("")),
                    Strip(a.request.headers.nonce.GetOr("")));
    Base64Url.Encode(g.p.hmacSha256(g.p.utf8(g.config.hmacSecret), g.p.utf8(BuildCanonical(g.p, f))))
  }

  // The order in which the checks are made.
  function Turn(reason: Refusal): nat {
    match reason
    case MissingHeaders => 0
    case InvalidTimestamp => 1
    case StaleTimestamp => 2
    case SecretNotConfigured => 3
    case SignatureNotAscii => 4
    case SignatureMismatch => 5
    case ReplayDetected => 6
  }

  /** A request is refused for the first check it fails, and accepted iff it fails none or no
      signatures are required. */
  lemma {:induction false} RefusedForFirstFailure(g: Gate, entries: seq<Entry>, a: Arrival, reason: Refusal)
    ensures Admitted(g, entries, a).0 == Refused(reason) <==>
              && g.config.requireHmac && Fails(g, entries, a, reason)
              && forall earlier :: Turn(earlier) < Turn(reason) ==> !Fails(g, entries, a, earlier)
    ensures Admitted(g, entries, a).0 == Accepted <==>
              !g.config.requireHmac || forall any :: !Fails(g, entries, a, any)
  {
    if g.config.requireHmac {
      EarlierFailures(g, entries, a);
    }
  }

  // The reason given fails, and nothing that comes before the answer does.
  lemma {:induction false} EarlierFailures(g: Gate, entries: seq<Entry>, a: Arrival)
    requires g.config.requireHmac
    ensures var outcome := Admitted(g, entries, a).0;
            && (outcome.Refused? ==> Fails(g, entries, a, outcome.reason))
            && forall any :: outcome.Accepted? || Turn(any) < Turn(outcome.reason) ==> !Fails(g, entries, a, any)
  {
  }

  /** What acceptance in a run guarantees. */
  lemma {:induction false} AcceptedIsAuthentic(g: Gate, start: real, arrivals: seq<Arrival>, i: nat)
    requires g.config.requireHmac && 0.0 <= start && ClockRuns(start, arrivals) && i < |arrivals|
    requires Outcomes(g, [], arrivals)[i] == Accepted
    ensures var a := arrivals[i];
            var signature := Strip(a.request.headers.signature.GetOr(""));
            var nonce := Strip(a.request.headers.nonce.GetOr(""));
            var timestamp := g.p.parseInt(Strip(a.request.headers.timestamp.GetOr("")));
            var skew := g.config.maxClockSkewSec as real;
            && g.config.hmacSecret != "" && nonce != "" && signature != ""
            && signature == ExpectedSignature(g, a)
            && timestamp.Some? && timestamp.value as real - skew <= a.authNow < timestamp.value as real + skew + 1.0
  {
    AcceptedPassed(g, start, arrivals, i);
    LaterArrivals(start, arrivals, i);
    PassedIsAuthentic(g, arrivals[i]);
  }

  lemma {:induction false} PassedIsAuthentic(g: Gate, a: Arrival)
    requires PresentedAs(g, a).before == None && a.authNow >= 0.0
    ensures var timestamp := g.p.parseInt(TimestampOf(a.request));
            var skew := g.config.maxClockSkewSec as real;
            && g.config.hmacSecret != "" && NonceOf(a.request) != "" && SignatureOf(a.request) != ""
            && SignatureOf(a.request) == ExpectedSignature(g, a)
            && timestamp.Some? && timestamp.value as real - skew <= a.authNow < timestamp.value as real + skew + 1.0
  {
  }

  // ---------------------------------------------------------------- at most once

  // How many requests from lo up to but not including hi were accepted.
  ghost function AcceptedBetween(outcomes: seq<Outcome>, lo: nat, hi: nat): nat
    requires hi <= |outcomes|
  {
    if hi <= lo then 0 else AcceptedBetween(outcomes, lo, hi - 1) + (if outcomes[hi - 1] == Accepted then 1 else 0)
  }

  lemma {:induction false} AcceptedShift(first: Outcome, rest: seq<Outcome>, lo: nat, hi: nat)
    requires 1 <= lo && 1 <= hi <= |rest| + 1
    ensures AcceptedBetween([first] + rest, lo, hi) == AcceptedBetween(rest, lo - 1, hi - 1)
  {
    if hi > lo { AcceptedShift(first, rest, lo, hi - 1); }
  }

  lemma {:induction false} AcceptedFromFirst(first: Outcome, rest: seq<Outcome>, hi: nat)
    requires 1 <= hi <= |rest| + 1
    ensures AcceptedBetween([first] + rest, 0, hi) ==
              (if first == Accepted then 1 else 0) + AcceptedBetween(rest, 0, hi - 1)
  {
    if hi > 1 { AcceptedFromFirst(first, rest, hi - 1); }
  }

  // Same tenant, API key, nonce and timestamp text.
  ghost predicate SameCredentials(a: Arrival, b: Arrival) {
    && a.payload.tenantId == b.payload.tenantId
    && a.apiKey == b.apiKey
    && NonceOf(a.request) == NonceOf(b.request)
    && TimestampOf(a.request) == TimestampOf(b.request)
  }

  // How long a nonce must be kept: the skew window on both sides, the truncated second, the gap.
  ghost function Retention(config: AuthConfig, gap: real): real {
    2.0 * config.maxClockSkewSec as real + 1.0 + gap
  }

  // Two acceptances of one timestamp are less than the retention time apart.
  lemma {:induction false} WindowIsShort(g: Gate, gap: real, a: Arrival, b: Arrival)
    requires SameCredentials(a, b)
    requires BeforeReplay(g.p, g.config, a.request, a.payload, a.authNow) == None
    requires BeforeReplay(g.p, g.config, b.request, b.payload, b.authNow) == None
    requires 0.0 <= a.authNow <= a.cacheNow && 0.0 <= b.authNow && b.cacheNow <= b.authNow + gap
    ensures b.cacheNow < a.cacheNow + Retention(g.config, gap)
  {
    var ts := g.p.parseInt(TimestampOf(a.request)).value;
    assert a.authNow.Floor >= ts - g.config.maxClockSkewSec;
    assert b.authNow.Floor <= ts + g.config.maxClockSkewSec;
  }

  // A key at position i of the history stays refused until it expires or is pushed out.
  lemma {:induction false} StaysRefused(g: Gate, history: seq<Acceptance>, i: nat, calls: seq<Presented>, j: nat)
    requires g.config.requireHmac && i < |history| && j < |calls|
    requires history[i].key == calls[j].key && calls[j].now < history[i].time + g.ttlSec as real
    requires |history| - 1 - i + AcceptedBetween(JudgedOutcomes(g, history, calls), 0, j) < g.maxEntries
    ensures JudgedOutcomes(g, history, calls)[j] != Accepted
    decreases |calls|
  {
    var outcomes := JudgedOutcomes(g, history, calls);
    if j == 0 {
      assert RemembersAt(history, g.ttlSec, g.maxEntries, i, calls[0].now);
    } else {
      var longer := Extended(g, history, calls[0]);
      var rest := JudgedOutcomes(g, longer, calls[1..]);
      assert outcomes == [outcomes[0]] + rest;
      AcceptedFromFirst(outcomes[0], rest, j);
      StaysRefused(g, longer, i, calls[1..], j - 1);
    }
  }

  // The outcomes after the first are those of the rest of the run.
  lemma {:induction false} JudgedTail(g: Gate, history: seq<Acceptance>, calls: seq<Presented>, i: nat, j: nat)
    requires 0 < i < j < |calls|
    ensures var outcomes := JudgedOutcomes(g, history, calls);
            var rest := JudgedOutcomes(g, Extended(g, history, calls[0]), calls[1..]);
            && outcomes[i] == rest[i - 1] && outcomes[j] == rest[j - 1]
            && AcceptedBetween(outcomes, i + 1, j) == AcceptedBetween(rest, i, j - 1)
  {
    var rest := JudgedOutcomes(g, Extended(g, history, calls[0]), calls[1..]);
    AcceptedShift(Judged(g, history, calls[0]), rest, i + 1, j);
  }

  // An accepted request keeps its key out until it expires or is pushed out.
  lemma {:induction false} KeyStaysOut(g: Gate, history: seq<Acceptance>, calls: seq<Presented>, i: nat, j: nat)
    requires g.config.requireHmac && i < j < |calls|
    requires calls[i].key == calls[j].key && calls[j].now < calls[i].now + g.ttlSec as real
    requires AcceptedBetween(JudgedOutcomes(g, history, calls), i + 1, j) < g.maxEntries
    requires JudgedOutcomes(g, history, calls)[i] == Accepted
    ensures JudgedOutcomes(g, history, calls)[j] != Accepted
    decreases i
  {
    if i == 0 {
      FirstKeyStaysOut(g, history, calls, j);
    } else {
      JudgedTail(g, history, calls, i, j);
      KeyStaysOut(g, Extended(g, history, calls[0]), calls[1..], i - 1, j - 1);
    }
  }

  lemma {:induction false} FirstKeyStaysOut(g: Gate, history: seq<Acceptance>, calls: seq<Presented>, j: nat)
    requires g.config.requireHmac && 0 < j < |calls|
    requires calls[0].key == calls[j].key && calls[j].now < calls[0].now + g.ttlSec as real
    requires AcceptedBetween(JudgedOutcomes(g, history, calls), 1, j) < g.maxEntries
    requires Judged(g, history, calls[0]) == Accepted
    ensures JudgedOutcomes(g, history, calls)[j] != Accepted
  {
    var longer := Extended(g, history, calls[0]);
    var rest := JudgedOutcomes(g, longer, calls[1..]);
    assert longer[|history|] == Acceptance(calls[0].key, calls[0].now);
    AcceptedShift(Accepted, rest, 1, j);
    StaysRefused(g, longer, |history|, calls[1..], j - 1);
    assert JudgedOutcomes(g, history, calls)[j] == rest[j - 1];
  }

  // A later arrival with the same credentials, whose clock readings are close.
  ghost predicate Repeats(arrivals: seq<Arrival>, gap: real, i: nat, j: nat) {
    && i < j < |arrivals|
    && SameCredentials(arrivals[i], arrivals[j])
    && arrivals[j].cacheNow <= arrivals[j].authNow + gap
  }

  lemma {:induction false} LaterArrivals(clock: real, arrivals: seq<Arrival>, j: nat)
    requires ClockRuns(clock, arrivals) && j < |arrivals|
    ensures clock <= arrivals[j].authNow <= arrivals[j].cacheNow
    decreases |arrivals|
  {
    if j > 0 { LaterArrivals(arrivals[0].cacheNow, arrivals[1..], j - 1); }
  }

  lemma {:induction false} JudgedPassesChecks(g: Gate, history: seq<Acceptance>, calls: seq<Presented>, j: nat)
    requires g.config.requireHmac && j < |calls| && JudgedOutcomes(g, history, calls)[j] == Accepted
    ensures calls[j].before == None
    decreases |calls|
  {
    if j > 0 {
      JudgedPassesChecks(g, Extended(g, history, calls[0]), calls[1..], j - 1);
    }
  }

  /** At most once, end to end.  In any run of the gate whose clock does not step back, an accepted
      request and a later one with the same tenant, API key, nonce and timestamp are not both
      accepted, if nonces are kept for the retention time, where `gap` bounds the time between the
      two clock readings of the later call, and fewer than `maxEntries` requests are accepted in
      between. */
  lemma {:induction false} AcceptedAtMostOnce(g: Gate, gap: real, start: real, arrivals: seq<Arrival>, i: nat, j: nat)
    requires g.config.requireHmac && g.ttlSec as real >= Retention(g.config, gap)
    requires 0.0 <= start && ClockRuns(start, arrivals)
    requires Repeats(arrivals, gap, i, j)
    requires AcceptedBetween(Outcomes(g, [], arrivals), i + 1, j) < g.maxEntries
    requires Outcomes(g, [], arrivals)[i] == Accepted
    ensures Outcomes(g, [], arrivals)[j] != Accepted
  {
    OutcomesAreJudged(g, [], [], start, arrivals);
    if Outcomes(g, [], arrivals)[j] == Accepted {
      LaterArrivals(start, arrivals, i);
      LaterArrivals(start, arrivals, j);
      JudgedPassesChecks(g, [], PresentedAll(g, arrivals), i);
      JudgedPassesChecks(g, [], PresentedAll(g, arrivals), j);
      WindowIsShort(g, gap, arrivals[i], arrivals[j]);
      KeyStaysOut(g, [], PresentedAll(g, arrivals), i, j);
    }
  }

  // A run in which a request is accepted again within the reach of the cache.
  ghost predicate PassedTwice(g: Gate, gap: real, start: real, arrivals: seq<Arrival>, i: nat, j: nat) {
    && 0.0 <= start && ClockRuns(start, arrivals)
    && Repeats(arrivals, gap, i, j)
    && AcceptedBetween(Outcomes(g, [], arrivals), i + 1, j) < g.maxEntries
    && Outcomes(g, [], arrivals)[i] == Outcomes(g, [], arrivals)[j] == Accepted
  }

  // The property of a configured gate that the theorem above establishes.
  ghost predicate NeverTwice(g: Gate, gap: real) {
    forall start: real, arrivals: seq<Arrival>, i: nat, j: nat :: !PassedTwice(g, gap, start, arrivals, i, j)
  }

  // The request carries a timestamp and the signature the server expects for it.
  ghost predicate CorrectlySigned(g: Gate, request: Request, payload: Payload, ts: int) {
    && SignatureOf(request) != "" && TimestampOf(request) != "" && NonceOf(request) != ""
    && g.p.parseInt(TimestampOf(request)) == Some(ts)
    && g.config.hmacSecret != ""
    && Sign(g.p, BuildCanonical(g.p, SignedFields(g.p, request, payload)), g.config.hmacSecret) == SignatureOf(request)
  }

  // When the retention time is not met, one request sent at both ends of its window passes twice.
  lemma {:induction false} SecondPassage(g: Gate, gap: real, request: Request, payload: Payload, apiKey: string,
                                         ts: int)
    returns (arrivals: seq<Arrival>)
    requires g.config.requireHmac && g.config.maxClockSkewSec >= 0 && g.maxEntries >= 1 && gap >= 0.0
    requires g.ttlSec as real < Retention(g.config, gap)
    requires CorrectlySigned(g, request, payload, ts) && ts >= g.config.maxClockSkewSec
    ensures |arrivals| == 2 && ClockRuns(0.0, arrivals) && Repeats(arrivals, gap, 0, 1)
    ensures Outcomes(g, [], arrivals) == [Accepted, Accepted]
  {
    SignatureIsAscii(g.p, BuildCanonical(g.p, SignedFields(g.p, request, payload)), g.config.hmacSecret);
    var skew := g.config.maxClockSkewSec;
    var early := (ts - skew) as real;
    var short := Retention(g.config, gap) - g.ttlSec as real;
    var back := if short < 1.0 then short else 1.0;
    var late := (ts + skew) as real + 1.0 - back;
    assert late.Floor == ts + skew;
    assert early.Floor == ts - skew;
    var first := Arrival(request, payload, apiKey, early, early);
    var second := Arrival(request, payload, apiKey, late, late + gap);
    arrivals := [first, second];
    assert arrivals[1..] == [second];
    BothPass(g, first, second);
  }

  // Two calls in a row, from an empty cache.
  lemma {:induction false} PairIsJudged(g: Gate, first: Arrival, second: Arrival)
    requires 0.0 <= first.authNow <= first.cacheNow <= second.authNow <= second.cacheNow
    ensures Outcomes(g, [], [first, second]) == JudgedOutcomes(g, [], [PresentedAs(g, first), PresentedAs(g, second)])
  {
    var arrivals := [first, second];
    assert arrivals[1..] == [second] && [second][1..] == [];
    assert ClockRuns(first.cacheNow, [second]);
    OutcomesAreJudged(g, [], [], 0.0, arrivals);
    assert PresentedAll(g, arrivals) == [PresentedAs(g, first), PresentedAs(g, second)];
  }

  // Two uses of one key, the second after the first has expired.
  lemma {:induction false} BothPass(g: Gate, first: Arrival, second: Arrival)
    requires g.config.requireHmac && KeyOf(g.p, first) == KeyOf(g.p, second)
    requires BeforeReplay(g.p, g.config, first.request, first.payload, first.authNow) == None
    requires BeforeReplay(g.p, g.config, second.request, second.payload, second.authNow) == None
    requires 0.0 <= first.authNow <= first.cacheNow <= second.authNow <= second.cacheNow
    requires first.cacheNow + g.ttlSec as real <= second.cacheNow
    ensures Outcomes(g, [], [first, second]) == [Accepted, Accepted]
  {
    PairIsJudged(g, first, second);
    BothJudged(g, PresentedAs(g, first), PresentedAs(g, second));
  }

  lemma {:induction false} BothJudged(g: Gate, c: Presented, d: Presented)
    requires g.config.requireHmac && c.before == None && d.before == None && c.key == d.key
    requires c.now + g.ttlSec as real <= d.now
    ensures JudgedOutcomes(g, [], [c, d]) == [Accepted, Accepted]
  {
    var kept := [Acceptance(c.key, c.now)];
    assert [] + kept == kept;
    assert !RemembersAt(kept, g.ttlSec, g.maxEntries, 0, d.now);
    assert [c, d][1..] == [d] && [d][1..] == [];
    assert JudgedOutcomes(g, kept, [d]) == [Accepted];
  }

  /** The retention time is exact.  For a gate that some correctly signed request can pass, replays
      are kept out iff the time to live is at least twice the skew, plus the truncated second, plus
      the gap between the two clock readings. */
  lemma {:induction false} RetentionIsExact(g: Gate, gap: real, request: Request, payload: Payload, ts: int)
    requires g.config.requireHmac && g.config.maxClockSkewSec >= 0 && g.maxEntries >= 1 && gap >= 0.0
    requires CorrectlySigned(g, request, payload, ts) && ts >= g.config.maxClockSkewSec
    ensures NeverTwice(g, gap) <==> g.ttlSec as real >= Retention(g.config, gap)
  {
    if g.ttlSec as real >= Retention(g.config, gap) {
      forall start: real, arrivals: seq<Arrival>, i: nat, j: nat
        ensures !PassedTwice(g, gap, start, arrivals, i, j)
      {
        if PassedTwice(g, gap, start, arrivals, i, j) {
          AcceptedAtMostOnce(g, gap, start, arrivals, i, j);
        }
      }
    } else {
      var arrivals := SecondPassage(g, gap, request, payload, "", ts);
      assert PassedTwice(g, gap, 0.0, arrivals, 0, 1);
    }
  }

  /** The shipped defaults, a time to live of 600 seconds and a skew of 300, fall short of the
      retention time even when the two clock readings coincide. */
  lemma {:induction false} DefaultsFallShort(g: Gate, request: Request, payload: Payload, ts: int)
    requires g.config.requireHmac && g.ttlSec == 600 && g.config.maxClockSkewSec == 300 && g.maxEntries == 100_000
    requires CorrectlySigned(g, request, payload, ts) && ts >= 300
    ensures !NeverTwice(g, 0.0)
  {
    RetentionIsExact(g, 0.0, request, payload, ts);
  }

  // ---------------------------------------------------------------- refused requests

  ghost function Kept<T>(items: seq<T>, keep: seq<bool>): seq<T>
    requires |items| == |keep|
  {
    if items == [] then [] else (if keep[0] then [items[0]] else []) + Kept(items[1..], keep[1..])
  }

  lemma {:induction false} JudgedWithoutRefused(g: Gate, history: seq<Acceptance>, calls: seq<Presented>,
                                                keep: seq<bool>)
    requires |calls| == |keep|
    requires forall i :: 0 <= i < |calls| && !keep[i] ==> JudgedOutcomes(g, history, calls)[i] != Accepted
    ensures JudgedOutcomes(g, history, Kept(calls, keep)) == Kept(JudgedOutcomes(g, history, calls), keep)
    decreases |calls|
  {
    if calls != [] {
      var longer := Extended(g, history, calls[0]);
      var rest := JudgedOutcomes(g, longer, calls[1..]);
      var outcomes := JudgedOutcomes(g, history, calls);
      assert outcomes == [outcomes[0]] + rest && outcomes[1..] == rest;
      forall i | 0 <= i < |calls[1..]| && !keep[1..][i] ensures rest[i] != Accepted {
        assert !keep[i + 1] && outcomes[i + 1] == rest[i];
      }
      JudgedWithoutRefused(g, longer, calls[1..], keep[1..]);
      var kept := Kept(calls[1..], keep[1..]);
      if keep[0] {
        assert Kept(calls, keep)[1..] == kept;
      } else {
        assert Kept(calls, keep) == kept;
        assert longer == history;
      }
    }
  }

  lemma {:induction false} PresentedKept(g: Gate, arrivals: seq<Arrival>, keep: seq<bool>)
    requires |arrivals| == |keep|
    ensures PresentedAll(g, Kept(arrivals, keep)) == Kept(PresentedAll(g, arrivals), keep)
  {
    if arrivals != [] {
      PresentedKept(g, arrivals[1..], keep[1..]);
      assert PresentedAll(g, arrivals)[1..] == PresentedAll(g, arrivals[1..]);
      var kept := Kept(arrivals[1..], keep[1..]);
      if keep[0] {
        assert PresentedAll(g, [arrivals[0]] + kept) == [PresentedAs(g, arrivals[0])] + PresentedAll(g, kept);
      } else {
        assert Kept(arrivals, keep) == kept;
      }
    }
  }

  lemma {:induction false} ClockRunsKept(clock: real, earlier: real, arrivals: seq<Arrival>, keep: seq<bool>)
    requires |arrivals| == |keep| && earlier <= clock && ClockRuns(clock, arrivals)
    ensures ClockRuns(earlier, Kept(arrivals, keep))
    decreases |arrivals|
  {
    if arrivals != [] {
      var kept := Kept(arrivals[1..], keep[1..]);
      if keep[0] {
        ClockRunsKept(arrivals[0].cacheNow, arrivals[0].cacheNow, arrivals[1..], keep[1..]);
        assert Kept(arrivals, keep)[1..] == kept;
      } else {
        ClockRunsKept(arrivals[0].cacheNow, earlier, arrivals[1..], keep[1..]);
        assert Kept(arrivals, keep) == kept;
      }
    }
  }

  /** Requests that were not accepted leave no trace: deleting any set of them from a run, replays
      included although a replay cleans the cache, changes the outcome of no other request. */
  lemma {:induction false} RefusedLeaveNoTrace(g: Gate, start: real, arrivals: seq<Arrival>, keep: seq<bool>)
    requires ClockRuns(start, arrivals) && |keep| == |arrivals|
    requires forall i :: 0 <= i < |arrivals| && !keep[i] ==> Outcomes(g, [], arrivals)[i].Refused?
    ensures Outcomes(g, [], Kept(arrivals, keep)) == Kept(Outcomes(g, [], arrivals), keep)
  {
    OutcomesAreJudged(g, [], [], start, arrivals);
    JudgedWithoutRefused(g, [], PresentedAll(g, arrivals), keep);
    PresentedKept(g, arrivals, keep);
    ClockRunsKept(start, start, arrivals, keep);
    OutcomesAreJudged(g, [], [], start, Kept(arrivals, keep));
  }

  // ---------------------------------------------------------------- the replay key

  // The text t|h|n read with its bars one or more places further right: the longer tenant takes in
  // h, and the shorter nonce leaves h' behind.
  ghost predicate Shifted(t: string, h: string, n: string, t': string, h': string, n': string) {
    || (t' == t + "|" + h && n == h' + "|" + n')
    || exists y :: t' == t + "|" + h + "|" + y && n == y + "|" + h' + "|" + n'
  }

  lemma {:induction false} ShiftedReadsTheSame(t: string, h: string, n: string, t': string, h': string, n': string)
    requires Shifted(t, h, n, t', h', n')
    ensures t + "|" + h + "|" + n == t' + "|" + h' + "|" + n'
    ensures '|' in n && |t'| > |t|
  {
    if t' == t + "|" + h && n == h' + "|" + n' {
      assert t + "|" + h + "|" + (h' + "|" + n') == (t + "|" + h) + "|" + h' + "|" + n';
      assert n[|h'|] == '|';
    } else {
      var y :| t' == t + "|" + h + "|" + y && n == y + "|" + h' + "|" + n';
      assert t + "|" + h + "|" + (y + "|" + h' + "|" + n') == (t + "|" + h + "|" + y) + "|" + h' + "|" + n';
      assert n[|y|] == '|';
    }
  }

  // What the longer of two first parts has beyond the shorter one and its bar.
  lemma {:induction false} LongerFirstPart(a: string, r: string, b: string, q: string) returns (x: string)
    requires |a| < |b| && a + "|" + r == b + "|" + q
    ensures b == a + "|" + x && r == x + "|" + q
  {
    var s := b + "|" + q;
    assert s[..|a|] == a && s[|a|] == '|' && s[..|b|] == b;
    x := b[|a| + 1..];
    assert s[|a| + 1..] == r;
  }

  lemma {:induction false} Regrouped(a: string, b: string, c: string)
    ensures a + "|" + b + "|" + c == a + "|" + (b + "|" + c)
  {
  }

  // Where the tenant is longer, the text can only be the shifted one.
  lemma {:induction false} LongerTenantIsShifted(t: string, h: string, n: string, t': string, h': string, n': string)
    requires '|' !in h && |t| < |t'| && t + "|" + h + "|" + n == t' + "|" + h' + "|" + n'
    ensures Shifted(t, h, n, t', h', n')
  {
    Regrouped(t, h, n);
    Regrouped(t', h', n');
    var x := LongerFirstPart(t, h + "|" + n, t', h' + "|" + n');
    if '|' !in x {
      FirstSplitUnique('|', h, n, x, h' + "|" + n');
    } else {
      var k := FirstBar(x);
      var digest, y := x[..k], x[k + 1..];
      assert x == digest + "|" + y;
      Regrouped(digest, y, h' + "|" + n');
      FirstSplitUnique('|', h, n, digest, y + "|" + (h' + "|" + n'));
      Regrouped(t, h, y);
      Regrouped(y, h', n');
      assert t' == t + "|" + h + "|" + y && n == y + "|" + h' + "|" + n';
    }
  }

  lemma {:induction false} FirstBar(x: string) returns (k: nat)
    requires '|' in x
    ensures k < |x| && x[k] == '|' && '|' !in x[..k]
  {
    if x[0] == '|' {
      k := 0;
    } else {
      assert x == [x[0]] + x[1..];
      k := FirstBar(x[1..]);
      k := k + 1;
      assert x[..k] == [x[0]] + x[1..][..k - 1];
    }
  }

  // Hash digits hold no bar, and neither the two API keys nor the two texts collide.
  ghost predicate ReplayTextsApart(p: Primitives, t: string, k: string, n: string, t': string, k': string, n': string) {
    && '|' !in p.sha256Hex(p.utf8(k)) && '|' !in p.sha256Hex(p.utf8(k'))
    && NoTextCollision(p, k, k')
    && NoTextCollision(p, ReplayText(p, t, k, n), ReplayText(p, t', k', n'))
  }

  /** What the replay key determines.  Two keys are equal exactly when tenant, API key and nonce
      are, or when one text is the other shifted across a bar. */
  lemma {:induction false} ReplayKeySharedIff(p: Primitives, t: string, k: string, n: string,
                                              t': string, k': string, n': string)
    requires ReplayTextsApart(p, t, k, n, t', k', n')
    ensures var h, h' := p.sha256Hex(p.utf8(k)), p.sha256Hex(p.utf8(k'));
            ReplayKey(p, t, k, n) == ReplayKey(p, t', k', n') <==>
              (t == t' && k == k' && n == n') || Shifted(t, h, n, t', h', n') || Shifted(t', h', n', t, h, n)
  {
    var h, h' := p.sha256Hex(p.utf8(k)), p.sha256Hex(p.utf8(k'));
    if Shifted(t, h, n, t', h', n') {
      ShiftedReadsTheSame(t, h, n, t', h', n');
    } else if Shifted(t', h', n', t, h, n) {
      ShiftedReadsTheSame(t', h', n', t, h, n);
    } else if ReplayText(p, t, k, n) == ReplayText(p, t', k', n') {
      if |t| < |t'| {
        LongerTenantIsShifted(t, h, n, t', h', n');
      } else if |t'| < |t| {
        LongerTenantIsShifted(t', h', n', t, h, n);
      } else {
        SameTenantLength(t, h, n, t', h', n');
      }
    }
  }

  lemma {:induction false} SameTenantLength(t: string, h: string, n: string, t': string, h': string, n': string)
    requires '|' !in h && '|' !in h' && |t| == |t'| && t + "|" + h + "|" + n == t' + "|" + h' + "|" + n'
    ensures t == t' && h == h' && n == n'
  {
    var s := t + "|" + (h + "|" + n);
    assert s == t + "|" + h + "|" + n;
    assert t' + "|" + h' + "|" + n' == t' + "|" + (h' + "|" + n');
    assert s[..|t|] == t && s[..|t'|] == t';
    assert s[|t| + 1..] == h + "|" + n == h' + "|" + n';
    FirstSplitUnique('|', h, n, h', n');
  }

  /** With nonces free of bars the key determines all three. */
  lemma {:induction false} ReplayKeyDetermines(p: Primitives, t: string, k: string, n: string,
                                               t': string, k': string, n': string)
    requires ReplayTextsApart(p, t, k, n, t', k', n')
    requires '|' !in n && '|' !in n'
    requires ReplayKey(p, t, k, n) == ReplayKey(p, t', k', n')
    ensures t == t' && k == k' && n == n'
  {
    var h, h' := p.sha256Hex(p.utf8(k)), p.sha256Hex(p.utf8(k'));
    ReplayKeySharedIff(p, t, k, n, t', k', n');
    if Shifted(t, h, n, t', h', n') {
      ShiftedReadsTheSame(t, h, n, t', h', n');
    } else if Shifted(t', h', n', t, h, n) {
      ShiftedReadsTheSame(t', h', n', t, h, n);
    }
  }

  /** In general it does not: every API key has two different pairs of tenant and nonce with one
      replay key. */
  lemma {:induction false} ReplayKeyShared(p: Primitives, t: string, k: string, n: string)
    ensures var h := p.sha256Hex(p.utf8(k));
            && ReplayKey(p, t + "|" + h, k, n) == ReplayKey(p, t, k, h + "|" + n)
            && t + "|" + h != t
  {
    var h := p.sha256Hex(p.utf8(k));
    assert Shifted(t, h, h + "|" + n, t + "|" + h, h, n);
    ShiftedReadsTheSame(t, h, h + "|" + n, t + "|" + h, h, n);
  }

  // ---------------------------------------------------------------- one signature

  // The tenant is the one the body names; the body is signed, the parsed payload is not.
  ghost predicate NamesTenant(parse: Bytes -> Option<Payload>, a: Arrival) {
    parse(a.request.body).Some? && parse(a.request.body).value.tenantId == a.payload.tenantId
  }

  ghost function SignedString(g: Gate, a: Arrival): string {
    BuildCanonical(g.p, SignedFields(g.p, a.request, a.payload))
  }

  // One signature on both, and neither the signed strings nor the bodies collide.
  ghost predicate SameSignature(g: Gate, a: Arrival, b: Arrival) {
    && SignatureOf(a.request) == SignatureOf(b.request)
    && NoCollision(g.p, g.config.hmacSecret, SignedString(g, a), SignedString(g, b))
    && NoHashCollision(g.p, a.request.body, b.request.body)
    && SingleLines(g.p, SignedFields(g.p, a.request, a.payload))
    && SingleLines(g.p, SignedFields(g.p, b.request, b.payload))
  }

  // Header fields are compared stripped and signed stripped once more, to no effect.
  lemma {:induction false} SignedOnce(p: Primitives, request: Request, payload: Payload)
    requires Trimmed(p.sha256Hex(request.body))
    ensures var f := SignedFields(p, request, payload);
            Strip(f.timestamp) == TimestampOf(request) && Strip(f.nonce) == NonceOf(request)
            && Strip(f.bodyHash) == p.sha256Hex(request.body)
  {
    StripKeeps(p.sha256Hex(request.body));
    StripKeeps(request.headers.timestamp.GetOr(""));
    StripKeeps(request.headers.nonce.GetOr(""));
  }

  // A signature that passes twice stands for the same tenant, timestamp and nonce.
  lemma {:induction false} SignatureNamesCredentials(g: Gate, parse: Bytes -> Option<Payload>, a: Arrival, b: Arrival)
    requires SameSignature(g, a, b) && NamesTenant(parse, a) && NamesTenant(parse, b) && a.apiKey == b.apiKey
    requires Sign(g.p, SignedString(g, a), g.config.hmacSecret) == SignatureOf(a.request)
    requires Sign(g.p, SignedString(g, b), g.config.hmacSecret) == SignatureOf(b.request)
    requires Trimmed(g.p.sha256Hex(a.request.body)) && Trimmed(g.p.sha256Hex(b.request.body))
    ensures SameCredentials(a, b)
  {
    SignaturesAgreeIff(g.p, SignedString(g, a), SignedString(g, b), g.config.hmacSecret);
    CanonicalEqualIff(g.p, SignedFields(g.p, a.request, a.payload), SignedFields(g.p, b.request, b.payload));
    SignedOnce(g.p, a.request, a.payload);
    SignedOnce(g.p, b.request, b.payload);
  }

  // What acceptance in a run says about a request.
  lemma {:induction false} AcceptedPassed(g: Gate, start: real, arrivals: seq<Arrival>, i: nat)
    requires g.config.requireHmac && ClockRuns(start, arrivals) && i < |arrivals|
    requires Outcomes(g, [], arrivals)[i] == Accepted
    ensures PresentedAs(g, arrivals[i]).before == None
  {
    OutcomesAreJudged(g, [], [], start, arrivals);
    JudgedPassesChecks(g, [], PresentedAll(g, arrivals), i);
  }

  lemma {:induction false} PassedIsSigned(g: Gate, a: Arrival)
    requires PresentedAs(g, a).before == None
    ensures Sign(g.p, SignedString(g, a), g.config.hmacSecret) == SignatureOf(a.request)
  {
  }

  /** One signature is good for one acceptance.  In a run as above, an accepted request and a
      later one with the same signature and the same API key are not both accepted, whatever else
      of them differs. */
  lemma {:induction false} SignatureAcceptedAtMostOnce(g: Gate, gap: real, start: real, arrivals: seq<Arrival>,
                                                       parse: Bytes -> Option<Payload>, i: nat, j: nat)
    requires g.config.requireHmac && g.ttlSec as real >= Retention(g.config, gap)
    requires forall x :: Trimmed(g.p.sha256Hex(x))
    requires 0.0 <= start && ClockRuns(start, arrivals)
    requires i < j < |arrivals| && arrivals[j].cacheNow <= arrivals[j].authNow + gap
    requires SameSignature(g, arrivals[i], arrivals[j]) && arrivals[i].apiKey == arrivals[j].apiKey
    requires NamesTenant(parse, arrivals[i]) && NamesTenant(parse, arrivals[j])
    requires AcceptedBetween(Outcomes(g, [], arrivals), i + 1, j) < g.maxEntries
    requires Outcomes(g, [], arrivals)[i] == Accepted
    ensures Outcomes(g, [], arrivals)[j] != Accepted
  {
    if Outcomes(g, [], arrivals)[j] == Accepted {
      AcceptedPassed(g, start, arrivals, i);
      AcceptedPassed(g, start, arrivals, j);
      PassedIsSigned(g, arrivals[i]);
      PassedIsSigned(g, arrivals[j]);
      SignatureNamesCredentials(g, parse, arrivals[i], arrivals[j]);
      AcceptedAtMostOnce(g, gap, start, arrivals, i, j);
    }
  }

  /** The API key is not signed, so it has to be the same: one signed request, presented twice in
      time, is accepted again iff it comes with another API key. */
  lemma {:induction false} AcceptedAgainIff(g: Gate, gap: real, first: Arrival, second: Arrival)
    requires g.config.requireHmac && g.ttlSec as real >= Retention(g.config, gap) && g.maxEntries >= 1
    requires first.request == second.request && first.payload == second.payload
    requires BeforeReplay(g.p, g.config, first.request, first.payload, first.authNow) == None
    requires BeforeReplay(g.p, g.config, second.request, second.payload, second.authNow) == None
    requires 0.0 <= first.authNow <= first.cacheNow <= second.authNow <= second.cacheNow <= second.authNow + gap
    requires NoTextCollision(g.p, first.apiKey, second.apiKey)
    requires NoTextCollision(g.p, ReplayText(g.p, first.payload.tenantId, first.apiKey, NonceOf(first.request)),
                             ReplayText(g.p, second.payload.tenantId, second.apiKey, NonceOf(second.request)))
    requires |g.p.sha256Hex(g.p.utf8(first.apiKey))| == |g.p.sha256Hex(g.p.utf8(second.apiKey))|
    ensures Outcomes(g, [], [first, second]) ==
              [Accepted, if first.apiKey == second.apiKey then Refused(ReplayDetected) else Accepted]
  {
    PairIsJudged(g, first, second);
    WindowIsShort(g, gap, first.(apiKey := second.apiKey), second);
    SameKeyIff(g.p, first.payload.tenantId, NonceOf(first.request), first.apiKey, second.apiKey);
    JudgedAgain(g, PresentedAs(g, first), PresentedAs(g, second));
  }

  // Hash digits have one length, so nothing shifts when only the API key differs.
  lemma {:induction false} SameKeyIff(p: Primitives, t: string, n: string, k: string, k': string)
    requires NoTextCollision(p, k, k') && NoTextCollision(p, ReplayText(p, t, k, n), ReplayText(p, t, k', n))
    requires |p.sha256Hex(p.utf8(k))| == |p.sha256Hex(p.utf8(k'))|
    ensures ReplayKey(p, t, k, n) == ReplayKey(p, t, k', n) <==> k == k'
  {
    var h, h' := p.sha256Hex(p.utf8(k)), p.sha256Hex(p.utf8(k'));
    var s, s' := ReplayText(p, t, k, n), ReplayText(p, t, k', n);
    assert s[|t| + 1..|t| + 1 + |h|] == h && s'[|t| + 1..|t| + 1 + |h'|] == h';
  }

  lemma {:induction false} JudgedAgain(g: Gate, c: Presented, d: Presented)
    requires g.config.requireHmac && g.maxEntries >= 1 && c.before == None && d.before == None
    requires d.now < c.now + g.ttlSec as real
    ensures JudgedOutcomes(g, [], [c, d]) == [Accepted, if c.key == d.key then Refused(ReplayDetected) else Accepted]
  {
    var kept := [Acceptance(c.key, c.now)];
    assert [] + kept == kept;
    assert RemembersAt(kept, g.ttlSec, g.maxEntries, 0, d.now);
    assert [c, d][1..] == [d] && [d][1..] == [];
    assert JudgedOutcomes(g, kept, [d]) == [Judged(g, kept, d)];
  }
}
