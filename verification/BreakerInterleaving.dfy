/** Many requests over one circuit breaker (connector/omega_client.py).

    The awaits of `scan_attachment` cut a request into steps: its admission, the start of each
    post, and the delivery of each outcome together with whatever the code does up to its next
    await, recording included.  A run is any interleaving of such steps.  A request whose task is
    cancelled just disappears: nothing catches that exception. */
module BreakerInterleaving {
  import opened OmegaClient

  datatype Flight = Flight(begun: nat, awaiting: bool, lastError: Result)

  datatype State = State(circuit: Circuit, inFlight: map<nat, Flight>)

  datatype Step =
    | Arrive(id: nat, now: real)
    | Begin(id: nat, now: real)
    | Deliver(id: nat, now: real, outcome: Attempt)
    | Cancel(id: nat, now: real)

  datatype Event =
    | Admitted(id: nat)
    | Posted(id: nat)
    | Retrying(id: nat)
    | Cancelled(id: nat)
    | Finished(id: nat, result: Result, posts: nat, at: real)

  const INITIAL := State(CLOSED, map[])

  // The request ran out of attempts; this is what counts as a failure.
  predicate Exhausts(e: Event) {
    e.Finished? && (e.result.Timeout? || e.result.Unavailable? || e.result.ClientError?)
  }

  predicate Succeeds(e: Event) {
    e.Finished? && e.result.Data?
  }

  ghost predicate Enabled(p: Policy, s: State, step: Step) {
    match step
    case Arrive(id, _) => id !in s.inFlight
    case Begin(id, _) => id in s.inFlight && !s.inFlight[id].awaiting
    case Deliver(id, _, _) => id in s.inFlight && s.inFlight[id].awaiting
    case Cancel(id, _) => id in s.inFlight
  }

  ghost function Next(p: Policy, s: State, step: Step): (State, Event)
    requires Enabled(p, s, step)
  {
    match step
    case Arrive(id, now) =>
      if Admits(s.circuit, now)
      then (s.(inFlight := s.inFlight[id := Flight(0, false, ClientError)]), Admitted(id))
      else (s, Finished(id, CircuitOpen, 0, now))
    case Begin(id, now) =>
      var f := s.inFlight[id];
      (s.(inFlight := s.inFlight[id := f.(begun := f.begun + 1, awaiting := true)]), Posted(id))
    case Cancel(id, now) =>
      (s.(inFlight := s.inFlight - {id}), Cancelled(id))
    case Deliver(id, now, outcome) =>
      var f := s.inFlight[id];
      if outcome.Answered? then
        (State(CLOSED, s.inFlight - {id}), Finished(id, Decision(outcome), f.begun, now))
      else if outcome.Denied? then
        (s.(inFlight := s.inFlight - {id}), Finished(id, Decision(outcome), f.begun, now))
      else if f.begun > p.retryCount then
        (State(AfterFailure(p, s.circuit, now), s.inFlight - {id}), Finished(id, ErrorOf(outcome), f.begun, now))
      else
        (s.(inFlight := s.inFlight[id := f.(awaiting := false, lastError := ErrorOf(outcome))]), Retrying(id))
  }

  ghost predicate Runs(p: Policy, s: State, steps: seq<Step>)
    decreases |steps|
  {
    steps != [] ==> Enabled(p, s, steps[0]) && Runs(p, Next(p, s, steps[0]).0, steps[1..])
  }

  ghost function Run(p: Policy, s: State, steps: seq<Step>): State
    requires Runs(p, s, steps)
    decreases |steps|
  {
    if steps == [] then s else Run(p, Next(p, s, steps[0]).0, steps[1..])
  }

  ghost function Trace(p: Policy, s: State, steps: seq<Step>): (events: seq<Event>)
    requires Runs(p, s, steps)
    ensures |events| == |steps|
    decreases |steps|
  {
    if steps == [] then []
    else [Next(p, s, steps[0]).1] + Trace(p, Next(p, s, steps[0]).0, steps[1..])
  }

  // An attempt is under way or still allowed.
  ghost predicate WellFormed(p: Policy, s: State) {
    forall id :: id in s.inFlight ==>
      if s.inFlight[id].awaiting then 1 <= s.inFlight[id].begun <= p.retryCount + 1
      else s.inFlight[id].begun <= p.retryCount
  }

  lemma {:induction false} TraceHead(p: Policy, s: State, steps: seq<Step>)
    requires steps != [] && Runs(p, s, steps)
    ensures Trace(p, s, steps)[0] == Next(p, s, steps[0]).1
    ensures Trace(p, s, steps)[1..] == Trace(p, Next(p, s, steps[0]).0, steps[1..])
    ensures Trace(p, s, steps)[0].id == steps[0].id
  {
  }

  lemma {:induction false} RunSplits(p: Policy, s: State, a: seq<Step>, b: seq<Step>)
    requires Runs(p, s, a + b)
    ensures Runs(p, s, a) && Runs(p, Run(p, s, a), b)
    ensures Run(p, s, a + b) == Run(p, Run(p, s, a), b)
    ensures Trace(p, s, a + b) == Trace(p, s, a) + Trace(p, Run(p, s, a), b)
    decreases |a|
  {
    if a == [] {
      assert a + b == b;
    } else {
      assert (a + b)[1..] == a[1..] + b;
      RunSplits(p, Next(p, s, a[0]).0, a[1..], b);
    }
  }

  lemma {:induction false} RunKeepsWellFormed(p: Policy, s: State, steps: seq<Step>)
    requires WellFormed(p, s) && Runs(p, s, steps)
    ensures WellFormed(p, Run(p, s, steps))
    decreases |steps|
  {
    if steps != [] {
      RunKeepsWellFormed(p, Next(p, s, steps[0]).0, steps[1..]);
    }
  }

  // ---------------------------------------------------------------- the breaker in closed form

  // The events after the last success.
  ghost function SinceSuccess(h: seq<Event>): seq<Event> {
    if h == [] || Succeeds(h[|h| - 1]) then [] else SinceSuccess(h[..|h| - 1]) + [h[|h| - 1]]
  }

  // When requests ran out of attempts, in order.
  ghost function FailureTimes(h: seq<Event>): seq<real> {
    if h == [] then []
    else FailureTimes(h[..|h| - 1]) + (if Exhausts(h[|h| - 1]) then [h[|h| - 1].at] else [])
  }

  ghost function BreakerAfter(p: Policy, failures: seq<real>): Circuit {
    Circuit(|failures|,
            if failures != [] && |failures| >= p.breakerFails then failures[|failures| - 1] + p.resetSec as real
            else 0.0)
  }

  ghost function ClosedForm(p: Policy, h: seq<Event>): Circuit {
    BreakerAfter(p, FailureTimes(SinceSuccess(h)))
  }

  lemma {:induction false} CircuitFollowsHistory(p: Policy, h: seq<Event>, s: State, steps: seq<Step>)
    requires p.Valid() && Runs(p, s, steps)
    requires s.circuit == ClosedForm(p, h)
    ensures Run(p, s, steps).circuit == ClosedForm(p, h + Trace(p, s, steps))
    decreases |steps|
  {
    if steps == [] {
      assert h + [] == h;
    } else {
      var (s', e) := Next(p, s, steps[0]);
      NextCircuit(p, s, steps[0]);
      ClosedFormStep(p, h, e);
      CircuitFollowsHistory(p, h + [e], s', steps[1..]);
      assert h + Trace(p, s, steps) == h + [e] + Trace(p, s', steps[1..]);
    }
  }

  lemma {:induction false} NextCircuit(p: Policy, s: State, step: Step)
    requires Enabled(p, s, step)
    ensures var (s', e) := Next(p, s, step);
            s'.circuit == if Succeeds(e) then CLOSED
                          else if Exhausts(e) then AfterFailure(p, s.circuit, e.at)
                          else s.circuit
  {
  }

  lemma {:induction false} ClosedFormStep(p: Policy, h: seq<Event>, e: Event)
    requires p.Valid()
    ensures var before := ClosedForm(p, h);
            ClosedForm(p, h + [e]) == if Succeeds(e) then CLOSED
                                      else if Exhausts(e) then AfterFailure(p, before, e.at)
                                      else before
  {
    var longer := h + [e];
    assert longer[..|longer| - 1] == h;
    if !Succeeds(e) {
      var since := SinceSuccess(longer);
      assert since == SinceSuccess(h) + [e];
      assert since[..|since| - 1] == SinceSuccess(h);
      var failures := FailureTimes(SinceSuccess(h));
      assert FailureTimes(since) == failures + (if Exhausts(e) then [e.at] else []);
      assert failures + [] == failures;
    }
  }

  lemma {:induction false} SinceSuccessIs(a: seq<Event>, b: seq<Event>)
    requires a == [] || Succeeds(a[|a| - 1])
    requires forall i :: 0 <= i < |b| ==> !Succeeds(b[i])
    ensures SinceSuccess(a + b) == b
  {
    if b == [] {
      assert a + b == a;
    } else {
      assert (a + b)[..|a + b| - 1] == a + b[..|b| - 1];
      SinceSuccessIs(a, b[..|b| - 1]);
    }
  }

  /** The breaker in closed form, under every interleaving: cut the history after the last
      recorded success; the failure count is the number of exhausted requests since, and the
      breaker is open until the latest of them plus the reset time if they are enough, and not
      open otherwise. */
  lemma {:induction false} BreakerClosedForm(p: Policy, steps: seq<Step>, a: seq<Event>, b: seq<Event>)
    requires p.Valid() && Runs(p, INITIAL, steps) && Trace(p, INITIAL, steps) == a + b
    requires a == [] || Succeeds(a[|a| - 1])
    requires forall i :: 0 <= i < |b| ==> !Succeeds(b[i])
    ensures var failures := FailureTimes(b);
            var c := Run(p, INITIAL, steps).circuit;
            && c.failureCount == |failures|
            && c.openedUntil == if |failures| >= p.breakerFails then failures[|failures| - 1] + p.resetSec as real
                                else 0.0
  {
    assert ClosedForm(p, []) == CLOSED;
    CircuitFollowsHistory(p, [], INITIAL, steps);
    assert [] + Trace(p, INITIAL, steps) == a + b;
    ClosedFormIs(p, a, b);
  }

  /** The breaker opens again by itself: whatever happened before, a request that arrives is
      admitted iff the failures since the last success are too few to have opened the breaker, or
      the reset time since the latest of them is over. */
  lemma {:induction false} AdmittedIff(p: Policy, steps: seq<Step>, a: seq<Event>, b: seq<Event>, id: nat, now: real)
    requires p.Valid() && Runs(p, INITIAL, steps) && Trace(p, INITIAL, steps) == a + b
    requires a == [] || Succeeds(a[|a| - 1])
    requires forall i :: 0 <= i < |b| ==> !Succeeds(b[i])
    requires id !in Run(p, INITIAL, steps).inFlight && now >= 0.0
    ensures var failures := FailureTimes(b);
            var e := Next(p, Run(p, INITIAL, steps), Arrive(id, now)).1;
            e == if |failures| < p.breakerFails || failures[|failures| - 1] + p.resetSec as real <= now
                 then Admitted(id) else Finished(id, CircuitOpen, 0, now)
  {
    BreakerClosedForm(p, steps, a, b);
  }

  lemma {:induction false} ClosedFormIs(p: Policy, a: seq<Event>, b: seq<Event>)
    requires p.Valid()
    requires a == [] || Succeeds(a[|a| - 1])
    requires forall i :: 0 <= i < |b| ==> !Succeeds(b[i])
    ensures ClosedForm(p, a + b) == BreakerAfter(p, FailureTimes(b))
  {
    SinceSuccessIs(a, b);
  }

  // ---------------------------------------------------------------- traffic while the breaker is open

  // At every step of the stretch the breaker is open.
  ghost predicate OpenThroughout(p: Policy, s: State, steps: seq<Step>)
    requires Runs(p, s, steps)
    decreases |steps|
  {
    steps != [] ==>
      s.circuit.openedUntil > steps[0].now && OpenThroughout(p, Next(p, s, steps[0]).0, steps[1..])
  }

  ghost function PostCount(h: seq<Event>): nat {
    if h == [] then 0 else (if h[0].Posted? then 1 else 0) + PostCount(h[1..])
  }

  ghost function Left(p: Policy, f: Flight): nat {
    if f.begun > p.retryCount then 0 else p.retryCount + 1 - f.begun
  }

  ghost function AnyOf(m: map<nat, Flight>): (id: nat)
    requires m != map[]
    ensures id in m
  {
    assert exists id :: id in m;
    var id :| id in m; id
  }

  // The attempts the requests in flight may still begin.
  ghost function AttemptsLeft(p: Policy, m: map<nat, Flight>): nat
    decreases |m|
  {
    if m == map[] then 0
    else
      var id := AnyOf(m);
      RemovalShrinks(m, id);
      Left(p, m[id]) + AttemptsLeft(p, m - {id})
  }

  lemma {:induction false} RemovalShrinks(m: map<nat, Flight>, id: nat)
    requires id in m
    ensures |m - {id}| == |m| - 1
  {
    assert (m - {id}).Keys == m.Keys - {id};
  }

  lemma {:induction false} AttemptsLeftWithout(p: Policy, m: map<nat, Flight>, id: nat)
    requires id in m
    ensures AttemptsLeft(p, m) == Left(p, m[id]) + AttemptsLeft(p, m - {id})
    decreases |m|
  {
    var k := AnyOf(m);
    if k != id {
      RemovalShrinks(m, k);
      RemovalShrinks(m, id);
      AttemptsLeftWithout(p, m - {k}, id);
      AttemptsLeftWithout(p, m - {id}, k);
      assert m - {k} - {id} == m - {id} - {k};
    }
  }

  lemma {:induction false} AttemptsLeftUpdate(p: Policy, m: map<nat, Flight>, id: nat, f: Flight)
    requires id in m
    ensures AttemptsLeft(p, m[id := f]) + Left(p, m[id]) == AttemptsLeft(p, m) + Left(p, f)
  {
    AttemptsLeftWithout(p, m, id);
    AttemptsLeftWithout(p, m[id := f], id);
    assert m[id := f] - {id} == m - {id};
  }

  lemma {:induction false} AttemptsLeftBound(p: Policy, m: map<nat, Flight>)
    ensures AttemptsLeft(p, m) <= (p.retryCount + 1) * |m|
    decreases |m|
  {
    if m != map[] {
      var id := AnyOf(m);
      RemovalShrinks(m, id);
      AttemptsLeftBound(p, m - {id});
      assert (p.retryCount + 1) * |m| == (p.retryCount + 1) * |m - {id}| + (p.retryCount + 1);
    }
  }

  lemma {:induction false} StepWhileOpen(p: Policy, s: State, step: Step)
    requires WellFormed(p, s) && Enabled(p, s, step) && s.circuit.openedUntil > step.now
    ensures var (s', e) := Next(p, s, step);
            !e.Admitted? && (if e.Posted? then 1 else 0) + AttemptsLeft(p, s'.inFlight) <= AttemptsLeft(p, s.inFlight)
  {
    var (s', e) := Next(p, s, step);
    var m := s.inFlight;
    if step.id in m {
      AttemptsLeftWithout(p, m, step.id);
      if step.id in s'.inFlight {
        AttemptsLeftUpdate(p, m, step.id, s'.inFlight[step.id]);
        assert s'.inFlight == m[step.id := s'.inFlight[step.id]];
      }
    }
  }

  /** Bounded traffic while open: in every interleaving, during any stretch in which the breaker
      stays open nobody is admitted, and the posts begun number at most the attempts left to the
      requests in flight at its start, `retryCount + 1` each. */
  lemma {:induction false} BoundedWhileOpen(p: Policy, s: State, steps: seq<Step>)
    requires WellFormed(p, s) && Runs(p, s, steps) && OpenThroughout(p, s, steps)
    ensures forall i :: 0 <= i < |steps| ==> !Trace(p, s, steps)[i].Admitted?
    ensures PostCount(Trace(p, s, steps)) <= AttemptsLeft(p, s.inFlight)
    ensures PostCount(Trace(p, s, steps)) <= (p.retryCount + 1) * |s.inFlight|
    decreases |steps|
  {
    AttemptsLeftBound(p, s.inFlight);
    if steps != [] {
      StepWhileOpen(p, s, steps[0]);
      BoundedWhileOpen(p, Next(p, s, steps[0]).0, steps[1..]);
    }
  }

  // ---------------------------------------------------------------- load on a failing upstream

  ghost predicate ClockRuns(clock: real, steps: seq<Step>)
    decreases |steps|
  {
    steps != [] ==> clock <= steps[0].now && ClockRuns(steps[0].now, steps[1..])
  }

  ghost predicate NoSuccess(h: seq<Event>) {
    forall i :: 0 <= i < |h| ==> !Succeeds(h[i])
  }

  // At most `limit` requests are in flight before every step.
  ghost predicate InFlightAtMost(p: Policy, s: State, steps: seq<Step>, limit: nat)
    requires Runs(p, s, steps)
    decreases |steps|
  {
    steps != [] ==> |s.inFlight| <= limit && InFlightAtMost(p, Next(p, s, steps[0]).0, steps[1..], limit)
  }

  ghost function ExhaustedCount(h: seq<Event>): nat {
    if h == [] then 0 else (if Exhausts(h[0]) then 1 else 0) + ExhaustedCount(h[1..])
  }

  // The breaker does not reach further ahead than a failure at the clock could push it.
  ghost predicate WithinReset(p: Policy, s: State, clock: real) {
    s.circuit.openedUntil <= clock + p.resetSec as real
  }

  lemma {:induction false} ClockRunsSplits(clock: real, a: seq<Step>, b: seq<Step>)
    requires ClockRuns(clock, a + b)
    ensures ClockRuns(clock, a)
    ensures ClockRuns(if a == [] then clock else a[|a| - 1].now, b)
    ensures clock <= if a == [] then clock else a[|a| - 1].now
    decreases |a|
  {
    if a == [] {
      assert a + b == b;
    } else {
      assert (a + b)[1..] == a[1..] + b;
      ClockRunsSplits(a[0].now, a[1..], b);
    }
  }

  lemma {:induction false} RunKeepsWithinReset(p: Policy, s: State, clock: real, steps: seq<Step>)
    requires Runs(p, s, steps) && ClockRuns(clock, steps) && WithinReset(p, s, clock) && 0.0 <= clock
    ensures WithinReset(p, Run(p, s, steps), if steps == [] then clock else steps[|steps| - 1].now)
    decreases |steps|
  {
    if steps != [] {
      RunKeepsWithinReset(p, Next(p, s, steps[0]).0, steps[0].now, steps[1..]);
    }
  }

  // How one step moves the counts that matter, when it is not a success.
  lemma {:induction false} FailureStep(p: Policy, s: State, step: Step)
    requires Enabled(p, s, step) && !Succeeds(Next(p, s, step).1)
    ensures var (s', e) := Next(p, s, step);
            if Exhausts(e) then
              && s'.circuit == AfterFailure(p, s.circuit, step.now)
              && |s'.inFlight| == |s.inFlight| - 1
            else
              && s'.circuit == s.circuit
              && (|s'.inFlight| <= |s.inFlight| || Admits(s.circuit, step.now))
  {
    var (s', e) := Next(p, s, step);
    if step.id in s.inFlight {
      RemovalShrinks(s.inFlight, step.id);
      if step.id in s'.inFlight {
        assert s'.inFlight.Keys == s.inFlight.Keys;
      }
    }
  }

  // What starts no earlier than a time stays there.
  lemma {:induction false} NotBefore(clock: real, steps: seq<Step>, t: real)
    requires ClockRuns(clock, steps) && (steps != [] ==> steps[0].now >= t)
    ensures forall i :: 0 <= i < |steps| ==> steps[i].now >= t
    decreases |steps|
  {
    if steps != [] {
      NotBefore(steps[0].now, steps[1..], t);
      assert forall i :: 1 <= i < |steps| ==> steps[i] == steps[1..][i - 1];
    }
  }

  ghost predicate Within(steps: seq<Step>, from: real, until: real) {
    forall i :: 0 <= i < |steps| ==> from <= steps[i].now < until
  }

  ghost function Span(p: Policy, periods: nat): real {
    periods as real * p.resetSec as real
  }

  // The hypotheses about a stretch pass to the stretch without its first step.
  lemma {:induction false} StretchTail(p: Policy, s: State, steps: seq<Step>, from: real, until: real)
    requires steps != [] && Runs(p, s, steps) && NoSuccess(Trace(p, s, steps)) && Within(steps, from, until)
    ensures var (s', e) := Next(p, s, steps[0]);
            && !Succeeds(e) && NoSuccess(Trace(p, s', steps[1..])) && Within(steps[1..], from, until)
            && ExhaustedCount(Trace(p, s, steps)) ==
                 (if Exhausts(e) then 1 else 0) + ExhaustedCount(Trace(p, s', steps[1..]))
  {
    var (s', e) := Next(p, s, steps[0]);
    var trace := Trace(p, s, steps);
    var tail := Trace(p, s', steps[1..]);
    assert trace == [e] + tail && trace[0] == e && trace[1..] == tail;
    assert forall i :: 0 <= i < |tail| ==> tail[i] == trace[i + 1];
  }

  lemma {:induction false} OneMore(a: nat, n: nat)
    ensures a * (1 + n) == a + a * n
  {
  }

  // Once one more failure trips the breaker, each reset period admits one batch of failures: the
  // tripping one and those in flight beside it.
  lemma {:induction false} TrippingLoad(p: Policy, s: State, clock: real, steps: seq<Step>, limit: nat, from: real,
                                        until: real, periods: nat)
    requires p.Valid() && Runs(p, s, steps) && NoSuccess(Trace(p, s, steps))
    requires ClockRuns(clock, steps) && WithinReset(p, s, clock) && InFlightAtMost(p, s, steps, limit)
    requires s.circuit.failureCount + 1 >= p.breakerFails
    requires Within(steps, from, until) && until <= from + Span(p, periods)
    ensures ExhaustedCount(Trace(p, s, steps)) <= limit * periods
    decreases |steps|, 0
  {
    if steps != [] {
      var (s', e) := Next(p, s, steps[0]);
      var now := steps[0].now;
      StretchTail(p, s, steps, from, until);
      FailureStep(p, s, steps[0]);
      if Exhausts(e) {
        OnePeriodLess(p, periods, from, now, until);
        TrippedLoad(p, s', now, steps[1..], limit, from, until, now + p.resetSec as real, periods - 1);
        OneMore(limit, periods - 1);
      } else {
        TrippingLoad(p, s', now, steps[1..], limit, from, until, periods);
      }
    }
  }

  // Until a tripped breaker reopens, only requests already in flight can run out of attempts.
  lemma {:induction false} TrippedLoad(p: Policy, s: State, clock: real, steps: seq<Step>, limit: nat, from: real,
                                       until: real, reopen: real, periods: nat)
    requires p.Valid() && Runs(p, s, steps) && NoSuccess(Trace(p, s, steps))
    requires ClockRuns(clock, steps) && WithinReset(p, s, clock) && InFlightAtMost(p, s, steps, limit)
    requires s.circuit.failureCount >= p.breakerFails && s.circuit.openedUntil >= reopen
    requires Within(steps, from, until) && until <= reopen + Span(p, periods)
    ensures ExhaustedCount(Trace(p, s, steps)) <= |s.inFlight| + limit * periods
    decreases |steps|, 1
  {
    if steps != [] {
      var (s', e) := Next(p, s, steps[0]);
      var now := steps[0].now;
      if now < reopen {
        StretchTail(p, s, steps, from, until);
        FailureStep(p, s, steps[0]);
        TrippedLoad(p, s', now, steps[1..], limit, from, until, reopen, periods);
      } else {
        NotBefore(clock, steps, reopen);
        TrippingLoad(p, s, clock, steps, limit, reopen, until, periods);
      }
    }
  }

  lemma {:induction false} OnePeriodLess(p: Policy, periods: nat, from: real, clock: real, until: real)
    requires from <= clock < until <= from + Span(p, periods)
    ensures periods > 0 && until <= clock + p.resetSec as real + Span(p, periods - 1)
  {
    assert Span(p, 0) == 0.0;
    if periods > 0 {
      assert Span(p, periods) == Span(p, periods - 1) + p.resetSec as real;
    }
  }

  lemma {:induction false} LoadFrom(p: Policy, s: State, clock: real, steps: seq<Step>, limit: nat, from: real,
                                    until: real, periods: nat)
    requires p.Valid() && Runs(p, s, steps) && NoSuccess(Trace(p, s, steps))
    requires ClockRuns(clock, steps) && WithinReset(p, s, clock) && InFlightAtMost(p, s, steps, limit)
    requires Within(steps, from, until) && until <= from + Span(p, periods)
    ensures ExhaustedCount(Trace(p, s, steps)) <= limit * periods
         + if s.circuit.failureCount + 1 >= p.breakerFails then 0 else p.breakerFails - 1 - s.circuit.failureCount
    decreases |steps|
  {
    if s.circuit.failureCount + 1 >= p.breakerFails {
      TrippingLoad(p, s, clock, steps, limit, from, until, periods);
    } else if steps != [] {
      StretchTail(p, s, steps, from, until);
      FailureStep(p, s, steps[0]);
      LoadFrom(p, Next(p, s, steps[0]).0, steps[0].now, steps[1..], limit, from, until, periods);
    }
  }

  /** Load bound.  Take any run whose clock does not step back and any stretch of it, shorter
      than `periods` reset periods, in which no request succeeds and never more than `limit` are
      in flight.  The requests that run out of attempts in it number at most
      `breakerFails - 1 + limit * periods`. */
  lemma {:induction false} LoadBound(p: Policy, before: seq<Step>, stretch: seq<Step>, limit: nat, from: real,
                                     periods: nat)
    requires p.Valid() && Runs(p, INITIAL, before + stretch) && ClockRuns(0.0, before + stretch)
    requires Runs(p, INITIAL, before) && Runs(p, Run(p, INITIAL, before), stretch)
    requires NoSuccess(Trace(p, Run(p, INITIAL, before), stretch))
    requires InFlightAtMost(p, Run(p, INITIAL, before), stretch, limit)
    requires Within(stretch, from, from + Span(p, periods))
    ensures ExhaustedCount(Trace(p, Run(p, INITIAL, before), stretch)) <= p.breakerFails - 1 + limit * periods
  {
    ClockRunsSplits(0.0, before, stretch);
    RunKeepsWithinReset(p, INITIAL, 0.0, before);
    LoadFrom(p, Run(p, INITIAL, before), if before == [] then 0.0 else before[|before| - 1].now, stretch, limit,
             from, from + Span(p, periods), periods);
  }

  // The whole reset periods in a length of time.
  function FullPeriods(length: real, resetSec: nat): nat
    requires length >= 0.0 && resetSec >= 1
  {
    (length / resetSec as real).Floor
  }

  lemma {:induction false} LessThanOneMorePeriod(p: Policy, length: real)
    requires p.Valid() && length >= 0.0
    ensures length < Span(p, FullPeriods(length, p.resetSec) + 1)
  {
    var r := p.resetSec as real;
    var q := length / r;
    var n := FullPeriods(length, p.resetSec) + 1;
    assert q * r == length;
    assert q < n as real;
    assert q * r < n as real * r;
  }

  lemma {:induction false} SpanCovers(p: Policy, steps: seq<Step>, from: real, length: real, periods: nat)
    requires length < Span(p, periods)
    requires forall i :: 0 <= i < |steps| ==> from <= steps[i].now <= from + length
    ensures Within(steps, from, from + Span(p, periods))
  {
  }

  /** One request at a time: at most `breakerFails` exhausted requests and one more for each full
      reset period the stretch spans. */
  lemma {:induction false} SequentialLoadBound(p: Policy, before: seq<Step>, stretch: seq<Step>, from: real,
                                               length: real)
    requires p.Valid() && Runs(p, INITIAL, before + stretch) && ClockRuns(0.0, before + stretch)
    requires Runs(p, INITIAL, before) && Runs(p, Run(p, INITIAL, before), stretch)
    requires NoSuccess(Trace(p, Run(p, INITIAL, before), stretch))
    requires InFlightAtMost(p, Run(p, INITIAL, before), stretch, 1)
    requires length >= 0.0 && forall i :: 0 <= i < |stretch| ==> from <= stretch[i].now <= from + length
    ensures ExhaustedCount(Trace(p, Run(p, INITIAL, before), stretch))
         <= p.breakerFails + FullPeriods(length, p.resetSec)
  {
    var periods := FullPeriods(length, p.resetSec) + 1;
    LessThanOneMorePeriod(p, length);
    SpanCovers(p, stretch, from, length, periods);
    LoadBound(p, before, stretch, 1, from, periods);
  }

  ghost function PostsOfExhausted(h: seq<Event>): nat {
    if h == [] then 0 else (if Exhausts(h[0]) then h[0].posts else 0) + PostsOfExhausted(h[1..])
  }

  lemma {:induction false} ExhaustedPosts(p: Policy, s: State, step: Step)
    requires WellFormed(p, s) && Enabled(p, s, step)
    ensures var e := Next(p, s, step).1; Exhausts(e) ==> e.posts == p.retryCount + 1
  {
  }

  /** Every exhausted request has made all its attempts, so the posts behind any number of
      recorded failures are `retryCount + 1` times that number. */
  lemma {:induction false} ExhaustedPostedAll(p: Policy, s: State, steps: seq<Step>)
    requires WellFormed(p, s) && Runs(p, s, steps)
    ensures PostsOfExhausted(Trace(p, s, steps)) == (p.retryCount + 1) * ExhaustedCount(Trace(p, s, steps))
    decreases |steps|
  {
    if steps != [] {
      var (s', e) := Next(p, s, steps[0]);
      TraceHead(p, s, steps);
      ExhaustedPostedAll(p, s', steps[1..]);
      ExhaustedPosts(p, s, steps[0]);
      OneMore(p.retryCount + 1, ExhaustedCount(Trace(p, s', steps[1..])));
    }
  }

  ghost function PostsOf(h: seq<Event>, id: nat): nat {
    if h == [] then 0 else (if h[0] == Posted(id) then 1 else 0) + PostsOf(h[1..], id)
  }

  ghost function ArrivalsOf(steps: seq<Step>, id: nat): nat {
    if steps == [] then 0 else (if steps[0].Arrive? && steps[0].id == id then 1 else 0) + ArrivalsOf(steps[1..], id)
  }

  // The attempts a request in flight may still begin.
  ghost function LeftFor(p: Policy, s: State, id: nat): nat {
    if id in s.inFlight then Left(p, s.inFlight[id]) else 0
  }

  lemma {:induction false} StepSpendsAttempts(p: Policy, s: State, step: Step, id: nat)
    requires WellFormed(p, s) && Enabled(p, s, step)
    ensures var (s', e) := Next(p, s, step);
            (if e == Posted(id) then 1 else 0) + LeftFor(p, s', id)
            <= LeftFor(p, s, id) + if step.Arrive? && step.id == id then p.retryCount + 1 else 0
  {
  }

  /** However requests interleave, one id posts at most `retryCount + 1` times for each time it
      arrives. */
  lemma {:induction false} PostsPerArrival(p: Policy, s: State, steps: seq<Step>, id: nat)
    requires WellFormed(p, s) && Runs(p, s, steps)
    ensures PostsOf(Trace(p, s, steps), id) <= LeftFor(p, s, id) + (p.retryCount + 1) * ArrivalsOf(steps, id)
    decreases |steps|
  {
    if steps != [] {
      var s' := Next(p, s, steps[0]).0;
      TraceHead(p, s, steps);
      StepSpendsAttempts(p, s, steps[0], id);
      PostsPerArrival(p, s', steps[1..], id);
      OneMore(p.retryCount + 1, ArrivalsOf(steps[1..], id));
    }
  }

  // ---------------------------------------------------------------- what one request sees

  ghost function OutcomesOf(steps: seq<Step>, id: nat): seq<Attempt> {
    if steps == [] then []
    else (if steps[0].Deliver? && steps[0].id == id then [steps[0].outcome] else []) + OutcomesOf(steps[1..], id)
  }

  // The request in flight has received exactly these outcomes.
  ghost predicate HasSeen(p: Policy, s: State, id: nat, seen: seq<Attempt>) {
    && id in s.inFlight
    && s.inFlight[id].begun == |seen| + (if s.inFlight[id].awaiting then 1 else 0)
    && |seen| <= p.retryCount
    && (forall i :: 0 <= i < |seen| ==> !Decisive(seen[i]))
    && s.inFlight[id].lastError == if seen == [] then ClientError else ErrorOf(seen[|seen| - 1])
  }

  // What a step delivers to a request.
  ghost function Delivered(step: Step, id: nat): seq<Attempt> {
    if step.Deliver? && step.id == id then [step.outcome] else []
  }

  lemma {:induction false} SeenStep(p: Policy, s: State, step: Step, id: nat, seen: seq<Attempt>)
    requires WellFormed(p, s) && Enabled(p, s, step) && HasSeen(p, s, id, seen)
    ensures var (s', e) := Next(p, s, step);
            var now := seen + Delivered(step, id);
            && (id in s'.inFlight ==> HasSeen(p, s', id, now) && !(e.Finished? && e.id == id))
            && (e.Finished? && e.id == id ==> Follows(p, now, e.result) && e.posts == |now|)
  {
    if step.Deliver? && step.id == id {
      var now := seen + [step.outcome];
      assert now[|now| - 1] == step.outcome;
      assert forall i :: 0 <= i < |seen| ==> now[i] == seen[i];
    } else {
      assert seen + [] == seen;
    }
  }

  lemma {:induction false} OutcomesStep(steps: seq<Step>, id: nat, k: nat, seen: seq<Attempt>)
    requires k < |steps|
    ensures seen + OutcomesOf(steps[..k + 1], id) == (seen + Delivered(steps[0], id)) + OutcomesOf(steps[1..][..k], id)
  {
    assert steps[..k + 1][1..] == steps[1..][..k];
  }

  lemma {:induction false} FinishFollows(p: Policy, s: State, steps: seq<Step>, id: nat, seen: seq<Attempt>, k: nat)
    requires WellFormed(p, s) && Runs(p, s, steps) && HasSeen(p, s, id, seen)
    requires k < |steps| && Trace(p, s, steps)[k].Finished? && Trace(p, s, steps)[k].id == id
    requires forall i :: 0 <= i <= k ==> !(steps[i].Arrive? && steps[i].id == id)
    ensures Follows(p, seen + OutcomesOf(steps[..k + 1], id), Trace(p, s, steps)[k].result)
    ensures Trace(p, s, steps)[k].posts == |seen + OutcomesOf(steps[..k + 1], id)|
    decreases |steps|
  {
    var (s', e) := Next(p, s, steps[0]);
    var now := seen + Delivered(steps[0], id);
    TraceHead(p, s, steps);
    SeenStep(p, s, steps[0], id, seen);
    OutcomesStep(steps, id, k, seen);
    if k == 0 {
      assert now + OutcomesOf(steps[1..][..0], id) == now;
    } else {
      assert Trace(p, s, steps)[k] == Trace(p, s', steps[1..])[k - 1];
      assert forall i :: 0 <= i <= k - 1 ==> steps[1..][i] == steps[i + 1];
      if id !in s'.inFlight {
        GoneStaysGone(p, s', steps[1..], id, k - 1);
      }
      FinishFollows(p, s', steps[1..], id, now, k - 1);
    }
  }

  // Without a new arrival a finished or cancelled request does nothing.
  lemma {:induction false} GoneStaysGone(p: Policy, s: State, steps: seq<Step>, id: nat, k: nat)
    requires Runs(p, s, steps) && id !in s.inFlight && k < |steps|
    requires forall i :: 0 <= i <= k ==> !(steps[i].Arrive? && steps[i].id == id)
    ensures Trace(p, s, steps)[k].id != id
    decreases |steps|
  {
    var (s', e) := Next(p, s, steps[0]);
    if k > 0 {
      GoneStaysGone(p, s', steps[1..], id, k - 1);
    }
  }

  /** However requests interleave, each is decided by its own outcomes alone: if the request
      admitted by the first step finishes at step k, its result is the one the rule gives for the
      outcomes delivered to it, one per post. */
  lemma {:induction false} ResultFollowsOwnOutcomes(p: Policy, s: State, steps: seq<Step>, k: nat)
    requires WellFormed(p, s) && Runs(p, s, steps) && 0 < k < |steps|
    requires Trace(p, s, steps)[0].Admitted?
    requires Trace(p, s, steps)[k].Finished? && Trace(p, s, steps)[k].id == steps[0].id
    requires forall i :: 0 < i <= k ==> !(steps[i].Arrive? && steps[i].id == steps[0].id)
    ensures Follows(p, OutcomesOf(steps[..k + 1], steps[0].id), Trace(p, s, steps)[k].result)
    ensures Trace(p, s, steps)[k].posts == |OutcomesOf(steps[..k + 1], steps[0].id)|
  {
    var (s', e) := Next(p, s, steps[0]);
    var id := steps[0].id;
    assert Trace(p, s, steps) == [e] + Trace(p, s', steps[1..]);
    assert HasSeen(p, s', id, []);
    FinishFollows(p, s', steps[1..], id, [], k - 1);
    assert steps[..k + 1][1..] == steps[1..][..k];
    assert [] + OutcomesOf(steps[1..][..k], id) == OutcomesOf(steps[..k + 1], id);
  }

  // ---------------------------------------------------------------- the loop as a run

  // The steps of a request that nothing interrupts, from attempt i up to but not including n.
  ghost function Attempts(id: nat, outcomes: nat -> Attempt, i: nat, n: nat, now: real): seq<Step>
    decreases n - i
  {
    if i >= n then [] else [Begin(id, now), Deliver(id, now, outcomes(i))] + Attempts(id, outcomes, i + 1, n, now)
  }

  /** The uninterrupted loop of `scan_attachment` is one of the interleavings: from attempt i on it
      ends as the method's contract says, in result, number of posts and breaker state. */
  lemma {:induction false} LoopIsARun(p: Policy, s: State, id: nat, outcomes: nat -> Attempt, i: nat, last: nat,
                                      now: real)
    requires id in s.inFlight && s.inFlight[id].begun == i && !s.inFlight[id].awaiting
    requires i <= last <= p.retryCount
    requires forall e: nat :: i <= e < last ==> !Decisive(outcomes(e))
    requires Decisive(outcomes(last)) || last == p.retryCount
    ensures var steps := Attempts(id, outcomes, i, last + 1, now);
            var outcome := outcomes(last);
            && Runs(p, s, steps)
            && Run(p, s, steps) == State(
                 if outcome.Answered? then CLOSED
                 else if outcome.Denied? then s.circuit
                 else AfterFailure(p, s.circuit, now),
                 s.inFlight - {id})
            && Trace(p, s, steps)[|steps| - 1]
            == Finished(id, if Decisive(outcome) then Decision(outcome) else ErrorOf(outcome), last + 1, now)
    decreases last - i
  {
    var begin, deliver := Begin(id, now), Deliver(id, now, outcomes(i));
    var more := Attempts(id, outcomes, i + 1, last + 1, now);
    var steps := Attempts(id, outcomes, i, last + 1, now);
    assert steps == [begin, deliver] + more && steps[1..] == [deliver] + more && steps[1..][1..] == more;
    var s1 := Next(p, s, begin).0;
    var (s2, e) := Next(p, s1, deliver);
    if i < last {
      LoopIsARun(p, s2, id, outcomes, i + 1, last, now);
      assert s2.inFlight - {id} == s.inFlight - {id};
    } else {
      assert more == [];
      assert s1.circuit == s.circuit;
      assert s2.inFlight == s1.inFlight - {id} == s.inFlight - {id};
      assert Run(p, s1, steps[1..]) == Run(p, s2, more) == s2;
    }
  }

  // ---------------------------------------------------------------- requests that leave no trace

  ghost function StepsWithout(steps: seq<Step>, ids: set<nat>): seq<Step> {
    if steps == [] then [] else (if steps[0].id in ids then [] else [steps[0]]) + StepsWithout(steps[1..], ids)
  }

  ghost function EventsWithout(h: seq<Event>, ids: set<nat>): seq<Event> {
    if h == [] then [] else (if h[0].id in ids then [] else [h[0]]) + EventsWithout(h[1..], ids)
  }

  // The state with some requests taken out.
  ghost function StateWithout(s: State, ids: set<nat>): State {
    State(s.circuit, s.inFlight - ids)
  }

  lemma {:induction false} NextWithout(p: Policy, s: State, step: Step, ids: set<nat>)
    requires Enabled(p, s, step) && step.id !in ids
    ensures var s0 := StateWithout(s, ids);
            var (s', e) := Next(p, s, step);
            Enabled(p, s0, step) && Next(p, s0, step) == (StateWithout(s', ids), e) && e.id == step.id
  {
    var m := s.inFlight;
    var (s', e) := Next(p, s, step);
    assert (m - ids) - {step.id} == (m - {step.id}) - ids;
    if step.id in s'.inFlight {
      var f := s'.inFlight[step.id];
      assert (m - ids)[step.id := f] == m[step.id := f] - ids;
    }
  }

  lemma {:induction false} HiddenStep(p: Policy, s: State, step: Step, ids: set<nat>)
    requires Enabled(p, s, step) && step.id in ids
    ensures var (s', e) := Next(p, s, step);
            !Succeeds(e) && !Exhausts(e) ==> StateWithout(s', ids) == StateWithout(s, ids) && e.id == step.id
  {
  }

  ghost predicate Unrecorded(h: seq<Event>, ids: set<nat>) {
    forall i :: 0 <= i < |h| && h[i].id in ids ==> !Succeeds(h[i]) && !Exhausts(h[i])
  }

  /** Requests that neither succeed nor run out of attempts (rejected with a 4xx, turned away,
      cancelled) leave no trace: deleting all their steps from any interleaving gives a run in
      which every other request has the same events and the breaker ends in the same state. */
  lemma {:induction false} UnrecordedLeaveNoTrace(p: Policy, s: State, steps: seq<Step>, ids: set<nat>)
    requires Runs(p, s, steps) && Unrecorded(Trace(p, s, steps), ids)
    ensures SameWithout(p, s, steps, ids)
    decreases |steps|
  {
    if steps != [] {
      var step := steps[0];
      var (s', e) := Next(p, s, step);
      TraceHead(p, s, steps);
      assert forall i :: 0 <= i < |steps| - 1 ==> Trace(p, s', steps[1..])[i] == Trace(p, s, steps)[i + 1];
      UnrecordedLeaveNoTrace(p, s', steps[1..], ids);
      if step.id in ids {
        DropStep(p, s, steps, ids);
      } else {
        KeepStep(p, s, steps, ids);
      }
    }
  }

  // The reduced run is the run of the reduced steps.
  ghost predicate SameWithout(p: Policy, s: State, steps: seq<Step>, ids: set<nat>)
    requires Runs(p, s, steps)
  {
    && Runs(p, StateWithout(s, ids), StepsWithout(steps, ids))
    && Trace(p, StateWithout(s, ids), StepsWithout(steps, ids)) == EventsWithout(Trace(p, s, steps), ids)
    && Run(p, StateWithout(s, ids), StepsWithout(steps, ids)) == StateWithout(Run(p, s, steps), ids)
  }

  lemma {:induction false} DropStep(p: Policy, s: State, steps: seq<Step>, ids: set<nat>)
    requires steps != [] && Runs(p, s, steps) && steps[0].id in ids
    requires !Succeeds(Next(p, s, steps[0]).1) && !Exhausts(Next(p, s, steps[0]).1)
    requires SameWithout(p, Next(p, s, steps[0]).0, steps[1..], ids)
    ensures SameWithout(p, s, steps, ids)
  {
    TraceHead(p, s, steps);
    HiddenStep(p, s, steps[0], ids);
    assert StepsWithout(steps, ids) == StepsWithout(steps[1..], ids);
    var trace := Trace(p, s, steps);
    assert EventsWithout(trace, ids) == EventsWithout(trace[1..], ids);
  }

  lemma {:induction false} KeepStep(p: Policy, s: State, steps: seq<Step>, ids: set<nat>)
    requires steps != [] && Runs(p, s, steps) && steps[0].id !in ids
    requires SameWithout(p, Next(p, s, steps[0]).0, steps[1..], ids)
    ensures SameWithout(p, s, steps, ids)
  {
    TraceHead(p, s, steps);
    NextWithout(p, s, steps[0], ids);
    var all := StepsWithout(steps, ids);
    var rest := StepsWithout(steps[1..], ids);
    assert all == [steps[0]] + rest && all[1..] == rest && all[0] == steps[0];
    var trace := Trace(p, s, steps);
    assert EventsWithout(trace, ids) == [trace[0]] + EventsWithout(trace[1..], ids);
    TraceHead(p, StateWithout(s, ids), all);
    var shorter := Trace(p, StateWithout(s, ids), all);
    assert shorter == [shorter[0]] + shorter[1..];
  }
}
