/** Many calls of the scan endpoint at once (connector/app.py), over one replay cache and one breaker.

    From reading its body to its first await in the upstream client a call does not yield, so the
    gate and the admission by the breaker are one step; what follows are the client's own steps.
    A run is any interleaving of such steps. */
module EndpointInterleaving {
  import AuthGate
  import BreakerInterleaving
  import OmegaClient
  import ReplayCache

  datatype State = State(entries: seq<ReplayCache.Entry>, upstream: BreakerInterleaving.State)

  datatype Step =
    | Call(id: nat, arrival: AuthGate.Arrival, now: real)
    | Upstream(step: BreakerInterleaving.Step)

  datatype Event =
    | Denied(id: nat, reason: AuthGate.Refusal)
    | Passed(event: BreakerInterleaving.Event)

  const INITIAL := State([], BreakerInterleaving.INITIAL)

  ghost predicate Enabled(p: OmegaClient.Policy, s: State, step: Step) {
    match step
    case Call(id, _, _) => id !in s.upstream.inFlight
    case Upstream(u) => !u.Arrive? && BreakerInterleaving.Enabled(p, s.upstream, u)
  }

  ghost function Next(g: AuthGate.Gate, p: OmegaClient.Policy, s: State, step: Step): (State, Event)
    requires Enabled(p, s, step)
  {
    match step
    case Call(id, a, now) =>
      var (outcome, entries) := AuthGate.Admitted(g, s.entries, a);
      if outcome.Refused? then (State(entries, s.upstream), Denied(id, outcome.reason))
      else
        var (upstream, e) := BreakerInterleaving.Next(p, s.upstream, BreakerInterleaving.Arrive(id, now));
        (State(entries, upstream), Passed(e))
    case Upstream(u) =>
      var (upstream, e) := BreakerInterleaving.Next(p, s.upstream, u);
      (State(s.entries, upstream), Passed(e))
  }

  ghost predicate Runs(g: AuthGate.Gate, p: OmegaClient.Policy, s: State, steps: seq<Step>)
    decreases |steps|
  {
    steps != [] ==> Enabled(p, s, steps[0]) && Runs(g, p, Next(g, p, s, steps[0]).0, steps[1..])
  }

  ghost function Run(g: AuthGate.Gate, p: OmegaClient.Policy, s: State, steps: seq<Step>): State
    requires Runs(g, p, s, steps)
    decreases |steps|
  {
    if steps == [] then s else Run(g, p, Next(g, p, s, steps[0]).0, steps[1..])
  }

  ghost function Trace(g: AuthGate.Gate, p: OmegaClient.Policy, s: State, steps: seq<Step>): (events: seq<Event>)
    requires Runs(g, p, s, steps)
    ensures |events| == |steps|
    decreases |steps|
  {
    if steps == [] then []
    else [Next(g, p, s, steps[0]).1] + Trace(g, p, Next(g, p, s, steps[0]).0, steps[1..])
  }

  // ---------------------------------------------------------------- what gate and breaker see of a run

  // The calls of a run, in order.
  ghost function Calls(steps: seq<Step>): (calls: seq<Step>)
    ensures forall i :: 0 <= i < |calls| ==> calls[i].Call?
  {
    if steps == [] then [] else (if steps[0].Call? then [steps[0]] else []) + Calls(steps[1..])
  }

  ghost function Arrivals(steps: seq<Step>): (arrivals: seq<AuthGate.Arrival>)
    ensures |arrivals| == |Calls(steps)|
    ensures forall i :: 0 <= i < |arrivals| ==> arrivals[i] == Calls(steps)[i].arrival
  {
    if steps == [] then [] else (if steps[0].Call? then [steps[0].arrival] else []) + Arrivals(steps[1..])
  }

  // How each call fared at the gate.
  ghost function Outcomes(steps: seq<Step>, h: seq<Event>): seq<AuthGate.Outcome>
    requires |steps| == |h|
  {
    if steps == [] then []
    else (if !steps[0].Call? then []
          else [if h[0].Denied? then AuthGate.Refused(h[0].reason) else AuthGate.Accepted])
         + Outcomes(steps[1..], h[1..])
  }

  // The client's steps: an arrival for every call the gate accepts.
  ghost function UpstreamSteps(g: AuthGate.Gate, entries: seq<ReplayCache.Entry>, steps: seq<Step>)
    : seq<BreakerInterleaving.Step>
    decreases |steps|
  {
    if steps == [] then []
    else
      match steps[0]
      case Call(id, a, now) =>
        var (outcome, after) := AuthGate.Admitted(g, entries, a);
        (if outcome == AuthGate.Accepted then [BreakerInterleaving.Arrive(id, now)] else [])
        + UpstreamSteps(g, after, steps[1..])
      case Upstream(u) => [u] + UpstreamSteps(g, entries, steps[1..])
  }

  ghost function UpstreamEvents(h: seq<Event>): seq<BreakerInterleaving.Event> {
    if h == [] then [] else (if h[0].Passed? then [h[0].event] else []) + UpstreamEvents(h[1..])
  }

  /** To the gate a run is the sequence of its calls: whatever goes on upstream, each is decided as
      in AuthGate. */
  lemma {:induction false} ProjectsToGate(g: AuthGate.Gate, p: OmegaClient.Policy, s: State, steps: seq<Step>)
    requires Runs(g, p, s, steps)
    ensures Outcomes(steps, Trace(g, p, s, steps)) == AuthGate.Outcomes(g, s.entries, Arrivals(steps))
    decreases |steps|
  {
    if steps != [] {
      var (s', e) := Next(g, p, s, steps[0]);
      ProjectsToGate(g, p, s', steps[1..]);
      assert Trace(g, p, s, steps)[1..] == Trace(g, p, s', steps[1..]);
      if steps[0].Call? {
        assert Arrivals(steps)[1..] == Arrivals(steps[1..]);
      } else {
        assert Arrivals(steps) == Arrivals(steps[1..]);
      }
    }
  }

  /** To the breaker it is an interleaving of the calls the gate accepts, with the same events and
      the same state at the end; so everything proved of those holds here. */
  lemma {:induction false} ProjectsToBreaker(g: AuthGate.Gate, p: OmegaClient.Policy, s: State, steps: seq<Step>)
    requires Runs(g, p, s, steps)
    ensures var upstream := UpstreamSteps(g, s.entries, steps);
            && BreakerInterleaving.Runs(p, s.upstream, upstream)
            && BreakerInterleaving.Run(p, s.upstream, upstream) == Run(g, p, s, steps).upstream
            && BreakerInterleaving.Trace(p, s.upstream, upstream) == UpstreamEvents(Trace(g, p, s, steps))
    decreases |steps|
  {
    if steps != [] {
      var (s', e) := Next(g, p, s, steps[0]);
      ProjectsToBreaker(g, p, s', steps[1..]);
      var trace := Trace(g, p, s, steps);
      assert trace[0] == e && trace[1..] == Trace(g, p, s', steps[1..]);
      var upstream := UpstreamSteps(g, s.entries, steps);
      var rest := UpstreamSteps(g, s'.entries, steps[1..]);
      if e.Denied? {
        assert upstream == rest;
        assert UpstreamEvents(trace) == UpstreamEvents(trace[1..]);
      } else {
        assert upstream[1..] == rest;
      }
    }
  }

  // ---------------------------------------------------------------- once through the gate, bounded upstream

  // How many of the calls with this id the gate accepts.
  ghost function AcceptedAs(calls: seq<Step>, outcomes: seq<AuthGate.Outcome>, id: nat): nat
    requires |calls| == |outcomes| && forall i :: 0 <= i < |calls| ==> calls[i].Call?
  {
    if calls == [] then 0
    else (if calls[0].id == id && outcomes[0] == AuthGate.Accepted then 1 else 0)
         + AcceptedAs(calls[1..], outcomes[1..], id)
  }

  lemma {:induction false} AcceptedHead(call: Step, calls: seq<Step>, outcome: AuthGate.Outcome,
                                        outcomes: seq<AuthGate.Outcome>, id: nat)
    requires |calls| == |outcomes| && call.Call? && forall i :: 0 <= i < |calls| ==> calls[i].Call?
    ensures AcceptedAs([call] + calls, [outcome] + outcomes, id)
         == (if call.id == id && outcome == AuthGate.Accepted then 1 else 0) + AcceptedAs(calls, outcomes, id)
  {
    assert ([call] + calls)[1..] == calls && ([outcome] + outcomes)[1..] == outcomes;
  }

  lemma {:induction false} ArrivalsHead(step: BreakerInterleaving.Step, steps: seq<BreakerInterleaving.Step>, id: nat)
    ensures BreakerInterleaving.ArrivalsOf([step] + steps, id)
         == (if step.Arrive? && step.id == id then 1 else 0) + BreakerInterleaving.ArrivalsOf(steps, id)
  {
    assert ([step] + steps)[1..] == steps;
  }

  lemma {:induction false} ArrivalsAreAccepted(g: AuthGate.Gate, entries: seq<ReplayCache.Entry>, steps: seq<Step>,
                                               id: nat)
    requires forall i :: 0 <= i < |steps| && steps[i].Upstream? ==> !steps[i].step.Arrive?
    ensures BreakerInterleaving.ArrivalsOf(UpstreamSteps(g, entries, steps), id)
         == AcceptedAs(Calls(steps), AuthGate.Outcomes(g, entries, Arrivals(steps)), id)
    decreases |steps|
  {
    if steps != [] {
      var rest := steps[1..];
      match steps[0]
      case Call(_, a, now) =>
        var (outcome, after) := AuthGate.Admitted(g, entries, a);
        ArrivalsAreAccepted(g, after, rest, id);
        var upstream := UpstreamSteps(g, after, rest);
        OutcomesHead(g, entries, a, Arrivals(rest));
        AcceptedHead(steps[0], Calls(rest), outcome, AuthGate.Outcomes(g, after, Arrivals(rest)), id);
        if outcome == AuthGate.Accepted {
          ArrivalsHead(BreakerInterleaving.Arrive(steps[0].id, now), upstream, id);
        } else {
          assert [] + upstream == upstream;
        }
      case Upstream(u) =>
        ArrivalsAreAccepted(g, entries, rest, id);
        ArrivalsHead(u, UpstreamSteps(g, entries, rest), id);
        assert [] + Calls(rest) == Calls(rest) && [] + Arrivals(rest) == Arrivals(rest);
    }
  }

  lemma {:induction false} OutcomesHead(g: AuthGate.Gate, entries: seq<ReplayCache.Entry>, a: AuthGate.Arrival,
                                        arrivals: seq<AuthGate.Arrival>)
    ensures var (outcome, after) := AuthGate.Admitted(g, entries, a);
            AuthGate.Outcomes(g, entries, [a] + arrivals) == [outcome] + AuthGate.Outcomes(g, after, arrivals)
  {
    assert ([a] + arrivals)[0] == a && ([a] + arrivals)[1..] == arrivals;
  }

  // Nobody arrives upstream but through the gate.
  lemma {:induction false} OnlyThroughTheGate(g: AuthGate.Gate, p: OmegaClient.Policy, s: State, steps: seq<Step>)
    requires Runs(g, p, s, steps)
    ensures forall i :: 0 <= i < |steps| && steps[i].Upstream? ==> !steps[i].step.Arrive?
    decreases |steps|
  {
    if steps != [] {
      OnlyThroughTheGate(g, p, Next(g, p, s, steps[0]).0, steps[1..]);
      assert forall i :: 1 <= i < |steps| ==> steps[i] == steps[1..][i - 1];
    }
  }

  ghost predicate OwnIds(calls: seq<Step>)
    requires forall i :: 0 <= i < |calls| ==> calls[i].Call?
  {
    forall i, j :: 0 <= i < j < |calls| ==> calls[i].id != calls[j].id
  }

  // With an id of its own a call is accepted at most once under it.
  lemma {:induction false} AcceptedUnderOwnId(calls: seq<Step>, outcomes: seq<AuthGate.Outcome>, k: nat)
    requires |calls| == |outcomes| && forall i :: 0 <= i < |calls| ==> calls[i].Call?
    requires OwnIds(calls) && k < |calls|
    ensures AcceptedAs(calls, outcomes, calls[k].id) == if outcomes[k] == AuthGate.Accepted then 1 else 0
  {
    if k == 0 {
      NeverAcceptedAs(calls[1..], outcomes[1..], calls[0].id);
    } else {
      AcceptedUnderOwnId(calls[1..], outcomes[1..], k - 1);
    }
  }

  lemma {:induction false} NeverAcceptedAs(calls: seq<Step>, outcomes: seq<AuthGate.Outcome>, id: nat)
    requires |calls| == |outcomes| && forall i :: 0 <= i < |calls| ==> calls[i].Call?
    requires forall i :: 0 <= i < |calls| ==> calls[i].id != id
    ensures AcceptedAs(calls, outcomes, id) == 0
  {
    if calls != [] { NeverAcceptedAs(calls[1..], outcomes[1..], id); }
  }

  // The posts made for a call.
  ghost function PostsFor(g: AuthGate.Gate, p: OmegaClient.Policy, steps: seq<Step>, id: nat): nat
    requires Runs(g, p, INITIAL, steps)
  {
    BreakerInterleaving.PostsOf(UpstreamEvents(Trace(g, p, INITIAL, steps)), id)
  }

  lemma {:induction false} PostsOnlyIfAccepted(g: AuthGate.Gate, p: OmegaClient.Policy, steps: seq<Step>, k: nat)
    requires Runs(g, p, INITIAL, steps) && OwnIds(Calls(steps)) && k < |Calls(steps)|
    ensures PostsFor(g, p, steps, Calls(steps)[k].id)
         <= if AuthGate.Outcomes(g, [], Arrivals(steps))[k] == AuthGate.Accepted then p.retryCount + 1 else 0
  {
    var id := Calls(steps)[k].id;
    ProjectsToBreaker(g, p, INITIAL, steps);
    OnlyThroughTheGate(g, p, INITIAL, steps);
    ArrivalsAreAccepted(g, [], steps, id);
    AcceptedUnderOwnId(Calls(steps), AuthGate.Outcomes(g, [], Arrivals(steps)), k);
    BreakerInterleaving.PostsPerArrival(p, BreakerInterleaving.INITIAL, UpstreamSteps(g, [], steps), id);
  }

  // The conditions for at most once, on the calls of an interleaving.
  ghost predicate RepeatedInTime(g: AuthGate.Gate, p: OmegaClient.Policy, gap: real, start: real, steps: seq<Step>,
                                 i: nat, j: nat)
    requires Runs(g, p, INITIAL, steps)
  {
    && 0.0 <= start && AuthGate.ClockRuns(start, Arrivals(steps))
    && AuthGate.Repeats(Arrivals(steps), gap, i, j)
    && AuthGate.AcceptedBetween(AuthGate.Outcomes(g, [], Arrivals(steps)), i + 1, j) < g.maxEntries
  }

  lemma {:induction false} NotBothAccepted(g: AuthGate.Gate, p: OmegaClient.Policy, gap: real, start: real,
                                           steps: seq<Step>, i: nat, j: nat)
    requires g.config.requireHmac && g.ttlSec as real >= AuthGate.Retention(g.config, gap)
    requires Runs(g, p, INITIAL, steps) && RepeatedInTime(g, p, gap, start, steps, i, j)
    ensures AuthGate.Outcomes(g, [], Arrivals(steps))[i] == AuthGate.Accepted ==>
              AuthGate.Outcomes(g, [], Arrivals(steps))[j] != AuthGate.Accepted
  {
    if AuthGate.Outcomes(g, [], Arrivals(steps))[i] == AuthGate.Accepted {
      AuthGate.AcceptedAtMostOnce(g, gap, start, Arrivals(steps), i, j);
    }
  }

  /** End to end: however calls interleave, two of them with the same tenant, API key, nonce and
      timestamp cause at most `retryCount + 1` posts to the upstream between them, under the
      conditions for at most once. */
  lemma {:induction false} CredentialsReachUpstreamOnce(g: AuthGate.Gate, p: OmegaClient.Policy, gap: real, start: real,
                                                        steps: seq<Step>, i: nat, j: nat)
    requires g.config.requireHmac && g.ttlSec as real >= AuthGate.Retention(g.config, gap)
    requires Runs(g, p, INITIAL, steps) && OwnIds(Calls(steps)) && RepeatedInTime(g, p, gap, start, steps, i, j)
    ensures PostsFor(g, p, steps, Calls(steps)[i].id) + PostsFor(g, p, steps, Calls(steps)[j].id) <= p.retryCount + 1
  {
    PostsOnlyIfAccepted(g, p, steps, i);
    PostsOnlyIfAccepted(g, p, steps, j);
    NotBothAccepted(g, p, gap, start, steps, i, j);
  }
}
