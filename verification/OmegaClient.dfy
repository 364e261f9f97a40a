/** The upstream client of connector/omega_client.py: a retry loop behind a circuit breaker.

    One attempt's outcome is an input, and so is every clock reading. */
module OmegaClient {
  import opened Json

  datatype Attempt =
    | Answered(body: Json)          // below 400, with a JSON body
    | BadBody                       // below 400, body not JSON
    | Denied(status: int, detailCode: string)  // 400 to 499
    | ServerFailed                  // 500 and above
    | TimedOut
    | NotConnected                  // connection, network and protocol errors
    | OtherError

  datatype Result =
    | Data(body: Json)
    | CircuitOpen
    | Rejected(status: int, detailCode: string)
    | Timeout
    | Unavailable
    | ClientError

  datatype Policy = Policy(retryCount: nat, breakerFails: nat, resetSec: nat) {
    predicate Valid() {
      breakerFails >= 1 && resetSec >= 1
    }
  }

  /** What the constructor makes of its arguments. */
  function MakePolicy(retryCount: int, breakerFails: int, resetSec: int): (p: Policy)
    ensures p.Valid()
    ensures retryCount >= 0 ==> p.retryCount == retryCount
    ensures breakerFails >= 1 ==> p.breakerFails == breakerFails
    ensures resetSec >= 1 ==> p.resetSec == resetSec
    ensures (retryCount < 0 ==> p.retryCount == 0) && (breakerFails < 1 ==> p.breakerFails == 1)
    ensures resetSec < 1 ==> p.resetSec == 1
  {
    Policy(if retryCount > 0 then retryCount else 0,
           if breakerFails > 1 then breakerFails else 1,
           if resetSec > 1 then resetSec else 1)
  }

  datatype Circuit = Circuit(failureCount: nat, openedUntil: real)

  const CLOSED := Circuit(0, 0.0)

  predicate Admits(c: Circuit, now: real) {
    c.openedUntil <= now
  }

  function AfterFailure(p: Policy, c: Circuit, now: real): Circuit {
    var count := c.failureCount + 1;
    Circuit(count, if count >= p.breakerFails then now + p.resetSec as real else c.openedUntil)
  }

  // ---------------------------------------------------------------- the rule for one request

  /** An outcome after which no further attempt is made. */
  predicate Decisive(a: Attempt) {
    a.Answered? || a.Denied?
  }

  function Decision(a: Attempt): Result
    requires Decisive(a)
  {
    match a
    case Answered(body) => Data(body)
    case Denied(status, code) => Rejected(status, code)
  }

  // What the caller is told when an undecided outcome was the last one.
  function ErrorOf(a: Attempt): Result
    requires !Decisive(a)
  {
    match a
    case TimedOut => Timeout
    case NotConnected => Unavailable
    case ServerFailed => Unavailable
    case BadBody => ClientError
    case OtherError => ClientError
  }

  // The first decisive outcome is number d.
  ghost predicate DecidedAt(outcomes: nat -> Attempt, d: nat) {
    Decisive(outcomes(d)) && forall e: nat :: e < d ==> !Decisive(outcomes(e))
  }

  ghost predicate Undecided(outcomes: nat -> Attempt, attempts: nat) {
    forall e: nat :: e < attempts ==> !Decisive(outcomes(e))
  }

  /** What the caller gets when an outcome was the last one: data or the rejection, and otherwise
      the kind of failure. */
  ghost predicate Told(a: Attempt, result: Result) {
    && (a.Answered? <==> result.Data?)
    && (a.Answered? ==> result.body == a.body)
    && (a.Denied? <==> result.Rejected?)
    && (a.Denied? ==> result.status == a.status && result.detailCode == a.detailCode)
    && (a.TimedOut? <==> result.Timeout?)
    && (a.ServerFailed? || a.NotConnected? <==> result.Unavailable?)
    && (a.BadBody? || a.OtherError? <==> result.ClientError?)
  }

  /** The rule for a finished request: no outcome but the last was an answer or a rejection; the
      last one is, or is the last attempt allowed; and it is what the caller is told. */
  ghost predicate Follows(p: Policy, outcomes: seq<Attempt>, result: Result) {
    && 0 < |outcomes| <= p.retryCount + 1
    && (forall i :: 0 <= i < |outcomes| - 1 ==> !outcomes[i].Answered? && !outcomes[i].Denied?)
    && var last := outcomes[|outcomes| - 1];
       (last.Answered? || last.Denied? || |outcomes| == p.retryCount + 1) && Told(last, result)
  }

  /** What one request comes to: turned away, decided by its first decisive outcome, or failed by
      its last one. */
  ghost predicate Settles(p: Policy, admitted: bool, outcomes: nat -> Attempt, result: Result) {
    if !admitted then result == CircuitOpen
    else
      && (forall d: nat :: d <= p.retryCount && DecidedAt(outcomes, d) ==> result == Decision(outcomes(d)))
      && (Undecided(outcomes, p.retryCount + 1) ==> result == ErrorOf(outcomes(p.retryCount)))
  }

  class OmegaClient {
    const policy: Policy
    var failureCount: nat
    var openedUntil: real

    constructor (retryCount: int, breakerFails: int, resetSec: int)
      ensures policy == MakePolicy(retryCount, breakerFails, resetSec)
      ensures State() == CLOSED
    {
      policy := MakePolicy(retryCount, breakerFails, resetSec);
      failureCount := 0;
      openedUntil := 0.0;
    }

    ghost function State(): Circuit
      reads this
    {
      Circuit(failureCount, openedUntil)
    }

    method CanAttempt(now: real) returns (ok: bool)
      ensures ok == Admits(State(), now)
    {
      return openedUntil <= now;
    }

    method RecordFailure(now: real)
      modifies this
      ensures State() == AfterFailure(policy, old(State()), now)
    {
      failureCount := failureCount + 1;
      if failureCount >= policy.breakerFails {
        openedUntil := now + policy.resetSec as real;
      }
    }

    method RecordSuccess()
      modifies this
      ensures State() == CLOSED
    {
      failureCount := 0;
      openedUntil := 0.0;
    }

    /** One request with nothing else running.  The first decisive outcome among the first
        `retryCount + 1` determines the result and no later one is asked for; without one, the
        last outcome names the error and exactly one failure is recorded. */
    method ScanAttachment(outcomes: nat -> Attempt, admitNow: real, recordNow: real) returns (result: Result,
                          posts: nat)
      modifies this
      ensures !Admits(old(State()), admitNow) ==> result == CircuitOpen && posts == 0 && State() == old(State())
      ensures forall d: nat :: Admits(old(State()), admitNow) && d <= policy.retryCount && DecidedAt(outcomes, d) ==>
                && result == Decision(outcomes(d))
                && posts == d + 1
                && State() == if outcomes(d).Answered? then CLOSED else old(State())
      ensures Admits(old(State()), admitNow) && Undecided(outcomes, policy.retryCount + 1) ==>
                && result == ErrorOf(outcomes(policy.retryCount))
                && posts == policy.retryCount + 1
                && State() == AfterFailure(policy, old(State()), recordNow)
      ensures Settles(policy, Admits(old(State()), admitNow), outcomes, result)
      ensures if admitNow < old(openedUntil) then result == CircuitOpen && posts == 0
              else Follows(policy, seq(posts, i requires 0 <= i < posts => outcomes(i)), result)
      ensures posts <= policy.retryCount + 1
      ensures result.Data? ==>
                && Admits(old(State()), admitNow)
                && posts > 0 && DecidedAt(outcomes, posts - 1) && outcomes(posts - 1) == Answered(result.body)
    {
      posts := 0;
      var admitted := CanAttempt(admitNow);
      if !admitted {
        return CircuitOpen, 0;
      }
      var lastError := ClientError;
      for i := 0 to policy.retryCount + 1
        invariant posts == i
        invariant State() == old(State())
        invariant Undecided(outcomes, i)
        invariant i > 0 ==> lastError == ErrorOf(outcomes(i - 1))
      {
        var outcome := outcomes(i);
        posts := posts + 1;
        match outcome {
          case Answered(body) =>
            RecordSuccess();
            return Data(body), posts;
          case Denied(status, code) =>
            return Rejected(status, code), posts;
          case TimedOut => lastError := Timeout;
          case NotConnected => lastError := Unavailable;
          case ServerFailed => lastError := Unavailable;
          case BadBody => lastError := ClientError;
          case OtherError => lastError := ClientError;
        }
      }
      RecordFailure(recordNow);
      return lastError, posts;
    }
  }
}
