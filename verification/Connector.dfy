/** The scan endpoint of connector/app.py from request to reply: parsing, the gate, the upstream
    client and the normalised or fallback response, over the state they share. */
module Connector {
  import opened Common
  import AuthGate
  import OmegaClient
  import ScanHandler
  import SigningClient

  datatype Reply =
    | BadRequest
    | Denied(reason: AuthGate.Refusal)
    | Answer(response: ScanHandler.Response)

  // The inputs of one call that come from outside: clock readings, fresh ids and the upstream.
  datatype World = World(
    authNow: real, cacheNow: real, admitNow: real, recordNow: real,
    freshId: string, freshEvidence: string, upstream: nat -> OmegaClient.Attempt)

  class ConnectorRuntime {
    const lib: ScanHandler.Library
    const parse: Bytes -> Option<AuthGate.Payload>
    const failMode: string
    const auth: AuthGate.AuthValidator
    const omega: OmegaClient.OmegaClient

    constructor (lib: ScanHandler.Library, parse: Bytes -> Option<AuthGate.Payload>, failMode: string,
                 auth: AuthGate.AuthValidator, omega: OmegaClient.OmegaClient)
      ensures this.lib == lib && this.parse == parse && this.failMode == failMode
      ensures this.auth == auth && this.omega == omega
    {
      this.lib := lib;
      this.parse := parse;
      this.failMode := failMode;
      this.auth := auth;
      this.omega := omega;
    }

    // The response is the one to what the upstream's outcomes come to.
    ghost predicate Answers(admitted: bool, payload: AuthGate.Payload, w: World, response: ScanHandler.Response) {
      exists result ::
        && OmegaClient.Settles(omega.policy, admitted, w.upstream, result)
        && response == ScanHandler.Respond(lib, result, payload, failMode, w.freshId, w.freshEvidence)
    }

    /** One call, with nothing else running while it awaits the upstream.  It is answered iff its
        payload parses and the gate accepts it; an answer is the response to what the upstream's
        outcomes come to, and always meets the contract; a call that
        is not answered neither reaches the upstream nor moves the breaker, and no nonce is
        remembered for it. */
    method ScanAttachment(request: AuthGate.Request, apiKey: string, w: World) returns (reply: Reply, posts: nat)
      requires auth.replayCache.Valid()
      requires ScanHandler.PlainRepr(lib) && w.freshId != "" && w.freshEvidence != ""
      requires forall body :: parse(body).Some? ==> parse(body).value.tenantId != ""
      modifies auth.replayCache, omega
      ensures auth.replayCache.Valid()
      ensures reply == BadRequest <==> parse(request.body).None?
      ensures reply.Answer? ==> ScanHandler.ContractValid(reply.response) && posts <= omega.policy.retryCount + 1
      ensures !reply.Answer? ==>
                posts == 0 && unchanged(omega) && auth.replayCache.history == old(auth.replayCache.history)
      ensures parse(request.body).Some? ==>
                var payload := SigningClient.Received(parse, request.body, w.freshId).value;
                var a := AuthGate.Arrival(request, payload, apiKey, w.authNow, w.cacheNow);
                var (outcome, entries) := AuthGate.Admitted(auth.AsGate(), old(auth.replayCache.entries), a);
                && auth.replayCache.entries == entries
                && (reply.Answer? <==> outcome == AuthGate.Accepted)
                && (reply.Denied? ==> outcome == AuthGate.Refused(reply.reason))
      ensures reply.Answer? ==>
                var payload := SigningClient.Received(parse, request.body, w.freshId).value;
                Answers(OmegaClient.Admits(old(omega.State()), w.admitNow), payload, w, reply.response)
      ensures reply.Answer? && reply.response.verdict == "allow" && failMode != "allow" ==>
                OmegaClient.Admits(old(omega.State()), w.admitNow)
                && posts > 0 && OmegaClient.DecidedAt(w.upstream, posts - 1) && w.upstream(posts - 1).Answered?
    {
      posts := 0;
      var received := SigningClient.Received(parse, request.body, w.freshId);
      if received.None? {
        return BadRequest, 0;
      }
      var payload := received.value;
      var outcome := auth.ValidateHmac(request, payload, apiKey, w.authNow, w.cacheNow);
      if outcome.Refused? {
        return Denied(outcome.reason), 0;
      }
      var result;
      result, posts := omega.ScanAttachment(w.upstream, w.admitNow, w.recordNow);
      var response := ScanHandler.Respond(lib, result, payload, failMode, w.freshId, w.freshEvidence);
      ScanHandler.ResponseFacts(lib, result, payload, failMode, w.freshId, w.freshEvidence, response);
      return Answer(response), posts;
    }
  }
}
