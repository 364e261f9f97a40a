/** The two clients that sign requests, upstream_patches/sgraph/connector_client.py and
    scripts/signature_helper.py, against the gate that verifies them. */
module SigningClient {
  import opened Common
  import opened PyText
  import opened Canonical
  import opened ReplayCache
  import opened AuthGate
  import Decimal

  datatype ClientConfig = ClientConfig(path: string, apiKey: string, hmacSecret: string)

  // What a client sends: a payload, the bytes it is written as, and the time and nonce it draws.
  datatype Message = Message(payload: Payload, body: Bytes, sentAt: real, nonce: string)

  /** `str(int(time.time()))` */
  function TimestampText(now: real): string
    requires now >= 0.0
  {
    Decimal.Text(Decimal.Digits(Truncate(now)))
  }

  // `str(payload.get("request_id") or "")`
  function SignedId(m: Message): string {
    m.payload.requestId.GetOr("")
  }

  // The fields of a message with some request id; the method is always POST.
  function FieldsWith(p: Primitives, c: ClientConfig, m: Message, requestId: string): Fields
    requires m.sentAt >= 0.0
  {
    Fields("POST", c.path, p.sha256Hex(m.body), m.payload.tenantId, requestId, TimestampText(m.sentAt), m.nonce)
  }

  /** `_canonical` of the SGraph client: every field is stripped except the hash, which is a digest. */
  function ClientCanonical(p: Primitives, f: Fields): string {
    JoinLines([Strip(p.upper(f.verb)), Strip(f.path), f.bodyHash, Strip(f.tenantId),
               Strip(f.requestId), Strip(f.timestamp), Strip(f.nonce)])
  }

  function RequestSigning(p: Primitives, c: ClientConfig, m: Message, canonical: string): Request
    requires m.sentAt >= 0.0
  {
    Request("POST", c.path,
            Headers(Some(Sign(p, canonical, c.hmacSecret)), Some(TimestampText(m.sentAt)), Some(m.nonce)), m.body)
  }

  /** `_sign_headers` of the SGraph client, sent with the body. */
  function ClientRequest(p: Primitives, c: ClientConfig, m: Message): Request
    requires m.sentAt >= 0.0
  {
    RequestSigning(p, c, m, ClientCanonical(p, FieldsWith(p, c, m, SignedId(m))))
  }

  /** `build_headers` of the signature helper, sent with the body. */
  function HelperRequest(p: Primitives, c: ClientConfig, m: Message): Request
    requires m.sentAt >= 0.0
  {
    RequestSigning(p, c, m, BuildUnstripped(p, FieldsWith(p, c, m, SignedId(m))))
  }

  /** What the handler of connector/app.py passes to the gate: the payload read from the body, a
      missing or empty request id replaced by a fresh one. */
  function Received(parse: Bytes -> Option<Payload>, body: Bytes, freshId: string): Option<Payload> {
    match parse(body)
    case None => None
    case Some(payload) =>
      Some(if payload.requestId.GetOr("") == "" then payload.(requestId := Some(freshId)) else payload)
  }

  // The request id the gate verifies.
  function VerifiedId(m: Message, freshId: string): string {
    if SignedId(m) == "" then freshId else SignedId(m)
  }

  // What is assumed of the library: digests are 32 bytes, hex digests have no whitespace at the
  // ends, POST is upper case, and `int` reads back the numeral of the client's timestamp.
  ghost predicate Library(p: Primitives, now: real)
    requires now >= 0.0
  {
    && (forall k, m :: |p.hmacSha256(k, m)| == 32)
    && (forall b :: Trimmed(p.sha256Hex(b)))
    && p.upper("POST") == "POST"
    && p.parseInt(TimestampText(now)) == Some(Truncate(now))
  }

  /** A message on its way: the body is read back as its payload, gate and client share a secret,
      and it arrives within the skew. */
  ghost predicate Reaches(g: Gate, c: ClientConfig, parse: Bytes -> Option<Payload>, m: Message, authNow: real) {
    && m.sentAt >= 0.0 && Library(g.p, m.sentAt) && Strip(m.nonce) != ""
    && parse(m.body) == Some(m.payload)
    && g.config.requireHmac && c.hmacSecret != "" && g.config.hmacSecret == c.hmacSecret
    && Abs(Truncate(authNow) - Truncate(m.sentAt)) <= g.config.maxClockSkewSec
  }

  // The server's string for the message and the signed one have different digests if they differ;
  // nothing is assumed where they are the same string.
  ghost predicate Distinguished(p: Primitives, c: ClientConfig, m: Message, freshId: string, signed: string)
    requires m.sentAt >= 0.0
  {
    NoCollision(p, c.hmacSecret, BuildCanonical(p, FieldsWith(p, c, m, VerifiedId(m, freshId))), signed)
  }

  lemma TimestampIsTrimmed(now: real)
    requires now >= 0.0
    ensures Trimmed(TimestampText(now)) && TimestampText(now) != ""
  {
  }

  /** The timestamp sent is the numeral of the whole seconds of the clock. */
  lemma TimestampDenotes(now: real)
    requires now >= 0.0
    ensures var t := TimestampText(now);
            && (forall i :: 0 <= i < |t| ==> '0' <= t[i] <= '9')
            && Decimal.ParseAscii(seq(|t|, i requires 0 <= i < |t| => if '0' <= t[i] <= '9' then t[i] as int else 0))
            == Some(now.Floor)
  {
    var ds := Decimal.Digits(Truncate(now));
    var t := TimestampText(now);
    Decimal.TextIsAscii(ds);
    Decimal.ParsePrint(Truncate(now));
    assert seq(|t|, i requires 0 <= i < |t| => if '0' <= t[i] <= '9' then t[i] as int else 0) == Decimal.Ascii(ds);
    assert Truncate(now) == now.Floor;
  }

  // The server canonicalises what it received from the client's fields.
  lemma ServerCanonical(p: Primitives, c: ClientConfig, m: Message, signed: string, requestId: string)
    requires m.sentAt >= 0.0
    ensures var payload := m.payload.(requestId := Some(requestId));
            BuildCanonical(p, SignedFields(p, RequestSigning(p, c, m, signed), payload)) ==
              BuildCanonical(p, FieldsWith(p, c, m, requestId))
  {
    StripKeeps(m.nonce);
    StripKeeps(TimestampText(m.sentAt));
  }

  // The digest is trimmed already.
  lemma ClientSignsServerString(p: Primitives, f: Fields)
    requires Trimmed(f.bodyHash)
    ensures ClientCanonical(p, f) == BuildCanonical(p, f)
  {
    StripKeeps(f.bodyHash);
  }

  // Everything before the signature check passes; then the signed string decides.
  lemma OnlySignatureDecides(g: Gate, c: ClientConfig, parse: Bytes -> Option<Payload>, m: Message, signed: string,
                             freshId: string, authNow: real)
    requires Reaches(g, c, parse, m, authNow) && Distinguished(g.p, c, m, freshId, signed)
    ensures var payload := Received(parse, m.body, freshId).value;
            BeforeReplay(g.p, g.config, RequestSigning(g.p, c, m, signed), payload, authNow) ==
              if BuildCanonical(g.p, FieldsWith(g.p, c, m, VerifiedId(m, freshId))) == signed
              then None else Some(SignatureMismatch)
  {
    var id := VerifiedId(m, freshId);
    assert Received(parse, m.body, freshId).value == m.payload.(requestId := Some(id));
    ServerCanonical(g.p, c, m, signed, id);
    SignaturesAgreeIff(g.p, BuildCanonical(g.p, FieldsWith(g.p, c, m, id)), signed, c.hmacSecret);
    SignatureIsTrimmed(g.p, signed, c.hmacSecret);
    SignatureIsAscii(g.p, signed, c.hmacSecret);
    TimestampIsTrimmed(m.sentAt);
    StripKeeps(TimestampText(m.sentAt));
  }

  /** A message signed by the SGraph client and arriving in time passes every check before the
      replay cache iff its payload has a request id.  The interface document lets the client sign
      the empty id for an absent one; the gate verifies the generated id instead, and refuses. */
  lemma ClientRequestPassesIff(g: Gate, c: ClientConfig, parse: Bytes -> Option<Payload>, m: Message, freshId: string,
                               authNow: real)
    requires Reaches(g, c, parse, m, authNow) && Strip(freshId) != ""
    requires Distinguished(g.p, c, m, freshId, ClientCanonical(g.p, FieldsWith(g.p, c, m, SignedId(m))))
    ensures BeforeReplay(g.p, g.config, ClientRequest(g.p, c, m), Received(parse, m.body, freshId).value, authNow)
         == if SignedId(m) != "" then None else Some(SignatureMismatch)
  {
    var f := FieldsWith(g.p, c, m, SignedId(m));
    ClientSignsServerString(g.p, f);
    OnlySignatureDecides(g, c, parse, m, ClientCanonical(g.p, f), freshId, authNow);
    if SignedId(m) == "" {
      EmptyIdIsNoticed(g.p, f, freshId);
    }
  }

  /** The gate's answer to the SGraph client: refused without a request id, a replay if the nonce
      is in the cleaned cache, and accepted otherwise. */
  lemma ClientRequestAccepted(g: Gate, c: ClientConfig, parse: Bytes -> Option<Payload>, m: Message, freshId: string,
                              entries: seq<Entry>, authNow: real, cacheNow: real)
    requires Reaches(g, c, parse, m, authNow) && Strip(freshId) != ""
    requires Distinguished(g.p, c, m, freshId, ClientCanonical(g.p, FieldsWith(g.p, c, m, SignedId(m))))
    ensures var payload := Received(parse, m.body, freshId).value;
            var a := Arrival(ClientRequest(g.p, c, m), payload, c.apiKey, authNow, cacheNow);
            var key := ReplayKey(g.p, m.payload.tenantId, c.apiKey, Strip(m.nonce));
            Admitted(g, entries, a).0 ==
              if SignedId(m) == "" then Refused(SignatureMismatch)
              else if HasKey(Cleaned(entries, g.maxEntries, cacheNow), key) then Refused(ReplayDetected)
              else Accepted
  {
    ClientRequestPassesIff(g, c, parse, m, freshId, authNow);
  }

  /** So what the interface document says of an absent request id does not hold: such a message,
      signed as it says, is refused and leaves the replay cache as it was. */
  lemma AbsentRequestIdRefused(g: Gate, c: ClientConfig, parse: Bytes -> Option<Payload>, m: Message, freshId: string,
                               entries: seq<Entry>, authNow: real, cacheNow: real)
    requires Reaches(g, c, parse, m, authNow) && Strip(freshId) != "" && SignedId(m) == ""
    requires Distinguished(g.p, c, m, freshId, ClientCanonical(g.p, FieldsWith(g.p, c, m, "")))
    ensures var payload := Received(parse, m.body, freshId).value;
            var a := Arrival(ClientRequest(g.p, c, m), payload, c.apiKey, authNow, cacheNow);
            Admitted(g, entries, a) == (Refused(SignatureMismatch), entries)
  {
    ClientRequestPassesIff(g, c, parse, m, freshId, authNow);
  }

  /** The helper's message passes iff its payload has a request id and no field it signs has
      whitespace at an end. */
  lemma HelperRequestPassesIff(g: Gate, c: ClientConfig, parse: Bytes -> Option<Payload>, m: Message, freshId: string,
                               authNow: real)
    requires Reaches(g, c, parse, m, authNow) && Strip(freshId) != ""
    requires Distinguished(g.p, c, m, freshId, BuildUnstripped(g.p, FieldsWith(g.p, c, m, SignedId(m))))
    ensures var payload := Received(parse, m.body, freshId).value;
            BeforeReplay(g.p, g.config, HelperRequest(g.p, c, m), payload, authNow) == None <==>
              && SignedId(m) != ""
              && Trimmed(c.path) && Trimmed(m.payload.tenantId) && Trimmed(SignedId(m)) && Trimmed(m.nonce)
  {
    var f := FieldsWith(g.p, c, m, SignedId(m));
    OnlySignatureDecides(g, c, parse, m, BuildUnstripped(g.p, f), freshId, authNow);
    UnstrippedAgreesIff(g.p, f);
    TimestampIsTrimmed(m.sentAt);
    if SignedId(m) == "" {
      EmptyIdIsNoticed(g.p, f, freshId);
    }
  }

  /** What the client signs is a request the retention time is about: with one such message, at
      most once holds of a gate iff the retention time is met. */
  lemma RetentionIsExactForClients(g: Gate, gap: real, c: ClientConfig, parse: Bytes -> Option<Payload>, m: Message)
    requires Reaches(g, c, parse, m, m.sentAt) && SignedId(m) != ""
    requires Truncate(m.sentAt) >= g.config.maxClockSkewSec >= 0 && g.maxEntries >= 1 && gap >= 0.0
    ensures NeverTwice(g, gap) <==> g.ttlSec as real >= Retention(g.config, gap)
  {
    var f := FieldsWith(g.p, c, m, SignedId(m));
    var signed := ClientCanonical(g.p, f);
    ClientSignsServerString(g.p, f);
    ServerCanonical(g.p, c, m, signed, SignedId(m));
    SignatureIsTrimmed(g.p, signed, c.hmacSecret);
    TimestampIsTrimmed(m.sentAt);
    StripKeeps(TimestampText(m.sentAt));
    assert m.payload.(requestId := Some(SignedId(m))) == m.payload;
    RetentionIsExact(g, gap, ClientRequest(g.p, c, m), m.payload, Truncate(m.sentAt));
  }

  // ---------------------------------------------------------------- the assumptions can be met

  // A library that tells strings apart by their length alone.
  function ByLength(now: real): Primitives {
    Primitives(s => seq(|s|, i requires 0 <= i < |s| => s[i] as int % 256),
               _ => "0",
               (_, m) => seq(32, i => if i == 0 then |m| % 256 else 0),
               s => s,
               _ => Some(Truncate(now)))
  }

  lemma ByLengthIsLibrary(now: real)
    requires now >= 0.0
    ensures Library(ByLength(now), now)
  {
  }

  // Strings whose lengths differ, and by less than 256, have different digests.
  ghost predicate SeparatesLengths(p: Primitives, secret: string) {
    forall a: string, b: string :: |a| < |b| < |a| + 256 ==> NoCollision(p, secret, b, a)
  }

  lemma ByLengthSeparates(now: real, secret: string)
    ensures SeparatesLengths(ByLength(now), secret)
  {
    var p := ByLength(now);
    forall a: string, b: string | |a| < |b| < |a| + 256 ensures NoCollision(p, secret, b, a) {
      assert |p.utf8(a)| == |a| && |p.utf8(b)| == |b|;
      assert p.hmacSha256(p.utf8(secret), p.utf8(a))[0] == |a| % 256;
      assert p.hmacSha256(p.utf8(secret), p.utf8(b))[0] == |b| % 256;
    }
  }

  lemma SomeLibrary(now: real, secret: string) returns (p: Primitives)
    requires now >= 0.0
    ensures Library(p, now) && SeparatesLengths(p, secret)
  {
    p := ByLength(now);
    ByLengthIsLibrary(now);
    ByLengthSeparates(now, secret);
  }

  /** The hypotheses above hold together, for a message with or without a request id. */
  lemma AssumptionsAreMet(c: ClientConfig, m: Message, config: AuthConfig) returns (g: Gate)
    requires m.sentAt >= 0.0 && Strip(m.nonce) != "" && SignedId(m) in {"", "x"}
    requires config.requireHmac && config.hmacSecret == c.hmacSecret != "" && config.maxClockSkewSec >= 0
    requires Trimmed(c.path) && Trimmed(m.nonce) && Trimmed(m.payload.tenantId)
    ensures g.config == config && Reaches(g, c, _ => Some(m.payload), m, m.sentAt)
    ensures var f := FieldsWith(g.p, c, m, SignedId(m));
            && Distinguished(g.p, c, m, "x", ClientCanonical(g.p, f))
            && Distinguished(g.p, c, m, "x", BuildUnstripped(g.p, f))
  {
    var p := SomeLibrary(m.sentAt, c.hmacSecret);
    g := Gate(p, config, 600, 100_000);
    LengthsDiffer(p, c, m);
  }

  lemma LengthsDiffer(p: Primitives, c: ClientConfig, m: Message)
    requires m.sentAt >= 0.0 && SignedId(m) in {"", "x"} && Library(p, m.sentAt) && SeparatesLengths(p, c.hmacSecret)
    requires Trimmed(c.path) && Trimmed(m.nonce) && Trimmed(m.payload.tenantId)
    ensures var f := FieldsWith(p, c, m, SignedId(m));
            && Distinguished(p, c, m, "x", ClientCanonical(p, f))
            && Distinguished(p, c, m, "x", BuildUnstripped(p, f))
  {
    TrimmedLength(p, c, m, SignedId(m));
    TrimmedLength(p, c, m, "x");
    var signed := BuildCanonical(p, FieldsWith(p, c, m, SignedId(m)));
    var verified := BuildCanonical(p, FieldsWith(p, c, m, "x"));
    assert SignedId(m) == "" ==> |verified| == |signed| + 1;
  }

  // The signers agree on trimmed fields, and the request id is all that varies in the length.
  lemma TrimmedLength(p: Primitives, c: ClientConfig, m: Message, requestId: string)
    requires m.sentAt >= 0.0 && Library(p, m.sentAt)
    requires Trimmed(c.path) && Trimmed(m.nonce) && Trimmed(m.payload.tenantId) && Trimmed(requestId)
    ensures var f := FieldsWith(p, c, m, requestId);
            && ClientCanonical(p, f) == BuildCanonical(p, f) == BuildUnstripped(p, f)
            && |BuildUnstripped(p, f)| == |"POST"| + |c.path| + |p.sha256Hex(m.body)| + |m.payload.tenantId|
                                          + |requestId| + |TimestampText(m.sentAt)| + |m.nonce| + 6
  {
    var f := FieldsWith(p, c, m, requestId);
    TimestampIsTrimmed(m.sentAt);
    ClientSignsServerString(p, f);
    UnstrippedAgreesIff(p, f);
    JoinLength(Parts(p, f));
  }
}
