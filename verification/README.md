# SGraph-Omega connector: model and proofs

The connector sits between the SGraph file-sharing flow and the Omega scanner. It admits signed
scan requests, forwards them through a circuit breaker, and answers with a response that meets its
contract. The proofs here cover its two stateful parts, the protocol that joins them, the byte
formats around them, and the report that qualifies a deployment.

**Replay protection.** `ReplayCache` is the bounded, expiring nonce cache, a class over the items of
a Python dict in insertion order, with a ghost history of every key ever accepted. While the clock
does not step back, the cache answers exactly as the full history would. `AuthGate` puts the header
checks, the skew window and the signature in front of it. An accepted request and a later one with
the same tenant, API key, nonce and timestamp are never both accepted if nonces are kept for twice
the skew, plus one second that `int(time.time())` truncates away, plus the delay between the two
clock readings of one call; and that retention time is exact. The shipped defaults (600 seconds for
a skew of 300) are at least one second short of it. The signature does not cover the API key while
the replay key does, so one signature passes once for each API key it is presented with, and no more.
The replay key joins tenant, key digest and nonce by bars without escaping them; which triples share
a key is stated exactly.

**Signing.** `PyText`, `Canonical` and `Base64Url` are the signed string and the signature's
encoding. `SigningClient` sets the SGraph client and the command-line helper against the gate.
Section 5 of docs/CONTRACT.md (line 76) says that an absent `request_id` is signed as the empty
string. The code (connector/app.py:189-198) replaces it by a fresh id before verification, so such a
request is refused; the model follows the code, and a client's request passes exactly if its payload
has a request id. Where a lemma needs hashing to be free of collisions, it assumes so of the few
strings it compares and of no others; `SigningClient.AssumptionsAreMet` shows the assumptions
consistent.

**Circuit breaker.** `OmegaClient` is the retry loop and breaker of one client, as a class.
`BreakerInterleaving` cuts its requests at their awaits and lets any number of them interleave over
one breaker, cancellation included. Under every interleaving the breaker's state has a closed form
in its history, traffic is bounded while it is open, and so is the load on a failing upstream.

**The scan endpoint.** `ScanHandler` turns every upstream answer or failure into a response, and
`Connector` composes parsing, gate, client and response over the shared state, for one call at a
time. `EndpointInterleaving` lets any number of calls interleave over one replay cache and one
breaker: such a run projects to a run of the gate and to an interleaving of the client, and a
repeated request never adds to the posts the first one may make.

**Byte formats.** `Sgmeta` is the metadata frame of an uploaded file, inside its IV frame. `PdfText`
and `PdfFile` are the PDF writer, `PdfReader` a reader that follows the file's own pointers from its
end to the text a page shows (ISO 32000-1, sections 7.3.4.2, 7.3.8, 7.5 and 7.7), with `Decimal` for
the numerals.

**Qualification report.** `Percentiles` is the interpolated percentile; `Qualification` is the
sampling loop, its counters, and the GO decision.

Clock readings, fresh identifiers and upstream outcomes are inputs everywhere. SHA-256, HMAC,
AES-GCM, UTF-8, JSON text, `int()` on strings and `str.upper()` are uninterpreted functions; a lemma
that needs a fact about one of them states it as a hypothesis.

## Model

| member | source | states |
|---|---|---|
| ReplayCache.NonceReplayCache.constructor | connector/security.py:46-52 | a new cache is empty and stands for the empty history |
| ReplayCache.NonceReplayCache.Cleanup | connector/security.py:54-63 | the two popping loops leave exactly the live items minus the earliest to expire |
| ReplayCache.NonceReplayCache.PopKeys | connector/security.py:56-57 | popping a list of keys, repeats and absent ones included, removes exactly those keys and keeps the order of the rest |
| ReplayCache.NonceReplayCache.CheckAndMark | connector/security.py:65-71 | the new cache and history; while the clock does not step back, True exactly when the full history does not remember the key |
| ReplayCache.SortIsStable | connector/security.py:60 | sorting by expiry sorts and keeps the items of each expiry in insertion order |
| ReplayCache.CleanedTracks | connector/security.py:54-63 | cleaning keeps the cache equal to the tail of the history that is still remembered, no more and no less |
| ReplayCache.CheckedFollowsHistory | connector/security.py:65-71 | one check answers as the history does and keeps the cache tracking it |
| ReplayCache.AnswersFromHistory | connector/security.py:54-71 | over any run with a clock that does not step back, the bounded cache and the unbounded history give the same answers |
| ReplayCache.ExactRefinement | connector/security.py:54-71 | in any such run a call is refused exactly when its key is among the last `max_entries` accepted before it and that acceptance is younger than the time to live |
| ReplayCache.EvictionAtAnyClock | connector/security.py:54-63 | even when the clock jumps, cleaning keeps as many live items as fit and evicts none that expires after one it keeps |
| AuthGate.AuthValidator.ValidateHmac | connector/auth.py:45-88 | outcome and new cache; the cache is untouched unless every earlier check passed; the outcome is the one the history calls for |
| AuthGate.RefusedForFirstFailure | connector/auth.py:53-88 | a request is refused for exactly the first check it fails, in the order of the code, and accepted iff it fails none or signatures are not required |
| AuthGate.AcceptedIsAuthentic | connector/auth.py:53-88 | every request accepted in a run had a secret to be checked against, a nonce, a timestamp within the skew of the clock, and the signature that secret gives |
| AuthGate.OutcomesAreJudged | connector/auth.py:45-88 | over any run, the gate with its bounded cache decides every request as the full history of acceptances would |
| AuthGate.WindowIsShort | connector/auth.py:66-68 | two requests with one timestamp that pass the skew check are less than the retention time apart, truncation included |
| AuthGate.KeyStaysOut | connector/auth.py:86-88 | an accepted key is refused until it expires or `max_entries` others have been accepted |
| AuthGate.AcceptedAtMostOnce | connector/auth.py:66-88 | end to end: in any run, with the retention time met and fewer than `max_entries` acceptances in between, two requests with the same credentials are not both accepted |
| AuthGate.SecondPassage | connector/auth.py:66-88 | below the retention time there is a run in which one signed request is accepted twice |
| AuthGate.RetentionIsExact | connector/auth.py:66-88 | at most once holds of every run iff the time to live is at least twice the skew plus one second plus the gap |
| AuthGate.DefaultsFallShort | connector/config.py:63-64 | the default time to live and skew do not meet the retention time |
| AuthGate.RefusedLeaveNoTrace | connector/auth.py:53-88 | deleting any refused requests from a run, replays included, changes the outcome of no other request |
| AuthGate.ReplayKeySharedIff | connector/auth.py:86 | two replay keys are equal iff tenant, API key and nonce are, or one triple is the other shifted across a bar: the longer tenant takes in the digest, the shorter nonce leaves the other digest behind |
| AuthGate.ReplayKeyDetermines | connector/auth.py:86 | so with nonces free of bars equal keys mean equal tenant, API key and nonce |
| AuthGate.ReplayKeyShared | connector/auth.py:86 | and in general they do not: for every API key two different pairs of tenant and nonce share a replay key |
| AuthGate.SignatureAcceptedAtMostOnce | connector/auth.py:72-88 | one signature is good for one acceptance per API key, whatever else of the two requests differs |
| AuthGate.AcceptedAgainIff | connector/auth.py:72-88 | one signed request presented twice in time is accepted again iff it comes with another API key |
| PyText.StripCuts | connector/security.py:30-36 | stripping cuts whitespace and nothing else off both ends and leaves a trimmed slice |
| PyText.StripKeeps | connector/security.py:30-36 | a field survives stripping iff it is trimmed, iff it keeps its length |
| Canonical.CanonicalEqualIff | connector/security.py:18-38 | two signed strings agree iff the five single-line fields and the block of tenant and request id agree |
| Canonical.CanonicalDeterminesAllFields | connector/security.py:18-38 | with single-line tenants the signed string determines all seven stripped fields |
| Canonical.TenantBlockSharedIff | connector/security.py:33-34 | exactly when different tenants share a block: one holds a newline and the other's request id holds the difference |
| Canonical.TenantsShareSignedString | connector/security.py:33-34 | tenant `a` with request id `b\nc` and tenant `a\nb` with request id `c` share one signed string |
| Canonical.EmptyIdIsNoticed | connector/security.py:28-38 | signing the empty request id for another one changes the string, for either signer and whatever whitespace the fields hold |
| Canonical.UnstrippedAgreesIff | scripts/signature_helper.py:18-20 | the signer that strips nothing builds the server's string iff every field is trimmed |
| Canonical.SignatureIsTrimmed | connector/security.py:41-43 | a signature has 43 characters and survives the server's stripping of the header |
| Base64Url.EncodeShape | connector/security.py:14-15 | only alphabet characters, no padding, ceil(4n/3) characters, 43 for a digest |
| Base64Url.DecodeEncode | connector/security.py:14-15 | a decoder recovers every byte string |
| Base64Url.EncodeDecode | connector/security.py:14-15 | encoding undoes decoding on every string the decoder accepts |
| Base64Url.EncodeInjective | connector/security.py:14-15 | different byte strings have different encodings |
| Base64Url.SymbolsSpellBits | connector/security.py:14-15 | the k-th symbol is the one that the RFC's alphabet gives to the k-th six bits of the data, filled up with zeros |
| SigningClient.ClientRequestPassesIff | upstream_patches/sgraph/connector_client.py:63-90 | a message signed by the client and arriving within the skew passes every check before the replay cache iff its payload has a request id; without one the signature does not match, as connector/app.py:189-190 fills one in |
| SigningClient.ClientRequestAccepted | upstream_patches/sgraph/connector_client.py:63-90 | with a request id it is accepted iff its nonce is not in the cleaned cache |
| SigningClient.AbsentRequestIdRefused | docs/CONTRACT.md:76 | does not hold of the code: a message signed with the empty request id is refused with a signature mismatch, and the replay cache stays as it was |
| SigningClient.HelperRequestPassesIff | scripts/signature_helper.py:27-40 | the helper's message passes those checks iff its payload has a request id and the fields it signs are trimmed |
| SigningClient.RetentionIsExactForClients | upstream_patches/sgraph/connector_client.py:63-90 | given one message the client signs, at most once holds of a gate iff the retention time is met |
| SigningClient.AssumptionsAreMet | upstream_patches/sgraph/connector_client.py:63-90 | the assumptions about hashing and parsing hold together |
| SigningClient.TimestampDenotes | upstream_patches/sgraph/connector_client.py:66 | the timestamp sent is the decimal numeral of the clock's whole seconds |
| OmegaClient.OmegaClient.constructor | connector/omega_client.py:67-70 | each limit is kept, or raised to its least value, and the breaker starts closed |
| OmegaClient.OmegaClient.ScanAttachment | connector/omega_client.py:140-191 | turned away iff the open period is not over; else the first answer or 4xx among the first `retry_count + 1` outcomes decides and no later one is asked for; without one the last outcome names the error, kind by kind, and one failure is recorded |
| BreakerInterleaving.RunKeepsWellFormed | connector/omega_client.py:158-188 | under every interleaving no request begins more than `retry_count + 1` posts |
| BreakerInterleaving.BreakerClosedForm | connector/omega_client.py:72-85 | under every interleaving the failure count is the number of exhausted requests since the last success, and the open period ends at the latest of them plus the reset time if they are enough |
| BreakerInterleaving.AdmittedIff | connector/omega_client.py:72-76 | after any interleaving a request is admitted iff the failures since the last success are fewer than `breaker_fails` or the reset time since the latest of them is over; else it is turned away without a post |
| BreakerInterleaving.BoundedWhileOpen | connector/omega_client.py:140-188 | while the breaker stays open nobody is admitted and the posts begun number at most `retry_count + 1` for each request in flight at the start |
| BreakerInterleaving.LoadBound | connector/omega_client.py:72-85 | in a stretch with no success, within k reset periods and with at most n in flight, at most `breaker_fails - 1 + n * k` requests run out of attempts |
| BreakerInterleaving.SequentialLoadBound | connector/omega_client.py:72-85 | one request at a time: at most `breaker_fails + floor(L / breaker_reset_sec)` of them in length L |
| BreakerInterleaving.ExhaustedPostedAll | connector/omega_client.py:158-188 | the exhausted requests of any run account for exactly `retry_count + 1` posts each |
| BreakerInterleaving.PostsPerArrival | connector/omega_client.py:140-188 | however requests interleave, one of them posts at most `retry_count + 1` times |
| BreakerInterleaving.ResultFollowsOwnOutcomes | connector/omega_client.py:155-191 | however requests interleave, the result of each follows from the outcomes delivered to it alone, one per post |
| BreakerInterleaving.LoopIsARun | connector/omega_client.py:158-188 | the uninterrupted retry loop is one of the interleavings, with the same result, posts and breaker state |
| BreakerInterleaving.UnrecordedLeaveNoTrace | connector/omega_client.py:176-178 | deleting requests rejected with a 4xx, turned away or cancelled from any interleaving changes nothing for the others or for the breaker |
| ScanHandler.RespondMeetsContract | connector/app.py:200-220 | every upstream answer and failure yields a contract-valid response |
| ScanHandler.AllowOnlyWhenSaid | connector/app.py:200-220 | the verdict is `allow` iff a readable upstream answer says so, or there is none and the fail mode is `allow` |
| ScanHandler.FailModeDecides | connector/app.py:90-118 | without a readable answer: the fail mode's verdict or quarantine, the risk that goes with it, the reason for each kind of failure, the trace with status and detail of a rejection, and the request's own id and tenant |
| ScanHandler.VerdictIsPassedOn | connector/app.py:70-72 | a readable verdict is kept if it is one of the three once trimmed and lowered; any other, and none, is quarantine |
| ScanHandler.VerdictReading | connector/app.py:70 | which texts read as a verdict: those that differ from it in case and outer whitespace only |
| ScanHandler.ScoreIsPassedOn | connector/app.py:68-69 | scores from 0 to 100 are kept, fractions cut off, others moved to the nearer end, none is 0 |
| ScanHandler.TextsArePassedOn | connector/app.py:66-75 | given ids and tenants are kept; missing ones are the request's own or fresh |
| ScanHandler.ReasonsArePassedOn | connector/app.py:74 | listed reasons are kept item by item, a text character by character; missing ones are empty |
| ScanHandler.ObjectsArePassedOn | connector/app.py:76-77 | trace and attestation are kept if they are objects |
| ScanHandler.ContractValidIsNormal | connector/app.py:65-87 | normalisation leaves every contract-valid response unchanged |
| ScanHandler.NormalizeIdempotent | connector/app.py:65-87 | normalising twice is normalising once, whatever the second request was |
| Connector.ConnectorRuntime.ScanAttachment | connector/app.py:171-231 | one call with nothing else running: answered iff its payload parses and the gate accepts it, with the response to what the upstream outcomes come to; answers meet the contract; other calls never reach the upstream and are not remembered; `allow` under another fail mode means the upstream answered |
| EndpointInterleaving.ProjectsToGate | connector/app.py:171-201 | in every interleaving of calls the gate decides each as in a run of the gate alone |
| EndpointInterleaving.ProjectsToBreaker | connector/app.py:192-201 | and the breaker sees an interleaving of the accepted calls, with the same events and final state |
| EndpointInterleaving.CredentialsReachUpstreamOnce | connector/app.py:192-201 | in every interleaving two calls with the same credentials cause at most `retry_count + 1` posts between them, under the conditions for at most once |
| Sgmeta.ExtractPackage | scripts/e2e_sgraph_real_path.py:84-105 | extracting a packaged file gives its name and exact content; packaging fails iff the metadata reaches 2^32 bytes |
| Sgmeta.ExtractConverse | scripts/e2e_sgraph_real_path.py:90-105 | for any input the content is a suffix; it is the whole input, without metadata, iff the input is no frame; else the frame rebuilds the input |
| Sgmeta.UploadRoundTrip | scripts/e2e_sgraph_real_path.py:84-120 | package, encrypt, frame by IV, and back: name and exact content |
| Sgmeta.FromToBytes4 | scripts/e2e_sgraph_real_path.py:87 | the four length bytes are the length's digits to base 256, most significant first |
| Sgmeta.ToFromBytes4 | scripts/e2e_sgraph_real_path.py:96 | any four bytes are the length bytes of the number they read as |
| PdfText.EscapeIsOnePass | scripts/e2e_sgraph_real_path.py:142-143 | the three chained replaces equal a one-pass escape |
| PdfText.EscapeCommutes | scripts/e2e_sgraph_real_path.py:145 | escaping commutes with the Latin-1 encoding, replacement characters included |
| PdfText.UnescapeEscape | scripts/e2e_sgraph_real_path.py:142-145 | a reader of literal strings gets back every escaped text with its line ends read as LF |
| PdfText.UnescapeEscapeIff | scripts/e2e_sgraph_real_path.py:142-145 | and gets it back unchanged iff it holds no carriage return |
| PdfText.ScannerStops | scripts/e2e_sgraph_real_path.py:145 | a scanner stops exactly at the parenthesis the writer put after the text, whatever follows |
| PdfText.TextReadsBack | scripts/e2e_sgraph_real_path.py:142-145 | scanning the first literal string of the content stream and unescaping it gives the encoded text with line ends as LF, unchanged iff it holds no carriage return |
| PdfFile.WriteBody | scripts/e2e_sgraph_real_path.py:153-162 | the first loop writes the numbered objects and records where each one starts |
| PdfFile.WriteObjects | scripts/e2e_sgraph_real_path.py:153-171 | the whole file for any list of objects, the form the reader lemmas below are about |
| PdfFile.BuildPdfBytes | scripts/e2e_sgraph_real_path.py:141-171 | the whole file for the five objects of a page |
| PdfFile.ObjectAtOffset | scripts/e2e_sgraph_real_path.py:156-162 | the bytes at a recorded offset open that object |
| PdfFile.StartXrefReads | scripts/e2e_sgraph_real_path.py:170 | the number in front of the end-of-file marker reads back as the table's position |
| PdfFile.EntriesFixedWidth | scripts/e2e_sgraph_real_path.py:168 | every table entry is 20 bytes iff every offset is below 10^10 |
| PdfFile.XrefLocatesObjects | scripts/e2e_sgraph_real_path.py:153-171 | for any objects, the bytes `i 0 obj` and the object stand at its recorded offset, and following `startxref` and the i-th entry ends there iff that offset is below 10^10 |
| PdfFile.PageObjectsLocated | scripts/e2e_sgraph_real_path.py:141-171 | on the page of any text the table leads to the first four objects always, and to the font behind the content iff its offset is below 10^10 |
| PdfFile.PageTextReadsBack | scripts/e2e_sgraph_real_path.py:141-171 | from the bytes of the file to the text: the table, the written `/Length`, the literal string and its escapes lead back to the encoded text, line ends read as LF |
| PdfReader.RootReadsIff | scripts/e2e_sgraph_real_path.py:164-170 | behind as many 20-byte entries as the section header announces stands a trailer of that size naming object 1 as the root, iff every offset is below 10^10 |
| PdfReader.FirstEntryIsFree | scripts/e2e_sgraph_real_path.py:166 | the table's first entry heads the list of free objects |
| PdfReader.PageIsReachedIff | scripts/e2e_sgraph_real_path.py:141-171 | from the end of the file through table, trailer, catalog, pages and page a reader reaches the page's content stream iff the last offset is below 10^10, and else nothing |
| PdfReader.PageShowsTextIff | scripts/e2e_sgraph_real_path.py:141-171 | the text that is shown there is the text given iff Latin-1 can write it and it holds no carriage return |
| PdfReader.FileOpens | scripts/e2e_sgraph_real_path.py:153-154 | the file opens with its version and a comment of four bytes from 128 on |
| PdfReader.ObjectCloses | scripts/e2e_sgraph_real_path.py:159-162 | every object is closed by its keyword on a line of its own |
| Decimal.ParsePrint | scripts/e2e_sgraph_real_path.py:168-170 | plain and zero-padded numerals parse back to the number |
| Decimal.PaddedWidth | scripts/e2e_sgraph_real_path.py:168 | the padded numeral has ten digits iff the number is below 10^10 |
| Percentiles.PermutationInvariant | scripts/generate_qualification_report.py:53-63 | the percentile ignores the order of the values |
| Percentiles.MonotoneInLevel | scripts/generate_qualification_report.py:53-63 | it grows with its level, across segment boundaries, and is 0 without values |
| Percentiles.WithinValues | scripts/generate_qualification_report.py:53-63 | it lies between the least and the greatest value, which are its levels 0 and 1 |
| Percentiles.ExactAtRanks | scripts/generate_qualification_report.py:53-63 | at the level of the k-th of the sorted values it is that value |
| Percentiles.LinearBetweenRanks | scripts/generate_qualification_report.py:53-63 | between neighbouring ranks it is the straight line through their values |
| Percentiles.MonotoneInData | scripts/generate_qualification_report.py:53-63 | raising values can only raise it |
| Qualification.Collect | scripts/generate_qualification_report.py:133-173 | the loop's counters, matrix and kept responses are the counts of the samples by kind and cell and the first response of each scenario |
| Qualification.Summarize | scripts/generate_qualification_report.py:145-205 | the report's rates and percentiles; GO iff all three thresholds hold, and a blocker for each that does not |
| Qualification.RatesCountDraws | scripts/generate_qualification_report.py:155-178 | in terms of the responses themselves: the rates are the shares of draws with a status from 400 on, of responses that say they are the connector's fallback, and of those among the draws not expected to fall back |
| Qualification.CellsCountDraws | scripts/generate_qualification_report.py:167-170 | a cell is the number of draws of its scenario whose verdict reads as its column's |
| Qualification.FallbacksAreRecognised | scripts/generate_qualification_report.py:159 | the report and connector/app.py:101-110 agree: a response counts as a fallback iff there was no readable answer or the answer itself claims to be one |
| Qualification.VerdictsAreFiled | scripts/generate_qualification_report.py:167-170 | every contract-valid response is filed under its verdict |
| Qualification.OutageIsNoGo | scripts/generate_qualification_report.py:145-191 | when every response is a fallback and one draw was not expected to be, the unexpected rate is 1 and the decision NO-GO |
| Qualification.FirstResponsesAreFirst | scripts/generate_qualification_report.py:172-173 | every scenario drawn has a kept response, the one of its first sample |
| Qualification.RowIsDraws | scripts/generate_qualification_report.py:167-170 | a row of the verdict matrix sums to the draws of its scenario |
| Qualification.ReportConserves | scripts/generate_qualification_report.py:145-205 | rows sum to draws and all rows to the latencies; unexpected fallbacks are bounded by fallbacks and by the requests not expected to fall back; rates lie in [0, 1]; p50 <= p95 <= p99 |

## Left out

- AuthGate.AuthValidator.ValidateHmac: text that UTF-8 cannot encode (lone surrogates) raises in the original; here `utf8` is total. The second clock reading is an input even of calls refused before it.
- Connector.ConnectorRuntime.ScanAttachment: the method runs one call with nothing else during the await; calls that interleave are modelled on values, in EndpointInterleaving. `validate_api_key` is a plain lookup, so the key it returns is an input.
- OmegaClient.OmegaClient.ScanAttachment: likewise assumes nothing else runs; how the detail code of a 4xx is read from its body is not modelled, the code is part of the outcome, and neither is the body kept with the error.
- BreakerInterleaving.LoopIsARun: one clock reading serves the whole loop; the code reads the clock only to admit and to record.
- PyText.Lower: lower-cases ASCII and the one other character that lowers to an ASCII letter; other characters stay, which no comparison in the model can tell.
- Percentiles.Percentile: levels from 0 to 1 only; the report uses 0.50, 0.95 and 0.99. Over the reals, without floating-point rounding, as for all times, latencies and rates.
- Qualification.Summarize: blockers are named, not formatted; writing the JSON and Markdown files is left out, and a response that is not an object, on which the original stops, is not modelled.
- SigningClient.ClientRequestPassesIff: the client's JSON body is assumed to parse back to the payload; JSON text is not modelled.
- The signature the connector puts on its own requests to the scanner (connector/omega_client.py:87-108): the same string and encoding as in Canonical; the scanner that verifies it is not part of this model.
- HTTP transport, TLS settings, routing, error envelopes, audit logging and configuration loading: plumbing.
- The debug scan handler (connector/app.py:233-296): the same steps as the handler modelled, behind a switch.
- Pydantic's checks of the request beyond parsing: the parser is a parameter.
- The DOCX and HTML builders, the load scripts and the SGraph hooks: no property beyond their bodies.
