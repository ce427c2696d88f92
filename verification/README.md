# Verified model of the Azure IoT middleware for FreeRTOS

This project models, in Dafny, the four parts of the middleware that hold logic of their own, and
proves what they promise for all inputs and all runs.

- **Manifest authentication** (`ports/mbedTLS/azure_iot_jws_mbedtls.c`). A root key signs a signing
  key, which signs the hash of an update manifest. The whole check runs in place in one scratch
  buffer with two bump pointers and a reset between two phases. `ChainOfTrust` says what a trusted
  manifest is (`Trusted`: evidence a reader could check by hand) and which verdict the code reaches
  (`Verdict`). `JwsAuthenticator` runs the code on an `array<byte>` and is proved to compute that
  verdict. `CompactJws` is the dot scan; `JsonTokens` and `JsonTree` are the token walks and what they
  mean on JSON objects. `DocumentTrust` is the chain of trust with every value looked up in a JSON
  document instead of walked to (`DocumentTrusted`), and how acceptance relates to it. `ConcreteInputs`
  is a small instance of every oracle that keeps to the lengths of Base64, with one input for each of
  these departures: prior content decides, the key is read from the JWS header, nothing is there to be
  searched, a signature is too long, "sjwk" comes first, and the key is not spelled as one.
- **Provisioning** (`source/azure_iot_provisioning_client.c`). `ProvisioningSpec` is the workflow as a
  state machine with lemmas over whole runs; `ProvisioningDialogue` is the run in which everything goes
  well, from the connect to the assigned response; `ProvisioningClient` is the object that refines the
  machine, with the MQTT calls it has made and a ghost trace of its events.
- **Hub client** (`source/azure_iot_hub_client.c`). `HubSpec` and `HubClient` are the receive contexts,
  SUBACK correlation and message dispatch; `RequestIds` is the wrapping request-id counter.
- **SAS tokens** (`prvIoTHubClientGetToken`, `prvProvClientGetToken`, `AzureIoT_Base64HMACCalculate`).
  `SasToken` builds the token in one buffer.

`WaitBudget` is the timeout arithmetic that both polling loops share; `Common` holds bytes and memory.

## How to read it

SHA-256, RSA, Base64, the JSON tokenizer, topic and response parsers, the HMAC callback, the clock and
the network are parameters: records of functions with a `Contract()`, or outcomes passed to each step.
An SDK call that writes into a region yields an `Output`, the bytes that land at the start of the
region whether or not the call succeeds.

Hypotheses, each stated in the contracts:

- Manifest authentication: the scratch buffer has at least 3018 bytes (`SCRATCH_USED`; the header asks
  for 3358) and every listed root modulus has at most 400 bytes, the signature region. The code checks
  neither. Input buffers are values, so they do not alias the scratch buffer.
- `Covered`: the three parts of the JWK decode, no JSON text that is searched is empty, and no decoded
  signature is shorter than the modulus it is checked with. The code drops the result of decoding the
  JWK and of setting up a reader, and never looks at the decoded signature lengths.
  `TrustedIffAcceptedAndCovered` is the exact relation for every input: trusted if and only if accepted
  and covered. Acceptance of a trusted manifest needs no hypothesis, and a covered call is never
  `Indeterminate`. `PriorContentDecides` is an input outside `Covered` whose verdict depends on what the
  scratch buffer held before the call.
- `Indeterminate`: `AzureIoTJSONReader_Init` refuses an empty text, its result is dropped, and a reader
  that was never initialized is then used. The model stops there with this outcome. `IndeterminateIff`
  says exactly when that happens, and `NothingToSearch` has an input for each of the three places.
- JSON documents: `Trusted` reads the JSON texts with the walks of the code. `DocumentTrusted` looks the
  values up, all of them strings, in the objects the texts spell. The only hypothesis is that names are
  unique in those objects (section 4 of RFC 7515, section 4 of RFC 7517). `AcceptedIffDocumentTrusted` is
  exact: a document chain whose JWS header does not start with "sjwk", if and only if accepted, covered
  and `WellFormed`, which says that the decoded texts spell objects and n, e and alg hold strings. Both
  ways out are there: `SjwkFirstIsRejected` with the input `FirstSjwkDecides`, and
  `NotSpelledIsAccepted`, where the code accepts a key inside the member "n", or a number as "n".
- Signature lengths: the code hands the signature to the RSA check without its length, so a signature
  longer than the modulus passes by its first bytes. `StrictlyTrusted` demands equal lengths (section
  8.2.2 of RFC 8017), and `ExactLengths` is exactly what acceptance lacks of it (`StrictlyTrustedIff`,
  `AcceptedIffDocumentStrictlyTrusted`).
- Provisioning: no hypothesis on when SUBACKs arrive, except where a row says so. The client takes any
  SUBACK for a success of the state it is in, although one is due in SUBSCRIBING only (section 3.8.4 of
  MQTT 3.1.1). `SuccessIsAssigned` splits exactly on that: a successful run got its success from a parsed
  ASSIGNED response, or from a SUBACK in RESPONSE or COMPLETE. `StraySubAcksComplete` is a run that
  completes with success although no PUBLISH arrived.
- Hub: packet ids are nonzero and distinct (section 2.3.1 of MQTT 3.1.1), only where a lemma says so,
  and user callbacks do not call back into the client.
- SAS tokens: the HMAC callback reports at most 33 bytes.

Where code and documentation disagree, the model follows the code:

- `azureiotprovisioningWAIT_FOREVER` is documented to wait as long as it takes
  (`source/include/azure_iot_provisioning_client.h:35`); the loop ends after 8,589,935 rounds
  (`ForeverEnds`).
- `prvFindSJWKValue` reads one token less before its loop than its siblings, so a first member called
  "sjwk" is not found (`FoundIffNotFirst`).

## Model

| member | source | states |
|---|---|---|
| CompactJws.SplitJws | ports/mbedTLS/azure_iot_jws_mbedtls.c:87-140 | the one-pass dot scan succeeds exactly when the text splits, and its slices are the three parts |
| CompactJws.SplitOfJoin | ports/mbedTLS/azure_iot_jws_mbedtls.c:128-139 | splitting a compact serialization gives back the parts it was joined from |
| CompactJws.JoinOfSplit | ports/mbedTLS/azure_iot_jws_mbedtls.c:133-139 | the parts are dot-free and rejoin to the text, and its prefix of length header + payload + 1 is the signing input |
| CompactJws.SplitsIffJoined | ports/mbedTLS/azure_iot_jws_mbedtls.c:128-131 | success if and only if the text is such a join, with unique parts |
| JsonTokens.JsonReader.Init | source/azure_iot_json_reader.c:15-44 | an empty text is refused and leaves the reader untouched; otherwise the reader stands before the first token |
| JsonTokens.JsonReader.SkipChildren | source/include/azure_iot_json_reader.h:94-96 | the depth-counting skip ends where the matching end token is, or fails |
| JsonTokens.JsonReader.FindStringValue | ports/mbedTLS/azure_iot_jws_mbedtls.c:280-366 | the three single-value walks compute the token-level search, terminate, and return the slice of a string token |
| JsonTokens.JsonReader.FindKeyParts | ports/mbedTLS/azure_iot_jws_mbedtls.c:368-425 | the key-part loop computes the token-level gathering of n, e and alg from any reader position |
| JsonTokens.NamesAreSpelled | ports/mbedTLS/azure_iot_jws_mbedtls.c:36-42 | the property names searched for and the one algorithm supported |
| JsonTree.SkipValue | ports/mbedTLS/azure_iot_jws_mbedtls.c:343-348 | skipping from the first token of any JSON value ends on its last token, however deeply it is nested |
| JsonTree.TopLevelSearch | ports/mbedTLS/azure_iot_jws_mbedtls.c:323-366 | the "kid" search returns the first top-level member of that name if its value is a string, and nothing nested ever matches |
| JsonTree.WalkIsLookup | ports/mbedTLS/azure_iot_jws_mbedtls.c:427-470 | the walk of the "sha256" and sibling searches agrees with a lookup among the members from where it stands |
| JsonTree.SearchPastFirst | ports/mbedTLS/azure_iot_jws_mbedtls.c:286-302 | the "sjwk" search is the same lookup over all members but the first |
| JsonTree.FoundIffNotFirst | ports/mbedTLS/azure_iot_jws_mbedtls.c:280-302 | a member named once is found by the "sjwk" walk exactly if it does not come first |
| JsonTree.KeySearch | ports/mbedTLS/azure_iot_jws_mbedtls.c:368-425 | where n, e and alg are named at most once, the search returns their values, in any order among arbitrary nested members, or fails if one is missing or empty: exactly if none of them holds a container or the search fails |
| JsonTree.WalkGathers | ports/mbedTLS/azure_iot_jws_mbedtls.c:380-412 | with repeated names, none holding a container, the loop records values in order and stops once all three are non-empty |
| JsonTree.NestedKeyIsFound | ports/mbedTLS/azure_iot_jws_mbedtls.c:380-412 | the other case: from {"n": {"n", "e", "alg"}} the search returns the nested values, although the object has no e and no alg |
| ChainOfTrust.TrustedIsAccepted | ports/mbedTLS/azure_iot_jws_mbedtls.c:700-886 | every manifest whose chain of trust is complete as the code reads the JSON texts is accepted, whatever the scratch buffer held |
| ChainOfTrust.AcceptedIsTrusted | ports/mbedTLS/azure_iot_jws_mbedtls.c:700-886 | an accepted manifest has a complete chain of trust if the call is covered |
| ChainOfTrust.TrustedIffAcceptedAndCovered | ports/mbedTLS/azure_iot_jws_mbedtls.c:783-815 | trusted if and only if accepted and covered, for all inputs and all prior contents of the scratch buffer |
| ChainOfTrust.ChainIsUnique | ports/mbedTLS/azure_iot_jws_mbedtls.c:700-886 | a JWS has at most one chain of trust: it names one root key and one signing key, and trusts one manifest hash |
| ChainOfTrust.IndeterminateIff | ports/mbedTLS/azure_iot_jws_mbedtls.c:751-803 | exactly when a reader is used that was never initialized: an empty JWS header, a JWK header that is empty or does not decode, or an empty JWS payload behind two good signatures |
| ChainOfTrust.CoveredIsDecided | ports/mbedTLS/azure_iot_jws_mbedtls.c:783-815 | in a covered call every reader is initialized |
| ChainOfTrust.Layout | source/interface/azure_iot_jws.h:32-60 | the place of each region of the scratch buffer in both phases, and what the second hash overlaps |
| ChainOfTrust.StrictlyTrustedIff | ports/mbedTLS/azure_iot_jws_mbedtls.c:262-275 | a chain whose signatures are as long as their moduli, if and only if accepted, covered and of exact lengths |
| DocumentTrust.WalkReadsDocument | ports/mbedTLS/azure_iot_jws_mbedtls.c:323-366 | on a text that spells an object the "kid" and "sha256" walks read what a lookup in the document reads |
| DocumentTrust.KeyWalk | ports/mbedTLS/azure_iot_jws_mbedtls.c:368-425 | the key search reads what lookups in the document read, if n, e and alg are named at most once and hold strings |
| DocumentTrust.SjwkFirstIsRejected | ports/mbedTLS/azure_iot_jws_mbedtls.c:286-302 | a JWS whose header starts with its only "sjwk" is rejected for every manifest, every root key and every prior content |
| DocumentTrust.TrustedIffDocumentTrusted | ports/mbedTLS/azure_iot_jws_mbedtls.c:280-470 | for unique names, the documents spell a chain and "sjwk" does not come first if and only if the walks read a chain and the documents are well-formed |
| DocumentTrust.AcceptedIffDocumentTrusted | ports/mbedTLS/azure_iot_jws_mbedtls.c:700-886 | for unique names, the documents spell a complete chain of trust and "sjwk" is not the first member of the JWS header if and only if accepted, covered and well-formed |
| DocumentTrust.AcceptedIffDocumentStrictlyTrusted | ports/mbedTLS/azure_iot_jws_mbedtls.c:700-886 | the same for the strict chain, with exact signature lengths as the extra condition |
| ConcreteInputs.PriorContentDecides | ports/mbedTLS/azure_iot_jws_mbedtls.c:783 | with a JWK signature too short or undecodable, the same call is accepted or rejected by one byte left in the scratch buffer |
| ConcreteInputs.KeyFromJwsHeader | ports/mbedTLS/azure_iot_jws_mbedtls.c:797-803 | with an undecodable JWK payload the signing key is read from the JWS header |
| ConcreteInputs.ToyIsTrusted | ports/mbedTLS/azure_iot_jws_mbedtls.c:700-886 | a trusted manifest exists; with a longer signature it is still trusted, but not strictly |
| ConcreteInputs.NothingToSearch | ports/mbedTLS/azure_iot_jws_mbedtls.c:751-803 | an empty JWS header, an undecodable JWK header and an empty JWS payload each leave a reader uninitialized |
| ConcreteInputs.FirstSjwkDecides | ports/mbedTLS/azure_iot_jws_mbedtls.c:286-302 | a complete chain of trust that is rejected because "sjwk" comes first, and accepted with a member before it |
| ConcreteInputs.NotSpelledIsAccepted | ports/mbedTLS/azure_iot_jws_mbedtls.c:368-425 | a covered manifest that is accepted although the documents spell no chain: the key stands inside "n", or "n" is a number |
| JwsAuthenticator.ManifestAuthenticate | ports/mbedTLS/azure_iot_jws_mbedtls.c:700-886 | the in-place run computes the verdict of the values; its relation to the chain of trust as the code reads it, as the documents spell it, and as strict lengths demand is exact; and it touches no byte from offset 3018 on |
| JwsAuthenticator.AuthenticateHeader | ports/mbedTLS/azure_iot_jws_mbedtls.c:751-760 | from the decoded JWS header on the run computes the verdict; the reader used here is the one used again for the key parts |
| JwsAuthenticator.AuthenticateJwk | ports/mbedTLS/azure_iot_jws_mbedtls.c:762-783 | the sjwk parts, slices of the decoded header, are still those bytes when they are decoded and when they are hashed |
| JwsAuthenticator.DecodeJwk | ports/mbedTLS/azure_iot_jws_mbedtls.c:472-525 | each decoded part stands in its region, and the signature region holds the signature followed by its prior content |
| JwsAuthenticator.ValidateRootKey | ports/mbedTLS/azure_iot_jws_mbedtls.c:605-635 | the first listed root key whose id is the value of "kid" |
| JwsAuthenticator.FindDecodedKey | ports/mbedTLS/azure_iot_jws_mbedtls.c:797-803 | the n, e and alg slices denote the texts found in the JWK payload, or in the JWS header when that is empty |
| JwsAuthenticator.RS256Verify | ports/mbedTLS/azure_iot_jws_mbedtls.c:187-278 | the check is the RSA verification of the SHA-256 of the input, with the modulus and signature as they were before the hash was written, which changes only the 32 bytes it is written to |
| JwsAuthenticator.DigestBehindSignature | ports/mbedTLS/azure_iot_jws_mbedtls.c:249-260 | writing the hash changes no signature byte that is read after it |
| JwsAuthenticator.VerifySigningKey | ports/mbedTLS/azure_iot_jws_mbedtls.c:805-831 | the key slices and the bytes of the first signature region survive the first hash into the second phase |
| JwsAuthenticator.WithJwsHolds | ports/mbedTLS/azure_iot_jws_mbedtls.c:824-833 | after the reset the JWS payload is in place, and the signature bytes read are the decoded ones, continued by the first phase's region if too short |
| JwsAuthenticator.DecodeSecondPhase | ports/mbedTLS/azure_iot_jws_mbedtls.c:826-864 | n, e and alg are still the slices found in phase 1 when they are decoded and compared after the reset |
| JwsAuthenticator.AuthenticateJws | ports/mbedTLS/azure_iot_jws_mbedtls.c:821-885 | the second phase computes its verdict although its hash scratch overlaps the signature region and the modulus |
| JwsAuthenticator.VerifyShaMatch | ports/mbedTLS/azure_iot_jws_mbedtls.c:637-698 | success exactly if the decoded "sha256" value equals the SHA-256 of the manifest |
| ProvisioningSpec.SuccessStep | source/azure_iot_provisioning_client.c:74-137 | exactly which steps end in COMPLETE with success, with no hypothesis |
| ProvisioningSpec.StepByCause | source/azure_iot_provisioning_client.c:74-137 | every step of a workflow that is under way, by its cause: what moves it on, what completes it with which error or with success, and that anything else leaves it as it is |
| ProvisioningSpec.CompleteStep | source/azure_iot_provisioning_client.c:125-128 | a completed workflow keeps everything but its result, which a SUBACK or a failed loop replaces |
| ProvisioningSpec.StepStores | source/azure_iot_provisioning_client.c:396-435 | what parsing a response stores: the spans moved to the buffer, the delay asked for, or three seconds, and the deadline; no other step touches the registration |
| ProvisioningSpec.CallsByCause | source/azure_iot_provisioning_client.c:145-347 | the MQTT call of every step, also when it fails, and the operation id it carries |
| ProvisioningSpec.StepShape | source/azure_iot_provisioning_client.c:64-73 | a step stays, goes to the one successor or completes, COMPLETE is absorbing, and every step that makes an MQTT call moves on |
| ProvisioningSpec.RunShape | source/azure_iot_provisioning_client.c:64-73 | every run moves along CONNECT, SUBSCRIBE, SUBSCRIBING, (REQUEST, REQUESTING, RESPONSE, WAITING)*, one position at a time, until it completes for good |
| ProvisioningSpec.OneConnectOneSubscribe | source/azure_iot_provisioning_client.c:145-260 | at most one connect and one subscribe call in any run |
| ProvisioningSpec.CallsInOrder | source/azure_iot_provisioning_client.c:145-347 | the calls of a run are connect, subscribe, the registration and then queries only, if no SUBACK arrives in CONNECT, SUBSCRIBE or REQUEST |
| ProvisioningSpec.InvHolds | source/azure_iot_provisioning_client.c:354-435 | in every reachable state that needs it, the buffer holds the pending response that the stored registration was parsed from |
| ProvisioningSpec.BufferIsLastStored | source/azure_iot_provisioning_client.c:580-610 | the response buffer in use holds the topic and payload of the last PUBLISH accepted, which nothing has overwritten |
| ProvisioningSpec.SuccessOrigin | source/azure_iot_provisioning_client.c:74-137 | every successful state goes back to one step that parsed an ASSIGNED response or was a SUBACK in RESPONSE or COMPLETE, and nothing has changed since |
| ProvisioningSpec.SuccessIsAssigned | source/azure_iot_provisioning_client.c:396-402 | exactly if that step was no SUBACK, the success is the parsed ASSIGNED response stored last, whose host and device bytes the client's spans still denote; otherwise the registration is the one from before |
| ProvisioningSpec.RegisterThenQueries | source/azure_iot_provisioning_client.c:289-304 | no publish precedes the registration, and the first publish is the registration unless a SUBACK arrived in REQUEST |
| ProvisioningSpec.QueryIsForLastResponse | source/azure_iot_provisioning_client.c:297-304 | a query carries the operation id of the last stored response, which was parsed as pending |
| ProvisioningSpec.PollingGate | source/azure_iot_provisioning_client.c:423-454 | between a pending response and a later publish some clock read exceeds the 64-bit sum of parse time and the delay the response asks for, or 3 s if it asks for none; or a SUBACK arrived in WAITING |
| ProvisioningSpec.DeadlineReached | source/azure_iot_provisioning_client.c:446-454 | the converse: the first trigger past that deadline leaves WAITING for REQUEST, and until then nothing changes |
| ProvisioningSpec.PendingIsPolled | source/azure_iot_provisioning_client.c:289-347 | the next trigger whose calls succeed then publishes the query for the operation id of the pending response |
| ProvisioningSpec.FixedPoint | source/azure_iot_provisioning_client.c:383-388 | a stored response on another topic, or COMPLETE, is kept through any triggers and PUBLISH packets, without MQTT calls |
| ProvisioningSpec.StraySubAcksComplete | source/azure_iot_provisioning_client.c:566-573 | a run without any PUBLISH that completes with success |
| ProvisioningDialogue.RegistrationSucceeds | source/azure_iot_provisioning_client.c:461-558 | from the connect through any number of pending responses, the assigned one completes the run with success and its own host and device bytes, by exactly these calls: connect, subscribe, registration, and one query for the operation of each pending response |
| ProvisioningDialogue.RoundTrip | source/azure_iot_provisioning_client.c:289-435 | publish, response and parsing: one publish, and the spans denote the bytes of that response |
| ProvisioningClient.PlayIsRounds | source/azure_iot_provisioning_client.c:511-545 | a call plays whole rounds of its environment, with all their packets, until the workflow is complete or the timeout is used up |
| ProvisioningClient.WorkflowRounds | source/azure_iot_provisioning_client.c:41-43 | a timeout pays for ceil(T / 500 ms) rounds, at least one |
| ProvisioningClient.Client.UpdateState | source/azure_iot_provisioning_client.c:74-137 | the in-place transition is the transition of the state machine |
| ProvisioningClient.Client.ParseResponse | source/azure_iot_provisioning_client.c:354-435 | parsing from the response buffer makes exactly the step of the state machine |
| ProvisioningClient.Client.RequestAction | source/azure_iot_provisioning_client.c:269-347 | the publish made, with the operation id read from the response buffer, is the call of the state machine |
| ProvisioningClient.Client.TriggerAction | source/azure_iot_provisioning_client.c:461-496 | a trigger is one step, makes the calls of that step and is appended to the trace |
| ProvisioningClient.Client.EventCallback | source/azure_iot_provisioning_client.c:566-637 | a packet is one step; an accepted PUBLISH is stored as topic then payload |
| ProvisioningClient.Client.RunWorkflow | source/azure_iot_provisioning_client.c:503-558 | the events of a call are those of the rounds played, the waits are a prefix of the split timeout with one for each round (all of it if still pending), and COMPLETE is left as it is |
| ProvisioningClient.Client.Register | source/azure_iot_provisioning_client.c:886-907 | success means that the buffer holds a response parsed as ASSIGNED, unless it came from a SUBACK in RESPONSE or COMPLETE; once COMPLETE, later calls return the same result, wait for nothing and cause no event and no MQTT call |
| ProvisioningClient.Client.GetDeviceAndHub | source/azure_iot_provisioning_client.c:910-960 | on success the caller's buffers hold the bytes that the registration denotes, which are those of the assigned response unless the success came from a SUBACK; otherwise nothing is written |
| WaitBudget.WaitsAreExact | source/azure_iot_provisioning_client.c:518-527 | the waits add up to the timeout, all but the last are one interval, none exceeds it, and there are ceil(T / interval) of them, at least one |
| WaitBudget.PrefixBudget | source/azure_iot_hub_client.c:477-493 | a loop that ends early has handed out no more than the timeout, in no more rounds |
| WaitBudget.ForeverEnds | source/azure_iot_provisioning_client.c:41-43 | even the largest timeout ends within 8,589,935 rounds |
| RequestIds.IssuedIdTellsKind | source/azure_iot_hub_client.c:418-431 | an issued id is never zero, odd for reported and even for get requests |
| RequestIds.NextIdIsLeast | source/azure_iot_hub_client.c:418-431 | an issued id is the least value above the counter with the parity asked for that is not zero modulo 2^32 |
| RequestIds.IdsDiffer | source/azure_iot_hub_client.c:418-431 | two ids fewer than 2^31 - 1 calls apart differ, for any mix of calls and any counter |
| RequestIds.PeriodAttained | source/azure_iot_hub_client.c:418-431 | 2^31 - 1 get requests bring back the same id, so the bound is exact |
| RequestIds.IdTextRoundTrip | source/azure_iot_hub_client.c:433-442 | the decimal text of an id has at most 10 digits and parses back to it |
| RequestIds.DecimalDigit | source/azure_iot_hub_client.c:433-442 | each character of the text is the digit of its power of ten, the most significant one first |
| HubSpec.SubAckIsCorrelated | source/azure_iot_hub_client.c:107-137 | with nonzero distinct ids a SUBACK acknowledges only the context that has its id |
| HubSpec.DistinctIdsKept | source/azure_iot_hub_client.c:966-980 | a subscription with a fresh id keeps the ids distinct, whether it is kept or zeroed |
| HubSpec.AcknowledgedIffReceived | source/azure_iot_hub_client.c:119-130 | a waiting context is acknowledged exactly if a SUBACK with its id arrives, if no context before it has the id |
| HubSpec.ShadowedIsNeverAcknowledged | source/azure_iot_hub_client.c:119-130 | a context behind another one with its id never is |
| HubSpec.HeardIffArrives | source/azure_iot_hub_client.c:460-504 | an unshadowed context ends up acknowledged exactly if its SUBACK arrives in a round that the timeout pays for and that no failed round precedes |
| HubSpec.WaitIsExact | source/azure_iot_hub_client.c:460-504 | a wait plays whole rounds of its environment until the acknowledgement, a failed round or the end of the timeout, whichever comes first |
| HubSpec.WaitFails | source/azure_iot_hub_client.c:487-491 | a wait fails exactly if a round the timeout pays for fails before any other has failed or acknowledged the context |
| HubSpec.SubAckRounds | source/azure_iot_hub_client.c:477-493 | a timeout pays for ceil(T / 10 ms) rounds, at least one |
| HubSpec.AtMostOneDelivery | source/azure_iot_hub_client.c:65-99 | a PUBLISH invokes at most one callback, that of the least context whose handler accepts the topic, through its own union arm |
| HubSpec.DeliveredByTopic | source/azure_iot_hub_client.c:201-380 | with all features subscribed, what each PUBLISH is delivered as, by the first topic parser that takes it; a request id that cannot be read is not delivered |
| HubSpec.AcceptsOwnTopics | source/azure_iot_hub_client.c:201-380 | a context accepts exactly the topics of its own feature |
| HubSpec.LastPacket | source/azure_iot_hub_client.c:168-184 | each PUBLISH is dispatched after the packets before it, and nothing else is delivered |
| HubSpec.EchoIsClassified | source/azure_iot_hub_client.c:337-374 | the answer to an issued id is delivered as what was asked for, with that id, exactly if no context before the properties context accepts its topic |
| HubClient.Client.ProcessSuback | source/azure_iot_hub_client.c:107-137 | the scan acknowledges the least context with the id and changes nothing else |
| HubClient.Client.Process | source/azure_iot_hub_client.c:201-380 | a handler accepts its own topics with a readable request id, and then invokes its callback once |
| HubClient.Client.ProcessIncomingPublish | source/azure_iot_hub_client.c:65-99 | the scan makes exactly the deliveries of the least accepting context |
| HubClient.Client.WaitForSubAck | source/azure_iot_hub_client.c:460-504 | the packets taken from the environment, the number of rounds and the result are those of the wait: success if the context ends acknowledged, else failure exactly if a round fails first, else a timeout with the whole budget waited |
| HubClient.Client.Subscribe | source/azure_iot_hub_client.c:933-984 | success exactly if the SUBACK of this subscription arrives in a round within the timeout and before any failed round; a failed wait leaves the context zeroed and the others as those packets left them |
| HubClient.Client.Unsubscribe | source/azure_iot_hub_client.c:987-1025 | a sent UNSUBSCRIBE zeroes its own context only |
| HubClient.Client.GetPropertiesRequestId | source/azure_iot_hub_client.c:408-453 | the id issued, its parity, and the text slice that reads back as it |
| HubClient.Client.SendPropertiesRequest | source/azure_iot_hub_client.c:1301-1428 | no id is issued unless the properties subscription is acknowledged |
| SasToken.Regions | source/azure_iot_hub_client.c:536-569 | message, key, hash area and tail are disjoint and in bounds, the encoded hash fits, and the late length check cannot fail |
| SasToken.TokenIs | source/azure_iot_hub_client.c:536-577 | a token is made if and only if every call succeeds with the room it is given, and it is the password over the Base64 HMAC of the message under the decoded key |
| SasToken.TokenFailures | source/azure_iot_hub_client.c:536-577 | the result of each failure |
| SasToken.HmacIs | source/azure_iot.c:117-188 | the Base64 text of the hash of the message under the decoded key, or the result of each failure |
| SasToken.TokenIgnoresSize | source/azure_iot_hub_client.c:536-577 | the token is the same in any two buffers that are large enough for it |
| SasToken.Base64HmacCalculate | source/azure_iot.c:117-188 | for any output size, the output holds the Base64 text of the HMAC of the message under the decoded key, or the result tells what did not fit; for arguments that do not overlap |
| SasToken.GetToken | source/azure_iot_hub_client.c:511-580 | the buffer ends up starting with the password over the HMAC under the decoded key, exactly if every call succeeds, with no length underflow and no write beyond the buffer |
| SasToken.WritePassword | source/azure_iot_provisioning_client.c:698-710 | writing the password does not touch the signature it reads |

## Left out

- NULL-argument checks, logging, MQTT disconnect, telemetry, command responses and `Deinit`: each is settled by one branch.
- `azure_iot_adu_client.c`, `azure_iot_json_writer.c`, `azure_iot_message.c` and `azure_iot_hub_client_properties.c`: field copying and forwarding, which would only add easy members.
- The buffer split of both `Init` functions and the pointers handed to `AzureIoTMQTT_Publish`: constant offsets.
- `AzureIoT_TranslateCoreError`: a table; failed SDK calls yield some `CoreError`, or the code's own constant.
- The Azure SDK, Mbed TLS and coreMQTT are not part of this model; JSON texts are represented by the tokens read before the first failure.
- `az_span_u32toa` and `az_span_atou32` are modelled by the decimal notation with an optional plus sign, and the password's terminating zero is not modelled.
- An uninitialized JSON reader: the outcome is `Indeterminate`, because the C code has no defined behaviour there.
- Operation statuses outside the SDK's five, which would leave the workflow state as it is.
- Real clocks, retransmission and the contents of MQTT packets other than topic, payload and packet id.
- The three subscribe functions and the three unsubscribe functions are one method each with the feature as an argument; so are the two request functions and the two token functions, whose bodies differ in SDK calls only.
- Extended error codes (`GetExtendedCode`) and the registration payload: read and stored without further logic.
- JsonTree.KeySearch: does not cover repeated names, which `WalkGathers` covers.
- JsonTree.WalkGathers: does not cover an object or array as the value of n, e or alg, where the loop goes on inside that value; `KeySearch` says when that matters, and `JsonTokens.JsonReader.FindKeyParts` covers every token stream.
- DocumentTrust.AcceptedIffDocumentTrusted: does not cover documents that repeat "sjwk", n, e or alg; `ChainOfTrust.TrustedIffAcceptedAndCovered` does.
- SasToken.Base64HmacCalculate: does not cover arguments that overlap; neither caller passes such.
- What memory outside the response buffer holds: `GetDeviceAndHub` takes it as a parameter, for spans that a malformed response left behind.
