# OCSP response verification and token reconciliation, modelled in Dafny

This project models two decision procedures of the X-Road security server
(the `sdsb` code base):

- **OCSP response acceptance** (`OcspVerifier`). One OCSP response is checked
  against a subject certificate, its issuer and an instant. The checks follow
  section 3.2 of RFC 2560, and responder authorisation follows section 4.2.2.2.
  Also modelled: responder-certificate lookup by the responder ID of section
  4.2.1, the status check with its status strings, and the two freshness
  predicates.
- **Token reconciliation in the module worker** (`AbstractModuleWorker`). On
  each tick, the module's token listing is diffed against the worker's child
  token workers by token id. New ids get a child built from the token
  registry's entry, or from a fresh entry. Children whose id vanished are
  stopped, and the remaining children are sent an Update. The module also
  covers the worker's lifecycle error handling and its child supervision
  directive.

Files:

- `results.dfy`: `Option`, `Result` and `Outcome`.
- `ocsp_model.dfy`: certificates, responses and the error taxonomy. It also
  holds the global configuration and the cryptographic primitives, passed in
  as values.
- `ocsp_verifier.dfy`: the verifier's operations.
- `ocsp_properties.dfy`: the six-step checklist as an independent reference,
  and the theorems about the verifier. Steps are numbered as in that
  checklist: 1 cert ID, 2 signer found, 3 signature, 4 authorisation,
  5 thisUpdate, 6 nextUpdate. Item 2 of section 3.2 of RFC 2560 is split
  into steps 2 and 3, and item 3 of the RFC (the signer is the intended
  recipient) is not checked by the source.
- `token_registry.dfy`: the token registry as the worker uses it.
- `module_worker.dfy`: the reconciliation pass, the tick, the lifecycle and
  supervision.
- `module_worker_properties.dfy`: properties of successive passes.

Modelling choices:

- Dates are integer milliseconds. Certificates, names and responses are
  immutable records. Two certificates are equal when their records are
  equal, which stands for the source's comparison of encodings.
- SHA-1, DER encoding of names and signature verification are fields of a
  `Crypto` value. These are arbitrary total functions, so every theorem holds
  for any implementation of them.
- The global configuration is a `GlobalConf` value. It holds the responder
  certificates, the CA certificates, the freshness window in minutes and the
  responder predicate.
- Each reconciliation pass returns its effect on children as a sequence of
  `Create`/`Stop`/`Update` actions, plus the new child set and registry.
  Children are visited in an unspecified order (a nondeterministic choice),
  because the result must not depend on the order.

Three behaviours of the source are worth noting:

- When a token disappears, the module worker only stops the token's worker.
  It neither drops nor changes the registry entry (`RegistryNeverShrinks`).
- The freshness comparison is strict. A `thisUpdate` exactly at the edge of
  the window is still fresh (`FreshnessBoundary`).
- The child supervision strategy always resumes the failing child. The
  retry bound of 10 per minute only limits restarts, and this strategy never
  asks for one, so no failure count leads to a restart.

## Model

| member | source | states |
|---|---|---|
| OcspVerifier.IsExpired | xtee6/common-verifier/src/main/java/ee/cyber/sdsb/common/ocsp/OcspVerifier.java:179-183 | a response is too old exactly when its age at `atDate` exceeds the freshness window strictly |
| OcspVerifier.IsExpiredNow | xtee6/common-verifier/src/main/java/ee/cyber/sdsb/common/ocsp/OcspVerifier.java:190-198 | the cache probe fails only for a response without a first entry; otherwise it reports whether the first entry is more than 60 seconds old |
| OcspVerifier.FirstMatching | xtee6/common-verifier/src/main/java/ee/cyber/sdsb/common/ocsp/OcspVerifier.java:210-229 | the result is the first candidate matching the criterion, and there is none exactly when no candidate matches |
| OcspVerifier.GetOcspCert | xtee6/common-verifier/src/main/java/ee/cyber/sdsb/common/ocsp/OcspVerifier.java:203-233 | with a name, a certificate with that subject is found iff one is known, and it is the first such in scan order; otherwise with a key hash, the first candidate whose SHA-1 key hash equals it; with neither, nothing |
| OcspVerifier.HasKeyUsage | xtee6/common-verifier/src/main/java/ee/cyber/sdsb/common/ocsp/OcspVerifier.java:285-289 | the scan of the extended key usage list finds the OID iff the list contains it |
| OcspVerifier.IsAuthorizedOcspSigner | xtee6/common-verifier/src/main/java/ee/cyber/sdsb/common/ocsp/OcspVerifier.java:262-293 | authorised iff configured as responder for the issuer, or equal to the issuer, or issued by the issuer with id-kp-OCSPSigning; without an EKU extension only the first two count |
| OcspVerifier.VerifyValidity | xtee6/common-verifier/src/main/java/ee/cyber/sdsb/common/ocsp/OcspVerifier.java:93-153 | an unreadable response (no basic response, no entry) is the only non-coded failure; every rejection carries X_INCORRECT_VALIDATION_INFO |
| OcspVerifier.VerifyStatus | xtee6/common-verifier/src/main/java/ee/cyber/sdsb/common/ocsp/OcspVerifier.java:161-171 | passes iff the first entry's status is GOOD; otherwise X_CERT_VALIDATION with the status string |
| OcspVerifier.FirstSingle | xtee6/common-verifier/src/main/java/ee/cyber/sdsb/common/ocsp/OcspVerifier.java:96-97 | a response can be read iff its body is a basic response with at least one entry, and then the first entry is the one consulted; otherwise the failure is a malformation, not a coded rejection |
| OcspVerifier.OcspCerts | xtee6/common-verifier/src/main/java/ee/cyber/sdsb/common/ocsp/OcspVerifier.java:235-247 | the candidates are exactly the configured responder certificates, the CA certificates and the embedded certificates, all of them kept (the length is the sum) |
| OcspVerifier.StatusString | xtee6/common-verifier/src/main/java/ee/cyber/sdsb/common/ocsp/OcspVerifier.java:249-260 | the text is UNKNOWN exactly for an unknown status and INVALID exactly for GOOD or any other non-revoked status, so a revoked status never reads as either |
| OcspVerifier.VerifyValidityAndStatus | xtee6/common-verifier/src/main/java/ee/cyber/sdsb/common/ocsp/OcspVerifier.java:62-67 | passes iff validity and status both pass; a validity failure is reported in preference to a status failure; once validity passes, the status check's result (X_CERT_VALIDATION for a non-GOOD status) is the result |
| OcspProperties.FirstFailure | xtee6/common-verifier/src/main/java/ee/cyber/sdsb/common/ocsp/OcspVerifier.java:101-152 | an ordered checklist passes iff every check passes, and otherwise reports the reason of the first check that fails |
| OcspProperties.VerifyValidityFollowsChecklist | xtee6/common-verifier/src/main/java/ee/cyber/sdsb/common/ocsp/OcspVerifier.java:105-152 | verifyValidity equals the six steps (cert ID, signer found, signature, authorisation, thisUpdate, nextUpdate) run as an ordered checklist |
| OcspProperties.ValidityPassesIffAllStepsPass | xtee6/common-verifier/src/main/java/ee/cyber/sdsb/common/ocsp/OcspVerifier.java:105-152 | verifyValidity succeeds iff the response is readable and all six steps pass |
| OcspProperties.FirstFailingStepDecides | xtee6/common-verifier/src/main/java/ee/cyber/sdsb/common/ocsp/OcspVerifier.java:105-152 | when step k is the first to fail, its error is the result whatever the later steps say |
| OcspProperties.CertIdMismatchDecides | xtee6/common-verifier/src/main/java/ee/cyber/sdsb/common/ocsp/OcspVerifier.java:99-111 | a cert-ID mismatch is rejected at step 1 with the subject's serial, whatever the other checks would say |
| OcspProperties.SerialMismatchRejected | xtee6/common-verifier/src/main/java/ee/cyber/sdsb/common/ocsp/OcspVerifier.java:107-111 | an entry naming a different serial is rejected with the subject's serial |
| OcspProperties.OnlyFirstEntryConsulted | xtee6/common-verifier/src/main/java/ee/cyber/sdsb/common/ocsp/OcspVerifier.java:96-97 | entries after the first never change the validity or the status verdict, except through the signature over the whole response |
| OcspProperties.DelegatedResponderAccepted | xtee6/common-verifier/src/main/java/ee/cyber/sdsb/common/ocsp/OcspVerifier.java:276-290 | a matching, correctly signed, fresh GOOD response from an EKU-delegated responder of the issuer is accepted |
| OcspProperties.AcceptedResponseIsGood | xtee6/common-verifier/src/main/java/ee/cyber/sdsb/common/ocsp/OcspVerifier.java:62-67 | an accepted response is about the subject, signed by a found and authorised responder, fresh, and GOOD |
| OcspProperties.FirstMatchingAppend | xtee6/common-verifier/src/main/java/ee/cyber/sdsb/common/ocsp/OcspVerifier.java:235-247 | scanning a concatenation finds the first part's first match, and looks at the second part only when the first has none |
| OcspProperties.CandidateOrder | xtee6/common-verifier/src/main/java/ee/cyber/sdsb/common/ocsp/OcspVerifier.java:235-247 | responder certificates are tried before CA certificates, and both before certificates embedded in the response |
| OcspProperties.NameTakesPrecedence | xtee6/common-verifier/src/main/java/ee/cyber/sdsb/common/ocsp/OcspVerifier.java:210-218 | when the responder ID has a name, any key hash beside it leaves the certificate found unchanged |
| OcspProperties.FreshnessBoundary | xtee6/common-verifier/src/main/java/ee/cyber/sdsb/common/ocsp/OcspVerifier.java:179-183 | exactly at the window boundary a response is fresh; one millisecond older it is too old |
| OcspProperties.ExpiryIsMonotone | xtee6/common-verifier/src/main/java/ee/cyber/sdsb/common/ocsp/OcspVerifier.java:179-183 | a response stays too old at later instants and under narrower windows |
| OcspProperties.NextUpdateRule | xtee6/common-verifier/src/main/java/ee/cyber/sdsb/common/ocsp/OcspVerifier.java:145-152 | verifyValidity never rejects for newer information without a nextUpdate; once steps 1-5 pass, it rejects so iff nextUpdate is strictly before atDate, and accepts otherwise |
| OcspProperties.ProbeIsOneMinuteWindow | xtee6/common-verifier/src/main/java/ee/cyber/sdsb/common/ocsp/OcspVerifier.java:190-198 | the cache probe is the freshness test with a one-minute window at the current instant |
| OcspProperties.StatusStringRoundTrip | xtee6/common-verifier/src/main/java/ee/cyber/sdsb/common/ocsp/OcspVerifier.java:249-260 | a status string reads back as UNKNOWN, REVOKED with the formatted revocation date, or INVALID for any other status |
| OcspProperties.StatusErrorNamesStatus | xtee6/common-verifier/src/main/java/ee/cyber/sdsb/common/ocsp/OcspVerifier.java:165-170 | a failed status check names REVOKED with its date, or UNKNOWN |
| TokenRegistry.GetTokenInfo | xtee6/signer/src/main/java/ee/cyber/sdsb/signer/tokenmanager/module/AbstractModuleWorker.java:129-137 | a known token's entry is handed over as it was and then marked available; an unknown token gets a fresh entry; no other entry changes |
| ModuleWorker.HasToken | xtee6/signer/src/main/java/ee/cyber/sdsb/signer/tokenmanager/module/AbstractModuleWorker.java:93-102 | true iff some listed token has the child's id |
| ModuleWorker.CreateMissing | xtee6/signer/src/main/java/ee/cyber/sdsb/signer/tokenmanager/module/AbstractModuleWorker.java:76-81 | each listed id without a child gets exactly one, from the first token listed with that id and the registry's prior entry |
| ModuleWorker.Sweep | xtee6/signer/src/main/java/ee/cyber/sdsb/signer/tokenmanager/module/AbstractModuleWorker.java:83-90 | every child is visited once: unlisted ones are stopped, listed ones updated, and the children left are the listed ones |
| ModuleWorker.UpdateTokens | xtee6/signer/src/main/java/ee/cyber/sdsb/signer/tokenmanager/module/AbstractModuleWorker.java:75-91 | the children afterwards are exactly the listed ids; missing ids are created once, vanished children stopped once, and every listed child updated once; creations come first; only new children's entries change in the registry |
| ModuleWorker.OnUpdate | xtee6/signer/src/main/java/ee/cyber/sdsb/signer/tokenmanager/module/AbstractModuleWorker.java:53-61 | a failed listing is passed to the caller and creates, stops and updates nothing; a successful one runs the full pass |
| ModuleWorker.PreStart | xtee6/signer/src/main/java/ee/cyber/sdsb/signer/tokenmanager/module/AbstractModuleWorker.java:34-42 | the worker ends up stopped iff module initialisation fails |
| ModuleWorker.PostStop | xtee6/signer/src/main/java/ee/cyber/sdsb/signer/tokenmanager/module/AbstractModuleWorker.java:44-51 | a failure to deinitialise the module is not passed on |
| ModuleWorker.SupervisorDirective | xtee6/signer/src/main/java/ee/cyber/sdsb/signer/tokenmanager/module/AbstractModuleWorker.java:23-32 | every failure of a child token worker is answered with Resume |
| ModuleWorkerProperties.RegistryNeverShrinks | xtee6/signer/src/main/java/ee/cyber/sdsb/signer/tokenmanager/module/AbstractModuleWorker.java:122-127 | a pass removes no registry entry, and the entries of stopped children are unchanged |
| ModuleWorkerProperties.PassKeepsChildrenRegistered | xtee6/signer/src/main/java/ee/cyber/sdsb/signer/tokenmanager/module/AbstractModuleWorker.java:75-91 | if every child has a registry entry before a pass, every child has one after it |
| ModuleWorkerProperties.SecondPassIsQuiet | xtee6/signer/src/main/java/ee/cyber/sdsb/signer/tokenmanager/module/AbstractModuleWorker.java:75-91 | a repeated pass over the same listing creates and stops nothing and leaves registry and children unchanged |
| ModuleWorkerProperties.OnePassAbout | xtee6/signer/src/main/java/ee/cyber/sdsb/signer/tokenmanager/module/AbstractModuleWorker.java:75-91 | per id: it is a child afterwards iff listed; a vanished child is stopped and keeps its entry; a listed id without a child is created from its prior entry, now available |
| ModuleWorkerProperties.ReinsertedTokenKeepsItsEntry | xtee6/signer/src/main/java/ee/cyber/sdsb/signer/tokenmanager/module/AbstractModuleWorker.java:129-137 | a token listed, then missing, then listed again is stopped and re-created from the entry kept for it, marked available |
| ModuleWorkerProperties.ThreeTicks | xtee6/signer/src/main/java/ee/cyber/sdsb/signer/tokenmanager/module/AbstractModuleWorker.java:75-91 | listings [T1], [T1, T2], [T2] give children {T1}, {T1, T2}, {T2}; the only stop is T1's, at the third tick |

## Left out

- The actor runtime is left out: message delivery, `watch`/`unwatch` and logging. Stopping a child is modelled as removing it from the child set at once. Akka's asynchronous stop, which keeps the name reserved until the child terminates, is not modelled.
- `onMessage` passes every other message to `unhandled`. It has no effect on the modelled state.
- Retry counting of `OneForOneStrategy` (10 per minute) is left out. The bound only governs restarts, and the directive is always Resume.
- The overloads of `verifyValidity` and `verifyValidityAndStatus` without a date take `new Date()`. They are the dated versions applied to the current instant, so they are not modelled separately.
- Cryptography is abstract: signature verification, SHA-1 and DER encoding. X.509 parsing and its exceptions are left out, and an embedded certificate is taken as already decoded.
- Distinguished names are compared by plain equality. This stands for both `X500Name.equals` (responder lookup) and `X500Principal.equals` (authorisation).
- `createCertId` lives in CryptoUtils.java, which is not part of this model. It is modelled by the CertID definition of section 4.1.1 of RFC 2560, using SHA-1.
- TokenManager.java is not part of this model. Its `createToken` is represented by `NewTokenInfo`, which keeps the module type and starts unavailable. The real record's other fields (label, serial number, slot) are not modelled.
- Error messages are represented by one `Reason` constructor per distinct message text. The serial number is kept as a number rather than formatted. The `%tF %tT` date format is an abstract `fmt` function.
- `Date` arithmetic is unbounded. Overflow of Java `long` milliseconds is not modelled.
- What a token worker does when it is stopped is not modelled: its own stop handling is outside the module worker, so the model promises nothing about registry changes it might make.
- ModuleWorker.UpdateTokens: every pass is modelled as running to the end. In the source, creating a child can throw part-way through the first loop: the registry lookup (`getTokenInfo`), the abstract `props`, or `actorOf` rejecting a token id that is not a valid actor name. Children created before the failure then stay, and the stop/update loop does not run. The model does not promise anything about such an interrupted pass.
