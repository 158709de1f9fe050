/**
 The OCSP response checks of OcspVerifier: the ordered acceptance checklist
 of section 3.2 of RFC 2560, the responder authorisation rules of section
 4.2.2.2 of RFC 2560, responder-certificate lookup by the responder ID of
 section 4.2.1, the status check, and the two freshness predicates.
 */
module OcspVerifier {
  import opened Results
  import opened OcspModel

  /** The extended key usage id-kp-OCSPSigning. */
  const ID_KP_OCSPSIGNING: string := "1.3.6.1.5.5.7.3.9"

  /** How long, in seconds, a cached response must still be fresh. */
  const MIN_FRESHNESS_SECONDS: int := 60

  const MILLIS_PER_SECOND: int := 1000
  const MILLIS_PER_MINUTE: int := 60 * MILLIS_PER_SECOND

  /**
   The only entry the verifier consults: the first single response. A body
   that is not a basic response, or one without entries, cannot be read.
   */
  function FirstSingle(resp: OcspResp): (r: Result<SingleResp, OcspError>)
    ensures r.Success? <==> resp.body.Some? && |resp.body.value.responses| > 0
    ensures r.Success? ==> r.value == resp.body.value.responses[0]
    ensures r.Failure? ==> r.error.Malformed?
  {
    match resp.body
    case None => Failure(Malformed(NotBasicResponse))
    case Some(basic) =>
      if |basic.responses| == 0 then Failure(Malformed(NoSingleResponse))
      else Success(basic.responses[0])
  }

  /** The identifier a request for `subject` issued by `issuer` would carry. */
  function CreateCertId(subject: Cert, issuer: Cert, crypto: Crypto): CertId
  {
    CertId(crypto.sha1(crypto.nameDer(issuer.subject)), crypto.sha1(issuer.publicKeyBits), subject.serial)
  }

  // ---------------------------------------------------------------------
  // Freshness

  /**
   Whether `single` is too old at `atDate` when it must have been produced
   within the last `freshnessMinutes` minutes. The comparison is strict: a
   response exactly `freshnessMinutes` old is still fresh.
   */
  function IsExpired(single: SingleResp, atDate: Millis, freshnessMinutes: int): (r: bool)
    ensures r <==> atDate - single.thisUpdate > freshnessMinutes * MILLIS_PER_MINUTE
  {
    var allowedThisUpdate := atDate - freshnessMinutes * MILLIS_PER_MINUTE;
    single.thisUpdate < allowedThisUpdate
  }

  /**
   Whether a cached response must be refetched at instant `now`: its first
   entry is more than MIN_FRESHNESS_SECONDS old.
   */
  function IsExpiredNow(resp: OcspResp, now: Millis): (r: Result<bool, OcspError>)
    ensures r.Failure? <==> FirstSingle(resp).Failure?
    ensures r.Success? ==>
      (r.value <==> now - FirstSingle(resp).value.thisUpdate > MIN_FRESHNESS_SECONDS * MILLIS_PER_SECOND)
  {
    match FirstSingle(resp)
    case Failure(e) => Failure(e)
    case Success(single) =>
      var allowedThisUpdate := now - MIN_FRESHNESS_SECONDS * MILLIS_PER_SECOND;
      Success(single.thisUpdate < allowedThisUpdate)
  }

  /** Step 6 fails: a nextUpdate is given and lies strictly before `atDate`. */
  predicate NextUpdatePassed(single: SingleResp, atDate: Millis)
  {
    match single.nextUpdate
    case None => false
    case Some(next) => next < atDate
  }

  // ---------------------------------------------------------------------
  // Responder certificate lookup

  /** What a candidate certificate must match: the responder's name or its key hash. */
  datatype Criterion = SubjectIs(name: Name) | KeyHashIs(hash: Bytes)

  predicate Matches(c: Cert, crit: Criterion, crypto: Crypto)
  {
    match crit
    case SubjectIs(name) => c.subject == name
    case KeyHashIs(hash) => crypto.sha1(c.publicKeyBits) == hash
  }

  /** The candidates, in the order they are scanned: responders, CAs, embedded certificates. */
  function OcspCerts(basic: BasicResp, conf: GlobalConf): (r: seq<Cert>)
    ensures |r| == |conf.ocspResponderCerts| + |conf.allCaCerts| + |basic.certs|
    ensures forall c :: c in r <==> c in conf.ocspResponderCerts || c in conf.allCaCerts || c in basic.certs
  {
    conf.ocspResponderCerts + conf.allCaCerts + basic.certs
  }

  /** `c` is a match of `crit` in `certs` with no match before it. */
  ghost predicate FirstInScanOrder(certs: seq<Cert>, c: Cert, crit: Criterion, crypto: Crypto)
  {
    exists i :: 0 <= i < |certs| && certs[i] == c && Matches(certs[i], crit, crypto)
      && forall j :: 0 <= j < i ==> !Matches(certs[j], crit, crypto)
  }

  /** The first of `certs` that matches `crit`, if any. */
  function FirstMatching(certs: seq<Cert>, crit: Criterion, crypto: Crypto): (r: Option<Cert>)
    ensures r.None? <==> forall i :: 0 <= i < |certs| ==> !Matches(certs[i], crit, crypto)
    ensures r.Some? ==>
      exists i :: 0 <= i < |certs| && certs[i] == r.value && Matches(certs[i], crit, crypto)
        && forall j :: 0 <= j < i ==> !Matches(certs[j], crit, crypto)
  {
    if |certs| == 0 then None
    else if Matches(certs[0], crit, crypto) then Some(certs[0])
    else
      var r := FirstMatching(certs[1..], crit, crypto);
      assert forall i :: 1 <= i < |certs| ==> certs[i] == certs[1..][i - 1];
      r
  }

  /**
   The certificate that signed `basic`: looked up by name when the responder
   ID has one, otherwise by SHA-1 hash of the public key bits when it has a
   key hash, otherwise not at all.
   */
  function GetOcspCert(basic: BasicResp, conf: GlobalConf, crypto: Crypto): (r: Option<Cert>)
    ensures basic.responderId.name.None? && basic.responderId.keyHash.None? ==> r.None?
    ensures r.Some? ==> r.value in OcspCerts(basic, conf)
    ensures basic.responderId.name.Some? ==>
      (r.Some? <==> exists c :: c in OcspCerts(basic, conf) && c.subject == basic.responderId.name.value)
    ensures basic.responderId.name.Some? && r.Some? ==>
      FirstInScanOrder(OcspCerts(basic, conf), r.value, SubjectIs(basic.responderId.name.value), crypto)
    ensures basic.responderId.name.None? && basic.responderId.keyHash.Some? ==>
      (r.Some? <==> exists c :: c in OcspCerts(basic, conf)
                      && crypto.sha1(c.publicKeyBits) == basic.responderId.keyHash.value)
    ensures basic.responderId.name.None? && basic.responderId.keyHash.Some? && r.Some? ==>
      FirstInScanOrder(OcspCerts(basic, conf), r.value, KeyHashIs(basic.responderId.keyHash.value), crypto)
  {
    var knownCerts := OcspCerts(basic, conf);
    var respId := basic.responderId;
    if respId.name.Some? then FirstMatching(knownCerts, SubjectIs(respId.name.value), crypto)
    else if respId.keyHash.Some? then FirstMatching(knownCerts, KeyHashIs(respId.keyHash.value), crypto)
    else None
  }

  // ---------------------------------------------------------------------
  // Responder authorisation

  /** Whether `oid` occurs in `keyUsage`, scanning it front to back. */
  function HasKeyUsage(keyUsage: seq<string>, oid: string): (r: bool)
    ensures r <==> oid in keyUsage
  {
    if |keyUsage| == 0 then false
    else if keyUsage[0] == oid then true
    else
      var r := HasKeyUsage(keyUsage[1..], oid);
      assert keyUsage == [keyUsage[0]] + keyUsage[1..];
      r
  }

  /**
   Whether `ocspCert` may sign responses about certificates of `issuer`:
   configured as its responder, or the issuer itself, or issued by it with
   id-kp-OCSPSigning in its extended key usage. Without an EKU extension the
   third way is closed.
   */
  function IsAuthorizedOcspSigner(ocspCert: Cert, issuer: Cert, conf: GlobalConf): (r: bool)
    ensures r <==>
      || conf.isOcspResponderCert(issuer, ocspCert)
      || ocspCert == issuer
      || (&& ocspCert.issuer == issuer.subject
          && ocspCert.extendedKeyUsage.Some?
          && ID_KP_OCSPSIGNING in ocspCert.extendedKeyUsage.value)
    ensures ocspCert.extendedKeyUsage.None? ==>
      (r <==> conf.isOcspResponderCert(issuer, ocspCert) || ocspCert == issuer)
  {
    if conf.isOcspResponderCert(issuer, ocspCert) then true
    else if ocspCert == issuer then true
    else if ocspCert.issuer == issuer.subject then
      match ocspCert.extendedKeyUsage
      case None => false
      case Some(keyUsage) => HasKeyUsage(keyUsage, ID_KP_OCSPSIGNING)
    else false
  }

  // ---------------------------------------------------------------------
  // Validity

  /**
   Checks the first entry of `resp` against `subject` and `issuer` at
   `atDate`, in the order of section 3.2 of RFC 2560, stopping at the first
   failing step.
   */
  function VerifyValidity(resp: OcspResp, subject: Cert, issuer: Cert, atDate: Millis,
                          conf: GlobalConf, crypto: Crypto): (r: Outcome<OcspError>)
    ensures r.Fail? && r.error.Malformed? <==> FirstSingle(resp).Failure?
    ensures r.Fail? && r.error.Rejected? ==> r.error.Code() == Some(IncorrectValidationInfo)
  {
    match FirstSingle(resp)
    case Failure(e) => Fail(e)
    case Success(singleResp) =>
      var basicResp := resp.body.value;
      // The checks of section 3.2 of RFC 2560, numbered as the checklist in
      // OcspProperties numbers them: item 2 of the RFC is split into checks
      // 2 (a signer is found) and 3 (its signature holds), and item 3 of the
      // RFC (the signer is the intended recipient) is not checked at all.
      // 1. the response is about the certificate asked for
      if singleResp.certId != CreateCertId(subject, issuer, crypto) then
        Fail(Rejected(CertIdMismatch(subject.serial)))
      else
        match GetOcspCert(basicResp, conf, crypto)
        // 2. a signer certificate is found
        case None => Fail(Rejected(ResponderCertNotFound))
        case Some(ocspCert) =>
          // 3. its signature on the response is valid
          if !crypto.signatureValid(basicResp, ocspCert.publicKeyBits) then
            Fail(Rejected(SignatureInvalid))
          // 4. the signer is authorised
          else if !IsAuthorizedOcspSigner(ocspCert, issuer, conf) then
            Fail(Rejected(ResponderNotAuthorized))
          // 5. thisUpdate is recent enough
          else if IsExpired(singleResp, atDate, conf.validationFreshnessMinutes) then
            Fail(Rejected(TooOld))
          // 6. nextUpdate, when given, is not yet reached
          else if NextUpdatePassed(singleResp, atDate) then
            Fail(Rejected(NewerInfoAvailable))
          else Pass
  }

  // ---------------------------------------------------------------------
  // Status

  /** The text the source shows for a certificate status; `fmt` renders a date and time. */
  function StatusString(status: CertStatus, fmt: Millis -> string): (r: string)
    ensures r == "UNKNOWN" <==> status.Unknown?
    ensures r == "INVALID" <==> status.Good? || status.OtherStatus?
  {
    match status
    case Unknown => "UNKNOWN"
    case Revoked(t) => "REVOKED (date: " + fmt(t) + ")"
    case _ => "INVALID"
  }

  /** Passes exactly when the first entry's status is GOOD. */
  function VerifyStatus(resp: OcspResp, fmt: Millis -> string): (r: Outcome<OcspError>)
    ensures r == Pass <==> FirstSingle(resp).Success? && FirstSingle(resp).value.status.Good?
    ensures r.Fail? && r.error.Malformed? <==> FirstSingle(resp).Failure?
    ensures FirstSingle(resp).Success? && r.Fail? ==>
      && r.error.Code() == Some(CertValidation)
      && r.error.reason == BadStatus(StatusString(FirstSingle(resp).value.status, fmt))
  {
    match FirstSingle(resp)
    case Failure(e) => Fail(e)
    case Success(singleResp) =>
      if singleResp.status.Good? then Pass
      else Fail(Rejected(BadStatus(StatusString(singleResp.status, fmt))))
  }

  /** Validity first, then status; the first failure is the result. */
  function VerifyValidityAndStatus(resp: OcspResp, subject: Cert, issuer: Cert, atDate: Millis,
                                   conf: GlobalConf, crypto: Crypto, fmt: Millis -> string): (r: Outcome<OcspError>)
    ensures r == Pass <==>
      VerifyValidity(resp, subject, issuer, atDate, conf, crypto) == Pass && VerifyStatus(resp, fmt) == Pass
    ensures VerifyValidity(resp, subject, issuer, atDate, conf, crypto).Fail? ==>
      r == VerifyValidity(resp, subject, issuer, atDate, conf, crypto)
    ensures VerifyValidity(resp, subject, issuer, atDate, conf, crypto) == Pass ==>
      r == VerifyStatus(resp, fmt)
  {
    var validity := VerifyValidity(resp, subject, issuer, atDate, conf, crypto);
    if validity.Fail? then validity else VerifyStatus(resp, fmt)
  }
}
