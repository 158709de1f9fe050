/**
 Properties of the OCSP verifier: the validity check is exactly the ordered
 six-step checklist with the first failing step deciding the error, only the
 first entry of a response matters, the responder lookup scans its
 candidates in a fixed order, freshness boundaries are strict, and an
 accepted response always has GOOD status.
 */
module OcspProperties {
  import opened Results
  import opened OcspModel
  import opened OcspVerifier

  // ---------------------------------------------------------------------
  // The checklist as an independent reference

  /** One step of a checklist: whether it passes, and the reason it gives when it does not. */
  datatype Check = Check(passes: bool, reason: Reason)

  /** Runs `checks` in order and reports the reason of the first one that does not pass. */
  function FirstFailure(checks: seq<Check>): (r: Outcome<Reason>)
    ensures r == Pass <==> forall k :: 0 <= k < |checks| ==> checks[k].passes
    ensures r.Fail? ==>
      exists k :: 0 <= k < |checks| && !checks[k].passes && r.error == checks[k].reason
        && forall j :: 0 <= j < k ==> checks[j].passes
  {
    if |checks| == 0 then Pass
    else if !checks[0].passes then Fail(checks[0].reason)
    else
      var r := FirstFailure(checks[1..]);
      assert forall k :: 1 <= k < |checks| ==> checks[k] == checks[1..][k - 1];
      r
  }

  /**
   The checks of section 3.2 of RFC 2560 as the source performs them, as six
   steps: item 2 of the RFC is split into step 2 (a signer is found) and
   step 3 (its signature holds), and item 3 of the RFC (the signer is the
   intended recipient) is skipped. Steps 3 and 4 are about the signer found
   in step 2 and fail without one.
   */
  function ValidityChecks(single: SingleResp, basic: BasicResp, subject: Cert, issuer: Cert,
                          atDate: Millis, conf: GlobalConf, crypto: Crypto): seq<Check>
  {
    var signer := GetOcspCert(basic, conf, crypto);
    [ Check(single.certId == CreateCertId(subject, issuer, crypto), CertIdMismatch(subject.serial)),
      Check(signer.Some?, ResponderCertNotFound),
      Check(signer.Some? && crypto.signatureValid(basic, signer.value.publicKeyBits), SignatureInvalid),
      Check(signer.Some? && IsAuthorizedOcspSigner(signer.value, issuer, conf), ResponderNotAuthorized),
      Check(!IsExpired(single, atDate, conf.validationFreshnessMinutes), TooOld),
      Check(!NextUpdatePassed(single, atDate), NewerInfoAvailable) ]
  }

  function AsRejection(o: Outcome<Reason>): Outcome<OcspError>
  {
    match o
    case Pass => Pass
    case Fail(reason) => Fail(Rejected(reason))
  }

  /** verifyValidity is the checklist run in order. */
  lemma VerifyValidityFollowsChecklist(resp: OcspResp, subject: Cert, issuer: Cert, atDate: Millis,
                                       conf: GlobalConf, crypto: Crypto)
    requires FirstSingle(resp).Success?
    ensures VerifyValidity(resp, subject, issuer, atDate, conf, crypto)
         == AsRejection(FirstFailure(ValidityChecks(FirstSingle(resp).value, resp.body.value,
                                                    subject, issuer, atDate, conf, crypto)))
  {
    var checks := ValidityChecks(FirstSingle(resp).value, resp.body.value, subject, issuer, atDate, conf, crypto);
    var c1, c2, c3, c4, c5 := checks[1..], checks[2..], checks[3..], checks[4..], checks[5..];
    assert c1[1..] == c2 && c2[1..] == c3 && c3[1..] == c4 && c4[1..] == c5 && c5[1..] == [];
    assert FirstFailure(c5) == (if !checks[5].passes then Fail(checks[5].reason) else Pass);
    assert FirstFailure(c4) == (if !checks[4].passes then Fail(checks[4].reason) else FirstFailure(c5));
    assert FirstFailure(c3) == (if !checks[3].passes then Fail(checks[3].reason) else FirstFailure(c4));
    assert FirstFailure(c2) == (if !checks[2].passes then Fail(checks[2].reason) else FirstFailure(c3));
    assert FirstFailure(c1) == (if !checks[1].passes then Fail(checks[1].reason) else FirstFailure(c2));
  }

  /** verifyValidity succeeds exactly when the response can be read and all six steps pass. */
  lemma ValidityPassesIffAllStepsPass(resp: OcspResp, subject: Cert, issuer: Cert, atDate: Millis,
                                      conf: GlobalConf, crypto: Crypto)
    ensures VerifyValidity(resp, subject, issuer, atDate, conf, crypto) == Pass <==>
      && FirstSingle(resp).Success?
      && var checks := ValidityChecks(FirstSingle(resp).value, resp.body.value, subject, issuer, atDate, conf, crypto);
         forall k :: 0 <= k < |checks| ==> checks[k].passes
  {
    if FirstSingle(resp).Success? {
      VerifyValidityFollowsChecklist(resp, subject, issuer, atDate, conf, crypto);
    }
  }

  /** When step `k` is the first to fail, its reason is the error, whatever later steps say. */
  lemma FirstFailingStepDecides(resp: OcspResp, subject: Cert, issuer: Cert, atDate: Millis,
                                conf: GlobalConf, crypto: Crypto, k: nat)
    requires FirstSingle(resp).Success?
    requires k < 6
    requires var checks := ValidityChecks(FirstSingle(resp).value, resp.body.value, subject, issuer, atDate, conf, crypto);
      !checks[k].passes && forall j :: 0 <= j < k ==> checks[j].passes
    ensures VerifyValidity(resp, subject, issuer, atDate, conf, crypto)
         == Fail(Rejected(ValidityChecks(FirstSingle(resp).value, resp.body.value,
                                         subject, issuer, atDate, conf, crypto)[k].reason))
  {
    var checks := ValidityChecks(FirstSingle(resp).value, resp.body.value, subject, issuer, atDate, conf, crypto);
    VerifyValidityFollowsChecklist(resp, subject, issuer, atDate, conf, crypto);
    var r := FirstFailure(checks);
    assert r.Fail?;
    var k' :| 0 <= k' < |checks| && !checks[k'].passes && r.error == checks[k'].reason
              && forall j :: 0 <= j < k' ==> checks[j].passes;
    assert k' == k;
  }

  /** A response about another certificate is rejected at step 1, naming the subject's serial. */
  lemma CertIdMismatchDecides(resp: OcspResp, subject: Cert, issuer: Cert, atDate: Millis,
                              conf: GlobalConf, crypto: Crypto)
    requires FirstSingle(resp).Success?
    requires FirstSingle(resp).value.certId != CreateCertId(subject, issuer, crypto)
    ensures VerifyValidity(resp, subject, issuer, atDate, conf, crypto)
         == Fail(Rejected(CertIdMismatch(subject.serial)))
  {
    FirstFailingStepDecides(resp, subject, issuer, atDate, conf, crypto, 0);
  }

  /** In particular an entry naming another serial number is rejected with the subject's serial. */
  lemma SerialMismatchRejected(resp: OcspResp, subject: Cert, issuer: Cert, atDate: Millis,
                               conf: GlobalConf, crypto: Crypto)
    requires FirstSingle(resp).Success?
    requires FirstSingle(resp).value.certId.serial != subject.serial
    ensures VerifyValidity(resp, subject, issuer, atDate, conf, crypto)
         == Fail(Rejected(CertIdMismatch(subject.serial)))
  {
    CertIdMismatchDecides(resp, subject, issuer, atDate, conf, crypto);
  }

  /**
   Entries after the first never change a verdict: two responses that agree
   on everything but those entries (and whose signatures verify alike) get
   the same validity and status results.
   */
  lemma OnlyFirstEntryConsulted(b1: BasicResp, b2: BasicResp, subject: Cert, issuer: Cert,
                                atDate: Millis, conf: GlobalConf, crypto: Crypto, fmt: Millis -> string)
    requires |b1.responses| > 0 && |b2.responses| > 0
    requires b1.responses[0] == b2.responses[0]
    requires b1.responderId == b2.responderId && b1.certs == b2.certs
    requires forall key :: crypto.signatureValid(b1, key) == crypto.signatureValid(b2, key)
    ensures VerifyValidity(OcspResp(Some(b1)), subject, issuer, atDate, conf, crypto)
         == VerifyValidity(OcspResp(Some(b2)), subject, issuer, atDate, conf, crypto)
    ensures VerifyStatus(OcspResp(Some(b1)), fmt) == VerifyStatus(OcspResp(Some(b2)), fmt)
  {
    assert GetOcspCert(b1, conf, crypto) == GetOcspCert(b2, conf, crypto) by {
      assert OcspCerts(b1, conf) == OcspCerts(b2, conf);
    }
  }

  /**
   A correctly signed, fresh response whose signer was issued by the issuer
   with id-kp-OCSPSigning, reporting GOOD, is accepted.
   */
  lemma DelegatedResponderAccepted(resp: OcspResp, subject: Cert, issuer: Cert, atDate: Millis,
                                   conf: GlobalConf, crypto: Crypto, fmt: Millis -> string, signer: Cert)
    requires FirstSingle(resp).Success?
    requires FirstSingle(resp).value.certId == CreateCertId(subject, issuer, crypto)
    requires GetOcspCert(resp.body.value, conf, crypto) == Some(signer)
    requires crypto.signatureValid(resp.body.value, signer.publicKeyBits)
    requires signer.issuer == issuer.subject
    requires signer.extendedKeyUsage.Some? && ID_KP_OCSPSIGNING in signer.extendedKeyUsage.value
    requires !IsExpired(FirstSingle(resp).value, atDate, conf.validationFreshnessMinutes)
    requires !NextUpdatePassed(FirstSingle(resp).value, atDate)
    requires FirstSingle(resp).value.status.Good?
    ensures VerifyValidityAndStatus(resp, subject, issuer, atDate, conf, crypto, fmt) == Pass
  {
    ValidityPassesIffAllStepsPass(resp, subject, issuer, atDate, conf, crypto);
  }

  /**
   Nothing unverifiable is trusted: an accepted response is readable, about
   the subject, signed by a found and authorised responder, fresh, and GOOD.
   */
  lemma AcceptedResponseIsGood(resp: OcspResp, subject: Cert, issuer: Cert, atDate: Millis,
                               conf: GlobalConf, crypto: Crypto, fmt: Millis -> string)
    requires VerifyValidityAndStatus(resp, subject, issuer, atDate, conf, crypto, fmt) == Pass
    ensures FirstSingle(resp).Success?
    ensures var single := FirstSingle(resp).value;
      && single.status.Good?
      && single.certId == CreateCertId(subject, issuer, crypto)
      && GetOcspCert(resp.body.value, conf, crypto).Some?
      && crypto.signatureValid(resp.body.value, GetOcspCert(resp.body.value, conf, crypto).value.publicKeyBits)
      && IsAuthorizedOcspSigner(GetOcspCert(resp.body.value, conf, crypto).value, issuer, conf)
      && !IsExpired(single, atDate, conf.validationFreshnessMinutes)
      && !NextUpdatePassed(single, atDate)
  {
    ValidityPassesIffAllStepsPass(resp, subject, issuer, atDate, conf, crypto);
    var checks := ValidityChecks(FirstSingle(resp).value, resp.body.value, subject, issuer, atDate, conf, crypto);
    assert checks[0].passes && checks[1].passes && checks[2].passes;
    assert checks[3].passes && checks[4].passes && checks[5].passes;
  }

  // ---------------------------------------------------------------------
  // Responder lookup order

  /** Scanning `a + b` finds the first match of `a`, and only when `a` has none looks into `b`. */
  lemma {:induction false} FirstMatchingAppend(a: seq<Cert>, b: seq<Cert>, crit: Criterion, crypto: Crypto)
    ensures FirstMatching(a + b, crit, crypto)
         == if FirstMatching(a, crit, crypto).Some? then FirstMatching(a, crit, crypto)
            else FirstMatching(b, crit, crypto)
  {
    if |a| == 0 {
      assert a + b == b;
    } else {
      assert (a + b)[0] == a[0];
      assert (a + b)[1..] == a[1..] + b;
      FirstMatchingAppend(a[1..], b, crit, crypto);
    }
  }

  /**
   The responder certificates of the configuration are tried before the CA
   certificates, and both before the certificates embedded in the response.
   */
  lemma CandidateOrder(basic: BasicResp, conf: GlobalConf, crit: Criterion, crypto: Crypto)
    ensures FirstMatching(OcspCerts(basic, conf), crit, crypto)
         == if FirstMatching(conf.ocspResponderCerts, crit, crypto).Some? then
              FirstMatching(conf.ocspResponderCerts, crit, crypto)
            else if FirstMatching(conf.allCaCerts, crit, crypto).Some? then
              FirstMatching(conf.allCaCerts, crit, crypto)
            else FirstMatching(basic.certs, crit, crypto)
  {
    FirstMatchingAppend(conf.ocspResponderCerts + conf.allCaCerts, basic.certs, crit, crypto);
    FirstMatchingAppend(conf.ocspResponderCerts, conf.allCaCerts, crit, crypto);
  }

  /**
   A name in the responder ID wins over a key hash: when a name is given,
   whatever key hash accompanies it, the same certificate is found.
   */
  lemma NameTakesPrecedence(basic: BasicResp, conf: GlobalConf, crypto: Crypto, otherHash: Option<Bytes>)
    requires basic.responderId.name.Some?
    ensures GetOcspCert(basic.(responderId := basic.responderId.(keyHash := otherHash)), conf, crypto)
         == GetOcspCert(basic, conf, crypto)
  {
    var basic' := basic.(responderId := basic.responderId.(keyHash := otherHash));
    assert OcspCerts(basic', conf) == OcspCerts(basic, conf);
  }

  // ---------------------------------------------------------------------
  // Freshness

  /** The window boundary is strict: exactly at it is fresh, one millisecond past it is not. */
  lemma FreshnessBoundary(single: SingleResp, atDate: Millis, freshnessMinutes: int)
    ensures single.thisUpdate == atDate - freshnessMinutes * MILLIS_PER_MINUTE ==>
      !IsExpired(single, atDate, freshnessMinutes)
    ensures single.thisUpdate == atDate - freshnessMinutes * MILLIS_PER_MINUTE - 1 ==>
      IsExpired(single, atDate, freshnessMinutes)
  {
  }

  /** Expiry is permanent as time goes on, and a wider window never expires more. */
  lemma ExpiryIsMonotone(single: SingleResp, d1: Millis, d2: Millis, m1: int, m2: int)
    requires d1 <= d2 && m2 <= m1
    ensures IsExpired(single, d1, m1) ==> IsExpired(single, d2, m2)
  {
  }

  /**
   Step 6 of verifyValidity: without a nextUpdate it never fails; once steps
   1 to 5 pass, it rejects the response iff the nextUpdate lies strictly
   before atDate, and otherwise the response is valid.
   */
  lemma NextUpdateRule(resp: OcspResp, subject: Cert, issuer: Cert, atDate: Millis,
                       conf: GlobalConf, crypto: Crypto)
    requires FirstSingle(resp).Success?
    ensures FirstSingle(resp).value.nextUpdate.None? ==>
      VerifyValidity(resp, subject, issuer, atDate, conf, crypto) != Fail(Rejected(NewerInfoAvailable))
    ensures var checks := ValidityChecks(FirstSingle(resp).value, resp.body.value, subject, issuer, atDate, conf, crypto);
      var single := FirstSingle(resp).value;
      (forall k :: 0 <= k < 5 ==> checks[k].passes) ==>
        && ((VerifyValidity(resp, subject, issuer, atDate, conf, crypto) == Fail(Rejected(NewerInfoAvailable)))
            <==> (single.nextUpdate.Some? && single.nextUpdate.value < atDate))
        && ((VerifyValidity(resp, subject, issuer, atDate, conf, crypto) == Pass)
            <==> !(single.nextUpdate.Some? && single.nextUpdate.value < atDate))
  {
    var checks := ValidityChecks(FirstSingle(resp).value, resp.body.value, subject, issuer, atDate, conf, crypto);
    if forall k :: 0 <= k < 5 ==> checks[k].passes {
      ValidityPassesIffAllStepsPass(resp, subject, issuer, atDate, conf, crypto);
      if !checks[5].passes {
        FirstFailingStepDecides(resp, subject, issuer, atDate, conf, crypto, 5);
      }
    }
  }

  /** The cache probe is the freshness test with a fixed one-minute window at the current instant. */
  lemma ProbeIsOneMinuteWindow(resp: OcspResp, now: Millis)
    requires FirstSingle(resp).Success?
    ensures IsExpiredNow(resp, now) == Success(IsExpired(FirstSingle(resp).value, now, 1))
  {
  }

  // ---------------------------------------------------------------------
  // Status strings

  /** What a reader of an error message can tell about the status it names. */
  datatype StatusKind = UnknownKind | RevokedKind(date: string) | InvalidKind

  const REVOKED_PREFIX: string := "REVOKED (date: "

  /** Reads a status string back. */
  function ReadStatusString(s: string): StatusKind
  {
    if s == "UNKNOWN" then UnknownKind
    else if |s| > |REVOKED_PREFIX| && s[..|REVOKED_PREFIX|] == REVOKED_PREFIX && s[|s| - 1] == ')' then
      RevokedKind(s[|REVOKED_PREFIX|..|s| - 1])
    else InvalidKind
  }

  /**
   Status strings keep the kind of status apart and carry the revocation
   date: reading one back gives UNKNOWN, REVOKED with the formatted date, or
   INVALID for everything else (including the GOOD status, which is never
   reported).
   */
  lemma StatusStringRoundTrip(status: CertStatus, fmt: Millis -> string)
    ensures ReadStatusString(StatusString(status, fmt))
         == match status
            case Unknown => UnknownKind
            case Revoked(t) => RevokedKind(fmt(t))
            case _ => InvalidKind
  {
    match status
    case Revoked(t) =>
      var s := REVOKED_PREFIX + fmt(t) + ")";
      assert s[..|REVOKED_PREFIX|] == REVOKED_PREFIX;
      assert s[|REVOKED_PREFIX|..|s| - 1] == fmt(t);
      assert s != "UNKNOWN" by { assert s[0] == 'R'; }
    case Unknown =>
    case _ =>
  }

  /** A status error names the status: REVOKED with its date, or UNKNOWN. */
  lemma StatusErrorNamesStatus(resp: OcspResp, fmt: Millis -> string)
    requires FirstSingle(resp).Success?
    requires !FirstSingle(resp).value.status.Good?
    ensures VerifyStatus(resp, fmt).Fail?
    ensures var status := FirstSingle(resp).value.status;
      var kind := ReadStatusString(VerifyStatus(resp, fmt).error.reason.statusString);
      && (status.Revoked? ==> kind == RevokedKind(fmt(status.revocationTime)))
      && (status.Unknown? ==> kind == UnknownKind)
  {
    StatusStringRoundTrip(FirstSingle(resp).value.status, fmt);
  }
}
