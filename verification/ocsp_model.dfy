/**
 The data the OCSP verifier works on: certificates, parsed OCSP responses,
 and the collaborators the verifier consults (the global configuration and
 the cryptographic primitives), all as immutable values.

 Cryptography is abstract: a digest, the DER encoding of a name and the
 signature check are total functions supplied by the caller, so every
 property proved below holds for any choice of them.
 */
module OcspModel {
  import opened Results

  /** A point in time, in milliseconds since the epoch (java.util.Date). */
  type Millis = int

  type Bytes = seq<bv8>

  /** An X.500 distinguished name, compared as a whole. */
  datatype Name = Name(dn: string)

  /**
   An X.509 certificate, reduced to the parts the verifier reads. Two
   certificates are equal when all their parts are equal, which stands for
   the source's comparison of DER encodings.
   `extendedKeyUsage` is None when the certificate has no EKU extension
   (getExtendedKeyUsage() returns null).
   */
  datatype Cert = Cert(
    serial: int,
    subject: Name,
    issuer: Name,
    publicKeyBits: Bytes,
    extendedKeyUsage: Option<seq<string>>)

  /** The certificate identifier of section 4.1.1 of RFC 2560 (SHA-1 hash algorithm). */
  datatype CertId = CertId(issuerNameHash: Bytes, issuerKeyHash: Bytes, serial: int)

  /**
   The status of one certificate in a response. `Good` is the source's null
   status; `OtherStatus` is any status object that is neither UnknownStatus
   nor RevokedStatus.
   */
  datatype CertStatus = Good | Revoked(revocationTime: Millis) | Unknown | OtherStatus

  /** One single-certificate entry of a basic OCSP response. */
  datatype SingleResp = SingleResp(
    certId: CertId,
    status: CertStatus,
    thisUpdate: Millis,
    nextUpdate: Option<Millis>)

  /**
   The responder ID. Section 4.2.1 of RFC 2560 makes it a choice of name or
   key hash; the source tests the name first and the key hash second, so
   both are kept as optional parts.
   */
  datatype ResponderId = ResponderId(name: Option<Name>, keyHash: Option<Bytes>)

  /** A basic OCSP response: responder, entries, embedded certificates, signed bytes. */
  datatype BasicResp = BasicResp(
    responderId: ResponderId,
    responses: seq<SingleResp>,
    certs: seq<Cert>,
    signedData: Bytes,
    signature: Bytes)

  /** An OCSP response; `body` is None when it holds no basic response object. */
  datatype OcspResp = OcspResp(body: Option<BasicResp>)

  /** The global configuration as the verifier sees it (read-only). */
  datatype GlobalConf = GlobalConf(
    ocspResponderCerts: seq<Cert>,
    allCaCerts: seq<Cert>,
    validationFreshnessMinutes: int,
    isOcspResponderCert: (Cert, Cert) -> bool)  // (issuer, candidate)

  /** The cryptographic primitives, left uninterpreted. */
  datatype Crypto = Crypto(
    sha1: Bytes -> Bytes,
    nameDer: Name -> Bytes,
    signatureValid: (BasicResp, Bytes) -> bool)  // (response, signer public key bits)

  /** Error codes of the source's CodedException. */
  datatype ErrorCode = IncorrectValidationInfo | CertValidation

  /** Why a response was rejected; one constructor per distinct message of the source. */
  datatype Reason =
    | CertIdMismatch(subjectSerial: int)   // "does not apply to certificate (sn = ...)"
    | ResponderCertNotFound                // "Could not find OCSP certificate for responder ID"
    | SignatureInvalid                     // "Signature on OCSP response is not valid"
    | ResponderNotAuthorized               // "OCSP responder is not authorized for given CA"
    | TooOld                               // "OCSP response is too old"
    | NewerInfoAvailable                   // "... too old: newer information is available"
    | BadStatus(statusString: string)      // "certificate status is <status string>"

  /** A response the source cannot even read: its cast or its `[0]` index throws. */
  datatype Malformation = NotBasicResponse | NoSingleResponse

  datatype OcspError = Rejected(reason: Reason) | Malformed(cause: Malformation)
  {
    /** The error code a rejection carries; None for an unchecked exception. */
    function Code(): Option<ErrorCode> {
      match this
      case Malformed(_) => None
      case Rejected(BadStatus(_)) => Some(CertValidation)
      case Rejected(_) => Some(IncorrectValidationInfo)
    }
  }
}
