/** What both offline file types share: the library, the errors, and the events of a run. */
module Checkout {
  import opened Common
  import opened Utf8Text
  import opened JsonText

  datatype Scheme = Ed25519 | RsaPkcs1 | RsaPss | EcdsaP256 | RsaJwt

  /** Library calls and value conversions, left uninterpreted. */
  datatype Library = Library(
    /** `verify(public_key, message, signature)` for a scheme. */
    verify: (Scheme, bytes, bytes, bytes) -> bool,
    /** The id of a published public key. */
    keyId: string -> string,
    licenseFileKey: string -> bytes,
    machineFileKey: (string, string) -> bytes,
    /** AES-256-GCM open; `None` where the tag does not match. */
    openGcm: (bytes, bytes, bytes) -> Option<bytes>,
    /** Python's `int()` on a parsed value, `None` where it raises. */
    toInt: Value -> Option<int>,
    /** Python's `str()` on a parsed value. */
    toText: Value -> string
  )

  datatype Reason =
    | NotAscii
    | BadAlgorithm
    | AlgorithmMismatch
    | BadBase64
    | SecretRequired
    | BadLayout
    | TooShort
    | BadJson
    | MissingData
    | BadData
    | BadClaims

  datatype FileError =
    | InvalidSignature
    | InvalidTag
    | Expired(exp: int)
    | Malformed(reason: Reason)
    | SchemeNotSupported
    | SigningKeyNotApplicable(scheme: Scheme)
    | NoUsableSigningKey(available: seq<string>)
    | SigningKeyNotPublished(kid: string, tried: seq<string>)
    | UnknownSigningKey(kid: string, tried: seq<string>)

  /** What a run does with the file, in order. */
  datatype Event =
    | Checked(key: bytes, message: bytes, ok: bool)
    | Base64Decoded(text: string)
    | WasSplit(text: string)
    | Opened(nonce: bytes, ciphertext: bytes)

  datatype Run<+T> = Run(result: Result<T, FileError>, trace: seq<Event>)

  /** The signed claims. */
  datatype Claims = Claims(iat: int, jti: string, kid: string, exp: Option<int>)

  const CLOCK_SKEW_TOLERANCE_SECONDS := 60
  const NONCE_LENGTH := 12
  const GCM_TAG_LENGTH := 16

  /** `s.encode("ascii")`, `None` where it raises. */
  function Ascii(s: string): Option<bytes> {
    if IsAscii(s) then Some(Utf8(s)) else None
  }

  /** `_parse_claims`. An absent or null `exp` means the file never expires. */
  function ParseClaims(lib: Library, parsed: Value): Option<Claims> {
    if !parsed.ObjValue? || "meta" !in parsed.members || !parsed.members["meta"].ObjValue? then None
    else
      var meta := parsed.members["meta"].members;
      if "iat" !in meta || "jti" !in meta || "kid" !in meta then None
      else
        var exp := if "exp" in meta then meta["exp"] else NullValue;
        match (lib.toInt(meta["iat"]), if exp.NullValue? then Some(0) else lib.toInt(exp))
        case (Some(iat), Some(e)) =>
          Some(Claims(iat, lib.toText(meta["jti"]), lib.toText(meta["kid"]), if exp.NullValue? then None else Some(e)))
        case _ => None
  }

  /** `_enforce_expiry`: the reference time is the caller's, or else the clock's. */
  predicate HasExpired(claims: Claims, now: Option<int>, clock: int) {
    claims.exp.Some? &&
    (if now.Some? then now.value else clock) - CLOCK_SKEW_TOLERANCE_SECONDS > claims.exp.value
  }

  // ---------- Authenticate before decode ----------

  predicate IsDecode(e: Event) {
    !e.Checked?
  }

  /** Before event `i`, some key accepted exactly this message. */
  ghost predicate AcceptedBefore(trace: seq<Event>, i: nat, message: bytes)
    requires i <= |trace|
  {
    exists j :: 0 <= j < i && trace[j].Checked? && trace[j].ok && trace[j].message == message
  }

  /** Before event `i`, every one of these keys refused exactly this message. */
  ghost predicate RefusedBefore(trace: seq<Event>, i: nat, message: bytes, publicKeys: seq<bytes>)
    requires i <= |trace|
  {
    forall k :: 0 <= k < |publicKeys| ==> Checked(publicKeys[k], message, false) in trace[..i]
  }

  /**
   * Every split, decode and decrypt comes after a successful check of the message, or after every
   * key has refused it in a run that ends in an error.
   */
  ghost predicate AuthenticatesFirst<T>(run: Run<T>, message: bytes, publicKeys: seq<bytes>) {
    forall i :: 0 <= i < |run.trace| && IsDecode(run.trace[i]) ==>
      || AcceptedBefore(run.trace, i, message)
      || (run.result.Err? && RefusedBefore(run.trace, i, message, publicKeys))
  }

  /** Checks that end in an acceptance make everything after them authenticated. */
  lemma AcceptedThenAnything(checks: seq<Event>, rest: seq<Event>, i: nat, message: bytes)
    requires AcceptedBefore(checks, |checks|, message)
    requires |checks| <= i <= |checks| + |rest|
    ensures AcceptedBefore(checks + rest, i, message)
  {
    var j :| 0 <= j < |checks| && checks[j].Checked? && checks[j].ok && checks[j].message == message;
    assert (checks + rest)[j] == checks[j];
  }
}
