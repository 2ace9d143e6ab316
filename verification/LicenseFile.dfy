/** Offline `.lic` files: decode, verify against one key, verify against a key set. */
module LicenseFiles {
  import opened Common
  import opened JsonText
  import opened Checkout
  import opened KeySet
  import Base64
  import Envelope

  const ALG_PLAIN: string := "base64+ed25519+v2"
  const ALG_ENCRYPTED: string := "aes-256-gcm+ed25519+v2"

  datatype LicenseFile = LicenseFile(enc: string, sig: bytes, alg: string)

  datatype LicenseResource = LicenseResource(id: Value, kind: Value, attributes: map<string, Value>,
                                             relationships: map<string, Value>)

  datatype ParseError = BadEnvelope(error: Envelope.EnvelopeError) | UnsupportedAlgorithm

  /** `LicenseFile.parse`. */
  function Parse(certificate: string): Result<LicenseFile, ParseError> {
    match Envelope.ParseEnvelope(certificate, Envelope.LICENSE_HEADER, Envelope.LICENSE_FOOTER)
    case Err(e) => Err(BadEnvelope(e))
    case Ok(c) =>
      if c.alg != ALG_PLAIN && c.alg != ALG_ENCRYPTED then Err(UnsupportedAlgorithm)
      else Ok(LicenseFile(c.enc, c.sig, c.alg))
  }

  /** `_decode_payload`, with the events it causes. */
  function DecodePayload(lib: Library, file: LicenseFile, licenseKey: Option<string>): Run<bytes> {
    var decoded := [Base64Decoded(file.enc)];
    match Base64.DecodeStrict(file.enc)
    case None => Run(Err(Malformed(BadBase64)), decoded)
    case Some(payload) =>
      if file.alg != ALG_ENCRYPTED then Run(Ok(payload), decoded)
      else if licenseKey.None? then Run(Err(Malformed(SecretRequired)), decoded)
      else if |payload| < NONCE_LENGTH + GCM_TAG_LENGTH then Run(Err(Malformed(TooShort)), decoded)
      else
        var nonce, ciphertext := payload[..NONCE_LENGTH], payload[NONCE_LENGTH..];
        var both := decoded + [Opened(nonce, ciphertext)];
        match lib.openGcm(lib.licenseFileKey(licenseKey.value), nonce, ciphertext)
        case None => Run(Err(InvalidTag), both)
        case Some(plaintext) => Run(Ok(plaintext), both)
  }

  /** An object member that may be absent or null, and must otherwise be an object. */
  function ObjectMember(data: map<string, Value>, key: string): Option<map<string, Value>> {
    if key !in data || data[key].NullValue? then Some(map[])
    else if data[key].ObjValue? then Some(data[key].members)
    else None
  }

  /** `_license_resource_from`. */
  function ResourceFrom(data: Value): Option<LicenseResource> {
    if !data.ObjValue? || "id" !in data.members || "type" !in data.members then None
    else
      match (ObjectMember(data.members, "attributes"), ObjectMember(data.members, "relationships"))
      case (Some(a), Some(r)) => Some(LicenseResource(data.members["id"], data.members["type"], a, r))
      case _ => None
  }

  /** Everything after decoding: parse, claims, expiry, resource. */
  function Accept(lib: Library, plaintext: bytes, now: Option<int>, clock: int)
    : Result<(LicenseResource, Claims), FileError>
  {
    match Loads(plaintext)
    case None => Err(Malformed(BadJson))
    case Some(parsed) =>
      if !parsed.ObjValue? || "data" !in parsed.members then Err(Malformed(MissingData))
      else
        match ParseClaims(lib, parsed)
        case None => Err(Malformed(BadClaims))
        case Some(claims) =>
          if HasExpired(claims, now, clock) then Err(Expired(claims.exp.value))
          else
            match ResourceFrom(parsed.members["data"])
            case None => Err(Malformed(BadData))
            case Some(resource) => Ok((resource, claims))
  }

  /** The stages behind a signature that has passed. */
  function AfterSignature(lib: Library, file: LicenseFile, licenseKey: Option<string>, now: Option<int>, clock: int)
    : Run<(LicenseResource, Claims)>
  {
    var payload := DecodePayload(lib, file, licenseKey);
    match payload.result
    case Err(e) => Run(Err(e), payload.trace)
    case Ok(plaintext) => Run(Accept(lib, plaintext, now, clock), payload.trace)
  }

  /** `verify_with_claims`: one public key. */
  function Verify(lib: Library, file: LicenseFile, publicKey: bytes, licenseKey: Option<string>,
                  now: Option<int>, clock: int): Run<(LicenseResource, Claims)>
  {
    match Ascii(file.enc)
    case None => Run(Err(Malformed(NotAscii)), [])
    case Some(message) =>
      var ok := lib.verify(Ed25519, publicKey, message, file.sig);
      var check := [Checked(publicKey, message, ok)];
      if !ok then Run(Err(InvalidSignature), check)
      else
        var rest := AfterSignature(lib, file, licenseKey, now, clock);
        Run(rest.result, check + rest.trace)
  }

  /** `_unverified_kid`: the claim read without a signature, for an error label only. */
  function UnverifiedKid(lib: Library, file: LicenseFile, licenseKey: Option<string>): Claimed {
    var payload := DecodePayload(lib, file, licenseKey);
    var kid :=
      match payload.result
      case Err(_) => None
      case Ok(plaintext) =>
        match Loads(plaintext)
        case None => None
        case Some(parsed) =>
          match ParseClaims(lib, parsed)
          case None => None
          case Some(claims) => Some(claims.kid);
    Claimed(kid, payload.trace)
  }

  datatype VerifiedLicenseFile = VerifiedLicenseFile(resource: LicenseResource, claims: Claims, key: SigningKey)

  /** `verify_with_key_set`: pick the key by signature, then run the one-key pipeline under it. */
  function VerifyWithKeySet(lib: Library, file: LicenseFile, keys: seq<SigningKey>, licenseKey: Option<string>,
                            now: Option<int>, clock: int): Run<VerifiedLicenseFile>
  {
    match Ascii(file.enc)
    case None => Run(Err(Malformed(NotAscii)), [])
    case Some(message) =>
      var resolved := Resolve(lib, keys, message, file.sig, UnverifiedKid(lib, file, licenseKey));
      match resolved.result
      case Err(e) => Run(Err(e), resolved.trace)
      case Ok(key) =>
        ResolveClassified(lib, keys, message, file.sig, UnverifiedKid(lib, file, licenseKey));
        var run := Verify(lib, file, KeyBytes(key), licenseKey, now, clock);
        match run.result
        case Err(e) => Run(Err(e), resolved.trace + run.trace)
        case Ok((resource, claims)) => Run(Ok(VerifiedLicenseFile(resource, claims, key)), resolved.trace + run.trace)
  }

  /** A license file is an envelope between these markers under one of two algorithms; any other is refused as such. */
  lemma ParseExactly(certificate: string)
    ensures
      var parsed := Envelope.ParseEnvelope(certificate, "-----BEGIN LICENSE FILE-----", "-----END LICENSE FILE-----");
      var r := Parse(certificate);
      match parsed
      case Err(e) => r == Err(BadEnvelope(e))
      case Ok(c) =>
        if c.alg == "base64+ed25519+v2" || c.alg == "aes-256-gcm+ed25519+v2" then
          r.Ok? && r.value.enc == c.enc && r.value.sig == c.sig && r.value.alg == c.alg
        else r == Err(UnsupportedAlgorithm)
  {
  }

  /** A payload that is not base64 is refused, under every algorithm. */
  lemma UndecodablePayload(lib: Library, file: LicenseFile, licenseKey: Option<string>)
    requires Base64.DecodeStrict(file.enc).None?
    ensures DecodePayload(lib, file, licenseKey) == Run(Err(Malformed(BadBase64)), [Base64Decoded(file.enc)])
  {
  }

  // ---------- The payload layout ----------

  /** A plain payload decodes to its bytes, with any of its padding missing. */
  lemma PlainPayloadRoundTrip(lib: Library, file: LicenseFile, plaintext: bytes, dropped: nat,
                              licenseKey: Option<string>)
    requires file.alg == ALG_PLAIN && dropped <= Base64.PadCount(plaintext)
    requires dropped <= |Base64.Encode(plaintext)|
    requires file.enc == Base64.Encode(plaintext)[..|Base64.Encode(plaintext)| - dropped]
    ensures DecodePayload(lib, file, licenseKey) == Run(Ok(plaintext), [Base64Decoded(file.enc)])
  {
    Base64.StrictRoundTrip(plaintext, dropped);
    assert ALG_PLAIN[0] == 'b' && ALG_ENCRYPTED[0] == 'a';
  }

  /**
   * Every encrypted payload: without a license key, under 28 bytes, or not opened by the key it is refused,
   * each with its own error; otherwise it is what its bytes after the first 12 open to with those as nonce.
   */
  lemma EncryptedPayloadExactly(lib: Library, file: LicenseFile, licenseKey: Option<string>, blob: bytes)
    requires file.alg == ALG_ENCRYPTED && file.enc == Base64.Encode(blob)
    ensures DecodePayload(lib, file, licenseKey).trace
         == [Base64Decoded(file.enc)]
            + (if licenseKey.None? || |blob| < 28 then [] else [Opened(blob[..12], blob[12..])])
    ensures
      var r := DecodePayload(lib, file, licenseKey).result;
      if licenseKey.None? then r == Err(Malformed(SecretRequired))
      else if |blob| < 28 then r == Err(Malformed(TooShort))
      else
        match lib.openGcm(lib.licenseFileKey(licenseKey.value), blob[..12], blob[12..])
        case None => r == Err(InvalidTag)
        case Some(plaintext) => r == Ok(plaintext)
  {
    Base64.StrictWhole(blob);
  }

  /** An encrypted payload is one blob: nonce, then ciphertext and tag. */
  lemma EncryptedPayloadRoundTrip(lib: Library, file: LicenseFile, licenseKey: string,
                                  nonce: bytes, ciphertext: bytes, plaintext: bytes)
    requires file.alg == ALG_ENCRYPTED && |nonce| == 12 && |ciphertext| >= 16
    requires file.enc == Base64.Encode(nonce + ciphertext)
    ensures lib.openGcm(lib.licenseFileKey(licenseKey), nonce, ciphertext) == Some(plaintext)
            ==> DecodePayload(lib, file, Some(licenseKey)).result == Ok(plaintext)
  {
    var blob := nonce + ciphertext;
    EncryptedPayloadExactly(lib, file, Some(licenseKey), blob);
    assert blob[..12] == nonce && blob[12..] == ciphertext;
  }

  // ---------- Refinement ----------

  /** Some usable key makes the one-key pipeline return this. */
  ghost predicate OneKeyGives(lib: Library, file: LicenseFile, keys: seq<SigningKey>, licenseKey: Option<string>,
                              now: Option<int>, clock: int, result: Result<(LicenseResource, Claims), FileError>)
  {
    exists key :: key in keys && Usable(key)
      && Verify(lib, file, KeyBytes(key), licenseKey, now, clock).result == result
  }

  /** A key's signature holds over this file. */
  ghost predicate Signs(lib: Library, file: LicenseFile, key: SigningKey) {
    Usable(key) && Ascii(file.enc).Some? && Verifies(lib, key, Ascii(file.enc).value, file.sig)
  }

  /** Once the signature holds, the key no longer matters. */
  lemma AfterAnyKey(lib: Library, file: LicenseFile, key: SigningKey, licenseKey: Option<string>,
                    now: Option<int>, clock: int)
    requires Signs(lib, file, key)
    ensures Verify(lib, file, KeyBytes(key), licenseKey, now, clock).result
         == AfterSignature(lib, file, licenseKey, now, clock).result
  {
  }

  /** With a signing key in the set, the set gives just what any signing key gives: result or error. */
  lemma KeySetFollowsSigner(lib: Library, file: LicenseFile, keys: seq<SigningKey>, key: SigningKey,
                            licenseKey: Option<string>, now: Option<int>, clock: int)
    requires key in keys && Signs(lib, file, key)
    ensures
      var single := Verify(lib, file, KeyBytes(key), licenseKey, now, clock).result;
      var whole := VerifyWithKeySet(lib, file, keys, licenseKey, now, clock).result;
      && (single.Err? ==> whole == Err(single.error))
      && (single.Ok? ==> whole.Ok? && (whole.value.resource, whole.value.claims) == single.value
                         && whole.value.key in keys && Signs(lib, file, whole.value.key))
  {
    var message := Ascii(file.enc).value;
    var claimed := UnverifiedKid(lib, file, licenseKey);
    ResolveClassified(lib, keys, message, file.sig, claimed);
    AfterAnyKey(lib, file, key, licenseKey, now, clock);
    var first := Resolve(lib, keys, message, file.sig, claimed).result.value;
    AfterAnyKey(lib, file, first, licenseKey, now, clock);
  }

  /** The key set accepts a resource and claims exactly when some usable key of it does. */
  lemma KeySetRefinesOneKey(lib: Library, file: LicenseFile, keys: seq<SigningKey>, licenseKey: Option<string>,
                            now: Option<int>, clock: int, resource: LicenseResource, claims: Claims)
    ensures
      var r := VerifyWithKeySet(lib, file, keys, licenseKey, now, clock).result;
      (r.Ok? && r.value.resource == resource && r.value.claims == claims)
      <==> OneKeyGives(lib, file, keys, licenseKey, now, clock, Ok((resource, claims)))
  {
    var r := VerifyWithKeySet(lib, file, keys, licenseKey, now, clock).result;
    if OneKeyGives(lib, file, keys, licenseKey, now, clock, Ok((resource, claims))) {
      var key :| key in keys && Usable(key)
                 && Verify(lib, file, KeyBytes(key), licenseKey, now, clock).result == Ok((resource, claims));
      KeySetFollowsSigner(lib, file, keys, key, licenseKey, now, clock);
    }
    if r.Ok? {
      var claimed := UnverifiedKid(lib, file, licenseKey);
      ResolveClassified(lib, keys, Ascii(file.enc).value, file.sig, claimed);
      KeySetFollowsSigner(lib, file, keys, r.value.key, licenseKey, now, clock);
    }
  }

  /** When no usable key signed the file, the outcome is the resolver's error and nothing is accepted. */
  lemma NoSignerNoResource(lib: Library, file: LicenseFile, keys: seq<SigningKey>, licenseKey: Option<string>,
                           now: Option<int>, clock: int)
    requires forall key :: key in keys ==> !Signs(lib, file, key)
    ensures
      var r := VerifyWithKeySet(lib, file, keys, licenseKey, now, clock).result;
      r == (match Ascii(file.enc)
            case None => Err(Malformed(NotAscii))
            case Some(message) => Err(
              if UsableKeys(keys) == [] then NoUsableSigningKey(Kids(keys))
              else Refusal(lib, keys, UnverifiedKid(lib, file, licenseKey).kid)))
  {
    if Ascii(file.enc).Some? {
      FirstVerifyingExists(lib, keys, Ascii(file.enc).value, file.sig);
    }
  }

  /** Holding more keys never loses an accepted file: same resource, same claims. */
  lemma MoreKeysStillAccept(lib: Library, file: LicenseFile, fewer: seq<SigningKey>, more: seq<SigningKey>,
                            licenseKey: Option<string>, now: Option<int>, clock: int)
    requires forall key :: key in fewer ==> key in more
    ensures
      var before := VerifyWithKeySet(lib, file, fewer, licenseKey, now, clock).result;
      var after := VerifyWithKeySet(lib, file, more, licenseKey, now, clock).result;
      before.Ok? ==>
        after.Ok? && after.value.resource == before.value.resource && after.value.claims == before.value.claims
  {
    var before := VerifyWithKeySet(lib, file, fewer, licenseKey, now, clock).result;
    if before.Ok? {
      var resource, claims := before.value.resource, before.value.claims;
      KeySetRefinesOneKey(lib, file, fewer, licenseKey, now, clock, resource, claims);
      KeySetRefinesOneKey(lib, file, more, licenseKey, now, clock, resource, claims);
      var key :| key in fewer && Usable(key)
                 && Verify(lib, file, KeyBytes(key), licenseKey, now, clock).result == Ok((resource, claims));
      assert key in more;
    }
  }

  // ---------- Authenticate before decode ----------

  /**
   * One key: the first event is the check, decoding happens only when it passed, and nothing that decoding
   * does is left out; without a passed check the file is refused as such.
   */
  lemma VerifyAuthenticatesFirst(lib: Library, file: LicenseFile, publicKey: bytes, licenseKey: Option<string>,
                                 now: Option<int>, clock: int, message: bytes)
    requires Ascii(file.enc) == Some(message)
    ensures
      var run := Verify(lib, file, publicKey, licenseKey, now, clock);
      forall i :: 0 <= i < |run.trace| && IsDecode(run.trace[i]) ==> AcceptedBefore(run.trace, i, message)
    ensures
      var run := Verify(lib, file, publicKey, licenseKey, now, clock);
      var ok := lib.verify(Ed25519, publicKey, message, file.sig);
      && run.trace == [Checked(publicKey, message, ok)]
                      + (if ok then DecodePayload(lib, file, licenseKey).trace else [])
      && (!ok ==> run.result == Err(InvalidSignature))
  {
    var run := Verify(lib, file, publicKey, licenseKey, now, clock);
    forall i | 0 <= i < |run.trace| && IsDecode(run.trace[i]) ensures AcceptedBefore(run.trace, i, message) {
      assert run.trace[0].Checked? && run.trace[0].ok && run.trace[0].message == message;
    }
  }

  /** Text that is not ASCII is refused before any check, by a key and by every set. */
  lemma NotAsciiRefused(lib: Library, file: LicenseFile, publicKey: bytes, keys: seq<SigningKey>,
                        licenseKey: Option<string>, now: Option<int>, clock: int)
    requires exists i :: 0 <= i < |file.enc| && file.enc[i] as int > 127
    ensures Verify(lib, file, publicKey, licenseKey, now, clock) == Run(Err(Malformed(NotAscii)), [])
    ensures VerifyWithKeySet(lib, file, keys, licenseKey, now, clock) == Run(Err(Malformed(NotAscii)), [])
  {
  }

  /** The trace of a set is all of its checks and then all that its key, or the reading of the claim, does. */
  lemma KeySetTrace(lib: Library, file: LicenseFile, keys: seq<SigningKey>, licenseKey: Option<string>,
                    now: Option<int>, clock: int, message: bytes)
    requires Ascii(file.enc) == Some(message) && UsableKeys(keys) != []
    ensures
      var run := VerifyWithKeySet(lib, file, keys, licenseKey, now, clock);
      var checks := Checks(lib, UsableKeys(keys), message, file.sig);
      match FirstVerifying(lib, UsableKeys(keys), message, file.sig)
      case Some(key) => run.trace == checks + Verify(lib, file, KeyBytes(key), licenseKey, now, clock).trace
      case None => run.trace == checks + DecodePayload(lib, file, licenseKey).trace
  {
  }

  /** Key set: no split, decode or decrypt precedes authentication, except to label an error. */
  lemma KeySetAuthenticatesFirst(lib: Library, file: LicenseFile, keys: seq<SigningKey>, licenseKey: Option<string>,
                                 now: Option<int>, clock: int, message: bytes)
    requires Ascii(file.enc) == Some(message)
    ensures AuthenticatesFirst(VerifyWithKeySet(lib, file, keys, licenseKey, now, clock), message,
        PublicKeys(UsableKeys(keys)))
  {
    var claimed := UnverifiedKid(lib, file, licenseKey);
    var run := VerifyWithKeySet(lib, file, keys, licenseKey, now, clock);
    ResolveTrace(lib, keys, message, file.sig, claimed);
    var resolved := Resolve(lib, keys, message, file.sig, claimed);
    if resolved.result.Ok? {
      forall i | 0 <= i < |run.trace| && IsDecode(run.trace[i]) ensures AcceptedBefore(run.trace, i, message) {
        var checks := resolved.trace;
        var rest := run.trace[|checks|..];
        assert run.trace == checks + rest;
        assert |checks| <= i;
        AcceptedThenAnything(checks, rest, i, message);
      }
    }
  }

  /** A returned resource was built from a payload some usable key had signed. */
  lemma ResourceIsAuthenticated(lib: Library, file: LicenseFile, keys: seq<SigningKey>, licenseKey: Option<string>,
                                now: Option<int>, clock: int)
    ensures
      var r := VerifyWithKeySet(lib, file, keys, licenseKey, now, clock).result;
      r.Ok? ==>
        && r.value.key in keys && Signs(lib, file, r.value.key)
        && DecodePayload(lib, file, licenseKey).result.Ok?
        && Accept(lib, DecodePayload(lib, file, licenseKey).result.value, now, clock)
          == Ok((r.value.resource, r.value.claims))
  {
    var r := VerifyWithKeySet(lib, file, keys, licenseKey, now, clock).result;
    if r.Ok? {
      ResolveClassified(lib, keys, Ascii(file.enc).value, file.sig, UnverifiedKid(lib, file, licenseKey));
      AfterAnyKey(lib, file, r.value.key, licenseKey, now, clock);
    }
  }

  // ---------- Time and the claimed key ----------

  /** What the later clock says of the same payload: the same, or that it has expired. */
  lemma LaterOnlyExpires(lib: Library, plaintext: bytes, now: int, later: int, clock: int)
    requires now <= later
    ensures
      var before, after := Accept(lib, plaintext, Some(now), clock), Accept(lib, plaintext, Some(later), clock);
      after == before || (after.Err? && after.error.Expired?)
  {
  }

  /** What accepting a payload says about its claims and the time. */
  lemma AcceptedInTime(lib: Library, plaintext: bytes, now: Option<int>, clock: int)
    ensures
      var reference := if now.Some? then now.value else clock;
      match Accept(lib, plaintext, now, clock)
      case Ok((_, claims)) =>
        && Loads(plaintext).Some? && ParseClaims(lib, Loads(plaintext).value) == Some(claims)
        && (claims.exp.Some? ==> reference <= claims.exp.value + 60)
      case Err(Expired(exp)) => reference > exp + 60
      case _ => true
  {
  }

  lemma DecodeNeverExpires(lib: Library, file: LicenseFile, licenseKey: Option<string>)
    ensures
      var payload := DecodePayload(lib, file, licenseKey).result;
      payload.Err? ==> !payload.error.Expired?
  {
  }

  /** A success or an expiry is the payload's own verdict. */
  lemma VerdictOfPayload(lib: Library, file: LicenseFile, publicKey: bytes, licenseKey: Option<string>,
                         now: Option<int>, clock: int)
    ensures
      var r := Verify(lib, file, publicKey, licenseKey, now, clock).result;
      var payload := DecodePayload(lib, file, licenseKey).result;
      r.Ok? || r.error.Expired? ==> payload.Ok? && r == Accept(lib, payload.value, now, clock)
  {
    DecodeNeverExpires(lib, file, licenseKey);
  }

  /** An accepted file is at most the skew past its signed expiry, and an expired one is further past it. */
  lemma ExpiryEnforced(lib: Library, file: LicenseFile, publicKey: bytes, licenseKey: Option<string>,
                       now: Option<int>, clock: int)
    ensures
      var reference := if now.Some? then now.value else clock;
      match Verify(lib, file, publicKey, licenseKey, now, clock).result
      case Ok((_, claims)) => claims.exp.Some? ==> reference <= claims.exp.value + 60
      case Err(Expired(exp)) => reference > exp + 60
      case _ => true
  {
    VerdictOfPayload(lib, file, publicKey, licenseKey, now, clock);
    var payload := DecodePayload(lib, file, licenseKey).result;
    if payload.Ok? {
      AcceptedInTime(lib, payload.value, now, clock);
    }
  }

  /** The id read from a file without a signature is the one its verified claims carry. */
  lemma UnverifiedKidIsTheSignedOne(lib: Library, file: LicenseFile, publicKey: bytes, licenseKey: Option<string>,
                                    now: Option<int>, clock: int)
    ensures
      var r := Verify(lib, file, publicKey, licenseKey, now, clock).result;
      r.Ok? ==> UnverifiedKid(lib, file, licenseKey).kid == Some(r.value.1.kid)
  {
    VerdictOfPayload(lib, file, publicKey, licenseKey, now, clock);
    var payload := DecodePayload(lib, file, licenseKey).result;
    if payload.Ok? {
      AcceptedInTime(lib, payload.value, now, clock);
    }
  }
}
