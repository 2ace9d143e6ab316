/** Offline machine files: the `alg` vocabulary, the two-part payload, and verification by scheme. */
module MachineFiles {
  import opened Common
  import opened JsonText
  import opened Checkout
  import opened KeySet
  import Base64
  import Envelope
  import LicenseFiles

  const ENC_PREFIX_PLAIN: string := "base64"
  const ENC_PREFIX_ENCRYPTED: string := "aes-256-gcm"
  const ENC_SEPARATOR: char := '.'
  const ALG_V2_MARKER: string := "v2"

  datatype MachineFile = MachineFile(enc: string, sig: bytes, alg: string)

  datatype HeartbeatStatus = NotStarted | Alive | Dead | Resurrected

  datatype MachineResource = MachineResource(id: Value, attributes: map<string, Value>, heartbeat: HeartbeatStatus)

  // ---------- The algorithm string ----------

  /** Where `c` first occurs, or the length. */
  function FirstIndex(s: string, c: char): (i: nat)
    ensures i <= |s|
    ensures i < |s| ==> s[i] == c
    ensures forall j :: 0 <= j < i ==> s[j] != c
  {
    if s == "" || s[0] == c then 0
    else
      assert forall j :: 0 < j < |s| ==> s[j] == s[1..][j - 1];
      1 + FirstIndex(s[1..], c)
  }

  /** Where `c` last occurs, or the length. */
  function LastIndex(s: string, c: char): (i: nat)
    ensures i <= |s|
    ensures i < |s| ==> s[i] == c && forall j :: i < j < |s| ==> s[j] != c
    ensures i == |s| ==> forall j :: 0 <= j < |s| ==> s[j] != c
  {
    if s == "" then 0
    else if s[|s| - 1] == c then |s| - 1
    else
      var k := LastIndex(s[..|s| - 1], c);
      if k == |s| - 1 then |s| else k
  }

  /** The signing suffix the server writes for a scheme; the rejected scheme has none here. */
  function AlgSuffix(scheme: Scheme): Option<string> {
    match scheme
    case Ed25519 => Some("ed25519")
    case RsaPkcs1 => Some("rsa-sha256")
    case RsaPss => Some("rsa-pss-sha256")
    case EcdsaP256 => Some("ecdsa-p256")
    case RsaJwt => None
  }

  predicate IsPrefix(p: string) {
    p == ENC_PREFIX_PLAIN || p == ENC_PREFIX_ENCRYPTED
  }

  predicate IsSuffix(s: string) {
    s == "ed25519" || s == "rsa-sha256" || s == "rsa-pss-sha256" || s == "ecdsa-p256"
  }

  /** `{prefix}+{suffix}+v2`. */
  function AlgText(prefix: string, suffix: string): string {
    prefix + "+" + suffix + "+" + ALG_V2_MARKER
  }

  /** `VALID_ALGORITHMS`. */
  predicate InVocabulary(alg: string) {
    alg in (set p, s | p in {ENC_PREFIX_PLAIN, ENC_PREFIX_ENCRYPTED} &&
                       s in {"ed25519", "rsa-sha256", "rsa-pss-sha256", "ecdsa-p256"} :: AlgText(p, s))
  }

  /** `_validate_alg`: first `+`, last `+`, marker, then the closed vocabulary. */
  function ValidateAlg(alg: string): Option<(string, string)> {
    var first := FirstIndex(alg, '+');
    if first == |alg| then None
    else
      var prefix, remainder := alg[..first], alg[first + 1..];
      var last := LastIndex(remainder, '+');
      if last == |remainder| || remainder[last + 1..] != ALG_V2_MARKER || !InVocabulary(alg) then None
      else Some((prefix, remainder[..last]))
  }

  predicate NoPlus(s: string) {
    forall i :: 0 <= i < |s| ==> s[i] != '+'
  }

  lemma VocabularyHasNoPlus(p: string, s: string)
    requires IsPrefix(p) && IsSuffix(s)
    ensures NoPlus(p) && NoPlus(s) && NoPlus(ALG_V2_MARKER)
  {
  }

  /** The first `+` ends the prefix and the last one starts the marker. */
  lemma CutAtPlus(p: string, s: string, marker: string)
    requires NoPlus(p) && NoPlus(s) && NoPlus(marker)
    ensures
      var text := p + "+" + s + "+" + marker;
      var remainder := text[|p| + 1..];
      && FirstIndex(text, '+') == |p| < |text| && text[..|p|] == p
      && LastIndex(remainder, '+') == |s| < |remainder| && remainder[..|s|] == s && remainder[|s| + 1..] == marker
  {
    var text := p + "+" + s + "+" + marker;
    assert text[|p|] == '+';
    assert forall i :: 0 <= i < |p| ==> text[i] == p[i];
    var remainder := text[|p| + 1..];
    assert remainder == s + "+" + marker;
    assert remainder[|s|] == '+';
    assert forall i :: |s| < i < |remainder| ==> remainder[i] == marker[i - |s| - 1];
  }

  lemma JoinedInVocabulary(p: string, s: string)
    requires IsPrefix(p) && IsSuffix(s)
    ensures InVocabulary(AlgText(p, s))
  {
  }

  /** Cutting at the first and the last `+` splits every valid algorithm where it was joined. */
  lemma AlgSplits(p: string, s: string)
    requires IsPrefix(p) && IsSuffix(s)
    ensures ValidateAlg(AlgText(p, s)) == Some((p, s))
  {
    VocabularyHasNoPlus(p, s);
    CutAtPlus(p, s, ALG_V2_MARKER);
    JoinedInVocabulary(p, s);
  }

  /** Exactly the strings `{prefix}+{suffix}+v2` are accepted, and each yields its own two parts. */
  lemma ValidateAlgExact(alg: string, p: string, s: string)
    ensures ValidateAlg(alg) == Some((p, s)) <==> IsPrefix(p) && IsSuffix(s) && alg == AlgText(p, s)
  {
    if IsPrefix(p) && IsSuffix(s) && alg == AlgText(p, s) {
      AlgSplits(p, s);
    }
    if ValidateAlg(alg).Some? {
      var q, t :| IsPrefix(q) && IsSuffix(t) && alg == AlgText(q, t);
      AlgSplits(q, t);
    }
  }

  /** The eight texts as they stand in a file: for each scheme the plain one and the encrypted one. */
  function WireAlg(scheme: Scheme, encrypted: bool): string
    requires !scheme.RsaJwt?
  {
    match (scheme, encrypted)
    case (Ed25519, false) => "base64+ed25519+v2"
    case (Ed25519, true) => "aes-256-gcm+ed25519+v2"
    case (RsaPkcs1, false) => "base64+rsa-sha256+v2"
    case (RsaPkcs1, true) => "aes-256-gcm+rsa-sha256+v2"
    case (RsaPss, false) => "base64+rsa-pss-sha256+v2"
    case (RsaPss, true) => "aes-256-gcm+rsa-pss-sha256+v2"
    case (EcdsaP256, false) => "base64+ecdsa-p256+v2"
    case (EcdsaP256, true) => "aes-256-gcm+ecdsa-p256+v2"
  }

  function PrefixFor(encrypted: bool): string {
    if encrypted then ENC_PREFIX_ENCRYPTED else ENC_PREFIX_PLAIN
  }

  lemma SuffixOfScheme(scheme: Scheme)
    requires !scheme.RsaJwt?
    ensures AlgSuffix(scheme).Some? && IsSuffix(AlgSuffix(scheme).value)
  {
  }

  lemma Ed25519Texts()
    ensures "base64+ed25519+v2" == AlgText(ENC_PREFIX_PLAIN, "ed25519")
    ensures "aes-256-gcm+ed25519+v2" == AlgText(ENC_PREFIX_ENCRYPTED, "ed25519")
  {
  }

  lemma RsaPkcs1Texts()
    ensures "base64+rsa-sha256+v2" == AlgText(ENC_PREFIX_PLAIN, "rsa-sha256")
    ensures "aes-256-gcm+rsa-sha256+v2" == AlgText(ENC_PREFIX_ENCRYPTED, "rsa-sha256")
  {
  }

  lemma RsaPssTexts()
    ensures "base64+rsa-pss-sha256+v2" == AlgText(ENC_PREFIX_PLAIN, "rsa-pss-sha256")
    ensures "aes-256-gcm+rsa-pss-sha256+v2" == AlgText(ENC_PREFIX_ENCRYPTED, "rsa-pss-sha256")
  {
  }

  lemma EcdsaP256Texts()
    ensures "base64+ecdsa-p256+v2" == AlgText(ENC_PREFIX_PLAIN, "ecdsa-p256")
    ensures "aes-256-gcm+ecdsa-p256+v2" == AlgText(ENC_PREFIX_ENCRYPTED, "ecdsa-p256")
  {
  }

  /** The text in a file is the scheme's suffix between its prefix and the marker. */
  lemma WireAlgJoins(scheme: Scheme, encrypted: bool)
    requires !scheme.RsaJwt?
    ensures AlgSuffix(scheme).Some?
    ensures WireAlg(scheme, encrypted) == AlgText(PrefixFor(encrypted), AlgSuffix(scheme).value)
  {
    match scheme
    case Ed25519 => Ed25519Texts();
    case RsaPkcs1 => RsaPkcs1Texts();
    case RsaPss => RsaPssTexts();
    case EcdsaP256 => EcdsaP256Texts();
  }

  lemma WireAlgSplits(scheme: Scheme, encrypted: bool)
    requires !scheme.RsaJwt?
    ensures AlgSuffix(scheme).Some?
    ensures ValidateAlg(WireAlg(scheme, encrypted)) == Some((PrefixFor(encrypted), AlgSuffix(scheme).value))
  {
    SuffixOfScheme(scheme);
    WireAlgJoins(scheme, encrypted);
    AlgSplits(PrefixFor(encrypted), AlgSuffix(scheme).value);
  }

  /** The file's text is one of the two of this scheme; the rejected scheme has none. */
  predicate NamesScheme(alg: string, scheme: Scheme) {
    !scheme.RsaJwt? && (alg == WireAlg(scheme, false) || alg == WireAlg(scheme, true))
  }

  /** Every valid suffix is the suffix of a scheme. */
  lemma SchemeOfSuffix(suffix: string) returns (scheme: Scheme)
    requires IsSuffix(suffix)
    ensures !scheme.RsaJwt? && AlgSuffix(scheme) == Some(suffix)
  {
    scheme := if suffix == "ed25519" then Ed25519 else if suffix == "rsa-sha256" then RsaPkcs1
              else if suffix == "rsa-pss-sha256" then RsaPss else EcdsaP256;
  }

  lemma TextsOfSuffix(alg: string, suffix: string)
    requires IsSuffix(suffix)
    ensures alg == AlgText(ENC_PREFIX_PLAIN, suffix) || alg == AlgText(ENC_PREFIX_ENCRYPTED, suffix)
       <==> ValidateAlg(alg).Some? && ValidateAlg(alg).value.1 == suffix
  {
    AlgSplits(ENC_PREFIX_PLAIN, suffix);
    AlgSplits(ENC_PREFIX_ENCRYPTED, suffix);
    if ValidateAlg(alg).Some? {
      ValidateAlgExact(alg, ValidateAlg(alg).value.0, ValidateAlg(alg).value.1);
    }
  }

  /** The split text names a scheme exactly when it is one of that scheme's two texts. */
  lemma NamesSchemeExactly(alg: string, scheme: Scheme)
    ensures NamesScheme(alg, scheme)
       <==> !scheme.RsaJwt? && ValidateAlg(alg).Some? && Some(ValidateAlg(alg).value.1) == AlgSuffix(scheme)
  {
    if !scheme.RsaJwt? {
      SuffixOfScheme(scheme);
      WireAlgJoins(scheme, false);
      WireAlgJoins(scheme, true);
      TextsOfSuffix(alg, AlgSuffix(scheme).value);
    }
  }

  /** Valid are exactly the two texts of each scheme that signs machine files, and each says whether it is encrypted. */
  lemma ValidAlgsExactly(alg: string)
    ensures ValidateAlg(alg).Some? <==> exists scheme :: NamesScheme(alg, scheme)
    ensures forall scheme :: NamesScheme(alg, scheme) ==>
              (ValidateAlg(alg).value.0 == ENC_PREFIX_ENCRYPTED <==> alg == WireAlg(scheme, true))
  {
    forall scheme | NamesScheme(alg, scheme)
      ensures ValidateAlg(alg).Some?
      ensures ValidateAlg(alg).value.0 == ENC_PREFIX_ENCRYPTED <==> alg == WireAlg(scheme, true)
    {
      WireAlgSplits(scheme, false);
      WireAlgSplits(scheme, true);
      PrefixesApart();
    }
    if ValidateAlg(alg).Some? {
      var (prefix, suffix) := ValidateAlg(alg).value;
      ValidateAlgExact(alg, prefix, suffix);
      var scheme := SchemeOfSuffix(suffix);
      NamesSchemeExactly(alg, scheme);
    }
  }

  lemma PrefixesApart()
    ensures ENC_PREFIX_PLAIN != ENC_PREFIX_ENCRYPTED
  {
    assert ENC_PREFIX_PLAIN[0] == 'b' && ENC_PREFIX_ENCRYPTED[0] == 'a';
  }

  datatype ParseError = BadEnvelope(error: Envelope.EnvelopeError) | UnsupportedAlgorithm

  /** `MachineFile.parse`. */
  function Parse(certificate: string): Result<MachineFile, ParseError> {
    match Envelope.ParseEnvelope(certificate, Envelope.MACHINE_HEADER, Envelope.MACHINE_FOOTER)
    case Err(e) => Err(BadEnvelope(e))
    case Ok(c) => if ValidateAlg(c.alg).None? then Err(UnsupportedAlgorithm) else Ok(MachineFile(c.enc, c.sig, c.alg))
  }

  /** A machine file is an envelope between these markers whose `alg` names a scheme; any other is refused as such. */
  lemma ParseExactly(certificate: string)
    ensures
      var parsed := Envelope.ParseEnvelope(certificate, "-----BEGIN MACHINE FILE-----", "-----END MACHINE FILE-----");
      var r := Parse(certificate);
      match parsed
      case Err(e) => r == Err(BadEnvelope(e))
      case Ok(c) =>
        if exists scheme :: NamesScheme(c.alg, scheme) then
          r.Ok? && r.value.enc == c.enc && r.value.sig == c.sig && r.value.alg == c.alg
        else r == Err(UnsupportedAlgorithm)
  {
    var parsed := Envelope.ParseEnvelope(certificate, Envelope.MACHINE_HEADER, Envelope.MACHINE_FOOTER);
    if parsed.Ok? {
      ValidAlgsExactly(parsed.value.alg);
    }
  }

  // ---------- Decoding ----------

  datatype Secrets = Secrets(licenseKey: Option<string>, fingerprint: Option<string>)

  /** `_decrypt`: split once on the separator, decode both halves, open. */
  function Decrypt(lib: Library, file: MachineFile, secrets: Secrets): Run<bytes> {
    if secrets.licenseKey.None? || secrets.fingerprint.None? then Run(Err(Malformed(SecretRequired)), [])
    else
      var dot := FirstIndex(file.enc, ENC_SEPARATOR);
      var split := [WasSplit(file.enc)];
      if dot == |file.enc| || ENC_SEPARATOR in file.enc[dot + 1..] then Run(Err(Malformed(BadLayout)), split)
      else
        var left, right := file.enc[..dot], file.enc[dot + 1..];
        var one := split + [Base64Decoded(left)];
        match Base64.DecodeStrict(left)
        case None => Run(Err(Malformed(BadBase64)), one)
        case Some(nonce) =>
          var two := one + [Base64Decoded(right)];
          match Base64.DecodeStrict(right)
          case None => Run(Err(Malformed(BadBase64)), two)
          case Some(ciphertext) =>
            if |nonce| != NONCE_LENGTH then Run(Err(Malformed(BadLayout)), two)
            else if |ciphertext| < GCM_TAG_LENGTH then Run(Err(Malformed(TooShort)), two)
            else
              var key := lib.machineFileKey(secrets.licenseKey.value, secrets.fingerprint.value);
              var three := two + [Opened(nonce, ciphertext)];
              match lib.openGcm(key, nonce, ciphertext)
              case None => Run(Err(InvalidTag), three)
              case Some(plaintext) => Run(Ok(plaintext), three)
  }

  /** `_decode_payload`: the encoding prefix decides, never the presence of a dot. */
  function DecodePayload(lib: Library, file: MachineFile, prefix: string, secrets: Secrets): Run<bytes> {
    if prefix == ENC_PREFIX_ENCRYPTED then Decrypt(lib, file, secrets)
    else
      match Base64.DecodeStrict(file.enc)
      case None => Run(Err(Malformed(BadBase64)), [Base64Decoded(file.enc)])
      case Some(plaintext) => Run(Ok(plaintext), [Base64Decoded(file.enc)])
  }

  lemma DotAfter(left: string, right: string)
    requires forall i :: 0 <= i < |left| ==> left[i] != ENC_SEPARATOR
    ensures FirstIndex(left + "." + right, ENC_SEPARATOR) == |left|
    ensures (left + "." + right)[..|left|] == left && (left + "." + right)[|left| + 1..] == right
  {
    var s := left + "." + right;
    assert s[|left|] == ENC_SEPARATOR;
    assert forall i :: 0 <= i < |left| ==> s[i] == left[i];
  }

  lemma EncodingHasNoDot(b: bytes)
    ensures forall i :: 0 <= i < |Base64.Encode(b)| ==> Base64.Encode(b)[i] != ENC_SEPARATOR
  {
    Base64.RoundTrip(b);
    Base64.DecodedAlphabet(Base64.Encode(b));
  }

  /**
   * Every printed pair: without both secrets, with a nonce that is not 12 bytes, with under 16 bytes of
   * ciphertext, or not opened by the key it is refused, each with its own error; otherwise it is opened.
   */
  lemma EncryptedPayloadExactly(lib: Library, file: MachineFile, secrets: Secrets, nonce: bytes, ciphertext: bytes)
    requires file.enc == Base64.Encode(nonce) + "." + Base64.Encode(ciphertext)
    ensures Decrypt(lib, file, secrets).trace
         == if secrets.licenseKey.None? || secrets.fingerprint.None? then []
            else
              [WasSplit(file.enc), Base64Decoded(Base64.Encode(nonce)), Base64Decoded(Base64.Encode(ciphertext))]
              + (if |nonce| != 12 || |ciphertext| < 16 then [] else [Opened(nonce, ciphertext)])
    ensures
      var r := Decrypt(lib, file, secrets).result;
      if secrets.licenseKey.None? || secrets.fingerprint.None? then r == Err(Malformed(SecretRequired))
      else if |nonce| != 12 then r == Err(Malformed(BadLayout))
      else if |ciphertext| < 16 then r == Err(Malformed(TooShort))
      else
        match lib.openGcm(lib.machineFileKey(secrets.licenseKey.value, secrets.fingerprint.value), nonce, ciphertext)
        case None => r == Err(InvalidTag)
        case Some(plaintext) => r == Ok(plaintext)
  {
    var left, right := Base64.Encode(nonce), Base64.Encode(ciphertext);
    EncodingHasNoDot(nonce);
    EncodingHasNoDot(ciphertext);
    DotAfter(left, right);
    Base64.StrictWhole(nonce);
    Base64.StrictWhole(ciphertext);
    assert ENC_SEPARATOR !in right;
  }

  /** Two parts of which one is not base64. */
  lemma UndecodableParts(lib: Library, file: MachineFile, secrets: Secrets, left: string, right: string)
    requires secrets.licenseKey.Some? && secrets.fingerprint.Some?
    requires file.enc == left + "." + right && '.' !in left && '.' !in right
    ensures Base64.DecodeStrict(left).None? ==>
              Decrypt(lib, file, secrets) == Run(Err(Malformed(BadBase64)), [WasSplit(file.enc), Base64Decoded(left)])
    ensures Base64.DecodeStrict(left).Some? && Base64.DecodeStrict(right).None? ==>
              Decrypt(lib, file, secrets)
                == Run(Err(Malformed(BadBase64)), [WasSplit(file.enc), Base64Decoded(left), Base64Decoded(right)])
  {
    DotAfter(left, right);
  }

  /** A payload without exactly one dot has no two parts. */
  lemma NotTwoParts(lib: Library, file: MachineFile, secrets: Secrets)
    requires secrets.licenseKey.Some? && secrets.fingerprint.Some?
    ensures (exists left, right :: file.enc == left + "." + right && '.' !in left && '.' !in right)
        || Decrypt(lib, file, secrets).result == Err(Malformed(BadLayout))
  {
    var dot := FirstIndex(file.enc, ENC_SEPARATOR);
    if dot < |file.enc| && '.' !in file.enc[dot + 1..] {
      assert file.enc == file.enc[..dot] + "." + file.enc[dot + 1..];
    }
  }

  /** No payload string decodes under both the single-blob layout and the two-part one. */
  lemma LayoutsSeparate(lib: Library, license: LicenseFiles.LicenseFile, file: MachineFile,
                        licenseKey: Option<string>, secrets: Secrets)
    requires license.enc == file.enc
    ensures !(LicenseFiles.DecodePayload(lib, license, licenseKey).result.Ok? && Decrypt(lib, file, secrets).result.Ok?)
  {
    if LicenseFiles.DecodePayload(lib, license, licenseKey).result.Ok? {
      Base64.StrictAlphabet(file.enc);
      assert !Base64.IsBase64Char(ENC_SEPARATOR);
      assert FirstIndex(file.enc, ENC_SEPARATOR) == |file.enc|;
    }
  }

  /** The plain layouts are one and the same, so only the encrypted one tells the file types apart. */
  lemma PlainLayoutsCoincide(lib: Library, license: LicenseFiles.LicenseFile, file: MachineFile,
                             licenseKey: Option<string>, secrets: Secrets)
    requires license.enc == file.enc && license.alg == LicenseFiles.ALG_PLAIN
    ensures LicenseFiles.DecodePayload(lib, license, licenseKey) == DecodePayload(lib, file, ENC_PREFIX_PLAIN, secrets)
  {
    assert LicenseFiles.ALG_PLAIN[0] == 'b' && LicenseFiles.ALG_ENCRYPTED[0] == 'a';
    assert ENC_PREFIX_PLAIN[0] == 'b' && ENC_PREFIX_ENCRYPTED[0] == 'a';
  }

  /**
   * One text as a payload of both file types: both accept it exactly when the license layout does and the
   * machine file's `alg` does not call for the two-part layout.
   */
  lemma LayoutsOverlapExactly(lib: Library, license: LicenseFiles.LicenseFile, file: MachineFile, prefix: string,
                              licenseKey: Option<string>, secrets: Secrets)
    requires license.enc == file.enc
    ensures
      var asLicense := LicenseFiles.DecodePayload(lib, license, licenseKey).result.Ok?;
      asLicense && DecodePayload(lib, file, prefix, secrets).result.Ok?
      <==> asLicense && prefix != ENC_PREFIX_ENCRYPTED
  {
    LayoutsSeparate(lib, license, file, licenseKey, secrets);
  }

  /** Every payload is such a text: what a plain license file carries, a plain machine file may. */
  lemma EveryPayloadOverlaps(lib: Library, payload: bytes, sig: bytes, licenseKey: Option<string>, secrets: Secrets)
    ensures
      var enc := Base64.Encode(payload);
      var license := LicenseFiles.LicenseFile(enc, sig, LicenseFiles.ALG_PLAIN);
      var file := MachineFile(enc, sig, AlgText(ENC_PREFIX_PLAIN, "ed25519"));
      && LicenseFiles.DecodePayload(lib, license, licenseKey).result == Ok(payload)
      && DecodePayload(lib, file, ENC_PREFIX_PLAIN, secrets).result == Ok(payload)
  {
    var enc := Base64.Encode(payload);
    var license := LicenseFiles.LicenseFile(enc, sig, LicenseFiles.ALG_PLAIN);
    assert enc[..|enc| - 0] == enc;
    LicenseFiles.PlainPayloadRoundTrip(lib, license, payload, 0, licenseKey);
    PlainLayoutsCoincide(lib, license, MachineFile(enc, sig, AlgText(ENC_PREFIX_PLAIN, "ed25519")), licenseKey,
      secrets);
  }

  /** And so is an encrypted license payload, which the plain machine layout reads as its sealed bytes. */
  lemma SealedPayloadOverlaps(lib: Library, nonce: bytes, ciphertext: bytes, plaintext: bytes, sig: bytes,
                              licenseKey: string, secrets: Secrets)
    requires |nonce| == 12 && |ciphertext| >= 16
    requires lib.openGcm(lib.licenseFileKey(licenseKey), nonce, ciphertext) == Some(plaintext)
    ensures
      var enc := Base64.Encode(nonce + ciphertext);
      var license := LicenseFiles.LicenseFile(enc, sig, LicenseFiles.ALG_ENCRYPTED);
      var file := MachineFile(enc, sig, AlgText(ENC_PREFIX_PLAIN, "ed25519"));
      && LicenseFiles.DecodePayload(lib, license, Some(licenseKey)).result == Ok(plaintext)
      && DecodePayload(lib, file, ENC_PREFIX_PLAIN, secrets).result == Ok(nonce + ciphertext)
  {
    var enc := Base64.Encode(nonce + ciphertext);
    var license := LicenseFiles.LicenseFile(enc, sig, LicenseFiles.ALG_ENCRYPTED);
    LicenseFiles.EncryptedPayloadRoundTrip(lib, license, licenseKey, nonce, ciphertext, plaintext);
    Base64.StrictWhole(nonce + ciphertext);
    assert ENC_PREFIX_PLAIN[0] == 'b' && ENC_PREFIX_ENCRYPTED[0] == 'a';
  }

  // ---------- Verification ----------

  function HeartbeatFrom(attributes: map<string, Value>): HeartbeatStatus {
    if "heartbeat_status" !in attributes then NotStarted
    else
      match attributes["heartbeat_status"]
      case StrValue(s) =>
        if s == "ALIVE" then Alive else if s == "DEAD" then Dead else if s == "RESURRECTED" then Resurrected
        else NotStarted
      case _ => NotStarted
  }

  predicate ReadsStatus(attributes: map<string, Value>, text: string) {
    "heartbeat_status" in attributes && attributes["heartbeat_status"] == StrValue(text)
  }

  /** Three texts are a status of their own, and anything else, or nothing, is a machine that never pinged. */
  predicate IsStatusOf(status: HeartbeatStatus, attributes: map<string, Value>) {
    match status
    case Alive => ReadsStatus(attributes, "ALIVE")
    case Dead => ReadsStatus(attributes, "DEAD")
    case Resurrected => ReadsStatus(attributes, "RESURRECTED")
    case NotStarted =>
      !ReadsStatus(attributes, "ALIVE") && !ReadsStatus(attributes, "DEAD") && !ReadsStatus(attributes, "RESURRECTED")
  }

  lemma HeartbeatExactly(attributes: map<string, Value>, status: HeartbeatStatus)
    ensures HeartbeatFrom(attributes) == status <==> IsStatusOf(status, attributes)
  {
    assert "ALIVE"[0] == 'A' && "DEAD"[0] == 'D' && "RESURRECTED"[0] == 'R';
  }

  /** Everything after decoding: parse, shape, claims, expiry, resource. */
  function Accept(lib: Library, plaintext: bytes, now: Option<int>, clock: int)
    : Result<(MachineResource, Claims), FileError>
  {
    match Loads(plaintext)
    case None => Err(Malformed(BadJson))
    case Some(parsed) =>
      if !parsed.ObjValue? || "data" !in parsed.members then Err(Malformed(MissingData))
      else if !parsed.members["data"].ObjValue? then Err(Malformed(BadData))
      else
        match ParseClaims(lib, parsed)
        case None => Err(Malformed(BadClaims))
        case Some(claims) =>
          var data := parsed.members["data"].members;
          if HasExpired(claims, now, clock) then Err(Expired(claims.exp.value))
          else if "id" !in data then Err(Malformed(BadData))
          else
            match LicenseFiles.ObjectMember(data, "attributes")
            case None => Err(Malformed(BadData))
            case Some(attributes) => Ok((MachineResource(data["id"], attributes, HeartbeatFrom(attributes)), claims))
  }

  /** The stages behind a signature that has passed. */
  function AfterSignature(lib: Library, file: MachineFile, prefix: string, secrets: Secrets, now: Option<int>,
                          clock: int)
    : Run<(MachineResource, Claims)>
  {
    var payload := DecodePayload(lib, file, prefix, secrets);
    match payload.result
    case Err(e) => Run(Err(e), payload.trace)
    case Ok(plaintext) => Run(Accept(lib, plaintext, now, clock), payload.trace)
  }

  /** `verify_with_claims`: one public key, under the scheme the caller trusts. */
  function Verify(lib: Library, file: MachineFile, publicKey: bytes, scheme: Scheme, secrets: Secrets, now: Option<int>,
                  clock: int): Run<(MachineResource, Claims)>
  {
    if AlgSuffix(scheme).None? then Run(Err(SchemeNotSupported), [])
    else
      match ValidateAlg(file.alg)
      case None => Run(Err(Malformed(BadAlgorithm)), [])
      case Some((prefix, suffix)) =>
        if suffix != AlgSuffix(scheme).value then Run(Err(Malformed(AlgorithmMismatch)), [])
        else
          match Ascii(file.enc)
          case None => Run(Err(Malformed(NotAscii)), [])
          case Some(message) =>
            var ok := lib.verify(scheme, publicKey, message, file.sig);
            var check := [Checked(publicKey, message, ok)];
            if !ok then Run(Err(InvalidSignature), check)
            else
              var rest := AfterSignature(lib, file, prefix, secrets, now, clock);
              Run(rest.result, check + rest.trace)
  }

  /** `_unverified_kid`. */
  function UnverifiedKid(lib: Library, file: MachineFile, secrets: Secrets): Claimed {
    match ValidateAlg(file.alg)
    case None => Claimed(None, [])
    case Some((prefix, _)) =>
      var payload := DecodePayload(lib, file, prefix, secrets);
      var kid :=
        match payload.result
        case Err(_) => None
        case Ok(plaintext) =>
          match Loads(plaintext)
          case None => None
          case Some(parsed) =>
            match ParseClaims(lib, parsed)
            case None => None
            case Some(claims) => Some(claims.kid);
      Claimed(kid, payload.trace)
  }

  datatype VerifiedMachineFile = VerifiedMachineFile(resource: MachineResource, claims: Claims, key: SigningKey)

  /** `verify_with_key_set`: Ed25519 only. */
  function VerifyWithKeySet(lib: Library, file: MachineFile, keys: seq<SigningKey>, scheme: Scheme, secrets: Secrets,
                            now: Option<int>, clock: int): Run<VerifiedMachineFile>
  {
    if AlgSuffix(scheme).None? then Run(Err(SchemeNotSupported), [])
    else if scheme != Ed25519 then Run(Err(SigningKeyNotApplicable(scheme)), [])
    else
      match Ascii(file.enc)
      case None => Run(Err(Malformed(NotAscii)), [])
      case Some(message) =>
        var resolved := Resolve(lib, keys, message, file.sig, UnverifiedKid(lib, file, secrets));
        match resolved.result
        case Err(e) => Run(Err(e), resolved.trace)
        case Ok(key) =>
          ResolveClassified(lib, keys, message, file.sig, UnverifiedKid(lib, file, secrets));
          var run := Verify(lib, file, KeyBytes(key), scheme, secrets, now, clock);
          match run.result
          case Err(e) => Run(Err(e), resolved.trace + run.trace)
          case Ok((resource, claims)) => Run(Ok(VerifiedMachineFile(resource, claims, key)), resolved.trace + run.trace)
  }

  // ---------- Schemes ----------

  lemma TouchedWhenNamed(lib: Library, file: MachineFile, publicKey: bytes, scheme: Scheme, secrets: Secrets,
                         now: Option<int>, clock: int, named: bool)
    requires named <==> !scheme.RsaJwt? && ValidateAlg(file.alg).Some?
                        && Some(ValidateAlg(file.alg).value.1) == AlgSuffix(scheme)
    ensures
      var run := Verify(lib, file, publicKey, scheme, secrets, now, clock);
      && (run.trace != [] <==> IsAscii(file.enc) && named)
      && (run.trace == [] ==> run.result == Err(
            if scheme.RsaJwt? then SchemeNotSupported
            else if ValidateAlg(file.alg).None? then Malformed(BadAlgorithm)
            else if !named then Malformed(AlgorithmMismatch)
            else Malformed(NotAscii)))
  {
  }

  /**
   * A file is looked at exactly when it is ASCII and its `alg` is one of the two texts of the caller's
   * scheme. Otherwise it is refused without a check or a decode, the same way under every library, key,
   * secret and time; the rejected scheme is among these.
   */
  lemma TouchedExactly(lib: Library, file: MachineFile, publicKey: bytes, scheme: Scheme, secrets: Secrets,
                       now: Option<int>, clock: int)
    ensures
      var run := Verify(lib, file, publicKey, scheme, secrets, now, clock);
      var ascii := forall i :: 0 <= i < |file.enc| ==> file.enc[i] as int <= 127;
      && (run.trace != [] <==> ascii && NamesScheme(file.alg, scheme))
      && (run.trace == [] ==> run.result == Err(
            if scheme.RsaJwt? then SchemeNotSupported
            else if ValidateAlg(file.alg).None? then Malformed(BadAlgorithm)
            else if !NamesScheme(file.alg, scheme) then Malformed(AlgorithmMismatch)
            else Malformed(NotAscii)))
  {
    NamesSchemeExactly(file.alg, scheme);
    TouchedWhenNamed(lib, file, publicKey, scheme, secrets, now, clock, NamesScheme(file.alg, scheme));
  }

  /** With a set, the rejected scheme, and any other that the published keys do not sign, is refused untouched too. */
  lemma SetTouchesOnlyEd25519(lib: Library, file: MachineFile, keys: seq<SigningKey>, scheme: Scheme, secrets: Secrets,
                              now: Option<int>, clock: int)
    ensures
      var run := VerifyWithKeySet(lib, file, keys, scheme, secrets, now, clock);
      var ascii := forall i :: 0 <= i < |file.enc| ==> file.enc[i] as int <= 127;
      && (run.trace != [] <==> scheme == Ed25519 && ascii && UsableKeys(keys) != [])
      && (run.result.Ok? ==> scheme == Ed25519)
      && (scheme.RsaJwt? ==> run == Run(Err(SchemeNotSupported), []))
  {
    var candidates := UsableKeys(keys);
    if candidates != [] {
      assert candidates[0] in candidates;
    }
  }

  /** A file is accepted only under a scheme its own `alg` names, checked with that scheme's verifier. */
  lemma SchemeAgrees(lib: Library, file: MachineFile, publicKey: bytes, scheme: Scheme, secrets: Secrets,
                     now: Option<int>, clock: int)
    ensures Verify(lib, file, publicKey, scheme, secrets, now, clock).result.Ok? ==>
      && NamesScheme(file.alg, scheme)
      && Ascii(file.enc).Some? && lib.verify(scheme, publicKey, Ascii(file.enc).value, file.sig)
  {
    NamesSchemeExactly(file.alg, scheme);
  }

  // ---------- Refinement ----------

  ghost predicate OneKeyGives(lib: Library, file: MachineFile, keys: seq<SigningKey>, secrets: Secrets,
                              now: Option<int>, clock: int, result: Result<(MachineResource, Claims), FileError>)
  {
    exists key :: key in keys && Usable(key)
      && Verify(lib, file, KeyBytes(key), Ed25519, secrets, now, clock).result == result
  }

  /** A key's signature holds over this file. */
  ghost predicate Signs(lib: Library, file: MachineFile, key: SigningKey) {
    Usable(key) && Ascii(file.enc).Some? && Verifies(lib, key, Ascii(file.enc).value, file.sig)
  }

  /** Once the signature holds, the key no longer matters. */
  lemma AnySignerAlike(lib: Library, file: MachineFile, a: SigningKey, b: SigningKey, secrets: Secrets,
                       now: Option<int>, clock: int)
    requires Signs(lib, file, a) && Signs(lib, file, b)
    ensures Verify(lib, file, KeyBytes(a), Ed25519, secrets, now, clock).result
         == Verify(lib, file, KeyBytes(b), Ed25519, secrets, now, clock).result
  {
  }

  /** With a signing key in the set, the set gives just what any signing key gives: result or error. */
  lemma KeySetFollowsSigner(lib: Library, file: MachineFile, keys: seq<SigningKey>, key: SigningKey, secrets: Secrets,
                            now: Option<int>, clock: int)
    requires key in keys && Signs(lib, file, key)
    ensures
      var single := Verify(lib, file, KeyBytes(key), Ed25519, secrets, now, clock).result;
      var whole := VerifyWithKeySet(lib, file, keys, Ed25519, secrets, now, clock).result;
      && (single.Err? ==> whole == Err(single.error))
      && (single.Ok? ==> whole.Ok? && (whole.value.resource, whole.value.claims) == single.value
                         && whole.value.key in keys && Signs(lib, file, whole.value.key))
  {
    var message := Ascii(file.enc).value;
    var claimed := UnverifiedKid(lib, file, secrets);
    ResolveClassified(lib, keys, message, file.sig, claimed);
    var first := Resolve(lib, keys, message, file.sig, claimed).result.value;
    AnySignerAlike(lib, file, key, first, secrets, now, clock);
  }

  /** What the key set accepts, the one-key pipeline accepts under the key it names. */
  lemma AcceptedUnderItsKey(lib: Library, file: MachineFile, keys: seq<SigningKey>, secrets: Secrets, now: Option<int>,
                            clock: int)
    ensures
      var r := VerifyWithKeySet(lib, file, keys, Ed25519, secrets, now, clock).result;
      r.Ok? ==>
        && r.value.key in keys && Usable(r.value.key)
        && Verify(lib, file, KeyBytes(r.value.key), Ed25519, secrets, now, clock).result
          == Ok((r.value.resource, r.value.claims))
  {
    if VerifyWithKeySet(lib, file, keys, Ed25519, secrets, now, clock).result.Ok? {
      ResolveClassified(lib, keys, Ascii(file.enc).value, file.sig, UnverifiedKid(lib, file, secrets));
    }
  }

  /** The key set accepts a resource and claims exactly when some usable key of it does. */
  lemma KeySetRefinesOneKey(lib: Library, file: MachineFile, keys: seq<SigningKey>, secrets: Secrets,
                            now: Option<int>, clock: int, resource: MachineResource, claims: Claims)
    ensures
      var r := VerifyWithKeySet(lib, file, keys, Ed25519, secrets, now, clock).result;
      (r.Ok? && r.value.resource == resource && r.value.claims == claims)
      <==> OneKeyGives(lib, file, keys, secrets, now, clock, Ok((resource, claims)))
  {
    var r := VerifyWithKeySet(lib, file, keys, Ed25519, secrets, now, clock).result;
    forall key | key in keys && Usable(key)
                 && Verify(lib, file, KeyBytes(key), Ed25519, secrets, now, clock).result == Ok((resource, claims))
      ensures r.Ok? && r.value.resource == resource && r.value.claims == claims
    {
      OkMeansSigned(lib, file, key, secrets, now, clock);
      KeySetFollowsSigner(lib, file, keys, key, secrets, now, clock);
    }
    AcceptedUnderItsKey(lib, file, keys, secrets, now, clock);
  }

  lemma OkMeansSigned(lib: Library, file: MachineFile, key: SigningKey, secrets: Secrets, now: Option<int>, clock: int)
    requires Usable(key)
    ensures Verify(lib, file, KeyBytes(key), Ed25519, secrets, now, clock).result.Ok? ==> Signs(lib, file, key)
  {
  }

  /** When no usable key signed the file, the outcome is the resolver's error and nothing is accepted. */
  lemma NoSignerNoResource(lib: Library, file: MachineFile, keys: seq<SigningKey>, secrets: Secrets, now: Option<int>,
                           clock: int)
    requires forall key :: key in keys ==> !Signs(lib, file, key)
    ensures
      var r := VerifyWithKeySet(lib, file, keys, Ed25519, secrets, now, clock).result;
      r == (match Ascii(file.enc)
            case None => Err(Malformed(NotAscii))
            case Some(message) => Err(
              if UsableKeys(keys) == [] then NoUsableSigningKey(Kids(keys))
              else Refusal(lib, keys, UnverifiedKid(lib, file, secrets).kid)))
  {
    if Ascii(file.enc).Some? {
      FirstVerifyingExists(lib, keys, Ascii(file.enc).value, file.sig);
    }
  }

  // ---------- Authenticate before decode ----------

  /**
   * One key: every split, decode and decrypt comes after the check of those exact bytes passed, and none is
   * left out; without a passed check the file is refused as such.
   */
  lemma VerifyAuthenticatesFirst(lib: Library, file: MachineFile, publicKey: bytes, scheme: Scheme, secrets: Secrets,
                                 now: Option<int>, clock: int, message: bytes)
    requires Ascii(file.enc) == Some(message)
    ensures
      var run := Verify(lib, file, publicKey, scheme, secrets, now, clock);
      forall i :: 0 <= i < |run.trace| && IsDecode(run.trace[i]) ==> AcceptedBefore(run.trace, i, message)
    ensures
      var run := Verify(lib, file, publicKey, scheme, secrets, now, clock);
      var ok := lib.verify(scheme, publicKey, message, file.sig);
      run.trace != [] ==>
        && ValidateAlg(file.alg).Some?
        && var payload := DecodePayload(lib, file, ValidateAlg(file.alg).value.0, secrets);
        && run.trace == [Checked(publicKey, message, ok)] + (if ok then payload.trace else [])
        && (!ok ==> run.result == Err(InvalidSignature))
  {
    var run := Verify(lib, file, publicKey, scheme, secrets, now, clock);
    forall i | 0 <= i < |run.trace| && IsDecode(run.trace[i]) ensures AcceptedBefore(run.trace, i, message) {
      assert run.trace[0].Checked? && run.trace[0].ok && run.trace[0].message == message;
    }
  }

  /** The trace of a set is all of its checks and then all that its key, or the reading of the claim, does. */
  lemma KeySetTrace(lib: Library, file: MachineFile, keys: seq<SigningKey>, secrets: Secrets, now: Option<int>,
                    clock: int, message: bytes)
    requires Ascii(file.enc) == Some(message) && UsableKeys(keys) != []
    ensures
      var run := VerifyWithKeySet(lib, file, keys, Ed25519, secrets, now, clock);
      var checks := Checks(lib, UsableKeys(keys), message, file.sig);
      match FirstVerifying(lib, UsableKeys(keys), message, file.sig)
      case Some(key) => run.trace == checks + Verify(lib, file, KeyBytes(key), Ed25519, secrets, now, clock).trace
      case None =>
        if ValidateAlg(file.alg).None? then run.trace == checks
        else run.trace == checks + DecodePayload(lib, file, ValidateAlg(file.alg).value.0, secrets).trace
  {
  }

  /** Key set: no split, decode or decrypt precedes authentication, except to label an error. */
  lemma KeySetAuthenticatesFirst(lib: Library, file: MachineFile, keys: seq<SigningKey>, scheme: Scheme,
                                 secrets: Secrets,
                                 now: Option<int>, clock: int, message: bytes)
    requires Ascii(file.enc) == Some(message)
    ensures AuthenticatesFirst(VerifyWithKeySet(lib, file, keys, scheme, secrets, now, clock), message,
                               PublicKeys(UsableKeys(keys)))
  {
    if scheme == Ed25519 {
      var claimed := UnverifiedKid(lib, file, secrets);
      var run := VerifyWithKeySet(lib, file, keys, scheme, secrets, now, clock);
      ResolveTrace(lib, keys, message, file.sig, claimed);
      var resolved := Resolve(lib, keys, message, file.sig, claimed);
      if resolved.result.Ok? {
        forall i | 0 <= i < |run.trace| && IsDecode(run.trace[i]) ensures AcceptedBefore(run.trace, i, message) {
          var checks := resolved.trace;
          var rest := run.trace[|checks|..];
          assert run.trace == checks + rest;
          assert |checks| <= i;
          AcceptedThenAnything(checks, rest, i, message);
        }
      }
    }
  }

  /** A returned resource was built from a payload some usable key had signed. */
  lemma ResourceIsAuthenticated(lib: Library, file: MachineFile, keys: seq<SigningKey>, scheme: Scheme,
                                secrets: Secrets, now: Option<int>, clock: int)
    ensures
      var r := VerifyWithKeySet(lib, file, keys, scheme, secrets, now, clock).result;
      r.Ok? ==>
        && scheme == Ed25519 && r.value.key in keys && Signs(lib, file, r.value.key)
        && ValidateAlg(file.alg).Some?
        && var payload := DecodePayload(lib, file, ValidateAlg(file.alg).value.0, secrets).result;
        && payload.Ok?
        && Accept(lib, payload.value, now, clock) == Ok((r.value.resource, r.value.claims))
  {
    if VerifyWithKeySet(lib, file, keys, scheme, secrets, now, clock).result.Ok? {
      ResolveClassified(lib, keys, Ascii(file.enc).value, file.sig, UnverifiedKid(lib, file, secrets));
    }
  }

  // ---------- Time and the claimed key ----------

  /** What the later clock says of the same payload: the same, or that it has expired. */
  lemma LaterOnlyExpires(lib: Library, plaintext: bytes, now: int, later: int, clock: int)
    requires now <= later
    ensures
      var before, after := Accept(lib, plaintext, Some(now), clock), Accept(lib, plaintext, Some(later), clock);
      after == before || (after.Err? && after.error.Expired?)
  {
  }

  /** What accepting a payload says about its claims and the time. */
  lemma AcceptedInTime(lib: Library, plaintext: bytes, now: Option<int>, clock: int)
    ensures
      var reference := if now.Some? then now.value else clock;
      match Accept(lib, plaintext, now, clock)
      case Ok((_, claims)) =>
        && Loads(plaintext).Some? && ParseClaims(lib, Loads(plaintext).value) == Some(claims)
        && (claims.exp.Some? ==> reference <= claims.exp.value + 60)
      case Err(Expired(exp)) => reference > exp + 60
      case _ => true
  {
  }

  lemma DecodeNeverExpires(lib: Library, file: MachineFile, prefix: string, secrets: Secrets)
    ensures
      var payload := DecodePayload(lib, file, prefix, secrets).result;
      payload.Err? ==> !payload.error.Expired?
  {
  }

  /** The decoded payload, under the encoding the file's own `alg` names. */
  function Payload(lib: Library, file: MachineFile, secrets: Secrets): Result<bytes, FileError> {
    match ValidateAlg(file.alg)
    case None => Err(Malformed(BadAlgorithm))
    case Some((prefix, _)) => DecodePayload(lib, file, prefix, secrets).result
  }

  /** A success or an expiry is the payload's own verdict. */
  lemma VerdictOfPayload(lib: Library, file: MachineFile, publicKey: bytes, scheme: Scheme, secrets: Secrets,
                         now: Option<int>, clock: int)
    ensures
      var r := Verify(lib, file, publicKey, scheme, secrets, now, clock).result;
      var payload := Payload(lib, file, secrets);
      r.Ok? || r.error.Expired? ==> payload.Ok? && r == Accept(lib, payload.value, now, clock)
  {
    if ValidateAlg(file.alg).Some? {
      DecodeNeverExpires(lib, file, ValidateAlg(file.alg).value.0, secrets);
    }
  }

  /** An accepted file is at most the skew past its signed expiry, and an expired one is further past it. */
  lemma ExpiryEnforced(lib: Library, file: MachineFile, publicKey: bytes, scheme: Scheme, secrets: Secrets,
                       now: Option<int>, clock: int)
    ensures
      var reference := if now.Some? then now.value else clock;
      match Verify(lib, file, publicKey, scheme, secrets, now, clock).result
      case Ok((_, claims)) => claims.exp.Some? ==> reference <= claims.exp.value + 60
      case Err(Expired(exp)) => reference > exp + 60
      case _ => true
  {
    VerdictOfPayload(lib, file, publicKey, scheme, secrets, now, clock);
    var payload := Payload(lib, file, secrets);
    if payload.Ok? {
      AcceptedInTime(lib, payload.value, now, clock);
    }
  }

  /** The id read from a file without a signature is the one in its decoded claims. */
  lemma KidOfPayload(lib: Library, file: MachineFile, secrets: Secrets, claims: Claims)
    ensures
      var payload := Payload(lib, file, secrets);
      payload.Ok? && Loads(payload.value).Some? && ParseClaims(lib, Loads(payload.value).value) == Some(claims)
      ==> UnverifiedKid(lib, file, secrets).kid == Some(claims.kid)
  {
  }

  /** So it is the one the verified claims carry. */
  lemma UnverifiedKidIsTheSignedOne(lib: Library, file: MachineFile, publicKey: bytes, scheme: Scheme, secrets: Secrets,
                                    now: Option<int>, clock: int)
    ensures
      var r := Verify(lib, file, publicKey, scheme, secrets, now, clock).result;
      r.Ok? ==> UnverifiedKid(lib, file, secrets).kid == Some(r.value.1.kid)
  {
    VerdictOfPayload(lib, file, publicKey, scheme, secrets, now, clock);
    var r := Verify(lib, file, publicKey, scheme, secrets, now, clock).result;
    if r.Ok? {
      AcceptedInTime(lib, Payload(lib, file, secrets).value, now, clock);
      KidOfPayload(lib, file, secrets, r.value.1);
    }
  }
}
