/**
 * From issue to acceptance: what a file printed, encoded, sealed and signed gives back when it is
 * parsed and verified.
 */
module IssuedFiles {
  import opened Common
  import opened Utf8Text
  import opened JsonText
  import opened JsonRoundTrip
  import opened JsonCanonical
  import opened Checkout
  import opened KeySet
  import Base64
  import Envelope
  import LicenseFiles
  import MachineFiles

  // ---------- The payload a server signs ----------

  /** The signed claims; a file without an expiry may carry a null one or none. */
  function ClaimsDocument(c: Claims, nullExpiry: bool): Json {
    var iat, jti, kid := Member("iat", Int(c.iat)), Member("jti", Str(c.jti)), Member("kid", Str(c.kid));
    if c.exp.Some? then Obj([iat, jti, kid, Member("exp", Int(c.exp.value))])
    else if nullExpiry then Obj([iat, jti, kid, Member("exp", Null)])
    else Obj([iat, jti, kid])
  }

  function PayloadDocument(data: Json, c: Claims, nullExpiry: bool): Json {
    Obj([Member("data", data), Member("meta", ClaimsDocument(c, nullExpiry))])
  }

  /** What is issued: a resource, its claims, and how a missing expiry is written. */
  datatype Issue = Issue(data: Json, claims: Claims, nullExpiry: bool)

  function IssuedPayload(issue: Issue): bytes {
    Utf8(Print(PayloadDocument(issue.data, issue.claims, issue.nullExpiry)))
  }

  /** `int()` and `str()` leave integers and strings as they are. */
  ghost predicate ConvertsExactly(lib: Library) {
    && (forall n :: lib.toInt(IntValue(n)) == Some(n))
    && (forall s :: lib.toText(StrValue(s)) == s)
  }

  lemma MeaningOfFour(a: Member, b: Member, c: Member, d: Member)
    requires a.key != b.key && a.key != c.key && a.key != d.key && b.key != c.key && b.key != d.key && c.key != d.key
    ensures
      var v := Meaning(Obj([a, b, c, d]));
      && v.ObjValue? && a.key in v.members && b.key in v.members && c.key in v.members && d.key in v.members
      && v.members[a.key] == Meaning(a.value) && v.members[b.key] == Meaning(b.value)
      && v.members[c.key] == Meaning(c.value) && v.members[d.key] == Meaning(d.value)
  {
    var one := map[a.key := Meaning(a.value)];
    var two := one[b.key := Meaning(b.value)];
    MeaningCons(a, [b, c, d], map[]);
    MeaningCons(b, [c, d], one);
    MeaningCons(c, [d], two);
    MeaningCons(d, [], two[c.key := Meaning(c.value)]);
    assert [a] + [b, c, d] == [a, b, c, d] && [b] + [c, d] == [b, c, d] && [c] + [d] == [c, d] && [d] + [] == [d];
  }

  lemma ClaimsMeaning(c: Claims, nullExpiry: bool)
    ensures
      var v := Meaning(ClaimsDocument(c, nullExpiry));
      && v.ObjValue? && "iat" in v.members && "jti" in v.members && "kid" in v.members
      && v.members["iat"] == IntValue(c.iat) && v.members["jti"] == StrValue(c.jti)
        && v.members["kid"] == StrValue(c.kid)
      && (if c.exp.Some? then "exp" in v.members && v.members["exp"] == IntValue(c.exp.value)
          else "exp" in v.members ==> v.members["exp"] == NullValue)
  {
    assert "iat"[0] == 'i' && "jti"[0] == 'j' && "kid"[0] == 'k' && "exp"[0] == 'e';
    var iat, jti, kid := Member("iat", Int(c.iat)), Member("jti", Str(c.jti)), Member("kid", Str(c.kid));
    MeaningOfThree(iat, jti, kid);
    MeaningOfFour(iat, jti, kid, Member("exp", if c.exp.Some? then Int(c.exp.value) else Null));
  }

  lemma ClaimsParse(lib: Library, parsed: Value, c: Claims, nullExpiry: bool)
    requires ConvertsExactly(lib)
    requires parsed.ObjValue? && "meta" in parsed.members
        && parsed.members["meta"] == Meaning(ClaimsDocument(c, nullExpiry))
    ensures ParseClaims(lib, parsed) == Some(c)
  {
    ClaimsMeaning(c, nullExpiry);
  }

  /** Reading an issued payload gives back its data and exactly its claims. */
  lemma PayloadRoundTrip(lib: Library, issue: Issue)
    requires ConvertsExactly(lib)
    ensures
      var parsed := Loads(IssuedPayload(issue));
      && parsed.Some? && parsed.value.ObjValue? && "data" in parsed.value.members
      && parsed.value.members["data"] == Meaning(issue.data)
      && ParseClaims(lib, parsed.value) == Some(issue.claims)
  {
    var document := PayloadDocument(issue.data, issue.claims, issue.nullExpiry);
    LoadsInvertsPrint(document);
    assert "data"[0] == 'd' && "meta"[0] == 'm';
    MeaningOfTwo(Member("data", issue.data), Member("meta", ClaimsDocument(issue.claims, issue.nullExpiry)));
    ClaimsParse(lib, Meaning(document), issue.claims, issue.nullExpiry);
  }

  // ---------- What is printed in it ----------

  /** The object printed under a key; nothing and null count as an empty one, and any other value as none. */
  function MapPart(j: Json, key: string): Option<map<string, Value>> {
    match Part(j, key)
    case None => Some(map[])
    case Some(Null) => Some(map[])
    case Some(Obj(members)) => Some(MembersMeaning(members, map[]))
    case _ => None
  }

  lemma PartIsRead(j: Json, key: string)
    requires j.Obj?
    ensures
      var read := Meaning(j).members;
      && (key in read <==> Part(j, key).Some?)
      && (key in read ==> read[key] == Meaning(Part(j, key).value))
      && LicenseFiles.ObjectMember(read, key) == MapPart(j, key)
  {
    PartIsMeant(j, key);
  }

  /**
   * The claims printed in a payload: all of `iat`, `jti` and `kid` under `meta`, converted, and an expiry
   * unless it is left out or null.
   */
  ghost predicate PrintsClaims(lib: Library, payload: Json, c: Claims) {
    Part(payload, "meta").Some? && MetaPrints(lib, Part(payload, "meta").value, c)
  }

  ghost predicate MetaPrints(lib: Library, meta: Json, c: Claims) {
    var iat, jti, kid, exp := Part(meta, "iat"), Part(meta, "jti"), Part(meta, "kid"), Part(meta, "exp");
    && iat.Some? && lib.toInt(Meaning(iat.value)) == Some(c.iat)
    && jti.Some? && lib.toText(Meaning(jti.value)) == c.jti
    && kid.Some? && lib.toText(Meaning(kid.value)) == c.kid
    && (if exp.None? || exp.value.Null? then c.exp.None?
        else c.exp.Some? && lib.toInt(Meaning(exp.value)) == c.exp)
  }

  lemma ClaimsFromMeta(lib: Library, parsed: Value, meta: Json, c: Claims)
    requires parsed.ObjValue? && "meta" in parsed.members && parsed.members["meta"] == Meaning(meta)
    ensures ParseClaims(lib, parsed) == Some(c) <==> MetaPrints(lib, meta, c)
  {
    if meta.Obj? {
      PartIsMeant(meta, "iat");
      PartIsMeant(meta, "jti");
      PartIsMeant(meta, "kid");
      PartIsMeant(meta, "exp");
    }
  }

  /** A payload is read as exactly the claims it prints. */
  lemma ClaimsExactly(lib: Library, payload: Json, c: Claims)
    ensures ParseClaims(lib, Meaning(payload)) == Some(c) <==> PrintsClaims(lib, payload, c)
  {
    if payload.Obj? {
      PartIsMeant(payload, "meta");
      if Part(payload, "meta").Some? {
        ClaimsFromMeta(lib, Meaning(payload), Part(payload, "meta").value, c);
      }
    }
  }

  // ---------- How it is sealed and laid out ----------

  /** The payload as it is, or under AES-256-GCM. */
  datatype Sealing = Plain | Sealed(nonce: bytes, ciphertext: bytes)

  /** The sealed payload opens under the secret; a plain one needs no secret. */
  ghost predicate Opens(lib: Library, secret: Option<bytes>, sealing: Sealing, payload: bytes) {
    match sealing
    case Plain => true
    case Sealed(nonce, ciphertext) =>
      && secret.Some? && |nonce| == 12 && |ciphertext| >= 16
      && lib.openGcm(secret.value, nonce, ciphertext) == Some(payload)
  }

  /** Whitespace around the certificate and around the body inside its markers. */
  datatype Layout = Layout(before: string, padLeft: string, padRight: string, after: string)

  predicate IsLayout(layout: Layout) {
    Envelope.AllSpace(layout.before) && Envelope.AllSpace(layout.padLeft)
    && Envelope.AllSpace(layout.padRight) && Envelope.AllSpace(layout.after)
  }

  function Marked(layout: Layout, c: Envelope.Certificate, header: string, footer: string): string {
    header + (layout.padLeft + Envelope.EnvelopeBody(c) + layout.padRight) + footer
  }

  function Text(layout: Layout, c: Envelope.Certificate, header: string, footer: string): string {
    layout.before + Marked(layout, c, header, footer) + layout.after
  }

  predicate FitsCap(layout: Layout, c: Envelope.Certificate, header: string, footer: string) {
    |Marked(layout, c, header, footer)| <= Envelope.MAX_CERTIFICATE_LENGTH
  }

  lemma CharIsAscii(c: char)
    requires Base64.IsBase64Char(c) || c == '=' || c == '.'
    ensures c as int < 128
  {
  }

  lemma AsciiOfAscii(s: string)
    requires forall i :: 0 <= i < |s| ==> Base64.IsBase64Char(s[i]) || s[i] == '=' || s[i] == '.'
    ensures Ascii(s) == Some(Utf8(s))
  {
    forall i | 0 <= i < |s| ensures s[i] as int < 128 {
      CharIsAscii(s[i]);
    }
  }

  lemma EncodingAlphabet(b: bytes)
    ensures
      var e := Base64.Encode(b);
      forall i :: 0 <= i < |e| ==> Base64.IsBase64Char(e[i]) || e[i] == '='
  {
    Base64.RoundTrip(b);
    Base64.DecodedAlphabet(Base64.Encode(b));
  }

  // ---------- License files ----------

  function LicenseFields(sealing: Sealing, payload: bytes, sig: bytes): Envelope.Certificate {
    match sealing
    case Plain => Envelope.Certificate(Base64.Encode(payload), sig, "base64+ed25519+v2")
    case Sealed(nonce, ciphertext) =>
      Envelope.Certificate(Base64.Encode(nonce + ciphertext), sig, "aes-256-gcm+ed25519+v2")
  }

  function LicenseText(layout: Layout, c: Envelope.Certificate): string {
    Text(layout, c, Envelope.LICENSE_HEADER, Envelope.LICENSE_FOOTER)
  }

  lemma LicenseParses(layout: Layout, c: Envelope.Certificate)
    requires IsLayout(layout) && FitsCap(layout, c, Envelope.LICENSE_HEADER, Envelope.LICENSE_FOOTER)
    requires c.alg == LicenseFiles.ALG_PLAIN || c.alg == LicenseFiles.ALG_ENCRYPTED
    ensures LicenseFiles.Parse(LicenseText(layout, c)) == Ok(LicenseFiles.LicenseFile(c.enc, c.sig, c.alg))
  {
    Envelope.RealMarkers();
    Envelope.EnvelopeRoundTrip(c, Envelope.LICENSE_HEADER, Envelope.LICENSE_FOOTER,
                               layout.before, layout.padLeft, layout.padRight, layout.after);
  }

  function LicenseSecret(lib: Library, licenseKey: Option<string>): Option<bytes> {
    if licenseKey.Some? then Some(lib.licenseFileKey(licenseKey.value)) else None
  }

  function FileOf(c: Envelope.Certificate): LicenseFiles.LicenseFile {
    LicenseFiles.LicenseFile(c.enc, c.sig, c.alg)
  }

  lemma LicenseDecodes(lib: Library, sealing: Sealing, payload: bytes, sig: bytes, licenseKey: Option<string>)
    requires Opens(lib, LicenseSecret(lib, licenseKey), sealing, payload)
    ensures
      var c := LicenseFields(sealing, payload, sig);
      && LicenseFiles.DecodePayload(lib, FileOf(c), licenseKey).result == Ok(payload)
      && Ascii(c.enc) == Some(Utf8(c.enc))
  {
    var c := LicenseFields(sealing, payload, sig);
    match sealing {
      case Plain =>
        EncodingAlphabet(payload);
        assert c.enc[..|c.enc| - 0] == c.enc;
        LicenseFiles.PlainPayloadRoundTrip(lib, FileOf(c), payload, 0, licenseKey);
      case Sealed(nonce, ciphertext) =>
        EncodingAlphabet(nonce + ciphertext);
        LicenseFiles.EncryptedPayloadRoundTrip(lib, FileOf(c), licenseKey.value, nonce, ciphertext, payload);
    }
    AsciiOfAscii(c.enc);
  }

  /** The printed data are a license: an id, a type, and two objects that may be missing or null. */
  predicate IsLicense(data: Json) {
    Part(data, "id").Some? && Part(data, "type").Some? &&
    MapPart(data, "attributes").Some? && MapPart(data, "relationships").Some?
  }

  /** Each field is what is printed under its own name. */
  ghost predicate DescribesLicense(data: Json, r: LicenseFiles.LicenseResource)
    requires IsLicense(data)
  {
    && r.id == Meaning(Part(data, "id").value) && r.kind == Meaning(Part(data, "type").value)
    && r.attributes == MapPart(data, "attributes").value && r.relationships == MapPart(data, "relationships").value
  }

  lemma LicenseRead(data: Json)
    ensures LicenseFiles.ResourceFrom(Meaning(data)).Some? <==> IsLicense(data)
    ensures IsLicense(data) ==> DescribesLicense(data, LicenseFiles.ResourceFrom(Meaning(data)).value)
  {
    if data.Obj? {
      PartIsRead(data, "id");
      PartIsRead(data, "type");
      PartIsRead(data, "attributes");
      PartIsRead(data, "relationships");
    }
  }

  /** With these claims and data: expiry first, then what is no license; otherwise the claims and the license. */
  ghost predicate LicenseReturned(data: Json, claims: Claims, now: Option<int>, clock: int,
                                  r: Result<(LicenseFiles.LicenseResource, Claims), FileError>)
  {
    if HasExpired(claims, now, clock) then r == Err(Expired(claims.exp.value))
    else if !IsLicense(data) then r == Err(Malformed(BadData))
    else r.Ok? && r.value.1 == claims && DescribesLicense(data, r.value.0)
  }

  /**
   * What becomes of any bytes at all behind a signature that has passed: bytes that are no JSON, then a
   * payload without data, then one that prints no claims are refused; the rest follows its claims and data.
   */
  lemma LicensePayloadExactly(lib: Library, plaintext: bytes, payload: Json, claims: Claims, now: Option<int>,
                              clock: int)
    ensures Loads(plaintext).None? ==> LicenseFiles.Accept(lib, plaintext, now, clock) == Err(Malformed(BadJson))
    ensures
      var r := LicenseFiles.Accept(lib, Utf8(Print(payload)), now, clock);
      && (Part(payload, "data").None? ==> r == Err(Malformed(MissingData)))
      && (Part(payload, "data").Some? && PrintsClaims(lib, payload, claims) ==>
            LicenseReturned(Part(payload, "data").value, claims, now, clock, r))
      && (Part(payload, "data").Some? && (forall c :: !PrintsClaims(lib, payload, c)) ==>
            r == Err(Malformed(BadClaims)))
  {
    LoadsInvertsPrint(payload);
    ClaimsExactly(lib, payload, claims);
    if payload.Obj? {
      PartIsMeant(payload, "data");
      if Part(payload, "data").Some? {
        LicenseRead(Part(payload, "data").value);
      }
    }
    if ParseClaims(lib, Meaning(payload)).Some? {
      ClaimsExactly(lib, payload, ParseClaims(lib, Meaning(payload)).value);
    }
  }

  lemma LicenseAccepted(lib: Library, issue: Issue, now: Option<int>, clock: int)
    requires ConvertsExactly(lib)
    ensures LicenseReturned(issue.data, issue.claims, now, clock,
                            LicenseFiles.Accept(lib, IssuedPayload(issue), now, clock))
  {
    PayloadRoundTrip(lib, issue);
    LicenseRead(issue.data);
  }

  /** The resource and claims of a result without the key that signed them. */
  function LicenseAndClaims(r: Result<LicenseFiles.VerifiedLicenseFile, FileError>)
    : Result<(LicenseFiles.LicenseResource, Claims), FileError>
  {
    match r
    case Ok(v) => Ok((v.resource, v.claims))
    case Err(e) => Err(e)
  }

  /**
   * Until the claims expire, exactly the issued claims and a resource with each printed part in its own
   * field, or an error if the printed data are no license; and that expiry from then on.
   */
  ghost predicate LicenseComesBack(issue: Issue, now: Option<int>, clock: int,
                                   r: Result<LicenseFiles.VerifiedLicenseFile, FileError>)
  {
    LicenseReturned(issue.data, issue.claims, now, clock, LicenseAndClaims(r))
  }

  lemma LicenseOutcome(lib: Library, file: LicenseFiles.LicenseFile, issue: Issue, keys: seq<SigningKey>,
                       key: SigningKey, licenseKey: Option<string>, now: Option<int>, clock: int)
    requires ConvertsExactly(lib)
    requires key in keys && LicenseFiles.Signs(lib, file, key)
    requires LicenseFiles.DecodePayload(lib, file, licenseKey).result == Ok(IssuedPayload(issue))
    ensures LicenseComesBack(issue, now, clock,
        LicenseFiles.VerifyWithKeySet(lib, file, keys, licenseKey, now, clock).result)
  {
    LicenseFiles.AfterAnyKey(lib, file, key, licenseKey, now, clock);
    LicenseAccepted(lib, issue, now, clock);
    LicenseFiles.KeySetFollowsSigner(lib, file, keys, key, licenseKey, now, clock);
  }

  /**
   * A license file, plain or encrypted, issued for any data and signed by a key of the set: parsing its
   * text and verifying it with the set gives its claims, and its id, type, attributes and relationships
   * as printed, until they expire, and that expiry from then on. A plain one needs no license key.
   */
  lemma IssuedLicenseFile(lib: Library, issue: Issue, sealing: Sealing, licenseKey: Option<string>, sig: bytes,
                          keys: seq<SigningKey>, key: SigningKey, layout: Layout, now: Option<int>, clock: int)
    requires ConvertsExactly(lib)
    requires Opens(lib, LicenseSecret(lib, licenseKey), sealing, IssuedPayload(issue))
    requires
      var c := LicenseFields(sealing, IssuedPayload(issue), sig);
      && key in keys && Usable(key) && Verifies(lib, key, Utf8(c.enc), sig)
      && IsLayout(layout) && FitsCap(layout, c, Envelope.LICENSE_HEADER, Envelope.LICENSE_FOOTER)
    ensures
      var c := LicenseFields(sealing, IssuedPayload(issue), sig);
      && LicenseFiles.Parse(LicenseText(layout, c)) == Ok(FileOf(c))
      && LicenseComesBack(issue, now, clock,
                          LicenseFiles.VerifyWithKeySet(lib, FileOf(c), keys, licenseKey, now, clock).result)
  {
    var payload := IssuedPayload(issue);
    var c := LicenseFields(sealing, payload, sig);
    LicenseParses(layout, c);
    LicenseDecodes(lib, sealing, payload, sig, licenseKey);
    LicenseOutcome(lib, FileOf(c), issue, keys, key, licenseKey, now, clock);
  }

  // ---------- License files on which the two resolution orders part ----------

  /** The verdict of resolving a license file's key by its own claim first. */
  function KidFirstVerdictOf(lib: Library, file: LicenseFiles.LicenseFile, message: bytes, keys: seq<SigningKey>,
                             licenseKey: Option<string>): Verdict
  {
    VerdictOf(ResolveByKid(lib, keys, message, file.sig, LicenseFiles.UnverifiedKid(lib, file, licenseKey).kid))
  }

  lemma IssuedKid(lib: Library, file: LicenseFiles.LicenseFile, issue: Issue, licenseKey: Option<string>)
    requires ConvertsExactly(lib)
    requires LicenseFiles.DecodePayload(lib, file, licenseKey).result == Ok(IssuedPayload(issue))
    ensures LicenseFiles.UnverifiedKid(lib, file, licenseKey).kid == Some(issue.claims.kid)
  {
    PayloadRoundTrip(lib, issue);
  }

  /**
   * Any issued license file that a held key signed and whose claim names no held key: accepted by the
   * set, with its resource and claims, and an unknown key to the order that reads the claim first.
   */
  lemma MislabelledLicenseFile(lib: Library, issue: Issue, sealing: Sealing, licenseKey: Option<string>, sig: bytes,
                               keys: seq<SigningKey>, key: SigningKey, now: Option<int>, clock: int)
    requires ConvertsExactly(lib)
    requires Opens(lib, LicenseSecret(lib, licenseKey), sealing, IssuedPayload(issue))
    requires
      var c := LicenseFields(sealing, IssuedPayload(issue), sig);
      key in keys && Usable(key) && Verifies(lib, key, Utf8(c.enc), sig)
    requires forall k :: k in keys ==> !GoesBy(lib, k, issue.claims.kid)
    ensures
      var c := LicenseFields(sealing, IssuedPayload(issue), sig);
      && LicenseComesBack(issue, now, clock,
                          LicenseFiles.VerifyWithKeySet(lib, FileOf(c), keys, licenseKey, now, clock).result)
      && KidFirstVerdictOf(lib, FileOf(c), Utf8(c.enc), keys, licenseKey)
         == if issue.claims.kid == UNBACKFILLED_ACCOUNT_KEY_ID then NotPublished else NotHeld(issue.claims.kid)
  {
    var payload := IssuedPayload(issue);
    var c := LicenseFields(sealing, payload, sig);
    LicenseDecodes(lib, sealing, payload, sig, licenseKey);
    LicenseOutcome(lib, FileOf(c), issue, keys, key, licenseKey, now, clock);
    IssuedKid(lib, FileOf(c), issue, licenseKey);
    MislabelledToKidFirst(lib, keys, key, Utf8(c.enc), sig, issue.claims.kid);
  }

  lemma SealedMachineAndClaims(lib: Library, payload: bytes, nonce: bytes, ciphertext: bytes, sig: bytes)
    ensures
      var c := LicenseFields(Sealed(nonce, ciphertext), payload, sig);
      && Ascii(c.enc) == Some(Utf8(c.enc))
      && LicenseFiles.DecodePayload(lib, FileOf(c), None).result == Err(Malformed(SecretRequired))
  {
    EncodingAlphabet(nonce + ciphertext);
    AsciiOfAscii(Base64.Encode(nonce + ciphertext));
    Base64.StrictWhole(nonce + ciphertext);
  }

  /** Any encrypted one read without its license key: a missing secret to the set, a forgery to the other order. */
  lemma UnreadableLicenseFile(lib: Library, payload: bytes, nonce: bytes, ciphertext: bytes, sig: bytes,
                              keys: seq<SigningKey>, key: SigningKey, now: Option<int>, clock: int)
    requires
      var c := LicenseFields(Sealed(nonce, ciphertext), payload, sig);
      key in keys && Usable(key) && Verifies(lib, key, Utf8(c.enc), sig)
    ensures
      var c := LicenseFields(Sealed(nonce, ciphertext), payload, sig);
      && LicenseFiles.VerifyWithKeySet(lib, FileOf(c), keys, None, now, clock).result == Err(Malformed(SecretRequired))
      && KidFirstVerdictOf(lib, FileOf(c), Utf8(c.enc), keys, None) == Forged
  {
    var c := LicenseFields(Sealed(nonce, ciphertext), payload, sig);
    SealedMachineAndClaims(lib, payload, nonce, ciphertext, sig);
    LicenseFiles.AfterAnyKey(lib, FileOf(c), key, None, now, clock);
    LicenseFiles.KeySetFollowsSigner(lib, FileOf(c), keys, key, None, now, clock);
    UnreadableToKidFirst(lib, keys, key, Utf8(c.enc), sig);
  }

  function SampleData(): Json {
    Obj([Member("id", Str("")), Member("type", Str(""))])
  }

  lemma SampleIsAResource()
    ensures IsLicense(SampleData())
  {
    var id, kind := Member("id", Str("")), Member("type", Str(""));
    assert "id"[0] == 'i' && "type"[0] == 't' && "attributes"[0] == 'a' && "relationships"[0] == 'r';
    assert [id, kind][1..] == [kind] && [kind][1..] == [];
  }

  /** A library whose signature check accepts one message under one key. */
  function SampleLibrary(publicKey: bytes, message: bytes): Library {
    Library((scheme, k, m, s) => k == publicKey && m == message, text => "0011223344556677", text => [],
            (text, info) => [], (secret, nonce, ciphertext) => None,
            (value: Value) => if value.IntValue? then Some(value.n) else None,
            (value: Value) => if value.StrValue? then value.s else "")
  }

  /** A held key under that library. */
  lemma SampleKey(publicKey: bytes, message: bytes) returns (key: SigningKey)
    requires |publicKey| == ED25519_PUBLIC_KEY_LENGTH
    ensures ConvertsExactly(SampleLibrary(publicKey, message))
    ensures Usable(key) && Verifies(SampleLibrary(publicKey, message), key, message, [])
    ensures !GoesBy(SampleLibrary(publicKey, message), key, "8899aabbccddeeff")
  {
    key := SigningKey("0011223344556677", Base64.Encode(publicKey), ED25519_ALGORITHM, "active");
    Base64.RoundTrip(publicKey);
    LowerFixed();
    assert "8899aabbccddeeff"[0] == '8' && "0011223344556677"[0] == '0';
  }

  /** A plain file without expiry, under one key it does not name. */
  lemma MislabelledAlone(lib: Library, issue: Issue, key: SigningKey, file: LicenseFiles.LicenseFile, message: bytes)
    requires ConvertsExactly(lib)
    requires file == FileOf(LicenseFields(Plain, IssuedPayload(issue), [])) && message == Utf8(file.enc)
    requires Usable(key) && Verifies(lib, key, message, []) && !GoesBy(lib, key, issue.claims.kid)
    requires IsLicense(issue.data) && issue.claims.exp.None? && issue.claims.kid != UNBACKFILLED_ACCOUNT_KEY_ID
    ensures Ascii(file.enc) == Some(message)
    ensures LicenseFiles.VerifyWithKeySet(lib, file, [key], None, None, 0).result.Ok?
    ensures KidFirstVerdictOf(lib, file, message, [key], None) == NotHeld(issue.claims.kid)
  {
    LicenseDecodes(lib, Plain, IssuedPayload(issue), [], None);
    MislabelledLicenseFile(lib, issue, Plain, None, [], [key], key, None, 0);
  }

  /** Such a license file exists: a whole file, verified by the set and unknown by its claim. */
  lemma MislabelledFileExists() returns (lib: Library, file: LicenseFiles.LicenseFile, key: SigningKey, message: bytes)
    ensures Ascii(file.enc) == Some(message)
    ensures LicenseFiles.VerifyWithKeySet(lib, file, [key], None, None, 0).result.Ok?
    ensures KidFirstVerdictOf(lib, file, message, [key], None) == NotHeld("8899aabbccddeeff")
  {
    var raw := seq(ED25519_PUBLIC_KEY_LENGTH, i => 0);
    var issue := Issue(SampleData(), Claims(0, "", "8899aabbccddeeff", None), false);
    file := FileOf(LicenseFields(Plain, IssuedPayload(issue), []));
    message := Utf8(file.enc);
    lib := SampleLibrary(raw, message);
    key := SampleKey(raw, message);
    SampleIsAResource();
    assert "8899aabbccddeeff"[0] == '8' && UNBACKFILLED_ACCOUNT_KEY_ID[0] == 'e';
    MislabelledAlone(lib, issue, key, file, message);
  }

  // ---------- Machine files ----------

  function MachineFields(sealing: Sealing, payload: bytes, sig: bytes, scheme: Scheme): Envelope.Certificate
    requires !scheme.RsaJwt?
  {
    match sealing
    case Plain => Envelope.Certificate(Base64.Encode(payload), sig, MachineFiles.WireAlg(scheme, false))
    case Sealed(nonce, ciphertext) =>
      Envelope.Certificate(Base64.Encode(nonce) + "." + Base64.Encode(ciphertext), sig,
                           MachineFiles.WireAlg(scheme, true))
  }

  function MachineOf(c: Envelope.Certificate): MachineFiles.MachineFile {
    MachineFiles.MachineFile(c.enc, c.sig, c.alg)
  }

  function MachineSecret(lib: Library, secrets: MachineFiles.Secrets): Option<bytes> {
    if secrets.licenseKey.Some? && secrets.fingerprint.Some?
    then Some(lib.machineFileKey(secrets.licenseKey.value, secrets.fingerprint.value)) else None
  }

  function MachineText(layout: Layout, c: Envelope.Certificate): string {
    Text(layout, c, Envelope.MACHINE_HEADER, Envelope.MACHINE_FOOTER)
  }

  lemma MachineAlg(sealing: Sealing, payload: bytes, sig: bytes, scheme: Scheme)
    requires !scheme.RsaJwt?
    ensures MachineFiles.AlgSuffix(scheme).Some?
    ensures MachineFiles.ValidateAlg(MachineFields(sealing, payload, sig, scheme).alg)
         == Some((MachineFiles.PrefixFor(sealing.Sealed?), MachineFiles.AlgSuffix(scheme).value))
  {
    MachineFiles.WireAlgSplits(scheme, sealing.Sealed?);
  }

  lemma MachineParses(layout: Layout, c: Envelope.Certificate)
    requires IsLayout(layout) && FitsCap(layout, c, Envelope.MACHINE_HEADER, Envelope.MACHINE_FOOTER)
    requires MachineFiles.ValidateAlg(c.alg).Some?
    ensures MachineFiles.Parse(MachineText(layout, c)) == Ok(MachineOf(c))
  {
    Envelope.RealMarkers();
    Envelope.EnvelopeRoundTrip(c, Envelope.MACHINE_HEADER, Envelope.MACHINE_FOOTER,
                               layout.before, layout.padLeft, layout.padRight, layout.after);
  }

  lemma MachineDecodes(lib: Library, sealing: Sealing, payload: bytes, sig: bytes, scheme: Scheme,
                       secrets: MachineFiles.Secrets)
    requires !scheme.RsaJwt? && Opens(lib, MachineSecret(lib, secrets), sealing, payload)
    ensures
      var c := MachineFields(sealing, payload, sig, scheme);
      var prefix := MachineFiles.PrefixFor(sealing.Sealed?);
      && MachineFiles.DecodePayload(lib, MachineOf(c), prefix, secrets).result == Ok(payload)
      && Ascii(c.enc) == Some(Utf8(c.enc))
  {
    var c := MachineFields(sealing, payload, sig, scheme);
    MachineFiles.PrefixesApart();
    match sealing {
      case Plain =>
        EncodingAlphabet(payload);
        Base64.StrictWhole(payload);
      case Sealed(nonce, ciphertext) =>
        EncodingAlphabet(nonce);
        EncodingAlphabet(ciphertext);
        MachineFiles.EncryptedPayloadExactly(lib, MachineOf(c), secrets, nonce, ciphertext);
    }
    AsciiOfAscii(c.enc);
  }

  /** The printed data are a machine: an object with an id, and attributes that may be missing or null. */
  predicate IsMachine(data: Json) {
    Part(data, "id").Some? && MapPart(data, "attributes").Some?
  }

  /** The id and the attributes are as printed, and the status is read off the printed attributes. */
  ghost predicate DescribesMachine(data: Json, r: MachineFiles.MachineResource)
    requires IsMachine(data)
  {
    && r.id == Meaning(Part(data, "id").value) && r.attributes == MapPart(data, "attributes").value
    && MachineFiles.IsStatusOf(r.heartbeat, r.attributes)
  }

  /** With these claims and data: what is no object, then expiry, then an id or attributes missed; otherwise both. */
  ghost predicate MachineReturned(data: Json, claims: Claims, now: Option<int>, clock: int,
                                  r: Result<(MachineFiles.MachineResource, Claims), FileError>)
  {
    if !data.Obj? then r == Err(Malformed(BadData))
    else if HasExpired(claims, now, clock) then r == Err(Expired(claims.exp.value))
    else if !IsMachine(data) then r == Err(Malformed(BadData))
    else r.Ok? && r.value.1 == claims && DescribesMachine(data, r.value.0)
  }

  /** The parts of the data that a machine is read from. */
  lemma MachineRead(data: Json)
    requires data.Obj?
    ensures "id" in Meaning(data).members <==> Part(data, "id").Some?
    ensures Part(data, "id").Some? ==> Meaning(data).members["id"] == Meaning(Part(data, "id").value)
    ensures LicenseFiles.ObjectMember(Meaning(data).members, "attributes") == MapPart(data, "attributes")
    ensures forall attributes ::
              MachineFiles.IsStatusOf(MachineFiles.HeartbeatFrom(attributes), attributes)
  {
    PartIsRead(data, "id");
    PartIsRead(data, "attributes");
    forall attributes ensures MachineFiles.IsStatusOf(MachineFiles.HeartbeatFrom(attributes), attributes) {
      MachineFiles.HeartbeatExactly(attributes, MachineFiles.HeartbeatFrom(attributes));
    }
  }

  lemma MachineAcceptedFrom(lib: Library, plaintext: bytes, payload: Json, data: Json, claims: Option<Claims>,
                            now: Option<int>, clock: int)
    requires Loads(plaintext) == Some(Meaning(payload)) && Part(payload, "data") == Some(data)
    requires ParseClaims(lib, Meaning(payload)) == claims
    ensures
      var r := MachineFiles.Accept(lib, plaintext, now, clock);
      if claims.Some? then MachineReturned(data, claims.value, now, clock, r)
      else data.Obj? ==> r == Err(Malformed(BadClaims))
  {
    PartIsMeant(payload, "data");
    if data.Obj? {
      MachineRead(data);
    }
  }

  /** What becomes of any bytes behind a machine file's signature. */
  lemma MachinePayloadExactly(lib: Library, plaintext: bytes, payload: Json, claims: Claims, now: Option<int>,
                              clock: int)
    ensures Loads(plaintext).None? ==> MachineFiles.Accept(lib, plaintext, now, clock) == Err(Malformed(BadJson))
    ensures
      var r := MachineFiles.Accept(lib, Utf8(Print(payload)), now, clock);
      var data := Part(payload, "data");
      && (data.None? ==> r == Err(Malformed(MissingData)))
      && (data.Some? && PrintsClaims(lib, payload, claims) ==> MachineReturned(data.value, claims, now, clock, r))
      && (data.Some? && data.value.Obj? && (forall c :: !PrintsClaims(lib, payload, c)) ==>
            r == Err(Malformed(BadClaims)))
  {
    var plain, data, read := Utf8(Print(payload)), Part(payload, "data"), ParseClaims(lib, Meaning(payload));
    LoadsInvertsPrint(payload);
    ClaimsExactly(lib, payload, claims);
    if read.Some? {
      ClaimsExactly(lib, payload, read.value);
    }
    if data.Some? {
      MachineAcceptedFrom(lib, plain, payload, data.value, read, now, clock);
    } else if payload.Obj? {
      PartIsMeant(payload, "data");
    }
  }

  lemma MachineAccepted(lib: Library, issue: Issue, now: Option<int>, clock: int)
    requires ConvertsExactly(lib)
    ensures MachineReturned(issue.data, issue.claims, now, clock,
                            MachineFiles.Accept(lib, IssuedPayload(issue), now, clock))
  {
    PayloadRoundTrip(lib, issue);
    if issue.data.Obj? {
      MachineRead(issue.data);
    }
  }

  lemma MachineOutcome(lib: Library, file: MachineFiles.MachineFile, prefix: string, issue: Issue, publicKey: bytes,
                       scheme: Scheme, secrets: MachineFiles.Secrets, now: Option<int>, clock: int)
    requires ConvertsExactly(lib) && MachineFiles.AlgSuffix(scheme).Some?
    requires Ascii(file.enc).Some? && lib.verify(scheme, publicKey, Ascii(file.enc).value, file.sig)
    requires MachineFiles.ValidateAlg(file.alg) == Some((prefix, MachineFiles.AlgSuffix(scheme).value))
    requires MachineFiles.DecodePayload(lib, file, prefix, secrets).result == Ok(IssuedPayload(issue))
    ensures MachineReturned(issue.data, issue.claims, now, clock,
                             MachineFiles.Verify(lib, file, publicKey, scheme, secrets, now, clock).result)
  {
    MachineAccepted(lib, issue, now, clock);
  }

  /**
   * The same for a machine file, whose encrypted payload is two parts, under every scheme that signs
   * machine files, its `alg` as it stands on the wire: with the key that signed it, it gives exactly its
   * claims, id, attributes and status, or its expiry.
   */
  lemma IssuedMachineFile(lib: Library, issue: Issue, sealing: Sealing, secrets: MachineFiles.Secrets, sig: bytes,
                          publicKey: bytes, scheme: Scheme, layout: Layout, now: Option<int>, clock: int)
    requires ConvertsExactly(lib) && !scheme.RsaJwt?
    requires Opens(lib, MachineSecret(lib, secrets), sealing, IssuedPayload(issue))
    requires
      var c := MachineFields(sealing, IssuedPayload(issue), sig, scheme);
      && lib.verify(scheme, publicKey, Utf8(c.enc), sig)
      && IsLayout(layout) && FitsCap(layout, c, Envelope.MACHINE_HEADER, Envelope.MACHINE_FOOTER)
    ensures
      var c := MachineFields(sealing, IssuedPayload(issue), sig, scheme);
      && MachineFiles.Parse(MachineText(layout, c)) == Ok(MachineOf(c))
      && MachineReturned(issue.data, issue.claims, now, clock,
                          MachineFiles.Verify(lib, MachineOf(c), publicKey, scheme, secrets, now, clock).result)
  {
    var payload := IssuedPayload(issue);
    var c := MachineFields(sealing, payload, sig, scheme);
    MachineAlg(sealing, payload, sig, scheme);
    MachineParses(layout, c);
    MachineDecodes(lib, sealing, payload, sig, scheme, secrets);
    MachineOutcome(lib, MachineOf(c), MachineFiles.PrefixFor(sealing.Sealed?), issue, publicKey, scheme, secrets, now,
                   clock);
  }

  /** The machine and claims of a result without the key that signed them. */
  function MachineAndClaims(r: Result<MachineFiles.VerifiedMachineFile, FileError>)
    : Result<(MachineFiles.MachineResource, Claims), FileError>
  {
    match r
    case Ok(v) => Ok((v.resource, v.claims))
    case Err(e) => Err(e)
  }

  /** Signed by an Ed25519 key of the set, the set gives it back too. */
  lemma IssuedMachineFileInSet(lib: Library, issue: Issue, sealing: Sealing, secrets: MachineFiles.Secrets, sig: bytes,
                               keys: seq<SigningKey>, key: SigningKey, layout: Layout, now: Option<int>, clock: int)
    requires ConvertsExactly(lib)
    requires Opens(lib, MachineSecret(lib, secrets), sealing, IssuedPayload(issue))
    requires
      var c := MachineFields(sealing, IssuedPayload(issue), sig, Ed25519);
      && key in keys && Usable(key) && Verifies(lib, key, Utf8(c.enc), sig)
      && IsLayout(layout) && FitsCap(layout, c, Envelope.MACHINE_HEADER, Envelope.MACHINE_FOOTER)
    ensures
      var c := MachineFields(sealing, IssuedPayload(issue), sig, Ed25519);
      var r := MachineFiles.VerifyWithKeySet(lib, MachineOf(c), keys, Ed25519, secrets, now, clock).result;
      && MachineFiles.Parse(MachineText(layout, c)) == Ok(MachineOf(c))
      && MachineReturned(issue.data, issue.claims, now, clock, MachineAndClaims(r))
  {
    var payload := IssuedPayload(issue);
    IssuedMachineFile(lib, issue, sealing, secrets, sig, KeyBytes(key), Ed25519, layout, now, clock);
    MachineDecodes(lib, sealing, payload, sig, Ed25519, secrets);
    MachineFiles.KeySetFollowsSigner(lib, MachineOf(MachineFields(sealing, payload, sig, Ed25519)), keys, key,
                                     secrets, now, clock);
  }
}
