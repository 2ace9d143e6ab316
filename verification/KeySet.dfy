/** The trusted signing keys, and which of them signed a file. */
module KeySet {
  import opened Common
  import opened Checkout
  import Base64

  const ED25519_ALGORITHM: string := "ed25519"
  const ED25519_PUBLIC_KEY_LENGTH := 32
  const UNBACKFILLED_ACCOUNT_KEY_ID: string := "e3b0c44298fc1c14"

  datatype SigningKey = SigningKey(kid: string, publicKey: string, algorithm: string, status: string)

  function LowerChar(c: char): char {
    if 'A' <= c <= 'Z' then (c as int + 32) as char else c
  }

  function Lower(s: string): string {
    seq(|s|, i requires 0 <= i < |s| => LowerChar(s[i]))
  }

  predicate IsEd25519(key: SigningKey) {
    Lower(key.algorithm) == ED25519_ALGORITHM
  }

  function PublicKeyBytes(key: SigningKey): Option<bytes> {
    match Base64.Decode(key.publicKey)
    case None => None
    case Some(raw) => if |raw| == ED25519_PUBLIC_KEY_LENGTH then Some(raw) else None
  }

  function ComputedKid(lib: Library, key: SigningKey): string {
    lib.keyId(key.publicKey)
  }

  predicate Usable(key: SigningKey) {
    IsEd25519(key) && PublicKeyBytes(key).Some?
  }

  /** The raw key of a usable entry. */
  function KeyBytes(key: SigningKey): bytes
    requires Usable(key)
  {
    PublicKeyBytes(key).value
  }

  /** The key goes by this id, published or computed. */
  predicate GoesBy(lib: Library, key: SigningKey, kid: string) {
    kid == key.kid || kid == ComputedKid(lib, key)
  }

  /** What makes a key usable, letter by letter and byte by byte: it says `ed25519`, in any case, and holds 32 bytes. */
  lemma UsableExactly(key: SigningKey)
    ensures Usable(key) <==>
              && |key.algorithm| == 7
              && (forall i :: 0 <= i < 7 ==> SameLetter(key.algorithm[i], "ed25519"[i]))
              && Base64.Decode(key.publicKey).Some? && |Base64.Decode(key.publicKey).value| == 32
    ensures Usable(key) ==> Base64.Decode(key.publicKey) == Some(KeyBytes(key))
  {
    AlgorithmExactly(key.algorithm);
  }

  /** Equal, or the capital of this small letter. */
  predicate SameLetter(c: char, small: char) {
    c == small || ('A' <= c <= 'Z' && c as int + 32 == small as int)
  }

  lemma AlgorithmExactly(text: string)
    ensures Lower(text) == "ed25519" <==> |text| == 7 && forall i :: 0 <= i < 7 ==> SameLetter(text[i], "ed25519"[i])
  {
    var wanted := "ed25519";
    assert forall i :: 0 <= i < 7 ==> !('A' <= wanted[i] <= 'Z');
    if |text| == 7 && forall i :: 0 <= i < 7 ==> SameLetter(text[i], wanted[i]) {
      forall i | 0 <= i < 7 ensures Lower(text)[i] == wanted[i] {
        assert SameLetter(text[i], wanted[i]);
      }
    }
    if Lower(text) == wanted {
      forall i | 0 <= i < 7 ensures SameLetter(text[i], wanted[i]) {
        assert Lower(text)[i] == wanted[i];
      }
    }
  }

  /** `usable_keys`, in the order given. */
  function UsableKeys(keys: seq<SigningKey>): (r: seq<SigningKey>)
    ensures forall key :: key in r <==> key in keys && Usable(key)
    ensures |r| <= |keys|
  {
    if keys == [] then []
    else
      assert keys == [keys[0]] + keys[1..];
      (if Usable(keys[0]) then [keys[0]] else []) + UsableKeys(keys[1..])
  }

  function Kids(keys: seq<SigningKey>): (r: seq<string>)
    ensures |r| == |keys|
  {
    seq(|keys|, i requires 0 <= i < |keys| => keys[i].kid)
  }

  /** `find`: the first key that goes by this id. */
  function Find(lib: Library, keys: seq<SigningKey>, kid: string): (r: Option<SigningKey>)
    ensures r.Some? ==> r.value in keys && GoesBy(lib, r.value, kid)
    ensures r.None? ==> forall key :: key in keys ==> !GoesBy(lib, key, kid)
  {
    if keys == [] then None
    else if GoesBy(lib, keys[0], kid) then Some(keys[0])
    else
      assert keys == [keys[0]] + keys[1..];
      Find(lib, keys[1..], kid)
  }

  /** The earliest key whose published id or whose computed one this is. */
  lemma {:induction false} FindTakesFirst(lib: Library, keys: seq<SigningKey>, kid: string, i: nat)
    requires i < |keys| && (keys[i].kid == kid || lib.keyId(keys[i].publicKey) == kid)
    requires forall j :: 0 <= j < i ==> keys[j].kid != kid && lib.keyId(keys[j].publicKey) != kid
    ensures Find(lib, keys, kid) == Some(keys[i])
  {
    if i > 0 {
      FindTakesFirst(lib, keys[1..], kid, i - 1);
    }
  }

  /** The file's signature holds under this key. */
  predicate Verifies(lib: Library, key: SigningKey, message: bytes, sig: bytes)
    requires Usable(key)
  {
    lib.verify(Ed25519, KeyBytes(key), message, sig)
  }

  /** Some key of the set is usable and verifies. */
  ghost predicate SomeKeyVerifies(lib: Library, keys: seq<SigningKey>, message: bytes, sig: bytes) {
    exists key :: key in keys && Usable(key) && Verifies(lib, key, message, sig)
  }

  /** The first verifying key among usable candidates. */
  function FirstVerifying(lib: Library, candidates: seq<SigningKey>, message: bytes,
                          sig: bytes): (r: Option<SigningKey>)
    requires forall key :: key in candidates ==> Usable(key)
    ensures r.Some? ==> r.value in candidates && Verifies(lib, r.value, message, sig)
    ensures r.None? ==> forall key :: key in candidates ==> !Verifies(lib, key, message, sig)
  {
    if candidates == [] then None
    else if Verifies(lib, candidates[0], message, sig) then Some(candidates[0])
    else
      assert candidates == [candidates[0]] + candidates[1..];
      FirstVerifying(lib, candidates[1..], message, sig)
  }

  /** The signature checks made: one per candidate, up to and including the first success. */
  function Checks(lib: Library, candidates: seq<SigningKey>, message: bytes, sig: bytes): seq<Event>
    requires forall key :: key in candidates ==> Usable(key)
  {
    if candidates == [] then []
    else
      var ok := Verifies(lib, candidates[0], message, sig);
      assert candidates == [candidates[0]] + candidates[1..];
      [Checked(KeyBytes(candidates[0]), message, ok)] +
      (if ok then [] else Checks(lib, candidates[1..], message, sig))
  }

  /** What reading the file's own `kid` without verifying it gives, and the events that takes. */
  datatype Claimed = Claimed(kid: Option<string>, trace: seq<Event>)

  /** Why nothing verified. */
  function Refusal(lib: Library, keys: seq<SigningKey>, claimed: Option<string>): FileError {
    match claimed
    case None => InvalidSignature
    case Some(kid) =>
      if Find(lib, keys, kid).Some? then InvalidSignature
      else if kid == UNBACKFILLED_ACCOUNT_KEY_ID then SigningKeyNotPublished(kid, Kids(UsableKeys(keys)))
      else UnknownSigningKey(kid, Kids(UsableKeys(keys)))
  }

  /** `_resolve_signing_key`: every candidate is tried before the claim is read. */
  function Resolve(lib: Library, keys: seq<SigningKey>, message: bytes, sig: bytes, claimed: Claimed): Run<SigningKey> {
    var candidates := UsableKeys(keys);
    if candidates == [] then Run(Err(NoUsableSigningKey(Kids(keys))), [])
    else
      match FirstVerifying(lib, candidates, message, sig)
      case Some(key) => Run(Ok(key), Checks(lib, candidates, message, sig))
      case None => Run(Err(Refusal(lib, keys, claimed.kid)), Checks(lib, candidates, message, sig) + claimed.trace)
  }

  /** What one more candidate adds. */
  lemma CheckStep(lib: Library, candidates: seq<SigningKey>, message: bytes, sig: bytes, i: nat)
    requires forall key :: key in candidates ==> Usable(key)
    requires i < |candidates|
    ensures
      var ok := Verifies(lib, candidates[i], message, sig);
      && Checks(lib, candidates[i..], message, sig)
         == [Checked(KeyBytes(candidates[i]), message, ok)]
            + (if ok then [] else Checks(lib, candidates[i + 1..], message, sig))
      && FirstVerifying(lib, candidates[i..], message, sig)
         == if ok then Some(candidates[i]) else FirstVerifying(lib, candidates[i + 1..], message, sig)
  {
    assert candidates[i..][0] == candidates[i] && candidates[i..][1..] == candidates[i + 1..];
  }

  lemma Shift(done: seq<Event>, e: Event, todo: seq<Event>)
    ensures done + ([e] + todo) == (done + [e]) + todo
    ensures (done + [e]) + [] == done + [e]
  {
  }

  /** Tries every candidate against the signature, stopping at the first success. */
  method TryCandidates(lib: Library, candidates: seq<SigningKey>, message: bytes, sig: bytes)
    returns (found: Option<SigningKey>, trace: seq<Event>)
    requires forall key :: key in candidates ==> Usable(key)
    ensures found == FirstVerifying(lib, candidates, message, sig)
    ensures trace == Checks(lib, candidates, message, sig)
  {
    trace := [];
    for i := 0 to |candidates|
      invariant Checks(lib, candidates, message, sig) == trace + Checks(lib, candidates[i..], message, sig)
      invariant FirstVerifying(lib, candidates, message, sig) == FirstVerifying(lib, candidates[i..], message, sig)
    {
      assert candidates[i] in candidates;
      var publicKey := KeyBytes(candidates[i]);
      var ok := lib.verify(Ed25519, publicKey, message, sig);
      CheckStep(lib, candidates, message, sig, i);
      Shift(trace, Checked(publicKey, message, ok), if ok then [] else Checks(lib, candidates[i + 1..], message, sig));
      trace := trace + [Checked(publicKey, message, ok)];
      if ok {
        return Some(candidates[i]), trace;
      }
    }
    return None, trace;
  }

  /** Base64 of exactly 32 bytes. */
  predicate IsKeyText(publicKey: string) {
    Base64.Decode(publicKey).Some? && |Base64.Decode(publicKey).value| == 32
  }

  /** `from_public_keys`: strict, and every key it builds goes by its own computed id. */
  method FromPublicKeys(lib: Library, publicKeys: seq<string>) returns (r: Result<seq<SigningKey>, nat>)
    ensures r.Ok? ==> |r.value| == |publicKeys| && UsableKeys(r.value) == r.value
    ensures r.Ok? ==> forall i :: 0 <= i < |publicKeys| ==>
              && r.value[i].publicKey == publicKeys[i] && r.value[i].kid == lib.keyId(publicKeys[i])
              && r.value[i].status == "active" && Usable(r.value[i])
    ensures r.Err? ==> r.error < |publicKeys| && !IsKeyText(publicKeys[r.error])
    ensures r.Err? ==> forall j :: 0 <= j < r.error ==> IsKeyText(publicKeys[j])
  {
    var keys: seq<SigningKey> := [];
    for index := 0 to |publicKeys|
      invariant |keys| == index
      invariant forall j :: 0 <= j < index ==> keys[j] == Pinned(lib, publicKeys[j]) && PublicKeyBytes(keys[j]).Some?
    {
      var key := Pinned(lib, publicKeys[index]);
      if PublicKeyBytes(key).None? {
        return Err(index);
      }
      keys := keys + [key];
    }
    PinnedUsable(lib, keys);
    return Ok(keys);
  }

  /** `SigningKey.ed25519`. */
  function Pinned(lib: Library, publicKey: string): SigningKey {
    SigningKey(lib.keyId(publicKey), publicKey, ED25519_ALGORITHM, "active")
  }

  lemma {:induction false} PinnedUsable(lib: Library, keys: seq<SigningKey>)
    requires forall j :: 0 <= j < |keys| ==> keys[j].algorithm == ED25519_ALGORITHM && PublicKeyBytes(keys[j]).Some?
    ensures forall j :: 0 <= j < |keys| ==> Usable(keys[j])
    ensures UsableKeys(keys) == keys
  {
    LowerFixed();
    if keys != [] {
      PinnedUsable(lib, keys[1..]);
      assert keys == [keys[0]] + keys[1..];
    }
  }

  lemma LowerFixed()
    ensures Lower(ED25519_ALGORITHM) == ED25519_ALGORITHM
  {
  }

  // ---------- Classification ----------

  lemma FirstVerifyingExists(lib: Library, keys: seq<SigningKey>, message: bytes, sig: bytes)
    ensures FirstVerifying(lib, UsableKeys(keys), message, sig).Some? <==> SomeKeyVerifies(lib, keys, message, sig)
  {
  }

  /** The published ids of these keys, one each, in their order. */
  ghost predicate ListsIds(ids: seq<string>, keys: seq<SigningKey>) {
    |ids| == |keys| && forall i :: 0 <= i < |keys| ==> ids[i] == keys[i].kid
  }

  /** Exactly when each outcome occurs, in terms of which keys are in the set and nothing else. */
  ghost predicate Classified(lib: Library, keys: seq<SigningKey>, message: bytes, sig: bytes, kid: Option<string>,
                             r: Result<SigningKey, FileError>)
  {
    var anyUsable := exists key :: key in keys && Usable(key);
    var verified := SomeKeyVerifies(lib, keys, message, sig);
    var held := kid.Some? && exists key :: key in keys && GoesBy(lib, key, kid.value);
    && (r.Ok? <==> verified)
    && (r.Ok? ==> r.value in keys && Usable(r.value) && Verifies(lib, r.value, message, sig))
    && (r.Err? && r.error.NoUsableSigningKey? <==> !anyUsable)
    && (r.Err? && r.error.InvalidSignature? <==> anyUsable && !verified && (kid.None? || held))
    && (r.Err? && r.error.SigningKeyNotPublished? <==>
          anyUsable && !verified && kid == Some("e3b0c44298fc1c14") && !held)
    && (r.Err? && r.error.UnknownSigningKey? <==>
          anyUsable && !verified && kid.Some? && kid.value != "e3b0c44298fc1c14" && !held)
    && (r.Err? && (r.error.SigningKeyNotPublished? || r.error.UnknownSigningKey?) ==>
          kid == Some(r.error.kid) && ListsIds(r.error.tried, UsableKeys(keys)))
    && (r.Err? && r.error.NoUsableSigningKey? ==> ListsIds(r.error.available, keys))
    && (r.Err? ==> r.error.NoUsableSigningKey? || r.error.InvalidSignature?
                   || r.error.SigningKeyNotPublished? || r.error.UnknownSigningKey?)
  }

  lemma ResolveClassified(lib: Library, keys: seq<SigningKey>, message: bytes, sig: bytes, claimed: Claimed)
    ensures Classified(lib, keys, message, sig, claimed.kid, Resolve(lib, keys, message, sig, claimed).result)
  {
    FirstVerifyingExists(lib, keys, message, sig);
    var usable := UsableKeys(keys);
    if usable != [] {
      assert usable[0] in usable;
    }
    if claimed.kid.Some? {
      var found := Find(lib, keys, claimed.kid.value);
      assert found.Some? <==> exists key :: key in keys && GoesBy(lib, key, claimed.kid.value);
    }
  }

  lemma UsableStep(lib: Library, keys: seq<SigningKey>, message: bytes, sig: bytes)
    requires keys != []
    ensures FirstVerifying(lib, UsableKeys(keys), message, sig)
         == if Usable(keys[0]) && Verifies(lib, keys[0], message, sig) then Some(keys[0])
            else FirstVerifying(lib, UsableKeys(keys[1..]), message, sig)
  {
    var rest := UsableKeys(keys[1..]);
    if Usable(keys[0]) {
      assert UsableKeys(keys)[1..] == rest;
    } else {
      assert UsableKeys(keys) == rest;
    }
  }

  /** A success is the earliest key, in the order given, that is usable and verifies. */
  lemma {:induction false} ResolveTakesFirst(lib: Library, keys: seq<SigningKey>, message: bytes, sig: bytes)
    returns (i: nat)
    requires FirstVerifying(lib, UsableKeys(keys), message, sig).Some?
    ensures i < |keys| && FirstVerifying(lib, UsableKeys(keys), message, sig) == Some(keys[i])
    ensures Usable(keys[i]) && Verifies(lib, keys[i], message, sig)
    ensures forall j :: 0 <= j < i && Usable(keys[j]) ==> !Verifies(lib, keys[j], message, sig)
  {
    UsableStep(lib, keys, message, sig);
    if Usable(keys[0]) && Verifies(lib, keys[0], message, sig) {
      i := 0;
    } else {
      var k := ResolveTakesFirst(lib, keys[1..], message, sig);
      i := k + 1;
    }
  }

  /** An outcome without the lists of ids an error carries. */
  datatype Verdict = Verified | NoKeys | Forged | NotPublished | NotHeld(kid: string) | Other

  function VerdictOf<T>(r: Result<T, FileError>): Verdict {
    match r
    case Ok(_) => Verified
    case Err(InvalidSignature) => Forged
    case Err(NoUsableSigningKey(_)) => NoKeys
    case Err(SigningKeyNotPublished(_, _)) => NotPublished
    case Err(UnknownSigningKey(kid, _)) => NotHeld(kid)
    case _ => Other
  }

  function ResolveVerdict(lib: Library, keys: seq<SigningKey>, message: bytes, sig: bytes, claimed: Claimed): Verdict {
    VerdictOf(Resolve(lib, keys, message, sig, claimed).result)
  }

  /** The verdict when nothing verified: forged if the claim names a held key or nothing, and unknown otherwise. */
  function RefusalVerdict(lib: Library, keys: seq<SigningKey>, kid: Option<string>): (v: Verdict)
    ensures v != Verified && v != NoKeys
    ensures v == Forged <==> kid.None? || Find(lib, keys, kid.value).Some?
  {
    VerdictOf<SigningKey>(Err(Refusal(lib, keys, kid)))
  }

  lemma SignatureFirstVerdict(lib: Library, keys: seq<SigningKey>, message: bytes, sig: bytes, claimed: Claimed)
    ensures ResolveVerdict(lib, keys, message, sig, claimed)
         == if UsableKeys(keys) == [] then NoKeys
            else if SomeKeyVerifies(lib, keys, message, sig) then Verified
            else RefusalVerdict(lib, keys, claimed.kid)
  {
    FirstVerifyingExists(lib, keys, message, sig);
  }

  lemma RefusalUnordered(lib: Library, a: seq<SigningKey>, b: seq<SigningKey>, kid: Option<string>)
    requires forall key :: key in a <==> key in b
    ensures RefusalVerdict(lib, a, kid) == RefusalVerdict(lib, b, kid)
  {
    if kid.Some? {
      var x, y := Find(lib, a, kid.value), Find(lib, b, kid.value);
      assert x.Some? ==> x.value in b;
      assert y.Some? ==> y.value in a;
    }
  }

  lemma UsableUnordered(a: seq<SigningKey>, b: seq<SigningKey>)
    requires forall key :: key in a ==> key in b
    ensures UsableKeys(a) != [] ==> UsableKeys(b) != []
  {
    if UsableKeys(a) != [] {
      assert UsableKeys(a)[0] in UsableKeys(b);
    }
  }

  /** The verdict depends on which keys are held and not on their order or repetition. */
  lemma VerdictUnordered(lib: Library, a: seq<SigningKey>, b: seq<SigningKey>, message: bytes, sig: bytes,
                         claimed: Claimed)
    requires forall key :: key in a <==> key in b
    ensures ResolveVerdict(lib, a, message, sig, claimed) == ResolveVerdict(lib, b, message, sig, claimed)
  {
    SignatureFirstVerdict(lib, a, message, sig, claimed);
    SignatureFirstVerdict(lib, b, message, sig, claimed);
    RefusalUnordered(lib, a, b, claimed.kid);
    UsableUnordered(a, b);
    UsableUnordered(b, a);
  }

  /** Holding more keys never loses a success, and never turns a forgery into a missing key. */
  lemma VerdictMonotone(lib: Library, a: seq<SigningKey>, b: seq<SigningKey>, message: bytes, sig: bytes,
                        claimed: Claimed)
    requires forall key :: key in a ==> key in b
    ensures
      var before, after := ResolveVerdict(lib, a, message, sig, claimed), ResolveVerdict(lib, b, message, sig, claimed);
      && (before == Verified ==> after == Verified)
      && (before == Forged ==> after == Verified || after == Forged)
      && (after == NoKeys ==> before == NoKeys)
  {
    ResolveClassified(lib, a, message, sig, claimed);
    ResolveClassified(lib, b, message, sig, claimed);
  }

  // ---------- Kid-first resolution ----------

  /** The other order: read the claim, look the key up, and only then check the signature. */
  function ResolveByKid(lib: Library, keys: seq<SigningKey>, message: bytes, sig: bytes, claimed: Option<string>)
    : Result<SigningKey, FileError>
  {
    if UsableKeys(keys) == [] then Err(NoUsableSigningKey(Kids(keys)))
    else
      match claimed
      case None => Err(InvalidSignature)
      case Some(kid) =>
        match Find(lib, keys, kid)
        case None => Err(Refusal(lib, keys, claimed))
        case Some(key) =>
          if Usable(key) && Verifies(lib, key, message, sig) then Ok(key) else Err(InvalidSignature)
  }

  /** No id, published or computed, belongs to two different keys of the set. */
  ghost predicate DistinctKids(lib: Library, keys: seq<SigningKey>) {
    forall a, b, kid :: a in keys && b in keys && GoesBy(lib, a, kid) && GoesBy(lib, b, kid) ==> a == b
  }

  /** Every key the signature holds under is the one the file names. */
  ghost predicate NamesItsKey(lib: Library, keys: seq<SigningKey>, message: bytes, sig: bytes, kid: string) {
    forall key :: key in keys && Usable(key) && Verifies(lib, key, message, sig) ==> kid == ComputedKid(lib, key)
  }

  /** The key that goes by the claimed id is usable and verifies. */
  predicate ClaimedKeyVerifies(lib: Library, keys: seq<SigningKey>, message: bytes, sig: bytes,
                               claimed: Option<string>)
  {
    claimed.Some? &&
    var found := Find(lib, keys, claimed.value);
    found.Some? && Usable(found.value) && Verifies(lib, found.value, message, sig)
  }

  lemma KidFirstVerdict(lib: Library, keys: seq<SigningKey>, message: bytes, sig: bytes, kid: Option<string>)
    ensures VerdictOf(ResolveByKid(lib, keys, message, sig, kid))
         == if UsableKeys(keys) == [] then NoKeys
            else if ClaimedKeyVerifies(lib, keys, message, sig, kid) then Verified
            else RefusalVerdict(lib, keys, kid)
  {
  }

  lemma ClaimedKeyIsAKey(lib: Library, keys: seq<SigningKey>, message: bytes, sig: bytes, kid: Option<string>)
    ensures ClaimedKeyVerifies(lib, keys, message, sig, kid) ==> SomeKeyVerifies(lib, keys, message, sig)
    ensures SomeKeyVerifies(lib, keys, message, sig) ==> UsableKeys(keys) != []
  {
    if SomeKeyVerifies(lib, keys, message, sig) {
      var key :| key in keys && Usable(key) && Verifies(lib, key, message, sig);
      assert key in UsableKeys(keys);
    }
  }

  /**
   * The two orders reach one verdict on a file exactly when no held key signed it or the held key it
   * names did; an unreadable claim names none.
   */
  lemma KidFirstVerdictExactly(lib: Library, keys: seq<SigningKey>, message: bytes, sig: bytes, claimed: Claimed)
    ensures VerdictOf(ResolveByKid(lib, keys, message, sig, claimed.kid))
        == ResolveVerdict(lib, keys, message, sig, claimed)
       <==> (SomeKeyVerifies(lib, keys, message, sig) ==> ClaimedKeyVerifies(lib, keys, message, sig, claimed.kid))
  {
    SignatureFirstVerdict(lib, keys, message, sig, claimed);
    KidFirstVerdict(lib, keys, message, sig, claimed.kid);
    ClaimedKeyIsAKey(lib, keys, message, sig, claimed.kid);
  }

  /** A message that a held key signed and that names no held key is an unknown key to the order that asks it. */
  lemma MislabelledToKidFirst(lib: Library, keys: seq<SigningKey>, key: SigningKey, message: bytes, sig: bytes,
                              kid: string)
    requires key in keys && Usable(key) && Verifies(lib, key, message, sig)
    requires forall k :: k in keys ==> !GoesBy(lib, k, kid)
    ensures VerdictOf(ResolveByKid(lib, keys, message, sig, Some(kid)))
         == if kid == UNBACKFILLED_ACCOUNT_KEY_ID then NotPublished else NotHeld(kid)
  {
    KidFirstVerdict(lib, keys, message, sig, Some(kid));
    ClaimedKeyIsAKey(lib, keys, message, sig, Some(kid));
    assert Find(lib, keys, kid).None?;
  }

  /** A message that a held key signed and whose claim cannot be read is a forgery to it. */
  lemma UnreadableToKidFirst(lib: Library, keys: seq<SigningKey>, key: SigningKey, message: bytes, sig: bytes)
    requires key in keys && Usable(key) && Verifies(lib, key, message, sig)
    ensures VerdictOf(ResolveByKid(lib, keys, message, sig, None)) == Forged
  {
    KidFirstVerdict(lib, keys, message, sig, None);
    ClaimedKeyIsAKey(lib, keys, message, sig, None);
  }

  /** They even pick one key whenever ids are distinct and files name the key that signed them. */
  lemma KidFirstAgrees(lib: Library, keys: seq<SigningKey>, message: bytes, sig: bytes, claimed: Claimed)
    requires claimed.kid.Some?
    requires DistinctKids(lib, keys) && NamesItsKey(lib, keys, message, sig, claimed.kid.value)
    ensures ResolveByKid(lib, keys, message, sig, claimed.kid) == Resolve(lib, keys, message, sig, claimed).result
  {
    FirstVerifyingExists(lib, keys, message, sig);
    var first := FirstVerifying(lib, UsableKeys(keys), message, sig);
    var found := Find(lib, keys, claimed.kid.value);
    if first.Some? {
      assert GoesBy(lib, first.value, claimed.kid.value);
      assert found.Some? && found.value == first.value;
    }
  }

  // ---------- The trace ----------

  function PublicKeys(candidates: seq<SigningKey>): (r: seq<bytes>)
    requires forall key :: key in candidates ==> Usable(key)
    ensures |r| == |candidates|
  {
    if candidates == [] then []
    else
      assert candidates == [candidates[0]] + candidates[1..];
      [KeyBytes(candidates[0])] + PublicKeys(candidates[1..])
  }

  /** The checks decode nothing. */
  lemma {:induction false} ChecksOnlyCheck(lib: Library, candidates: seq<SigningKey>, message: bytes, sig: bytes)
    requires forall key :: key in candidates ==> Usable(key)
    ensures forall e :: e in Checks(lib, candidates, message, sig) ==> e.Checked? && e.message == message
  {
    if candidates != [] {
      assert candidates == [candidates[0]] + candidates[1..];
      ChecksOnlyCheck(lib, candidates[1..], message, sig);
    }
  }

  /** When some key verifies, its acceptance is among the checks. */
  lemma {:induction false} ChecksAccept(lib: Library, candidates: seq<SigningKey>, message: bytes, sig: bytes)
    requires forall key :: key in candidates ==> Usable(key)
    requires FirstVerifying(lib, candidates, message, sig).Some?
    ensures Checked(KeyBytes(FirstVerifying(lib, candidates, message, sig).value), message, true)
            in Checks(lib, candidates, message, sig)
  {
    assert candidates == [candidates[0]] + candidates[1..];
    if !Verifies(lib, candidates[0], message, sig) {
      ChecksAccept(lib, candidates[1..], message, sig);
    }
  }

  /** When none does, every key's refusal is. */
  lemma {:induction false} ChecksRefuse(lib: Library, candidates: seq<SigningKey>, message: bytes, sig: bytes)
    requires forall key :: key in candidates ==> Usable(key)
    requires FirstVerifying(lib, candidates, message, sig).None?
    ensures forall k :: k in PublicKeys(candidates) ==>
              Checked(k, message, false) in Checks(lib, candidates, message, sig)
  {
    if candidates != [] {
      assert candidates == [candidates[0]] + candidates[1..];
      ChecksRefuse(lib, candidates[1..], message, sig);
    }
  }

  /** The claim is read only after every usable key has refused the message. */
  lemma ResolveTrace(lib: Library, keys: seq<SigningKey>, message: bytes, sig: bytes, claimed: Claimed)
    ensures
      var run := Resolve(lib, keys, message, sig, claimed);
      && AuthenticatesFirst(run, message, PublicKeys(UsableKeys(keys)))
      && (run.result.Ok? ==> AcceptedBefore(run.trace, |run.trace|, message)
                             && forall e :: e in run.trace ==> e.Checked?)
  {
    var candidates := UsableKeys(keys);
    var run := Resolve(lib, keys, message, sig, claimed);
    var checks := Checks(lib, candidates, message, sig);
    if candidates != [] {
      ChecksOnlyCheck(lib, candidates, message, sig);
      if run.result.Ok? {
        ChecksAccept(lib, candidates, message, sig);
        var j :| 0 <= j < |checks| && checks[j] == Checked(KeyBytes(run.result.value), message, true);
      } else {
        ChecksRefuse(lib, candidates, message, sig);
        forall i | 0 <= i < |run.trace| && IsDecode(run.trace[i])
          ensures RefusedBefore(run.trace, i, message, PublicKeys(candidates))
        {
          assert |checks| <= i;
          assert checks <= run.trace[..i];
        }
      }
    }
  }

  // ---------- The resolver itself ----------

  /**
   * `_resolve_signing_key`: the outcome is the classified one, a success is the earliest usable key that
   * verifies, and the claim is read only after every usable key has refused.
   */
  method ResolveSigningKey(lib: Library, keys: seq<SigningKey>, message: bytes, sig: bytes, claimed: Claimed)
    returns (run: Run<SigningKey>)
    ensures run == Resolve(lib, keys, message, sig, claimed)
    ensures Classified(lib, keys, message, sig, claimed.kid, run.result)
    ensures run.result.Ok? ==>
              exists i :: 0 <= i < |keys| && keys[i] == run.result.value
                          && forall j :: 0 <= j < i && Usable(keys[j]) ==> !Verifies(lib, keys[j], message, sig)
    ensures AuthenticatesFirst(run, message, PublicKeys(UsableKeys(keys)))
  {
    ResolveClassified(lib, keys, message, sig, claimed);
    ResolveTrace(lib, keys, message, sig, claimed);
    var candidates := UsableKeys(keys);
    if candidates == [] {
      return Run(Err(NoUsableSigningKey(Kids(keys))), []);
    }
    var found, trace := TryCandidates(lib, candidates, message, sig);
    if found.Some? {
      var _ := ResolveTakesFirst(lib, keys, message, sig);
      return Run(Ok(found.value), trace);
    }
    return Run(Err(Refusal(lib, keys, claimed.kid)), trace + claimed.trace);
  }
}
