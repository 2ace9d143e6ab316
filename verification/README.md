# A verified model of the Tamga Python SDK's core

This project models the parts of the Tamga licensing SDK whose correctness rests on more than one
function, and proves what they promise. It has four parts.

**Canonical encodings.** `Utf8`, `Ordering`, `Json`, `JsonRoundTrip`, `JsonCanonical`, `Proof` and
`Fingerprint` hold a JSON printer with sorted keys, the JSON parser that inverts it, UTF-8 with its
decoder, and sorting. The offline-proof payload and the canonical fingerprint are proved to identify
exactly the inputs that mean the same, and sorting by code point is proved to be sorting by UTF-8 bytes.

**Offline files.** `Base64`, `Envelope`, `Checkout`, `KeySet`, `LicenseFile`, `MachineFile` and `IssuedFile`
hold the certificate envelope, the signature-first key resolver, the two staged verifiers, and the way back
from an issued file to its acceptance. Signatures, key
derivation and AES-256-GCM are the uninterpreted functions of `Checkout.Library`. A verification returns
its result together with the trace of its checks, splits, decodes and decryptions, so that what happens
before authentication is a property of the trace.

**Activation.** `MachineServer` is the server: machine rows, the three uniqueness strategies, a create
ceiling, a validate ceiling. `ActivationFleet` interleaves any number of `activate_machine` calls step by
step, with requests and replies that may be lost. `Activation` runs one client's `activate_machine`,
`find_by_fingerprint` and `activate_machine_idempotent` call by call against a server that others change
in between. `ActivationTheorems` states what these promise, `ActivationProjection` that every client of a fleet
does just this, and `ActivationClient` holds the SDK's object, whose methods keep the promises.

**Bounded loops and time.** `Retry` is the rate-limit retry loop, `Paging` the keyset walk, and `Heartbeat`
the ping intervals, the server's truncating liveness rule, and the two schedulers.

`dafny verify dfyconfig.toml` checks everything.

## What the proofs found

- The module docstring of `checkout/key_set.py` says that resolving by `kid` first reaches the same verdict
  on every file. It does exactly when no held key signed the file or the held key its readable claim names
  did (`KeySet.KidFirstVerdictExactly`). Two families fail: issued files that name no held key
  (`IssuedFiles.MislabelledLicenseFile`, and a whole file in `IssuedFiles.MislabelledFileExists`), and, if
  an unreadable claim counts as a forgery there as it does here, encrypted ones read without their license
  key (`IssuedFiles.UnreadableLicenseFile`).
- One text can be a payload of both file types: exactly when the license layout accepts it and the machine
  file's `alg` does not call for the two-part layout (`MachineFiles.LayoutsOverlapExactly`). Every plain
  license payload and every encrypted one is such a text (`MachineFiles.EveryPayloadOverlaps`,
  `MachineFiles.SealedPayloadOverlaps`).
- An activation rolls back only what validation reports. A validation confirms an activation on a license over
  its limits exactly when an earlier check fails (`ActivationFleet.ConfirmsExactly`), on any server under any
  ceiling (`ActivationFleet.MaskedVerdictConfirms`); and a run that ends over the limits had its last
  confirmation masked (`ActivationFleet.ConfirmedRowsFit`).
- A negative Retry-After is passed to `sleep`, which raises, and the request ends without an answer: exactly
  when a send with a retry left is answered, after nothing but 429s, by a 429 that carries one
  (`Retry.SendLoop`, `Retry.RequestWithRetry`).
- An idempotent activation can return a machine whose creator is still rolling back, and then the machine
  goes (`ActivationProjection.AdoptedWhileRollingBack`). It stays exactly when it was there before or its
  creator keeps it (`ActivationProjection.AdoptedSurvivesExactly`).
- A page limit above 100 ends the keyset walk after one page (`Paging.WalkIsComplete`).
- Three pings fit in a window, so two may be lost from a window of 3 seconds up, and three by windows of
  4, 5 and 8 seconds (`Heartbeat.TwoLossesFromThreeSeconds`). But a ping that raises ends `run_forever`, so
  a lost ping is survived exactly when the caller gets another one through before the window and its free
  second are over (`Heartbeat.LostPing`); within two intervals is in time (`Heartbeat.RestartInTime`).

## Model

| member | source | states |
|---|---|---|
| Utf8Text.Utf8OrderIsCodePointOrder | src/tamga/fingerprint.py:261-265 | comparing UTF-8 bytes is comparing code points, for all strings |
| Utf8Text.SortByBytesIsSortByCodePoint | src/tamga/fingerprint.py:261-266 | sorting by encoded bytes and by code point give the same list |
| Utf8Text.CodePointOrderTotal | src/tamga/proof.py:93-95 | code-point order is total, and ties only equal strings, so the sort decides everything |
| Utf8Text.Utf8RoundTrip | src/tamga/proof.py:93-95 | decoding recovers every encoded string |
| Utf8Text.DecodesOnlyEncodings | src/tamga/checkout/_envelope.py:66-69 | bytes decode to a string exactly when they are its encoding |
| Utf8Text.Utf8CharExactly | src/tamga/proof.py:93-95 | the layout of section 3 of RFC 3629: lengths, lead bytes, and the code point in the free bits |
| Utf8Text.Utf8Injective | src/tamga/fingerprint.py:300 | different strings have different bytes |
| JsonRoundTrip.StringRoundTrip | src/tamga/proof.py:93 | an escaped string is read back whole, whatever follows its closing quote |
| JsonRoundTrip.EscapeCharExactly | src/tamga/proof.py:93 | the exact text of every character: seven short escapes, `\u00` and two lower-case digits for the other controls, itself otherwise |
| JsonRoundTrip.PairSpelled | src/tamga/checkout/_envelope.py:66-69 | a character escaped as a UTF-16 pair is read as that character |
| JsonRoundTrip.OneUnitReads | src/tamga/checkout/_envelope.py:66-69 | and so is one escaped by four digits |
| JsonRoundTrip.IntRoundTrip | src/tamga/proof.py:93 | a printed integer is read back, sign included, up to the first character that cannot extend it |
| JsonRoundTrip.FloatReads | src/tamga/checkout/_envelope.py:66-69 | a number with a fraction or an exponent is read as one float, up to the first character that cannot extend it |
| JsonRoundTrip.ValueRoundTrip | src/tamga/proof.py:93 | every printed value is read back as its meaning, leaving what follows it |
| JsonRoundTrip.SpreadRoundTrip | src/tamga/checkout/_envelope.py:66-69 | the same with any whitespace between all tokens |
| JsonRoundTrip.LoadsInvertsSpread | src/tamga/checkout/_envelope.py:66-69 | `json.loads` of text with whitespace between and around its tokens is the value's meaning |
| JsonRoundTrip.LoadsInvertsPrint | src/tamga/checkout/_envelope.py:66-69 | `json.loads` of printed text and of its bytes is the value's meaning |
| JsonRoundTrip.SortKeysKeepsMeaning | src/tamga/proof.py:93 | sorting the keys at every depth changes no meaning |
| JsonCanonical.SameMeaningSameSort | src/tamga/proof.py:93 | values equal up to key order sort to one arrangement, at every depth |
| JsonCanonical.LoadsInvertsDumps | src/tamga/proof.py:93-95 | parsing the sorted text gives the value back |
| JsonCanonical.DumpsCanonical | src/tamga/proof.py:93-95 | sorted text has equal bytes exactly for values equal up to key order |
| JsonCanonical.DumpsMatchesByteOrderedMap | src/tamga/proof.py:57-66 | Python's sorted keys and a byte-ordered map print the same document at every depth |
| OfflineProof.UuidTextExactly | src/tamga/proof.py:88-92 | the text of an id is the one text in groups of 8, 4, 4, 4 and 12 lower-case digits that reads back as the id |
| OfflineProof.UuidTextInjective | src/tamga/proof.py:88-92 | the text of an id determines it |
| OfflineProof.PayloadCanonical | src/tamga/proof.py:49-95 | payload bytes are equal exactly when ids, fingerprint and dataset are, key order ignored |
| OfflineProof.PayloadMatchesServer | src/tamga/proof.py:57-66 | a server whose maps are ordered by bytes and that writes ids and strings alike signs the same payload |
| OfflineProof.PayloadLayout | src/tamga/proof.py:88-95 | the order: account, then dataset, then machine with its fingerprint before its id |
| OfflineProof.PayloadExactly | src/tamga/proof.py:88-95 | the exact bytes: every key, quote and brace, around the texts of the two ids, the quoted fingerprint and the sorted dataset |
| OfflineProof.ProofRoundTrip | src/tamga/proof.py:119-161 | parsing a published proof gives back exactly its signature |
| OfflineProof.ParseProofExactly | src/tamga/proof.py:145-161 | any string: refused without the prefix or without base64 after it, otherwise its signature with the caller's inputs |
| OfflineProof.VerifyExactly | src/tamga/proof.py:163-179 | verification checks the signature over the exact payload text of the proof's own account, machine, fingerprint and dataset |
| OfflineProof.ProofBindsItsInputs | src/tamga/proof.py:163-179 | where a signature holds for one message, a proof verifies for the inputs it was issued for and no others |
| Fingerprint.LabelError | src/tamga/fingerprint.py:156-182 | a label passes exactly when it is non-empty printable ASCII without `=` |
| Fingerprint.ComponentErrorExactly | src/tamga/fingerprint.py:242-258 | which of the five faults a component has, in the order of the checks |
| Fingerprint.ValueAcceptedExactly | src/tamga/fingerprint.py:185-213 | a value passes exactly when it is a core free of control characters with only ASCII whitespace around it |
| Fingerprint.CanonicalForm | src/tamga/fingerprint.py:216-267 | accepts exactly the valid lists, returns their canonical string, and otherwise reports the first fault |
| Fingerprint.CanonicalExactly | src/tamga/fingerprint.py:261-267 | the exact text: the domain, then every `label=value` behind 0x1f, ascending |
| Fingerprint.RecoverInvertsCanonical | src/tamga/fingerprint.py:265-267 | splitting at 0x1f and then at the first `=` recovers the label-to-trimmed-value map |
| Fingerprint.CanonicalInjective | src/tamga/fingerprint.py:216-267 | two accepted lists have one canonical string exactly when they define one map |
| Fingerprint.AcceptedUnordered | src/tamga/fingerprint.py:242-258 | a list is valid when each component is, no label repeats and there is at least one |
| Fingerprint.OrderIrrelevant | src/tamga/fingerprint.py:242-267 | rearranging the components changes neither acceptance nor the string |
| Fingerprint.PaddingIgnored | src/tamga/fingerprint.py:202-204 | ASCII whitespace around a value is not part of it |
| Fingerprint.ControlNeverTrimmedAway | src/tamga/fingerprint.py:185-213 | any other control character is refused wherever it stands |
| Fingerprint.FingerprintIdentifies | src/tamga/fingerprint.py:270-300 | without a digest collision, fingerprints are equal exactly for equal maps |
| Fingerprint.CanonicalByCodePoint | src/tamga/fingerprint.py:261-266 | sorting by code point instead of by bytes gives the same canonical string |
| Base64.RoundTrip | src/tamga/proof.py:148-152 | validating decode recovers every byte string from its encoding |
| Base64.StrictRoundTrip | src/tamga/checkout/_envelope.py:111-115 | so does the tolerant decode with any number of its padding characters missing |
| Base64.AlphabetExactly | src/tamga/checkout/_envelope.py:111 | the 64 digits, each with its value |
| Base64.QuadIsBigEndian | src/tamga/checkout/_envelope.py:111 | a group is the bits of its bytes, most significant first, with `=` for each missing byte |
| Base64.DecodesExactly | src/tamga/checkout/_envelope.py:90-93 | what the validating decoder accepts: digits in whole groups, the last ending in at most two `=` |
| Base64.DecodeQuadExactly | src/tamga/checkout/_envelope.py:90-93 | what every accepted group decodes to |
| Base64.PaddingExactly | src/tamga/checkout/_envelope.py:111-115 | the tolerant decoder puts back exactly the `=` that whole groups miss |
| Base64.DecodedAlphabet | src/tamga/checkout/_envelope.py:90-93 | what decodes has no character outside the alphabet and the padding |
| Base64.StrictAlphabet | src/tamga/checkout/_envelope.py:90-93 | the same for the tolerant decode: a dot or a space is an error |
| Base64.EncodingShape | src/tamga/checkout/_envelope.py:111 | an encoding is alphabet digits and then exactly the padding that restores whole groups |
| Envelope.EnvelopeRoundTrip | src/tamga/checkout/_envelope.py:40-84 | a printed certificate parses to its three fields, whatever whitespace surrounds it or its body, exactly when it fits the cap |
| Envelope.EnvelopeExactly | src/tamga/checkout/_envelope.py:60-84 | the outcome for any document inside the markers: its three fields, or which of them is missing or of the wrong kind |
| Envelope.BodyErrors | src/tamga/checkout/_envelope.py:60-69 | any other body: no base64, or base64 of no JSON |
| Envelope.MarkersExactly | src/tamga/checkout/_envelope.py:40-58 | exactly which texts are too large, lack a marker, or have markers that overlap |
| Envelope.AcceptedShape | src/tamga/checkout/_envelope.py:40-59 | an accepted text is header, body, footer, none overlapping |
| Envelope.OverlapIsRefused | src/tamga/checkout/_envelope.py:48-58 | a text whose markers share characters passes both marker tests and is refused |
| Envelope.RealMarkersOverlap | src/tamga/checkout/license_file.py:57-58 | the real markers do share characters |
| KeySet.Find | src/tamga/checkout/key_set.py:333-350 | finds a key that goes by the id, published or computed, whenever there is one |
| KeySet.FindTakesFirst | src/tamga/checkout/key_set.py:333-350 | the earliest key whose published or computed id this is |
| KeySet.UsableKeys | src/tamga/checkout/key_set.py:308-318 | exactly the Ed25519 keys whose bytes decode to 32 |
| KeySet.UsableExactly | src/tamga/checkout/key_set.py:308-318 | usable means `ed25519` in any case and base64 of exactly 32 bytes |
| KeySet.FromPublicKeys | src/tamga/checkout/key_set.py:261-295 | builds one usable key per input under its computed id, or names the first input that is not a key |
| KeySet.TryCandidates | src/tamga/checkout/key_set.py:413-420 | the first verifying candidate, after exactly the checks up to it |
| KeySet.ResolveSigningKey | src/tamga/checkout/key_set.py:375-437 | the resolver: the classified outcome, the earliest verifying key, and no look at the claim before every usable key refused |
| KeySet.ResolveClassified | src/tamga/checkout/key_set.py:409-437 | exactly when each of the five outcomes occurs, in terms of the set of keys alone, and the ids each error lists |
| KeySet.ResolveTakesFirst | src/tamga/checkout/key_set.py:413-420 | a success is the earliest usable key that verifies |
| KeySet.VerdictUnordered | src/tamga/checkout/key_set.py:409-437 | order and repetition of the keys do not matter |
| KeySet.VerdictMonotone | src/tamga/checkout/key_set.py:409-437 | more keys never lose a success nor turn a forgery into an unknown key |
| KeySet.KidFirstAgrees | src/tamga/checkout/key_set.py:49-51 | the two orders even pick one key, for distinct ids and files that name their signer |
| KeySet.KidFirstVerdictExactly | src/tamga/checkout/key_set.py:49-51 | the two orders reach one verdict exactly when no held key signed or the held key the claim names did, unreadable claims included |
| IssuedFiles.MislabelledLicenseFile | src/tamga/checkout/key_set.py:49-51 | any issued file signed by a held key whose claim names none: accepted by the set, an unknown key to the kid-first order |
| IssuedFiles.UnreadableLicenseFile | src/tamga/checkout/key_set.py:425-429 | any encrypted file read without its license key: a missing secret to the set, and a forgery to a kid-first order that answers an unreadable claim as this code does |
| IssuedFiles.MislabelledFileExists | src/tamga/checkout/key_set.py:49-51 | a whole license file on which the two orders part |
| KeySet.ResolveTrace | src/tamga/checkout/key_set.py:409-425 | the claim is read only after every usable key has refused |
| LicenseFiles.ParseExactly | src/tamga/checkout/license_file.py:167-192 | exactly the envelopes under one of two algorithms, letter by letter, with their three fields |
| LicenseFiles.PlainPayloadRoundTrip | src/tamga/checkout/license_file.py:381-421 | a plain payload decodes to its bytes, padding or not |
| LicenseFiles.EncryptedPayloadRoundTrip | src/tamga/checkout/license_file.py:381-421 | nonce and ciphertext are recovered from the single blob |
| LicenseFiles.EncryptedPayloadExactly | src/tamga/checkout/license_file.py:381-421 | any encrypted payload: no license key, under 28 bytes, not opened, or what its bytes after the first 12 open to |
| LicenseFiles.KeySetFollowsSigner | src/tamga/checkout/license_file.py:329-379 | with a signer in the set, the set gives the resource, claims or error that any signer gives |
| LicenseFiles.KeySetRefinesOneKey | src/tamga/checkout/license_file.py:261-336 | the set accepts a resource and claims exactly when some usable key of it does |
| LicenseFiles.NoSignerNoResource | src/tamga/checkout/license_file.py:326-336 | without a signer the outcome is the resolver's error |
| LicenseFiles.MoreKeysStillAccept | src/tamga/checkout/license_file.py:326-336 | more keys accept the same resource and claims |
| LicenseFiles.VerifyAuthenticatesFirst | src/tamga/checkout/license_file.py:338-379 | with one key, nothing is decoded before the check of those bytes passed |
| LicenseFiles.KeySetAuthenticatesFirst | src/tamga/checkout/license_file.py:326-336 | with a set, only after a passed check, or after every key refused in a run that fails |
| LicenseFiles.KeySetTrace | src/tamga/checkout/license_file.py:326-336 | the trace of a set leaves nothing out: all of its checks, then all that its key, or reading the claim, does |
| LicenseFiles.ResourceIsAuthenticated | src/tamga/checkout/license_file.py:326-379 | a returned resource comes from a payload that the returned key signed |
| LicenseFiles.LaterOnlyExpires | src/tamga/checkout/license_file.py:580-602 | the reference time decides nothing but whether a file has expired |
| LicenseFiles.ExpiryEnforced | src/tamga/checkout/license_file.py:580-602 | accepted means at most 60 seconds past the signed expiry, expired means further past it |
| LicenseFiles.UnverifiedKidIsTheSignedOne | src/tamga/checkout/license_file.py:423-447 | the id read without a signature is the one the verified claims carry |
| MachineFiles.ValidateAlgExact | src/tamga/checkout/machine_file.py:183-217 | exactly the eight `prefix+suffix+v2` strings pass, each split where it was joined |
| MachineFiles.ValidAlgsExactly | src/tamga/checkout/machine_file.py:132-141 | the valid texts, letter by letter: two for each scheme that signs machine files, and which of the two is encrypted |
| MachineFiles.ParseExactly | src/tamga/checkout/machine_file.py:258-282 | exactly the envelopes whose `alg` names a scheme, with their three fields |
| MachineFiles.EncryptedPayloadExactly | src/tamga/checkout/machine_file.py:615-648 | any printed pair: a secret missing, a nonce that is not 12 bytes, under 16 bytes of ciphertext, not opened, or what it opens to |
| MachineFiles.LayoutsSeparate | src/tamga/checkout/machine_file.py:629-648 | no payload is accepted by the license layout and by the two-part layout |
| MachineFiles.PlainLayoutsCoincide | src/tamga/checkout/machine_file.py:572-589 | plain payloads of the two file types decode alike |
| MachineFiles.LayoutsOverlapExactly | src/tamga/checkout/machine_file.py:572-589 | a text is accepted as a payload of both file types exactly when the license layout accepts it and the machine `alg` is not the encrypted one |
| MachineFiles.EveryPayloadOverlaps | src/tamga/checkout/machine_file.py:572-589 | every plain payload is one that both accept |
| MachineFiles.SealedPayloadOverlaps | src/tamga/checkout/machine_file.py:572-589 | so is every encrypted license payload, read by the plain machine layout |
| MachineFiles.TouchedExactly | src/tamga/checkout/machine_file.py:458-497 | a file is checked exactly when it is ASCII and its `alg` is one of the two texts of the caller's scheme; otherwise which error it is refused with |
| MachineFiles.SetTouchesOnlyEd25519 | src/tamga/checkout/machine_file.py:434-450 | a set checks a file exactly when the scheme is Ed25519, the file is ASCII and a key is usable |
| MachineFiles.SchemeAgrees | src/tamga/checkout/machine_file.py:476-497 | accepted only under a scheme whose text the file carries, with that scheme's verifier |
| MachineFiles.KeySetFollowsSigner | src/tamga/checkout/machine_file.py:437-570 | with a signer in the set, the set gives the resource, claims or error that any signer gives |
| MachineFiles.AcceptedUnderItsKey | src/tamga/checkout/machine_file.py:437-456 | what the set accepts, the named key accepts alone |
| MachineFiles.KeySetRefinesOneKey | src/tamga/checkout/machine_file.py:437-570 | the set accepts a resource and claims exactly when some usable key of it does |
| MachineFiles.NoSignerNoResource | src/tamga/checkout/machine_file.py:437-456 | without a signer the outcome is the resolver's error |
| MachineFiles.VerifyAuthenticatesFirst | src/tamga/checkout/machine_file.py:491-499 | with one key, nothing is split, decoded or decrypted before the check of those bytes passed |
| MachineFiles.KeySetAuthenticatesFirst | src/tamga/checkout/machine_file.py:437-456 | with a set, only after a passed check, or after every key refused in a run that fails |
| MachineFiles.KeySetTrace | src/tamga/checkout/machine_file.py:437-456 | the trace of a set leaves nothing out |
| MachineFiles.ResourceIsAuthenticated | src/tamga/checkout/machine_file.py:437-570 | a returned resource comes from a payload that a usable key of the set signed |
| MachineFiles.HeartbeatExactly | src/tamga/checkout/machine_file.py:540-552 | the three texts that are a status, and everything else is `NOT_STARTED` |
| MachineFiles.LaterOnlyExpires | src/tamga/checkout/machine_file.py:499-570 | the reference time decides nothing but whether a file has expired |
| MachineFiles.ExpiryEnforced | src/tamga/checkout/machine_file.py:499-570 | accepted means at most 60 seconds past the signed expiry, expired means further past it |
| MachineFiles.UnverifiedKidIsTheSignedOne | src/tamga/checkout/machine_file.py:591-613 | the id read without a signature is the one the verified claims carry |
| IssuedFiles.PayloadRoundTrip | src/tamga/checkout/license_file.py:535-577 | reading a signed payload gives back its data and exactly its claims, a missing expiry left out or null |
| IssuedFiles.ClaimsExactly | src/tamga/checkout/license_file.py:535-577 | a payload is read as exactly the claims it prints |
| IssuedFiles.LicensePayloadExactly | src/tamga/checkout/license_file.py:360-379 | any bytes behind a signature: no JSON, no data, no claims, expired, no license, or its claims and its id, type, attributes and relationships as printed |
| IssuedFiles.MachinePayloadExactly | src/tamga/checkout/machine_file.py:505-570 | the same for a machine file, whose resource is its id, attributes and status |
| IssuedFiles.IssuedLicenseFile | src/tamga/checkout/license_file.py:167-192 | a license file, plain or encrypted, issued for any data, signed and laid out with any whitespace: parsed and verified with a set that holds its key it gives its claims and each printed part in its own field, or its expiry; a plain one without any license key |
| IssuedFiles.IssuedMachineFile | src/tamga/checkout/machine_file.py:258-282 | the same for a machine file under every scheme that signs machine files, its `alg` as it stands on the wire, with the key that signed it |
| IssuedFiles.IssuedMachineFileInSet | src/tamga/checkout/machine_file.py:437-456 | the same with a set that holds its Ed25519 key |
| MachineServer.CreateKeepsWellFormed | src/tamga/models/policy.py:106-123 | under every uniqueness strategy no license comes to hold one fingerprint twice |
| MachineServer.DeleteUndoesCreate | src/tamga/client.py:1518-1519 | deleting the created row restores the rows exactly |
| MachineServer.TotalsExactly | src/tamga/client.py:193-202 | a license's totals count its rows and sum their cores, memory and disk |
| MachineServer.CreateExactly | src/tamga/client.py:193-208 | exactly when a create conflicts, is refused and for which limit, or adds its row last under the next id |
| MachineServer.VerdictExactly | src/tamga/models/validation.py:24-31 | which code a validation answers: the first of its checks that fails |
| ActivationFleet.StepKeepsInvariant | src/tamga/client.py:1484-1533 | every step of every client keeps: first rows in place, each added row held by exactly one call |
| ActivationFleet.RowsPartition | src/tamga/client.py:1484-1533 | in every run the rows are the first, confirmed, pending and orphaned ones, without overlap |
| ActivationFleet.ConfirmsExactly | src/tamga/client.py:1508-1518 | a validation confirms exactly when an earlier check fails or nothing is over a limit, so confirming over a limit is having it masked |
| ActivationFleet.ConfirmedRowsFit | src/tamga/client.py:1508-1533 | whatever is lost: a run that ends with the first and confirmed rows over a limit had its last confirmation masked |
| ActivationFleet.OrphansAreStranded | src/tamga/client.py:1508-1519 | a run orphans a row exactly when a validation, the request of a delete, or the reply of a create is lost |
| ActivationFleet.QuiescentFleet | src/tamga/client.py:1484-1533 | a finished run that stranded no row leaves the rows as they began if it confirmed nothing, and otherwise all four totals fit unless the last confirmation was masked |
| ActivationFleet.MaskedVerdictConfirms | src/tamga/models/validation.py:24-31 | on any server under any ceiling that lets the create through, exactly which activations are confirmed, and which of them over the limits |
| ActivationFleet.ThreeStepsEndEveryCall | src/tamga/client.py:1484-1533 | whatever is lost, three steps of each client end every call |
| ActivationClient.MachinesClient.ActivateMachine | src/tamga/client.py:1484-1533 | ends as the reply to its create decides, each limit under its own code; returns a new machine of the caller, deletes at most the row it created, and reports a rollback exactly when it sent a DELETE |
| ActivationClient.MachinesClient.Find | src/tamga/client.py:1594-1612 | the page loop finds what the paged specification finds, with the same requests, at most `max_pages` |
| ActivationClient.MachinesClient.LookAtPage | src/tamga/client.py:1601-1611 | one turn: exact match, last page, or go on |
| ActivationClient.MachinesClient.ActivateMachineIdempotent | src/tamga/client.py:1689-1708 | deletes no row older than the call, and with a truthful list returns only the machine of this license with this fingerprint |
| ActivationClient.MachinesClient.ResolveTakenFingerprint | src/tamga/client.py:1710-1740 | only reads, stops at the page ceiling, and finds only exact matches |
| ActivationTheorems.RepliesDecide | src/tamga/client.py:1484-1533 | the outcome for every combination of replies to the create, the validation and the delete |
| ActivationTheorems.RollbackOwnership | src/tamga/client.py:1484-1533 | a DELETE follows only this call's own create, for its id, once; a refused create ends the call under the code of its limit with nothing rolled back |
| ActivationTheorems.Conservation | src/tamga/client.py:1484-1533 | alone, a refusal or rollback leaves the rows as they were and a return adds exactly its row |
| ActivationTheorems.Footprint | src/tamga/client.py:1484-1533 | under any interference: a return adds exactly one row under a new id, a refusal nothing, a rollback leaves none of it and takes no other |
| ActivationTheorems.FindIsBounded | src/tamga/client.py:1600-1612 | against any server, list pages 1, 2, ... and at most `max_pages` of them, and only an exact match |
| ActivationTheorems.JudgeExactly | src/tamga/client.py:1601-1611 | what one page decides: a failed request raises, the first exact match is found, an empty or last page ends the search |
| ActivationTheorems.BlankExactly | src/tamga/client.py:1594-1599 | a fingerprint of whitespace alone is refused before anything is sent, and no other is |
| ActivationTheorems.SearchStaysOnLicense | src/tamga/client.py:1601-1609 | against an honest list under any changes, only this license's machine |
| ActivationTheorems.FindIsComplete | src/tamga/client.py:1594-1612 | undisturbed, `None` exactly when no listed row in the first `max_pages` pages matches |
| ActivationTheorems.ReturnedMachineIsOwn | src/tamga/client.py:1689-1740 | under every strategy and any interference, a returned machine is on the license with the fingerprint |
| ActivationTheorems.RecoveryExactly | src/tamga/client.py:1731-1740 | a named machine is asked for once: a failed request raises, an exact match is returned, and otherwise the search decides |
| ActivationTheorems.RecoveryOnlyReads | src/tamga/client.py:1710-1740 | recovering from a conflict writes nothing, stops at the page ceiling, and finds only exact matches |
| ActivationTheorems.OldRowsNeverDeleted | src/tamga/client.py:1689-1740 | no row older than the call is deleted by it |
| ActivationTheorems.Reactivation | src/tamga/client.py:1689-1740 | activating a held machine again changes nothing, and returns it exactly when the conflict names it or the search reaches it |
| ActivationTheorems.RecoveredMachineIsThere | src/tamga/client.py:1731-1740 | a machine adopted from a conflict is still on the server when the call returns |
| ActivationTheorems.SecondCallIsIdempotent | src/tamga/client.py:1689-1740 | after any first call that left its machine there, an undisturbed second one returns it and changes nothing |
| ActivationProjection.FleetRefinesActivate | src/tamga/client.py:1484-1533 | in any run of any fleet, faults included, each client reports what the method returns among the other clients' steps, every cause of refusal apart |
| ActivationProjection.SoloRunMatchesActivate | src/tamga/client.py:1484-1533 | alone, faults included, three steps are the whole call, on the same server |
| ActivationProjection.AdoptedSurvivesExactly | src/tamga/client.py:1710-1740 | a machine adopted during a run is there in the end exactly when it was there before or its creator keeps it |
| ActivationProjection.AdoptedWhileRollingBack | src/tamga/client.py:1710-1740 | a machine adopted while its creator rolls back is returned, and gone with the creator's next step unless that delete is lost |
| Retry.RetryableExactly | src/tamga/client.py:769-803 | reads and the seven posted actions on any resource may be repeated, and nothing else |
| Retry.OnlyActionsAreRetried | src/tamga/client.py:786-803 | a request that is no read and whose path does not end in the name of an action is never repeated, creates among them |
| Retry.DelayBounds | src/tamga/client.py:806-818 | a Retry-After is honoured up to 60 seconds, and only a negative one makes a delay negative; without one the delay is 1, 2, 4, 8, 16 or 32 seconds plus the jitter |
| Retry.BackoffTotal | src/tamga/client.py:806-818 | without Retry-After the delays add up to the doubling series and under a second of jitter each |
| Retry.SendLoop | src/tamga/client.py:836-849 | the loop: every send, the answer, every sleep, exactly when a sleep is refused, and at most 60 seconds per retry in total |
| Retry.RequestWithRetry | src/tamga/client.py:821-849 | the same for a request: `max_retries` + 1 sends at most, one send for what is not retryable, the first non-429 or the last 429, and exactly when a sleep is refused |
| Paging.PageFaithful | src/tamga/client.py:2328-2347 | a page is sorted, lies past the cursor, and its next cursor is its last row |
| Paging.PageComplete | src/tamga/client.py:2328-2347 | within the server's limit, whatever a page leaves out lies past its next cursor |
| Paging.WalkUnderChange | src/tamga/client.py:2100-2111 | under any insertions and deletions a walk never repeats or goes back, and misses no row that was there throughout |
| Paging.WalkIsComplete | src/tamga/client.py:2328-2347 | over unchanging rows and for every limit: the exact number of requests, and completeness exactly when limit or list is at most 100 |
| Heartbeat.ClampBoundsTheRate | src/tamga/client.py:2832-2834 | nothing or less gives the default, a positive request under a second gives one second, every other request stands, and no policy's interval is changed |
| Heartbeat.PolicyInterval | src/tamga/client.py:643-644 | the interval of every policy, exactly |
| Heartbeat.BothPathsAgree | src/tamga/client.py:2799-2808 | a scheduler built by hand from a duration that is not positive runs at the policy's own interval |
| Heartbeat.WindowHasAFreeSecond | src/tamga/client.py:163-171 | truncating to whole seconds keeps a machine alive for strictly less than window plus one |
| Heartbeat.RunStaysAlive | src/tamga/client.py:123-137 | every run whose losses and gaps are small enough is alive at every instant |
| Heartbeat.ToleranceExact | src/tamga/client.py:123-137 | exactly how many consecutive losses any interval survives under any window |
| Heartbeat.PolicyTolerance | src/tamga/client.py:643-644 | the same for every policy, at the interval derived from it |
| Heartbeat.TwoLossesFromThreeSeconds | src/tamga/client.py:125-137 | two losses are tolerated from three seconds up, and which windows tolerate a third |
| Heartbeat.ShortWindows | src/tamga/client.py:129-135 | a window of 2 tolerates one loss, of 1 none, of 0 or less is not held |
| Heartbeat.UnholdableWindows | src/tamga/client.py:173-178 | no accepted interval holds a zero window and none at all a negative one |
| Heartbeat.TwoLossesWithLatency | src/tamga/client.py:125-137 | two losses are still tolerated when turns overrun by less than a third of a second |
| Heartbeat.HeartbeatScheduler.constructor | src/tamga/client.py:2878-2919 | 200 seconds unless the request is positive, one second for a request under a second, the request otherwise |
| Heartbeat.ProcessHeartbeatScheduler.constructor | src/tamga/client.py:3030-3047 | the same with 10 seconds |
| Heartbeat.HeartbeatScheduler.ForPolicy | src/tamga/client.py:2922-2960 | the scheduler runs at exactly the policy's interval |
| Heartbeat.HeartbeatScheduler.RunForever | src/tamga/client.py:2962-2993 | how many pings go out, when each does, and how the loop ends |
| Heartbeat.LoopEndsOnlyFor | src/tamga/client.py:2969-2971 | the loop ends only on a stop request, a failed ping, or cancellation |
| Heartbeat.StatusNeverMatters | src/tamga/client.py:2969-2984 | no status in an answer changes how many pings go out, when, or how the loop ends |
| Heartbeat.BreakingIsHarmlessExactly | src/tamga/client.py:2973-2984 | ending the loop on a status would be harmless exactly when no turn it goes on after reports one |
| Heartbeat.FirstFailureIsTerminal | src/tamga/client.py:2991-2993 | the first ping that raises is the last one sent |
| Heartbeat.RunningLoopHolds | src/tamga/client.py:2966-2993 | any loop holds any window between any two pings it sends when an interval and two turns fit in it |
| Heartbeat.LostPing | src/tamga/client.py:2984-2993 | a lost ping ends the loop, and the window holds until the next landing exactly when that comes before the window and its free second are over |
| Heartbeat.RestartInTime | src/tamga/client.py:123-137 | from three seconds up, a ping landing within two intervals of a lost one is in time |
| Heartbeat.SilenceIsFatal | src/tamga/client.py:2984-2993 | without another ping every window is lost in the end |
| Heartbeat.ScheduledLoopHolds | src/tamga/client.py:2922-2993 | a loop sized from its policy holds the policy's window between any two pings it sends, for turns short enough |
| Heartbeat.ProcessHeartbeatScheduler.Dispose | src/tamga/client.py:3057-3079 | afterwards the loop is stopped and the row gone, or the error of a delete that failed otherwise is raised |

## Left out

- OfflineProof.PayloadCanonical: strings are Unicode scalar values and datasets have no floats, NaN or non-string keys, whose text is a library detail.
- OfflineProof.PayloadMatchesServer: the server is taken to print strings, numbers and ids as here; what it may do otherwise is keep its maps in byte order.
- JsonRoundTrip.LoadsInvertsPrint: the parser refuses an unpaired surrogate escape, which Python keeps, and does not model Python's limits on digits and nesting or its detection of UTF-16 and UTF-32.
- Base64.DecodesExactly: surplus padding after whole groups is refused, as section 4 of RFC 4648 has it; Python releases differ there.
- KeySet.UsableKeys: `algorithm` is lowered as ASCII.
- KeySet.ResolveByKid: the kid-first order is not this repository's; that it answers an unreadable claim as a forgery, and a missing key as this resolver does, is the model's choice.
- LicenseFiles.KeySetRefinesOneKey: signature checks, key derivation, AES-256-GCM, and `int()` and `str()` of parsed claims are uninterpreted functions; the license resource keeps its id, type, attributes and relationships, not the field mapping behind them.
- MachineFiles.KeySetRefinesOneKey: the same, and the machine resource keeps its id, attributes and heartbeat status.
- IssuedFiles.IssuedLicenseFile: assumes that `int()` and `str()` keep integers and strings, and that opening the ciphertext gives the payload.
- IssuedFiles.IssuedMachineFile: the same.
- Fingerprint.CanonicalForm: takes the list of pairs; the dynamic type checks that turn mappings and iterables into pairs are not modelled.
- Fingerprint.FingerprintIdentifies: SHA-256 is an uninterpreted function, with the collision hypothesis spelled out.
- ActivationFleet.QuiescentFleet: assumes that no lost call strands a row, since nobody rolls such a row back.
- ActivationClient.MachinesClient.Find: `max_pages` is not negative; a negative one asks for no page, like zero.
- ActivationTheorems.ReturnedMachineIsOwn: a row carries its license in the model, while the SDK's machine resource does not show it.
- ActivationTheorems.SecondCallIsIdempotent: assumes that the list route is truthful and that its free-text search lists every row with exactly the term as its fingerprint.
- Retry.RetryableExactly: HTTP methods are upper-cased as ASCII.
- Retry.RequestWithRetry: reading the Retry-After header is not modelled; its value, or its absence, is part of the response.
- Paging.WalkIsComplete: ids are numbers in the server's listing order.
- Heartbeat.HeartbeatScheduler.RunForever: the caller's runtime cancels the loop between turns; instants are real numbers, without the rounding of floats; `ProcessHeartbeatScheduler.run_forever` is the same loop and is not repeated.
- HTTP requests, headers, authentication, base URLs, timeouts and health.
- Mapping of responses to resources, wire casing, timestamps, and the dispatch of error classes.
- Entitlements and their cache, artifacts, releases, products, accounts, and deprecation shims.
- The advisory `is_expired` check and the reporting helpers of the key set.
