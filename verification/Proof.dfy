/** The offline machine proof: the exact signed bytes, and the proof string. */
module OfflineProof {
  import opened Common
  import opened Ordering
  import opened Utf8Text
  import opened JsonText
  import opened JsonRoundTrip
  import opened JsonCanonical
  import Base64

  const PROOF_VERSION_PREFIX: string := "v1x0."

  function Pow16(n: nat): (r: int)
    ensures r > 0
  {
    if n == 0 then 1 else 16 * Pow16(n - 1)
  }

  /** A UUID is its 128-bit integer. */
  type Uuid = n: int | 0 <= n < Pow16(32)

  /** `n` in exactly `width` lower-case hexadecimal digits. */
  function Hex(n: nat, width: nat): (r: string)
    ensures |r| == width
  {
    if width == 0 then "" else Hex(n / 16, width - 1) + [HexDigit(n % 16)]
  }

  function Dashed(h: string): (t: string)
    requires |h| == 32
    ensures |t| == 36
  {
    h[..8] + "-" + h[8..12] + "-" + h[12..16] + "-" + h[16..20] + "-" + h[20..]
  }

  /** `str(uuid)`: 8-4-4-4-12. */
  function UuidText(u: Uuid): string {
    Dashed(Hex(u, 32))
  }

  /** The document behind the payload, in the order the source writes it. */
  function PayloadDocument(account: Uuid, machine: Uuid, fingerprint: string, dataset: Json): Json {
    Obj([
      Member("account", Obj([Member("id", Str(UuidText(account)))])),
      Member("machine", Obj([Member("id", Str(UuidText(machine))), Member("fingerprint", Str(fingerprint))])),
      Member("dataset", dataset)
    ])
  }

  /** `build_proof_payload`: the bytes that are signed. */
  function BuildProofPayload(account: Uuid, machine: Uuid, fingerprint: string, dataset: Json): bytes {
    Utf8(Dumps(PayloadDocument(account, machine, fingerprint, dataset)))
  }

  // ---------- UUID text digit by digit ----------

  /** 36 characters: dashes at 8, 13, 18 and 23, lower-case hexadecimal digits everywhere else. */
  predicate IsUuidText(t: string) {
    && |t| == 36 && t[8] == '-' && t[13] == '-' && t[18] == '-' && t[23] == '-'
    && forall i :: 0 <= i < 36 && i != 8 && i != 13 && i != 18 && i != 23 ==> IsLowerHex(t[i])
  }

  function WithoutDashes(t: string): (r: string)
    requires |t| == 36
    ensures |r| == 32
  {
    t[..8] + t[9..13] + t[14..18] + t[19..23] + t[24..]
  }

  lemma {:induction false} HexReads(n: nat, width: nat)
    requires n < Pow16(width)
    ensures HexRead(Hex(n, width)) == n
    ensures forall i :: 0 <= i < width ==> IsLowerHex(Hex(n, width)[i])
  {
    if width > 0 {
      HexReads(n / 16, width - 1);
      HexDigitIsLower(n % 16);
      var h := Hex(n, width);
      assert h[..width - 1] == Hex(n / 16, width - 1) && h[width - 1] == HexDigit(n % 16);
    }
  }

  lemma {:induction false} HexReadInjective(s: string, t: string)
    requires |s| == |t| && HexRead(s) == HexRead(t)
    requires forall i :: 0 <= i < |s| ==> IsLowerHex(s[i]) && IsLowerHex(t[i])
    ensures s == t
  {
    if s != "" {
      var n := |s| - 1;
      assert IsLowerHex(s[n]) && IsLowerHex(t[n]);
      HexReadInjective(s[..n], t[..n]);
      assert s == s[..n] + [s[n]] && t == t[..n] + [t[n]];
    }
  }

  lemma DashedBack(h: string)
    requires |h| == 32
    ensures WithoutDashes(Dashed(h)) == h
  {
    var t := Dashed(h);
    assert t[..8] == h[..8] && t[9..13] == h[8..12] && t[14..18] == h[12..16] && t[19..23] == h[16..20];
    assert t[24..] == h[20..];
  }

  lemma DashedShape(h: string)
    requires |h| == 32 && forall i :: 0 <= i < 32 ==> IsLowerHex(h[i])
    ensures IsUuidText(Dashed(h))
  {
  }

  lemma SameWithDashes(s: string, t: string)
    requires IsUuidText(s) && IsUuidText(t) && WithoutDashes(s) == WithoutDashes(t)
    ensures s == t
  {
    var a, b := WithoutDashes(s), WithoutDashes(t);
    assert s[..8] == a[..8] && t[..8] == b[..8];
    assert s[9..13] == a[8..12] && t[9..13] == b[8..12];
    assert s[14..18] == a[12..16] && t[14..18] == b[12..16];
    assert s[19..23] == a[16..20] && t[19..23] == b[16..20];
    assert s[24..] == a[20..] && t[24..] == b[20..];
    assert s == s[..8] + ['-'] + s[9..13] + ['-'] + s[14..18] + ['-'] + s[19..23] + ['-'] + s[24..];
    assert t == t[..8] + ['-'] + t[9..13] + ['-'] + t[14..18] + ['-'] + t[19..23] + ['-'] + t[24..];
  }

  lemma DigitsAreHex(t: string)
    requires IsUuidText(t)
    ensures forall i :: 0 <= i < 32 ==> IsLowerHex(WithoutDashes(t)[i])
  {
  }

  /**
   * The text of an id is the one text in groups of 8, 4, 4, 4 and 12 lower-case hexadecimal digits whose
   * digits, most significant first, are the id.
   */
  lemma UuidTextExactly(u: Uuid, t: string)
    ensures t == UuidText(u) <==> IsUuidText(t) && HexRead(WithoutDashes(t)) == u
  {
    HexReads(u, 32);
    DashedBack(Hex(u, 32));
    DashedShape(Hex(u, 32));
    if IsUuidText(t) && HexRead(WithoutDashes(t)) == u {
      DigitsAreHex(t);
      HexReadInjective(WithoutDashes(t), Hex(u, 32));
      SameWithDashes(t, UuidText(u));
    }
  }

  lemma UuidTextInjective(u: Uuid, v: Uuid)
    requires UuidText(u) == UuidText(v)
    ensures u == v
  {
    UuidTextExactly(u, UuidText(u));
    UuidTextExactly(v, UuidText(u));
  }

  // ---------- The payload ----------

  lemma DistinctCons(m: Member, ms: seq<Member>)
    requires DistinctKeys(m.value) && DistinctMembers(ms) && !HasKey(ms, m.key)
    ensures DistinctMembers([m] + ms)
  {
    assert ([m] + ms)[1..] == ms;
  }

  lemma SortValuesCons(le: (string, string) -> bool, m: Member, ms: seq<Member>)
    ensures SortValues(le, [m] + ms) == [Member(m.key, SortKeys(le, m.value))] + SortValues(le, ms)
  {
    assert ([m] + ms)[1..] == ms;
  }

  lemma PairDistinct(a: Member, b: Member)
    requires DistinctKeys(a.value) && DistinctKeys(b.value) && a.key != b.key
    ensures DistinctMembers([a, b])
  {
    DistinctCons(b, []);
    DistinctCons(a, [b]);
    assert [b] + [] == [b] && [a] + [b] == [a, b];
  }

  lemma TripleDistinct(a: Member, b: Member, c: Member)
    requires DistinctKeys(a.value) && DistinctKeys(b.value) && DistinctKeys(c.value)
    requires a.key != b.key && a.key != c.key && b.key != c.key
    ensures DistinctMembers([a, b, c])
  {
    PairDistinct(b, c);
    DistinctCons(a, [b, c]);
    assert [a] + [b, c] == [a, b, c];
  }

  lemma PayloadDistinct(account: Uuid, machine: Uuid, fingerprint: string, dataset: Json)
    requires DistinctKeys(dataset)
    ensures DistinctKeys(PayloadDocument(account, machine, fingerprint, dataset))
  {
    WordsApart();
    var ms := PayloadDocument(account, machine, fingerprint, dataset).members;
    var idOnly, pair := ms[0].value.members, ms[1].value.members;
    DistinctCons(idOnly[0], []);
    assert [idOnly[0]] + [] == idOnly;
    PairDistinct(pair[0], pair[1]);
    assert pair == [pair[0], pair[1]];
    TripleDistinct(ms[0], ms[1], ms[2]);
    assert ms == [ms[0], ms[1], ms[2]];
  }

  /** What the payload means: three named parts, the machine's two. */
  lemma PayloadMeaning(account: Uuid, machine: Uuid, fingerprint: string, dataset: Json)
    ensures Meaning(PayloadDocument(account, machine, fingerprint, dataset)) == ObjValue(map
      ["account" := ObjValue(map["id" := StrValue(UuidText(account))])]
      ["machine" := ObjValue(map["id" := StrValue(UuidText(machine))]["fingerprint" := StrValue(fingerprint)])]
      ["dataset" := Meaning(dataset)])
  {
    var a := Member("id", Str(UuidText(account)));
    var m, f := Member("id", Str(UuidText(machine))), Member("fingerprint", Str(fingerprint));
    MeaningOfOne(a);
    MeaningOfTwo(m, f);
    MeaningOfThree(Member("account", Obj([a])), Member("machine", Obj([m, f])), Member("dataset", dataset));
  }

  /** The keys of the payload are four different words, whatever the literals cost to compare. */
  lemma WordsApart()
    ensures "account" != "machine" && "account" != "dataset" && "machine" != "dataset" && "id" != "fingerprint"
  {
    assert "account"[0] == 'a' && "machine"[0] == 'm' && "dataset"[0] == 'd' && "id"[0] == 'i'
      && "fingerprint"[0] == 'f';
  }

  /**
   * The payload is lossless and canonical: equal bytes exactly when account, machine and fingerprint
   * are equal and the datasets are equal with the order of object keys ignored at every depth.
   */
  lemma PayloadCanonical(account1: Uuid, machine1: Uuid, fingerprint1: string, dataset1: Json,
                         account2: Uuid, machine2: Uuid, fingerprint2: string, dataset2: Json)
    requires DistinctKeys(dataset1) && DistinctKeys(dataset2)
    ensures BuildProofPayload(account1, machine1, fingerprint1, dataset1)
         == BuildProofPayload(account2, machine2, fingerprint2, dataset2)
       <==> account1 == account2 && machine1 == machine2 && fingerprint1 == fingerprint2
            && Meaning(dataset1) == Meaning(dataset2)
  {
    var d1 := PayloadDocument(account1, machine1, fingerprint1, dataset1);
    var d2 := PayloadDocument(account2, machine2, fingerprint2, dataset2);
    PayloadDistinct(account1, machine1, fingerprint1, dataset1);
    PayloadDistinct(account2, machine2, fingerprint2, dataset2);
    PayloadMeaning(account1, machine1, fingerprint1, dataset1);
    PayloadMeaning(account2, machine2, fingerprint2, dataset2);
    DumpsCanonical(d1, d2);
    if Meaning(d1) == Meaning(d2) {
      WordsApart();
      var m1, m2 := Meaning(d1).members, Meaning(d2).members;
      assert m1["account"] == m2["account"] && m1["machine"] == m2["machine"] && m1["dataset"] == m2["dataset"];
      assert m1["account"].members["id"] == m2["account"].members["id"];
      assert m1["machine"].members["id"] == m2["machine"].members["id"];
      assert m1["machine"].members["fingerprint"] == m2["machine"].members["fingerprint"];
      UuidTextInjective(account1, account2);
      UuidTextInjective(machine1, machine2);
    }
  }

  /** The payload is also what a server with byte-ordered maps produces. */
  lemma PayloadMatchesServer(account: Uuid, machine: Uuid, fingerprint: string, dataset: Json)
    ensures BuildProofPayload(account, machine, fingerprint, dataset)
         == Utf8(DumpsByteOrdered(PayloadDocument(account, machine, fingerprint, dataset)))
  {
    DumpsMatchesByteOrderedMap(PayloadDocument(account, machine, fingerprint, dataset));
  }

  // ---------- The documented layout ----------

  lemma EarlierWord(s: string, t: string)
    requires s != "" && t != "" && s[0] < t[0]
    ensures CodePointAtMost(s, t) && !CodePointAtMost(t, s)
  {
    LexTrichotomy(Codes(s), Codes(t));
  }

  function MemberText(key: string, text: string): string {
    Quote(key) + ":" + text
  }

  /** The text of an object of one or two members. */
  function One(x: string): string {
    "{" + x + "}"
  }

  function Two(x: string, y: string): string {
    One(x + "," + y)
  }

  lemma SortOne(x: Member)
    ensures Sort(ByKey(CodePointAtMost), [x]) == [x]
  {
    assert [x][1..] == [];
  }

  lemma SortPairBack(x: Member, y: Member)
    requires !CodePointAtMost(x.key, y.key)
    ensures Sort(ByKey(CodePointAtMost), [x, y]) == [y, x]
  {
    var le := ByKey(CodePointAtMost);
    SortOne(y);
    assert [x, y][1..] == [y] && !le(x, y);
    assert [y][1..] == [] && Insert(le, x, []) == [x];
    assert Insert(le, x, [y]) == [y, x];
  }

  /** The first stays first and the other two change places. */
  lemma SortThree(a: Member, m: Member, d: Member)
    requires CodePointAtMost(a.key, d.key) && !CodePointAtMost(m.key, d.key)
    ensures Sort(ByKey(CodePointAtMost), [a, m, d]) == [a, d, m]
  {
    SortPairBack(m, d);
    assert [a, m, d][1..] == [m, d];
    assert Insert(ByKey(CodePointAtMost), a, [d, m]) == [a] + [d, m];
  }

  lemma PrintOne(x: Member)
    ensures Print(Obj([x])) == One(MemberText(x.key, Print(x.value)))
  {
  }

  lemma PrintTwo(x: Member, y: Member)
    ensures Print(Obj([x, y])) == Two(MemberText(x.key, Print(x.value)), MemberText(y.key, Print(y.value)))
  {
    var ms := [x, y];
    assert ms[1..] == [y];
    assert PrintMembers([y]) == MemberText(y.key, Print(y.value));
    assert PrintMembers(ms) == MemberText(x.key, Print(x.value)) + "," + PrintMembers(ms[1..]);
  }

  lemma PrintThree(x: Member, y: Member, z: Member)
    ensures Print(Obj([x, y, z])) == Two(MemberText(x.key, Print(x.value)),
      MemberText(y.key, Print(y.value)) + "," + MemberText(z.key, Print(z.value)))
  {
    var ms := [x, y, z];
    assert ms[1..] == [y, z] && [y, z][1..] == [z];
    assert PrintMembers([z]) == MemberText(z.key, Print(z.value));
    assert PrintMembers([y, z]) == MemberText(y.key, Print(y.value)) + "," + PrintMembers([z]);
    assert PrintMembers(ms) == MemberText(x.key, Print(x.value)) + "," + PrintMembers(ms[1..]);
  }

  lemma DumpsOne(x: Member)
    ensures Dumps(Obj([x])) == One(MemberText(x.key, Dumps(x.value)))
  {
    var le := CodePointAtMost;
    SortValuesCons(le, x, []);
    assert [x] + [] == [x];
    SortOne(Member(x.key, SortKeys(le, x.value)));
    PrintOne(Member(x.key, SortKeys(le, x.value)));
  }

  function SortedMember(m: Member): Member {
    Member(m.key, SortKeys(CodePointAtMost, m.value))
  }

  lemma SortTwoValues(x: Member, y: Member)
    ensures SortValues(CodePointAtMost, [x, y]) == [SortedMember(x), SortedMember(y)]
  {
    SortValuesCons(CodePointAtMost, x, [y]);
    SortValuesCons(CodePointAtMost, y, []);
    assert [x] + [y] == [x, y] && [y] + [] == [y];
  }

  lemma DumpsTwo(x: Member, y: Member)
    requires !CodePointAtMost(x.key, y.key)
    ensures Dumps(Obj([x, y])) == Two(MemberText(y.key, Dumps(y.value)), MemberText(x.key, Dumps(x.value)))
  {
    SortTwoValues(x, y);
    SortPairBack(SortedMember(x), SortedMember(y));
    PrintTwo(SortedMember(y), SortedMember(x));
  }

  lemma SortThreeValues(a: Member, m: Member, d: Member)
    ensures SortValues(CodePointAtMost, [a, m, d]) == [SortedMember(a), SortedMember(m), SortedMember(d)]
  {
    var le := CodePointAtMost;
    SortValuesCons(le, a, [m, d]);
    SortValuesCons(le, m, [d]);
    SortValuesCons(le, d, []);
    assert [a] + [m, d] == [a, m, d] && [m] + [d] == [m, d] && [d] + [] == [d];
  }

  lemma DumpsThree(a: Member, m: Member, d: Member)
    requires CodePointAtMost(a.key, d.key) && !CodePointAtMost(m.key, d.key)
    ensures Dumps(Obj([a, m, d])) == Two(MemberText(a.key, Dumps(a.value)),
      MemberText(d.key, Dumps(d.value)) + "," + MemberText(m.key, Dumps(m.value)))
  {
    SortThreeValues(a, m, d);
    SortThree(SortedMember(a), SortedMember(m), SortedMember(d));
    PrintThree(SortedMember(a), SortedMember(d), SortedMember(m));
  }

  lemma DumpsString(s: string)
    ensures Dumps(Str(s)) == Quote(s)
  {
  }

  lemma WordOrder()
    ensures CodePointAtMost("account", "dataset") && !CodePointAtMost("machine", "dataset")
    ensures !CodePointAtMost("id", "fingerprint")
  {
    assert "account"[0] == 'a' && "machine"[0] == 'm' && "dataset"[0] == 'd' && "id"[0] == 'i'
      && "fingerprint"[0] == 'f';
    EarlierWord("account", "dataset");
    EarlierWord("dataset", "machine");
    EarlierWord("fingerprint", "id");
  }

  /** `dataset` comes before `machine`, and `fingerprint` before `id`. */
  lemma PayloadLayout(account: Uuid, machine: Uuid, fingerprint: string, dataset: Json)
    ensures Dumps(PayloadDocument(account, machine, fingerprint, dataset)) ==
      Two(MemberText("account", One(MemberText("id", Quote(UuidText(account))))),
          MemberText("dataset", Dumps(dataset)) + "," +
          MemberText("machine", Two(MemberText("fingerprint", Quote(fingerprint)),
                                    MemberText("id", Quote(UuidText(machine))))))
  {
    var id := Member("id", Str(UuidText(account)));
    var mid, fp := Member("id", Str(UuidText(machine))), Member("fingerprint", Str(fingerprint));
    WordOrder();
    DumpsOne(id);
    DumpsTwo(mid, fp);
    DumpsThree(Member("account", Obj([id])), Member("machine", Obj([mid, fp])), Member("dataset", dataset));
    DumpsString(UuidText(account));
    DumpsString(UuidText(machine));
    DumpsString(fingerprint);
  }

  function InQuotes(s: string): string {
    "\"" + s + "\""
  }

  /** The keys of the payload are printed between plain quotes. */
  lemma KeyInQuotes(key: string)
    requires key == "account" || key == "dataset" || key == "machine" || key == "fingerprint" || key == "id"
    ensures Quote(key) == InQuotes(key)
  {
    PlainQuote(key);
  }

  /** The text of the payload around the texts of its four parts. */
  function PayloadText(account: string, dataset: string, fingerprint: string, machine: string): string {
    var ofAccount := "{" + (InQuotes("id") + ":" + InQuotes(account)) + "}";
    var machineId := InQuotes("id") + ":" + InQuotes(machine);
    var ofMachine := "{" + (InQuotes("fingerprint") + ":" + fingerprint + "," + machineId) + "}";
    "{" + (InQuotes("account") + ":" + ofAccount + "," +
           (InQuotes("dataset") + ":" + dataset + "," + (InQuotes("machine") + ":" + ofMachine))) + "}"
  }

  /**
   * The signed bytes, character by character: with the texts of the two ids in place, in lower case and
   * with their dashes, the quoted fingerprint, and the dataset printed with sorted keys.
   */
  lemma PayloadExactly(account: Uuid, machine: Uuid, fingerprint: string, dataset: Json, a: string, m: string)
    requires IsUuidText(a) && HexRead(WithoutDashes(a)) == account
    requires IsUuidText(m) && HexRead(WithoutDashes(m)) == machine
    ensures BuildProofPayload(account, machine, fingerprint, dataset)
         == Utf8(PayloadText(a, Dumps(dataset), Quote(fingerprint), m))
  {
    UuidTextExactly(account, a);
    UuidTextExactly(machine, m);
    UuidTextIsPlain(a);
    UuidTextIsPlain(m);
    PayloadLayout(account, machine, fingerprint, dataset);
    KeyInQuotes("account");
    KeyInQuotes("dataset");
    KeyInQuotes("machine");
    KeyInQuotes("fingerprint");
    KeyInQuotes("id");
  }

  lemma UuidTextIsPlain(t: string)
    requires IsUuidText(t)
    ensures Quote(t) == "\"" + t + "\""
  {
    forall i | 0 <= i < |t| ensures t[i] != '"' && t[i] != '\\' && t[i] as int >= 0x20 {
      assert IsLowerHex(t[i]) || t[i] == '-';
    }
    PlainQuote(t);
  }

  // ---------- The proof string ----------

  datatype ProofError = MissingPrefix | BadBase64

  datatype ProofResult = ProofResult(raw: string, signature: bytes,
                                     account: Uuid, machine: Uuid, fingerprint: string, dataset: Json)
  {
    /** `ProofResult.verify` with the library's signature check passed in. */
    predicate Verify(key: bytes, verifyPkcs1: (bytes, bytes, bytes) -> bool) {
      verifyPkcs1(key, BuildProofPayload(account, machine, fingerprint, dataset), signature)
    }
  }

  /** `ProofResult.parse`. */
  function ParseProof(raw: string, account: Uuid, machine: Uuid, fingerprint: string, dataset: Json)
    : Result<ProofResult, ProofError>
  {
    if !StartsWith(raw, PROOF_VERSION_PREFIX) then Err(MissingPrefix)
    else
      match Base64.Decode(raw[|PROOF_VERSION_PREFIX|..])
      case None => Err(BadBase64)
      case Some(signature) => Ok(ProofResult(raw, signature, account, machine, fingerprint, dataset))
  }

  /**
   * What becomes of any string: without the prefix, or with text after it that is not base64, it is refused;
   * otherwise that text is the signature, kept with the inputs the caller gave.
   */
  lemma ParseProofExactly(raw: string, rest: string, account: Uuid, machine: Uuid, fingerprint: string, dataset: Json)
    ensures
      var r := ParseProof(raw, account, machine, fingerprint, dataset);
      && (r == Err(MissingPrefix) <==> !StartsWith(raw, "v1x0."))
      && (raw == "v1x0." + rest ==>
            if Base64.Decode(rest).None? then r == Err(BadBase64)
            else
              && r.Ok? && r.value.raw == raw && Some(r.value.signature) == Base64.Decode(rest)
              && r.value.account == account && r.value.machine == machine
              && r.value.fingerprint == fingerprint && r.value.dataset == dataset)
  {
    if raw == "v1x0." + rest {
      assert raw[..5] == "v1x0." && raw[5..] == rest;
    }
  }

  /** A published proof gives back exactly the signature it was built from. */
  lemma ProofRoundTrip(signature: bytes, account: Uuid, machine: Uuid, fingerprint: string, dataset: Json)
    ensures
      var raw := PROOF_VERSION_PREFIX + Base64.Encode(signature);
      ParseProof(raw, account, machine, fingerprint, dataset)
        == Ok(ProofResult(raw, signature, account, machine, fingerprint, dataset))
  {
    var raw := PROOF_VERSION_PREFIX + Base64.Encode(signature);
    assert raw[..5] == PROOF_VERSION_PREFIX && raw[5..] == Base64.Encode(signature);
    Base64.RoundTrip(signature);
  }

  /** What is checked: the proof's own signature over the payload text with its own ids, fingerprint and dataset. */
  lemma VerifyExactly(p: ProofResult, key: bytes, verifyPkcs1: (bytes, bytes, bytes) -> bool, a: string, m: string)
    requires IsUuidText(a) && HexRead(WithoutDashes(a)) == p.account
    requires IsUuidText(m) && HexRead(WithoutDashes(m)) == p.machine
    ensures p.Verify(key, verifyPkcs1)
       <==> verifyPkcs1(key, Utf8(PayloadText(a, Dumps(p.dataset), Quote(p.fingerprint), m)), p.signature)
  {
    PayloadExactly(p.account, p.machine, p.fingerprint, p.dataset, a, m);
  }

  /**
   * Under a signature scheme that accepts one message per signature, a parsed proof verifies for
   * exactly the machine and dataset it was issued for.
   */
  lemma ProofBindsItsInputs(p: ProofResult, q: ProofResult, key: bytes, verifyPkcs1: (bytes, bytes, bytes) -> bool)
    requires DistinctKeys(p.dataset) && DistinctKeys(q.dataset)
    requires forall m1, m2 :: verifyPkcs1(key, m1, p.signature) && verifyPkcs1(key, m2, p.signature) ==> m1 == m2
    requires p.signature == q.signature && p.Verify(key, verifyPkcs1)
    ensures q.Verify(key, verifyPkcs1) <==>
            q.account == p.account && q.machine == p.machine && q.fingerprint == p.fingerprint
            && Meaning(q.dataset) == Meaning(p.dataset)
  {
    PayloadCanonical(p.account, p.machine, p.fingerprint, p.dataset, q.account, q.machine, q.fingerprint, q.dataset);
  }
}
