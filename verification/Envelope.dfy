/** The PEM-style envelope around an offline certificate. */
module Envelope {
  import opened Common
  import opened Utf8Text
  import opened JsonText
  import opened JsonRoundTrip
  import opened JsonCanonical
  import Base64

  const MAX_CERTIFICATE_LENGTH: nat := 1048576

  const LICENSE_HEADER: string := "-----BEGIN LICENSE FILE-----"
  const LICENSE_FOOTER: string := "-----END LICENSE FILE-----"
  const MACHINE_HEADER: string := "-----BEGIN MACHINE FILE-----"
  const MACHINE_FOOTER: string := "-----END MACHINE FILE-----"

  datatype EnvelopeError =
    | TooLarge
    | MissingMarkers
    | OverlappingMarkers
    | BodyNotBase64
    | BodyNotJson
    | MissingKeys
    | NotStrings
    | SignatureNotBase64

  datatype Certificate = Certificate(enc: string, sig: bytes, alg: string)

  predicate AllSpace(s: string) {
    forall i :: 0 <= i < |s| ==> IsPySpace(s[i])
  }

  function StripSpace(s: string): (r: string)
    ensures |r| <= |s|
  {
    Strip(s, IsPySpace)
  }

  /** The text between the markers, once the length and marker checks have passed. */
  function Body(certificate: string, header: string, footer: string): Result<string, EnvelopeError> {
    var stripped := StripSpace(certificate);
    if |stripped| > MAX_CERTIFICATE_LENGTH then Err(TooLarge)
    else if !(StartsWith(stripped, header) && EndsWith(stripped, footer)) then Err(MissingMarkers)
    else if |stripped| < |header| + |footer| then Err(OverlappingMarkers)
    else Ok(StripSpace(stripped[|header|..|stripped| - |footer|]))
  }

  /** The three fields of the decoded JSON body. */
  function Fields(body: Value): Result<Certificate, EnvelopeError> {
    if !body.ObjValue? || "enc" !in body.members || "sig" !in body.members || "alg" !in body.members then
      Err(MissingKeys)
    else
      match (body.members["enc"], body.members["alg"])
      case (StrValue(enc), StrValue(alg)) => (
        match body.members["sig"]
        case StrValue(sig) => (
          match Base64.Decode(sig)
          case None => Err(SignatureNotBase64)
          case Some(sigBytes) => Ok(Certificate(enc, sigBytes, alg))
        )
        case _ => Err(SignatureNotBase64)
      )
      case _ => Err(NotStrings)
  }

  /** `parse_certificate_envelope`. */
  function ParseEnvelope(certificate: string, header: string, footer: string): Result<Certificate, EnvelopeError> {
    match Body(certificate, header, footer)
    case Err(e) => Err(e)
    case Ok(body) =>
      match Base64.Decode(body)
      case None => Err(BodyNotBase64)
      case Some(json) =>
        match Loads(json)
        case None => Err(BodyNotJson)
        case Some(value) => Fields(value)
  }

  // ---------- Printing a certificate ----------

  function EnvelopeDocument(c: Certificate): Json {
    Obj([Member("enc", Str(c.enc)), Member("sig", Str(Base64.Encode(c.sig))), Member("alg", Str(c.alg))])
  }

  /** The base64 body around a document. */
  function BodyOf(doc: Json): string {
    Base64.Encode(Utf8(Print(doc)))
  }

  /** The base64 body of a certificate. */
  function EnvelopeBody(c: Certificate): string {
    BodyOf(EnvelopeDocument(c))
  }

  /** Markers that an outer `strip` leaves alone. */
  predicate IsMarker(s: string) {
    s != "" && !IsPySpace(s[0]) && !IsPySpace(s[|s| - 1])
  }

  lemma RealMarkers()
    ensures IsMarker(LICENSE_HEADER) && IsMarker(LICENSE_FOOTER) && IsMarker(MACHINE_HEADER) && IsMarker(MACHINE_FOOTER)
  {
  }

  lemma Base64NotSpace(c: char)
    requires Base64.IsBase64Char(c) || c == '='
    ensures !IsPySpace(c)
  {
  }

  lemma Sandwich(header: string, inner: string, footer: string)
    requires IsMarker(header) && IsMarker(footer)
    ensures
      var marked := header + inner + footer;
      && StartsWith(marked, header) && EndsWith(marked, footer)
      && marked[|header|..|marked| - |footer|] == inner
      && !IsPySpace(marked[0]) && !IsPySpace(marked[|marked| - 1])
  {
    var marked := header + inner + footer;
    assert marked[0] == header[0] && marked[|marked| - 1] == footer[|footer| - 1];
    assert marked[..|header|] == header;
    assert marked[|marked| - |footer|..] == footer;
  }

  /** The markers come off, and so does the whitespace on either side of the body. */
  lemma BodyRoundTrip(before: string, header: string, padLeft: string, body: string, padRight: string,
                      footer: string, after: string)
    requires AllSpace(before) && AllSpace(padLeft) && AllSpace(padRight) && AllSpace(after)
    requires IsMarker(header) && IsMarker(footer)
    requires body != "" ==> !IsPySpace(body[0]) && !IsPySpace(body[|body| - 1])
    ensures
      var marked := header + (padLeft + body + padRight) + footer;
      Body(before + marked + after, header, footer)
        == if |marked| > MAX_CERTIFICATE_LENGTH then Err(TooLarge) else Ok(body)
  {
    var inner := padLeft + body + padRight;
    var marked := header + inner + footer;
    Sandwich(header, inner, footer);
    StripPadded(before, marked, after, IsPySpace);
    StripPadded(padLeft, body, padRight, IsPySpace);
  }

  /**
   * What becomes of any printed body: three members, two of them strings and one base64, in the order
   * they are missed.
   */
  predicate FieldsFrom(doc: Json, r: Result<Certificate, EnvelopeError>) {
    var enc, sig, alg := Part(doc, "enc"), Part(doc, "sig"), Part(doc, "alg");
    if enc.None? || sig.None? || alg.None? then r == Err(MissingKeys)
    else if !enc.value.Str? || !alg.value.Str? then r == Err(NotStrings)
    else if !sig.value.Str? || Base64.Decode(sig.value.s).None? then r == Err(SignatureNotBase64)
    else
      && r.Ok? && r.value.enc == enc.value.s && r.value.alg == alg.value.s
      && Base64.Decode(sig.value.s) == Some(r.value.sig)
  }

  lemma FieldsExactly(doc: Json)
    ensures FieldsFrom(doc, Fields(Meaning(doc)))
  {
    if doc.Obj? {
      PartIsMeant(doc, "enc");
      PartIsMeant(doc, "sig");
      PartIsMeant(doc, "alg");
    }
  }

  lemma EncodedBodyEnds(b: bytes)
    requires b != []
    ensures
      var e := Base64.Encode(b);
      e != "" && !IsPySpace(e[0]) && !IsPySpace(e[|e| - 1])
  {
    Base64.RoundTrip(b);
    Base64.EncodeNonempty(b);
    var e := Base64.Encode(b);
    Base64.DecodedAlphabet(e);
    Base64NotSpace(e[0]);
    Base64NotSpace(e[|e| - 1]);
  }

  /** Any other text inside the markers is told apart by whether it is base64 and whether the bytes are JSON. */
  lemma BodyErrors(body: string, header: string, footer: string,
                   before: string, padLeft: string, padRight: string, after: string)
    requires AllSpace(before) && AllSpace(padLeft) && AllSpace(padRight) && AllSpace(after)
    requires IsMarker(header) && IsMarker(footer)
    requires body != "" ==> !IsPySpace(body[0]) && !IsPySpace(body[|body| - 1])
    requires |header + (padLeft + body + padRight) + footer| <= 1048576
    ensures
      var r := ParseEnvelope(before + (header + (padLeft + body + padRight) + footer) + after, header, footer);
      && (Base64.Decode(body).None? ==> r == Err(BodyNotBase64))
      && (Base64.Decode(body).Some? && Loads(Base64.Decode(body).value).None? ==> r == Err(BodyNotJson))
  {
    BodyRoundTrip(before, header, padLeft, body, padRight, footer, after);
  }

  /** The outcome for any document at all inside the markers, whatever whitespace surrounds it. */
  lemma EnvelopeExactly(doc: Json, header: string, footer: string,
                        before: string, padLeft: string, padRight: string, after: string)
    requires AllSpace(before) && AllSpace(padLeft) && AllSpace(padRight) && AllSpace(after)
    requires IsMarker(header) && IsMarker(footer)
    ensures
      var marked := header + (padLeft + BodyOf(doc) + padRight) + footer;
      var r := ParseEnvelope(before + marked + after, header, footer);
      if |marked| <= 1048576 then FieldsFrom(doc, r) else r == Err(TooLarge)
  {
    var json := Utf8(Print(doc));
    LoadsInvertsPrint(doc);
    FieldsExactly(doc);
    PrintOpens(doc);
    Utf8Head(Print(doc));
    EncodedBodyEnds(json);
    BodyRoundTrip(before, header, padLeft, BodyOf(doc), padRight, footer, after);
    Base64.RoundTrip(json);
  }

  lemma CertificateFields(c: Certificate, r: Result<Certificate, EnvelopeError>)
    requires FieldsFrom(EnvelopeDocument(c), r)
    ensures r == Ok(c)
  {
    var doc := EnvelopeDocument(c);
    MeaningOfThree(doc.members[0], doc.members[1], doc.members[2]);
    assert doc.members == [doc.members[0], doc.members[1], doc.members[2]];
    assert "enc"[0] == 'e' && "sig"[0] == 's' && "alg"[0] == 'a';
    PartIsMeant(doc, "enc");
    PartIsMeant(doc, "sig");
    PartIsMeant(doc, "alg");
    Base64.RoundTrip(c.sig);
  }

  /**
   * Parsing a printed certificate returns exactly its three fields, whatever whitespace surrounds
   * the text or pads the body inside the markers, precisely when the marked text fits the size cap.
   */
  lemma EnvelopeRoundTrip(c: Certificate, header: string, footer: string,
                          before: string, padLeft: string, padRight: string, after: string)
    requires AllSpace(before) && AllSpace(padLeft) && AllSpace(padRight) && AllSpace(after)
    requires IsMarker(header) && IsMarker(footer)
    ensures
      var marked := header + (padLeft + EnvelopeBody(c) + padRight) + footer;
      ParseEnvelope(before + marked + after, header, footer)
        == if |marked| <= 1048576 then Ok(c) else Err(TooLarge)
  {
    EnvelopeExactly(EnvelopeDocument(c), header, footer, before, padLeft, padRight, after);
    var marked := header + (padLeft + EnvelopeBody(c) + padRight) + footer;
    if |marked| <= 1048576 {
      CertificateFields(c, ParseEnvelope(before + marked + after, header, footer));
    }
  }

  /** Nothing after the markers is refused for them. */
  lemma AfterTheMarkers(certificate: string, header: string, footer: string)
    requires Body(certificate, header, footer).Ok?
    ensures
      var r := ParseEnvelope(certificate, header, footer);
      r != Err(TooLarge) && r != Err(MissingMarkers) && r != Err(OverlappingMarkers)
  {
  }

  lemma BodyExactly(certificate: string, header: string, footer: string)
    ensures
      var text := StripSpace(certificate);
      var r := Body(certificate, header, footer);
      && (r == Err(TooLarge) <==> |text| > 1048576)
      && (r == Err(MissingMarkers) <==> |text| <= 1048576 && !(StartsWith(text, header) && EndsWith(text, footer)))
      && (r == Err(OverlappingMarkers) <==>
            |text| <= 1048576 && StartsWith(text, header) && EndsWith(text, footer) && |text| < |header| + |footer|)
  {
  }

  /**
   * What is refused for its size, its markers or their overlap, in this order; everything else has a
   * body to decode.
   */
  lemma MarkersExactly(certificate: string, header: string, footer: string)
    ensures
      var text := StripSpace(certificate);
      var r := ParseEnvelope(certificate, header, footer);
      && (r == Err(TooLarge) <==> |text| > 1048576)
      && (r == Err(MissingMarkers) <==> |text| <= 1048576 && !(StartsWith(text, header) && EndsWith(text, footer)))
      && (r == Err(OverlappingMarkers) <==>
            |text| <= 1048576 && StartsWith(text, header) && EndsWith(text, footer) && |text| < |header| + |footer|)
  {
    BodyExactly(certificate, header, footer);
    if Body(certificate, header, footer).Ok? {
      AfterTheMarkers(certificate, header, footer);
    }
  }

  lemma Cut(s: string, header: string, footer: string)
    requires StartsWith(s, header) && EndsWith(s, footer) && |header| + |footer| <= |s|
    ensures s == header + s[|header|..|s| - |footer|] + footer
  {
    assert s == s[..|header|] + s[|header|..|s| - |footer|] + s[|s| - |footer|..];
  }

  /** Every accepted text is a header, a body and a footer that do not overlap. */
  lemma AcceptedShape(certificate: string, header: string, footer: string)
    ensures ParseEnvelope(certificate, header, footer).Ok? ==>
      var stripped := StripSpace(certificate);
      && |header| + |footer| <= |stripped| <= 1048576
      && stripped == header + stripped[|header|..|stripped| - |footer|] + footer
  {
    if ParseEnvelope(certificate, header, footer).Ok? {
      assert Body(certificate, header, footer).Ok?;
      Cut(StripSpace(certificate), header, footer);
    }
  }

  lemma SharedMarkers(header: string, footer: string, shared: string)
    requires IsMarker(header) && IsMarker(footer) && shared != ""
    requires EndsWith(header, shared) && StartsWith(footer, shared)
    ensures
      var text := header + footer[|shared|..];
      StartsWith(text, header) && EndsWith(text, footer) && IsMarker(text)
  {
    var text := header + footer[|shared|..];
    assert text == header[..|header| - |shared|] + footer;
    assert text[|text| - |footer|..] == footer && text[..|header|] == header;
    assert text[0] == header[0] && text[|text| - 1] == footer[|footer| - 1];
  }

  /**
   * Why the length check is there: one text can open with the header and close with the footer it
   * shares dashes with.
   */
  lemma OverlapIsRefused(header: string, footer: string, shared: string)
    requires IsMarker(header) && IsMarker(footer) && shared != ""
    requires EndsWith(header, shared) && StartsWith(footer, shared)
    requires |header| + |footer| - |shared| <= 1048576
    ensures
      var text := header + footer[|shared|..];
      StartsWith(text, header) && EndsWith(text, footer)
      && ParseEnvelope(text, header, footer) == Err(OverlappingMarkers)
  {
    SharedMarkers(header, footer, shared);
    assert StripSpace(header + footer[|shared|..]) == header + footer[|shared|..];
  }

  lemma RealMarkersOverlap()
    ensures LICENSE_HEADER == "-----BEGIN LICENSE FILE-----" && LICENSE_FOOTER == "-----END LICENSE FILE-----"
    ensures MACHINE_HEADER == "-----BEGIN MACHINE FILE-----" && MACHINE_FOOTER == "-----END MACHINE FILE-----"
    ensures EndsWith(LICENSE_HEADER, "-----") && StartsWith(LICENSE_FOOTER, "-----")
    ensures EndsWith(MACHINE_HEADER, "-----") && StartsWith(MACHINE_FOOTER, "-----")
  {
  }
}
