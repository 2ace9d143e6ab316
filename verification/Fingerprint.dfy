/** Canonical machine fingerprints: validate, trim, sort and join labelled components. */
module Fingerprint {
  import opened Common
  import opened Ordering
  import opened Utf8Text

  const FINGERPRINT_DOMAIN: string := "tamga-fingerprint-v1"
  const FINGERPRINT_SEPARATOR: char := 0x1F as char
  const LABEL_MIN := 0x21
  const LABEL_MAX := 0x7E
  const DELETE := 0x7F

  type Component = (string, string)

  datatype FingerprintError =
    | NoComponents
    | EmptyLabel(index: nat)
    | LabelNotPrintable(index: nat)
    | LabelHasEquals(index: nat)
    | RepeatedLabel(index: nat)
    | ControlCharacter(index: nat)

  /** Space, tab, CR, LF, vertical tab, form feed: the only characters trimmed. */
  predicate IsAsciiSpace(c: char) {
    c == ' ' || c == '\t' || c == '\r' || c == '\n' || c as int == 0x0B || c as int == 0x0C
  }

  predicate IsControl(c: char) {
    c as int <= 0x1F || c as int == DELETE
  }

  predicate IsLabelChar(c: char) {
    LABEL_MIN <= c as int <= LABEL_MAX && c != '='
  }

  function Trim(value: string): string {
    Strip(value, IsAsciiSpace)
  }

  /** `_validate_label`: the first bad character decides the error. */
  function LabelError(name: string, index: nat): (r: Option<FingerprintError>)
    ensures r.None? <==> name != "" && forall i :: 0 <= i < |name| ==> IsLabelChar(name[i])
  {
    if name == "" then Some(EmptyLabel(index)) else ScanLabel(name, index)
  }

  function ScanLabel(name: string, index: nat): (r: Option<FingerprintError>)
    ensures r.None? <==> forall i :: 0 <= i < |name| ==> IsLabelChar(name[i])
  {
    if name == "" then None
    else if name[0] as int < LABEL_MIN || name[0] as int > LABEL_MAX then Some(LabelNotPrintable(index))
    else if name[0] == '=' then Some(LabelHasEquals(index))
    else
      assert forall i :: 0 < i < |name| ==> name[i] == name[1..][i - 1];
      ScanLabel(name[1..], index)
  }

  /** `_validate_value`: trimming comes first, so surrounding whitespace never counts as control. */
  function ValueError(value: string, index: nat): (r: Option<FingerprintError>)
    ensures r.None? <==> forall i :: 0 <= i < |Trim(value)| ==> !IsControl(Trim(value)[i])
  {
    if exists i :: 0 <= i < |Trim(value)| && IsControl(Trim(value)[i]) then Some(ControlCharacter(index)) else None
  }

  /** What is wrong with component `i`, seen after the ones before it. */
  function ComponentError(components: seq<Component>, i: nat): Option<FingerprintError>
    requires i < |components|
  {
    var (name, value) := components[i];
    match LabelError(name, i)
    case Some(e) => Some(e)
    case None =>
      if exists j :: 0 <= j < i && components[j].0 == name then Some(RepeatedLabel(i))
      else ValueError(value, i)
  }

  /** At least one component, and nothing wrong with any of them. */
  ghost predicate Accepted(components: seq<Component>) {
    components != [] && forall i :: 0 <= i < |components| ==> ComponentError(components, i).None?
  }

  /** `e` is the fault of the earliest faulty component. */
  ghost predicate FirstFault(components: seq<Component>, e: FingerprintError) {
    exists i :: 0 <= i < |components| && ComponentError(components, i) == Some(e) && FaultFree(components, i)
  }

  ghost predicate FaultFree(components: seq<Component>, upTo: nat)
    requires upTo <= |components|
  {
    forall j :: 0 <= j < upTo ==> ComponentError(components, j).None?
  }

  function EncodeComponent(component: Component): string {
    component.0 + "=" + Trim(component.1)
  }

  function Encoded(components: seq<Component>): (r: seq<string>)
    ensures |r| == |components|
  {
    seq(|components|, i requires 0 <= i < |components| => EncodeComponent(components[i]))
  }

  /** `FINGERPRINT_SEPARATOR.join(parts)`. */
  function Join(parts: seq<string>): string {
    if parts == [] then ""
    else if |parts| == 1 then parts[0]
    else parts[0] + [FINGERPRINT_SEPARATOR] + Join(parts[1..])
  }

  /** The canonical string of accepted components. */
  function Canonical(components: seq<Component>): string {
    Join([FINGERPRINT_DOMAIN] + Sort(Utf8AtMost, Encoded(components)))
  }

  /** `canonical_form`: accepts exactly the valid lists, and reports the first fault otherwise. */
  method CanonicalForm(components: seq<Component>) returns (r: Result<string, FingerprintError>)
    ensures r.Ok? <==> Accepted(components)
    ensures r.Ok? ==> r.value == Canonical(components)
    ensures r.Err? && components == [] ==> r.error == NoComponents
    ensures r.Err? && components != [] ==> FirstFault(components, r.error)
  {
    if components == [] {
      return Err(NoComponents);
    }
    var seen: set<string> := {};
    var encoded: seq<string> := [];
    for index := 0 to |components|
      invariant forall j :: 0 <= j < index ==> ComponentError(components, j).None?
      invariant seen == set j | 0 <= j < index :: components[j].0
      invariant encoded == Encoded(components[..index])
    {
      var (name, value) := components[index];
      var labelError := LabelError(name, index);
      if labelError.Some? {
        assert ComponentError(components, index) == labelError;
        return Err(labelError.value);
      }
      if name in seen {
        assert ComponentError(components, index) == Some(RepeatedLabel(index));
        return Err(RepeatedLabel(index));
      }
      seen := seen + {name};
      var valueError := ValueError(value, index);
      if valueError.Some? {
        assert ComponentError(components, index) == valueError;
        return Err(valueError.value);
      }
      encoded := encoded + [EncodeComponent(components[index])];
      assert components[..index + 1] == components[..index] + [components[index]];
    }
    assert components[..|components|] == components;
    encoded := Sort(Utf8AtMost, encoded);
    return Ok(Join([FINGERPRINT_DOMAIN] + encoded));
  }

  // ---------- Reading a canonical string back ----------

  /** Splits on the separator. */
  function Split(s: string): (r: seq<string>)
    ensures r != []
  {
    if s == "" then [""]
    else
      var rest := Split(s[1..]);
      if s[0] == FINGERPRINT_SEPARATOR then [""] + rest
      else [[s[0]] + rest[0]] + rest[1..]
  }

  /** Splits on the first `=`. */
  function SplitEquals(s: string): Component {
    if s == "" then ("", "")
    else if s[0] == '=' then ("", s[1..])
    else
      var (name, value) := SplitEquals(s[1..]);
      ([s[0]] + name, value)
  }

  function SplitComponents(parts: seq<string>): (r: seq<Component>)
    ensures |r| == |parts|
  {
    seq(|parts|, i requires 0 <= i < |parts| => SplitEquals(parts[i]))
  }

  /** The trimmed value under a label: the first one, should there be several. */
  function TrimmedValue(components: seq<Component>, name: string): string {
    if components == [] then ""
    else if components[0].0 == name then Trim(components[0].1)
    else TrimmedValue(components[1..], name)
  }

  /** What the components say: each label and its trimmed value. */
  function LabelMap(components: seq<Component>): map<string, string> {
    map name | name in (set i | 0 <= i < |components| :: components[i].0) :: TrimmedValue(components, name)
  }

  /** Split on the separator, drop the domain, split each part on its first `=`. */
  function Recover(s: string): map<string, string> {
    LabelMap(SplitComponents(Split(s)[1..]))
  }

  ghost predicate DistinctLabels(components: seq<Component>) {
    forall i, j :: 0 <= i < j < |components| ==> components[i].0 != components[j].0
  }

  /** Some component carries this label with this trimmed value. */
  ghost predicate Says(components: seq<Component>, name: string, value: string) {
    exists i :: 0 <= i < |components| && components[i].0 == name && Trim(components[i].1) == value
  }

  lemma {:induction false} ValueAt(components: seq<Component>, i: nat)
    requires DistinctLabels(components) && i < |components|
    ensures TrimmedValue(components, components[i].0) == Trim(components[i].1)
    ensures components[i].0 in LabelMap(components)
  {
    if i > 0 {
      assert components[0].0 != components[i].0;
      ValueAt(components[1..], i - 1);
    }
    assert components[i].0 in (set k | 0 <= k < |components| :: components[k].0);
  }

  /** With distinct labels, the map holds exactly what the components say. */
  lemma MapSays(components: seq<Component>, name: string, value: string)
    requires DistinctLabels(components)
    ensures Says(components, name, value) <==> name in LabelMap(components) && LabelMap(components)[name] == value
  {
    forall i | 0 <= i < |components| && components[i].0 == name
      ensures name in LabelMap(components) && LabelMap(components)[name] == Trim(components[i].1)
    {
      ValueAt(components, i);
    }
  }

  /** So lists that say the same have the same map. */
  lemma SameSayingsSameMap(a: seq<Component>, b: seq<Component>)
    requires DistinctLabels(a) && DistinctLabels(b)
    requires forall name, value :: Says(a, name, value) <==> Says(b, name, value)
    ensures LabelMap(a) == LabelMap(b)
  {
    var m, n := LabelMap(a), LabelMap(b);
    forall name | name in m ensures name in n && n[name] == m[name] {
      MapSays(a, name, m[name]);
      MapSays(b, name, m[name]);
    }
    forall name | name in n ensures name in m {
      MapSays(a, name, n[name]);
      MapSays(b, name, n[name]);
    }
  }

  ghost predicate Unseparated(s: string) {
    forall i :: 0 <= i < |s| ==> s[i] != FINGERPRINT_SEPARATOR
  }

  lemma {:induction false} SplitPart(part: string, rest: string)
    requires Unseparated(part)
    ensures rest == "" ==> Split(part + rest) == [part]
    ensures rest != "" && rest[0] == FINGERPRINT_SEPARATOR ==> Split(part + rest) == [part] + Split(rest[1..])
  {
    if part == "" {
      assert part + rest == rest;
    } else {
      assert (part + rest)[1..] == part[1..] + rest;
      SplitPart(part[1..], rest);
      assert part == [part[0]] + part[1..];
    }
  }

  /** Splitting undoes joining parts that do not contain the separator. */
  lemma {:induction false} SplitInvertsJoin(parts: seq<string>)
    requires parts != [] && forall i :: 0 <= i < |parts| ==> Unseparated(parts[i])
    ensures Split(Join(parts)) == parts
  {
    if |parts| == 1 {
      SplitPart(parts[0], "");
      assert parts[0] + "" == parts[0];
    } else {
      var rest := [FINGERPRINT_SEPARATOR] + Join(parts[1..]);
      SplitPart(parts[0], rest);
      assert Join(parts) == parts[0] + rest && rest[1..] == Join(parts[1..]);
      SplitInvertsJoin(parts[1..]);
      assert parts == [parts[0]] + parts[1..];
    }
  }

  lemma {:induction false} SplitEqualsInverts(name: string, value: string)
    requires forall i :: 0 <= i < |name| ==> name[i] != '='
    ensures SplitEquals(name + "=" + value) == (name, value)
  {
    var s := name + "=" + value;
    if name == "" {
      assert s[1..] == value;
    } else {
      assert s[1..] == name[1..] + "=" + value;
      SplitEqualsInverts(name[1..], value);
      assert name == [name[0]] + name[1..];
    }
  }

  /** Trimming is settled after once. */
  lemma TrimIdempotent(value: string)
    ensures Trim(Trim(value)) == Trim(value)
  {
  }

  /** What acceptance gives for one component: a clean label, and a part free of separators. */
  lemma AcceptedComponent(components: seq<Component>, i: nat)
    requires Accepted(components) && i < |components|
    ensures forall k :: 0 <= k < |components[i].0| ==> IsLabelChar(components[i].0[k])
    ensures Unseparated(EncodeComponent(components[i]))
    ensures SplitEquals(EncodeComponent(components[i])) == (components[i].0, Trim(components[i].1))
  {
    var (name, value) := components[i];
    assert ComponentError(components, i).None?;
    assert LabelError(name, i).None? && ValueError(value, i).None?;
    SplitEqualsInverts(name, Trim(value));
  }

  lemma AcceptedDistinct(components: seq<Component>)
    requires Accepted(components)
    ensures DistinctLabels(components)
    ensures NoRepeats(Encoded(components))
  {
    forall i, j | 0 <= i < j < |components|
      ensures components[i].0 != components[j].0
      ensures EncodeComponent(components[i]) != EncodeComponent(components[j])
    {
      assert ComponentError(components, j).None?;
      AcceptedComponent(components, i);
      AcceptedComponent(components, j);
    }
  }

  /** Every encoded part comes from a component and reads back as it. */
  lemma PartOf(components: seq<Component>, p: string) returns (i: nat)
    requires Accepted(components) && p in Encoded(components)
    ensures i < |components| && p == EncodeComponent(components[i]) && Unseparated(p)
    ensures SplitEquals(p) == (components[i].0, Trim(components[i].1))
  {
    i :| 0 <= i < |components| && Encoded(components)[i] == p;
    AcceptedComponent(components, i);
  }

  lemma ReadDistinct(components: seq<Component>, parts: seq<string>)
    requires Accepted(components) && NoRepeats(parts)
    requires forall p :: p in parts ==> p in Encoded(components)
    ensures DistinctLabels(SplitComponents(parts))
  {
    AcceptedDistinct(components);
    forall i, j | 0 <= i < j < |parts| ensures SplitEquals(parts[i]).0 != SplitEquals(parts[j]).0 {
      assert parts[i] in parts && parts[j] in parts;
      var a := PartOf(components, parts[i]);
      var b := PartOf(components, parts[j]);
      assert a != b;
    }
  }

  lemma ReadSays(components: seq<Component>, parts: seq<string>, name: string, value: string)
    requires Accepted(components) && forall p :: p in parts <==> p in Encoded(components)
    ensures Says(SplitComponents(parts), name, value) <==> Says(components, name, value)
  {
    var read := SplitComponents(parts);
    forall k | 0 <= k < |read| ensures Says(components, read[k].0, Trim(read[k].1)) {
      assert parts[k] in parts;
      var i := PartOf(components, parts[k]);
      TrimIdempotent(components[i].1);
    }
    forall i | 0 <= i < |components| ensures Says(read, components[i].0, Trim(components[i].1)) {
      assert Encoded(components)[i] in parts;
      var k :| 0 <= k < |parts| && parts[k] == Encoded(components)[i];
      AcceptedComponent(components, i);
      TrimIdempotent(components[i].1);
      assert read[k] == (components[i].0, Trim(components[i].1));
    }
  }

  /** Splitting the canonical string recovers exactly the label-to-value map. */
  lemma RecoverInvertsCanonical(components: seq<Component>)
    requires Accepted(components)
    ensures Recover(Canonical(components)) == LabelMap(components)
  {
    var encoded := Encoded(components);
    var parts := Sort(Utf8AtMost, encoded);
    RearrangedMembers(parts, encoded);
    AcceptedDistinct(components);
    NoRepeatsRearranged(encoded, parts);
    var all := [FINGERPRINT_DOMAIN] + parts;
    forall k | 0 <= k < |all| ensures Unseparated(all[k]) {
      if k > 0 {
        assert all[k] in parts;
        var _ := PartOf(components, all[k]);
      }
    }
    SplitInvertsJoin(all);
    assert all[1..] == parts;
    ReadDistinct(components, parts);
    forall name, value ensures Says(SplitComponents(parts), name, value) <==> Says(components, name, value) {
      ReadSays(components, parts, name, value);
    }
    SameSayingsSameMap(SplitComponents(parts), components);
  }

  /** Two accepted lists have the same canonical string exactly when they say the same. */
  lemma CanonicalInjective(a: seq<Component>, b: seq<Component>)
    requires Accepted(a) && Accepted(b)
    ensures Canonical(a) == Canonical(b) <==> LabelMap(a) == LabelMap(b)
  {
    RecoverInvertsCanonical(a);
    RecoverInvertsCanonical(b);
    if LabelMap(a) == LabelMap(b) {
      AcceptedDistinct(a);
      AcceptedDistinct(b);
      forall p ensures p in Encoded(a) <==> p in Encoded(b) {
        if p in Encoded(a) { SameMapSameParts(a, b, p); }
        if p in Encoded(b) { SameMapSameParts(b, a, p); }
      }
      SameElements(Encoded(a), Encoded(b));
      SortPermutation(Encoded(a), Encoded(b));
    }
  }

  lemma SameMapSameParts(a: seq<Component>, b: seq<Component>, p: string)
    requires DistinctLabels(a) && DistinctLabels(b) && LabelMap(a) == LabelMap(b) && p in Encoded(a)
    ensures p in Encoded(b)
  {
    var i :| 0 <= i < |a| && Encoded(a)[i] == p;
    ValueAt(a, i);
    assert a[i].0 in LabelMap(b);
    var j :| 0 <= j < |b| && b[j].0 == a[i].0;
    ValueAt(b, j);
    assert LabelMap(a)[a[i].0] == LabelMap(b)[b[j].0];
    assert Encoded(b)[j] == p;
  }

  /** Rearranged strings sort to the same list. */
  lemma SortPermutation(xs: seq<string>, ys: seq<string>)
    requires multiset(xs) == multiset(ys)
    ensures Sort(Utf8AtMost, xs) == Sort(Utf8AtMost, ys)
  {
    SortByBytesIsSortByCodePoint(xs);
    SortByBytesIsSortByCodePoint(ys);
    CodePointOrderTotal();
    SortSorts(CodePointAtMost, xs);
    SortSorts(CodePointAtMost, ys);
    SortedUnique(CodePointAtMost, Sort(CodePointAtMost, xs), Sort(CodePointAtMost, ys));
  }

  /** A component list is valid when every component is clean on its own and no label repeats. */
  lemma AcceptedUnordered(components: seq<Component>)
    ensures Accepted(components) <==>
      && components != []
      && DistinctLabels(components)
      && forall c :: c in components ==> LabelError(c.0, 0).None? && ValueError(c.1, 0).None?
  {
    if Accepted(components) {
      AcceptedDistinct(components);
      forall c | c in components ensures LabelError(c.0, 0).None? && ValueError(c.1, 0).None? {
        var i :| 0 <= i < |components| && components[i] == c;
        assert ComponentError(components, i).None?;
      }
    }
  }

  lemma AcceptedRearranged(a: seq<Component>, b: seq<Component>)
    requires multiset(a) == multiset(b) && Accepted(a)
    ensures Accepted(b)
  {
    AcceptedUnordered(a);
    AcceptedUnordered(b);
    RearrangedMembers(a, b);
    assert b != [] by { assert a[0] in b; }
    NoRepeatsRearranged(a, b);
    forall i, j | 0 <= i < j < |b| ensures b[i].0 != b[j].0 {
      assert b[i] in a && b[j] in a;
      var x :| 0 <= x < |a| && a[x] == b[i];
      var y :| 0 <= y < |a| && a[y] == b[j];
      assert x != y;
    }
  }

  /** Acceptance and the canonical string do not depend on the order of the components. */
  lemma OrderIrrelevant(a: seq<Component>, b: seq<Component>)
    requires multiset(a) == multiset(b)
    ensures Accepted(a) <==> Accepted(b)
    ensures Accepted(a) ==> Canonical(a) == Canonical(b)
  {
    if Accepted(a) {
      AcceptedRearranged(a, b);
      AcceptedDistinct(a);
      AcceptedDistinct(b);
      RearrangedMembers(a, b);
      forall name, value ensures Says(a, name, value) <==> Says(b, name, value) {
        SameElementsSay(a, b, name, value);
      }
      SameSayingsSameMap(a, b);
      CanonicalInjective(a, b);
    } else if Accepted(b) {
      AcceptedRearranged(b, a);
    }
  }

  lemma SameElementsSay(a: seq<Component>, b: seq<Component>, name: string, value: string)
    requires forall c :: c in a <==> c in b
    ensures Says(a, name, value) <==> Says(b, name, value)
  {
    forall i | 0 <= i < |a| ensures Says(b, a[i].0, Trim(a[i].1)) {
      assert a[i] in b;
    }
    forall i | 0 <= i < |b| ensures Says(a, b[i].0, Trim(b[i].1)) {
      assert b[i] in a;
    }
  }

  /** ASCII whitespace around a value changes nothing. */
  lemma PaddingIgnored(before: string, value: string, after: string)
    requires forall i :: 0 <= i < |before| ==> IsAsciiSpace(before[i])
    requires forall i :: 0 <= i < |after| ==> IsAsciiSpace(after[i])
    ensures Trim(before + value + after) == Trim(value)
  {
    StripSurrounded(before, value, after, IsAsciiSpace);
  }

  /** A control character other than the six trimmed ones is refused wherever it stands, never removed. */
  lemma ControlNeverTrimmedAway(value: string, i: nat, index: nat)
    requires i < |value| && IsControl(value[i]) && !IsAsciiSpace(value[i])
    ensures ValueError(value, index) == Some(ControlCharacter(index))
  {
    StripKeeps(value, IsAsciiSpace, i);
    var k :| 0 <= k < |Trim(value)| && Trim(value)[k] == value[i];
  }

  predicate OnlySpace(s: string) {
    forall i :: 0 <= i < |s| ==> IsAsciiSpace(s[i])
  }

  predicate Clean(s: string) {
    forall i :: 0 <= i < |s| ==> !IsControl(s[i])
  }

  /** The value is a core free of control characters with nothing but ASCII whitespace around it. */
  ghost predicate PaddedCleanCore(value: string) {
    exists before, core, after :: value == before + core + after && OnlySpace(before) && OnlySpace(after) && Clean(core)
  }

  lemma GrowFront(first: string, inner: string, core: string, after: string)
    ensures first + (inner + core + after) == (first + inner) + core + after
  {
  }

  lemma GrowBack(before: string, core: string, inner: string, last: string)
    ensures (before + core + inner) + last == before + core + (inner + last)
  {
  }

  lemma OnlySpaceConcat(s: string, t: string)
    requires OnlySpace(s) && OnlySpace(t)
    ensures OnlySpace(s + t)
  {
  }

  /** What trimming takes away is whitespace on either side. */
  lemma {:induction false} TrimLeavesCore(value: string) returns (before: string, after: string)
    ensures value == before + Trim(value) + after && OnlySpace(before) && OnlySpace(after)
    decreases |value|
  {
    if value != "" && IsAsciiSpace(value[0]) {
      var first, rest := [value[0]], value[1..];
      var inner;
      inner, after := TrimLeavesCore(rest);
      before := first + inner;
      assert value == first + rest && Trim(value) == Trim(rest);
      GrowFront(first, inner, Trim(rest), after);
      OnlySpaceConcat(first, inner);
    } else if value != "" && IsAsciiSpace(value[|value| - 1]) {
      var last, rest := [value[|value| - 1]], value[..|value| - 1];
      var inner;
      before, inner := TrimLeavesCore(rest);
      after := inner + last;
      assert value == rest + last && Trim(value) == Trim(rest);
      GrowBack(before, Trim(rest), inner, last);
      OnlySpaceConcat(inner, last);
    } else {
      before, after := "", "";
    }
  }

  lemma TrimmedInCore(before: string, core: string, after: string)
    requires OnlySpace(before) && OnlySpace(after) && Clean(core)
    ensures Clean(Trim(before + core + after))
  {
    PaddingIgnored(before, core, after);
    var trimmed := Trim(core);
    forall k | 0 <= k < |trimmed| ensures !IsControl(trimmed[k]) {
      assert trimmed[k] in core;
    }
  }

  /** A value passes exactly when ASCII whitespace around it is all that is wrong with it. */
  lemma ValueAcceptedExactly(value: string, index: nat)
    ensures ValueError(value, index).None? <==> PaddedCleanCore(value)
  {
    assert ValueError(value, index).None? <==> Clean(Trim(value));
    if Clean(Trim(value)) {
      var before, after := TrimLeavesCore(value);
    }
    forall before, core, after | value == before + core + after && OnlySpace(before) && OnlySpace(after) && Clean(core)
      ensures Clean(Trim(value))
    {
      TrimmedInCore(before, core, after);
    }
  }

  /** The three kinds of characters, by their codes. */
  lemma CharacterClasses(c: char)
    ensures IsAsciiSpace(c) <==> 9 <= c as int <= 13 || c as int == 32
    ensures IsControl(c) <==> c as int < 32 || c as int == 127
    ensures IsLabelChar(c) <==> 33 <= c as int <= 126 && c as int != 61
  {
  }

  /** The first character that a label may not hold decides what is wrong with it. */
  lemma {:induction false} LabelFault(name: string, index: nat, k: nat)
    requires k < |name| && !IsLabelChar(name[k]) && forall i :: 0 <= i < k ==> IsLabelChar(name[i])
    ensures LabelError(name, index) == Some(if name[k] == '=' then LabelHasEquals(index) else LabelNotPrintable(index))
  {
    if k > 0 {
      assert IsLabelChar(name[0]);
      LabelFault(name[1..], index, k - 1);
    }
  }

  /**
   * What is wrong with a component, in the order of the checks: an empty label, the label's first bad
   * character, a label seen before, a control character that trimming leaves.
   */
  lemma ComponentErrorExactly(components: seq<Component>, i: nat, k: nat)
    requires i < |components|
    ensures
      var (name, value) := components[i];
      var clean := name != "" && forall j :: 0 <= j < |name| ==> IsLabelChar(name[j]);
      var repeated := exists j :: 0 <= j < i && components[j].0 == name;
      var e := ComponentError(components, i);
      && (name == "" ==> e == Some(EmptyLabel(i)))
      && (k < |name| && !IsLabelChar(name[k]) && (forall j :: 0 <= j < k ==> IsLabelChar(name[j])) ==>
            e == Some(if name[k] == '=' then LabelHasEquals(i) else LabelNotPrintable(i)))
      && (clean && repeated ==> e == Some(RepeatedLabel(i)))
      && (clean && !repeated ==> e == if PaddedCleanCore(value) then None else Some(ControlCharacter(i)))
  {
    var (name, value) := components[i];
    if k < |name| && !IsLabelChar(name[k]) && (forall j :: 0 <= j < k ==> IsLabelChar(name[j])) {
      LabelFault(name, i, k);
    }
    ValueAcceptedExactly(value, i);
  }

  /** Each part behind its separator. */
  function Separated(parts: seq<string>): string {
    if parts == [] then "" else [0x1F as char] + parts[0] + Separated(parts[1..])
  }

  lemma {:induction false} JoinSeparates(first: string, parts: seq<string>)
    ensures Join([first] + parts) == first + Separated(parts)
    decreases |parts|
  {
    if parts != [] {
      JoinSeparates(parts[0], parts[1..]);
      assert [parts[0]] + parts[1..] == parts;
      assert ([first] + parts)[1..] == parts;
    }
  }

  /** The exact text: the domain, then every `label=value` behind a separator, in ascending order. */
  lemma CanonicalExactly(components: seq<Component>, parts: seq<string>)
    requires multiset(parts) == multiset(Encoded(components)) && SortedBy(CodePointAtMost, parts)
    ensures Canonical(components) == "tamga-fingerprint-v1" + Separated(parts)
  {
    CanonicalByCodePoint(components);
    CodePointOrderTotal();
    SortSorts(CodePointAtMost, Encoded(components));
    SortedUnique(CodePointAtMost, Sort(CodePointAtMost, Encoded(components)), parts);
    JoinSeparates(FINGERPRINT_DOMAIN, parts);
  }

  /** `machine_fingerprint`, over the digest the library supplies. */
  function MachineFingerprint(components: seq<Component>, sha256Hex: bytes -> string): string {
    sha256Hex(Utf8(Canonical(components)))
  }

  predicate NoCollision(digest: bytes -> string, a: bytes, b: bytes) {
    digest(a) == digest(b) ==> a == b
  }

  /** Where the digest does not collide, fingerprints agree exactly for components that say the same. */
  lemma FingerprintIdentifies(a: seq<Component>, b: seq<Component>, sha256Hex: bytes -> string)
    requires Accepted(a) && Accepted(b)
    ensures NoCollision(sha256Hex, Utf8(Canonical(a)), Utf8(Canonical(b))) ==>
              (MachineFingerprint(a, sha256Hex) == MachineFingerprint(b, sha256Hex) <==> LabelMap(a) == LabelMap(b))
  {
    CanonicalInjective(a, b);
    if Utf8(Canonical(a)) == Utf8(Canonical(b)) {
      Utf8Injective(Canonical(a), Canonical(b));
    }
  }

  /** Sorting the parts by code point instead of by bytes gives the same canonical string. */
  lemma CanonicalByCodePoint(components: seq<Component>)
    ensures Canonical(components) == Join([FINGERPRINT_DOMAIN] + Sort(CodePointAtMost, Encoded(components)))
  {
    SortByBytesIsSortByCodePoint(Encoded(components));
  }
}
