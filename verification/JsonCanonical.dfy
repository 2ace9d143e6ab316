/** Canonical text: printing with sorted keys identifies exactly the values that mean the same. */
module JsonCanonical {
  import opened Common
  import opened Ordering
  import opened Utf8Text
  import opened JsonText
  import opened JsonRoundTrip

  // ---------- The meaning of short objects ----------

  lemma MeaningCons(m: Member, ms: seq<Member>, acc: map<string, Value>)
    ensures MembersMeaning([m] + ms, acc) == MembersMeaning(ms, acc[m.key := Meaning(m.value)])
  {
    assert ([m] + ms)[1..] == ms;
  }

  lemma MeaningOfOne(a: Member)
    ensures Meaning(Obj([a])) == ObjValue(map[a.key := Meaning(a.value)])
  {
    MeaningCons(a, [], map[]);
    assert [a] + [] == [a];
  }

  /** The value printed last under a key: the one that a reader keeps. */
  function Printed(members: seq<Member>, key: string): Option<Json> {
    if members == [] then None
    else
      var later := Printed(members[1..], key);
      if later.Some? then later else if members[0].key == key then Some(members[0].value) else None
  }

  /** Reading an object gives, under each key, the meaning of the value printed last under it. */
  lemma {:induction false} MeaningOfKey(members: seq<Member>, acc: map<string, Value>, key: string)
    ensures
      var r := MembersMeaning(members, acc);
      match Printed(members, key)
      case Some(j) => key in r && r[key] == Meaning(j)
      case None => (key in r <==> key in acc) && (key in acc ==> r[key] == acc[key])
  {
    if members != [] {
      MeaningOfKey(members[1..], acc[members[0].key := Meaning(members[0].value)], key);
    }
  }

  /** The value printed under a key, if this is an object with that key. */
  function Part(j: Json, key: string): Option<Json> {
    if j.Obj? then Printed(j.members, key) else None
  }

  lemma PartIsMeant(j: Json, key: string)
    requires j.Obj?
    ensures key in Meaning(j).members <==> Part(j, key).Some?
    ensures key in Meaning(j).members ==> Meaning(j).members[key] == Meaning(Part(j, key).value)
  {
    MeaningOfKey(j.members, map[], key);
  }

  lemma MeaningOfTwo(a: Member, b: Member)
    ensures Meaning(Obj([a, b])) == ObjValue(map[a.key := Meaning(a.value)][b.key := Meaning(b.value)])
  {
    MeaningCons(a, [b], map[]);
    MeaningCons(b, [], map[a.key := Meaning(a.value)]);
    assert [a] + [b] == [a, b] && [b] + [] == [b];
  }

  lemma MeaningOfThree(a: Member, b: Member, c: Member)
    ensures Meaning(Obj([a, b, c]))
         == ObjValue(map[a.key := Meaning(a.value)][b.key := Meaning(b.value)][c.key := Meaning(c.value)])
  {
    var acc := map[a.key := Meaning(a.value)];
    MeaningCons(a, [b, c], map[]);
    MeaningCons(b, [c], acc);
    MeaningCons(c, [], acc[b.key := Meaning(b.value)]);
    assert [a] + [b, c] == [a, b, c] && [b] + [c] == [b, c] && [c] + [] == [c];
  }

  // ---------- Members and their map ----------

  lemma {:induction false} MemberLookup(members: seq<Member>, acc: map<string, Value>, key: string)
    requires !HasKey(members, key)
    ensures key in MembersMeaning(members, acc) <==> key in acc
    ensures key in acc ==> MembersMeaning(members, acc)[key] == acc[key]
  {
    if members != [] {
      assert members == [members[0]] + members[1..];
      HasKeyCons(members[0], members[1..], key);
      MemberLookup(members[1..], acc[members[0].key := Meaning(members[0].value)], key);
    }
  }

  /** The map of an object with distinct keys holds exactly its members. */
  lemma {:induction false} LookupMember(members: seq<Member>, acc: map<string, Value>, i: nat)
    requires DistinctMembers(members) && i < |members|
    ensures members[i].key in MembersMeaning(members, acc)
    ensures MembersMeaning(members, acc)[members[i].key] == Meaning(members[i].value)
  {
    var acc' := acc[members[0].key := Meaning(members[0].value)];
    if i == 0 {
      MemberLookup(members[1..], acc', members[0].key);
    } else {
      LookupMember(members[1..], acc', i - 1);
    }
  }

  lemma {:induction false} FindMember(members: seq<Member>, acc: map<string, Value>, key: string) returns (i: nat)
    requires key in MembersMeaning(members, acc) && key !in acc
    ensures i < |members| && members[i].key == key
  {
    if members[0].key == key {
      i := 0;
    } else {
      var k := FindMember(members[1..], acc[members[0].key := Meaning(members[0].value)], key);
      i := k + 1;
    }
  }

  lemma {:induction false} DistinctAt(members: seq<Member>, i: nat)
    requires DistinctMembers(members) && i < |members|
    ensures DistinctKeys(members[i].value)
  {
    if i > 0 {
      DistinctAt(members[1..], i - 1);
    }
  }

  lemma {:induction false} DistinctApart(members: seq<Member>, i: nat, j: nat)
    requires DistinctMembers(members) && i < j < |members|
    ensures members[i].key != members[j].key
  {
    assert members[j] == members[1..][j - 1];
    if i > 0 {
      DistinctApart(members[1..], i - 1, j - 1);
    }
  }

  lemma {:induction false} SortValuesAt(le: (string, string) -> bool, members: seq<Member>, i: nat)
    requires i < |members|
    ensures SortValues(le, members)[i] == Member(members[i].key, SortKeys(le, members[i].value))
  {
    if i > 0 {
      SortValuesAt(le, members[1..], i - 1);
    }
  }

  lemma DistinctNoRepeats(members: seq<Member>)
    requires DistinctMembers(members)
    ensures NoRepeats(members)
  {
    forall i, j | 0 <= i < j < |members| ensures members[i] != members[j] {
      DistinctApart(members, i, j);
    }
  }

  /** Values that mean the same sort to the same arrangement. */
  lemma {:induction false} SameMeaningSameSort(a: Json, b: Json)
    requires DistinctKeys(a) && DistinctKeys(b) && Meaning(a) == Meaning(b)
    ensures SortKeys(CodePointAtMost, a) == SortKeys(CodePointAtMost, b)
    decreases a, 0
  {
    match a
    case Arr(items) =>
      SameItemsSameSort(items, b.items);
    case Obj(members) =>
      var le := ByKey(CodePointAtMost);
      var x, y := SortValues(CodePointAtMost, members), SortValues(CodePointAtMost, b.members);
      SortValuesDistinct(CodePointAtMost, members);
      SortValuesDistinct(CodePointAtMost, b.members);
      assert multiset(x) == multiset(y) by {
        forall i | 0 <= i < |x| ensures x[i] in y {
          LookupMember(members, map[], i);
          var j := FindMember(b.members, map[], members[i].key);
          SameKeySameMember(members, b.members, i, j);
          assert y[j] == x[i];
        }
        forall i | 0 <= i < |y| ensures y[i] in x {
          LookupMember(b.members, map[], i);
          var j := FindMember(members, map[], b.members[i].key);
          SameKeySameMember(members, b.members, j, i);
          assert x[j] == y[i];
        }
        DistinctNoRepeats(x);
        DistinctNoRepeats(y);
        SameElements(x, y);
      }
      KeySortUnique(x, y);
    case _ =>
  }

  lemma {:induction false} SameItemsSameSort(xs: seq<Json>, ys: seq<Json>)
    requires forall i :: 0 <= i < |xs| ==> DistinctKeys(xs[i])
    requires forall i :: 0 <= i < |ys| ==> DistinctKeys(ys[i])
    requires ItemsMeaning(xs) == ItemsMeaning(ys)
    ensures SortItems(CodePointAtMost, xs) == SortItems(CodePointAtMost, ys)
    decreases xs, 1
  {
    assert |xs| == |ItemsMeaning(xs)| == |ys|;
    if xs != [] {
      assert ItemsMeaning(xs)[0] == Meaning(xs[0]) && ItemsMeaning(ys)[0] == Meaning(ys[0]);
      assert ItemsMeaning(xs)[1..] == ItemsMeaning(xs[1..]) && ItemsMeaning(ys)[1..] == ItemsMeaning(ys[1..]);
      SameMeaningSameSort(xs[0], ys[0]);
      SameItemsSameSort(xs[1..], ys[1..]);
    }
  }

  /** Members under the same key become the same sorted member. */
  lemma {:induction false} SameKeySameMember(xs: seq<Member>, ys: seq<Member>, i: nat, j: nat)
    requires DistinctMembers(xs) && DistinctMembers(ys)
    requires MembersMeaning(xs, map[]) == MembersMeaning(ys, map[])
    requires i < |xs| && j < |ys| && xs[i].key == ys[j].key
    ensures SortValues(CodePointAtMost, xs)[i] == SortValues(CodePointAtMost, ys)[j]
    decreases xs, 0
  {
    LookupMember(xs, map[], i);
    LookupMember(ys, map[], j);
    DistinctAt(xs, i);
    DistinctAt(ys, j);
    SameMeaningSameSort(xs[i].value, ys[j].value);
    SortValuesAt(CodePointAtMost, xs, i);
    SortValuesAt(CodePointAtMost, ys, j);
  }

  /** With distinct keys there is only one arrangement in key order. */
  lemma KeySortUnique(x: seq<Member>, y: seq<Member>)
    requires DistinctMembers(x) && DistinctMembers(y) && multiset(x) == multiset(y)
    ensures Sort(ByKey(CodePointAtMost), x) == Sort(ByKey(CodePointAtMost), y)
  {
    var le := ByKey(CodePointAtMost);
    CodePointOrderTotal();
    ByKeyTotal();
    SortSorts(le, x);
    SortSorts(le, y);
    var a, b := Sort(le, x), Sort(le, y);
    SortDistinct(le, x);
    forall i, j | 0 <= i < |a| && 0 <= j < |a| && le(a[i], a[j]) && le(a[j], a[i]) ensures a[i] == a[j] {
      if i < j {
        DistinctApart(a, i, j);
      } else if j < i {
        DistinctApart(a, j, i);
      }
    }
    SortedUnique(le, a, b);
  }

  lemma ByKeyTotal()
    ensures TotalPreorder(ByKey(CodePointAtMost))
  {
    CodePointOrderTotal();
    var le := ByKey(CodePointAtMost);
    forall x, y ensures le(x, y) || le(y, x) {
      assert CodePointAtMost(x.key, y.key) || CodePointAtMost(y.key, x.key);
    }
    forall x, y, z | le(x, y) && le(y, z) ensures le(x, z) {
      assert CodePointAtMost(x.key, y.key) && CodePointAtMost(y.key, z.key);
    }
  }

  /** `json.loads` of sorted text is the value's meaning. */
  lemma LoadsInvertsDumps(j: Json)
    requires DistinctKeys(j)
    ensures LoadsText(Dumps(j)) == Some(Meaning(j))
    ensures Loads(Utf8(Dumps(j))) == Some(Meaning(j))
  {
    LoadsInvertsPrint(SortKeys(CodePointAtMost, j));
    SortKeysKeepsMeaning(CodePointAtMost, j);
  }

  /** Sorted text is lossless and canonical: equal bytes exactly when the values mean the same. */
  lemma DumpsCanonical(a: Json, b: Json)
    requires DistinctKeys(a) && DistinctKeys(b)
    ensures Utf8(Dumps(a)) == Utf8(Dumps(b)) <==> Meaning(a) == Meaning(b)
  {
    LoadsInvertsDumps(a);
    LoadsInvertsDumps(b);
    if Meaning(a) == Meaning(b) {
      SameMeaningSameSort(a, b);
    }
  }

  // ---------- Byte-ordered maps print the same ----------

  lemma {:induction false} ByteOrderSortsAlike(j: Json)
    ensures SortKeys(Utf8AtMost, j) == SortKeys(CodePointAtMost, j)
    decreases j, 0
  {
    match j
    case Arr(items) =>
      ByteOrderItems(items);
    case Obj(members) =>
      ByteOrderValues(members);
      var byBytes, byCodePoint := ByKey(Utf8AtMost), ByKey(CodePointAtMost);
      forall x, y ensures byBytes(x, y) == byCodePoint(x, y) {
        Utf8OrderIsCodePointOrder(y.key, x.key);
        assert byBytes(x, y) == Utf8AtMost(x.key, y.key);
        assert byCodePoint(x, y) == CodePointAtMost(x.key, y.key);
      }
      SortAgrees(byBytes, byCodePoint, SortValues(CodePointAtMost, members));
    case _ =>
  }

  lemma {:induction false} ByteOrderItems(items: seq<Json>)
    ensures SortItems(Utf8AtMost, items) == SortItems(CodePointAtMost, items)
    decreases items, 1
  {
    if items != [] {
      ByteOrderSortsAlike(items[0]);
      ByteOrderItems(items[1..]);
    }
  }

  lemma {:induction false} ByteOrderValues(members: seq<Member>)
    ensures SortValues(Utf8AtMost, members) == SortValues(CodePointAtMost, members)
    decreases members, 1
  {
    if members != [] {
      ByteOrderSortsAlike(members[0].value);
      ByteOrderValues(members[1..]);
    }
  }

  /** Sorting keys by code point and by UTF-8 bytes print the same document, at every nesting level. */
  lemma DumpsMatchesByteOrderedMap(j: Json)
    ensures Dumps(j) == DumpsByteOrdered(j)
  {
    ByteOrderSortsAlike(j);
  }
}
