/** Lexicographic order, and sorting by an arbitrary comparison. */
module Ordering {

  /** Strict lexicographic order; a proper prefix comes first. */
  predicate LexLess(a: seq<int>, b: seq<int>) {
    if b == [] then false
    else if a == [] then true
    else a[0] < b[0] || (a[0] == b[0] && LexLess(a[1..], b[1..]))
  }

  /** Non-strict lexicographic order. */
  predicate LexAtMost(a: seq<int>, b: seq<int>) {
    !LexLess(b, a)
  }

  lemma {:induction false} LexTrichotomy(a: seq<int>, b: seq<int>)
    ensures LexLess(a, b) ==> !LexLess(b, a) && a != b
    ensures !LexLess(a, b) && !LexLess(b, a) ==> a == b
  {
    if a != [] && b != [] {
      assert a == [a[0]] + a[1..] && b == [b[0]] + b[1..];
      LexTrichotomy(a[1..], b[1..]);
    }
  }

  lemma {:induction false} LexTransitive(a: seq<int>, b: seq<int>, c: seq<int>)
    requires LexAtMost(a, b) && LexAtMost(b, c)
    ensures LexAtMost(a, c)
  {
    if a != [] && b != [] && c != [] && a[0] == b[0] == c[0] {
      LexTransitive(a[1..], b[1..], c[1..]);
    }
  }

  /** A common prefix never decides the order. */
  lemma {:induction false} LexCommonPrefix(p: seq<int>, a: seq<int>, b: seq<int>)
    ensures LexLess(p + a, p + b) == LexLess(a, b)
  {
    if p == [] {
      assert p + a == a && p + b == b;
    } else {
      assert (p + a)[1..] == p[1..] + a && (p + b)[1..] == p[1..] + b;
      LexCommonPrefix(p[1..], a, b);
    }
  }

  /** Every earlier element is at most every later one. */
  ghost predicate SortedBy<T(!new)>(le: (T, T) -> bool, xs: seq<T>) {
    forall i, j :: 0 <= i < j < |xs| ==> le(xs[i], xs[j])
  }

  /** `le` orders any two values and is transitive. */
  ghost predicate TotalPreorder<T(!new)>(le: (T, T) -> bool) {
    && (forall x, y :: le(x, y) || le(y, x))
    && (forall x, y, z :: le(x, y) && le(y, z) ==> le(x, z))
  }

  function Insert<T>(le: (T, T) -> bool, x: T, xs: seq<T>): (r: seq<T>)
    ensures multiset(r) == multiset{x} + multiset(xs)
    ensures |r| == |xs| + 1
  {
    if xs == [] || le(x, xs[0]) then [x] + xs
    else
      assert xs == [xs[0]] + xs[1..];
      [xs[0]] + Insert(le, x, xs[1..])
  }

  /** Stable insertion sort: the specification of the library sort. */
  function Sort<T>(le: (T, T) -> bool, xs: seq<T>): (r: seq<T>)
    ensures multiset(r) == multiset(xs)
    ensures |r| == |xs|
  {
    if xs == [] then []
    else
      assert xs == [xs[0]] + xs[1..];
      Insert(le, xs[0], Sort(le, xs[1..]))
  }

  lemma {:induction false} InsertSorted<T(!new)>(le: (T, T) -> bool, x: T, xs: seq<T>)
    requires TotalPreorder(le) && SortedBy(le, xs)
    ensures SortedBy(le, Insert(le, x, xs))
  {
    if xs == [] {
    } else if le(x, xs[0]) {
      var r := Insert(le, x, xs);
      forall i, j | 0 <= i < j < |r| ensures le(r[i], r[j]) {
        if i == 0 && 1 < j { assert le(xs[0], xs[j - 1]); }
      }
    } else {
      var t := Insert(le, x, xs[1..]);
      InsertSorted(le, x, xs[1..]);
      forall j | 0 <= j < |t| ensures le(xs[0], t[j]) {
        assert t[j] in multiset(t);
        if t[j] != x {
          assert t[j] in xs[1..];
          var k :| 0 <= k < |xs[1..]| && xs[1..][k] == t[j];
          assert xs[k + 1] == t[j];
        }
      }
    }
  }

  lemma {:induction false} SortSorts<T(!new)>(le: (T, T) -> bool, xs: seq<T>)
    requires TotalPreorder(le)
    ensures SortedBy(le, Sort(le, xs))
  {
    if xs != [] {
      SortSorts(le, xs[1..]);
      InsertSorted(le, xs[0], Sort(le, xs[1..]));
    }
  }

  /** Sorting keeps exactly the members. */
  lemma SortMembers<T>(le: (T, T) -> bool, xs: seq<T>, x: T)
    ensures x in Sort(le, xs) <==> x in xs
  {
    assert x in multiset(Sort(le, xs)) <==> x in multiset(xs);
  }

  /** The least element of one arrangement opens the other too. */
  lemma SortedHeads<T(!new)>(le: (T, T) -> bool, a: seq<T>, b: seq<T>)
    requires SortedBy(le, a) && SortedBy(le, b)
    requires a != [] && b != [] && a[0] in b && b[0] in a
    requires le(a[0], b[0]) && le(b[0], a[0]) ==> a[0] == b[0]
    ensures a[0] == b[0]
  {
    var i :| 0 <= i < |b| && b[i] == a[0];
    var j :| 0 <= j < |a| && a[j] == b[0];
    if i != 0 && j != 0 {
      assert le(a[0], a[j]) && le(b[0], b[i]);
    }
  }

  /** Dropping a shared first element leaves rearrangements of each other. */
  lemma TailMultisets<T>(a: seq<T>, b: seq<T>)
    requires a != [] && b != [] && a[0] == b[0] && multiset(a) == multiset(b)
    ensures multiset(a[1..]) == multiset(b[1..])
  {
    assert a == [a[0]] + a[1..] && b == [b[0]] + b[1..];
    assert multiset(a[1..]) == multiset(a) - multiset{a[0]};
  }

  /** Two sorted arrangements of the same elements are equal when ties are genuine equalities. */
  lemma {:induction false} SortedUnique<T(!new)>(le: (T, T) -> bool, a: seq<T>, b: seq<T>)
    requires SortedBy(le, a) && SortedBy(le, b)
    requires multiset(a) == multiset(b)
    requires forall i, j :: 0 <= i < |a| && 0 <= j < |a| && le(a[i], a[j]) && le(a[j], a[i]) ==> a[i] == a[j]
    ensures a == b
  {
    if a == [] {
      assert |b| == |multiset(b)| == |multiset(a)|;
    } else {
      assert a[0] in multiset(a);
      assert b != [] && b[0] in multiset(b);
      var i :| 0 <= i < |a| && a[i] == b[0];
      SortedHeads(le, a, b);
      TailMultisets(a, b);
      assert a[1..] == b[1..] by { SortedUnique(le, a[1..], b[1..]); }
      assert a == [a[0]] + a[1..] && b == [b[0]] + b[1..];
    }
  }

  ghost predicate NoRepeats<T(!new)>(xs: seq<T>) {
    forall i, j :: 0 <= i < j < |xs| ==> xs[i] != xs[j]
  }

  lemma {:induction false} CountedOnce<T(!new)>(xs: seq<T>, x: T)
    requires NoRepeats(xs)
    ensures multiset(xs)[x] == if x in xs then 1 else 0
  {
    if xs != [] {
      assert xs == [xs[0]] + xs[1..];
      CountedOnce(xs[1..], x);
      assert x == xs[0] ==> x !in xs[1..];
    }
  }

  /** Two lists without repeats that hold the same elements are rearrangements of each other. */
  lemma SameElements<T(!new)>(xs: seq<T>, ys: seq<T>)
    requires NoRepeats(xs) && NoRepeats(ys)
    requires forall x :: x in xs <==> x in ys
    ensures multiset(xs) == multiset(ys)
  {
    forall x ensures multiset(xs)[x] == multiset(ys)[x] {
      CountedOnce(xs, x);
      CountedOnce(ys, x);
    }
  }

  lemma RepeatCounts<T>(xs: seq<T>, i: nat, j: nat)
    requires i < j < |xs| && xs[i] == xs[j]
    ensures multiset(xs)[xs[i]] >= 2
  {
    assert xs == xs[..j] + ([xs[j]] + xs[j + 1..]);
    assert xs[..j][i] == xs[i];
    assert xs[i] in xs[..j];
    assert multiset(xs) == multiset(xs[..j]) + multiset([xs[j]]) + multiset(xs[j + 1..]);
    assert xs[i] in multiset(xs[..j]);
  }

  /** Rearranging introduces no repeats. */
  lemma NoRepeatsRearranged<T(!new)>(xs: seq<T>, ys: seq<T>)
    requires multiset(xs) == multiset(ys) && NoRepeats(xs)
    ensures NoRepeats(ys)
  {
    forall i, j | 0 <= i < j < |ys| ensures ys[i] != ys[j] {
      CountedOnce(xs, ys[i]);
      if ys[i] == ys[j] {
        RepeatCounts(ys, i, j);
      }
    }
  }

  lemma RearrangedMembers<T(!new)>(xs: seq<T>, ys: seq<T>)
    requires multiset(xs) == multiset(ys)
    ensures forall x :: x in xs <==> x in ys
  {
    forall x ensures x in xs <==> x in ys {
      assert x in multiset(xs) <==> x in multiset(ys);
    }
  }

  /** Comparisons that always agree sort alike. */
  lemma {:induction false} SortAgrees<T(!new)>(le1: (T, T) -> bool, le2: (T, T) -> bool, xs: seq<T>)
    requires forall x, y :: le1(x, y) == le2(x, y)
    ensures Sort(le1, xs) == Sort(le2, xs)
  {
    if xs != [] {
      SortAgrees(le1, le2, xs[1..]);
      InsertAgrees(le1, le2, xs[0], Sort(le1, xs[1..]));
    }
  }

  lemma {:induction false} InsertAgrees<T(!new)>(le1: (T, T) -> bool, le2: (T, T) -> bool, x: T, xs: seq<T>)
    requires forall x, y :: le1(x, y) == le2(x, y)
    ensures Insert(le1, x, xs) == Insert(le2, x, xs)
  {
    if xs != [] && !le1(x, xs[0]) {
      InsertAgrees(le1, le2, x, xs[1..]);
    }
  }
}
