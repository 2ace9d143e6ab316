/** Keyset paging: the cursor a page of results yields, and what a walk that follows it collects. */
module Paging {
  import opened Common

  const MAX_PAGE_SIZE: int := 100

  /** The server clamps the page size it is asked for. */
  function Clamped(limit: int): (size: nat)
    ensures 1 <= size <= 100
  {
    if limit < 1 then 1 else if limit > MAX_PAGE_SIZE then MAX_PAGE_SIZE else limit
  }

  /** Rows are listed in increasing id order. */
  ghost predicate Ascending(ids: seq<nat>) {
    ids != [] ==> (forall id :: id in ids[1..] ==> ids[0] < id) && Ascending(ids[1..])
  }

  predicate Beyond(id: nat, after: Option<nat>) {
    after.None? || id > after.value
  }

  /** The ids past a cursor. */
  function Past(ids: seq<nat>, after: Option<nat>): seq<nat> {
    if ids == [] || Beyond(ids[0], after) then ids else Past(ids[1..], after)
  }

  function First(ids: seq<nat>, size: nat): seq<nat> {
    if |ids| <= size then ids else ids[..size]
  }

  /** What the server answers. */
  function Served(ids: seq<nat>, limit: int, after: Option<nat>): seq<nat> {
    First(Past(ids, after), Clamped(limit))
  }

  datatype Page = Page(items: seq<nat>, nextAfter: Option<nat>)

  /** `_next_after_cursor`. */
  function NextAfterCursor(items: seq<nat>, limit: Option<int>): Option<nat> {
    if items == [] || limit.None? || |items| < limit.value then None else Some(items[|items| - 1])
  }

  /** An absent limit is sent as the server's maximum. */
  function Effective(limit: Option<int>): int {
    if limit.Some? then limit.value else MAX_PAGE_SIZE
  }

  /** A list call. */
  function List(ids: seq<nat>, limit: Option<int>, after: Option<nat>): Page {
    var items := Served(ids, Effective(limit), after);
    Page(items, NextAfterCursor(items, Some(Effective(limit))))
  }

  datatype Walk = Walk(items: seq<nat>, requests: nat, finished: bool)

  /** How request `k` is answered, given the cursor it carries. */
  type Listing = (nat, Option<nat>) -> Page

  /** What the client sees of a server that holds `ids(k)` when request `k` arrives. */
  function Listings(ids: nat -> seq<nat>, limit: Option<int>): Listing {
    (k: nat, after: Option<nat>) => List(ids(k), limit, after)
  }

  /** Feeding `next_after` back as `after`, from request `k` on and for at most `budget` requests. */
  function WalkFrom(list: Listing, after: Option<nat>, k: nat, budget: nat): Walk
    decreases budget
  {
    if budget == 0 then Walk([], 0, false)
    else
      var page := list(k, after);
      if page.nextAfter.None? then Walk(page.items, 1, true)
      else
        var rest := WalkFrom(list, page.nextAfter, k + 1, budget - 1);
        Walk(page.items + rest.items, rest.requests + 1, rest.finished)
  }

  // ---------- One page ----------

  lemma {:induction false} PastIsSuffix(ids: seq<nat>, after: Option<nat>)
    requires Ascending(ids)
    ensures forall id :: id in Past(ids, after) <==> id in ids && Beyond(id, after)
    ensures Ascending(Past(ids, after))
  {
    if ids != [] {
      assert ids == [ids[0]] + ids[1..];
      PastIsSuffix(ids[1..], after);
    }
  }

  /** Everything in `a` is below everything in `b`. */
  ghost predicate Below(a: seq<nat>, b: seq<nat>) {
    forall x, y :: x in a && y in b ==> x < y
  }

  lemma {:induction false} AscendingJoin(a: seq<nat>, b: seq<nat>)
    requires Ascending(a) && Ascending(b) && Below(a, b)
    ensures Ascending(a + b)
  {
    if a == [] {
      assert a + b == b;
    } else {
      assert forall id :: id in a[1..] ==> id in a;
      AscendingJoin(a[1..], b);
      assert a[0] in a && (a + b)[0] == a[0] && (a + b)[1..] == a[1..] + b;
      assert forall id :: id in a[1..] + b ==> id in a[1..] || id in b;
    }
  }

  lemma {:induction false} AscendingPrefix(ids: seq<nat>, n: nat)
    requires Ascending(ids) && n <= |ids|
    ensures Ascending(ids[..n]) && Below(ids[..n], ids[n..])
  {
    if n > 0 {
      var head, rest := ids[..n], ids[1..];
      AscendingPrefix(rest, n - 1);
      assert head[0] == ids[0] && head[1..] == rest[..n - 1] && ids[n..] == rest[n - 1..];
      assert rest == rest[..n - 1] + rest[n - 1..] && head == [head[0]] + head[1..];
      assert forall id :: id in head[1..] ==> id in rest;
      assert forall id :: id in ids[n..] ==> id in rest;
    }
  }

  lemma {:induction false} LastIsLargest(ids: seq<nat>)
    requires ids != [] && Ascending(ids)
    ensures forall id :: id in ids ==> id <= ids[|ids| - 1]
  {
    assert ids == [ids[0]] + ids[1..];
    if |ids| > 1 {
      LastIsLargest(ids[1..]);
      assert ids[|ids| - 1] in ids[1..];
    }
  }

  /** A page is a faithful step of the walk: sorted rows past the cursor, and a next cursor at its last row. */
  ghost predicate Faithful(page: Page, ids: seq<nat>, after: Option<nat>) {
    && Ascending(page.items)
    && (forall id :: id in page.items ==> id in ids && Beyond(id, after))
    && (page.nextAfter.Some? ==>
          && (after.Some? ==> page.nextAfter.value > after.value)
          && (forall id :: id in page.items ==> id <= page.nextAfter.value))
  }

  /** Whatever the page leaves out lies past its next cursor. */
  ghost predicate Complete(page: Page, ids: seq<nat>, after: Option<nat>) {
    forall id :: id in ids && Beyond(id, after) && id !in page.items
      ==> page.nextAfter.Some? && Beyond(id, page.nextAfter)
  }

  lemma PageFaithful(ids: seq<nat>, limit: Option<int>, after: Option<nat>)
    requires Ascending(ids)
    ensures Faithful(List(ids, limit, after), ids, after)
  {
    PastIsSuffix(ids, after);
    var rest, items := Past(ids, after), List(ids, limit, after).items;
    AscendingPrefix(rest, |items|);
    assert items == rest[..|items|];
    if items != [] {
      LastIsLargest(items);
    }
  }

  /** A page that leaves something out is full, so it has a next cursor. */
  lemma CutPageIsFull(ids: seq<nat>, limit: Option<int>, after: Option<nat>)
    requires Effective(limit) <= MAX_PAGE_SIZE
    ensures
      var rest, page := Past(ids, after), List(ids, limit, after);
      && page.items <= rest
      && (page.items != rest ==> page.items != [] && page.nextAfter == Some(page.items[|page.items| - 1]))
  {
  }

  lemma CutIsBelow(rest: seq<nat>, n: nat, id: nat)
    requires Ascending(rest) && 0 < n <= |rest| && id in rest && id !in rest[..n]
    ensures rest[n - 1] < id
  {
    AscendingPrefix(rest, n);
    assert rest == rest[..n] + rest[n..];
    assert rest[..n][n - 1] in rest[..n];
  }

  /** The full-page test misses nothing as long as the limit is one the server does not clamp down. */
  lemma PageComplete(ids: seq<nat>, limit: Option<int>, after: Option<nat>)
    requires Ascending(ids) && Effective(limit) <= MAX_PAGE_SIZE
    ensures Complete(List(ids, limit, after), ids, after)
  {
    PastIsSuffix(ids, after);
    CutPageIsFull(ids, limit, after);
    var rest, page := Past(ids, after), List(ids, limit, after);
    forall id | id in ids && Beyond(id, after) && id !in page.items
      ensures page.nextAfter.Some? && Beyond(id, page.nextAfter)
    {
      assert page.items == rest[..|page.items|];
      CutIsBelow(rest, |page.items|, id);
    }
  }

  // ---------- Whole walks, while others insert and delete ----------

  /** The id was listed when one of `n` requests from `k` on arrived. */
  ghost predicate WasListed(ids: nat -> seq<nat>, id: nat, k: nat, n: nat) {
    exists j :: k <= j < k + n && id in ids(j)
  }

  /** What a walk collects: each id once, in order, past the cursor, and listed at the time. */
  ghost predicate Collects(items: seq<nat>, ids: nat -> seq<nat>, after: Option<nat>, k: nat, n: nat) {
    Ascending(items) && forall id :: id in items ==> Beyond(id, after) && WasListed(ids, id, k, n)
  }

  lemma CollectsOnePage(page: Page, ids: nat -> seq<nat>, after: Option<nat>, k: nat)
    requires Faithful(page, ids(k), after)
    ensures Collects(page.items, ids, after, k, 1)
  {
    forall id | id in page.items ensures WasListed(ids, id, k, 1) {
      assert id in ids(k);
    }
  }

  lemma CollectsMore(page: Page, rest: seq<nat>, ids: nat -> seq<nat>, after: Option<nat>, k: nat, n: nat)
    requires Faithful(page, ids(k), after) && page.nextAfter.Some? && Collects(rest, ids, page.nextAfter, k + 1, n)
    ensures Collects(page.items + rest, ids, after, k, n + 1)
  {
    AscendingJoin(page.items, rest);
    forall id | id in page.items + rest ensures Beyond(id, after) && WasListed(ids, id, k, n + 1) {
      if id in page.items {
        assert id in ids(k);
      } else {
        assert WasListed(ids, id, k + 1, n);
      }
    }
  }

  /** A walk never repeats an id and never goes back, whatever is inserted or deleted between its requests. */
  lemma {:induction false} WalkAscends(list: Listing, ids: nat -> seq<nat>, after: Option<nat>, k: nat, budget: nat)
    requires forall j, a :: Faithful(list(j, a), ids(j), a)
    ensures
      var walk := WalkFrom(list, after, k, budget);
      Collects(walk.items, ids, after, k, walk.requests) && walk.requests <= budget
    decreases budget
  {
    if budget > 0 {
      var page := list(k, after);
      assert Faithful(page, ids(k), after);
      if page.nextAfter.Some? {
        WalkAscends(list, ids, page.nextAfter, k + 1, budget - 1);
        var rest := WalkFrom(list, page.nextAfter, k + 1, budget - 1);
        CollectsMore(page, rest.items, ids, after, k, rest.requests);
      } else {
        CollectsOnePage(page, ids, after, k);
      }
    }
  }

  /** A finished walk over complete pages has every id that was there throughout. */
  lemma {:induction false} WalkMissesNothing(list: Listing, ids: nat -> seq<nat>, after: Option<nat>, k: nat,
                                             budget: nat, id: nat)
    requires forall j, a :: Complete(list(j, a), ids(j), a)
    requires WalkFrom(list, after, k, budget).finished && Beyond(id, after)
    requires forall j :: k <= j < k + WalkFrom(list, after, k, budget).requests ==> id in ids(j)
    ensures id in WalkFrom(list, after, k, budget).items
    decreases budget
  {
    var page := list(k, after);
    assert Complete(page, ids(k), after);
    if id !in page.items {
      WalkMissesNothing(list, ids, page.nextAfter, k + 1, budget - 1, id);
    }
  }

  /**
   * Under any insertions and deletions between the requests: a walk yields ids in strictly increasing
   * order, only ids that were listed, and, with a limit the server does not clamp down, every id that
   * was there from its first request to its last.
   */
  lemma WalkUnderChange(ids: nat -> seq<nat>, limit: Option<int>, budget: nat)
    requires forall k :: Ascending(ids(k))
    ensures
      var walk := WalkFrom(Listings(ids, limit), None, 0, budget);
      && Ascending(walk.items) && walk.requests <= budget
      && (forall id :: id in walk.items ==> exists k :: 0 <= k < walk.requests && id in ids(k))
      && (walk.finished && Effective(limit) <= MAX_PAGE_SIZE ==>
            forall id :: (forall k :: 0 <= k < walk.requests ==> id in ids(k)) ==> id in walk.items)
  {
    var list := Listings(ids, limit);
    forall j: nat, a: Option<nat> ensures Faithful(list(j, a), ids(j), a) {
      PageFaithful(ids(j), limit, a);
    }
    WalkAscends(list, ids, None, 0, budget);
    var walk := WalkFrom(list, None, 0, budget);
    forall id | id in walk.items ensures exists k :: 0 <= k < walk.requests && id in ids(k) {
      assert WasListed(ids, id, 0, walk.requests);
    }
    if walk.finished && Effective(limit) <= MAX_PAGE_SIZE {
      forall j: nat, a: Option<nat> ensures Complete(list(j, a), ids(j), a) {
        PageComplete(ids(j), limit, a);
      }
      forall id: nat | forall k :: 0 <= k < walk.requests ==> id in ids(k) ensures id in walk.items {
        WalkMissesNothing(list, ids, None, 0, budget, id);
      }
    }
  }

  // ---------- Whole walks over unchanging rows ----------

  /** How many requests a walk over `n` unchanging rows makes. */
  function Requests(n: nat, limit: int): nat {
    if limit > MAX_PAGE_SIZE then 1 else n / Clamped(limit) + 1
  }

  /** The cursor that stands after the first `from` rows. */
  function CursorAt(ids: seq<nat>, from: nat): Option<nat>
    requires from <= |ids|
  {
    if from == 0 then None else Some(ids[from - 1])
  }

  lemma {:induction false} PastAt(ids: seq<nat>, from: nat)
    requires Ascending(ids) && from <= |ids|
    ensures Past(ids, CursorAt(ids, from)) == ids[from..]
  {
    if from == 1 {
      assert ids[1..] == [] || ids[1] in ids[1..];
    } else if from > 1 {
      assert ids[from - 1] in ids[1..];
      assert ids[1..][from - 2] == ids[from - 1] && ids[1..][from - 1..] == ids[from..];
      PastAt(ids[1..], from - 1);
    }
  }

  lemma NonzeroMultiple(k: int, d: int)
    requires d > 0 && k != 0
    ensures k * d >= d || k * d <= -d
  {
    if k > 0 {
      assert (k - 1) * d >= 0;
    } else {
      assert (-k - 1) * d >= 0;
    }
  }

  /** `d` goes into `n` once more than into `n - d`. */
  lemma DivStep(n: int, d: int)
    requires d > 0
    ensures n / d == (n - d) / d + 1
  {
    var p, q := n / d, (n - d) / d;
    assert n == p * d + n % d && n - d == q * d + (n - d) % d;
    assert (p - q - 1) * d == p * d - q * d - d;
    if p - q - 1 != 0 {
      NonzeroMultiple(p - q - 1, d);
    }
  }

  /** The pages from row `i` on, `size` rows each. */
  function PageFrom(ids: seq<nat>, size: nat, i: nat): Page
    requires i <= |ids|
  {
    if i + size <= |ids| then Page(ids[i..i + size], CursorAt(ids, i + size)) else Page(ids[i..], None)
  }

  lemma FirstFrom(ids: seq<nat>, from: nat, size: nat)
    requires from <= |ids|
    ensures First(ids[from..], size) == if from + size <= |ids| then ids[from..from + size] else ids[from..]
  {
  }

  lemma SliceLast(ids: seq<nat>, from: nat, size: nat)
    requires size > 0 && from + size <= |ids|
    ensures |ids[from..from + size]| == size && ids[from..from + size][size - 1] == ids[from + size - 1]
  {
  }

  lemma CursorOfPage(items: seq<nat>, limit: int)
    requires limit <= MAX_PAGE_SIZE && |items| <= Clamped(limit)
    ensures NextAfterCursor(items, Some(limit))
         == if |items| < Clamped(limit) then None else Some(items[|items| - 1])
  {
  }

  /** A page that starts at row `from` is full and leads to row `from + size`, or is the last one. */
  lemma PageAt(ids: seq<nat>, limit: Option<int>, from: nat)
    requires Ascending(ids) && from <= |ids| && Effective(limit) <= MAX_PAGE_SIZE
    ensures List(ids, limit, CursorAt(ids, from)) == PageFrom(ids, Clamped(Effective(limit)), from)
  {
    var size := Clamped(Effective(limit));
    PastAt(ids, from);
    FirstFrom(ids, from, size);
    CursorOfPage(First(ids[from..], size), Effective(limit));
    if from + size <= |ids| {
      SliceLast(ids, from, size);
    }
  }

  /** Asked for more than a page may hold, the server answers with less, which reads as the end. */
  lemma OversizedPage(ids: seq<nat>, limit: Option<int>)
    requires Effective(limit) > MAX_PAGE_SIZE
    ensures List(ids, limit, None) == Page(First(ids, MAX_PAGE_SIZE), None)
  {
  }

  lemma {:induction false} WalkFromRow(list: Listing, ids: seq<nat>, size: nat, from: nat, k: nat, budget: nat,
                                       left: nat)
    requires from <= |ids| && size > 0 && left == (|ids| - from) / size && budget > left
    requires forall j, i :: 0 <= i <= |ids| ==> list(j, CursorAt(ids, i)) == PageFrom(ids, size, i)
    ensures WalkFrom(list, CursorAt(ids, from), k, budget) == Walk(ids[from..], left + 1, true)
    decreases budget
  {
    assert list(k, CursorAt(ids, from)) == PageFrom(ids, size, from);
    if from + size <= |ids| {
      DivStep(|ids| - from, size);
      WalkFromRow(list, ids, size, from + size, k + 1, budget - 1, left - 1);
      assert ids[from..] == ids[from..from + size] + ids[from + size..];
    }
  }

  /**
   * Over unchanging rows and for every limit: the walk ends after exactly `Requests` requests, and it
   * is complete precisely when the limit or the list is no longer than a page may be.
   */
  lemma WalkIsComplete(ids: seq<nat>, limit: Option<int>, budget: nat)
    requires Ascending(ids) && budget >= Requests(|ids|, Effective(limit))
    ensures
      var walk := WalkFrom(Listings(_ => ids, limit), None, 0, budget);
      && walk.finished && walk.requests == Requests(|ids|, Effective(limit))
      && walk.items == (if Effective(limit) <= MAX_PAGE_SIZE then ids else First(ids, MAX_PAGE_SIZE))
      && (walk.items == ids <==> Effective(limit) <= MAX_PAGE_SIZE || |ids| <= MAX_PAGE_SIZE)
  {
    var list := Listings(_ => ids, limit);
    if Effective(limit) <= MAX_PAGE_SIZE {
      var size := Clamped(Effective(limit));
      forall j: nat, i | 0 <= i <= |ids| ensures list(j, CursorAt(ids, i)) == PageFrom(ids, size, i) {
        PageAt(ids, limit, i);
      }
      WalkFromRow(list, ids, size, 0, 0, budget, |ids| / size);
    } else {
      OversizedPage(ids, limit);
      assert list(0, None) == List(ids, limit, None);
    }
  }
}
