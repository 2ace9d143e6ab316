/** What activation promises, over every environment: rollback ownership, conservation, bounded search, idempotence. */
module ActivationTheorems {
  import opened Common
  import opened MachineServer
  import opened ActivationFleet
  import opened Activation

  /** The requests one operation sent. */
  function Issued(before: World, after: World): seq<Call>
    requires before.calls <= after.calls
  {
    after.calls[|before.calls|..]
  }

  lemma IssuedConcat(w: World, mid: World, after: World)
    requires w.calls <= mid.calls <= after.calls
    ensures Issued(w, after) == Issued(w, mid) + Issued(mid, after)
  {
  }

  // ---------- activate_machine ----------

  /**
   * What the reply to the create decides: a lost one and a conflict end the call with their own errors, a
   * limit ends it with that limit's code and nothing rolled back, and only a created row goes on.
   */
  predicate FollowsCreate(created: Option<CreateReply>, outcome: Outcome) {
    match created
    case None => outcome == Err(CallFailed)
    case Some(Taken(machineId)) => outcome == Err(FingerprintTaken(machineId))
    case Some(LimitExceeded(Machines)) => outcome == Err(OverLimit(TooManyMachines, false))
    case Some(LimitExceeded(Cores)) => outcome == Err(OverLimit(TooManyCores, false))
    case Some(LimitExceeded(Memory)) => outcome == Err(OverLimit(TooMuchMemory, false))
    case Some(LimitExceeded(Disk)) => outcome == Err(OverLimit(TooMuchDisk, false))
    case Some(Created(row)) =>
      outcome == Ok(row) || outcome == Err(CallFailed)
        || (outcome.Err? && outcome.error.OverLimit? && outcome.error.rolledBack)
  }

  /**
   * What the later replies decide once there is a row: a lost validation is a failure, a code outside the
   * five over-limit ones returns the row, and one of the five is reported exactly when the delete was
   * answered and found the row.
   */
  predicate FollowsRow(row: Row, verdict: Option<ValidationCode>, deleted: Option<bool>, outcome: Outcome) {
    match verdict
    case None => outcome == Err(CallFailed)
    case Some(code) =>
      if code !in {TooManyMachines, TooManyCores, TooMuchMemory, TooMuchDisk, TooManyProcesses} then outcome == Ok(row)
      else if deleted == Some(true) then outcome == Err(OverLimit(code, true))
      else outcome == Err(CallFailed)
  }

  /** The outcome for every combination of replies. */
  lemma RepliesDecide(env: Env, w: World, license: nat, fingerprint: string, usage: Usage)
    ensures
      var (w1, created) := CallCreate(env, w, license, fingerprint, usage);
      var outcome := Activate(env, w, license, fingerprint, usage).1;
      && FollowsCreate(created, outcome)
      && (created.Some? && created.value.Created? ==>
            var row := created.value.row;
            var (w2, verdict) := CallValidate(env, w1, license);
            FollowsRow(row, verdict, CallDelete(env, w2, row.id).1, outcome))
  {
  }

  /**
   * In every environment: a DELETE goes out only after this very call's create returned a row, only
   * for that row's id, and at most once; `rolled_back` says whether a row had been created.
   */
  lemma RollbackOwnership(env: Env, w: World, license: nat, fingerprint: string, usage: Usage)
    ensures
      var created := CallCreate(env, w, license, fingerprint, usage).1;
      var (after, outcome) := Activate(env, w, license, fingerprint, usage);
      && w.calls <= after.calls
      && var issued := Issued(w, after);
      && (if created.Some? && created.value.Created? then
            var id := created.value.row.id;
            || issued == [CreateCall(license, fingerprint), ValidateCall(license)]
            || issued == [CreateCall(license, fingerprint), ValidateCall(license), DeleteCall(id)]
          else issued == [CreateCall(license, fingerprint)])
      && FollowsCreate(created, outcome)
      && (outcome.Ok? ==> created == Some(Created(outcome.value)) && |issued| == 2)
      && (outcome.Err? && outcome.error.OverLimit? ==>
            && IsOverLimit(outcome.error.code)
            && (outcome.error.rolledBack <==> created.value.Created?)
            && (outcome.error.rolledBack ==> |issued| == 3))
  {
  }

  /** Nobody else touches the server. */
  ghost predicate Alone(env: Env) {
    forall k :: env.others(k) == []
  }

  /** Alone: an over-limit or conflict outcome leaves the rows as they were, a return adds exactly its row. */
  lemma Conservation(env: Env, w: World, license: nat, fingerprint: string, usage: Usage)
    requires Alone(env) && WellFormed(w.server)
    ensures
      var (after, outcome) := Activate(env, w, license, fingerprint, usage);
      var rows := after.server.rows;
      match outcome
      case Ok(row) => rows == w.server.rows + [row]
      case Err(CallFailed) => rows == w.server.rows || exists row :: rows == w.server.rows + [row]
      case Err(_) => rows == w.server.rows
  {
    var s := w.server;
    var (s', reply) := Create(env.cfg, s, license, fingerprint, usage);
    if reply.Created? {
      DeleteUndoesCreate(env.cfg, s, license, fingerprint, usage);
      assert s'.rows == s.rows + [reply.row];
    }
  }

  // ---------- What others cannot do ----------

  /** From `s` to `t`, rows with old ids are old rows: ids are never reused. */
  ghost predicate OldIdsOldRows(s: ServerState, t: ServerState) {
    s.nextId <= t.nextId && forall row :: row in t.rows && row.id < s.nextId ==> row in s.rows
  }

  lemma {:induction false} OthersKeepIds(cfg: Config, s: ServerState, actions: seq<OtherAction>)
    requires WellFormed(s)
    ensures WellFormed(ActAll(cfg, s, actions)) && OldIdsOldRows(s, ActAll(cfg, s, actions))
    decreases |actions|
  {
    if actions != [] {
      var t := Act(cfg, s, actions[0]);
      match actions[0] {
        case OtherCreate(license, fingerprint, usage) => CreateKeepsWellFormed(cfg, s, license, fingerprint, usage);
        case OtherDelete(id) => DeleteKeepsWellFormed(s, id);
      }
      OthersKeepIds(cfg, t, actions[1..]);
    }
  }

  lemma ArrivalKeepsIds(env: Env, w: World)
    requires WellFormed(w.server)
    ensures WellFormed(Arrival(env, w)) && OldIdsOldRows(w.server, Arrival(env, w))
  {
    OthersKeepIds(env.cfg, w.server, env.others(|w.calls|));
  }

  // ---------- activate_machine under interference ----------

  /** Row ids grow with time, so a new row's id is no older row's. */
  lemma NewIdIsNew(env: Env, w: World, license: nat, fingerprint: string, usage: Usage)
    requires WellFormed(w.server)
    ensures
      var (w1, reply) := CallCreate(env, w, license, fingerprint, usage);
      && WellFormed(w1.server)
      && (reply.Some? && reply.value.Created? ==>
            && reply.value.row.id >= w.server.nextId
            && w1.server.rows == Arrival(env, w).rows + [reply.value.row])
      && (reply.Some? && !reply.value.Created? ==> w1.server == Arrival(env, w))
  {
    ArrivalKeepsIds(env, w);
    CreateKeepsWellFormed(env.cfg, Arrival(env, w), license, fingerprint, usage);
  }

  /**
   * Whatever others do, the call's own footprint: a return adds exactly one row, under an id nobody had,
   * and its validation changes nothing; a refusal changes nothing; after a rollback no row carries the
   * created id, and no other row was taken away.
   */
  lemma Footprint(env: Env, w: World, license: nat, fingerprint: string, usage: Usage)
    requires WellFormed(w.server)
    ensures
      var (w1, created) := CallCreate(env, w, license, fingerprint, usage);
      var (after, outcome) := Activate(env, w, license, fingerprint, usage);
      match outcome
      case Ok(row) =>
        && row.id >= w.server.nextId && w1.server.rows == Arrival(env, w).rows + [row]
        && after.server == Arrival(env, w1)
      case Err(FingerprintTaken(_)) => after.server == Arrival(env, w)
      case Err(OverLimit(_, false)) => after.server == Arrival(env, w)
      case Err(OverLimit(_, true)) =>
        && created.Some? && created.value.Created? && created.value.row.id >= w.server.nextId
        && (forall row :: row in after.server.rows ==> row.id != created.value.row.id)
        && var w2 := CallValidate(env, w1, license).0;
        && forall row :: row in Arrival(env, w2).rows && row.id != created.value.row.id ==> row in after.server.rows
      case Err(_) => true
  {
    NewIdIsNew(env, w, license, fingerprint, usage);
  }

  /** The list route tells the truth. */
  ghost predicate HonestList(env: Env) {
    HonestListFrom(env, 0)
  }

  ghost predicate HonestListFrom(env: Env, k: nat) {
    forall j, s, license, term, n :: j >= k
      ==> env.pages(j, s, license, term, n) == HonestPage(env, s, license, term, n)
  }

  // ---------- find_by_fingerprint ----------

  /** Every fetch is one list request. */
  ghost predicate LogsEachPage(fetch: Fetch) {
    forall w: World, n: PageNumber :: fetch(w, n).0.calls == w.calls + [ListCall(n)]
  }

  /** Pages are asked for one after the other, from `number` on. */
  ghost predicate AsksInOrder(issued: seq<Call>, number: PageNumber) {
    forall i :: 0 <= i < |issued| ==> issued[i] == ListCall(number + i)
  }

  /** Against any server at all: at most `left` requests, all of them lists, and only an exact match is returned. */
  lemma {:induction false} SearchBounded(fetch: Fetch, w: World, fingerprint: string, number: PageNumber, left: nat)
    requires LogsEachPage(fetch)
    ensures
      var (after, found) := SearchPages(fetch, w, fingerprint, number, left);
      && w.calls <= after.calls && |after.calls| <= |w.calls| + left
      && AsksInOrder(Issued(w, after), number)
      && (found.Found? ==> found.row.fingerprint == fingerprint)
    decreases left
  {
    if left > 0 {
      var (w1, reply) := fetch(w, number);
      SearchBounded(fetch, w1, fingerprint, number + 1, left - 1);
      IssuedConcat(w, w1, SearchPages(fetch, w, fingerprint, number, left).0);
    }
  }

  /**
   * What `find_by_fingerprint` may do, whatever the server answers: list pages 1, 2, ... up to `maxPages`
   * of them, an exact match or none.
   */
  lemma FindIsBounded(env: Env, w: World, license: nat, fingerprint: string, maxPages: nat)
    ensures
      var (after, found) := FindByFingerprint(env, w, license, fingerprint, maxPages);
      && w.calls <= after.calls && |after.calls| <= |w.calls| + maxPages
      && AsksInOrder(Issued(w, after), 1)
      && (found.Found? ==> found.row.fingerprint == fingerprint)
  {
    SearchBounded(Pages(env, license, fingerprint), w, fingerprint, 1, maxPages);
  }

  /**
   * What one page decides: a failed request raises, the first exact match is found, and without one the
   * search ends with an empty page or the last one, and only then.
   */
  lemma {:induction false} JudgeExactly(reply: Option<OffsetPage>, fingerprint: string)
    ensures
      match reply
      case None => Judge(reply, fingerprint) == Some(Raised)
      case Some(page) =>
        && (forall i :: 0 <= i < |page.items| && page.items[i].fingerprint == fingerprint
                        && (forall j :: 0 <= j < i ==> page.items[j].fingerprint != fingerprint)
              ==> Judge(reply, fingerprint) == Some(Found(page.items[i])))
        && ((forall row :: row in page.items ==> row.fingerprint != fingerprint) ==>
              Judge(reply, fingerprint)
                == if page.items == [] || page.number >= page.totalPages then Some(NotFound) else None)
  {
    if reply.Some? {
      ExactIsExact(reply.value.items, fingerprint);
      ExactIsFirst(reply.value.items, fingerprint);
    }
  }

  lemma {:induction false} ExactIsFirst(items: seq<Row>, fingerprint: string)
    ensures forall i :: 0 <= i < |items| && items[i].fingerprint == fingerprint
                        && (forall j :: 0 <= j < i ==> items[j].fingerprint != fingerprint)
              ==> Exact(items, fingerprint) == Some(items[i])
  {
    if items != [] && items[0].fingerprint != fingerprint {
      ExactIsFirst(items[1..], fingerprint);
      forall i | 0 <= i < |items| && items[i].fingerprint == fingerprint
                 && (forall j :: 0 <= j < i ==> items[j].fingerprint != fingerprint)
        ensures Exact(items, fingerprint) == Some(items[i])
      {
        assert items[i] == items[1..][i - 1];
        assert forall j :: 0 <= j < i - 1 ==> items[1..][j] == items[j + 1];
      }
    }
  }

  /** A blank fingerprint, one of whitespace alone, is refused before anything is sent; no other is. */
  lemma BlankExactly(env: Env, w: World, license: nat, fingerprint: string, maxPages: nat)
    ensures
      var (after, found) := FindByFingerprint(env, w, license, fingerprint, maxPages);
      if forall i :: 0 <= i < |fingerprint| ==> IsPySpace(fingerprint[i]) then after == w && found == Blank
      else
        found != Blank && (after, found) == SearchPages(Pages(env, license, fingerprint), w, fingerprint, 1, maxPages)
  {
    if forall i :: 0 <= i < |fingerprint| ==> IsPySpace(fingerprint[i]) {
      StripAll(fingerprint, IsPySpace);
    } else {
      var i :| 0 <= i < |fingerprint| && !IsPySpace(fingerprint[i]);
      StripKeeps(fingerprint, IsPySpace, i);
      SearchNeverBlank(Pages(env, license, fingerprint), w, fingerprint, 1, maxPages);
    }
  }

  lemma {:induction false} SearchNeverBlank(fetch: Fetch, w: World, fingerprint: string, number: PageNumber, left: nat)
    ensures SearchPages(fetch, w, fingerprint, number, left).1 != Blank
    decreases left
  {
    if left > 0 {
      SearchNeverBlank(fetch, fetch(w, number).0, fingerprint, number + 1, left - 1);
    }
  }

  /** Every page shows rows of this license that the server holds. */
  ghost predicate ShowsOwnRows(fetch: Fetch, license: nat) {
    forall w: World, n: PageNumber :: fetch(w, n).1.Some? ==>
      forall row :: row in fetch(w, n).1.value.items ==> row.license == license && row in fetch(w, n).0.server.rows
  }

  lemma HonestPagesShowOwnRows(env: Env, license: nat, term: string)
    requires HonestList(env)
    ensures ShowsOwnRows(Pages(env, license, term), license)
  {
    forall w: World, n: PageNumber {
      PageItemsListed(Listed(env, CallList(env, w, license, term, n).0.server.rows, license, term), n);
    }
  }

  /** Whatever others do between pages, such a list only ever yields this license's machine. */
  lemma {:induction false} SearchStaysOnLicense(fetch: Fetch, w: World, license: nat, fingerprint: string,
                                                number: PageNumber, left: nat)
    requires ShowsOwnRows(fetch, license)
    ensures
      var (after, found) := SearchPages(fetch, w, fingerprint, number, left);
      found.Found? ==>
        found.row.license == license && found.row.fingerprint == fingerprint && found.row in after.server.rows
    decreases left
  {
    if left > 0 {
      SearchStaysOnLicense(fetch, fetch(w, number).0, license, fingerprint, number + 1, left - 1);
    }
  }

  lemma PageItemsListed(listed: seq<Row>, number: PageNumber)
    ensures forall row :: row in PageItems(listed, number) ==> row in listed
  {
  }

  /** Nothing happens but this client's own calls, from call `k` on. */
  ghost predicate UndisturbedFrom(env: Env, k: nat) {
    HonestListFrom(env, k) && forall j :: j >= k ==> env.others(j) == [] && env.faults(j).NoFault?
  }

  lemma {:induction false} ExactConcat(a: seq<Row>, b: seq<Row>, fingerprint: string)
    ensures Exact(a + b, fingerprint) == if Exact(a, fingerprint).Some? then Exact(a, fingerprint)
        else Exact(b, fingerprint)
  {
    if a == [] {
      assert a + b == b;
    } else {
      assert (a + b)[1..] == a[1..] + b;
      ExactConcat(a[1..], b, fingerprint);
    }
  }

  function Min(a: nat, b: nat): nat {
    if a <= b then a else b
  }

  function AsResult(r: Option<Row>): SearchResult {
    match r
    case None => NotFound
    case Some(row) => Found(row)
  }

  /** The listed rows pages `number` to `number + left - 1` show. */
  function Window(listed: seq<Row>, number: PageNumber, left: nat): seq<Row>
  {
    listed[Min((number - 1) * MAX_PAGE_SIZE, |listed|)..Min((number - 1 + left) * MAX_PAGE_SIZE, |listed|)]
  }

  /** A window is its first page and the pages after it, and after a last page there is nothing. */
  lemma WindowSplit(listed: seq<Row>, number: PageNumber, left: nat)
    requires left > 0
    ensures Window(listed, number, left) == PageItems(listed, number) + Window(listed, number + 1, left - 1)
    ensures PageItems(listed, number) == [] || number >= PageCount(|listed|)
            ==> Window(listed, number, left) == PageItems(listed, number)
  {
  }

  /** The pages of an unchanging list. */
  function TruePages(listed: seq<Row>): PageNumber -> OffsetPage {
    (n: PageNumber) => OffsetPage(PageItems(listed, n), n, PageCount(|listed|))
  }

  /** What the page loop makes of pages that do not change. */
  function Scan(page: PageNumber -> OffsetPage, fingerprint: string, number: PageNumber, left: nat): SearchResult
    decreases left
  {
    if left == 0 then NotFound
    else
      match Judge(Some(page(number)), fingerprint)
      case Some(result) => result
      case None => Scan(page, fingerprint, number + 1, left - 1)
  }

  /** From call `k` on the server stays as it is and answers every fetch with `page`. */
  ghost predicate ServesPages(fetch: Fetch, server: ServerState, page: PageNumber -> OffsetPage, k: nat) {
    forall w: World, n: PageNumber :: w.server == server && |w.calls| >= k ==>
      fetch(w, n).0.server == server && |fetch(w, n).0.calls| == |w.calls| + 1 && fetch(w, n).1 == Some(page(n))
  }

  lemma UndisturbedServesPages(env: Env, w: World, license: nat, term: string)
    requires UndisturbedFrom(env, |w.calls|)
    ensures ServesPages(Pages(env, license, term), w.server, TruePages(Listed(env, w.server.rows, license, term)),
        |w.calls|)
  {
  }

  lemma {:induction false} SearchScans(fetch: Fetch, w: World, page: PageNumber -> OffsetPage, fingerprint: string,
                                       number: PageNumber, left: nat)
    requires ServesPages(fetch, w.server, page, |w.calls|)
    ensures
      var (after, found) := SearchPages(fetch, w, fingerprint, number, left);
      after.server == w.server && found == Scan(page, fingerprint, number, left)
    decreases left
  {
    if left > 0 {
      var (w1, reply) := fetch(w, number);
      if Judge(reply, fingerprint).None? {
        SearchScans(fetch, w1, page, fingerprint, number + 1, left - 1);
      }
    }
  }

  /** What one true page decides about the window that starts with it. */
  lemma ScanStep(listed: seq<Row>, fingerprint: string, number: PageNumber, left: nat)
    requires left > 0
    ensures
      AsResult(Exact(Window(listed, number, left), fingerprint))
        == match Judge(Some(TruePages(listed)(number)), fingerprint)
           case Some(result) => result
           case None => AsResult(Exact(Window(listed, number + 1, left - 1), fingerprint))
  {
    WindowSplit(listed, number, left);
    ExactConcat(PageItems(listed, number), Window(listed, number + 1, left - 1), fingerprint);
  }

  /** Scanning true pages finds the first exact match among the listed rows they show, or nothing. */
  lemma {:induction false} ScanExact(listed: seq<Row>, fingerprint: string, number: PageNumber, left: nat)
    ensures Scan(TruePages(listed), fingerprint, number, left)
        == AsResult(Exact(Window(listed, number, left), fingerprint))
    decreases left
  {
    if left > 0 {
      ScanStep(listed, fingerprint, number, left);
      ScanExact(listed, fingerprint, number + 1, left - 1);
    }
  }

  /** So it answers `None` exactly when no listed row within the first `maxPages` pages matches. */
  lemma FindIsComplete(env: Env, w: World, license: nat, fingerprint: string, maxPages: nat)
    requires UndisturbedFrom(env, |w.calls|) && !IsBlank(fingerprint)
    ensures
      var listed := Listed(env, w.server.rows, license, fingerprint);
      var shown := listed[..Min(maxPages * 100, |listed|)];
      var (after, found) := FindByFingerprint(env, w, license, fingerprint, maxPages);
      && after.server == w.server
      && (found.NotFound? <==> forall row :: row in shown ==> row.fingerprint != fingerprint)
      && (found.Found? <==> exists row :: row in shown && row.fingerprint == fingerprint)
      && (found.Found? ==> found.row in shown && found.row.fingerprint == fingerprint)
  {
    var listed := Listed(env, w.server.rows, license, fingerprint);
    UndisturbedServesPages(env, w, license, fingerprint);
    SearchScans(Pages(env, license, fingerprint), w, TruePages(listed), fingerprint, 1, maxPages);
    ScanExact(listed, fingerprint, 1, maxPages);
    ExactIsExact(Window(listed, 1, maxPages), fingerprint);
    assert Window(listed, 1, maxPages) == listed[..Min(maxPages * 100, |listed|)];
  }

  // ---------- activate_machine_idempotent ----------

  /** The machine a conflict names is this license's, and its id cannot come to mean another row. */
  lemma NamedMachine(env: Env, w: World, license: nat, fingerprint: string, usage: Usage)
    requires WellFormed(w.server)
    ensures
      var (w1, reply) := CallCreate(env, w, license, fingerprint, usage);
      && WellFormed(w1.server) && OldIdsOldRows(w.server, w1.server)
      && (reply.Some? && reply.value.Taken? && reply.value.machineId.Some? ==>
            exists row :: row in w1.server.rows && row.id == reply.value.machineId.value
                          && row.license == license && row.fingerprint == fingerprint)
      && (reply.Some? && reply.value.Created? ==> reply.value.row.id >= w.server.nextId)
  {
    ArrivalKeepsIds(env, w);
    CreateKeepsWellFormed(env.cfg, Arrival(env, w), license, fingerprint, usage);
    var own := OwnRow(Arrival(env, w).rows, license, fingerprint);
    if own.Some? {
      assert own.value in Arrival(env, w).rows;
    }
  }

  lemma ResolveStaysOnLicense(env: Env, w: World, machineId: Option<nat>, license: nat, fingerprint: string)
    requires HonestList(env) && WellFormed(w.server)
    requires machineId.Some? ==> exists row :: row in w.server.rows && row.id == machineId.value
                                               && row.license == license && row.fingerprint == fingerprint
    ensures
      var (after, found) := ResolveTaken(env, w, machineId, license, fingerprint);
      found.Found? ==>
        found.row.license == license && found.row.fingerprint == fingerprint && found.row in after.server.rows
  {
    HonestPagesShowOwnRows(env, license, fingerprint);
    if machineId.Some? {
      ArrivalKeepsIds(env, w);
      var row :| row in w.server.rows && row.id == machineId.value && row.license == license
        && row.fingerprint == fingerprint;
      var (w1, reply) := CallGet(env, w, machineId.value);
      if reply.Some? && reply.value.Some? {
        DistinctRows(w.server.rows, row, reply.value.value);
      }
      SearchStaysOnLicense(Pages(env, license, fingerprint), w1, license, fingerprint, 1, MAX_MACHINE_SEARCH_PAGES);
    } else {
      SearchStaysOnLicense(Pages(env, license, fingerprint), w, license, fingerprint, 1, MAX_MACHINE_SEARCH_PAGES);
    }
  }

  /**
   * Under every uniqueness strategy and whatever others do between the calls, a returned machine is
   * on the caller's license with exactly the caller's fingerprint.
   */
  lemma ReturnedMachineIsOwn(env: Env, w: World, license: nat, fingerprint: string, usage: Usage)
    requires HonestList(env) && WellFormed(w.server)
    ensures
      var (after, outcome) := ActivateIdempotent(env, w, license, fingerprint, usage);
      outcome.Ok? ==> outcome.value.license == license && outcome.value.fingerprint == fingerprint
  {
    NamedMachine(env, w, license, fingerprint, usage);
    var (w1, outcome) := Activate(env, w, license, fingerprint, usage);
    if outcome.Err? && outcome.error.FingerprintTaken? {
      ResolveStaysOnLicense(env, w1, outcome.error.machineId, license, fingerprint);
    }
  }

  /**
   * Recovering from a conflict: a named machine is asked for, once. A failed request raises; the machine is
   * returned if the server has it with exactly this fingerprint; and otherwise, or with none named, the
   * search decides.
   */
  lemma RecoveryExactly(env: Env, w: World, machineId: Option<nat>, license: nat, fingerprint: string)
    requires WellFormed(w.server)
    ensures
      var r := ResolveTaken(env, w, machineId, license, fingerprint);
      match machineId
      case None => r == FindByFingerprint(env, w, license, fingerprint, 20)
      case Some(id) =>
        var w1 := World(Arrival(env, w), w.calls + [GetCall(id)]);
        if !FaultNow(env, w).NoFault? then r == (w1, Raised)
        else
          && (forall row :: row in w1.server.rows && row.id == id && row.fingerprint == fingerprint
                ==> r == (w1, Found(row)))
          && ((forall row :: row in w1.server.rows ==> row.id != id || row.fingerprint != fingerprint)
                ==> r == FindByFingerprint(env, w1, license, fingerprint, 20))
  {
    if machineId.Some? {
      ArrivalKeepsIds(env, w);
      var rows := Arrival(env, w).rows;
      forall row | row in rows && row.id == machineId.value
        ensures Get(Arrival(env, w), machineId.value) == Some(row)
      {
        DistinctRows(rows, row, Get(Arrival(env, w), machineId.value).value);
      }
    }
  }

  /** What a recovery reports stands for how it went, and nothing found is the conflict again. */
  lemma RecoveredExactly(found: SearchResult, machineId: Option<nat>)
    ensures
      var outcome := Recovered(found, machineId);
      && (outcome.Ok? <==> found.Found?) && (outcome.Ok? ==> found.row == outcome.value)
      && (outcome == Err(FingerprintTaken(machineId)) <==> found.NotFound?)
      && (outcome == Err(CallFailed) <==> found.Raised?)
      && (outcome == Err(BlankFingerprint) <==> found.Blank?)
  {
  }

  /** Everything but a conflict passes straight through, and a conflict ends as its recovery does. */
  lemma ConflictDecides(env: Env, w: World, license: nat, fingerprint: string, usage: Usage)
    ensures
      var (w1, first) := Activate(env, w, license, fingerprint, usage);
      var whole := ActivateIdempotent(env, w, license, fingerprint, usage);
      if first.Ok? || !first.error.FingerprintTaken? then whole == (w1, first)
      else
        var machineId := first.error.machineId;
        var (after, found) := ResolveTaken(env, w1, machineId, license, fingerprint);
        whole == (after, Recovered(found, machineId))
  {
  }

  /** Nothing but GETs and lists were sent in between. */
  ghost predicate OnlyReads(before: World, after: World) {
    before.calls <= after.calls && forall c :: c in Issued(before, after) ==> c.GetCall? || c.ListCall?
  }

  /** The recovery path only reads, stops at the page ceiling, and finds nothing but exact matches. */
  lemma RecoveryOnlyReads(env: Env, w: World, machineId: Option<nat>, license: nat, fingerprint: string)
    ensures
      var (after, found) := ResolveTaken(env, w, machineId, license, fingerprint);
      && OnlyReads(w, after) && |after.calls| <= |w.calls| + 21
      && (found.Found? ==> found.row.fingerprint == fingerprint)
  {
    if machineId.Some? {
      var w1 := CallGet(env, w, machineId.value).0;
      FindIsBounded(env, w1, license, fingerprint, MAX_MACHINE_SEARCH_PAGES);
      IssuedConcat(w, w1, FindByFingerprint(env, w1, license, fingerprint, MAX_MACHINE_SEARCH_PAGES).0);
    } else {
      FindIsBounded(env, w, license, fingerprint, MAX_MACHINE_SEARCH_PAGES);
    }
  }

  /** Every DELETE sent in between names an id no lower than `floor`. */
  ghost predicate DeletesFrom(before: World, after: World, floor: nat) {
    before.calls <= after.calls && forall c :: c in Issued(before, after) && c.DeleteCall? ==> c.id >= floor
  }

  /** Whatever `activate_machine` deletes, it created. */
  lemma DeletesOnlyNewIds(env: Env, w: World, license: nat, fingerprint: string, usage: Usage)
    requires WellFormed(w.server)
    ensures DeletesFrom(w, Activate(env, w, license, fingerprint, usage).0, w.server.nextId)
  {
    NamedMachine(env, w, license, fingerprint, usage);
    RollbackOwnership(env, w, license, fingerprint, usage);
  }

  lemma DeletesThenReads(w: World, mid: World, after: World, floor: nat)
    requires DeletesFrom(w, mid, floor) && OnlyReads(mid, after)
    ensures DeletesFrom(w, after, floor)
  {
    IssuedConcat(w, mid, after);
  }

  lemma IdempotentDeletesFrom(env: Env, w: World, license: nat, fingerprint: string, usage: Usage)
    requires WellFormed(w.server)
    ensures DeletesFrom(w, ActivateIdempotent(env, w, license, fingerprint, usage).0, w.server.nextId)
  {
    DeletesOnlyNewIds(env, w, license, fingerprint, usage);
    var (w1, outcome) := Activate(env, w, license, fingerprint, usage);
    if outcome.Err? && outcome.error.FingerprintTaken? {
      RecoveryOnlyReads(env, w1, outcome.error.machineId, license, fingerprint);
      DeletesThenReads(w, w1, ResolveTaken(env, w1, outcome.error.machineId, license, fingerprint).0, w.server.nextId);
    }
  }

  /** Whatever others do, no row that existed before the call is ever deleted by it. */
  lemma OldRowsNeverDeleted(env: Env, w: World, license: nat, fingerprint: string, usage: Usage)
    requires WellFormed(w.server)
    ensures
      var after := ActivateIdempotent(env, w, license, fingerprint, usage).0;
      && w.calls <= after.calls
      && forall c, row :: c in Issued(w, after) && c.DeleteCall? && row in w.server.rows ==> row.id < c.id
  {
    IdempotentDeletesFrom(env, w, license, fingerprint, usage);
  }

  // ---------- Calling it again ----------

  /** The search lists every row that carries exactly the term as its fingerprint. */
  ghost predicate SearchFindsExact(env: Env) {
    forall row: Row :: env.matches(row, row.fingerprint)
  }

  /** Where a row stands in a list. */
  function Position(rows: seq<Row>, row: Row): (i: nat)
    ensures i <= |rows|
    ensures row in rows ==> i < |rows| && rows[i] == row
  {
    if rows == [] || rows[0] == row then 0 else 1 + Position(rows[1..], row)
  }

  lemma {:induction false} OwnRowIs(rows: seq<Row>, m: Row)
    requires Distinct(rows) && m in rows
    ensures OwnRow(rows, m.license, m.fingerprint) == Some(m)
  {
    DistinctRows(rows, m, OwnRow(rows, m.license, m.fingerprint).value);
  }

  /** A machine on the license conflicts under every uniqueness strategy. */
  lemma OwnMachineConflicts(cfg: Config, s: ServerState, m: Row, usage: Usage)
    requires WellFormed(s) && m in s.rows
    ensures Create(cfg, s, m.license, m.fingerprint, usage)
         == (s, Taken(if cfg.namesMachine then Some(m.id) else None))
  {
    var i :| 0 <= i < |s.rows| && s.rows[i] == m;
    assert s.rows[i].fingerprint == m.fingerprint && InScope(cfg, s.rows[i], m.license);
    OwnRowIs(s.rows, m);
  }

  lemma {:induction false} ListedHas(env: Env, rows: seq<Row>, m: Row)
    requires m in rows && env.matches(m, m.fingerprint)
    ensures m in Listed(env, rows, m.license, m.fingerprint)
  {
    assert rows == [rows[0]] + rows[1..];
    if m != rows[0] {
      ListedHas(env, rows[1..], m);
    }
  }

  /** Searching for a machine the server holds: found exactly when it is listed early enough. */
  lemma SearchForHeld(env: Env, w: World, m: Row)
    requires WellFormed(w.server) && m in w.server.rows && env.matches(m, m.fingerprint)
    requires UndisturbedFrom(env, |w.calls|) && !IsBlank(m.fingerprint)
    ensures
      var listed := Listed(env, w.server.rows, m.license, m.fingerprint);
      var (after, found) := FindByFingerprint(env, w, m.license, m.fingerprint, MAX_MACHINE_SEARCH_PAGES);
      && after.server == w.server
      && found == if Position(listed, m) < 2000 then Found(m) else NotFound
  {
    var listed := Listed(env, w.server.rows, m.license, m.fingerprint);
    ListedHas(env, w.server.rows, m);
    FindIsComplete(env, w, m.license, m.fingerprint, MAX_MACHINE_SEARCH_PAGES);
    var shown := listed[..Min(2000, |listed|)];
    forall row | row in shown && row.fingerprint == m.fingerprint ensures row == m {
      assert row in listed;
      DistinctRows(w.server.rows, row, m);
    }
    if Position(listed, m) < 2000 {
      assert shown[Position(listed, m)] == m;
    } else {
      PositionIsFirst(listed, m);
    }
  }

  lemma {:induction false} PositionIsFirst(rows: seq<Row>, m: Row)
    ensures m !in rows[..Position(rows, m)]
  {
    if rows != [] && rows[0] != m {
      PositionIsFirst(rows[1..], m);
      assert rows[..Position(rows, m)] == [rows[0]] + rows[1..][..Position(rows[1..], m)];
    }
  }

  /**
   * An undisturbed call for a machine the license already holds changes nothing on the server, and
   * returns that machine exactly when the conflict names it or the search can reach it.
   */
  lemma Reactivation(env: Env, w: World, m: Row, usage: Usage)
    requires WellFormed(w.server) && m in w.server.rows
    requires UndisturbedFrom(env, |w.calls|) && SearchFindsExact(env)
    ensures
      var listed := Listed(env, w.server.rows, m.license, m.fingerprint);
      var (after, outcome) := ActivateIdempotent(env, w, m.license, m.fingerprint, usage);
      && after.server == w.server
      && outcome == if env.cfg.namesMachine then Ok(m)
                    else if IsBlank(m.fingerprint) then Err(BlankFingerprint)
                    else if Position(listed, m) < 2000 then Ok(m)
                    else Err(FingerprintTaken(None))
  {
    OwnMachineConflicts(env.cfg, w.server, m, usage);
    var (w1, created) := CallCreate(env, w, m.license, m.fingerprint, usage);
    if env.cfg.namesMachine {
      var (w2, reply) := CallGet(env, w1, m.id);
      DistinctRows(w.server.rows, m, Get(w.server, m.id).value);
    } else if !IsBlank(m.fingerprint) {
      SearchForHeld(env, w1, m);
    }
  }

  lemma ActivateKeepsWellFormed(env: Env, w: World, license: nat, fingerprint: string, usage: Usage)
    requires WellFormed(w.server)
    ensures WellFormed(Activate(env, w, license, fingerprint, usage).0.server)
  {
    NamedMachine(env, w, license, fingerprint, usage);
    var w1 := CallCreate(env, w, license, fingerprint, usage).0;
    ArrivalKeepsIds(env, w1);
    var w2 := CallValidate(env, w1, license).0;
    ArrivalKeepsIds(env, w2);
    forall id ensures WellFormed(Delete(Arrival(env, w2), id)) {
      DeleteKeepsWellFormed(Arrival(env, w2), id);
    }
  }

  ghost predicate FetchKeepsWellFormed(fetch: Fetch) {
    forall w: World, n: PageNumber :: WellFormed(w.server) ==> WellFormed(fetch(w, n).0.server)
  }

  lemma {:induction false} SearchKeepsWellFormed(fetch: Fetch, w: World, fingerprint: string, number: PageNumber,
                                                 left: nat)
    requires FetchKeepsWellFormed(fetch) && WellFormed(w.server)
    ensures WellFormed(SearchPages(fetch, w, fingerprint, number, left).0.server)
    decreases left
  {
    if left > 0 {
      SearchKeepsWellFormed(fetch, fetch(w, number).0, fingerprint, number + 1, left - 1);
    }
  }

  lemma FindKeepsWellFormed(env: Env, w: World, license: nat, fingerprint: string, maxPages: nat)
    requires WellFormed(w.server)
    ensures WellFormed(FindByFingerprint(env, w, license, fingerprint, maxPages).0.server)
  {
    var fetch := Pages(env, license, fingerprint);
    forall v: World, n: PageNumber | WellFormed(v.server) ensures WellFormed(fetch(v, n).0.server) {
      ArrivalKeepsIds(env, v);
    }
    SearchKeepsWellFormed(fetch, w, fingerprint, 1, maxPages);
  }

  lemma ResolveKeepsWellFormed(env: Env, w: World, machineId: Option<nat>, license: nat, fingerprint: string)
    requires WellFormed(w.server)
    ensures WellFormed(ResolveTaken(env, w, machineId, license, fingerprint).0.server)
  {
    ArrivalKeepsIds(env, w);
    FindKeepsWellFormed(env, w, license, fingerprint, MAX_MACHINE_SEARCH_PAGES);
    if machineId.Some? {
      FindKeepsWellFormed(env, CallGet(env, w, machineId.value).0, license, fingerprint, MAX_MACHINE_SEARCH_PAGES);
    }
  }

  lemma IdempotentKeepsWellFormed(env: Env, w: World, license: nat, fingerprint: string, usage: Usage)
    requires WellFormed(w.server)
    ensures WellFormed(ActivateIdempotent(env, w, license, fingerprint, usage).0.server)
  {
    ActivateKeepsWellFormed(env, w, license, fingerprint, usage);
    var (w1, outcome) := Activate(env, w, license, fingerprint, usage);
    if outcome.Err? && outcome.error.FingerprintTaken? {
      ResolveKeepsWellFormed(env, w1, outcome.error.machineId, license, fingerprint);
    }
  }

  /** A recovered machine is still on the server when the call returns. */
  lemma RecoveredMachineIsThere(env: Env, w: World, license: nat, fingerprint: string, usage: Usage)
    requires HonestList(env) && WellFormed(w.server)
    ensures
      var created := CallCreate(env, w, license, fingerprint, usage).1;
      var (after, outcome) := ActivateIdempotent(env, w, license, fingerprint, usage);
      outcome.Ok? && created.Some? && created.value.Taken? ==> outcome.value in after.server.rows
  {
    var (w1, created) := CallCreate(env, w, license, fingerprint, usage);
    NamedMachine(env, w, license, fingerprint, usage);
    if created.Some? && created.value.Taken? {
      ResolveStaysOnLicense(env, w1, created.value.machineId, license, fingerprint);
    }
  }

  /** The call returned a machine that is on the server, nothing disturbs what follows, and it can be found again. */
  ghost predicate StillThere(env: Env, mid: World, first: Outcome, license: nat, fingerprint: string) {
    && first.Ok? && first.value in mid.server.rows && UndisturbedFrom(env, |mid.calls|)
    && (env.cfg.namesMachine || (!IsBlank(fingerprint) &&
          Position(Listed(env, mid.server.rows, license, fingerprint), first.value) < 2000))
  }

  /**
   * Idempotence: after a call that returned a machine still on the server, whatever others did
   * during it, an undisturbed second call returns the same machine and leaves the server as it is,
   * given that the conflict names the machine or the search can reach it.
   */
  lemma SecondCallIsIdempotent(env: Env, w: World, license: nat, fingerprint: string, usage: Usage, again: Usage)
    requires HonestList(env) && SearchFindsExact(env) && WellFormed(w.server)
    ensures
      var (mid, first) := ActivateIdempotent(env, w, license, fingerprint, usage);
      var (end, second) := ActivateIdempotent(env, mid, license, fingerprint, again);
      StillThere(env, mid, first, license, fingerprint) ==> second == first && end.server == mid.server
  {
    ReturnedMachineIsOwn(env, w, license, fingerprint, usage);
    IdempotentKeepsWellFormed(env, w, license, fingerprint, usage);
    var (mid, first) := ActivateIdempotent(env, w, license, fingerprint, usage);
    if StillThere(env, mid, first, license, fingerprint) {
      Reactivation(env, mid, first.value, again);
    }
  }

  // ---------- What a caller of either operation may rely on ----------

  ghost predicate SentDelete(before: World, after: World)
    requires before.calls <= after.calls
  {
    exists c :: c in Issued(before, after) && c.DeleteCall?
  }

  lemma LastIsIssued(before: World, after: World, c: Call)
    requires before.calls <= after.calls && |after.calls| > |before.calls| && after.calls[|after.calls| - 1] == c
    ensures c in Issued(before, after)
  {
    assert Issued(before, after)[|after.calls| - 1 - |before.calls|] == c;
  }

  lemma ActivateForCaller(env: Env, w: World, license: nat, fingerprint: string, usage: Usage)
    ensures
      var (after, outcome) := Activate(env, w, license, fingerprint, usage);
      && w.calls <= after.calls
      && (outcome.Ok? ==> !SentDelete(w, after))
      && (outcome.Err? && outcome.error.OverLimit? ==>
            IsOverLimit(outcome.error.code) && (outcome.error.rolledBack <==> SentDelete(w, after)))
      && (WellFormed(w.server) ==>
            && WellFormed(after.server) && DeletesFrom(w, after, w.server.nextId)
            && (outcome.Ok? ==> outcome.value.id >= w.server.nextId
                                && outcome.value.license == license && outcome.value.fingerprint == fingerprint))
  {
    RollbackOwnership(env, w, license, fingerprint, usage);
    var (after, outcome) := Activate(env, w, license, fingerprint, usage);
    if outcome.Err? && outcome.error.OverLimit? && outcome.error.rolledBack {
      LastIsIssued(w, after, after.calls[|after.calls| - 1]);
    }
    if WellFormed(w.server) {
      ActivateKeepsWellFormed(env, w, license, fingerprint, usage);
      DeletesOnlyNewIds(env, w, license, fingerprint, usage);
      NamedMachine(env, w, license, fingerprint, usage);
    }
  }

  lemma IdempotentForCaller(env: Env, w: World, license: nat, fingerprint: string, usage: Usage)
    requires WellFormed(w.server)
    ensures
      var (after, outcome) := ActivateIdempotent(env, w, license, fingerprint, usage);
      && WellFormed(after.server) && DeletesFrom(w, after, w.server.nextId)
      && (HonestList(env) && outcome.Ok?
        ==> outcome.value.license == license && outcome.value.fingerprint == fingerprint)
  {
    IdempotentKeepsWellFormed(env, w, license, fingerprint, usage);
    IdempotentDeletesFrom(env, w, license, fingerprint, usage);
    if HonestList(env) {
      ReturnedMachineIsOwn(env, w, license, fingerprint, usage);
    }
  }
}
