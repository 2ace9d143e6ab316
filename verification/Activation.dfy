/**
 * `activate_machine`, `find_by_fingerprint` and `activate_machine_idempotent`, call by call,
 * against a server that other clients change between the calls.
 */
module Activation {
  import opened Common
  import opened MachineServer
  import opened ActivationFleet

  const MAX_PAGE_SIZE: nat := 100
  const MAX_MACHINE_SEARCH_PAGES: nat := 20

  // ---------- The world ----------

  /** Pages are counted from one. */
  type PageNumber = n: nat | n >= 1 witness 1

  /** What somebody else does to the server. */
  datatype OtherAction = OtherCreate(license: nat, fingerprint: string, usage: Usage) | OtherDelete(id: nat)

  /** One page of an offset-paginated list, with the page numbers the server reports. */
  datatype OffsetPage = OffsetPage(items: seq<Row>, number: int, totalPages: int)

  /** A request sent by this client. */
  datatype Call =
    | CreateCall(license: nat, fingerprint: string)
    | ValidateCall(license: nat)
    | DeleteCall(id: nat)
    | GetCall(id: nat)
    | ListCall(page: nat)

  /** Everything outside the client's control; call `k` is the client's `k`-th request. */
  datatype Env = Env(
    cfg: Config,
    /** What others do just before call `k`. */
    others: nat -> seq<OtherAction>,
    faults: nat -> Fault,
    checks: nat -> OtherChecks,
    /** The free-text search of the list route. */
    matches: (Row, string) -> bool,
    /** What the list route answers to call `k`, given the license, the term and the page number: anything at all. */
    pages: (nat, ServerState, nat, string, PageNumber) -> OffsetPage
  )

  datatype World = World(server: ServerState, calls: seq<Call>)

  function Act(cfg: Config, s: ServerState, a: OtherAction): ServerState {
    match a
    case OtherCreate(license, fingerprint, usage) => Create(cfg, s, license, fingerprint, usage).0
    case OtherDelete(id) => Delete(s, id)
  }

  function ActAll(cfg: Config, s: ServerState, actions: seq<OtherAction>): ServerState
    decreases |actions|
  {
    if actions == [] then s else ActAll(cfg, Act(cfg, s, actions[0]), actions[1..])
  }

  /** The server when the client's next request arrives. */
  function Arrival(env: Env, w: World): ServerState {
    ActAll(env.cfg, w.server, env.others(|w.calls|))
  }

  function FaultNow(env: Env, w: World): Fault {
    env.faults(|w.calls|)
  }

  // ---------- One request each ----------

  /** `None` is a call that raised. */
  function CallCreate(env: Env, w: World, license: nat, fingerprint: string,
                      usage: Usage): (World, Option<CreateReply>)
  {
    var s := Arrival(env, w);
    var calls := w.calls + [CreateCall(license, fingerprint)];
    if FaultNow(env, w).RequestLost? then (World(s, calls), None)
    else
      var (s', reply) := Create(env.cfg, s, license, fingerprint, usage);
      (World(s', calls), if FaultNow(env, w).NoFault? then Some(reply) else None)
  }

  function CallValidate(env: Env, w: World, license: nat): (World, Option<ValidationCode>) {
    var s := Arrival(env, w);
    (World(s, w.calls + [ValidateCall(license)]),
     if FaultNow(env, w).NoFault? then Some(Verdict(env.cfg, s, license, env.checks(|w.calls|))) else None)
  }

  /** `Some(false)` is a 404, which raises too. */
  function CallDelete(env: Env, w: World, id: nat): (World, Option<bool>) {
    var s := Arrival(env, w);
    var calls := w.calls + [DeleteCall(id)];
    if FaultNow(env, w).RequestLost? then (World(s, calls), None)
    else (World(Delete(s, id), calls), if FaultNow(env, w).NoFault? then Some(Get(s, id).Some?) else None)
  }

  function CallGet(env: Env, w: World, id: nat): (World, Option<Option<Row>>) {
    var s := Arrival(env, w);
    (World(s, w.calls + [GetCall(id)]), if FaultNow(env, w).NoFault? then Some(Get(s, id)) else None)
  }

  /** The rows a search on one license lists, in order. */
  function Listed(env: Env, rows: seq<Row>, license: nat, term: string): (r: seq<Row>)
    ensures forall row :: row in r ==> row in rows && row.license == license
  {
    if rows == [] then []
    else
      assert rows == [rows[0]] + rows[1..];
      (if rows[0].license == license && env.matches(rows[0], term) then [rows[0]] else [])
      + Listed(env, rows[1..], license, term)
  }

  function PageCount(total: nat): nat {
    (total + MAX_PAGE_SIZE - 1) / MAX_PAGE_SIZE
  }

  /** Page `number`; empty past the end. */
  function PageItems(listed: seq<Row>, number: PageNumber): seq<Row> {
    var from := (number - 1) * MAX_PAGE_SIZE;
    if from >= |listed| then []
    else if from + MAX_PAGE_SIZE >= |listed| then listed[from..]
    else listed[from..from + MAX_PAGE_SIZE]
  }

  /** The page a truthful list route answers. */
  function HonestPage(env: Env, s: ServerState, license: nat, term: string, number: PageNumber): OffsetPage {
    var listed := Listed(env, s.rows, license, term);
    OffsetPage(PageItems(listed, number), number, PageCount(|listed|))
  }

  function CallList(env: Env, w: World, license: nat, term: string, number: PageNumber): (World, Option<OffsetPage>) {
    var s := Arrival(env, w);
    (World(s, w.calls + [ListCall(number)]),
     if FaultNow(env, w).NoFault? then Some(env.pages(|w.calls|, s, license, term, number)) else None)
  }

  // ---------- activate_machine ----------

  datatype ActivationError =
    | OverLimit(code: ValidationCode, rolledBack: bool)
    | FingerprintTaken(machineId: Option<nat>)
    | BlankFingerprint
    | CallFailed

  type Outcome = Result<Row, ActivationError>

  /** `activate_machine`: create, validate, and roll back on an over-limit verdict. */
  function Activate(env: Env, w: World, license: nat, fingerprint: string, usage: Usage): (World, Outcome) {
    var (w1, created) := CallCreate(env, w, license, fingerprint, usage);
    match created
    case None => (w1, Err(CallFailed))
    case Some(Taken(machineId)) => (w1, Err(FingerprintTaken(machineId)))
    case Some(LimitExceeded(limit)) => (w1, Err(OverLimit(LimitCode(limit), false)))
    case Some(Created(row)) =>
      var (w2, verdict) := CallValidate(env, w1, license);
      match verdict
      case None => (w2, Err(CallFailed))
      case Some(code) =>
        if !IsOverLimit(code) then (w2, Ok(row))
        else
          var (w3, deleted) := CallDelete(env, w2, row.id);
          (w3, Err(if deleted == Some(true) then OverLimit(code, true) else CallFailed))
  }

  // ---------- find_by_fingerprint ----------

  /** The first item with exactly this fingerprint. */
  function Exact(items: seq<Row>, fingerprint: string): Option<Row> {
    if items == [] then None
    else if items[0].fingerprint == fingerprint then Some(items[0])
    else Exact(items[1..], fingerprint)
  }

  lemma {:induction false} ExactIsExact(items: seq<Row>, fingerprint: string)
    ensures
      match Exact(items, fingerprint)
      case Some(row) => row in items && row.fingerprint == fingerprint
      case None => forall row :: row in items ==> row.fingerprint != fingerprint
  {
    if items != [] {
      assert items == [items[0]] + items[1..];
      ExactIsExact(items[1..], fingerprint);
    }
  }

  datatype SearchResult = Found(row: Row) | NotFound | Raised | Blank

  /** What one page decides; `None` is to ask for the next. */
  function Judge(reply: Option<OffsetPage>, fingerprint: string): (r: Option<SearchResult>)
    ensures r.Some? && r.value.Found? ==>
              reply.Some? && r.value.row in reply.value.items && r.value.row.fingerprint == fingerprint
  {
    match reply
    case None => Some(Raised)
    case Some(page) =>
      ExactIsExact(page.items, fingerprint);
      match Exact(page.items, fingerprint)
      case Some(row) => Some(Found(row))
      case None => if page.items == [] || page.number >= page.totalPages then Some(NotFound) else None
  }

  /** How a page is fetched. */
  type Fetch = (World, PageNumber) -> (World, Option<OffsetPage>)

  function Pages(env: Env, license: nat, term: string): Fetch {
    (w: World, number: PageNumber) => CallList(env, w, license, term, number)
  }

  /** Pages from `number` on, at most `left` of them. */
  function SearchPages(fetch: Fetch, w: World, fingerprint: string, number: PageNumber,
                       left: nat): (World, SearchResult)
    decreases left
  {
    if left == 0 then (w, NotFound)
    else
      var (w1, reply) := fetch(w, number);
      match Judge(reply, fingerprint)
      case Some(result) => (w1, result)
      case None => SearchPages(fetch, w1, fingerprint, number + 1, left - 1)
  }

  /** Nothing but whitespace: `not fingerprint.strip()`. */
  predicate IsBlank(s: string) {
    Strip(s, IsPySpace) == ""
  }

  /** `find_by_fingerprint`. */
  function FindByFingerprint(env: Env, w: World, license: nat, fingerprint: string,
                             maxPages: nat): (World, SearchResult)
  {
    if IsBlank(fingerprint) then (w, Blank)
    else SearchPages(Pages(env, license, fingerprint), w, fingerprint, 1, maxPages)
  }

  // ---------- activate_machine_idempotent ----------

  /** `_resolve_taken_fingerprint`: the named machine if it checks out, the search otherwise. */
  function ResolveTaken(env: Env, w: World, machineId: Option<nat>, license: nat,
                        fingerprint: string): (World, SearchResult)
  {
    match machineId
    case None => FindByFingerprint(env, w, license, fingerprint, MAX_MACHINE_SEARCH_PAGES)
    case Some(id) =>
      var (w1, reply) := CallGet(env, w, id);
      match reply
      case None => (w1, Raised)
      case Some(existing) =>
        if existing.Some? && existing.value.fingerprint == fingerprint then (w1, Found(existing.value))
        else FindByFingerprint(env, w1, license, fingerprint, MAX_MACHINE_SEARCH_PAGES)
  }

  /** What a recovery makes of a conflict: the machine it found, or the conflict itself, or its own failure. */
  function Recovered(found: SearchResult, machineId: Option<nat>): Outcome {
    match found
    case Found(row) => Ok(row)
    case NotFound => Err(FingerprintTaken(machineId))
    case Raised => Err(CallFailed)
    case Blank => Err(BlankFingerprint)
  }

  /** `activate_machine_idempotent`. */
  function ActivateIdempotent(env: Env, w: World, license: nat, fingerprint: string, usage: Usage): (World, Outcome) {
    var (w1, outcome) := Activate(env, w, license, fingerprint, usage);
    match outcome
    case Err(FingerprintTaken(machineId)) => (
      var (w2, found) := ResolveTaken(env, w1, machineId, license, fingerprint);
      (w2, Recovered(found, machineId))
    )
    case _ => (w1, outcome)
  }
}
