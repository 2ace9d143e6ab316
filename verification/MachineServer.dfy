/** The licensing server as the SDK describes it: machine rows, uniqueness scopes, ceilings. */
module MachineServer {
  import opened Common

  datatype Row = Row(id: nat, license: nat, fingerprint: string, cores: nat, memory: nat, disk: nat)

  datatype Usage = Usage(cores: nat, memory: nat, disk: nat)

  datatype Totals = Totals(machines: nat, cores: nat, memory: nat, disk: nat)

  /** A missing limit is unlimited. */
  datatype Limits = Limits(machines: Option<nat>, cores: Option<nat>, memory: Option<nat>, disk: Option<nat>)

  datatype Limit = Machines | Cores | Memory | Disk

  datatype Uniqueness = PerLicense | PerPolicy | PerAccount

  /**
   * The create ceiling has already been run through the overage strategy, so it may be looser than
   * the validate ceiling.
   */
  datatype Config = Config(uniqueness: Uniqueness, policyOf: nat -> nat, createCeiling: Limits, validateCeiling: Limits,
                           namesMachine: bool)

  /** Rows in creation order; ids are never reused. */
  datatype ServerState = ServerState(rows: seq<Row>, nextId: nat)

  // ---------- Totals and limits ----------

  function TotalsOf(rows: seq<Row>, license: nat): Totals {
    if rows == [] then Totals(0, 0, 0, 0)
    else
      var rest := TotalsOf(rows[1..], license);
      if rows[0].license != license then rest
      else Totals(rest.machines + 1, rest.cores + rows[0].cores, rest.memory + rows[0].memory, rest.disk + rows[0].disk)
  }

  /** The rows of one license, in order. */
  function RowsOf(rows: seq<Row>, license: nat): (r: seq<Row>)
    ensures forall row :: row in r <==> row in rows && row.license == license
  {
    if rows == [] then []
    else
      assert rows == [rows[0]] + rows[1..];
      (if rows[0].license == license then [rows[0]] else []) + RowsOf(rows[1..], license)
  }

  function SumOf(rows: seq<Row>, amount: Row -> nat): nat {
    if rows == [] then 0 else amount(rows[0]) + SumOf(rows[1..], amount)
  }

  /** The totals of a license count its rows and sum their three amounts. */
  lemma {:induction false} TotalsExactly(rows: seq<Row>, license: nat)
    ensures
      var t, own := TotalsOf(rows, license), RowsOf(rows, license);
      && t.machines == |own| && t.cores == SumOf(own, (row: Row) => row.cores)
      && t.memory == SumOf(own, (row: Row) => row.memory) && t.disk == SumOf(own, (row: Row) => row.disk)
  {
    if rows != [] {
      TotalsExactly(rows[1..], license);
      var rest := RowsOf(rows[1..], license);
      if rows[0].license == license {
        assert RowsOf(rows, license) == [rows[0]] + rest && ([rows[0]] + rest)[1..] == rest;
      } else {
        assert RowsOf(rows, license) == rest;
      }
    }
  }

  predicate Fits(limit: Option<nat>, total: nat) {
    limit.None? || total <= limit.value
  }

  /** Every total is within its limit. */
  predicate Within(limits: Limits, t: Totals) {
    Fits(limits.machines, t.machines) && Fits(limits.cores, t.cores) && Fits(limits.memory, t.memory)
      && Fits(limits.disk, t.disk)
  }

  /** The first limit exceeded, in the server's order of evaluation. */
  function FirstExceeded(limits: Limits, t: Totals): (r: Option<Limit>)
    ensures r.None? <==> Within(limits, t)
  {
    if !Fits(limits.machines, t.machines) then Some(Machines)
    else if !Fits(limits.cores, t.cores) then Some(Cores)
    else if !Fits(limits.memory, t.memory) then Some(Memory)
    else if !Fits(limits.disk, t.disk) then Some(Disk)
    else None
  }

  predicate AtMost(a: Totals, b: Totals) {
    a.machines <= b.machines && a.cores <= b.cores && a.memory <= b.memory && a.disk <= b.disk
  }

  function Keep(rows: seq<Row>, ids: set<nat>): (r: seq<Row>)
    ensures forall row :: row in r <==> row in rows && row.id in ids
  {
    if rows == [] then []
    else
      assert rows == [rows[0]] + rows[1..];
      (if rows[0].id in ids then [rows[0]] else []) + Keep(rows[1..], ids)
  }

  /** Fewer rows never total more. */
  lemma {:induction false} KeepTotalsLess(rows: seq<Row>, ids: set<nat>, license: nat)
    ensures AtMost(TotalsOf(Keep(rows, ids), license), TotalsOf(rows, license))
  {
    if rows != [] {
      KeepTotalsLess(rows[1..], ids, license);
      var kept := Keep(rows[1..], ids);
      if rows[0].id in ids {
        assert Keep(rows, ids) == [rows[0]] + kept && ([rows[0]] + kept)[1..] == kept;
      } else {
        assert Keep(rows, ids) == kept;
      }
    }
  }

  // ---------- Uniqueness ----------

  /** The rows the duplicate check of this license looks at. */
  predicate InScope(cfg: Config, row: Row, license: nat) {
    match cfg.uniqueness
    case PerLicense => row.license == license
    case PerPolicy => cfg.policyOf(row.license) == cfg.policyOf(license)
    case PerAccount => true
  }

  /** This license's own row for a fingerprint. */
  function OwnRow(rows: seq<Row>, license: nat, fingerprint: string): (r: Option<Row>)
    ensures r.Some? ==> r.value in rows && r.value.license == license && r.value.fingerprint == fingerprint
    ensures r.None? ==> forall row :: row in rows ==> row.license != license || row.fingerprint != fingerprint
  {
    if rows == [] then None
    else if rows[0].license == license && rows[0].fingerprint == fingerprint then Some(rows[0])
    else
      assert rows == [rows[0]] + rows[1..];
      OwnRow(rows[1..], license, fingerprint)
  }

  predicate Duplicate(cfg: Config, rows: seq<Row>, license: nat, fingerprint: string) {
    exists i :: 0 <= i < |rows| && rows[i].fingerprint == fingerprint && InScope(cfg, rows[i], license)
  }

  /** Neither the same id nor the same fingerprint on the same license. */
  predicate Apart(a: Row, b: Row) {
    a.id != b.id && (a.license != b.license || a.fingerprint != b.fingerprint)
  }

  /** Any two rows are apart. */
  ghost predicate Distinct(rows: seq<Row>) {
    rows != [] ==> (forall row :: row in rows[1..] ==> Apart(rows[0], row)) && Distinct(rows[1..])
  }

  /** Ids are below the next one and distinct, and no license holds a fingerprint twice. */
  ghost predicate WellFormed(s: ServerState) {
    Distinct(s.rows) && forall row :: row in s.rows ==> row.id < s.nextId
  }

  lemma {:induction false} DistinctRows(rows: seq<Row>, a: Row, b: Row)
    requires Distinct(rows) && a in rows && b in rows
    ensures a != b ==> Apart(a, b)
  {
    assert rows == [rows[0]] + rows[1..];
    if a != rows[0] && b != rows[0] {
      DistinctRows(rows[1..], a, b);
    }
  }

  // ---------- The four requests ----------

  /** A conflict names the machine only when it is on the caller's own license. */
  datatype CreateReply = Created(row: Row) | Taken(machineId: Option<nat>) | LimitExceeded(limit: Limit)

  /** `POST /machines`: uniqueness first, then the limits, then the row. */
  function Create(cfg: Config, s: ServerState, license: nat, fingerprint: string,
                  usage: Usage): (ServerState, CreateReply)
  {
    var row := Row(s.nextId, license, fingerprint, usage.cores, usage.memory, usage.disk);
    if Duplicate(cfg, s.rows, license, fingerprint) then
      var own := OwnRow(s.rows, license, fingerprint);
      (s, Taken(if cfg.namesMachine && own.Some? then Some(own.value.id) else None))
    else
      match FirstExceeded(cfg.createCeiling, TotalsOf(s.rows + [row], license))
      case Some(limit) => (s, LimitExceeded(limit))
      case None => (ServerState(s.rows + [row], s.nextId + 1), Created(row))
  }

  /** A total is more than its limit; nothing is more than a limit that is not set. */
  predicate Over(limit: Option<nat>, total: nat) {
    limit.Some? && total > limit.value
  }

  /** The first limit that a license is over, in the order machines, cores, memory, disk. */
  predicate IsFirstOver(limits: Limits, t: Totals, limit: Limit) {
    match limit
    case Machines => Over(limits.machines, t.machines)
    case Cores => !Over(limits.machines, t.machines) && Over(limits.cores, t.cores)
    case Memory =>
      !Over(limits.machines, t.machines) && !Over(limits.cores, t.cores) && Over(limits.memory, t.memory)
    case Disk =>
      !Over(limits.machines, t.machines) && !Over(limits.cores, t.cores) && !Over(limits.memory, t.memory)
      && Over(limits.disk, t.disk)
  }

  /**
   * What a create does: a fingerprint held within the scope is a conflict, which names the caller's own
   * machine if the server names any; a license that would be over the create ceiling is refused for the
   * first limit it would be over; otherwise the row is added last, under the next id. Nothing else changes.
   */
  lemma CreateExactly(cfg: Config, s: ServerState, license: nat, fingerprint: string, usage: Usage)
    ensures
      var (s', reply) := Create(cfg, s, license, fingerprint, usage);
      var taken := exists row :: row in s.rows && row.fingerprint == fingerprint && InScope(cfg, row, license);
      && (reply.Taken? <==> taken)
      && (!reply.Created? ==> s' == s)
      && (reply.Taken? && reply.machineId.Some? ==> cfg.namesMachine)
      && (reply.LimitExceeded? || reply.Created? ==>
            exists row: Row ::
              && row.id == s.nextId && row.license == license && row.fingerprint == fingerprint
              && row.cores == usage.cores && row.memory == usage.memory && row.disk == usage.disk
              && var t := TotalsOf(s.rows + [row], license);
              && (reply.LimitExceeded? ==> IsFirstOver(cfg.createCeiling, t, reply.limit))
              && (reply.Created? ==>
                    && reply.row == row && s'.rows == s.rows + [row] && s'.nextId == s.nextId + 1
                    && forall limit :: !IsFirstOver(cfg.createCeiling, t, limit)))
  {
    var (s', reply) := Create(cfg, s, license, fingerprint, usage);
    var row := Row(s.nextId, license, fingerprint, usage.cores, usage.memory, usage.disk);
    forall row | row in s.rows && row.fingerprint == fingerprint && InScope(cfg, row, license) ensures reply.Taken? {
      var i :| 0 <= i < |s.rows| && s.rows[i] == row;
    }
    assert row.id == s.nextId;
  }

  datatype ValidationCode =
    | EarlierCheck
    | TooManyMachines | TooManyCores | TooMuchMemory | TooMuchDisk
    | TooManyProcesses | TooManyUsers | Valid

  function LimitCode(limit: Limit): ValidationCode {
    match limit
    case Machines => TooManyMachines
    case Cores => TooManyCores
    case Memory => TooMuchMemory
    case Disk => TooMuchDisk
  }

  /** The checks of a validation that the machine rows do not decide. */
  datatype OtherChecks = OtherChecks(earlierFails: bool, tooManyProcesses: bool, tooManyUsers: bool)

  /** Validation by id: the first failing check wins. */
  function Verdict(cfg: Config, s: ServerState, license: nat, checks: OtherChecks): ValidationCode {
    if checks.earlierFails then EarlierCheck
    else
      match FirstExceeded(cfg.validateCeiling, TotalsOf(s.rows, license))
      case Some(limit) => LimitCode(limit)
      case None =>
        if checks.tooManyProcesses then TooManyProcesses else if checks.tooManyUsers then TooManyUsers else Valid
  }

  /** Which code a validation answers: the first of its checks that fails, in this order. */
  lemma VerdictExactly(cfg: Config, s: ServerState, license: nat, checks: OtherChecks)
    ensures
      var code := Verdict(cfg, s, license, checks);
      var t, limits := TotalsOf(s.rows, license), cfg.validateCeiling;
      var a := !checks.earlierFails;
      var e := a && forall limit :: !IsFirstOver(limits, t, limit);
      var f := e && !checks.tooManyProcesses;
      && (code == EarlierCheck <==> !a)
      && (code == TooManyMachines <==> a && IsFirstOver(limits, t, Machines))
      && (code == TooManyCores <==> a && IsFirstOver(limits, t, Cores))
      && (code == TooMuchMemory <==> a && IsFirstOver(limits, t, Memory))
      && (code == TooMuchDisk <==> a && IsFirstOver(limits, t, Disk))
      && (code == TooManyProcesses <==> e && !f)
      && (code == TooManyUsers <==> f && checks.tooManyUsers) && (code == Valid <==> f && !checks.tooManyUsers)
  {
    var t, limits := TotalsOf(s.rows, license), cfg.validateCeiling;
    if FirstExceeded(limits, t).Some? {
      assert IsFirstOver(limits, t, FirstExceeded(limits, t).value);
    }
  }

  function Without(rows: seq<Row>, id: nat): (r: seq<Row>)
    ensures forall row :: row in r <==> row in rows && row.id != id
    ensures |r| <= |rows|
  {
    if rows == [] then []
    else
      assert rows == [rows[0]] + rows[1..];
      (if rows[0].id != id then [rows[0]] else []) + Without(rows[1..], id)
  }

  /** `DELETE /machines/{id}`. */
  function Delete(s: ServerState, id: nat): ServerState {
    ServerState(Without(s.rows, id), s.nextId)
  }

  /** `GET /machines/{id}`, scoped to the account. */
  function Get(s: ServerState, id: nat): (r: Option<Row>)
    ensures r.Some? ==> r.value in s.rows && r.value.id == id
    ensures r.None? ==> forall row :: row in s.rows ==> row.id != id
  {
    FindId(s.rows, id)
  }

  function FindId(rows: seq<Row>, id: nat): (r: Option<Row>)
    ensures r.Some? ==> r.value in rows && r.value.id == id
    ensures r.None? ==> forall row :: row in rows ==> row.id != id
  {
    if rows == [] then None
    else if rows[0].id == id then Some(rows[0])
    else
      assert rows == [rows[0]] + rows[1..];
      FindId(rows[1..], id)
  }

  // ---------- What requests keep ----------

  lemma {:induction false} WithoutAbsent(rows: seq<Row>, id: nat)
    requires forall row :: row in rows ==> row.id != id
    ensures Without(rows, id) == rows
  {
    if rows != [] {
      assert rows == [rows[0]] + rows[1..];
      WithoutAbsent(rows[1..], id);
    }
  }

  lemma {:induction false} WithoutConcat(a: seq<Row>, b: seq<Row>, id: nat)
    ensures Without(a + b, id) == Without(a, id) + Without(b, id)
  {
    if a == [] {
      assert a + b == b;
    } else {
      assert (a + b)[1..] == a[1..] + b;
      WithoutConcat(a[1..], b, id);
    }
  }

  lemma {:induction false} WithoutDistinct(rows: seq<Row>, id: nat)
    requires Distinct(rows)
    ensures Distinct(Without(rows, id))
  {
    if rows != [] {
      WithoutDistinct(rows[1..], id);
      var rest := Without(rows[1..], id);
      if rows[0].id == id {
        assert Without(rows, id) == rest;
      } else {
        assert Without(rows, id)[1..] == rest;
      }
    }
  }

  lemma DeleteKeepsWellFormed(s: ServerState, id: nat)
    requires WellFormed(s)
    ensures WellFormed(Delete(s, id))
  {
    WithoutDistinct(s.rows, id);
  }

  lemma {:induction false} AppendDistinct(rows: seq<Row>, row: Row)
    requires Distinct(rows) && forall other :: other in rows ==> Apart(other, row)
    ensures Distinct(rows + [row])
  {
    if rows == [] {
      assert (rows + [row])[1..] == [];
    } else {
      assert rows == [rows[0]] + rows[1..];
      AppendDistinct(rows[1..], row);
      assert (rows + [row])[1..] == rows[1..] + [row];
    }
  }

  /** Whatever the uniqueness strategy, a license never comes to hold one fingerprint twice. */
  lemma CreateKeepsWellFormed(cfg: Config, s: ServerState, license: nat, fingerprint: string, usage: Usage)
    requires WellFormed(s)
    ensures WellFormed(Create(cfg, s, license, fingerprint, usage).0)
  {
    var (s', reply) := Create(cfg, s, license, fingerprint, usage);
    if reply.Created? {
      forall other | other in s.rows ensures Apart(other, reply.row) {
        var i :| 0 <= i < |s.rows| && s.rows[i] == other;
        assert !(s.rows[i].fingerprint == fingerprint && InScope(cfg, s.rows[i], license));
      }
      AppendDistinct(s.rows, reply.row);
    }
  }

  /** Deleting the row just created restores the rows exactly. */
  lemma DeleteUndoesCreate(cfg: Config, s: ServerState, license: nat, fingerprint: string, usage: Usage)
    requires WellFormed(s) && Create(cfg, s, license, fingerprint, usage).1.Created?
    ensures
      var (s', reply) := Create(cfg, s, license, fingerprint, usage);
      Delete(s', reply.row.id).rows == s.rows
  {
    var (s', reply) := Create(cfg, s, license, fingerprint, usage);
    WithoutConcat(s.rows, [reply.row], reply.row.id);
    WithoutAbsent(s.rows, reply.row.id);
    assert [reply.row][1..] == [] && Without([reply.row], reply.row.id) == [];
  }
}
