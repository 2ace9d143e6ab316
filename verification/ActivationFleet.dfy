/**
 * Any number of clients activating machines on one license at once. Every remote call is one
 * atomic step, steps interleave in any order, and validations and deletions may fail.
 */
module ActivationFleet {
  import opened Common
  import opened MachineServer

  /** A call can be lost before it reaches the server, or its reply can be lost afterwards. */
  datatype Fault = NoFault | RequestLost | ReplyLost

  /** The validation codes that make an activation roll back. */
  predicate IsOverLimit(code: ValidationCode) {
    code == TooManyMachines || code == TooManyCores || code == TooMuchMemory || code == TooMuchDisk
      || code == TooManyProcesses
  }

  /** What ended a call before it had a row: its create was lost, or answered with a conflict or a limit. */
  datatype Cause = CreateLost | Conflict(machineId: Option<nat>) | AtLimit(limit: Limit)

  /** Where one `activate_machine` call stands. */
  datatype Phase =
    | Ready
    | Pending(id: nat)
    | RollingBack(id: nat, code: ValidationCode)
    | Confirmed(id: nat)
    | Orphaned(id: nat)
    | RolledBack(code: ValidationCode)
    | Refused(cause: Cause)
    | DeletedUnheard

  datatype Client = Client(fingerprint: string, usage: Usage, phase: Phase)

  datatype Fleet = Fleet(server: ServerState, clients: seq<Client>)

  /** Which client makes its next call, how that call fares, and what else a validation checks. */
  datatype Label = Label(client: nat, fault: Fault, checks: OtherChecks)

  function SetPhase(f: Fleet, i: nat, server: ServerState, phase: Phase): Fleet
    requires i < |f.clients|
  {
    Fleet(server, f.clients[i := f.clients[i].(phase := phase)])
  }

  /** The next call of one client. */
  function Step(cfg: Config, license: nat, f: Fleet, l: Label): Fleet {
    if l.client >= |f.clients| then f
    else
      var c := f.clients[l.client];
      match c.phase
      case Ready =>
        if l.fault.RequestLost? then SetPhase(f, l.client, f.server, Refused(CreateLost))
        else (
          var (server, reply) := Create(cfg, f.server, license, c.fingerprint, c.usage);
          match reply
          case Created(row) =>
            SetPhase(f, l.client, server, if l.fault.ReplyLost? then Orphaned(row.id) else Pending(row.id))
          case Taken(machineId) =>
            SetPhase(f, l.client, server, Refused(if l.fault.ReplyLost? then CreateLost else Conflict(machineId)))
          case LimitExceeded(limit) =>
            SetPhase(f, l.client, server, Refused(if l.fault.ReplyLost? then CreateLost else AtLimit(limit)))
        )
      case Pending(id) =>
        if !l.fault.NoFault? then SetPhase(f, l.client, f.server, Orphaned(id))
        else
          var code := Verdict(cfg, f.server, license, l.checks);
          SetPhase(f, l.client, f.server, if IsOverLimit(code) then RollingBack(id, code) else Confirmed(id))
      case RollingBack(id, code) =>
        if l.fault.RequestLost? then SetPhase(f, l.client, f.server, Orphaned(id))
        else
          SetPhase(f, l.client, Delete(f.server, id), if l.fault.ReplyLost? then DeletedUnheard else RolledBack(code))
      case _ => f
  }

  /** A whole run: the fleet after all of the labels. */
  function Exec(cfg: Config, license: nat, f: Fleet, labels: seq<Label>): Fleet
    decreases |labels|
  {
    if labels == [] then f else Exec(cfg, license, Step(cfg, license, f, labels[0]), labels[1..])
  }

  /** Nobody has called yet. */
  ghost predicate Starts(f: Fleet) {
    WellFormed(f.server) && forall i :: 0 <= i < |f.clients| ==> f.clients[i].phase.Ready?
  }

  /** No client has a call left to make. */
  ghost predicate Quiescent(f: Fleet) {
    forall i :: 0 <= i < |f.clients| ==>
      !f.clients[i].phase.Ready? && !f.clients[i].phase.Pending? && !f.clients[i].phase.RollingBack?
  }

  // ---------- Who holds which row ----------

  predicate IsPending(p: Phase) {
    p.Pending? || p.RollingBack?
  }

  /** The client has a row on the server in its name. */
  predicate HasRow(p: Phase) {
    p.Pending? || p.RollingBack? || p.Confirmed? || p.Orphaned?
  }

  function Ids(rows: seq<Row>): set<nat> {
    set row | row in rows :: row.id
  }

  function ConfirmedIds(f: Fleet): set<nat> {
    set i | 0 <= i < |f.clients| && f.clients[i].phase.Confirmed? :: f.clients[i].phase.id
  }

  function PendingIds(f: Fleet): set<nat> {
    set i | 0 <= i < |f.clients| && IsPending(f.clients[i].phase) :: f.clients[i].phase.id
  }

  function OrphanedIds(f: Fleet): set<nat> {
    set i | 0 <= i < |f.clients| && f.clients[i].phase.Orphaned? :: f.clients[i].phase.id
  }

  ghost predicate HeldBySome(f: Fleet, id: nat) {
    exists i :: 0 <= i < |f.clients| && HasRow(f.clients[i].phase) && f.clients[i].phase.id == id
  }

  /** Every row added since the start is some client's. */
  ghost predicate AddedAreHeld(start: ServerState, f: Fleet)
    requires start.rows <= f.server.rows
  {
    forall row :: row in f.server.rows[|start.rows|..] ==> HeldBySome(f, row.id)
  }

  /** Every client's row is on the server, and was not there at the start. */
  ghost predicate HoldersExist(start: ServerState, f: Fleet) {
    forall i :: 0 <= i < |f.clients| && HasRow(f.clients[i].phase) ==>
      start.nextId <= f.clients[i].phase.id && f.clients[i].phase.id in Ids(f.server.rows)
  }

  /** No two clients hold the same row. */
  ghost predicate HoldersApart(f: Fleet) {
    forall i, j :: 0 <= i < j < |f.clients| && HasRow(f.clients[i].phase) && HasRow(f.clients[j].phase) ==>
      f.clients[i].phase.id != f.clients[j].phase.id
  }

  /** What every reachable fleet satisfies, relative to where it began. */
  ghost predicate Invariant(start: ServerState, f: Fleet) {
    && WellFormed(start) && WellFormed(f.server)
    && start.nextId <= f.server.nextId && start.rows <= f.server.rows
    && AddedAreHeld(start, f) && HoldersExist(start, f) && HoldersApart(f)
  }

  lemma HeldElsewhere(f: Fleet, g: Fleet, i: nat, id: nat)
    requires i < |f.clients| == |g.clients|
    requires forall j :: 0 <= j < |f.clients| && j != i ==> g.clients[j] == f.clients[j]
    requires HeldBySome(f, id)
    requires HasRow(f.clients[i].phase) && f.clients[i].phase.id == id
        ==> HasRow(g.clients[i].phase) && g.clients[i].phase.id == id
    ensures HeldBySome(g, id)
  {
    var j :| 0 <= j < |f.clients| && HasRow(f.clients[j].phase) && f.clients[j].phase.id == id;
    assert HasRow(g.clients[j].phase) && g.clients[j].phase.id == id;
  }

  /** A client that keeps its row, or had none and gets none, disturbs nobody. */
  lemma KeepsInvariant(start: ServerState, f: Fleet, i: nat, phase: Phase)
    requires Invariant(start, f) && i < |f.clients|
    requires HasRow(phase) <==> HasRow(f.clients[i].phase)
    requires HasRow(phase) ==> phase.id == f.clients[i].phase.id
    ensures Invariant(start, SetPhase(f, i, f.server, phase))
  {
    var g := SetPhase(f, i, f.server, phase);
    forall row | row in f.server.rows[|start.rows|..] ensures HeldBySome(g, row.id) {
      HeldElsewhere(f, g, i, row.id);
    }
  }

  /** A created row is new, last, and its creator's. */
  lemma CreateKeepsInvariant(cfg: Config, license: nat, start: ServerState, f: Fleet, i: nat, phase: Phase)
    requires Invariant(start, f) && i < |f.clients| && f.clients[i].phase.Ready? && HasRow(phase)
    requires Create(cfg, f.server, license, f.clients[i].fingerprint, f.clients[i].usage).1.Created?
    requires phase.id == f.server.nextId
    ensures Invariant(start,
        SetPhase(f, i, Create(cfg, f.server, license, f.clients[i].fingerprint, f.clients[i].usage).0, phase))
  {
    var (server, reply) := Create(cfg, f.server, license, f.clients[i].fingerprint, f.clients[i].usage);
    CreateKeepsWellFormed(cfg, f.server, license, f.clients[i].fingerprint, f.clients[i].usage);
    var g := SetPhase(f, i, server, phase);
    var rows := f.server.rows;
    assert server.rows == rows + [reply.row];
    assert reply.row in server.rows;
    assert server.rows[|start.rows|..] == rows[|start.rows|..] + [reply.row];
    forall row | row in server.rows[|start.rows|..] ensures HeldBySome(g, row.id) {
      if row == reply.row {
        assert g.clients[i].phase.id == row.id;
      } else {
        HeldElsewhere(f, g, i, row.id);
      }
    }
    forall j | 0 <= j < |g.clients| && HasRow(g.clients[j].phase)
      ensures start.nextId <= g.clients[j].phase.id && g.clients[j].phase.id in Ids(server.rows)
    {
      if j != i {
        var row :| row in rows && row.id == f.clients[j].phase.id;
        assert row in server.rows;
      }
    }
    forall j | 0 <= j < |f.clients| && HasRow(f.clients[j].phase) ensures f.clients[j].phase.id < f.server.nextId {
      var row :| row in rows && row.id == f.clients[j].phase.id;
    }
  }

  /** Deleting a row that was not there at first leaves the first rows in place. */
  lemma DeleteKeepsFirst(first: seq<Row>, rows: seq<Row>, id: nat)
    requires first <= rows && forall row :: row in first ==> row.id != id
    ensures first <= Without(rows, id)
    ensures Without(rows, id)[|first|..] == Without(rows[|first|..], id)
  {
    assert rows == first + rows[|first|..];
    WithoutConcat(first, rows[|first|..], id);
    WithoutAbsent(first, id);
  }

  lemma DeleteKeepsHolders(start: ServerState, f: Fleet, i: nat, phase: Phase)
    requires i < |f.clients| && HasRow(f.clients[i].phase) && !HasRow(phase)
    requires HoldersExist(start, f) && HoldersApart(f)
    ensures
      var g := SetPhase(f, i, Delete(f.server, f.clients[i].phase.id), phase);
      HoldersExist(start, g) && HoldersApart(g)
  {
    var id := f.clients[i].phase.id;
    var g := SetPhase(f, i, Delete(f.server, id), phase);
    forall j | 0 <= j < |g.clients| && HasRow(g.clients[j].phase)
      ensures start.nextId <= g.clients[j].phase.id && g.clients[j].phase.id in Ids(g.server.rows)
    {
      var row :| row in f.server.rows && row.id == f.clients[j].phase.id;
      assert row.id != id;
      assert row in g.server.rows;
    }
  }

  lemma DeleteKeepsAdded(start: ServerState, f: Fleet, i: nat, phase: Phase)
    requires i < |f.clients| && HasRow(f.clients[i].phase) && !HasRow(phase)
    requires start.rows <= f.server.rows && AddedAreHeld(start, f)
    requires forall row :: row in start.rows ==> row.id != f.clients[i].phase.id
    ensures
      var g := SetPhase(f, i, Delete(f.server, f.clients[i].phase.id), phase);
      start.rows <= g.server.rows && AddedAreHeld(start, g)
  {
    var id := f.clients[i].phase.id;
    var g := SetPhase(f, i, Delete(f.server, id), phase);
    DeleteKeepsFirst(start.rows, f.server.rows, id);
    forall row | row in g.server.rows[|start.rows|..] ensures HeldBySome(g, row.id) {
      HeldElsewhere(f, g, i, row.id);
    }
  }

  /** A deleted row was its deleter's alone, and never one of the first ones. */
  lemma DeleteKeepsInvariant(start: ServerState, f: Fleet, i: nat, phase: Phase)
    requires Invariant(start, f) && i < |f.clients| && HasRow(f.clients[i].phase) && !HasRow(phase)
    ensures Invariant(start, SetPhase(f, i, Delete(f.server, f.clients[i].phase.id), phase))
  {
    DeleteKeepsWellFormed(f.server, f.clients[i].phase.id);
    DeleteKeepsAdded(start, f, i, phase);
    DeleteKeepsHolders(start, f, i, phase);
  }

  /** Every step keeps the invariant, faults and masked verdicts included. */
  lemma StepKeepsInvariant(cfg: Config, license: nat, start: ServerState, f: Fleet, l: Label)
    requires Invariant(start, f)
    ensures Invariant(start, Step(cfg, license, f, l))
    ensures |Step(cfg, license, f, l).clients| == |f.clients|
  {
    if l.client < |f.clients| {
      var i, c := l.client, f.clients[l.client];
      match c.phase
      case Ready =>
        if l.fault.RequestLost? {
          KeepsInvariant(start, f, i, Refused(CreateLost));
        } else {
          var (server, reply) := Create(cfg, f.server, license, c.fingerprint, c.usage);
          if reply.Created? {
            var phase := if l.fault.ReplyLost? then Orphaned(reply.row.id) else Pending(reply.row.id);
            CreateKeepsInvariant(cfg, license, start, f, i, phase);
          } else {
            KeepsInvariant(start, f, i, Step(cfg, license, f, l).clients[i].phase);
          }
        }
      case Pending(id) =>
        var code := Verdict(cfg, f.server, license, l.checks);
        KeepsInvariant(start, f, i, Orphaned(id));
        KeepsInvariant(start, f, i, if IsOverLimit(code) then RollingBack(id, code) else Confirmed(id));
      case RollingBack(id, code) =>
        if l.fault.RequestLost? {
          KeepsInvariant(start, f, i, Orphaned(id));
        } else {
          DeleteKeepsInvariant(start, f, i, if l.fault.ReplyLost? then DeletedUnheard else RolledBack(code));
        }
      case _ =>
    }
  }

  lemma {:induction false} ExecKeepsInvariant(cfg: Config, license: nat, start: ServerState, f: Fleet,
                                              labels: seq<Label>)
    requires Invariant(start, f)
    ensures Invariant(start, Exec(cfg, license, f, labels))
    decreases |labels|
  {
    if labels != [] {
      StepKeepsInvariant(cfg, license, start, f, labels[0]);
      ExecKeepsInvariant(cfg, license, start, Step(cfg, license, f, labels[0]), labels[1..]);
    }
  }

  lemma StartsInvariant(f: Fleet)
    requires Starts(f)
    ensures Invariant(f.server, f)
  {
  }

  lemma FirstOrHeld(start: ServerState, f: Fleet, row: Row)
    requires Invariant(start, f) && row in f.server.rows
    ensures row in start.rows || HeldBySome(f, row.id)
  {
    assert f.server.rows == start.rows + f.server.rows[|start.rows|..];
  }

  lemma PartsCover(start: ServerState, g: Fleet)
    requires Invariant(start, g)
    ensures Ids(g.server.rows) == Ids(start.rows) + ConfirmedIds(g) + PendingIds(g) + OrphanedIds(g)
  {
    forall id | id in Ids(g.server.rows)
      ensures id in Ids(start.rows) + ConfirmedIds(g) + PendingIds(g) + OrphanedIds(g)
    {
      var row :| row in g.server.rows && row.id == id;
      FirstOrHeld(start, g, row);
      if row !in start.rows {
        var i :| 0 <= i < |g.clients| && HasRow(g.clients[i].phase) && g.clients[i].phase.id == id;
      }
    }
    forall id | id in Ids(start.rows) ensures id in Ids(g.server.rows) {
      var row :| row in start.rows && row.id == id;
      assert row in g.server.rows;
    }
  }

  lemma PartsApart(start: ServerState, g: Fleet)
    requires Invariant(start, g)
    ensures Ids(start.rows) !! ConfirmedIds(g) !! PendingIds(g) !! OrphanedIds(g)
  {
    forall id | id in Ids(start.rows) ensures id < start.nextId {
    }
  }

  /**
   * In every run the rows are exactly the first ones, the confirmed, the pending and the orphaned, and
   * these never overlap.
   */
  lemma RowsPartition(cfg: Config, license: nat, f: Fleet, labels: seq<Label>)
    requires Starts(f)
    ensures
      var g := Exec(cfg, license, f, labels);
      var first := Ids(f.server.rows);
      && Ids(g.server.rows) == first + ConfirmedIds(g) + PendingIds(g) + OrphanedIds(g)
      && first !! ConfirmedIds(g) !! PendingIds(g) !! OrphanedIds(g)
      && f.server.rows <= g.server.rows
  {
    StartsInvariant(f);
    ExecKeepsInvariant(cfg, license, f.server, f, labels);
    var g := Exec(cfg, license, f, labels);
    PartsCover(f.server, g);
    PartsApart(f.server, g);
  }

  // ---------- Limits ----------

  lemma {:induction false} KeepAppend(rows: seq<Row>, row: Row, ids: set<nat>)
    requires row.id !in ids
    ensures Keep(rows + [row], ids) == Keep(rows, ids)
  {
    if rows == [] {
      assert rows + [row] == [row] && [row][1..] == [];
    } else {
      assert (rows + [row])[1..] == rows[1..] + [row];
      KeepAppend(rows[1..], row, ids);
    }
  }

  lemma {:induction false} KeepWithout(rows: seq<Row>, id: nat, ids: set<nat>)
    requires id !in ids
    ensures Keep(Without(rows, id), ids) == Keep(rows, ids)
  {
    if rows != [] {
      KeepWithout(rows[1..], id, ids);
      var rest := Without(rows[1..], id);
      if rows[0].id == id {
        assert Without(rows, id) == rest;
      } else {
        assert Without(rows, id)[1..] == rest;
      }
    }
  }

  lemma {:induction false} KeepAll(rows: seq<Row>, ids: set<nat>)
    requires forall row :: row in rows ==> row.id in ids
    ensures Keep(rows, ids) == rows
  {
    if rows != [] {
      assert rows == [rows[0]] + rows[1..];
      KeepAll(rows[1..], ids);
    }
  }

  /** The rows there at the start and the rows of confirmed activations. */
  function Settled(start: ServerState, f: Fleet): seq<Row> {
    Keep(f.server.rows, Ids(start.rows) + ConfirmedIds(f))
  }

  /** Once anything is confirmed, the settled rows fit the validate ceiling. */
  ghost predicate SettledFits(cfg: Config, license: nat, start: ServerState, f: Fleet) {
    ConfirmedIds(f) != {} ==> Within(cfg.validateCeiling, TotalsOf(Settled(start, f), license))
  }

  /** A step that confirms nobody leaves the confirmed as they were. */
  lemma SameConfirmed(f: Fleet, i: nat, server: ServerState, phase: Phase)
    requires i < |f.clients| && !f.clients[i].phase.Confirmed? && !phase.Confirmed?
    ensures ConfirmedIds(SetPhase(f, i, server, phase)) == ConfirmedIds(f)
  {
    var g := SetPhase(f, i, server, phase);
    forall id | id in ConfirmedIds(f) ensures id in ConfirmedIds(g) {
      var j :| 0 <= j < |f.clients| && f.clients[j].phase.Confirmed? && f.clients[j].phase.id == id;
      assert g.clients[j] == f.clients[j];
    }
    forall id | id in ConfirmedIds(g) ensures id in ConfirmedIds(f) {
      var j :| 0 <= j < |g.clients| && g.clients[j].phase.Confirmed? && g.clients[j].phase.id == id;
      assert g.clients[j] == f.clients[j];
    }
  }

  lemma ReadyKeepsSettled(cfg: Config, license: nat, start: ServerState, f: Fleet, l: Label)
    requires Invariant(start, f) && l.client < |f.clients| && f.clients[l.client].phase.Ready?
    ensures
      var g := Step(cfg, license, f, l);
      ConfirmedIds(g) == ConfirmedIds(f) && Settled(start, g) == Settled(start, f)
  {
    var g := Step(cfg, license, f, l);
    SameConfirmed(f, l.client, g.server, g.clients[l.client].phase);
    var n := |f.server.rows|;
    if g.server.rows != f.server.rows {
      FreshIsUnsettled(start, f, f.server.nextId);
      assert g.server.rows == f.server.rows + [g.server.rows[n]];
      KeepAppend(f.server.rows, g.server.rows[n], Ids(start.rows) + ConfirmedIds(f));
    }
  }

  lemma DeleteKeepsSettled(start: ServerState, f: Fleet, i: nat, phase: Phase)
    requires Invariant(start, f) && i < |f.clients| && f.clients[i].phase.RollingBack? && !phase.Confirmed?
    ensures
      var g := SetPhase(f, i, Delete(f.server, f.clients[i].phase.id), phase);
      ConfirmedIds(g) == ConfirmedIds(f) && Settled(start, g) == Settled(start, f)
  {
    var id := f.clients[i].phase.id;
    SameConfirmed(f, i, Delete(f.server, id), phase);
    OwnIsUnsettled(start, f, i);
    KeepWithout(f.server.rows, id, Ids(start.rows) + ConfirmedIds(f));
  }

  lemma RollbackKeepsSettled(cfg: Config, license: nat, start: ServerState, f: Fleet, l: Label)
    requires Invariant(start, f) && l.client < |f.clients| && f.clients[l.client].phase.RollingBack?
    ensures
      var g := Step(cfg, license, f, l);
      ConfirmedIds(g) == ConfirmedIds(f) && Settled(start, g) == Settled(start, f)
  {
    var i, id, code := l.client, f.clients[l.client].phase.id, f.clients[l.client].phase.code;
    if l.fault.RequestLost? {
      SameConfirmed(f, i, f.server, Orphaned(id));
    } else {
      DeleteKeepsSettled(start, f, i, if l.fault.ReplyLost? then DeletedUnheard else RolledBack(code));
    }
  }

  // ---------- Which validations confirm ----------

  /** The step is a validation that confirms its activation. */
  predicate Confirms(cfg: Config, license: nat, f: Fleet, l: Label) {
    && l.client < |f.clients| && f.clients[l.client].phase.Pending? && l.fault.NoFault?
    && !IsOverLimit(Verdict(cfg, f.server, license, l.checks))
  }

  /** The step confirms an activation although an earlier check hid that the license is over a limit. */
  predicate Slips(cfg: Config, license: nat, f: Fleet, l: Label) {
    && Confirms(cfg, license, f, l) && l.checks.earlierFails
    && !Within(cfg.validateCeiling, TotalsOf(f.server.rows, license))
  }

  /**
   * An unlost validation confirms exactly when an earlier check fails or nothing is over a limit. So
   * confirming on a server over its limits is slipping.
   */
  lemma ConfirmsExactly(cfg: Config, license: nat, f: Fleet, l: Label)
    requires l.client < |f.clients| && f.clients[l.client].phase.Pending? && l.fault.NoFault?
    ensures
      var fits := Within(cfg.validateCeiling, TotalsOf(f.server.rows, license));
      var confirmed := Step(cfg, license, f, l).clients[l.client].phase == Confirmed(f.clients[l.client].phase.id);
      && (confirmed <==> l.checks.earlierFails || (fits && !l.checks.tooManyProcesses))
      && (confirmed && !fits <==> Slips(cfg, license, f, l))
  {
  }

  /** Whether the last confirmation of a run, if it has any, slipped; `slipped` is the answer so far. */
  predicate LastSlipped(cfg: Config, license: nat, f: Fleet, labels: seq<Label>, slipped: bool)
    decreases |labels|
  {
    if labels == [] then slipped
    else
      var l := labels[0];
      LastSlipped(cfg, license, Step(cfg, license, f, l), labels[1..],
                  if Confirms(cfg, license, f, l) then Slips(cfg, license, f, l) else slipped)
  }

  /** A confirmation that did not slip says the whole server fits, so the settled part of it does. */
  lemma ValidateSettles(cfg: Config, license: nat, start: ServerState, f: Fleet, l: Label)
    requires Invariant(start, f) && l.client < |f.clients| && f.clients[l.client].phase.Pending?
    ensures
      var g := Step(cfg, license, f, l);
      if Confirms(cfg, license, f, l) then Slips(cfg, license, f, l) || SettledFits(cfg, license, start, g)
      else SettledFits(cfg, license, start, f) ==> SettledFits(cfg, license, start, g)
  {
    var g := Step(cfg, license, f, l);
    if Confirms(cfg, license, f, l) {
      ConfirmsExactly(cfg, license, f, l);
      KeepTotalsLess(g.server.rows, Ids(start.rows) + ConfirmedIds(g), license);
    } else {
      SameConfirmed(f, l.client, g.server, g.clients[l.client].phase);
    }
  }

  lemma StepSettles(cfg: Config, license: nat, start: ServerState, f: Fleet, l: Label)
    requires Invariant(start, f)
    ensures
      var g := Step(cfg, license, f, l);
      if Confirms(cfg, license, f, l) then Slips(cfg, license, f, l) || SettledFits(cfg, license, start, g)
      else SettledFits(cfg, license, start, f) ==> SettledFits(cfg, license, start, g)
  {
    if l.client < |f.clients| {
      match f.clients[l.client].phase
      case Ready => ReadyKeepsSettled(cfg, license, start, f, l);
      case Pending(_) => ValidateSettles(cfg, license, start, f, l);
      case RollingBack(_, _) => RollbackKeepsSettled(cfg, license, start, f, l);
      case _ =>
    }
  }

  lemma FreshIsUnsettled(start: ServerState, f: Fleet, id: nat)
    requires Invariant(start, f) && id == f.server.nextId
    ensures id !in Ids(start.rows) + ConfirmedIds(f)
  {
    forall i | 0 <= i < |f.clients| && f.clients[i].phase.Confirmed? ensures f.clients[i].phase.id != id {
      var row :| row in f.server.rows && row.id == f.clients[i].phase.id;
    }
  }

  lemma OwnIsUnsettled(start: ServerState, f: Fleet, i: nat)
    requires Invariant(start, f) && i < |f.clients| && f.clients[i].phase.RollingBack?
    ensures f.clients[i].phase.id !in Ids(start.rows) + ConfirmedIds(f)
  {
    forall j | 0 <= j < |f.clients| && f.clients[j].phase.Confirmed?
      ensures f.clients[j].phase.id != f.clients[i].phase.id
    {
      assert i != j;
    }
  }

  lemma {:induction false} ExecSettles(cfg: Config, license: nat, start: ServerState, f: Fleet, labels: seq<Label>,
                                       slipped: bool)
    requires Invariant(start, f) && (slipped || SettledFits(cfg, license, start, f))
    ensures LastSlipped(cfg, license, f, labels, slipped)
        || SettledFits(cfg, license, start, Exec(cfg, license, f, labels))
    decreases |labels|
  {
    if labels != [] {
      var l := labels[0];
      StepKeepsInvariant(cfg, license, start, f, l);
      StepSettles(cfg, license, start, f, l);
      ExecSettles(cfg, license, start, Step(cfg, license, f, l), labels[1..],
                  if Confirms(cfg, license, f, l) then Slips(cfg, license, f, l) else slipped);
    }
  }

  /**
   * Whatever calls are lost: a run that ends with the first rows and the confirmed ones together over
   * the validate ceiling confirmed something, and an earlier check hid the verdict from its last
   * confirmation. Every other run fits.
   */
  lemma ConfirmedRowsFit(cfg: Config, license: nat, f: Fleet, labels: seq<Label>)
    requires Starts(f)
    ensures
      var g := Exec(cfg, license, f, labels);
      ConfirmedIds(g) != {} && !Within(cfg.validateCeiling, TotalsOf(Settled(f.server, g), license))
      ==> LastSlipped(cfg, license, f, labels, false)
  {
    StartsInvariant(f);
    ExecSettles(cfg, license, f.server, f, labels, false);
  }

  // ---------- Quiescence ----------

  ghost predicate NoneOrphaned(f: Fleet) {
    forall i :: 0 <= i < |f.clients| ==> !f.clients[i].phase.Orphaned?
  }

  /** A lost call that leaves a row behind: the reply to a create, a validation, or the request to delete. */
  predicate Strands(cfg: Config, license: nat, f: Fleet, l: Label) {
    l.client < |f.clients| &&
    var c := f.clients[l.client];
    match c.phase
    case Ready => l.fault.ReplyLost? && Create(cfg, f.server, license, c.fingerprint, c.usage).1.Created?
    case Pending(_) => !l.fault.NoFault?
    case RollingBack(_, _) => l.fault.RequestLost?
    case _ => false
  }

  predicate NothingStranded(cfg: Config, license: nat, f: Fleet, labels: seq<Label>)
    decreases |labels|
  {
    labels != [] ==>
      !Strands(cfg, license, f, labels[0])
        && NothingStranded(cfg, license, Step(cfg, license, f, labels[0]), labels[1..])
  }

  lemma StepOrphans(cfg: Config, license: nat, f: Fleet, l: Label)
    ensures NoneOrphaned(Step(cfg, license, f, l)) <==> NoneOrphaned(f) && !Strands(cfg, license, f, l)
  {
    var g := Step(cfg, license, f, l);
    if l.client < |f.clients| {
      assert forall i :: 0 <= i < |f.clients| && i != l.client ==> g.clients[i] == f.clients[i];
      assert g.clients[l.client].phase.Orphaned?
        <==> f.clients[l.client].phase.Orphaned? || Strands(cfg, license, f, l);
    }
  }

  /** A run orphans a row exactly when one of its lost calls strands one. */
  lemma {:induction false} OrphansAreStranded(cfg: Config, license: nat, f: Fleet, labels: seq<Label>)
    ensures NoneOrphaned(Exec(cfg, license, f, labels)) <==> NoneOrphaned(f) && NothingStranded(cfg, license, f, labels)
    decreases |labels|
  {
    if labels != [] {
      StepOrphans(cfg, license, f, labels[0]);
      OrphansAreStranded(cfg, license, Step(cfg, license, f, labels[0]), labels[1..]);
    }
  }

  /** When every call has ended and none orphaned a row, all rows are settled. */
  lemma AllRowsSettled(start: ServerState, g: Fleet)
    requires Invariant(start, g) && Quiescent(g) && NoneOrphaned(g)
    ensures Settled(start, g) == g.server.rows
  {
    var ids := Ids(start.rows) + ConfirmedIds(g);
    forall row | row in g.server.rows ensures row.id in ids {
      FirstOrHeld(start, g, row);
      if row !in start.rows {
        var i :| 0 <= i < |g.clients| && HasRow(g.clients[i].phase) && g.clients[i].phase.id == row.id;
        assert g.clients[i].phase.Confirmed?;
      }
    }
    KeepAll(g.server.rows, ids);
  }

  /**
   * A finished run in which no lost call strands a row: if nothing was confirmed, the rows are as they
   * began; if anything was, all rows on the server fit the validate ceiling, unless the last
   * confirmation slipped.
   */
  lemma QuiescentFleet(cfg: Config, license: nat, f: Fleet, labels: seq<Label>)
    requires Starts(f)
    ensures
      var g := Exec(cfg, license, f, labels);
      Quiescent(g) && NothingStranded(cfg, license, f, labels) ==>
        && (ConfirmedIds(g) == {} ==> g.server.rows == f.server.rows)
        && (ConfirmedIds(g) != {} && !Within(cfg.validateCeiling, TotalsOf(g.server.rows, license))
            ==> LastSlipped(cfg, license, f, labels, false))
  {
    var g := Exec(cfg, license, f, labels);
    StartsInvariant(f);
    ExecKeepsInvariant(cfg, license, f.server, f, labels);
    OrphansAreStranded(cfg, license, f, labels);
    if Quiescent(g) && NothingStranded(cfg, license, f, labels) {
      ConfirmedRowsFit(cfg, license, f, labels);
      AllRowsSettled(f.server, g);
      if ConfirmedIds(g) == {} {
        NothingHeldNothingAdded(f.server, g);
      }
    }
  }

  // ---------- Every call ends ----------

  /** How many of its own steps a client has yet to take. */
  function Remaining(p: Phase): nat {
    match p
    case Ready => 3
    case Pending(_) => 2
    case RollingBack(_, _) => 1
    case _ => 0
  }

  /** How many steps of a run are client `i`'s. */
  function StepsOf(labels: seq<Label>, i: nat): nat {
    if labels == [] then 0 else (if labels[0].client == i then 1 else 0) + StepsOf(labels[1..], i)
  }

  lemma {:induction false} StepsUseUpRemaining(cfg: Config, license: nat, f: Fleet, labels: seq<Label>, i: nat)
    requires i < |f.clients|
    ensures
      var g := Exec(cfg, license, f, labels);
      && |g.clients| == |f.clients|
      && (Remaining(g.clients[i].phase) == 0
          || Remaining(g.clients[i].phase) + StepsOf(labels, i) <= Remaining(f.clients[i].phase))
    decreases |labels|
  {
    if labels != [] {
      StepsUseUpRemaining(cfg, license, Step(cfg, license, f, labels[0]), labels[1..], i);
    }
  }

  /** Whatever is lost and however they interleave, three steps of each client end every call. */
  lemma ThreeStepsEndEveryCall(cfg: Config, license: nat, f: Fleet, labels: seq<Label>)
    ensures (forall i :: 0 <= i < |f.clients| ==> StepsOf(labels, i) >= 3) ==> Quiescent(Exec(cfg, license, f, labels))
  {
    var g := Exec(cfg, license, f, labels);
    ExecKeepsClients(cfg, license, f, labels);
    if forall i :: 0 <= i < |f.clients| ==> StepsOf(labels, i) >= 3 {
      forall i | 0 <= i < |g.clients| ensures Remaining(g.clients[i].phase) == 0 {
        StepsUseUpRemaining(cfg, license, f, labels, i);
      }
    }
  }

  lemma {:induction false} ExecKeepsClients(cfg: Config, license: nat, f: Fleet, labels: seq<Label>)
    ensures |Exec(cfg, license, f, labels).clients| == |f.clients|
    decreases |labels|
  {
    if labels != [] {
      ExecKeepsClients(cfg, license, Step(cfg, license, f, labels[0]), labels[1..]);
    }
  }

  lemma SomeMember(rows: seq<Row>)
    ensures rows != [] ==> exists row :: row in rows
  {
    if rows != [] {
      assert rows[0] in rows;
    }
  }

  lemma NothingHeldNothingAdded(start: ServerState, g: Fleet)
    requires Invariant(start, g) && forall i :: 0 <= i < |g.clients| ==> !HasRow(g.clients[i].phase)
    ensures g.server.rows == start.rows
  {
    var added := g.server.rows[|start.rows|..];
    assert g.server.rows == start.rows + added;
    forall row ensures row !in added {
      assert row in added ==> HeldBySome(g, row.id);
    }
    SomeMember(added);
  }

  /**
   * Slipping is real, for every ceiling and every server that lets the create through: the activation
   * that follows is confirmed exactly when an earlier check fails or the server it leaves is within
   * its limits, and then its row stays.
   */
  lemma MaskedVerdictConfirms(cfg: Config, license: nat, server: ServerState, client: Client,
                              before: OtherChecks, checks: OtherChecks)
    requires WellFormed(server) && client.phase.Ready?
    requires Create(cfg, server, license, client.fingerprint, client.usage).1.Created?
    ensures
      var f := Fleet(server, [client]);
      var labels := [Label(0, NoFault, before), Label(0, NoFault, checks)];
      var after := Create(cfg, server, license, client.fingerprint, client.usage).0;
      var fits := Within(cfg.validateCeiling, TotalsOf(after.rows, license));
      var g := Exec(cfg, license, f, labels);
      && Starts(f) && g.server == after
      && (ConfirmedIds(g) == {server.nextId} <==> checks.earlierFails || (fits && !checks.tooManyProcesses))
      && (ConfirmedIds(g) == {} <==> !checks.earlierFails && (!fits || checks.tooManyProcesses))
      && (LastSlipped(cfg, license, f, labels, false) <==> checks.earlierFails && !fits)
  {
    var f := Fleet(server, [client]);
    var l, m := Label(0, NoFault, before), Label(0, NoFault, checks);
    var one := Step(cfg, license, f, l);
    assert one.clients == [client.(phase := Pending(server.nextId))];
    ConfirmsExactly(cfg, license, one, m);
    var two := Step(cfg, license, one, m);
    assert [l, m][1..] == [m] && [m][1..] == [];
    assert Exec(cfg, license, f, [l, m]) == Exec(cfg, license, one, [m]) == Exec(cfg, license, two, []) == two;
    assert !Confirms(cfg, license, f, l);
    assert LastSlipped(cfg, license, f, [l, m], false) == LastSlipped(cfg, license, one, [m], false)
        == Slips(cfg, license, one, m);
    if two.clients[0].phase.Confirmed? {
      assert two.clients[0].phase.id in ConfirmedIds(two);
      assert ConfirmedIds(two) == {server.nextId};
    } else {
      assert ConfirmedIds(two) == {};
    }
  }
}
