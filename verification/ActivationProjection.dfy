/** The fleet and the client are one protocol: each client of an interleaved run does what `activate_machine` does. */
module ActivationProjection {
  import opened Common
  import opened MachineServer
  import opened ActivationFleet
  import opened Activation
  import opened ActivationTheorems

  /** A phase in which the call has ended. */
  predicate Ended(p: Phase) {
    !p.Ready? && !p.Pending? && !p.RollingBack?
  }

  /** The outcome `activate_machine` reports for a phase in which a client ends. */
  predicate Reports(p: Phase, outcome: Outcome)
    requires Ended(p)
  {
    match p
    case Confirmed(id) => outcome.Ok? && outcome.value.id == id
    case RolledBack(code) => outcome == Err(OverLimit(code, true))
    case Refused(CreateLost) => FollowsCreate(None, outcome)
    case Refused(Conflict(machineId)) => FollowsCreate(Some(Taken(machineId)), outcome)
    case Refused(AtLimit(limit)) => FollowsCreate(Some(LimitExceeded(limit)), outcome)
    case Orphaned(_) => outcome == Err(CallFailed)
    case DeletedUnheard => outcome == Err(CallFailed)
  }

  // ---------- What the others do in between ----------

  /** What one step of the fleet does to the server, as an action of somebody else. */
  function Deed(license: nat, f: Fleet, l: Label): seq<OtherAction> {
    if l.client >= |f.clients| || l.fault.RequestLost? then []
    else
      var c := f.clients[l.client];
      match c.phase
      case Ready => [OtherCreate(license, c.fingerprint, c.usage)]
      case RollingBack(id, _) => [OtherDelete(id)]
      case _ => []
  }

  lemma DeedIsTheStep(cfg: Config, license: nat, f: Fleet, l: Label)
    ensures Step(cfg, license, f, l).server == ActAll(cfg, f.server, Deed(license, f, l))
  {
    var deed := Deed(license, f, l);
    if deed != [] {
      assert deed[1..] == [];
      assert ActAll(cfg, f.server, deed) == Act(cfg, f.server, deed[0]);
    }
  }

  lemma {:induction false} ActAllConcat(cfg: Config, s: ServerState, a: seq<OtherAction>, b: seq<OtherAction>)
    ensures ActAll(cfg, s, a + b) == ActAll(cfg, ActAll(cfg, s, a), b)
    decreases |a|
  {
    if a == [] {
      assert a + b == b;
    } else {
      assert (a + b)[1..] == a[1..] + b;
      ActAllConcat(cfg, Act(cfg, s, a[0]), a[1..], b);
    }
  }

  /** The other clients' deeds just before client `i`'s step number `k`. */
  function Between(cfg: Config, license: nat, f: Fleet, labels: seq<Label>, i: nat, k: nat): seq<OtherAction>
    decreases |labels|
  {
    if labels == [] then []
    else
      var g := Step(cfg, license, f, labels[0]);
      if labels[0].client == i then (if k == 0 then [] else Between(cfg, license, g, labels[1..], i, k - 1))
      else if k > 0 then Between(cfg, license, g, labels[1..], i, k)
      else Deed(license, f, labels[0]) + Between(cfg, license, g, labels[1..], i, 0)
  }

  predicate HasStep(labels: seq<Label>, i: nat) {
    labels != [] && (labels[0].client == i || HasStep(labels[1..], i))
  }

  /** Client `i`'s step number `k`; what it is when there is none makes no difference. */
  function OwnLabel(labels: seq<Label>, i: nat, k: nat): Label {
    if labels == [] then Label(i, NoFault, OtherChecks(false, false, false))
    else if labels[0].client != i then OwnLabel(labels[1..], i, k)
    else if k == 0 then labels[0]
    else OwnLabel(labels[1..], i, k - 1)
  }

  /** The environment in which client `i` lives: the others' steps are what happens between its calls. */
  function Surroundings(cfg: Config, license: nat, f: Fleet, labels: seq<Label>, i: nat,
                        matches: (Row, string) -> bool,
                        pages: (nat, ServerState, nat, string, PageNumber) -> OffsetPage): Env
  {
    Env(cfg, (k: nat) => Between(cfg, license, f, labels, i, k), (k: nat) => OwnLabel(labels, i, k).fault,
        (k: nat) => OwnLabel(labels, i, k).checks, matches, pages)
  }

  /** From call `offset` on, the environment is what the rest of the run does around client `i`. */
  ghost predicate Surrounds(env: Env, offset: nat, license: nat, f: Fleet, labels: seq<Label>, i: nat) {
    forall k: nat ::
      && env.others(offset + k) == Between(env.cfg, license, f, labels, i, k)
      && env.faults(offset + k) == OwnLabel(labels, i, k).fault
      && env.checks(offset + k) == OwnLabel(labels, i, k).checks
  }

  // ---------- Up to the client's next step ----------

  lemma {:induction false} NoStepNoChange(cfg: Config, license: nat, f: Fleet, labels: seq<Label>, i: nat)
    requires i < |f.clients| && !HasStep(labels, i)
    ensures |Exec(cfg, license, f, labels).clients| == |f.clients|
    ensures Exec(cfg, license, f, labels).clients[i] == f.clients[i]
    decreases |labels|
  {
    if labels != [] {
      NoStepNoChange(cfg, license, Step(cfg, license, f, labels[0]), labels[1..], i);
    }
  }

  lemma {:induction false} EndedStays(cfg: Config, license: nat, f: Fleet, labels: seq<Label>, i: nat)
    requires i < |f.clients| && Ended(f.clients[i].phase)
    ensures |Exec(cfg, license, f, labels).clients| == |f.clients|
    ensures Exec(cfg, license, f, labels).clients[i] == f.clients[i]
    decreases |labels|
  {
    if labels != [] {
      EndedStays(cfg, license, Step(cfg, license, f, labels[0]), labels[1..], i);
    }
  }

  /** The fleet when client `i` takes its next step, and the run after it. */
  datatype Arrived = Arrived(fleet: Fleet, own: Label, rest: seq<Label>)

  function Approach(cfg: Config, license: nat, f: Fleet, labels: seq<Label>, i: nat): Arrived
    requires HasStep(labels, i)
    decreases |labels|
  {
    if labels[0].client == i then Arrived(f, labels[0], labels[1..])
    else Approach(cfg, license, Step(cfg, license, f, labels[0]), labels[1..], i)
  }

  lemma {:induction false} ApproachOwn(cfg: Config, license: nat, f: Fleet, labels: seq<Label>, i: nat)
    requires i < |f.clients| && HasStep(labels, i)
    ensures
      var a := Approach(cfg, license, f, labels, i);
      && |a.fleet.clients| == |f.clients| && a.fleet.clients[i] == f.clients[i]
      && a.own == OwnLabel(labels, i, 0) && a.own.client == i
    decreases |labels|
  {
    if labels[0].client != i {
      ApproachOwn(cfg, license, Step(cfg, license, f, labels[0]), labels[1..], i);
    }
  }

  lemma {:induction false} ApproachServer(cfg: Config, license: nat, f: Fleet, labels: seq<Label>, i: nat)
    requires HasStep(labels, i)
    ensures Approach(cfg, license, f, labels, i).fleet.server
        == ActAll(cfg, f.server, Between(cfg, license, f, labels, i, 0))
    decreases |labels|
  {
    if labels[0].client != i {
      var g := Step(cfg, license, f, labels[0]);
      ApproachServer(cfg, license, g, labels[1..], i);
      DeedIsTheStep(cfg, license, f, labels[0]);
      ActAllConcat(cfg, f.server, Deed(license, f, labels[0]), Between(cfg, license, g, labels[1..], i, 0));
    }
  }

  lemma {:induction false} ApproachExec(cfg: Config, license: nat, f: Fleet, labels: seq<Label>, i: nat)
    requires HasStep(labels, i)
    ensures
      var a := Approach(cfg, license, f, labels, i);
      Exec(cfg, license, f, labels) == Exec(cfg, license, Step(cfg, license, a.fleet, a.own), a.rest)
    decreases |labels|
  {
    if labels[0].client != i {
      ApproachExec(cfg, license, Step(cfg, license, f, labels[0]), labels[1..], i);
    }
  }

  lemma {:induction false} ApproachShifts(cfg: Config, license: nat, f: Fleet, labels: seq<Label>, i: nat, k: nat)
    requires HasStep(labels, i)
    ensures
      var a := Approach(cfg, license, f, labels, i);
      && Between(cfg, license, f, labels, i, k + 1)
         == Between(cfg, license, Step(cfg, license, a.fleet, a.own), a.rest, i, k)
      && OwnLabel(labels, i, k + 1) == OwnLabel(a.rest, i, k)
    decreases |labels|
  {
    if labels[0].client != i {
      ApproachShifts(cfg, license, Step(cfg, license, f, labels[0]), labels[1..], i, k);
    }
  }

  lemma {:induction false} ApproachKeepsInvariant(cfg: Config, license: nat, start: ServerState, f: Fleet,
                                                  labels: seq<Label>, i: nat)
    requires Invariant(start, f) && HasStep(labels, i)
    ensures Invariant(start, Approach(cfg, license, f, labels, i).fleet)
    decreases |labels|
  {
    if labels[0].client != i {
      StepKeepsInvariant(cfg, license, start, f, labels[0]);
      ApproachKeepsInvariant(cfg, license, start, Step(cfg, license, f, labels[0]), labels[1..], i);
    }
  }

  /** The call arrives at the fleet's server and fares as the label says. */
  ghost predicate ArrivesAs(env: Env, w: World, f: Fleet, l: Label) {
    && l.client < |f.clients| && Arrival(env, w) == f.server
    && FaultNow(env, w) == l.fault && env.checks(|w.calls|) == l.checks
  }

  /**
   * Client `i`'s next step and its next call: the call arrives at the fleet's server, fares as the label
   * says, and what follows surrounds the calls after it.
   */
  lemma NextCall(env: Env, w: World, license: nat, start: ServerState, f: Fleet, labels: seq<Label>,
                 i: nat) returns (a: Arrived)
    requires i < |f.clients| && HasStep(labels, i) && Invariant(start, f)
    requires w.server == f.server && Surrounds(env, |w.calls|, license, f, labels, i)
    ensures Invariant(start, a.fleet) && a.own.client == i
    ensures |a.fleet.clients| == |f.clients| && a.fleet.clients[i] == f.clients[i]
    ensures ArrivesAs(env, w, a.fleet, a.own)
    ensures Invariant(start, Step(env.cfg, license, a.fleet, a.own))
    ensures Exec(env.cfg, license, f, labels) == Exec(env.cfg, license, Step(env.cfg, license, a.fleet, a.own), a.rest)
    ensures Surrounds(env, |w.calls| + 1, license, Step(env.cfg, license, a.fleet, a.own), a.rest, i)
  {
    var cfg, offset := env.cfg, |w.calls|;
    a := Approach(cfg, license, f, labels, i);
    ApproachOwn(cfg, license, f, labels, i);
    ApproachServer(cfg, license, f, labels, i);
    ApproachExec(cfg, license, f, labels, i);
    ApproachKeepsInvariant(cfg, license, start, f, labels, i);
    StepKeepsInvariant(cfg, license, start, a.fleet, a.own);
    assert env.others(offset + 0) == Between(cfg, license, f, labels, i, 0);
    assert env.faults(offset + 0) == OwnLabel(labels, i, 0).fault;
    forall k: nat
      ensures env.others(offset + 1 + k) == Between(cfg, license, Step(cfg, license, a.fleet, a.own), a.rest, i, k)
      ensures env.faults(offset + 1 + k) == OwnLabel(a.rest, i, k).fault
      ensures env.checks(offset + 1 + k) == OwnLabel(a.rest, i, k).checks
    {
      ApproachShifts(cfg, license, f, labels, i, k);
      assert env.others(offset + (k + 1)) == Between(cfg, license, f, labels, i, k + 1);
    }
  }

  // ---------- The three calls ----------

  /** Wherever the run leaves client `i`, if its call has ended there then it reports this outcome. */
  ghost predicate EndsReporting(cfg: Config, license: nat, f: Fleet, labels: seq<Label>, i: nat, outcome: Outcome) {
    var g := Exec(cfg, license, f, labels);
    && i < |f.clients| == |g.clients|
    && (Ended(g.clients[i].phase) ==> Reports(g.clients[i].phase, outcome))
  }

  /** What `activate_machine` does from its rollback on. */
  function AfterVerdict(env: Env, w: World, row: Row, code: ValidationCode): (World, Outcome) {
    if !IsOverLimit(code) then (w, Ok(row))
    else
      var (w', deleted) := CallDelete(env, w, row.id);
      (w', Err(if deleted == Some(true) then OverLimit(code, true) else CallFailed))
  }

  /** What `activate_machine` does from its validation on. */
  function AfterCreate(env: Env, w: World, license: nat, row: Row): (World, Outcome) {
    var (w', verdict) := CallValidate(env, w, license);
    match verdict
    case None => (w', Err(CallFailed))
    case Some(code) => AfterVerdict(env, w', row, code)
  }

  lemma RollbackStep(env: Env, w: World, license: nat, f: Fleet, l: Label, row: Row, code: ValidationCode)
    requires ArrivesAs(env, w, f, l) && f.clients[l.client].phase == RollingBack(row.id, code) && IsOverLimit(code)
    requires exists held :: held in f.server.rows && held.id == row.id
    ensures
      var p := Step(env.cfg, license, f, l).clients[l.client].phase;
      Ended(p) && Reports(p, AfterVerdict(env, w, row, code).1)
  {
    assert Get(f.server, row.id).Some?;
  }

  lemma ValidateStep(env: Env, w: World, license: nat, f: Fleet, l: Label, row: Row)
    requires ArrivesAs(env, w, f, l) && f.clients[l.client].phase == Pending(row.id)
    ensures
      var g := Step(env.cfg, license, f, l);
      var p := g.clients[l.client].phase;
      var (w1, verdict) := CallValidate(env, w, license);
      && w1.server == g.server && |w1.calls| == |w.calls| + 1 && |g.clients| == |f.clients|
      && if verdict.Some? && IsOverLimit(verdict.value) then
           && p == RollingBack(row.id, verdict.value)
           && AfterCreate(env, w, license, row) == AfterVerdict(env, w1, row, verdict.value)
         else Ended(p) && Reports(p, AfterCreate(env, w, license, row).1)
  {
  }

  lemma CreateStep(env: Env, w: World, license: nat, f: Fleet, l: Label)
    requires ArrivesAs(env, w, f, l) && f.clients[l.client].phase.Ready?
    ensures
      var c := f.clients[l.client];
      var g := Step(env.cfg, license, f, l);
      var p := g.clients[l.client].phase;
      var (w1, created) := CallCreate(env, w, license, c.fingerprint, c.usage);
      && w1.server == g.server && |w1.calls| == |w.calls| + 1 && |g.clients| == |f.clients|
      && if created.Some? && created.value.Created? then
           && p == Pending(created.value.row.id)
           && Activate(env, w, license, c.fingerprint, c.usage) == AfterCreate(env, w1, license, created.value.row)
         else Ended(p) && Reports(p, Activate(env, w, license, c.fingerprint, c.usage).1)
  {
  }

  lemma RollbackStage(env: Env, w: World, license: nat, start: ServerState, f: Fleet, labels: seq<Label>, i: nat,
                      row: Row, code: ValidationCode)
    requires i < |f.clients| && Invariant(start, f) && f.clients[i].phase == RollingBack(row.id, code)
        && IsOverLimit(code)
    requires w.server == f.server && Surrounds(env, |w.calls|, license, f, labels, i)
    ensures EndsReporting(env.cfg, license, f, labels, i, AfterVerdict(env, w, row, code).1)
  {
    if HasStep(labels, i) {
      var a := NextCall(env, w, license, start, f, labels, i);
      RollbackStep(env, w, license, a.fleet, a.own, row, code);
      EndedStays(env.cfg, license, Step(env.cfg, license, a.fleet, a.own), a.rest, i);
    } else {
      NoStepNoChange(env.cfg, license, f, labels, i);
    }
  }

  lemma ValidateStage(env: Env, w: World, license: nat, start: ServerState, f: Fleet, labels: seq<Label>, i: nat,
                      row: Row)
    requires i < |f.clients| && Invariant(start, f) && f.clients[i].phase == Pending(row.id)
    requires w.server == f.server && Surrounds(env, |w.calls|, license, f, labels, i)
    ensures EndsReporting(env.cfg, license, f, labels, i, AfterCreate(env, w, license, row).1)
  {
    if HasStep(labels, i) {
      var a := NextCall(env, w, license, start, f, labels, i);
      var g := Step(env.cfg, license, a.fleet, a.own);
      ValidateStep(env, w, license, a.fleet, a.own, row);
      var (w1, verdict) := CallValidate(env, w, license);
      if verdict.Some? && IsOverLimit(verdict.value) {
        RollbackStage(env, w1, license, start, g, a.rest, i, row, verdict.value);
      } else {
        EndedStays(env.cfg, license, g, a.rest, i);
      }
    } else {
      NoStepNoChange(env.cfg, license, f, labels, i);
    }
  }

  lemma CreateStage(env: Env, w: World, license: nat, start: ServerState, f: Fleet, labels: seq<Label>, i: nat)
    requires i < |f.clients| && Invariant(start, f) && f.clients[i].phase.Ready?
    requires w.server == f.server && Surrounds(env, |w.calls|, license, f, labels, i)
    ensures EndsReporting(env.cfg, license, f, labels, i,
                          Activate(env, w, license, f.clients[i].fingerprint, f.clients[i].usage).1)
  {
    var c := f.clients[i];
    if HasStep(labels, i) {
      var a := NextCall(env, w, license, start, f, labels, i);
      var g := Step(env.cfg, license, a.fleet, a.own);
      CreateStep(env, w, license, a.fleet, a.own);
      var (w1, created) := CallCreate(env, w, license, c.fingerprint, c.usage);
      if created.Some? && created.value.Created? {
        ValidateStage(env, w1, license, start, g, a.rest, i, created.value.row);
      } else {
        EndedStays(env.cfg, license, g, a.rest, i);
      }
    } else {
      NoStepNoChange(env.cfg, license, f, labels, i);
    }
  }

  /**
   * In any run of any fleet, each client that has ended reports what `activate_machine` returns in the
   * environment made of the other clients' steps and of its own labels, faults included.
   */
  lemma FleetRefinesActivate(cfg: Config, license: nat, f: Fleet, labels: seq<Label>, i: nat,
                             matches: (Row, string) -> bool,
                             pages: (nat, ServerState, nat, string, PageNumber) -> OffsetPage)
    requires Starts(f) && i < |f.clients|
    ensures
      var env := Surroundings(cfg, license, f, labels, i, matches, pages);
      var c := f.clients[i];
      EndsReporting(cfg, license, f, labels, i, Activate(env, World(f.server, []), license, c.fingerprint, c.usage).1)
  {
    var env := Surroundings(cfg, license, f, labels, i, matches, pages);
    StartsInvariant(f);
    CreateStage(env, World(f.server, []), license, f.server, f, labels, i);
  }

  lemma ThreeSteps(cfg: Config, license: nat, f: Fleet, l0: Label, l1: Label, l2: Label)
    ensures Exec(cfg, license, f, [l0, l1, l2])
         == Step(cfg, license, Step(cfg, license, Step(cfg, license, f, l0), l1), l2)
  {
    var f1 := Step(cfg, license, f, l0);
    var f2 := Step(cfg, license, f1, l1);
    var f3 := Step(cfg, license, f2, l2);
    assert [l0, l1, l2][1..] == [l1, l2] && [l1, l2][1..] == [l2] && [l2][1..] == [];
    assert Exec(cfg, license, f3, []) == f3;
    assert Exec(cfg, license, f2, [l2]) == f3;
    assert Exec(cfg, license, f1, [l1, l2]) == f3;
  }

  lemma RollbackAlone(env: Env, w: World, license: nat, f: Fleet, l: Label, row: Row, code: ValidationCode)
    requires ArrivesAs(env, w, f, l) && f.clients[l.client].phase == RollingBack(row.id, code) && IsOverLimit(code)
    ensures Step(env.cfg, license, f, l).server == AfterVerdict(env, w, row, code).0.server
  {
  }

  lemma EndedDoesNothing(cfg: Config, license: nat, f: Fleet, l: Label)
    requires l.client < |f.clients| && Ended(f.clients[l.client].phase)
    ensures Step(cfg, license, f, l) == f
  {
  }

  /** A client running alone, whatever calls are lost: three steps are the whole call, on the same server. */
  lemma SoloRunMatchesActivate(env: Env, server: ServerState, license: nat, c: Client)
    requires Alone(env) && WellFormed(server) && c.phase.Ready?
    ensures
      var labels := [Label(0, env.faults(0), env.checks(0)), Label(0, env.faults(1), env.checks(1)),
                     Label(0, env.faults(2), env.checks(2))];
      var g := Exec(env.cfg, license, Fleet(server, [c]), labels);
      var (after, outcome) := Activate(env, World(server, []), license, c.fingerprint, c.usage);
      && g.server == after.server && |g.clients| == 1
      && Ended(g.clients[0].phase) && Reports(g.clients[0].phase, outcome)
  {
    var l0, l1, l2 := Label(0, env.faults(0), env.checks(0)), Label(0, env.faults(1), env.checks(1)),
                      Label(0, env.faults(2), env.checks(2));
    var w, f := World(server, []), Fleet(server, [c]);
    var f1 := Step(env.cfg, license, f, l0);
    var f2 := Step(env.cfg, license, f1, l1);
    ThreeSteps(env.cfg, license, f, l0, l1, l2);
    CreateStep(env, w, license, f, l0);
    var (w1, created) := CallCreate(env, w, license, c.fingerprint, c.usage);
    if created.Some? && created.value.Created? {
      var row := created.value.row;
      assert row in w1.server.rows;
      ValidateStep(env, w1, license, f1, l1, row);
      var (w2, verdict) := CallValidate(env, w1, license);
      if verdict.Some? && IsOverLimit(verdict.value) {
        assert w2.server == w1.server;
        RollbackStep(env, w2, license, f2, l2, row, verdict.value);
        RollbackAlone(env, w2, license, f2, l2, row, verdict.value);
      } else {
        EndedDoesNothing(env.cfg, license, f2, l2);
      }
    } else {
      EndedDoesNothing(env.cfg, license, f1, l1);
      EndedDoesNothing(env.cfg, license, f1, l2);
    }
  }

  // ---------- Adopting a machine whose creator has not finished ----------

  /** Client `i` has a row of this id. */
  predicate Holds(f: Fleet, i: nat, id: nat) {
    i < |f.clients| && HasRow(f.clients[i].phase) && f.clients[i].phase.id == id
  }

  lemma StepKeepsOthersRow(cfg: Config, license: nat, start: ServerState, f: Fleet, l: Label, i: nat, m: Row)
    requires Invariant(start, f) && m in f.server.rows && Holds(f, i, m.id)
    ensures
      var g := Step(cfg, license, f, l);
      && m.id < g.server.nextId && (m in g.server.rows <==> Holds(g, i, m.id))
      && (!Holds(g, i, m.id) ==> i < |g.clients| && Ended(g.clients[i].phase))
  {
    if l.client < |f.clients| && l.client != i && f.clients[l.client].phase.RollingBack? {
      assert f.clients[l.client].phase.id != m.id;
    }
  }

  lemma StepKeepsGone(cfg: Config, license: nat, f: Fleet, l: Label, m: Row)
    requires m !in f.server.rows && m.id < f.server.nextId
    ensures m !in Step(cfg, license, f, l).server.rows && m.id < Step(cfg, license, f, l).server.nextId
  {
  }

  lemma {:induction false} GoneStaysGone(cfg: Config, license: nat, f: Fleet, labels: seq<Label>, m: Row)
    requires m !in f.server.rows && m.id < f.server.nextId
    ensures m !in Exec(cfg, license, f, labels).server.rows
    decreases |labels|
  {
    if labels != [] {
      StepKeepsGone(cfg, license, f, labels[0], m);
      GoneStaysGone(cfg, license, Step(cfg, license, f, labels[0]), labels[1..], m);
    }
  }

  lemma {:induction false} HeldRowSurvivesExactly(cfg: Config, license: nat, start: ServerState, f: Fleet,
                                                  labels: seq<Label>, i: nat, m: Row)
    requires Invariant(start, f) && m in f.server.rows && Holds(f, i, m.id)
    ensures
      var g := Exec(cfg, license, f, labels);
      m in g.server.rows <==> Holds(g, i, m.id)
    decreases |labels|
  {
    if labels != [] {
      var g := Step(cfg, license, f, labels[0]);
      StepKeepsInvariant(cfg, license, start, f, labels[0]);
      StepKeepsOthersRow(cfg, license, start, f, labels[0], i, m);
      if Holds(g, i, m.id) {
        HeldRowSurvivesExactly(cfg, license, start, g, labels[1..], i, m);
      } else {
        GoneStaysGone(cfg, license, g, labels[1..], m);
        EndedStays(cfg, license, g, labels[1..], i);
      }
    }
  }

  /**
   * A row that somebody adopts in the middle of a fleet's run is there in the end exactly when it was
   * there before the run, or the call that created it kept it; once all calls have ended, that call was
   * confirmed or it orphaned the row.
   */
  lemma AdoptedSurvivesExactly(cfg: Config, license: nat, start: ServerState, f: Fleet, labels: seq<Label>, m: Row)
    requires Invariant(start, f) && m in f.server.rows
    ensures
      var g := Exec(cfg, license, f, labels);
      && (m in g.server.rows <==> m in start.rows || exists i: nat :: Holds(f, i, m.id) && Holds(g, i, m.id))
      && (Quiescent(g) ==> forall i: nat :: Holds(g, i, m.id) ==>
            g.clients[i].phase == Confirmed(m.id) || g.clients[i].phase == Orphaned(m.id))
  {
    var g := Exec(cfg, license, f, labels);
    ExecKeepsInvariant(cfg, license, start, f, labels);
    FirstOrHeld(start, f, m);
    if m in start.rows {
      var k :| 0 <= k < |start.rows| && start.rows[k] == m;
      assert g.server.rows[k] == m;
    } else {
      var i :| 0 <= i < |f.clients| && HasRow(f.clients[i].phase) && f.clients[i].phase.id == m.id;
      HeldRowSurvivesExactly(cfg, license, start, f, labels, i, m);
      assert m.id >= start.nextId;
    }
  }

  lemma RollbackRemoves(cfg: Config, license: nat, f: Fleet, l: Label, m: Row)
    requires m in f.server.rows && l.client < |f.clients|
    requires f.clients[l.client].phase.RollingBack? && f.clients[l.client].phase.id == m.id
    ensures m in Step(cfg, license, f, l).server.rows <==> l.fault.RequestLost?
  {
  }

  /**
   * So an idempotent call may return a machine that is about to go: adopted while its creator is rolling
   * back, it is gone with the creator's next step, unless the request of that delete is lost.
   */
  lemma AdoptedWhileRollingBack(env: Env, w: World, license: nat, start: ServerState, f: Fleet, l: Label, m: Row,
                                usage: Usage)
    requires Invariant(start, f) && m in f.server.rows && w.server == f.server && l.client < |f.clients|
    requires f.clients[l.client].phase.RollingBack? && f.clients[l.client].phase.id == m.id
    requires UndisturbedFrom(env, |w.calls|) && SearchFindsExact(env)
    requires env.cfg.namesMachine || (!IsBlank(m.fingerprint) &&
      Position(Listed(env, w.server.rows, m.license, m.fingerprint), m) < 2000)
    ensures
      var (after, outcome) := ActivateIdempotent(env, w, m.license, m.fingerprint, usage);
      && outcome == Ok(m) && after.server == f.server
      && (m in Step(env.cfg, license, f, l).server.rows <==> l.fault.RequestLost?)
  {
    Reactivation(env, w, m, usage);
    RollbackRemoves(env.cfg, license, f, l, m);
  }
}
