/** The SDK's machines client as an object; its methods do what the specification says and keep its promises. */
module ActivationClient {
  import opened Common
  import opened MachineServer
  import opened ActivationFleet
  import opened Activation
  import opened ActivationTheorems

  /** The machines client, its remote server behind it. */
  class MachinesClient {
    const env: Env
    var server: ServerState
    var calls: seq<Call>

    constructor (env: Env, server: ServerState)
      ensures this.env == env && this.server == server && this.calls == []
    {
      this.env := env;
      this.server := server;
      this.calls := [];
    }

    ghost function Now(): World
      reads this
    {
      World(server, calls)
    }

    method CreateMachine(license: nat, fingerprint: string, usage: Usage) returns (r: Option<CreateReply>)
      modifies this
      ensures (Now(), r) == CallCreate(env, old(Now()), license, fingerprint, usage)
    {
      var fault := env.faults(|calls|);
      server := ActAll(env.cfg, server, env.others(|calls|));
      calls := calls + [CreateCall(license, fingerprint)];
      if fault.RequestLost? {
        return None;
      }
      var (s, reply) := Create(env.cfg, server, license, fingerprint, usage);
      server := s;
      r := if fault.NoFault? then Some(reply) else None;
    }

    method ValidateById(license: nat) returns (r: Option<ValidationCode>)
      modifies this
      ensures (Now(), r) == CallValidate(env, old(Now()), license)
    {
      var k := |calls|;
      server := ActAll(env.cfg, server, env.others(k));
      calls := calls + [ValidateCall(license)];
      r := if env.faults(k).NoFault? then Some(Verdict(env.cfg, server, license, env.checks(k))) else None;
    }

    method DeleteMachine(id: nat) returns (r: Option<bool>)
      modifies this
      ensures (Now(), r) == CallDelete(env, old(Now()), id)
    {
      var fault := env.faults(|calls|);
      server := ActAll(env.cfg, server, env.others(|calls|));
      calls := calls + [DeleteCall(id)];
      if fault.RequestLost? {
        return None;
      }
      r := if fault.NoFault? then Some(Get(server, id).Some?) else None;
      server := Delete(server, id);
    }

    method GetMachine(id: nat) returns (r: Option<Option<Row>>)
      modifies this
      ensures (Now(), r) == CallGet(env, old(Now()), id)
    {
      var k := |calls|;
      server := ActAll(env.cfg, server, env.others(k));
      calls := calls + [GetCall(id)];
      r := if env.faults(k).NoFault? then Some(Get(server, id)) else None;
    }

    method ListPage(license: nat, term: string, number: PageNumber) returns (r: Option<OffsetPage>)
      modifies this
      ensures (Now(), r) == CallList(env, old(Now()), license, term, number)
    {
      var k := |calls|;
      server := ActAll(env.cfg, server, env.others(k));
      calls := calls + [ListCall(number)];
      r := if env.faults(k).NoFault? then Some(env.pages(k, server, license, term, number)) else None;
    }

    method ActivateMachine(license: nat, fingerprint: string, usage: Usage) returns (outcome: Outcome)
      modifies this
      ensures (Now(), outcome) == Activate(env, old(Now()), license, fingerprint, usage)
      // How it ends is decided by the reply to its create, and after that by the validation and the delete.
      ensures FollowsCreate(CallCreate(env, old(Now()), license, fingerprint, usage).1, outcome)
      // What it returns is new and the caller's; it deletes at most the row it created, and reports when it did.
      ensures old(WellFormed(server)) ==> WellFormed(server) && DeletesFrom(old(Now()), Now(), old(server.nextId))
      ensures old(WellFormed(server)) && outcome.Ok? ==>
                && outcome.value.id >= old(server.nextId)
                && outcome.value.license == license && outcome.value.fingerprint == fingerprint
      ensures outcome.Ok? ==> !SentDelete(old(Now()), Now())
      ensures outcome.Err? && outcome.error.OverLimit? ==>
                IsOverLimit(outcome.error.code) && (outcome.error.rolledBack <==> SentDelete(old(Now()), Now()))
    {
      ActivateForCaller(env, Now(), license, fingerprint, usage);
      RepliesDecide(env, Now(), license, fingerprint, usage);
      var created := CreateMachine(license, fingerprint, usage);
      if created.None? {
        return Err(CallFailed);
      }
      match created.value {
        case Taken(machineId) =>
          return Err(FingerprintTaken(machineId));
        case LimitExceeded(limit) =>
          return Err(OverLimit(LimitCode(limit), false));
        case Created(machine) =>
          var code := ValidateById(license);
          if code.None? {
            return Err(CallFailed);
          }
          if IsOverLimit(code.value) {
            var deleted := DeleteMachine(machine.id);
            return Err(if deleted == Some(true) then OverLimit(code.value, true) else CallFailed);
          }
          return Ok(machine);
      }
    }

    /** One turn of the page loop: fetch a page, look for an exact match, see whether there is more. */
    method LookAtPage(license: nat, fingerprint: string, number: PageNumber) returns (verdict: Option<SearchResult>)
      modifies this
      ensures
        var (after, reply) := Pages(env, license, fingerprint)(old(Now()), number);
        Now() == after && verdict == Judge(reply, fingerprint)
    {
      var page := ListPage(license, fingerprint, number);
      if page.None? {
        return Some(Raised);
      }
      var items := page.value.items;
      for i := 0 to |items|
        invariant Exact(items[i..], fingerprint) == Exact(items, fingerprint)
      {
        if items[i].fingerprint == fingerprint {
          return Some(Found(items[i]));
        }
      }
      return if items == [] || page.value.number >= page.value.totalPages then Some(NotFound) else None;
    }

    method SearchFor(license: nat, fingerprint: string, maxPages: nat) returns (found: SearchResult)
      modifies this
      ensures (Now(), found) == SearchPages(Pages(env, license, fingerprint), old(Now()), fingerprint, 1, maxPages)
    {
      ghost var fetch := Pages(env, license, fingerprint);
      ghost var goal := SearchPages(fetch, Now(), fingerprint, 1, maxPages);
      for pageNumber := 1 to maxPages + 1
        invariant goal == SearchPages(fetch, Now(), fingerprint, pageNumber, maxPages + 1 - pageNumber)
      {
        var verdict := LookAtPage(license, fingerprint, pageNumber);
        if verdict.Some? {
          return verdict.value;
        }
      }
      return NotFound;
    }

    method Find(license: nat, fingerprint: string, maxPages: nat) returns (found: SearchResult)
      modifies this
      ensures (Now(), found) == FindByFingerprint(env, old(Now()), license, fingerprint, maxPages)
      ensures old(calls) <= calls && |calls| <= |old(calls)| + maxPages
      ensures found.Found? ==> found.row.fingerprint == fingerprint
    {
      FindIsBounded(env, Now(), license, fingerprint, maxPages);
      if IsBlank(fingerprint) {
        return Blank;
      }
      found := SearchFor(license, fingerprint, maxPages);
    }

    method ActivateMachineIdempotent(license: nat, fingerprint: string, usage: Usage) returns (outcome: Outcome)
      modifies this
      ensures (Now(), outcome) == ActivateIdempotent(env, old(Now()), license, fingerprint, usage)
      // No row older than the call is deleted, and a truthful server's machine is the caller's own.
      ensures old(WellFormed(server)) ==> WellFormed(server) && DeletesFrom(old(Now()), Now(), old(server.nextId))
      ensures old(WellFormed(server)) && HonestList(env) && outcome.Ok? ==>
                outcome.value.license == license && outcome.value.fingerprint == fingerprint
    {
      if WellFormed(server) {
        IdempotentForCaller(env, Now(), license, fingerprint, usage);
      }
      outcome := ActivateMachine(license, fingerprint, usage);
      if outcome.Err? && outcome.error.FingerprintTaken? {
        var machineId := outcome.error.machineId;
        var found := ResolveTakenFingerprint(machineId, license, fingerprint);
        match found {
          case Found(row) => return Ok(row);
          case NotFound => return Err(FingerprintTaken(machineId));
          case Raised => return Err(CallFailed);
          case Blank => return Err(BlankFingerprint);
        }
      }
    }

    method ResolveTakenFingerprint(machineId: Option<nat>, license: nat,
                                   fingerprint: string) returns (found: SearchResult)
      modifies this
      ensures (Now(), found) == ResolveTaken(env, old(Now()), machineId, license, fingerprint)
      // It only reads, it gives up after the page ceiling, and what it finds has exactly this fingerprint.
      ensures OnlyReads(old(Now()), Now()) && |calls| <= |old(calls)| + 21
      ensures found.Found? ==> found.row.fingerprint == fingerprint
    {
      RecoveryOnlyReads(env, Now(), machineId, license, fingerprint);
      if machineId.Some? {
        var existing := GetMachine(machineId.value);
        if existing.None? {
          return Raised;
        }
        if existing.value.Some? && existing.value.value.fingerprint == fingerprint {
          return Found(existing.value.value);
        }
      }
      found := Find(license, fingerprint, MAX_MACHINE_SEARCH_PAGES);
    }
  }
}
