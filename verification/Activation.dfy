/** Activating a machine, with and without adopting one already there (`src/client.rs`). */
module Activation {
  import opened Outcomes
  import opened Words
  import opened ApiTypes
  import opened MachineServer
  import Search

  /** The outcome of an idempotent activation. */
  datatype MachineActivation = MachineActivation(machine: Option<Machine>, validation: Validation, reused: bool)

  // --- The protocol -------------------------------------------------------------

  datatype Searched = Searched(replies: Responder, answer: Result<Option<Machine>, ApiError>)

  datatype Validated = Validated(skipTouch: bool, answer: Result<Validation, ApiError>)

  datatype Deleted = Deleted(id: Id, answer: Result<(), ApiError>)

  /** What one activation asked and was answered. */
  datatype Transcript = Transcript(
    created: Result<Machine, ApiError>,
    searched: Option<Searched>,
    validated: Option<Validated>,
    deleted: Option<Deleted>
  )

  /** The calls of a transcript with their answers, in order: what the server's log shows of it. */
  ghost function Calls(t: Transcript, license: Id, fingerprint: string): seq<Call> {
    [CreateCall(license, fingerprint, t.created)]
    + (if t.searched.Some? then [ListCall(license, fingerprint, t.searched.value.replies)] else [])
    + (if t.validated.Some? then [ValidateCall(license, t.validated.value.skipTouch, t.validated.value.answer)] else [])
    + (if t.deleted.Some? then [DeleteCall(t.deleted.value.id, t.deleted.value.answer)] else [])
  }

  /** A delete of `id` was sent, or none was. */
  predicate Deletes(t: Transcript, sent: bool, id: Id) {
    if sent then t.deleted.Some? && t.deleted.value.id == id else t.deleted.None?
  }

  /** What a create the server refused for a limit is reported as: the refusal's own detail and twin code. */
  function OverLimit(license: Id, limit: Limit, createErr: ApiError): Validation {
    Validation(license, false, if createErr.Refused? then createErr.detail else "", AsValidationCode(limit))
  }

  /** A refusal for a limit: the licence is read without recording a validation, and a second failure never masks the first. */
  ghost predicate FollowsRefusal(t: Transcript, limit: Limit, r: Result<Validation, ApiError>)
    requires t.created.Err?
  {
    && t.searched.None? && t.deleted.None?
    && t.validated.Some? && t.validated.value.skipTouch
    && r == match t.validated.value.answer
            case Err(_) => Err(t.created.error)
            case Ok(probe) => Ok(OverLimit(probe.license, limit, t.created.error))
  }

  /** The answers and calls by which `activate_machine` comes to `r`. */
  ghost predicate Follows(t: Transcript, autoDelete: bool, r: Result<Validation, ApiError>) {
    match t.created
    case Ok(machine) =>
      && t.searched.None?
      && t.validated == Some(Validated(false, r))
      && Deletes(t, autoDelete && r.Ok? && IsOverageCode(r.value.code), machine.id)
    case Err(e) =>
      match LimitExceeded(e)
      case Some(limit) => FollowsRefusal(t, limit, r)
      case None => t == Transcript(t.created, None, None, None) && r == Err(e)
  }

  /** The answers and calls by which `activate_machine_idempotent` comes to `r`. */
  ghost predicate FollowsIdempotent(t: Transcript, fingerprint: string, autoDelete: bool, r: Result<MachineActivation, ApiError>) {
    match t.created
    case Ok(machine) =>
      && t.searched.None? && t.validated.Some? && !t.validated.value.skipTouch
      && (match t.validated.value.answer
          case Err(e) => r == Err(e) && t.deleted.None?
          case Ok(verdict) =>
            var over := autoDelete && IsOverageCode(verdict.code);
            && r == Ok(MachineActivation(if over then None else Some(machine), verdict, false))
            && Deletes(t, over, machine.id))
    case Err(e) =>
      if IsFingerprintTaken(e) then FollowsAdoption(t, fingerprint, r)
      else
        match LimitExceeded(e)
        case Some(limit) =>
          && (r.Ok? ==> r.value.machine.None? && !r.value.reused)
          && FollowsRefusal(t, limit, if r.Ok? then Ok(r.value.validation) else Err(r.error))
        case None => t == Transcript(t.created, None, None, None) && r == Err(e)
  }

  /** The fingerprint is taken: adopted if this licence holds it, and the original refusal otherwise. */
  ghost predicate FollowsAdoption(t: Transcript, fingerprint: string, r: Result<MachineActivation, ApiError>)
    requires t.created.Err?
  {
    && t.searched.Some? && t.deleted.None?
    && (exists requests: nat :: Search.Finds(t.searched.value.replies, fingerprint, requests, t.searched.value.answer))
    && match t.searched.value.answer
       case Err(e) => r == Err(e) && t.validated.None?
       case Ok(None) => r == Err(t.created.error) && t.validated.None?
       case Ok(Some(machine)) =>
         && t.validated.Some? && !t.validated.value.skipTouch
         && r == match t.validated.value.answer
                 case Err(e) => Err(e)
                 case Ok(verdict) => Ok(MachineActivation(Some(machine), verdict, true))
  }

  // --- What every activation keeps ------------------------------------------------

  /** A delete is only ever sent for the machine this call created, when asked to roll back, on an overage. */
  lemma OnlyOwnMachineDeleted(t: Transcript, fingerprint: string, autoDelete: bool, r: Result<MachineActivation, ApiError>)
    requires FollowsIdempotent(t, fingerprint, autoDelete, r) && t.deleted.Some?
    ensures t.created.Ok? && t.deleted.value.id == t.created.value.id
    ensures autoDelete && r.Ok? && r.value.machine.None? && !r.value.reused && IsOverageCode(r.value.validation.code)
  {
  }

  /** An adopted machine is reported, is what the search found, and is never deleted, whatever the verdict. */
  lemma AdoptionKeepsTheMachine(t: Transcript, fingerprint: string, autoDelete: bool, r: Result<MachineActivation, ApiError>)
    requires FollowsIdempotent(t, fingerprint, autoDelete, r) && r.Ok? && r.value.reused
    ensures r.value.machine.Some? && t.searched.Some? && t.searched.value.answer == Ok(r.value.machine) && t.deleted.None?
    ensures t.created.Err? && IsFingerprintTaken(t.created.error)
  {
  }

  /** No machine is reported exactly on an overage, of the create or of the validation; the code then says which. */
  lemma NoMachineMeansOverage(t: Transcript, fingerprint: string, autoDelete: bool, r: Result<MachineActivation, ApiError>)
    requires FollowsIdempotent(t, fingerprint, autoDelete, r) && r.Ok?
    ensures r.value.machine.None? ==> IsOverageCode(r.value.validation.code)
    ensures r.value.machine.None? <==> t.deleted.Some? || (t.created.Err? && LimitExceeded(t.created.error).Some?)
  {
    if t.created.Err? {
      TakenIsNotALimit(t.created.error);
    }
  }

  lemma TakenIsNotALimit(e: ApiError)
    ensures !(IsFingerprintTaken(e) && LimitExceeded(e).Some?)
  {
    if IsFingerprintTaken(e) {
      assert e.code[0] == 'F';
    }
  }

  /** A refused create records no validation: the licence is only ever read with `skip_touch`. */
  lemma RefusalRecordsNothing(t: Transcript, autoDelete: bool, r: Result<MachineActivation, ApiError>, license: Id, fingerprint: string)
    requires FollowsIdempotent(t, fingerprint, autoDelete, r) && t.created.Err? && LimitExceeded(t.created.error).Some?
    ensures forall call :: call in Calls(t, license, fingerprint) && call.ValidateCall? ==> call.skipTouch
    ensures r.Err? ==> r.error == t.created.error
  {
    TakenIsNotALimit(t.created.error);
  }

  /** What plain activation reports of an idempotent outcome: the verdict, or the error. */
  function Verdict(r: Result<MachineActivation, ApiError>): Result<Validation, ApiError> {
    match r
    case Ok(activation) => Ok(activation.validation)
    case Err(e) => Err(e)
  }

  /** What idempotent activation adds to a plain outcome: the machine created, unless it was deleted again. */
  function WithMachine(t: Transcript, plain: Result<Validation, ApiError>): Result<MachineActivation, ApiError> {
    match plain
    case Ok(validation) =>
      Ok(MachineActivation(if t.created.Ok? && t.deleted.None? then Some(t.created.value) else None, validation, false))
    case Err(e) => Err(e)
  }

  /**
   * Unless the fingerprint was taken, idempotent activation is plain activation: the same answers draw the
   * same calls from both, and each outcome determines the other.
   */
  lemma IdempotentRefinesPlain(t: Transcript, fingerprint: string, autoDelete: bool, plain: Result<Validation, ApiError>, r: Result<MachineActivation, ApiError>)
    requires t.created.Ok? || !IsFingerprintTaken(t.created.error)
    ensures FollowsIdempotent(t, fingerprint, autoDelete, r) ==> Follows(t, autoDelete, Verdict(r)) && r == WithMachine(t, Verdict(r))
    ensures Follows(t, autoDelete, plain) ==>
              FollowsIdempotent(t, fingerprint, autoDelete, WithMachine(t, plain)) && plain == Verdict(WithMachine(t, plain))
  {
  }

  // --- What a call does to the server ----------------------------------------------

  /** What one call did to the rows: a create at most, and at most that row deleted again. */
  datatype Footprint = Footprint(made: Option<Row>, rolledBack: bool)

  predicate IsFootprint(f: Footprint, license: Id, fingerprint: string, freeBefore: Id, freeAfter: Id) {
    && (f.rolledBack ==> f.made.Some?)
    && (f.made.Some? ==>
          && f.made.value.license == license
          && f.made.value.machine.fingerprint == fingerprint
          && freeBefore <= f.made.value.machine.id < freeAfter)
  }

  function MadeRows(f: Footprint): set<Row> {
    if f.made.Some? then {f.made.value} else {}
  }

  function RolledBackRows(f: Footprint): set<Row> {
    if f.rolledBack then MadeRows(f) else {}
  }

  /** The footprint fits the transcript: a created machine left its row; only a delete that was sent removed it, and one that was confirmed did. */
  predicate Fits(f: Footprint, t: Transcript, license: Id) {
    && (t.created.Ok? ==> f.made == Some(Row(license, t.created.value)))
    && (t.created.Err? && MadeNothing(t.created.error) ==> f.made.None?)
    && (f.rolledBack ==> t.deleted.Some?)
    && (t.deleted.Some? && t.deleted.value.answer.Ok? ==> f.rolledBack)
  }

  lemma IdDeterminesRow(rows: seq<Row>, a: Row, b: Row)
    requires forall i, j :: 0 <= i < j < |rows| ==> rows[i].machine.id != rows[j].machine.id
    requires a in rows && b in rows && a.machine.id == b.machine.id
    ensures a == b
  {
  }

  /** `over_limit_result_without_machine`. */
  method OverLimitResultWithoutMachine(server: Server, license: Id, limit: Limit, createErr: ApiError)
    returns (r: Result<Validation, ApiError>, ghost probe: Result<Validation, ApiError>)
    requires server.Valid()
    modifies server`log
    ensures server.Valid() && server.log == old(server.log) + [ValidateCall(license, true, probe)]
    ensures r == match probe
                 case Err(_) => Err(createErr)
                 case Ok(v) => Ok(OverLimit(v.license, limit, createErr))
  {
    var detail := if createErr.Refused? then createErr.detail else "";
    var answer := server.Validate(license, true);
    probe := answer;
    if answer.Err? {
      return Err(createErr), probe;
    }
    return Ok(Validation(answer.value.license, false, detail, AsValidationCode(limit))), probe;
  }

  /** Deletes the machine this call made; whether that took effect is not surfaced. */
  method RollBack(server: Server, machine: Machine, ghost made: Row) returns (ghost answer: Result<(), ApiError>, ghost gone: bool)
    requires server.Valid() && made in server.held && made.machine == machine
    modifies server
    ensures server.Valid() && server.nextId == old(server.nextId)
    ensures server.log == old(server.log) + [DeleteCall(machine.id, answer)]
    ensures server.held == (if gone then old(server.held) - {made} else old(server.held)) && (answer.Ok? ==> gone)
  {
    ghost var before := server.rows;
    var reply, row := server.Delete(machine.id);
    answer, gone := reply, row.Some?;
    if gone {
      IdDeterminesRow(before, made, row.value);
    }
  }

  /** `activate_machine`: create, validate, and on an overage delete the new machine again when asked to. */
  method ActivateMachine(server: Server, license: Id, fingerprint: string, autoDelete: bool)
    returns (r: Result<Validation, ApiError>, ghost t: Transcript, ghost f: Footprint)
    requires server.Valid()
    modifies server
    ensures server.Valid() && server.nextId >= old(server.nextId)
    ensures Follows(t, autoDelete, r) && server.log == old(server.log) + Calls(t, license, fingerprint)
    ensures IsFootprint(f, license, fingerprint, old(server.nextId), server.nextId) && Fits(f, t, license)
    ensures server.held == old(server.held) + MadeRows(f) - RolledBackRows(f)
  {
    hide LimitExceeded, IsFingerprintTaken;
    var created, made := server.Create(license, fingerprint);
    f := Footprint(made, false);
    t := Transcript(created, None, None, None);
    if created.Err? {
      var limit := LimitExceeded(created.error);
      if limit.None? {
        return Err(created.error), t, f;
      }
      var refused, probe := OverLimitResultWithoutMachine(server, license, limit.value, created.error);
      return refused, t.(validated := Some(Validated(true, probe))), f;
    }
    r := server.Validate(license, false);
    t := t.(validated := Some(Validated(false, r)));
    if autoDelete && r.Ok? && IsOverageCode(r.value.code) {
      var answer, gone := RollBack(server, created.value, made.value);
      t, f := t.(deleted := Some(Deleted(created.value.id, answer))), f.(rolledBack := gone);
    }
  }

  /** The machine an idempotent activation settles on, before it validates. */
  datatype Settled = Have(machine: Machine, reused: bool) | OverBy(limit: Limit, createErr: ApiError)

  /** The first half of `activate_machine_idempotent`: create, or adopt what this licence already holds. */
  method CreateOrAdopt(server: Server, license: Id, fingerprint: string)
    returns (r: Result<Settled, ApiError>, ghost t: Transcript, ghost f: Footprint)
    requires server.Valid()
    modifies server
    ensures server.Valid() && server.nextId >= old(server.nextId) && server.log == old(server.log) + Calls(t, license, fingerprint)
    ensures t.validated.None? && t.deleted.None? && !f.rolledBack
    ensures IsFootprint(f, license, fingerprint, old(server.nextId), server.nextId) && Fits(f, t, license)
    ensures server.held == old(server.held) + MadeRows(f)
    ensures t.searched.Some? <==> t.created.Err? && IsFingerprintTaken(t.created.error)
    ensures t.searched.Some? ==>
              && (exists requests: nat :: Search.Finds(t.searched.value.replies, fingerprint, requests, t.searched.value.answer))
              && (t.searched.value.answer.Ok? ==>
                    t.searched.value.answer.value == Search.FirstExact(server.Listing(license, fingerprint), fingerprint))
    ensures r == match t.created
                 case Ok(machine) => Ok(Have(machine, false))
                 case Err(e) =>
                   if t.searched.Some? then
                     match t.searched.value.answer
                     case Err(e') => Err(e')
                     case Ok(None) => Err(e)
                     case Ok(Some(machine)) => Ok(Have(machine, true))
                   else if LimitExceeded(e).Some? then Ok(OverBy(LimitExceeded(e).value, e))
                   else Err(e)
  {
    hide LimitExceeded, IsFingerprintTaken;
    var created, made := server.Create(license, fingerprint);
    f := Footprint(made, false);
    t := Transcript(created, None, None, None);
    if created.Ok? {
      return Ok(Have(created.value, false)), t, f;
    }
    if IsFingerprintTaken(created.error) {
      var found, replies, _ := Search.FindMachineByFingerprint(server, license, fingerprint);
      t := t.(searched := Some(Searched(replies, found)));
      if found.Err? {
        return Err(found.error), t, f;
      }
      if found.value.None? {
        return Err(created.error), t, f;
      }
      return Ok(Have(found.value.value, true)), t, f;
    }
    var limit := LimitExceeded(created.error);
    return if limit.Some? then Ok(OverBy(limit.value, created.error)) else Err(created.error), t, f;
  }

  /** `activate_machine_idempotent`: follows the protocol, and leaves on the server no more than its footprint. */
  method ActivateMachineIdempotent(server: Server, license: Id, fingerprint: string, autoDelete: bool)
    returns (r: Result<MachineActivation, ApiError>, ghost t: Transcript, ghost f: Footprint)
    requires server.Valid()
    modifies server
    ensures server.Valid() && server.nextId >= old(server.nextId)
    ensures FollowsIdempotent(t, fingerprint, autoDelete, r) && server.log == old(server.log) + Calls(t, license, fingerprint)
    ensures IsFootprint(f, license, fingerprint, old(server.nextId), server.nextId) && Fits(f, t, license)
    ensures server.held == old(server.held) + MadeRows(f) - RolledBackRows(f)
    ensures r.Ok? && r.value.reused ==>
              && r.value.machine.Some? && f.made.None?
              && Row(license, r.value.machine.value) in server.held
              && r.value.machine.value.fingerprint == fingerprint
  {
    hide LimitExceeded, IsFingerprintTaken, IsOverageCode, Search.Finds, Search.FirstExact, Filtered;
    var settled;
    settled, t, f := CreateOrAdopt(server, license, fingerprint);
    if settled.Err? {
      return Err(settled.error), t, f;
    }
    if settled.value.OverBy? {
      var refused, probe := OverLimitResultWithoutMachine(server, license, settled.value.limit, settled.value.createErr);
      t := t.(validated := Some(Validated(true, probe)));
      if refused.Err? {
        return Err(refused.error), t, f;
      }
      return Ok(MachineActivation(None, refused.value, false)), t, f;
    }
    var Have(machine, reused) := settled.value;
    if reused {
      Search.SearchAnswersForTheLicense(server.rows, license, fingerprint, server.matches);
    }
    var validated := server.Validate(license, false);
    t := t.(validated := Some(Validated(false, validated)));
    if validated.Err? {
      return Err(validated.error), t, f;
    }
    var validation := validated.value;
    var rolledBack := autoDelete && !reused && IsOverageCode(validation.code);
    if rolledBack {
      var answer, gone := RollBack(server, machine, f.made.value);
      t, f := t.(deleted := Some(Deleted(machine.id, answer))), f.(rolledBack := gone);
    }
    return Ok(MachineActivation(if rolledBack then None else Some(machine), validation, reused)), t, f;
  }

  /** One activation a caller asks for. */
  datatype Request = Request(license: Id, fingerprint: string, autoDelete: bool)

  /** Each request of a run was answered as the protocol says, and left on the server what its footprint says. */
  ghost predicate AllFollow(requests: seq<Request>, ts: seq<Transcript>, fs: seq<Footprint>,
                            outcomes: seq<Result<MachineActivation, ApiError>>)
  {
    && |ts| == |fs| == |outcomes| <= |requests|
    && forall i :: 0 <= i < |ts| ==>
      && FollowsIdempotent(ts[i], requests[i].fingerprint, requests[i].autoDelete, outcomes[i])
      && Fits(fs[i], ts[i], requests[i].license)
  }

  /** The calls of a run with their answers, in order. */
  ghost function AllCalls(requests: seq<Request>, ts: seq<Transcript>): seq<Call>
    requires |ts| <= |requests|
  {
    if ts == [] then []
    else
      var last := |ts| - 1;
      AllCalls(requests, ts[..last]) + Calls(ts[last], requests[last].license, requests[last].fingerprint)
  }

  lemma OneMoreCalled(requests: seq<Request>, ts: seq<Transcript>, t: Transcript)
    requires |ts| < |requests|
    ensures AllCalls(requests, ts + [t])
            == AllCalls(requests, ts) + Calls(t, requests[|ts|].license, requests[|ts|].fingerprint)
  {
    assert (ts + [t])[..|ts|] == ts;
  }

  /**
   * Over a whole run, every delete was sent by the request whose own create the server had answered with
   * that machine and whose row it left behind, under auto-delete and on an overage.
   */
  lemma {:induction false} EveryDeleteIsOfOwnMachine(requests: seq<Request>, ts: seq<Transcript>, fs: seq<Footprint>,
                                                     outcomes: seq<Result<MachineActivation, ApiError>>,
                                                     id: Id, answer: Result<(), ApiError>)
    requires AllFollow(requests, ts, fs, outcomes) && DeleteCall(id, answer) in AllCalls(requests, ts)
    ensures exists i :: 0 <= i < |ts| && ts[i].deleted == Some(Deleted(id, answer))
                        && ts[i].created.Ok? && ts[i].created.value.id == id
                        && fs[i].made == Some(Row(requests[i].license, ts[i].created.value))
                        && requests[i].autoDelete && outcomes[i].Ok? && IsOverageCode(outcomes[i].value.validation.code)
    decreases |ts|
  {
    hide FollowsIdempotent, IsOverageCode;
    var last := |ts| - 1;
    if DeleteCall(id, answer) in AllCalls(requests, ts[..last]) {
      EveryDeleteIsOfOwnMachine(requests, ts[..last], fs[..last], outcomes[..last], id, answer);
    } else {
      assert ts[last].deleted == Some(Deleted(id, answer));
      OnlyOwnMachineDeleted(ts[last], requests[last].fingerprint, requests[last].autoDelete, outcomes[last]);
    }
  }

  // --- The rows of a run ------------------------------------------------------------

  function MadeIn(fs: seq<Footprint>): set<Row> {
    if fs == [] then {} else MadeIn(fs[..|fs| - 1]) + MadeRows(fs[|fs| - 1])
  }

  function RolledBackIn(fs: seq<Footprint>): set<Row> {
    if fs == [] then {} else RolledBackIn(fs[..|fs| - 1]) + RolledBackRows(fs[|fs| - 1])
  }

  lemma OneMoreMade(fs: seq<Footprint>, f: Footprint)
    ensures MadeIn(fs + [f]) == MadeIn(fs) + MadeRows(f) && RolledBackIn(fs + [f]) == RolledBackIn(fs) + RolledBackRows(f)
  {
    assert (fs + [f])[..|fs|] == fs;
  }

  /** A row was made by the run iff it is that of some footprint, and rolled back iff that footprint says so. */
  lemma {:induction false} MadeInAnyOf(fs: seq<Footprint>, row: Row)
    ensures row in MadeIn(fs) <==> exists i :: 0 <= i < |fs| && fs[i].made == Some(row)
    ensures row in RolledBackIn(fs) <==> exists i :: 0 <= i < |fs| && fs[i].made == Some(row) && fs[i].rolledBack
  {
    if fs != [] {
      MadeInAnyOf(fs[..|fs| - 1], row);
    }
  }

  /**
   * The footprints account for the rows now held: all began above `firstId`, each row was asked for by its
   * request, and no id was given out twice.
   */
  ghost predicate Accounts(start: set<Row>, firstId: Id, requests: seq<Request>, fs: seq<Footprint>, held: set<Row>, nextId: Id) {
    && |fs| <= |requests| && firstId <= nextId
    && held == start + MadeIn(fs) - RolledBackIn(fs)
    && RolledBackIn(fs) <= MadeIn(fs)
    && (forall row :: row in start ==> row.machine.id < firstId)
    && (forall row :: row in MadeIn(fs) ==> firstId <= row.machine.id < nextId)
    && (forall i :: 0 <= i < |fs| ==> IsFootprint(fs[i], requests[i].license, requests[i].fingerprint, firstId, nextId))
    && (forall i, j :: 0 <= i < j < |fs| && fs[i].made.Some? && fs[j].made.Some? ==> fs[i].made.value.machine.id < fs[j].made.value.machine.id)
  }

  /** One activation keeps the account. */
  lemma AccountStep(start: set<Row>, firstId: Id, requests: seq<Request>, fs: seq<Footprint>, held: set<Row>, nextId: Id,
                    f: Footprint, held': set<Row>, nextId': Id)
    requires |fs| < |requests| && Accounts(start, firstId, requests, fs, held, nextId)
    requires IsFootprint(f, requests[|fs|].license, requests[|fs|].fingerprint, nextId, nextId')
    requires nextId <= nextId' && held' == held + MadeRows(f) - RolledBackRows(f)
    ensures Accounts(start, firstId, requests, fs + [f], held', nextId')
  {
    hide MadeIn, RolledBackIn;
    OneMoreMade(fs, f);
    assert forall i :: 0 <= i < |fs| ==> (fs + [f])[i] == fs[i];
    forall i | 0 <= i < |fs| && fs[i].made.Some?
      ensures fs[i].made.value.machine.id < nextId
    {
      assert IsFootprint(fs[i], requests[i].license, requests[i].fingerprint, firstId, nextId);
    }
  }

  /** An account shows what a run can have done: nothing held at the start is lost, and only rows it made are rolled back. */
  lemma AccountMeans(start: set<Row>, firstId: Id, requests: seq<Request>, fs: seq<Footprint>, held: set<Row>, nextId: Id)
    requires Accounts(start, firstId, requests, fs, held, nextId)
    ensures start <= held && MadeIn(fs) !! start && RolledBackIn(fs) <= MadeIn(fs)
    ensures held == start + MadeIn(fs) - RolledBackIn(fs)
  {
    hide MadeIn, RolledBackIn, IsFootprint;
  }

  /**
   * Any run of idempotent activations against any server, whichever calls fail: the rows are the initial
   * ones, plus those the requests' footprints show made, minus those they show rolled back, where each
   * footprint fits the calls and answers of its request that the server's log shows.
   */
  method RunActivations(server: Server, requests: seq<Request>)
    returns (outcomes: seq<Result<MachineActivation, ApiError>>, ghost ts: seq<Transcript>, ghost fs: seq<Footprint>)
    requires server.Valid()
    modifies server
    ensures server.Valid() && |ts| == |fs| == |outcomes| == |requests|
    ensures AllFollow(requests, ts, fs, outcomes) && server.log == old(server.log) + AllCalls(requests, ts)
    ensures Accounts(old(server.held), old(server.nextId), requests, fs, server.held, server.nextId)
    ensures server.held == old(server.held) + MadeIn(fs) - RolledBackIn(fs)
    ensures old(server.held) <= server.held
  {
    outcomes, ts, fs := [], [], [];
    ghost var start, firstId, log := server.held, server.nextId, server.log;
    server.IdsBelowNext();
    NothingYet(requests, start, firstId, log);
    while |outcomes| < |requests|
      invariant server.Valid() && |outcomes| <= |requests|
      invariant RunSoFar(requests, ts, fs, outcomes, start, firstId, log, server.held, server.nextId, server.log)
      decreases |requests| - |outcomes|
    {
      hide *;
      var request := requests[|outcomes|];
      ghost var held, nextId, log' := server.held, server.nextId, server.log;
      var outcome, t, f := ActivateMachineIdempotent(server, request.license, request.fingerprint, request.autoDelete);
      RunStep(requests, ts, fs, outcomes, start, firstId, log, held, nextId, log', t, f, outcome, server.held, server.nextId, server.log);
      outcomes, ts, fs := outcomes + [outcome], ts + [t], fs + [f];
    }
    AccountMeans(start, firstId, requests, fs, server.held, server.nextId);
  }

  /** A run that has come so far has followed the protocol, shows in the log, and accounts for the rows. */
  ghost predicate RunSoFar(requests: seq<Request>, ts: seq<Transcript>, fs: seq<Footprint>, outcomes: seq<Result<MachineActivation, ApiError>>,
                           start: set<Row>, firstId: Id, before: seq<Call>, held: set<Row>, nextId: Id, log: seq<Call>)
  {
    && AllFollow(requests, ts, fs, outcomes)
    && log == before + AllCalls(requests, ts)
    && Accounts(start, firstId, requests, fs, held, nextId)
  }

  /** One activation carries a run on. */
  lemma RunStep(requests: seq<Request>, ts: seq<Transcript>, fs: seq<Footprint>, outcomes: seq<Result<MachineActivation, ApiError>>,
                start: set<Row>, firstId: Id, before: seq<Call>, held: set<Row>, nextId: Id, log: seq<Call>,
                t: Transcript, f: Footprint, outcome: Result<MachineActivation, ApiError>, held': set<Row>, nextId': Id, log': seq<Call>)
    requires |outcomes| < |requests|
    requires RunSoFar(requests, ts, fs, outcomes, start, firstId, before, held, nextId, log)
    requires var request := requests[|outcomes|];
             && FollowsIdempotent(t, request.fingerprint, request.autoDelete, outcome)
             && Fits(f, t, request.license)
             && IsFootprint(f, request.license, request.fingerprint, nextId, nextId')
             && log' == log + Calls(t, request.license, request.fingerprint)
    requires nextId <= nextId' && held' == held + MadeRows(f) - RolledBackRows(f)
    ensures RunSoFar(requests, ts + [t], fs + [f], outcomes + [outcome], start, firstId, before, held', nextId', log')
  {
    assert |ts| == |fs| == |outcomes|;
    hide FollowsIdempotent, Calls, AllCalls, Fits, Accounts, AllFollow, IsFootprint, MadeRows, RolledBackRows;
    OneMoreCalled(requests, ts, t);
    OneMoreFollows(requests, ts, fs, outcomes, t, f, outcome);
    AccountStep(start, firstId, requests, fs, held, nextId, f, held', nextId');
  }

  lemma NothingYet(requests: seq<Request>, held: set<Row>, nextId: Id, log: seq<Call>)
    requires forall row :: row in held ==> row.machine.id < nextId
    ensures RunSoFar(requests, [], [], [], held, nextId, log, held, nextId, log)
  {
  }

  lemma OneMoreFollows(requests: seq<Request>, ts: seq<Transcript>, fs: seq<Footprint>, outcomes: seq<Result<MachineActivation, ApiError>>,
                       t: Transcript, f: Footprint, outcome: Result<MachineActivation, ApiError>)
    requires AllFollow(requests, ts, fs, outcomes) && |outcomes| < |requests|
    requires FollowsIdempotent(t, requests[|ts|].fingerprint, requests[|ts|].autoDelete, outcome)
    requires Fits(f, t, requests[|ts|].license)
    ensures AllFollow(requests, ts + [t], fs + [f], outcomes + [outcome])
  {
    hide FollowsIdempotent, Fits;
  }
}
