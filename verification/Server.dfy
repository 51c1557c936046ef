/** What the client reads of the server's answers, and which codes it acts on. */
module ApiTypes {
  import opened Outcomes
  import opened Words
  import Pages

  type Id = nat

  datatype Machine = Machine(id: Id, fingerprint: string)

  /** A machine as the server stores it; the licence is not on the wire. */
  datatype Row = Row(license: Id, machine: Machine)

  /** A decoded refusal, or any failure that leaves the client not knowing what the server did. */
  datatype ApiError = Refused(code: string, detail: string) | Unknown

  datatype Limit = MachineLimit | CoreLimit | MemoryLimit | DiskLimit | ProcessLimit

  datatype Code =
    | TooManyMachines | TooManyCores | TooMuchMemory | TooMuchDisk | TooManyProcesses
    | OtherCode(wire: string)

  datatype Validation = Validation(license: Id, valid: bool, detail: string, code: Code)

  /** How a server answers listing requests: by how many came before, and by the page asked for. */
  type Responder = (nat, I64) -> Result<Pages.Page<Machine>, ApiError>

  /** The calls a client sends, each with the answer it was given; the requests of one search make one call. */
  datatype Call =
    | CreateCall(license: Id, fingerprint: string, created: Result<Machine, ApiError>)
    | ListCall(license: Id, search: string, replies: Responder)
    | ValidateCall(license: Id, skipTouch: bool, validated: Result<Validation, ApiError>)
    | DeleteCall(id: Id, deleted: Result<(), ApiError>)

  predicate IsFingerprintTaken(e: ApiError) {
    e.Refused? && e.code == "FINGERPRINT_TAKEN"
  }

  predicate IsNotFound(e: ApiError) {
    e.Refused? && e.code == "NOT_FOUND"
  }

  /** `TamgaError::limit_exceeded`. */
  function LimitExceeded(e: ApiError): Option<Limit> {
    if e.Unknown? then None
    else if e.code == "MACHINE_LIMIT_EXCEEDED" then Some(MachineLimit)
    else if e.code == "CORE_LIMIT_EXCEEDED" then Some(CoreLimit)
    else if e.code == "MEMORY_LIMIT_EXCEEDED" then Some(MemoryLimit)
    else if e.code == "DISK_LIMIT_EXCEEDED" then Some(DiskLimit)
    else if e.code == "TOO_MANY_PROCESSES" then Some(ProcessLimit)
    else None
  }

  /** `LimitExceededCode::as_validation_code`. */
  function AsValidationCode(limit: Limit): Code {
    match limit
    case MachineLimit => TooManyMachines
    case CoreLimit => TooManyCores
    case MemoryLimit => TooMuchMemory
    case DiskLimit => TooMuchDisk
    case ProcessLimit => TooManyProcesses
  }

  /** `is_overage_code`. */
  predicate IsOverageCode(code: Code) {
    !code.OtherCode?
  }

  /** The two refusals of a create by which the server says it made nothing. */
  predicate MadeNothing(e: ApiError) {
    IsFingerprintTaken(e) || LimitExceeded(e).Some?
  }
}

/** The machine side of the server: rows the client can create, list, validate against and delete. */
module MachineServer {
  import opened Outcomes
  import opened Words
  import opened ApiTypes
  import Pages

  function Filtered(rows: seq<Row>, license: Id, search: string, matches: (Machine, string) -> bool): (listing: seq<Machine>)
    ensures |listing| <= |rows|
  {
    if rows == [] then []
    else
      (if rows[0].license == license && matches(rows[0].machine, search) then [rows[0].machine] else [])
      + Filtered(rows[1..], license, search, matches)
  }

  /** A filter that passes exact matches loses none of the licence's, and shows no other licence's. */
  lemma {:induction false} FilteredKeepsExact(rows: seq<Row>, license: Id, search: string, matches: (Machine, string) -> bool, m: Machine)
    requires forall x: Machine :: matches(x, x.fingerprint)
    ensures m in Filtered(rows, license, search, matches) ==> Row(license, m) in rows
    ensures Row(license, m) in rows && m.fingerprint == search ==> m in Filtered(rows, license, search, matches)
  {
    if rows != [] {
      FilteredKeepsExact(rows[1..], license, search, matches, m);
      assert rows == [rows[0]] + rows[1..];
    }
  }

  function InsertRow(rows: seq<Row>, at: nat, row: Row): seq<Row>
    requires at <= |rows|
  {
    rows[..at] + [row] + rows[at..]
  }

  lemma InsertKeepsIdsDistinct(rows: seq<Row>, at: nat, row: Row)
    requires at <= |rows| && forall i :: 0 <= i < |rows| ==> rows[i].machine.id < row.machine.id
    requires forall i, j :: 0 <= i < j < |rows| ==> rows[i].machine.id != rows[j].machine.id
    ensures var more := InsertRow(rows, at, row);
            && |more| == |rows| + 1
            && (forall i :: 0 <= i < |more| ==> more[i].machine.id <= row.machine.id)
            && (forall i, j :: 0 <= i < j < |more| ==> more[i].machine.id != more[j].machine.id)
            && (forall r :: r in more <==> r in rows || r == row)
  {
    var more := InsertRow(rows, at, row);
    assert forall i :: 0 <= i < |more| ==> more[i] == if i < at then rows[i] else if i == at then row else rows[i - 1];
    assert more[at] == row;
    assert rows == rows[..at] + rows[at..];
  }

  function RemoveRow(rows: seq<Row>, at: nat): seq<Row>
    requires at < |rows|
  {
    rows[..at] + rows[at + 1..]
  }

  lemma RemoveKeepsIdsDistinct(rows: seq<Row>, at: nat, bound: Id)
    requires at < |rows| && forall i :: 0 <= i < |rows| ==> rows[i].machine.id < bound
    requires forall i, j :: 0 <= i < j < |rows| ==> rows[i].machine.id != rows[j].machine.id
    ensures var fewer := RemoveRow(rows, at);
            && |fewer| == |rows| - 1
            && (forall i :: 0 <= i < |fewer| ==> fewer[i].machine.id < bound)
            && (forall i, j :: 0 <= i < j < |fewer| ==> fewer[i].machine.id != fewer[j].machine.id)
            && (forall r :: r in fewer <==> r in rows && r != rows[at])
  {
    var fewer := RemoveRow(rows, at);
    assert forall i :: 0 <= i < |fewer| ==> fewer[i] == if i < at then rows[i] else rows[i + 1];
    assert rows == rows[..at] + [rows[at]] + rows[at + 1..];
    assert forall r :: r in fewer ==> r in rows && r != rows[at];
  }

  /**
   * The response policy is left open: any call may fail, and a failed create or delete may still have
   * taken effect. Bodies choose freely among what the contracts allow.
   */
  class Server {
    var rows: seq<Row>
    var nextId: Id
    ghost var held: set<Row>
    ghost var log: seq<Call>
    const pageSize: I64
    const matches: (Machine, string) -> bool

    ghost predicate Valid()
      reads this
    {
      && 1 <= pageSize <= 100
      && |rows| <= I64_MAX
      && (forall row :: row in held <==> row in rows)
      && (forall m: Machine :: matches(m, m.fingerprint))
      && (forall i :: 0 <= i < |rows| ==> rows[i].machine.id < nextId)
      && (forall i, j :: 0 <= i < j < |rows| ==> rows[i].machine.id != rows[j].machine.id)
    }

    lemma IdsBelowNext()
      requires Valid()
      ensures forall row :: row in held ==> row.machine.id < nextId
    {
    }

    /** What `GET /machines` lists under this licence and search text. */
    ghost function Listing(license: Id, search: string): (listing: seq<Machine>)
      reads this
      ensures |listing| <= |rows|
    {
      Filtered(rows, license, search, matches)
    }

    constructor (pageSize: I64, matches: (Machine, string) -> bool)
      requires 1 <= pageSize <= 100 && forall m: Machine :: matches(m, m.fingerprint)
      ensures Valid() && rows == [] && held == {} && log == []
    {
      this.pageSize, this.matches := pageSize, matches;
      rows, nextId, held, log := [], 0, {}, [];
    }

    /** `POST /machines`: sent once. `made` is the row it left behind, even when the answer was lost. */
    method Create(license: Id, fingerprint: string) returns (r: Result<Machine, ApiError>, ghost made: Option<Row>)
      requires Valid()
      modifies this
      ensures Valid() && nextId >= old(nextId) && log == old(log) + [CreateCall(license, fingerprint, r)]
      ensures made.None? ==> rows == old(rows) && held == old(held)
      ensures made.Some? ==> && made.value == Row(license, Machine(made.value.machine.id, fingerprint))
                             && made.value.machine.id >= old(nextId)
                             && held == old(held) + {made.value}
      ensures r.Ok? ==> made == Some(Row(license, r.value))
      ensures r.Err? && MadeNothing(r.error) ==> made.None?
    {
      hide InsertRow;
      made := None;
      r := Err(Unknown);
      var acts: bool, skip: nat, at: nat := *, *, *;
      if acts && |rows| < I64_MAX {
        var machine := Machine(nextId + skip, fingerprint);
        if at > |rows| {
          at := |rows|;
        }
        InsertKeepsIdsDistinct(rows, at, Row(license, machine));
        rows := InsertRow(rows, at, Row(license, machine));
        nextId := nextId + skip + 1;
        made := Some(Row(license, machine));
        held := held + {made.value};
        var answered: bool := *;
        if answered {
          r := Ok(machine);
        }
      } else {
        var refusal: ApiError := *;
        r := Err(refusal);
      }
      log := log + [CreateCall(license, fingerprint, r)];
    }

    /** `DELETE /machines/{id}`. `gone` is the row it removed, even when the answer was lost. */
    method Delete(id: Id) returns (r: Result<(), ApiError>, ghost gone: Option<Row>)
      requires Valid()
      modifies this
      ensures Valid() && nextId == old(nextId) && log == old(log) + [DeleteCall(id, r)]
      ensures gone.None? ==> rows == old(rows) && held == old(held)
      ensures gone.Some? ==> gone.value in old(held) && gone.value.machine.id == id && held == old(held) - {gone.value}
      ensures r.Ok? ==> forall row :: row in held ==> row.machine.id != id
    {
      hide RemoveRow;
      gone := None;
      var acts: bool, answered: bool, failure: ApiError := *, *, *;
      r := Err(failure);
      if acts {
        var i := 0;
        while i < |rows| && rows[i].machine.id != id
          invariant i <= |rows|
          invariant forall j :: 0 <= j < i ==> rows[j].machine.id != id
        {
          i := i + 1;
        }
        if i < |rows| {
          gone := Some(rows[i]);
          held := held - {rows[i]};
          RemoveKeepsIdsDistinct(rows, i, nextId);
          rows := RemoveRow(rows, i);
        }
        if answered {
          r := Ok(());
        }
      }
      log := log + [DeleteCall(id, r)];
    }

    /** `POST /licenses/{id}/actions/validate`; with `skipTouch` it records nothing. */
    method Validate(license: Id, skipTouch: bool) returns (r: Result<Validation, ApiError>)
      requires Valid()
      modifies this`log
      ensures Valid() && log == old(log) + [ValidateCall(license, skipTouch, r)]
    {
      r := *;
      log := log + [ValidateCall(license, skipTouch, r)];
    }

    /**
     * `GET /machines`, filtered by licence and search text: the answer to every page asked for, while
     * nothing is written. Any request may fail, and the next one for the same page need not.
     */
    method List(license: Id, search: string) returns (replies: Responder)
      requires Valid()
      modifies this`log
      ensures Valid() && log == old(log) + [ListCall(license, search, replies)]
      ensures forall k, number :: replies(k, number).Ok? ==>
                                    replies(k, number).value == Pages.PageOf(Listing(license, search), pageSize, number)
    {
      var failures: nat -> Option<ApiError> := *;
      var listing, size := Filtered(rows, license, search, matches), pageSize;
      replies := (k: nat, number: I64) =>
        match failures(k)
        case Some(failure) => Err(failure)
        case None => Ok(Pages.PageOf(listing, size, number));
      log := log + [ListCall(license, search, replies)];
    }
  }
}
