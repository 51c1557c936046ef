/** Releasing every process of a machine while others may be deleting them too (`src/client.rs`). */
module Sweep {
  import opened Outcomes
  import opened ApiTypes

  const MAX_PAGE := 100

  // --- The protocol -----------------------------------------------------------------

  /** A call the sweep made and the answer it was given. */
  datatype Event = Listed(page: Result<seq<Id>, ApiError>) | Deleted(id: Id, answer: Result<(), ApiError>)

  /** Where a sweep stands: what it has yet to delete of the page it holds, and how many deletes were acknowledged. */
  datatype Stage = Sweeping(queue: seq<Id>, deleted: nat) | Ended(r: Result<nat, ApiError>) | Astray

  /** One event of `delete_machine_processes`; an event it would not have caused there leads astray. */
  function Step(stage: Stage, event: Event): Stage {
    match (stage, event)
    case (Sweeping(queue, deleted), Listed(page)) =>
      if queue != [] then Astray
      else
        (match page
         case Err(e) => Ended(Err(e))
         case Ok(batch) => if batch == [] then Ended(Ok(deleted)) else Sweeping(batch, deleted))
    case (Sweeping(queue, deleted), Deleted(id, answer)) =>
      if queue == [] || id != queue[0] then Astray
      else
        (match answer
         case Ok(_) => Sweeping(queue[1..], deleted + 1)
         case Err(e) => if IsNotFound(e) then Sweeping(queue[1..], deleted) else Ended(Err(e)))
    case _ => Astray
  }

  function Run(stage: Stage, events: seq<Event>): Stage {
    if events == [] then stage else Step(Run(stage, events[..|events| - 1]), events[|events| - 1])
  }

  lemma OneMore(stage: Stage, events: seq<Event>, event: Event)
    ensures Run(stage, events + [event]) == Step(Run(stage, events), event)
  {
    assert (events + [event])[..|events|] == events;
  }

  lemma {:induction false} RunInTwo(stage: Stage, a: seq<Event>, b: seq<Event>)
    ensures Run(stage, a + b) == Run(Run(stage, a), b)
  {
    hide Step;
    if b == [] {
      assert a + b == a;
    } else {
      var front, last := b[..|b| - 1], b[|b| - 1];
      assert a + b == (a + front) + [last];
      OneMore(stage, a + front, last);
      RunInTwo(stage, a, front);
    }
  }

  /** The deletes the server acknowledged. */
  function Acknowledged(events: seq<Event>): nat {
    if events == [] then 0
    else
      var last := events[|events| - 1];
      Acknowledged(events[..|events| - 1]) + if last.Deleted? && last.answer.Ok? then 1 else 0
  }

  lemma OneMoreAcknowledged(events: seq<Event>, event: Event)
    ensures Acknowledged(events + [event]) == Acknowledged(events) + if event.Deleted? && event.answer.Ok? then 1 else 0
  {
    assert (events + [event])[..|events|] == events;
  }

  lemma {:induction false} AcknowledgedInTwo(a: seq<Event>, b: seq<Event>)
    ensures Acknowledged(a + b) == Acknowledged(a) + Acknowledged(b)
  {
    if b == [] {
      assert a + b == a;
    } else {
      var front, last := b[..|b| - 1], b[|b| - 1];
      assert a + b == (a + front) + [last];
      OneMoreAcknowledged(a + front, last);
      AcknowledgedInTwo(a, front);
    }
  }

  /** The count a sweep keeps, and returns, is that of the acknowledged deletes. */
  lemma {:induction false} CountIsAcknowledged(events: seq<Event>)
    ensures var stage := Run(Sweeping([], 0), events);
            && (stage.Sweeping? ==> stage.deleted == Acknowledged(events))
            && (stage.Ended? && stage.r.Ok? ==> stage.r.value == Acknowledged(events))
  {
    if events != [] {
      CountIsAcknowledged(events[..|events| - 1]);
    }
  }

  /** A sweep ends on an empty page, on a failed listing, or on a delete that failed with anything but not-found. */
  lemma EndsWithCause(events: seq<Event>, r: Result<nat, ApiError>)
    requires Run(Sweeping([], 0), events) == Ended(r)
    ensures events != [] && Ending(events[|events| - 1], r)
  {
    hide Step;
    if events != [] {
      StepEnds(Run(Sweeping([], 0), events[..|events| - 1]), events[|events| - 1], r);
    }
  }

  predicate Ending(last: Event, r: Result<nat, ApiError>) {
    match r
    case Ok(_) => last == Listed(Ok([]))
    case Err(e) => last == Listed(Err(e)) || (last.Deleted? && last.answer == Err(e) && !(e.Refused? && e.code == "NOT_FOUND"))
  }

  lemma StepEnds(stage: Stage, event: Event, r: Result<nat, ApiError>)
    requires Step(stage, event) == Ended(r)
    ensures Ending(event, r)
  {
  }

  // --- The server -------------------------------------------------------------------

  /** What a delete may do to the rows it finds: an acknowledged one removed its row, a failed one may have. */
  predicate Effect(found: set<Id>, id: Id, answer: Result<(), ApiError>, left: set<Id>) {
    && (left == found || (id in found && left == found - {id}))
    && (answer.Ok? ==> left != found)
    && (answer.Err? && IsNotFound(answer.error) ==> id !in found)
  }

  /** Behind an answer the sweep goes on after, the row is gone, by this client only if acknowledged. */
  lemma GoneAfter(found: set<Id>, id: Id, answer: Result<(), ApiError>, left: set<Id>)
    requires Effect(found, id, answer, left) && (answer.Ok? || IsNotFound(answer.error))
    ensures id !in left && (answer.Err? ==> left == found)
  {
    hide IsNotFound;
  }

  /**
   * One machine's process rows. Before each call other clients may delete rows, never add them. `log` holds
   * every call with its answer; `unacknowledged` counts the rows this client removed behind a failing
   * answer, `others` those that other clients removed.
   */
  class ProcessServer {
    var rows: set<Id>
    ghost var log: seq<Event>
    ghost var unacknowledged: nat
    ghost var others: nat
    ghost const initial: nat

    /** Every row there was is still there, or was deleted once, by one side or the other. */
    ghost predicate Valid()
      reads this
    {
      |rows| + Acknowledged(log) + unacknowledged + others == initial
    }

    constructor (rows: set<Id>)
      ensures Valid() && this.rows == rows && log == [] && unacknowledged == 0 && others == 0
    {
      this.rows, log, unacknowledged, others, initial := rows, [], 0, 0, |rows|;
    }

    /** Other clients at work. */
    method Interfere()
      requires Valid()
      modifies this
      ensures Valid() && log == old(log) && unacknowledged == old(unacknowledged) && rows <= old(rows)
    {
      var busy: bool := *;
      while busy && rows != {}
        invariant Valid() && log == old(log) && unacknowledged == old(unacknowledged) && rows <= old(rows)
        decreases rows
      {
        var id :| id in rows;
        rows, others := rows - {id}, others + 1;
        busy := *;
      }
    }

    /** `GET /machines/{id}/processes`, first page. */
    method List() returns (r: Result<seq<Id>, ApiError>)
      requires Valid()
      modifies this
      ensures Valid() && log == old(log) + [Listed(r)] && unacknowledged == old(unacknowledged) && rows <= old(rows)
      ensures r.Ok? ==> && |r.value| <= MAX_PAGE
                        && (r.value == [] <==> rows == {})
                        && (forall i :: 0 <= i < |r.value| ==> r.value[i] in rows)
                        && (forall i, j :: 0 <= i < j < |r.value| ==> r.value[i] != r.value[j])
    {
      hide Acknowledged;
      Interfere();
      var fails: bool, failure: ApiError := *, *;
      if fails {
        OneMoreAcknowledged(log, Listed(Err(failure)));
        log := log + [Listed(Err(failure))];
        return Err(failure);
      }
      var page: seq<Id>, left, more: bool := [], rows, true;
      while left != {} && (page == [] || more) && |page| < MAX_PAGE
        invariant left <= rows && |page| <= MAX_PAGE
        invariant page == [] ==> left == rows
        invariant forall i :: 0 <= i < |page| ==> page[i] in rows - left
        invariant forall i, j :: 0 <= i < j < |page| ==> page[i] != page[j]
        decreases left
      {
        var id :| id in left;
        page, left := page + [id], left - {id};
        more := *;
      }
      assert page != [] ==> page[0] in rows;
      OneMoreAcknowledged(log, Listed(Ok(page)));
      log := log + [Listed(Ok(page))];
      return Ok(page);
    }

    /** `DELETE /processes/{id}`. `found` are the rows it came upon. */
    method Delete(id: Id) returns (r: Result<(), ApiError>, ghost found: set<Id>)
      requires Valid()
      modifies this
      ensures Valid() && log == old(log) + [Deleted(id, r)]
      ensures rows <= found <= old(rows) && Effect(found, id, r, rows)
      ensures unacknowledged == old(unacknowledged) + if r.Err? && rows != found then 1 else 0
    {
      hide Acknowledged;
      Interfere();
      found := rows;
      var reached: bool, answered: bool, failure: ApiError := *, *, *;
      if IsNotFound(failure) {
        failure := Unknown;
      }
      r := Err(failure);
      if reached {
        if id in rows {
          rows := rows - {id};
          if answered {
            r := Ok(());
          } else {
            unacknowledged := unacknowledged + 1;
          }
        } else if answered {
          r := Err(Refused("NOT_FOUND", ""));
        }
      }
      OneMoreAcknowledged(log, Deleted(id, r));
      log := log + [Deleted(id, r)];
    }
  }

  /**
   * A failing delete may have worked: the client counts nothing, and the row is gone all the same. This is
   * the one way in which a sweep that aborts removes more than it counted.
   */
  lemma LostReplyIsNotCounted()
    ensures var events := [Listed(Ok([7])), Deleted(7, Err(Unknown))];
            && Run(Sweeping([], 0), events) == Ended(Err(Unknown))
            && Effect({7}, 7, Err(Unknown), {})
            && Acknowledged(events) == 0
  {
    var events := [Listed(Ok([7])), Deleted(7, Err(Unknown))];
    assert events[..1] == [Listed(Ok([7]))] && events[..1][..0] == [];
  }

  // --- The sweep --------------------------------------------------------------------

  /** What this client did on a server since its log was `before`. */
  ghost function Since(server: ProcessServer, before: seq<Event>): seq<Event>
    reads server
    requires before <= server.log
  {
    server.log[|before|..]
  }

  /** The deletes of one batch. A row already gone is passed over; any other failure aborts. */
  method DeleteBatch(server: ProcessServer, batch: seq<Id>, soFar: nat) returns (deleted: nat, aborted: Option<ApiError>)
    requires server.Valid()
    modifies server
    ensures server.Valid() && server.rows <= old(server.rows)
    ensures old(server.log) <= server.log
    ensures Run(Sweeping(batch, soFar), Since(server, old(server.log)))
            == if aborted.Some? then Ended(Err(aborted.value)) else Sweeping([], deleted)
    ensures old(server.unacknowledged) <= server.unacknowledged <= old(server.unacknowledged) + 1
    ensures aborted.Some? ==> server.log != [] && server.log[|server.log| - 1].Deleted?
    ensures aborted.None? ==>
              && server.unacknowledged == old(server.unacknowledged)
              && forall i :: 0 <= i < |batch| ==> batch[i] !in server.rows
  {
    hide IsNotFound, Run, Step, Acknowledged, Effect;
    ghost var before := server.log;
    deleted := soFar;
    assert Since(server, before) == [] && batch[0..] == batch;
    NothingRun(Sweeping(batch, soFar));
    var i := 0;
    while i < |batch|
      invariant i <= |batch| && server.Valid() && server.rows <= old(server.rows) && before <= server.log
      invariant Run(Sweeping(batch, soFar), Since(server, before)) == Sweeping(batch[i..], deleted)
      invariant server.unacknowledged == old(server.unacknowledged)
      invariant forall j :: 0 <= j < i ==> batch[j] !in server.rows
    {
      ghost var events := Since(server, before);
      assert server.log == before + events && (before + events)[|before|..] == events;
      var answer, found := server.Delete(batch[i]);
      OneMoreSince(before + events, before, Deleted(batch[i], answer));
      OneMore(Sweeping(batch, soFar), events, Deleted(batch[i], answer));
      StepDelete(batch, i, deleted, answer);
      if answer.Ok? || IsNotFound(answer.error) {
        GoneAfter(found, batch[i], answer, server.rows);
      }
      if answer.Ok? {
        deleted := deleted + 1;
      } else if !IsNotFound(answer.error) {
        return deleted, Some(answer.error);
      }
      i := i + 1;
    }
    return deleted, None;
  }

  /**
   * `delete_machine_processes`: re-reads the first page after each batch. What it asked and was answered is
   * a run of the protocol that ends in its result. On success no row is left, and every row there was is
   * counted or went to another client. On an error it has removed the rows it had acknowledged, and one more
   * at most: that of the failing delete, if a delete it was that failed.
   */
  method DeleteMachineProcesses(server: ProcessServer) returns (r: Result<nat, ApiError>)
    requires server.Valid()
    modifies server
    ensures server.Valid() && server.rows <= old(server.rows)
    ensures old(server.log) <= server.log && Run(Sweeping([], 0), Since(server, old(server.log))) == Ended(r)
    ensures r.Ok? ==> server.rows == {} && server.unacknowledged == old(server.unacknowledged)
    ensures r.Ok? ==> r.value + (server.others - old(server.others)) == |old(server.rows)|
    ensures |old(server.rows)| == |server.rows| + Acknowledged(Since(server, old(server.log)))
                                  + (server.unacknowledged - old(server.unacknowledged)) + (server.others - old(server.others))
    ensures old(server.unacknowledged) <= server.unacknowledged <= old(server.unacknowledged) + 1
    ensures server.log[|server.log| - 1].Listed? ==> server.unacknowledged == old(server.unacknowledged)
  {
    hide Run, Step, Acknowledged;
    ghost var before := server.log;
    var deleted: nat := 0;
    NothingRun(Sweeping([], 0));
    assert Since(server, before) == [];
    while true
      invariant server.Valid() && server.rows <= old(server.rows) && before <= server.log
      invariant Run(Sweeping([], 0), Since(server, before)) == Sweeping([], deleted)
      invariant server.unacknowledged == old(server.unacknowledged)
      decreases server.rows
    {
      ghost var events := Since(server, before);
      assert server.log == before + events && (before + events)[|before|..] == events;
      var batch := server.List();
      ghost var listed, seen := server.rows, server.log;
      OneMoreSince(before + events, before, Listed(batch));
      StepFromEmpty(events, batch, deleted);
      if batch.Err? || batch.value == [] {
        AcknowledgedInTwo(before, Since(server, before));
        CountIsAcknowledged(Since(server, before));
        assert before + Since(server, before) == server.log;
        return if batch.Err? then Err(batch.error) else Ok(deleted);
      }
      assert batch.value[0] in listed;
      var aborted;
      deleted, aborted := DeleteBatch(server, batch.value, deleted);
      assert Since(server, before) == (events + [Listed(batch)]) + Since(server, seen);
      RunInTwo(Sweeping([], 0), events + [Listed(batch)], Since(server, seen));
      if aborted.Some? {
        AcknowledgedInTwo(before, Since(server, before));
        assert before + Since(server, before) == server.log;
        return Err(aborted.value);
      }
    }
  }

  lemma OneMoreSince(events: seq<Event>, before: seq<Event>, event: Event)
    requires before <= events
    ensures before <= events + [event] && (events + [event])[|before|..] == events[|before|..] + [event]
  {
  }

  lemma NothingRun(stage: Stage)
    ensures Run(stage, []) == stage
  {
  }

  lemma StepDelete(batch: seq<Id>, i: nat, deleted: nat, answer: Result<(), ApiError>)
    requires i < |batch|
    ensures Step(Sweeping(batch[i..], deleted), Deleted(batch[i], answer))
            == match answer
               case Ok(_) => Sweeping(batch[i + 1..], deleted + 1)
               case Err(e) => if IsNotFound(e) then Sweeping(batch[i + 1..], deleted) else Ended(Err(e))
  {
    hide IsNotFound;
    assert batch[i..][1..] == batch[i + 1..];
  }

  lemma StepFromEmpty(events: seq<Event>, batch: Result<seq<Id>, ApiError>, deleted: nat)
    requires Run(Sweeping([], 0), events) == Sweeping([], deleted)
    ensures Run(Sweeping([], 0), events + [Listed(batch)])
            == match batch
               case Err(e) => Ended(Err(e))
               case Ok(ids) => if ids == [] then Ended(Ok(deleted)) else Sweeping(ids, deleted)
  {
    OneMore(Sweeping([], 0), events, Listed(batch));
  }
}
