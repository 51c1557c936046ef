/** What the two activations report, case by case, told of the answers the server's log shows. */
module ActivationOutcome {
  import opened Outcomes
  import opened ApiTypes
  import opened Activation
  import Search

  /** The refusals of a create by which the server says the licence is at a limit, each with the validation code that says the same. */
  ghost predicate Twins(code: string, twin: Code) {
    || (code == "MACHINE_LIMIT_EXCEEDED" && twin == TooManyMachines)
    || (code == "CORE_LIMIT_EXCEEDED" && twin == TooManyCores)
    || (code == "MEMORY_LIMIT_EXCEEDED" && twin == TooMuchMemory)
    || (code == "DISK_LIMIT_EXCEEDED" && twin == TooMuchDisk)
    || (code == "TOO_MANY_PROCESSES" && twin == TooManyProcesses)
  }

  ghost predicate RefusedForLimit(t: Transcript) {
    t.created.Err? && t.created.error.Refused? && exists twin :: Twins(t.created.error.code, twin)
  }

  ghost predicate RefusedAsTaken(t: Transcript) {
    t.created.Err? && t.created.error.Refused? && t.created.error.code == "FINGERPRINT_TAKEN"
  }

  lemma CodesDiffer()
    ensures |"MACHINE_LIMIT_EXCEEDED"| == 22 && |"CORE_LIMIT_EXCEEDED"| == 19 && |"MEMORY_LIMIT_EXCEEDED"| == 21
    ensures |"DISK_LIMIT_EXCEEDED"| == 19 && |"TOO_MANY_PROCESSES"| == 18 && |"FINGERPRINT_TAKEN"| == 17
    ensures "CORE_LIMIT_EXCEEDED"[0] == 'C' && "DISK_LIMIT_EXCEEDED"[0] == 'D'
  {
  }

  lemma LimitsAreTwins(e: ApiError)
    ensures LimitExceeded(e).Some? <==> e.Refused? && exists twin :: Twins(e.code, twin)
    ensures LimitExceeded(e).Some? ==> Twins(e.code, AsValidationCode(LimitExceeded(e).value))
    ensures e.Refused? ==> forall twin :: Twins(e.code, twin) ==> twin == AsValidationCode(LimitExceeded(e).value)
  {
    CodesDiffer();
    if e.Refused? {
      assert e.code == "MACHINE_LIMIT_EXCEEDED" ==> Twins(e.code, TooManyMachines);
      assert e.code == "CORE_LIMIT_EXCEEDED" ==> Twins(e.code, TooManyCores);
      assert e.code == "MEMORY_LIMIT_EXCEEDED" ==> Twins(e.code, TooMuchMemory);
      assert e.code == "DISK_LIMIT_EXCEEDED" ==> Twins(e.code, TooMuchDisk);
      assert e.code == "TOO_MANY_PROCESSES" ==> Twins(e.code, TooManyProcesses);
    }
  }

  /**
   * How a create refused for a limit ends: after one read of the licence that records nothing, and nothing else,
   * in a validation that does not hold, of the licence just read, with the refusal's detail and the twin of its
   * code; or, if the licence could not be read, in the refusal itself.
   */
  ghost predicate EndsRefused(t: Transcript, r: Result<Validation, ApiError>)
    requires t.created.Err? && t.created.error.Refused?
  {
    && t.searched.None? && t.deleted.None? && t.validated.Some? && t.validated.value.skipTouch
    && match t.validated.value.answer
       case Err(_) => r == Err(t.created.error)
       case Ok(read) =>
         && r.Ok? && !r.value.valid
         && r.value.license == read.license
         && r.value.detail == t.created.error.detail
         && Twins(t.created.error.code, r.value.code)
  }

  lemma PlainRefusedForLimit(t: Transcript, autoDelete: bool, r: Result<Validation, ApiError>)
    requires Follows(t, autoDelete, r) && RefusedForLimit(t)
    ensures EndsRefused(t, r)
  {
    hide LimitExceeded, AsValidationCode, Twins;
    LimitsAreTwins(t.created.error);
  }

  lemma IdempotentRefusedForLimit(t: Transcript, fingerprint: string, autoDelete: bool, r: Result<MachineActivation, ApiError>)
    requires FollowsIdempotent(t, fingerprint, autoDelete, r) && RefusedForLimit(t)
    ensures r.Ok? ==> r.value.machine.None? && !r.value.reused
    ensures EndsRefused(t, match r case Ok(a) => Ok(a.validation) case Err(e) => Err(e))
  {
    LimitsAreTwins(t.created.error);
    TakenIsNotALimit(t.created.error);
    hide LimitExceeded, AsValidationCode, Twins;
  }

  /** The codes by which a validation says the licence is over a limit. */
  predicate SaysOver(code: Code) {
    code == TooManyMachines || code == TooManyCores || code == TooMuchMemory || code == TooMuchDisk || code == TooManyProcesses
  }

  /** A created machine is validated, and that answer is the outcome; over a limit, and only if asked, it is deleted again. */
  lemma PlainCreated(t: Transcript, autoDelete: bool, r: Result<Validation, ApiError>)
    requires Follows(t, autoDelete, r) && t.created.Ok?
    ensures t.searched.None? && t.validated.Some? && !t.validated.value.skipTouch && r == t.validated.value.answer
    ensures t.deleted.Some? <==> autoDelete && r.Ok? && SaysOver(r.value.code)
    ensures t.deleted.Some? ==> t.deleted.value.id == t.created.value.id
  {
  }

  lemma IdempotentCreated(t: Transcript, fingerprint: string, autoDelete: bool, r: Result<MachineActivation, ApiError>)
    requires FollowsIdempotent(t, fingerprint, autoDelete, r) && t.created.Ok?
    ensures t.searched.None? && t.validated.Some? && !t.validated.value.skipTouch
    ensures var answer := t.validated.value.answer;
            && (answer.Err? ==> r == Err(answer.error))
            && (answer.Ok? ==> r.Ok? && r.value.validation == answer.value && !r.value.reused)
            && (t.deleted.Some? <==> autoDelete && answer.Ok? && SaysOver(answer.value.code))
            && (t.deleted.Some? ==> t.deleted.value.id == t.created.value.id)
            && (r.Ok? ==> r.value.machine == if t.deleted.Some? then None else Some(t.created.value))
  {
  }

  /**
   * A fingerprint that is taken is looked for under the licence. What is found is validated and reported with
   * that answer, never deleted; if nothing is found, the original refusal stands.
   */
  lemma IdempotentTaken(t: Transcript, fingerprint: string, autoDelete: bool, r: Result<MachineActivation, ApiError>)
    requires FollowsIdempotent(t, fingerprint, autoDelete, r) && RefusedAsTaken(t)
    ensures t.deleted.None? && t.searched.Some?
    ensures exists requests: nat :: Search.Finds(t.searched.value.replies, fingerprint, requests, t.searched.value.answer)
    ensures var found := t.searched.value.answer;
            && (found.Err? ==> r == Err(found.error) && t.validated.None?)
            && (found == Ok(None) ==> r == Err(t.created.error) && t.validated.None?)
            && (found.Ok? && found.value.Some? ==>
                  && t.validated.Some? && !t.validated.value.skipTouch
                  && (t.validated.value.answer.Err? ==> r == Err(t.validated.value.answer.error))
                  && (t.validated.value.answer.Ok? ==>
                        r == Ok(MachineActivation(found.value, t.validated.value.answer.value, true))))
  {
  }

  /** Any other failure of the create is reported as it is, and nothing more is sent. */
  lemma OtherRefusals(t: Transcript, fingerprint: string, autoDelete: bool, plain: Result<Validation, ApiError>, r: Result<MachineActivation, ApiError>)
    requires t.created.Err? && !RefusedForLimit(t)
    ensures Follows(t, autoDelete, plain) ==> plain == Err(t.created.error) && t.searched.None? && t.validated.None? && t.deleted.None?
    ensures FollowsIdempotent(t, fingerprint, autoDelete, r) && !RefusedAsTaken(t) ==>
              r == Err(t.created.error) && t.searched.None? && t.validated.None? && t.deleted.None?
  {
    hide LimitExceeded, AsValidationCode, Twins;
    LimitsAreTwins(t.created.error);
  }
}
