/** The backoff formula (`src/transport.rs`, `src/client.rs`). */
module Backoff {
  import opened Outcomes
  import opened Words
  import opened Division

  function WrappingMul(a: U64, b: U64): U64 {
    a * b % 0x1_0000_0000_0000_0000
  }

  function WrappingAdd(a: U64, b: U64): U64 {
    (a + b) % 0x1_0000_0000_0000_0000
  }

  /** `jitter_millis`, for a process id. */
  function JitterMillis(pid: U32, attempt: U32): U64 {
    WrappingAdd(WrappingMul(pid, 2_654_435_761), WrappingMul(attempt, 40_503)) % 1000
  }

  /** Seconds before retry `attempt`, were there no jitter: `1 << min(attempt, 5)`. */
  function BaseSeconds(attempt: U32): (base: nat)
    ensures 1 <= base <= 32
  {
    if attempt == 0 then 1 else if attempt == 1 then 2 else if attempt == 2 then 4
    else if attempt == 3 then 8 else if attempt == 4 then 16 else 32
  }

  /** `retry_delay`, in milliseconds. */
  function RetryDelay(pid: U32, attempt: U32, retryAfter: Option<U64>): nat {
    match retryAfter
    case Some(secs) => (if secs < 60 then secs else 60) * 1000
    case None => BaseSeconds(attempt) * 1000 + JitterMillis(pid, attempt)
  }

  /** No `u32` pair makes the arithmetic wrap. */
  lemma JitterNeverWraps(pid: U32, attempt: U32)
    ensures JitterMillis(pid, attempt) == (pid * 2_654_435_761 + attempt * 40_503) % 1000 < 1000
  {
  }

  /** Multiplying by 503 loses nothing modulo 1000: 503 * 167 = 84 * 1000 + 1. */
  lemma CoprimeTo1000(d: nat)
    ensures d * 503 % 1000 == 0 <==> d % 1000 == 0
  {
    var q := d * 503 / 1000;
    if d * 503 % 1000 == 0 {
      assert d * 503 == q * 1000;
      assert d == (q * 167 - d * 84) * 1000;
      ExactMultiple(d, q * 167 - d * 84);
    }
    if d % 1000 == 0 {
      var k := d / 1000;
      assert d * 503 == (k * 503) * 1000;
      ExactMultiple(d * 503, k * 503);
    }
  }

  lemma ExactMultiple(n: int, k: int)
    requires n == k * 1000
    ensures n % 1000 == 0
  {
  }

  /** Two attempts of one process jitter alike iff they are a multiple of 1000 apart. */
  lemma JitterDiffers(pid: U32, i: U32, j: U32)
    requires i <= j
    ensures JitterMillis(pid, i) == JitterMillis(pid, j) <==> (j - i) % 1000 == 0
  {
    JitterNeverWraps(pid, i);
    JitterNeverWraps(pid, j);
    var base := pid * 2_654_435_761;
    var a, b := base + i * 40_503, base + j * 40_503;
    var d := j - i;
    assert b == a + d * 40_503 && d * 40_503 == d * 40 * 1000 + d * 503;
    EqualModulo(a, b);
    SameModulo(d * 503, d * 40_503, d * 40);
    CoprimeTo1000(d);
  }

  /** Multiplying by 761 loses nothing modulo 1000 either: 761 * 841 = 640 * 1000 + 1. */
  lemma CoprimeTo1000Too(d: nat)
    ensures d * 761 % 1000 == 0 <==> d % 1000 == 0
  {
    var q := d * 761 / 1000;
    if d * 761 % 1000 == 0 {
      assert d * 761 == q * 1000;
      assert d == (q * 841 - d * 640) * 1000;
      ExactMultiple(d, q * 841 - d * 640);
    }
    if d % 1000 == 0 {
      var k := d / 1000;
      assert d * 761 == (k * 761) * 1000;
      ExactMultiple(d * 761, k * 761);
    }
  }

  /** Two processes jitter alike at one attempt, and so at every attempt, iff their ids are a multiple of 1000 apart. */
  lemma ProcessesDiffer(p: U32, q: U32, attempt: U32)
    requires p <= q
    ensures JitterMillis(p, attempt) == JitterMillis(q, attempt) <==> (q - p) % 1000 == 0
  {
    JitterNeverWraps(p, attempt);
    JitterNeverWraps(q, attempt);
    var d := q - p;
    var a, b := p * 2_654_435_761 + attempt * 40_503, q * 2_654_435_761 + attempt * 40_503;
    assert b == a + d * 2_654_435_761 && d * 2_654_435_761 == d * 2_654_435 * 1000 + d * 761;
    EqualModulo(a, b);
    SameModulo(d * 761, d * 2_654_435_761, d * 2_654_435);
    CoprimeTo1000Too(d);
  }

  /** For one, processes 1 and 1001 back off in step, attempt for attempt. */
  lemma ProcessesInStep(attempt: U32)
    ensures RetryDelay(1, attempt, None) == RetryDelay(1001, attempt, None)
  {
    ProcessesDiffer(1, 1001, attempt);
  }

  lemma EqualModulo(a: nat, b: nat)
    requires a <= b
    ensures a % 1000 == b % 1000 <==> (b - a) % 1000 == 0
  {
  }

  lemma SameModulo(a: nat, b: nat, k: nat)
    requires b == a + k * 1000
    ensures a % 1000 == b % 1000
  {
  }

  /** Without `Retry-After` the delay grows strictly through attempt 5 and then stays within one second of 32. */
  lemma DelayGrowsThenLevels(pid: U32, attempt: U32)
    ensures attempt < 5 ==> RetryDelay(pid, attempt, None) < RetryDelay(pid, attempt + 1, None)
    ensures attempt >= 5 ==> 32_000 <= RetryDelay(pid, attempt, None) <= 32_999
  {
    JitterNeverWraps(pid, attempt);
  }

  /** Short of its jitter the delay is a power of two in seconds, the exponent stopping at 5. */
  lemma DelayIsPowerOfTwoAndJitter(pid: U32, attempt: U32)
    ensures RetryDelay(pid, attempt, None)
            == PowerOfTwo(if attempt < 5 then attempt else 5) * 1000 + (pid * 2_654_435_761 + attempt * 40_503) % 1000
  {
    JitterNeverWraps(pid, attempt);
    assert PowerOfTwo(1) == 2 && PowerOfTwo(2) == 4 && PowerOfTwo(3) == 8 && PowerOfTwo(4) == 16 && PowerOfTwo(5) == 32;
  }

  /** No delay, served or computed, exceeds a minute. */
  lemma DelayCapped(pid: U32, attempt: U32, retryAfter: Option<U64>)
    ensures RetryDelay(pid, attempt, retryAfter) <= 60_000
    ensures retryAfter.Some? && retryAfter.value <= 60 ==> RetryDelay(pid, attempt, retryAfter) == retryAfter.value * 1000
    ensures retryAfter.Some? && retryAfter.value > 60 ==> RetryDelay(pid, attempt, retryAfter) == 60_000
  {
    JitterNeverWraps(pid, attempt);
  }
}

/** Sending a request, repeating it while the server answers 429 (`src/client.rs`). */
module Retry {
  import opened Outcomes
  import opened Words
  import Backoff
  import Text

  datatype Verb = Get | Post | Patch | Delete

  datatype Response = Response(status: nat, retryAfter: Option<U64>)

  /** What one send comes to. */
  datatype Reply = Answered(response: Response) | TransportFailure

  const TOO_MANY_REQUESTS := 429

  const SAFE_ACTIONS := [
    "/actions/validate", "/actions/validate-key", "/actions/check-in", "/actions/check-out",
    "/actions/ping", "/actions/ping-heartbeat", "/actions/reset-heartbeat"]

  /** `is_retryable`. */
  predicate IsRetryable(verb: Verb, path: string) {
    verb == Get || (verb == Post && exists i :: 0 <= i < |SAFE_ACTIONS| && Text.EndsWith(path, SAFE_ACTIONS[i]))
  }

  predicate Throttled(reply: Reply) {
    reply.Answered? && reply.response.status == TOO_MANY_REQUESTS
  }

  /** A reply is worth another try only if it came and its status is 429. */
  lemma ThrottledExactly(reply: Reply)
    ensures Throttled(reply) <==> exists after :: reply == Answered(Response(429, after))
  {
    if Throttled(reply) {
      assert reply == Answered(Response(429, reply.response.retryAfter));
    }
  }

  /** Request `n` is the one whose outcome is returned. */
  predicate IsFinal(replies: nat -> Reply, retryable: bool, maxRetries: U32, n: nat) {
    && n <= maxRetries
    && (!Throttled(replies(n)) || !retryable || n == maxRetries)
    && (forall i :: 0 <= i < n ==> Throttled(replies(i)))
    && (n > 0 ==> retryable)
  }

  /** `send_with_retry` against a server that answers request `n` with `replies(n)`; `sleeps` are the delays asked for. */
  method SendWithRetry(replies: nat -> Reply, verb: Verb, path: string, maxRetries: U32, pid: U32)
    returns (outcome: Reply, sent: nat, sleeps: seq<nat>)
    ensures sent >= 1 && IsFinal(replies, IsRetryable(verb, path), maxRetries, sent - 1)
    ensures outcome == replies(sent - 1)
    ensures |sleeps| == sent - 1
    ensures forall i :: 0 <= i < |sleeps| ==> sleeps[i] == Backoff.RetryDelay(pid, i, replies(i).response.retryAfter)
  {
    var retryable := IsRetryable(verb, path);
    var attempt: U32 := 0;
    sleeps := [];
    while true
      invariant attempt <= maxRetries && |sleeps| == attempt
      invariant forall i :: 0 <= i < attempt ==> Throttled(replies(i))
      invariant attempt > 0 ==> retryable
      invariant forall i :: 0 <= i < |sleeps| ==> sleeps[i] == Backoff.RetryDelay(pid, i, replies(i).response.retryAfter)
      decreases maxRetries - attempt
    {
      var reply := replies(attempt);
      if !Throttled(reply) || !retryable || attempt >= maxRetries {
        return reply, attempt + 1, sleeps;
      }
      sleeps := sleeps + [Backoff.RetryDelay(pid, attempt, reply.response.retryAfter)];
      attempt := attempt + 1;
    }
  }

  /** The final request is determined by the replies: there is one, and only one. */
  lemma FinalRequestUnique(replies: nat -> Reply, retryable: bool, maxRetries: U32, m: nat, n: nat)
    requires IsFinal(replies, retryable, maxRetries, m) && IsFinal(replies, retryable, maxRetries, n)
    ensures m == n
  {
    assert m < n ==> Throttled(replies(m));
    assert n < m ==> Throttled(replies(n));
  }

  /**
   * What the final request means: exactly one request when the request may not be repeated; otherwise the
   * first reply that is not a 429, or the last permitted 429.
   */
  lemma FinalRequestMeans(replies: nat -> Reply, retryable: bool, maxRetries: U32, n: nat)
    requires IsFinal(replies, retryable, maxRetries, n)
    ensures !retryable ==> n == 0
    ensures retryable && Throttled(replies(n)) ==> n == maxRetries
    ensures retryable ==> forall k :: 0 <= k <= maxRetries && !Throttled(replies(k)) ==> n <= k && !Throttled(replies(n))
  {
    if retryable {
      forall k | 0 <= k <= maxRetries && !Throttled(replies(k))
        ensures n <= k && !Throttled(replies(n))
      {
      }
    }
  }

  lemma {:induction false} SleepBudget(sleeps: seq<nat>, cap: nat)
    requires forall i :: 0 <= i < |sleeps| ==> sleeps[i] <= cap
    ensures Total(sleeps) <= cap * |sleeps|
  {
    if sleeps != [] {
      SleepBudget(sleeps[1..], cap);
    }
  }

  function Total(sleeps: seq<nat>): nat {
    if sleeps == [] then 0 else sleeps[0] + Total(sleeps[1..])
  }

  /** No call parks its caller for more than a minute a permitted retry. */
  lemma WaitBounded(replies: nat -> Reply, retryable: bool, maxRetries: U32, pid: U32, n: nat, sleeps: seq<nat>)
    requires IsFinal(replies, retryable, maxRetries, n) && |sleeps| == n
    requires forall i :: 0 <= i < n ==> sleeps[i] == Backoff.RetryDelay(pid, i, replies(i).response.retryAfter)
    ensures Total(sleeps) <= 60_000 * maxRetries
  {
    forall i | 0 <= i < n
      ensures sleeps[i] <= 60_000
    {
      Backoff.DelayCapped(pid, i, replies(i).response.retryAfter);
    }
    SleepBudget(sleeps, 60_000);
  }

  /** Every safe action is repeated when throttled, whatever the id in its path; and no other verb than GET and POST ever is. */
  lemma SafeActionsAreRepeated(prefix: string, path: string, i: nat)
    requires i < |SAFE_ACTIONS|
    ensures IsRetryable(Post, prefix + SAFE_ACTIONS[i]) && IsRetryable(Get, path)
    ensures !IsRetryable(Patch, path) && !IsRetryable(Delete, path)
  {
    assert Text.EndsWith(prefix + SAFE_ACTIONS[i], SAFE_ACTIONS[i]);
  }

  /** Exactly what may be repeated: any GET, and a POST to one of seven actions. */
  lemma RetryableExactly(verb: Verb, path: string)
    ensures IsRetryable(verb, path) <==>
            || verb == Get
            || (verb == Post && exists prefix ::
                  || path == prefix + "/actions/validate" || path == prefix + "/actions/validate-key"
                  || path == prefix + "/actions/check-in" || path == prefix + "/actions/check-out"
                  || path == prefix + "/actions/ping" || path == prefix + "/actions/ping-heartbeat"
                  || path == prefix + "/actions/reset-heartbeat")
  {
    assert SAFE_ACTIONS[0] == "/actions/validate" && SAFE_ACTIONS[1] == "/actions/validate-key" && SAFE_ACTIONS[2] == "/actions/check-in"
        && SAFE_ACTIONS[3] == "/actions/check-out" && SAFE_ACTIONS[4] == "/actions/ping" && SAFE_ACTIONS[5] == "/actions/ping-heartbeat"
        && SAFE_ACTIONS[6] == "/actions/reset-heartbeat" && |SAFE_ACTIONS| == 7;
    hide SAFE_ACTIONS, Text.EndsWith;
    forall i | 0 <= i < |SAFE_ACTIONS|
      ensures Text.EndsWith(path, SAFE_ACTIONS[i]) <==> exists prefix :: path == prefix + SAFE_ACTIONS[i]
    {
      EndsWithExactly(path, SAFE_ACTIONS[i]);
    }
  }

  lemma EndsWithExactly(s: string, suffix: string)
    ensures Text.EndsWith(s, suffix) <==> exists prefix :: s == prefix + suffix
  {
    if Text.EndsWith(s, suffix) {
      assert s == s[..|s| - |suffix|] + suffix;
    }
    if prefix :| s == prefix + suffix {
      assert s[|s| - |suffix|..] == suffix;
    }
  }

  const ACTION := "/actions/"

  /** `path` names an action of a resource somewhere. */
  predicate NamesAnAction(path: string) {
    exists k :: 0 <= k <= |path| && ACTION <= path[k..]
  }

  lemma SafeActionsAreActions(i: nat)
    requires i < |SAFE_ACTIONS|
    ensures ACTION <= SAFE_ACTIONS[i]
  {
  }

  /** No POST is repeated but an action's. */
  lemma OnlyActionsAreRepeated(path: string)
    requires IsRetryable(Post, path)
    ensures NamesAnAction(path)
  {
    hide ACTION, SAFE_ACTIONS;
    var i :| 0 <= i < |SAFE_ACTIONS| && Text.EndsWith(path, SAFE_ACTIONS[i]);
    SafeActionsAreActions(i);
    assert ACTION <= path[|path| - |SAFE_ACTIONS[i]|..];
  }

  /** A create is never repeated: a POST whose path names no action is sent once, so one call burns at most one seat. */
  lemma CreatesAreSentOnce(replies: nat -> Reply, path: string, maxRetries: U32, n: nat)
    requires !NamesAnAction(path) && IsFinal(replies, IsRetryable(Post, path), maxRetries, n)
    ensures n == 0
  {
    hide NamesAnAction, IsRetryable;
    if IsRetryable(Post, path) {
      OnlyActionsAreRepeated(path);
    }
  }

  /** The paths machines, components and processes are created under name none. */
  lemma CreatePathsNameNoAction()
    ensures !NamesAnAction("/machines") && !NamesAnAction("/components") && !NamesAnAction("/processes")
  {
    NeedsASecondSlash("/machines");
    NeedsASecondSlash("/components");
    NeedsASecondSlash("/processes");
  }

  lemma NeedsASecondSlash(path: string)
    requires forall i :: 1 <= i < |path| ==> path[i] != '/'
    ensures !NamesAnAction(path)
  {
    forall k | 0 <= k <= |path|
      ensures !(ACTION <= path[k..])
    {
      assert |path[k..]| > 8 ==> path[k..][8] == path[k + 8] != '/';
    }
  }
}
