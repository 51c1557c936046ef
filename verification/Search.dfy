/** Finding a machine by its exact fingerprint, page by page (`src/client.rs`). */
module Search {
  import opened Outcomes
  import opened Words
  import opened ApiTypes
  import opened MachineServer
  import Pages

  /** `m` carries exactly this fingerprint, and nothing before it does. */
  ghost predicate IsFirst(items: seq<Machine>, fingerprint: string, m: Machine) {
    m.fingerprint == fingerprint
    && exists i :: 0 <= i < |items| && items[i] == m && forall j :: 0 <= j < i ==> items[j].fingerprint != fingerprint
  }

  /** The first machine carrying exactly this fingerprint. */
  function FirstExact(items: seq<Machine>, fingerprint: string): (r: Option<Machine>)
    ensures r.Some? ==> IsFirst(items, fingerprint, r.value)
    ensures r.None? ==> forall i :: 0 <= i < |items| ==> items[i].fingerprint != fingerprint
  {
    if items == [] then None
    else if items[0].fingerprint == fingerprint then Some(items[0])
    else
      var r := FirstExact(items[1..], fingerprint);
      assert forall i :: 1 <= i < |items| ==> items[i] == items[1..][i - 1];
      assert r.Some? ==> IsFirst(items, fingerprint, r.value) by {
        if r.Some? {
          var i :| 0 <= i < |items| - 1 && items[1..][i] == r.value && forall j :: 0 <= j < i ==> items[1..][j].fingerprint != fingerprint;
          assert items[i + 1] == r.value && forall j :: 0 <= j < i + 1 ==> items[j].fingerprint != fingerprint;
        }
      }
      r
  }

  lemma {:induction false} FirstExactAcross(a: seq<Machine>, b: seq<Machine>, fingerprint: string)
    ensures FirstExact(a + b, fingerprint)
            == if FirstExact(a, fingerprint).Some? then FirstExact(a, fingerprint) else FirstExact(b, fingerprint)
  {
    if a == [] {
      assert a + b == b;
    } else {
      assert (a + b)[1..] == a[1..] + b;
      FirstExactAcross(a[1..], b, fingerprint);
    }
  }

  lemma NoMatchInNothing(fingerprint: string)
    ensures FirstExact([], fingerprint) == None
  {
  }

  /** With no match before page `number`, that page's match is the listing's; without one, the search has got one page further. */
  lemma OnePageOn(listing: seq<Machine>, size: I64, number: I64, fingerprint: string)
    requires 1 <= size && |listing| <= I64_MAX && 1 <= number
    requires FirstExact(listing[..Pages.Cut(|listing|, size, number - 1)], fingerprint) == None
    ensures var found := FirstExact(Pages.PageOf(listing, size, number).items, fingerprint);
            && (found.Some? ==> found == FirstExact(listing, fingerprint))
            && (found.None? ==> FirstExact(listing[..Pages.Cut(|listing|, size, number)], fingerprint) == None)
            && (found.None? && number >= Pages.TotalPages(|listing|, size) ==> FirstExact(listing, fingerprint) == None)
  {
    hide Pages.Cut, Pages.TotalPages, FirstExact, IsFirst;
    var a, b := Pages.Cut(|listing|, size, number - 1), Pages.Cut(|listing|, size, number);
    Pages.CutAdvances(|listing|, size, number - 1);
    Pages.LastPageEnds(|listing|, size, number);
    FirstExactAcross(listing[..a], listing[a..b], fingerprint);
    FirstExactAcross(listing[..b], listing[b..], fingerprint);
    assert listing[..a] + listing[a..b] == listing[..b] && listing[..b] + listing[b..] == listing;
    if b == |listing| {
      assert listing[..b] == listing;
    }
  }

  // --- The loop, against any server ------------------------------------------------

  /** The page to ask for after a reply, unless the search stops at it. */
  function Onward(reply: Result<Pages.Page<Machine>, ApiError>, fingerprint: string): Option<I64> {
    match reply
    case Err(_) => None
    case Ok(page) => if FirstExact(page.items, fingerprint).Some? then None else page.NextPageNumber()
  }

  /** The page request `k` asks for, if the search comes to it. */
  function Asks(replies: Responder, fingerprint: string, k: nat): Option<I64> {
    if k == 0 then Some(1)
    else
      match Asks(replies, fingerprint, k - 1)
      case None => None
      case Some(number) => Onward(replies(k - 1, number), fingerprint)
  }

  ghost predicate Ends(replies: Responder, fingerprint: string) {
    exists k: nat :: Asks(replies, fingerprint, k).None?
  }

  /** What the search reports when it stops at this reply. */
  function Concludes(reply: Result<Pages.Page<Machine>, ApiError>, fingerprint: string): Result<Option<Machine>, ApiError> {
    match reply
    case Err(e) => Err(e)
    case Ok(page) => Ok(FirstExact(page.items, fingerprint))
  }

  /** `r` is what the search reports, in so many requests, of these replies. */
  ghost predicate Finds(replies: Responder, fingerprint: string, requests: nat, r: Result<Option<Machine>, ApiError>) {
    && requests >= 1
    && Asks(replies, fingerprint, requests).None?
    && var last := Asks(replies, fingerprint, requests - 1);
       last.Some? && r == Concludes(replies(requests - 1, last.value), fingerprint)
  }

  /** Replies decide the report, and how many requests it takes. */
  lemma FindingUnique(replies: Responder, fingerprint: string, m: nat, r: Result<Option<Machine>, ApiError>,
                      n: nat, s: Result<Option<Machine>, ApiError>)
    requires Finds(replies, fingerprint, m, r) && Finds(replies, fingerprint, n, s)
    ensures m == n && r == s
  {
    hide Asks, Concludes;
    if m < n {
      EndedStaysEnded(replies, fingerprint, m, n - 1);
    } else if n < m {
      EndedStaysEnded(replies, fingerprint, n, m - 1);
    }
  }

  lemma {:induction false} EndedStaysEnded(replies: Responder, fingerprint: string, k: nat, l: nat)
    requires k <= l && Asks(replies, fingerprint, k).None?
    ensures Asks(replies, fingerprint, l).None?
    decreases l
  {
    if k < l {
      EndedStaysEnded(replies, fingerprint, k, l - 1);
    }
  }

  /** The loop of `find_machine_by_fingerprint`, wherever it ends at all. `requests` counts the pages asked for. */
  method SearchPages(replies: Responder, fingerprint: string)
    returns (r: Result<Option<Machine>, ApiError>, ghost requests: nat)
    requires Ends(replies, fingerprint)
    ensures Finds(replies, fingerprint, requests, r)
  {
    ghost var end: nat :| Asks(replies, fingerprint, end).None?;
    hide FirstExact;
    var pageNumber: I64 := 1;
    var k := 0;
    while true
      invariant Asks(replies, fingerprint, k) == Some(pageNumber)
      decreases end - k
    {
      if end <= k {
        EndedStaysEnded(replies, fingerprint, end, k);
      }
      var answer := replies(k, pageNumber);
      k := k + 1;
      if answer.Err? {
        return Err(answer.error), k;
      }
      var page := answer.value;
      var found := FirstExact(page.items, fingerprint);
      if found.Some? {
        return Ok(found), k;
      }
      var next := page.NextPageNumber();
      if next.None? {
        return Ok(None), k;
      }
      pageNumber := next.value;
    }
  }

  // --- When it ends ------------------------------------------------------------------

  /** Every page the search is shown is at least the one it asked for, of at most `limit`. */
  ghost predicate Progresses(replies: Responder, fingerprint: string, limit: int) {
    forall k: nat :: Asks(replies, fingerprint, k).Some? ==>
                       var reply := replies(k, Asks(replies, fingerprint, k).value);
                       reply.Ok? ==> reply.value.meta.number >= Asks(replies, fingerprint, k).value && reply.value.meta.totalPages <= limit
  }

  lemma {:induction false} AsksAscend(replies: Responder, fingerprint: string, limit: int, k: nat)
    requires Progresses(replies, fingerprint, limit) && Asks(replies, fingerprint, k).Some?
    ensures k < Asks(replies, fingerprint, k).value <= Pages.Max(1, limit)
  {
    if k > 0 {
      AsksAscend(replies, fingerprint, limit, k - 1);
    }
  }

  /** A server that echoes the page asked for and bounds its page count bounds the search, though the listing change meanwhile. */
  lemma StopsWithin(replies: Responder, fingerprint: string, limit: int)
    requires Progresses(replies, fingerprint, limit)
    ensures Asks(replies, fingerprint, Pages.Max(1, limit)).None?
    ensures Ends(replies, fingerprint)
  {
    if Asks(replies, fingerprint, Pages.Max(1, limit)).Some? {
      AsksAscend(replies, fingerprint, limit, Pages.Max(1, limit));
    }
  }

  /** The same page draws the same reply, however often it is asked for. */
  ghost predicate Fixed(replies: Responder) {
    forall k, number :: replies(k, number) == replies(0, number)
  }

  lemma {:induction false} CyclesOn(replies: Responder, fingerprint: string, i: nat, j: nat, d: nat)
    requires Fixed(replies) && Asks(replies, fingerprint, i) == Asks(replies, fingerprint, j)
    ensures Asks(replies, fingerprint, i + d) == Asks(replies, fingerprint, j + d)
  {
    hide Onward;
    if d > 0 {
      CyclesOn(replies, fingerprint, i, j, d - 1);
    }
  }

  lemma {:induction false} CycleNeverEnds(replies: Responder, fingerprint: string, i: nat, j: nat, k: nat)
    requires Fixed(replies) && i < j && Asks(replies, fingerprint, j).Some? && Asks(replies, fingerprint, i) == Asks(replies, fingerprint, j)
    ensures Asks(replies, fingerprint, k).Some?
    decreases k
  {
    hide Onward;
    if k <= j {
      if Asks(replies, fingerprint, k).None? {
        EndedStaysEnded(replies, fingerprint, k, j);
      }
    } else {
      CycleNeverEnds(replies, fingerprint, i, j, k - (j - i));
      CyclesOn(replies, fingerprint, i, j, k - j);
    }
  }

  /** More numbers than the range has values: two of them are equal. */
  lemma {:induction false} Pigeonhole(s: seq<int>, low: int, high: int) returns (i: nat, j: nat)
    requires low <= high && |s| > high - low && forall k :: 0 <= k < |s| ==> low <= s[k] < high
    ensures i < j < |s| && s[i] == s[j]
    decreases high - low
  {
    assert low <= s[0] < high;
    if p :| 0 <= p < |s| && s[p] == high - 1 {
      var rest := s[..p] + s[p + 1..];
      if q :| p < q < |s| && s[q] == high - 1 {
        return p, q;
      } else if q :| 0 <= q < p && s[q] == high - 1 {
        return q, p;
      }
      assert forall k :: 0 <= k < |rest| ==> rest[k] == s[if k < p then k else k + 1];
      i, j := Pigeonhole(rest, low, high - 1);
      i, j := if i < p then i else i + 1, if j < p then j else j + 1;
    } else {
      i, j := Pigeonhole(s, low, high - 1);
    }
  }

  /** Against a server whose replies are fixed, the search runs forever exactly when it asks for some page twice. */
  lemma NeverEndsExactly(replies: Responder, fingerprint: string)
    requires Fixed(replies)
    ensures !Ends(replies, fingerprint)
            <==> exists i: nat, j: nat :: i < j && Asks(replies, fingerprint, j).Some?
                                          && Asks(replies, fingerprint, i) == Asks(replies, fingerprint, j)
  {
    hide Asks;
    if i: nat, j: nat :| i < j && Asks(replies, fingerprint, j).Some? && Asks(replies, fingerprint, i) == Asks(replies, fingerprint, j) {
      forall k: nat
        ensures Asks(replies, fingerprint, k).Some?
      {
        CycleNeverEnds(replies, fingerprint, i, j, k);
      }
    }
    if !Ends(replies, fingerprint) {
      var i, j := SomePageTwice(replies, fingerprint);
    }
  }

  lemma SomePageTwice(replies: Responder, fingerprint: string) returns (i: nat, j: nat)
    requires !Ends(replies, fingerprint)
    ensures i < j && Asks(replies, fingerprint, j).Some? && Asks(replies, fingerprint, i) == Asks(replies, fingerprint, j)
  {
    hide Asks;
    var count := I64_MAX - I64_MIN + 2;
    assert forall k: nat :: Asks(replies, fingerprint, k).Some?;
    var asked: seq<int> := seq(count, k requires 0 <= k < count => Asks(replies, fingerprint, k).value);
    i, j := Pigeonhole(asked, I64_MIN, I64_MAX + 1);
    assert asked[i] == Asks(replies, fingerprint, i).value && asked[j] == Asks(replies, fingerprint, j).value;
  }

  /** Answers every request with an empty page 1 of 2. */
  function Stuck(k: nat, number: I64): Result<Pages.Page<Machine>, ApiError> {
    Ok(Pages.Page([], Pages.Meta(1, 100, 0, 2)))
  }

  /** For one, a server that always claims a further page is asked forever. */
  lemma StuckServerNeverEnds(fingerprint: string)
    ensures !Ends(Stuck, fingerprint)
  {
    forall k: nat
      ensures Asks(Stuck, fingerprint, k).Some?
    {
      assert Asks(Stuck, fingerprint, 0) == Some(1) && Onward(Stuck(0, 1), fingerprint) == Onward(Stuck(1, 2), fingerprint) == Some(2);
      assert Asks(Stuck, fingerprint, 1) == Some(2);
      assert Asks(Stuck, fingerprint, 2) == Some(2);
      CycleNeverEnds(Stuck, fingerprint, 1, 2, k);
    }
  }

  // --- Against a truthful server -------------------------------------------------------

  ghost predicate Truthful(replies: Responder, listing: seq<Machine>, size: I64)
    requires 1 <= size && |listing| <= I64_MAX
  {
    forall k, number :: replies(k, number).Ok? ==> replies(k, number).value == Pages.PageOf(listing, size, number)
  }

  /** Where a search has got to: request `k` asks for page `k + 1`, and no page before it had a match. */
  lemma {:induction false} NothingBefore(replies: Responder, listing: seq<Machine>, size: I64, fingerprint: string, k: nat)
    requires 1 <= size && |listing| <= I64_MAX && Truthful(replies, listing, size)
    requires Asks(replies, fingerprint, k).Some?
    ensures Asks(replies, fingerprint, k).value == k + 1
    ensures FirstExact(listing[..Pages.Cut(|listing|, size, k)], fingerprint) == None
  {
    hide Pages.Cut, Pages.TotalPages, FirstExact;
    if k > 0 {
      NothingBefore(replies, listing, size, fingerprint, k - 1);
      OnePageOn(listing, size, k, fingerprint);
    } else {
      Pages.CutAtZero(|listing|, size);
      assert listing[..0] == [];
      NoMatchInNothing(fingerprint);
    }
  }

  /** The search ends, within the listing's pages, on its first exact match. */
  lemma TruthfulSearchEnds(replies: Responder, listing: seq<Machine>, size: I64, fingerprint: string)
    requires 1 <= size && |listing| <= I64_MAX && Truthful(replies, listing, size)
    ensures Ends(replies, fingerprint)
    ensures Asks(replies, fingerprint, Pages.Max(1, Pages.TotalPages(|listing|, size))).None?
    ensures forall k: nat :: Asks(replies, fingerprint, k).Some? && Asks(replies, fingerprint, k + 1).None? ==>
                               var reply := replies(k, Asks(replies, fingerprint, k).value);
                               reply.Ok? ==> Concludes(reply, fingerprint) == Ok(FirstExact(listing, fingerprint))
  {
    hide Pages.Cut, Pages.TotalPages, FirstExact;
    StopsWithin(replies, fingerprint, Pages.TotalPages(|listing|, size));
    forall k: nat | Asks(replies, fingerprint, k).Some? && Asks(replies, fingerprint, k + 1).None?
      ensures var reply := replies(k, Asks(replies, fingerprint, k).value);
              reply.Ok? ==> Concludes(reply, fingerprint) == Ok(FirstExact(listing, fingerprint))
    {
      NothingBefore(replies, listing, size, fingerprint, k);
      OnePageOn(listing, size, k + 1, fingerprint);
    }
  }

  /**
   * `find_machine_by_fingerprint`: ends after at most as many requests as there are pages, with the first
   * exact match in listing order. The server's log shows the replies it was given.
   */
  method FindMachineByFingerprint(server: Server, license: Id, fingerprint: string)
    returns (r: Result<Option<Machine>, ApiError>, ghost replies: Responder, ghost requests: nat)
    requires server.Valid()
    modifies server`log
    ensures server.Valid() && server.log == old(server.log) + [ListCall(license, fingerprint, replies)]
    ensures Finds(replies, fingerprint, requests, r)
    ensures r.Ok? ==> r.value == FirstExact(server.Listing(license, fingerprint), fingerprint)
    ensures 1 <= requests <= Pages.Max(1, Pages.TotalPages(|server.Listing(license, fingerprint)|, server.pageSize))
  {
    hide Pages.PageOf, Pages.TotalPages, Filtered, FirstExact, Asks;
    ghost var listing := server.Listing(license, fingerprint);
    var answers := server.List(license, fingerprint);
    replies := answers;
    TruthfulSearchEnds(replies, listing, server.pageSize, fingerprint);
    r, requests := SearchPages(answers, fingerprint);
    if requests > Pages.Max(1, Pages.TotalPages(|listing|, server.pageSize)) {
      EndedStaysEnded(replies, fingerprint, Pages.Max(1, Pages.TotalPages(|listing|, server.pageSize)), requests - 1);
    }
  }

  /** What the search's answer says about the licence: a hit is its own row, and a miss means it has none. */
  lemma SearchAnswersForTheLicense(rows: seq<Row>, license: Id, fingerprint: string, matches: (Machine, string) -> bool)
    requires forall m: Machine :: matches(m, m.fingerprint)
    ensures var found := FirstExact(Filtered(rows, license, fingerprint, matches), fingerprint);
            && (found.Some? ==> Row(license, found.value) in rows && found.value.fingerprint == fingerprint)
            && (found.None? <==> forall row :: row in rows && row.license == license ==> row.machine.fingerprint != fingerprint)
  {
    var listing := Filtered(rows, license, fingerprint, matches);
    var found := FirstExact(listing, fingerprint);
    if found.Some? {
      FilteredKeepsExact(rows, license, fingerprint, matches, found.value);
    }
    forall row | row in rows && row.license == license
      ensures row.machine.fingerprint == fingerprint ==> row.machine in listing
    {
      FilteredKeepsExact(rows, license, fingerprint, matches, row.machine);
    }
  }
}
