/** The string operations of Rust's standard library that the SDK relies on. */
module Text {
  import opened Outcomes

  predicate All(s: string, p: char -> bool) {
    forall i :: 0 <= i < |s| ==> p(s[i])
  }

  function TrimStart(s: string, p: char -> bool): (t: string) {
    if s != "" && p(s[0]) then TrimStart(s[1..], p) else s
  }

  function TrimEnd(s: string, p: char -> bool): (t: string) {
    if s != "" && p(s[|s| - 1]) then TrimEnd(s[..|s| - 1], p) else s
  }

  /** `str::trim_matches`: drops the characters satisfying `p` from both ends. */
  function Trim(s: string, p: char -> bool): (t: string) {
    TrimEnd(TrimStart(s, p), p)
  }

  /** Nothing that trimming would remove stands at either end. */
  ghost predicate Tight(s: string, p: char -> bool) {
    s == "" || (!p(s[0]) && !p(s[|s| - 1]))
  }

  /** Trimming yields the tight middle of a string whose flanks satisfy `p`. */
  lemma {:induction false} TrimStartSplits(s: string, p: char -> bool) returns (before: string)
    ensures s == before + TrimStart(s, p) && All(before, p)
    ensures TrimStart(s, p) == "" || !p(TrimStart(s, p)[0])
  {
    if s != "" && p(s[0]) {
      before := TrimStartSplits(s[1..], p);
      before := [s[0]] + before;
      assert s == [s[0]] + s[1..];
    } else {
      before := "";
    }
  }

  lemma {:induction false} TrimEndSplits(s: string, p: char -> bool) returns (after: string)
    ensures s == TrimEnd(s, p) + after && All(after, p)
    ensures TrimEnd(s, p) == "" || !p(TrimEnd(s, p)[|TrimEnd(s, p)| - 1])
  {
    if s != "" && p(s[|s| - 1]) {
      after := TrimEndSplits(s[..|s| - 1], p);
      after := after + [s[|s| - 1]];
      assert s == s[..|s| - 1] + [s[|s| - 1]];
    } else {
      after := "";
    }
  }

  lemma TrimSplits(s: string, p: char -> bool) returns (before: string, after: string)
    ensures s == before + Trim(s, p) + after
    ensures All(before, p) && All(after, p) && Tight(Trim(s, p), p)
  {
    before := TrimStartSplits(s, p);
    after := TrimEndSplits(TrimStart(s, p), p);
  }

  lemma {:induction false} TrimStartSkips(before: string, s: string, p: char -> bool)
    requires All(before, p)
    ensures TrimStart(before + s, p) == TrimStart(s, p)
  {
    if before == "" {
      assert before + s == s;
    } else {
      assert (before + s)[1..] == before[1..] + s;
      TrimStartSkips(before[1..], s, p);
    }
  }

  lemma {:induction false} TrimEndSkips(s: string, after: string, p: char -> bool)
    requires All(after, p)
    ensures TrimEnd(s + after, p) == TrimEnd(s, p)
  {
    if after == "" {
      assert s + after == s;
    } else {
      var last := |after| - 1;
      assert (s + after)[..|s + after| - 1] == s + after[..last];
      assert (s + after)[|s + after| - 1] == after[last];
      TrimEndSkips(s, after[..last], p);
    }
  }

  lemma {:induction false} TrimStartOfAll(s: string, p: char -> bool)
    requires All(s, p)
    ensures TrimStart(s, p) == ""
  {
    assert s + "" == s;
    TrimStartSkips(s, "", p);
  }

  /** Characters satisfying `p` around a string are invisible to trimming. */
  lemma TrimIgnoresFlanks(before: string, s: string, after: string, p: char -> bool)
    requires All(before, p) && All(after, p)
    ensures Trim(before + s + after, p) == Trim(s, p)
  {
    assert before + s + after == before + (s + after);
    TrimStartSkips(before, s + after, p);
    var lead := TrimStartSplits(s, p);
    if TrimStart(s, p) == "" {
      assert lead == s && s + after == lead + after;
      TrimStartSkips(lead, after, p);
      TrimStartOfAll(after, p);
    } else {
      var core := TrimStart(s, p);
      assert s + after == lead + (core + after);
      TrimStartSkips(lead, core + after, p);
      assert !p((core + after)[0]);
      TrimEndSkips(core, after, p);
    }
  }

  lemma TrimKeepsTight(s: string, p: char -> bool)
    requires Tight(s, p)
    ensures Trim(s, p) == s
  {
  }

  /** `str::strip_prefix`. */
  function StripPrefix(s: string, prefix: string): (r: Option<string>)
    ensures r.Some? <==> prefix <= s
    ensures r.Some? ==> s == prefix + r.value
  {
    if prefix <= s then Some(s[|prefix|..]) else None
  }

  predicate EndsWith(s: string, suffix: string) {
    |suffix| <= |s| && s[|s| - |suffix|..] == suffix
  }

  /** `str::strip_suffix`. */
  function StripSuffix(s: string, suffix: string): (r: Option<string>)
    ensures r.Some? <==> EndsWith(s, suffix)
    ensures r.Some? ==> s == r.value + suffix
  {
    if EndsWith(s, suffix) then Some(s[..|s| - |suffix|]) else None
  }

  /** `str::split_once`: cuts at the first `c`. */
  function SplitOnce(s: string, c: char): (r: Option<(string, string)>)
    ensures r.Some? <==> c in s
    ensures r.Some? ==> s == r.value.0 + [c] + r.value.1 && c !in r.value.0
  {
    if s == "" then None
    else if s[0] == c then Some(("", s[1..]))
    else
      match SplitOnce(s[1..], c)
      case None => None
      case Some((a, b)) =>
        assert s == [s[0]] + s[1..];
        Some(([s[0]] + a, b))
  }

  /** `str::rsplit_once`: cuts at the last `c`. */
  function RSplitOnce(s: string, c: char): (r: Option<(string, string)>)
    ensures r.Some? <==> c in s
    ensures r.Some? ==> s == r.value.0 + [c] + r.value.1 && c !in r.value.1
  {
    if s == "" then None
    else
      var last := |s| - 1;
      assert s == s[..last] + [s[last]];
      if s[last] == c then Some((s[..last], ""))
      else
        match RSplitOnce(s[..last], c)
        case None => None
        case Some((a, b)) => Some((a, b + [s[last]]))
  }

  /** There is only one first occurrence. */
  lemma FirstCutUnique(a: string, b: string, a': string, b': string, c: char)
    requires a + [c] + b == a' + [c] + b'
    requires c !in a && c !in a'
    ensures a == a' && b == b'
  {
    var s := a + [c] + b;
    assert s[|a|] == c && (a' + [c] + b')[|a'|] == c;
    assert forall i :: 0 <= i < |a| ==> s[i] == a[i] && s[i] != c;
    assert forall i :: 0 <= i < |a'| ==> (a' + [c] + b')[i] == a'[i] && a'[i] != c;
    assert |a| == |a'|;
    assert a == s[..|a|] == (a' + [c] + b')[..|a'|] == a';
    assert b == s[|a| + 1..] == (a' + [c] + b')[|a'| + 1..] == b';
  }

  lemma SplitOnceAt(a: string, b: string, c: char)
    requires c !in a
    ensures SplitOnce(a + [c] + b, c) == Some((a, b))
  {
    var s := a + [c] + b;
    assert s[|a|] == c;
    var cut := SplitOnce(s, c).value;
    FirstCutUnique(cut.0, cut.1, a, b, c);
  }

  /** There is only one last occurrence. */
  lemma LastCutUnique(a: string, b: string, a': string, b': string, c: char)
    requires a + [c] + b == a' + [c] + b'
    requires c !in b && c !in b'
    ensures a == a' && b == b'
  {
    var s, t := a + [c] + b, a' + [c] + b';
    assert s[|a|] == c && t[|a'|] == c;
    assert forall i :: |a| < i < |s| ==> s[i] == b[i - |a| - 1];
    assert forall i :: |a'| < i < |t| ==> t[i] == b'[i - |a'| - 1];
    assert |a| == |a'|;
    assert a == s[..|a|] == t[..|a'|] == a';
    assert b == s[|a| + 1..] == t[|a'| + 1..] == b';
  }

  lemma RSplitOnceAt(a: string, b: string, c: char)
    requires c !in b
    ensures RSplitOnce(a + [c] + b, c) == Some((a, b))
  {
    var s := a + [c] + b;
    assert s[|a|] == c;
    var cut := RSplitOnce(s, c).value;
    LastCutUnique(cut.0, cut.1, a, b, c);
  }

  /** Every piece of `s` between consecutive `c`s, as `str::split` yields them. */
  function Split(s: string, c: char): (pieces: seq<string>)
    ensures |pieces| >= 1
    decreases |s|
  {
    match SplitOnce(s, c)
    case None => [s]
    case Some((a, b)) => [a] + Split(b, c)
  }

  /** `first`, then each of `rest` behind one separator. */
  function Join(first: string, rest: seq<string>, c: char): string
    decreases |rest|
  {
    if rest == [] then first else first + [c] + Join(rest[0], rest[1..], c)
  }

  lemma {:induction false} SplitOfJoin(first: string, rest: seq<string>, c: char)
    requires c !in first && forall i :: 0 <= i < |rest| ==> c !in rest[i]
    ensures Split(Join(first, rest, c), c) == [first] + rest
    decreases |rest|
  {
    if rest != [] {
      SplitOnceAt(first, Join(rest[0], rest[1..], c), c);
      SplitOfJoin(rest[0], rest[1..], c);
      assert [rest[0]] + rest[1..] == rest;
    }
  }

  lemma {:induction false} JoinAppend(first: string, rest: seq<string>, last: string, c: char)
    ensures Join(first, rest + [last], c) == Join(first, rest, c) + [c] + last
    decreases |rest|
  {
    if rest == [] {
      assert rest + [last] == [last];
    } else {
      assert (rest + [last])[1..] == rest[1..] + [last];
      JoinAppend(rest[0], rest[1..], last, c);
    }
  }
}
