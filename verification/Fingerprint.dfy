/** The canonical form of a machine fingerprint and its digest (`src/fingerprint.rs`). */
module Fingerprint {
  import opened Outcomes
  import opened Words
  import opened Collections
  import Sorting
  import Text

  /** A caller-chosen label and its raw value. */
  type Component = (string, string)

  datatype Error =
    | NoComponents
    | EmptyLabel
    | InvalidLabel(name: string)
    | DuplicateLabel(name: string)
    | ControlCharacterInValue(name: string)

  const DOMAIN := "tamga-fingerprint-v1"
  const UNIT_SEPARATOR: char := '\U{1f}'

  predicate IsAsciiWhitespace(c: char) {
    c == ' ' || c == '\t' || c == '\r' || c == '\n' || c == '\U{b}' || c == '\U{c}'
  }

  predicate IsAsciiControl(c: char) {
    c as int < 0x20 || c as int == 0x7F
  }

  predicate IsLabelChar(c: char) {
    0x21 <= c as int <= 0x7E && c != '='
  }

  function ValidateLabel(name: string): Option<Error> {
    if name == "" then Some(EmptyLabel)
    else if Text.All(name, IsLabelChar) then None
    else Some(InvalidLabel(name))
  }

  function TrimmedValue(value: string): string {
    Text.Trim(value, IsAsciiWhitespace)
  }

  predicate HasControl(value: string) {
    exists i :: 0 <= i < |value| && IsAsciiControl(value[i])
  }

  function TrimmedPair(c: Component): Component {
    (c.0, TrimmedValue(c.1))
  }

  /** The `label=value` text of a trimmed pair. */
  function PairText(c: Component): string {
    c.0 + "=" + c.1
  }

  function Part(c: Component): string {
    PairText(TrimmedPair(c))
  }

  function TrimmedPairs(cs: seq<Component>): seq<Component> {
    Map(TrimmedPair, cs)
  }

  function Parts(cs: seq<Component>): (parts: seq<string>)
    ensures |parts| == |cs|
  {
    Map(PairText, TrimmedPairs(cs))
  }

  predicate LabelSeen(cs: seq<Component>, name: string) {
    exists j :: 0 <= j < |cs| && cs[j].0 == name
  }

  /** What component `i` is refused for, given the labels before it. */
  function ComponentError(cs: seq<Component>, i: nat): Option<Error>
    requires i < |cs|
  {
    var name := cs[i].0;
    match ValidateLabel(name)
    case Some(e) => Some(e)
    case None =>
      if LabelSeen(cs[..i], name) then Some(DuplicateLabel(name))
      else if HasControl(TrimmedValue(cs[i].1)) then Some(ControlCharacterInValue(name))
      else None
  }

  /** The error of the earliest refused component among the first `n`. */
  function FirstError(cs: seq<Component>, n: nat): Option<Error>
    requires n <= |cs|
  {
    if n == 0 then None
    else if FirstError(cs, n - 1).Some? then FirstError(cs, n - 1)
    else ComponentError(cs, n - 1)
  }

  /** The specification of `canonical`. */
  function CanonicalOf(cs: seq<Component>): Result<string, Error> {
    match FirstError(cs, |cs|)
    case Some(e) => Err(e)
    case None =>
      if cs == [] then Err(NoComponents)
      else Ok(Text.Join(DOMAIN, Sorting.Sorted(Parts(cs)), UNIT_SEPARATOR))
  }

  // --- The method -----------------------------------------------------------

  lemma {:induction false} ErrorSticks(cs: seq<Component>, m: nat, n: nat)
    requires m <= n <= |cs| && FirstError(cs, m).Some?
    ensures FirstError(cs, n) == FirstError(cs, m)
    decreases n
  {
    if m < n {
      ErrorSticks(cs, m, n - 1);
    }
  }

  /** Gathers the parts in one pass, stopping at the first refusal. */
  method Gather(components: seq<Component>) returns (r: Result<seq<string>, Error>)
    ensures r.Err? <==> FirstError(components, |components|).Some?
    ensures r.Err? ==> FirstError(components, |components|) == Some(r.error)
    ensures r.Ok? ==> r.value == Parts(components)
  {
    hide ValidateLabel, HasControl, TrimmedValue;
    var seenLabels: set<string> := {};
    var parts: seq<string> := [];
    var i := 0;
    while i < |components|
      invariant i <= |components|
      invariant FirstError(components, i) == None
      invariant forall name :: name in seenLabels <==> LabelSeen(components[..i], name)
      invariant |parts| == i
      invariant forall j :: 0 <= j < i ==> parts[j] == Part(components[j])
    {
      var (name, value) := components[i];
      var refusal := ValidateLabel(name);
      if refusal.Some? {
        ErrorSticks(components, i + 1, |components|);
        return Err(refusal.value);
      }
      if name in seenLabels {
        ErrorSticks(components, i + 1, |components|);
        return Err(DuplicateLabel(name));
      }
      SeenGrows(components, i);
      seenLabels := seenLabels + {name};
      var trimmed := TrimmedValue(value);
      if HasControl(trimmed) {
        ErrorSticks(components, i + 1, |components|);
        return Err(ControlCharacterInValue(name));
      }
      parts := parts + [name + "=" + trimmed];
      i := i + 1;
    }
    assert parts == Parts(components);
    return Ok(parts);
  }

  lemma SeenGrows(cs: seq<Component>, i: nat)
    requires i < |cs|
    ensures forall name :: LabelSeen(cs[..i + 1], name) <==> LabelSeen(cs[..i], name) || name == cs[i].0
  {
    forall name
      ensures LabelSeen(cs[..i + 1], name) <==> LabelSeen(cs[..i], name) || name == cs[i].0
    {
      assert cs[..i + 1] == cs[..i] + [cs[i]];
      if name == cs[i].0 {
        assert cs[..i + 1][i].0 == name;
      }
      if LabelSeen(cs[..i], name) {
        var j :| 0 <= j < i && cs[..i][j].0 == name;
        assert cs[..i + 1][j].0 == name;
      }
    }
  }

  /** `canonical`: gather, sort in place, append behind the domain prefix. */
  method Canonical(components: seq<Component>) returns (r: Result<string, Error>)
    ensures r == CanonicalOf(components)
  {
    hide Sorting.Sorted, Sorting.IsSorted;
    var gathered := Gather(components);
    if gathered.Err? {
      return Err(gathered.error);
    }
    var parts := gathered.value;
    if parts == [] {
      return Err(NoComponents);
    }
    var buffer := new string[|parts|](i requires 0 <= i < |parts| => parts[i]);
    assert buffer[..] == parts;
    Sorting.SortUnstable(buffer);
    ghost var sorted := buffer[..];

    var out := DOMAIN;
    var k := 0;
    assert sorted[..0] == [];
    while k < buffer.Length
      invariant k <= buffer.Length
      invariant buffer[..] == sorted
      invariant out == Text.Join(DOMAIN, sorted[..k], UNIT_SEPARATOR)
    {
      hide Text.Join;
      Text.JoinAppend(DOMAIN, sorted[..k], sorted[k], UNIT_SEPARATOR);
      assert sorted[..k + 1] == sorted[..k] + [sorted[k]];
      out := out + [UNIT_SEPARATOR];
      out := out + buffer[k];
      k := k + 1;
    }
    assert sorted[..k] == sorted;
    return Ok(out);
  }

  // --- When a collection is accepted ----------------------------------------

  predicate ValidLabel(name: string) {
    name != "" && Text.All(name, IsLabelChar)
  }

  /** A pair that may stand in a canonical string. */
  predicate CleanPair(c: Component) {
    ValidLabel(c.0) && !HasControl(c.1)
  }

  ghost predicate DistinctLabels(cs: seq<Component>) {
    forall i, j :: 0 <= i < j < |cs| ==> cs[i].0 != cs[j].0
  }

  ghost predicate Accepted(cs: seq<Component>) {
    && cs != []
    && DistinctLabels(cs)
    && forall i :: 0 <= i < |cs| ==> CleanPair(TrimmedPair(cs[i]))
  }

  lemma {:induction false} NoErrorMeans(cs: seq<Component>, n: nat)
    requires n <= |cs|
    ensures FirstError(cs, n) == None <==> forall i :: 0 <= i < n ==> ComponentError(cs, i) == None
  {
    if n > 0 {
      NoErrorMeans(cs, n - 1);
    }
  }

  /** Exactly the inputs that keep every rule are accepted. */
  lemma AcceptedExactly(cs: seq<Component>)
    ensures CanonicalOf(cs).Ok? <==> Accepted(cs)
  {
    NoErrorMeans(cs, |cs|);
    if FirstError(cs, |cs|) == None {
      forall i, j | 0 <= i < j < |cs|
        ensures cs[i].0 != cs[j].0
      {
        assert ComponentError(cs, j) == None;
        assert cs[..j][i] == cs[i];
      }
      assert forall i :: 0 <= i < |cs| ==> ComponentError(cs, i) == None && CleanPair(TrimmedPair(cs[i]));
    }
    if Accepted(cs) {
      forall i | 0 <= i < |cs|
        ensures ComponentError(cs, i) == None
      {
        assert CleanPair(TrimmedPair(cs[i]));
        assert forall j :: 0 <= j < i ==> cs[..i][j] == cs[j];
      }
    }
  }

  /** A refusal is that of the first component at fault, and only the empty input has no component to blame. */
  lemma {:induction false} RefusalNamesFirstFault(cs: seq<Component>, n: nat, e: Error)
    requires n <= |cs|
    ensures FirstError(cs, n) == Some(e) <==>
            exists i :: 0 <= i < n && ComponentError(cs, i) == Some(e) && forall j :: 0 <= j < i ==> ComponentError(cs, j) == None
  {
    if n > 0 {
      RefusalNamesFirstFault(cs, n - 1, e);
      NoErrorMeans(cs, n - 1);
      if FirstError(cs, n - 1).Some? {
        RefusalNamesFirstFault(cs, n - 1, FirstError(cs, n - 1).value);
      }
    }
  }

  // --- The decoder -----------------------------------------------------------

  /** Reads a `label=value` text back at its first `=`. */
  function SplitPair(part: string): Component {
    match Text.SplitOnce(part, '=')
    case None => (part, "")
    case Some(pair) => pair
  }

  /** Reads a canonical string back: drops the domain, cuts at each unit separator, then at each first `=`. */
  function Decode(s: string): Option<seq<Component>> {
    var pieces := Text.Split(s, UNIT_SEPARATOR);
    if pieces[0] != DOMAIN || exists i :: 1 <= i < |pieces| && '=' !in pieces[i] then None
    else Some(Map(SplitPair, pieces[1..]))
  }

  lemma SplitPairOfText(c: Component)
    requires ValidLabel(c.0)
    ensures SplitPair(PairText(c)) == c
  {
    assert '=' !in c.0;
    Text.SplitOnceAt(c.0, c.1, '=');
  }

  lemma CleanTextHasNoSeparator(c: Component)
    requires CleanPair(c)
    ensures UNIT_SEPARATOR !in PairText(c) && '=' in PairText(c)
  {
    assert PairText(c)[|c.0|] == '=';
    assert forall i :: 0 <= i < |c.0| ==> IsLabelChar(c.0[i]);
    assert forall i :: 0 <= i < |c.1| ==> !IsAsciiControl(c.1[i]);
  }

  ghost predicate AscendingLabels(ps: seq<Component>) {
    forall i, j :: 0 <= i < j < |ps| ==> Sorting.Before(ps[i].0 + "=", ps[j].0 + "=")
  }

  lemma SortedPartReadsBack(cs: seq<Component>, k: nat)
    requires Accepted(cs) && k < |cs|
    ensures var part := Sorting.Sorted(Parts(cs))[k];
            UNIT_SEPARATOR !in part && '=' in part && PairText(SplitPair(part)) == part
  {
    var sorted := Sorting.Sorted(Parts(cs));
    Sorting.SortedIsSortedPermutation(Parts(cs));
    assert sorted[k] in multiset(sorted);
    var i := IndexOf(Parts(cs), sorted[k]);
    assert CleanPair(TrimmedPair(cs[i]));
    CleanTextHasNoSeparator(TrimmedPair(cs[i]));
    SplitPairOfText(TrimmedPair(cs[i]));
  }

  lemma DecodeOfPieces(s: string, parts: seq<string>)
    requires Text.Split(s, UNIT_SEPARATOR) == [DOMAIN] + parts
    requires forall k :: 0 <= k < |parts| ==> '=' in parts[k]
    ensures Decode(s) == Some(Map(SplitPair, parts))
  {
    var pieces := Text.Split(s, UNIT_SEPARATOR);
    assert pieces[1..] == parts;
    assert forall i :: 1 <= i < |pieces| ==> pieces[i] == parts[i - 1];
  }

  lemma DomainHasNoSeparator()
    ensures UNIT_SEPARATOR !in DOMAIN
  {
  }

  /** Cutting undoes joining: the decoder sees the sorted parts. */
  lemma DecodeOfJoin(parts: seq<string>)
    requires forall k :: 0 <= k < |parts| ==> UNIT_SEPARATOR !in parts[k] && '=' in parts[k]
    ensures Decode(Text.Join(DOMAIN, parts, UNIT_SEPARATOR)) == Some(Map(SplitPair, parts))
  {
    DomainHasNoSeparator();
    Text.SplitOfJoin(DOMAIN, parts, UNIT_SEPARATOR);
    DecodeOfPieces(Text.Join(DOMAIN, parts, UNIT_SEPARATOR), parts);
  }

  lemma SplitPartsAreTrimmedPairs(cs: seq<Component>)
    requires Accepted(cs)
    ensures Map(SplitPair, Parts(cs)) == TrimmedPairs(cs)
  {
    forall i | 0 <= i < |cs|
      ensures SplitPair(Parts(cs)[i]) == TrimmedPairs(cs)[i]
    {
      assert CleanPair(TrimmedPair(cs[i]));
      SplitPairOfText(TrimmedPair(cs[i]));
    }
  }

  /** Decoding recovers exactly the trimmed pairs, whatever the values contain, in the order of their texts. */
  lemma DecodeRecovers(cs: seq<Component>)
    requires Accepted(cs)
    ensures CanonicalOf(cs).Ok?
    ensures Decode(CanonicalOf(cs).value).Some?
    ensures Permutation(Decode(CanonicalOf(cs).value).value, TrimmedPairs(cs))
    ensures Map(PairText, Decode(CanonicalOf(cs).value).value) == Sorting.Sorted(Parts(cs))
  {
    AcceptedExactly(cs);
    var sorted := Sorting.Sorted(Parts(cs));
    forall k | 0 <= k < |sorted|
      ensures UNIT_SEPARATOR !in sorted[k] && '=' in sorted[k] && PairText(SplitPair(sorted[k])) == sorted[k]
    {
      SortedPartReadsBack(cs, k);
    }
    DecodeOfJoin(sorted);
    Sorting.SortedIsSortedPermutation(Parts(cs));
    MapPermutation(SplitPair, sorted, Parts(cs));
    SplitPartsAreTrimmedPairs(cs);
  }

  /** Two accepted inputs share a canonical string iff their trimmed pairs are permutations of each other. */
  lemma SameCanonicalIffPermutation(cs: seq<Component>, ds: seq<Component>)
    requires Accepted(cs) && Accepted(ds)
    ensures CanonicalOf(cs) == CanonicalOf(ds) <==> Permutation(TrimmedPairs(cs), TrimmedPairs(ds))
  {
    DecodeRecovers(cs);
    DecodeRecovers(ds);
    if Permutation(TrimmedPairs(cs), TrimmedPairs(ds)) {
      MapPermutation(PairText, TrimmedPairs(cs), TrimmedPairs(ds));
      Sorting.SortedOfPermutation(Parts(cs), Parts(ds));
    }
  }

  // --- Order and whitespace are invisible -------------------------------------

  function Label(c: Component): string {
    c.0
  }

  lemma PermutationKeepsAccepted(cs: seq<Component>, ds: seq<Component>)
    requires Permutation(cs, ds) && Accepted(cs)
    ensures Accepted(ds)
  {
    assert |ds| == |multiset(ds)| == |cs|;
    MapPermutation(Label, cs, ds);
    assert forall i :: 0 <= i < |cs| ==> Map(Label, cs)[i] == cs[i].0;
    PermutationKeepsDistinct(Map(Label, cs), Map(Label, ds));
    assert forall i :: 0 <= i < |ds| ==> Map(Label, ds)[i] == ds[i].0;
    forall i | 0 <= i < |ds|
      ensures CleanPair(TrimmedPair(ds[i]))
    {
      assert ds[i] in multiset(cs);
      var j := IndexOf(cs, ds[i]);
    }
  }

  /** Reordering the components changes neither acceptance nor the string. */
  lemma OrderInvisible(cs: seq<Component>, ds: seq<Component>)
    requires Permutation(cs, ds)
    ensures CanonicalOf(cs).Ok? <==> CanonicalOf(ds).Ok?
    ensures CanonicalOf(cs).Ok? ==> CanonicalOf(cs) == CanonicalOf(ds)
  {
    AcceptedExactly(cs);
    AcceptedExactly(ds);
    if Accepted(cs) {
      PermutationKeepsAccepted(cs, ds);
      MapPermutation(TrimmedPair, cs, ds);
      SameCanonicalIffPermutation(cs, ds);
    }
    if Accepted(ds) {
      PermutationKeepsAccepted(ds, cs);
    }
  }

  /** Which error a refused input gets does depend on the order: the first fault is reported. */
  lemma OrderVisibleInErrors()
    ensures var (empty, spaced) := (("", "x"), ("a b", "x"));
            && CanonicalOf([empty, spaced]) == Err(EmptyLabel)
            && CanonicalOf([spaced, empty]) == Err(InvalidLabel("a b"))
  {
    var (empty, spaced) := (("", "x"), ("a b", "x"));
    assert !IsLabelChar("a b"[1]);
    assert ComponentError([empty, spaced], 0) == Some(EmptyLabel);
    assert ComponentError([spaced, empty], 0) == Some(InvalidLabel("a b"));
    ErrorSticks([empty, spaced], 1, 2);
    ErrorSticks([spaced, empty], 1, 2);
  }

  /** `cs` with ASCII whitespace added around each value. */
  ghost predicate Padded(cs: seq<Component>, ds: seq<Component>) {
    && |cs| == |ds|
    && forall i :: 0 <= i < |cs| ==>
      && cs[i].0 == ds[i].0
      && exists before, after ::
        && Text.All(before, IsAsciiWhitespace)
        && Text.All(after, IsAsciiWhitespace)
        && ds[i].1 == before + cs[i].1 + after
  }

  lemma {:induction false} SameTrimmedSameError(cs: seq<Component>, ds: seq<Component>, n: nat)
    requires TrimmedPairs(cs) == TrimmedPairs(ds) && n <= |cs| == |ds|
    ensures FirstError(cs, n) == FirstError(ds, n)
  {
    hide ValidateLabel, HasControl, TrimmedValue;
    if n > 0 {
      SameTrimmedSameError(cs, ds, n - 1);
      var i := n - 1;
      assert TrimmedPairs(cs)[i] == TrimmedPairs(ds)[i];
      assert forall j :: 0 <= j < i ==> cs[..i][j].0 == TrimmedPairs(cs)[j].0 == TrimmedPairs(ds)[j].0 == ds[..i][j].0;
      assert LabelSeen(cs[..i], cs[i].0) <==> LabelSeen(ds[..i], ds[i].0);
    }
  }

  /** ASCII whitespace around values changes neither the string nor the error. */
  lemma WhitespaceInvisible(cs: seq<Component>, ds: seq<Component>)
    requires Padded(cs, ds)
    ensures CanonicalOf(cs) == CanonicalOf(ds)
  {
    forall i | 0 <= i < |cs|
      ensures TrimmedPair(cs[i]) == TrimmedPair(ds[i])
    {
      var before, after :|
        && Text.All(before, IsAsciiWhitespace)
        && Text.All(after, IsAsciiWhitespace)
        && ds[i].1 == before + cs[i].1 + after;
      Text.TrimIgnoresFlanks(before, cs[i].1, after, IsAsciiWhitespace);
    }
    assert TrimmedPairs(cs) == TrimmedPairs(ds);
    SameTrimmedSameError(cs, ds, |cs|);
  }
}
