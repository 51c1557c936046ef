/**
 * The canonical form told from the outside: which characters are stripped, which are refused, what the
 * string looks like and where each value given stands in it.
 */
module FingerprintReading {
  import opened Outcomes
  import opened Words
  import opened Fingerprint
  import Collections
  import FingerprintDigest
  import FingerprintOrder
  import Hex
  import Lexicographic
  import Sorting
  import Text
  import Utf8

  /** Space, tab, carriage return, line feed, vertical tab, form feed. */
  predicate IsBlank(c: char) {
    c == ' ' || c == '\t' || c == '\r' || c == '\n' || c as int == 0x0B || c as int == 0x0C
  }

  predicate Blank(s: string) {
    forall i :: 0 <= i < |s| ==> IsBlank(s[i])
  }

  /** `v` is what is left of `value` when the blanks at both ends are gone. */
  ghost predicate IsCore(value: string, v: string) {
    && (v != "" ==> !IsBlank(v[0]) && !IsBlank(v[|v| - 1]))
    && exists before, after :: value == before + v + after && Blank(before) && Blank(after)
  }

  predicate IsGoodLabel(name: string) {
    name != "" && forall i :: 0 <= i < |name| ==> 0x21 <= name[i] as int <= 0x7E && name[i] != '='
  }

  predicate HasNoControl(v: string) {
    forall i :: 0 <= i < |v| ==> 0x20 <= v[i] as int != 0x7F
  }

  /** Every value has exactly one core, and it is what the canonicaliser keeps. */
  lemma CoreIsTrimmed(value: string, v: string)
    ensures IsCore(value, v) <==> v == TrimmedValue(value)
  {
    var before, after := Text.TrimSplits(value, IsAsciiWhitespace);
    if IsCore(value, v) {
      var b, a :| value == b + v + a && Blank(b) && Blank(a);
      assert Text.All(b, IsAsciiWhitespace) && Text.All(a, IsAsciiWhitespace);
      Text.TrimIgnoresFlanks(b, v, a, IsAsciiWhitespace);
      Text.TrimKeepsTight(v, IsAsciiWhitespace);
    }
    if v == TrimmedValue(value) {
      assert Blank(before) && Blank(after) && value == before + v + after;
    }
  }

  // --- Acceptance and refusal -----------------------------------------------------------

  /** What is at fault with component `i`, given the ones before it. */
  ghost predicate Fault(cs: seq<Component>, i: nat, e: Error)
    requires i < |cs|
  {
    var (name, value) := cs[i];
    || (name == "" && e == EmptyLabel)
    || (name != "" && !IsGoodLabel(name) && e == InvalidLabel(name))
    || (IsGoodLabel(name) && (exists j :: 0 <= j < i && cs[j].0 == name) && e == DuplicateLabel(name))
    || (IsGoodLabel(name) && (forall j :: 0 <= j < i ==> cs[j].0 != name)
        && (exists v :: IsCore(value, v) && !HasNoControl(v)) && e == ControlCharacterInValue(name))
  }

  lemma GoodLabels(name: string)
    ensures ValidateLabel(name) == if name == "" then Some(EmptyLabel) else if IsGoodLabel(name) then None else Some(InvalidLabel(name))
  {
    if IsGoodLabel(name) {
      assert Text.All(name, IsLabelChar);
    } else if name != "" {
      var i :| 0 <= i < |name| && !(0x21 <= name[i] as int <= 0x7E && name[i] != '=');
      assert !IsLabelChar(name[i]);
    }
  }

  lemma ControlShows(value: string)
    ensures (exists v :: IsCore(value, v) && !HasNoControl(v)) <==> HasControl(TrimmedValue(value))
    ensures (exists v :: IsCore(value, v) && HasNoControl(v)) <==> !HasControl(TrimmedValue(value))
  {
    var w := TrimmedValue(value);
    CoreIsTrimmed(value, w);
    assert HasControl(w) <==> !HasNoControl(w);
    forall v | IsCore(value, v)
      ensures v == w
    {
      CoreIsTrimmed(value, v);
    }
  }

  lemma SeenBefore(cs: seq<Component>, i: nat, name: string)
    requires i < |cs|
    ensures LabelSeen(cs[..i], name) <==> exists j :: 0 <= j < i && cs[j].0 == name
  {
    assert forall j :: 0 <= j < i ==> cs[..i][j] == cs[j];
  }

  lemma FaultIsComponentError(cs: seq<Component>, i: nat, e: Error)
    requires i < |cs|
    ensures Fault(cs, i, e) <==> ComponentError(cs, i) == Some(e)
  {
    hide ValidateLabel, IsGoodLabel, HasControl, TrimmedValue, HasNoControl, IsCore, LabelSeen;
    var (name, value) := cs[i];
    GoodLabels(name);
    ControlShows(value);
    SeenBefore(cs, i, name);
    NoGoodEmptyLabel();
  }

  lemma NoGoodEmptyLabel()
    ensures !IsGoodLabel("")
  {
  }

  /** A refusal names the fault of the first component that has one; no other input is refused but the empty one. */
  lemma RefusedExactly(cs: seq<Component>, e: Error)
    ensures CanonicalOf(cs) == Err(e) <==>
            || (cs == [] && e == NoComponents)
            || exists i :: 0 <= i < |cs| && Fault(cs, i, e) && forall j, e' :: 0 <= j < i ==> !Fault(cs, j, e')
  {
    hide ComponentError, Fault;
    forall i, e' | 0 <= i < |cs|
      ensures Fault(cs, i, e') <==> ComponentError(cs, i) == Some(e')
    {
      FaultIsComponentError(cs, i, e');
    }
    RefusalNamesFirstFault(cs, |cs|, e);
  }

  /** Accepted are exactly the inputs that keep every rule, each told of the value as it stands between its outer blanks. */
  lemma AcceptedSpelledOut(cs: seq<Component>)
    ensures CanonicalOf(cs).Ok? <==>
            && cs != []
            && (forall i, j :: 0 <= i < j < |cs| ==> cs[i].0 != cs[j].0)
            && (forall i :: 0 <= i < |cs| ==> IsGoodLabel(cs[i].0) && exists v :: IsCore(cs[i].1, v) && HasNoControl(v))
  {
    AcceptedExactly(cs);
    forall i | 0 <= i < |cs|
      ensures CleanPair(TrimmedPair(cs[i])) <==> IsGoodLabel(cs[i].0) && exists v :: IsCore(cs[i].1, v) && HasNoControl(v)
    {
      CleanExactly(cs[i]);
    }
  }

  lemma CleanExactly(c: Component)
    ensures CleanPair(TrimmedPair(c)) <==> IsGoodLabel(c.0) && exists v :: IsCore(c.1, v) && HasNoControl(v)
  {
    GoodLabels(c.0);
    ControlShows(c.1);
  }

  // --- The string -----------------------------------------------------------------------

  /** Each pair behind a unit separator, name and value around an `=`. */
  function Laid(ps: seq<Component>): string {
    if ps == [] then "" else ['\U{1f}'] + ps[0].0 + "=" + ps[0].1 + Laid(ps[1..])
  }

  lemma {:induction false} JoinIsLaid(first: string, ps: seq<Component>)
    ensures Text.Join(first, Collections.Map(PairText, ps), UNIT_SEPARATOR) == first + Laid(ps)
    decreases |ps|
  {
    var parts := Collections.Map(PairText, ps);
    if ps != [] {
      assert parts[1..] == Collections.Map(PairText, ps[1..]);
      JoinIsLaid(parts[0], ps[1..]);
    }
  }

  /** Label by name, each value given stands in the pairs, rid of its outer blanks and of nothing else. */
  ghost predicate HoldsEach(ps: seq<Component>, cs: seq<Component>) {
    && |ps| == |cs|
    && (forall i :: 0 <= i < |cs| ==> exists j :: 0 <= j < |ps| && ps[j].0 == cs[i].0 && IsCore(cs[i].1, ps[j].1))
  }

  /** The pairs stand in code-point order of their labels with the `=` behind them. */
  ghost predicate InOrder(ps: seq<Component>) {
    forall i, j :: 0 <= i < j < |ps| ==> Lexicographic.Less(Utf8.CodePoints(ps[i].0 + "="), Utf8.CodePoints(ps[j].0 + "="))
  }

  /** An accepted input's string: the versioned domain, then every pair, in order; and the decoder reads these pairs back. */
  lemma CanonicalSpelledOut(cs: seq<Component>) returns (ps: seq<Component>)
    requires CanonicalOf(cs).Ok?
    ensures CanonicalOf(cs).value == "tamga-fingerprint-v1" + Laid(ps)
    ensures HoldsEach(ps, cs) && InOrder(ps)
    ensures Decode(CanonicalOf(cs).value) == Some(ps)
  {
    AcceptedExactly(cs);
    DecodeRecovers(cs);
    FingerprintOrder.DecodedLabelsAscend(cs);
    ps := Decode(CanonicalOf(cs).value).value;
    JoinIsLaid(DOMAIN, ps);
    EachIsHeld(ps, cs);
    forall i, j | 0 <= i < j < |ps|
      ensures Lexicographic.Less(Utf8.CodePoints(ps[i].0 + "="), Utf8.CodePoints(ps[j].0 + "="))
    {
      assert Sorting.Before(ps[i].0 + "=", ps[j].0 + "=");
      Utf8.ByteOrderIsCodePointOrder(ps[i].0 + "=", ps[j].0 + "=");
    }
  }

  lemma EachIsHeld(ps: seq<Component>, cs: seq<Component>)
    requires Collections.Permutation(ps, TrimmedPairs(cs))
    ensures HoldsEach(ps, cs)
  {
    assert |ps| == |multiset(ps)| == |multiset(TrimmedPairs(cs))| == |cs|;
    forall i | 0 <= i < |cs|
      ensures exists j :: 0 <= j < |ps| && ps[j].0 == cs[i].0 && IsCore(cs[i].1, ps[j].1)
    {
      assert TrimmedPairs(cs)[i] in multiset(ps);
      var j := Collections.IndexOf(ps, TrimmedPairs(cs)[i]);
      CoreIsTrimmed(cs[i].1, ps[j].1);
    }
  }

  /** With one component, the value decides: two values give one string iff they differ in outer blanks only. */
  lemma ValueDecides(name: string, a: string, b: string)
    requires CanonicalOf([(name, a)]).Ok? && CanonicalOf([(name, b)]).Ok?
    ensures CanonicalOf([(name, a)]) == CanonicalOf([(name, b)]) <==> exists v :: IsCore(a, v) && IsCore(b, v)
  {
    var p := CanonicalSpelledOut([(name, a)]);
    var q := CanonicalSpelledOut([(name, b)]);
    var cs, ds := [(name, a)], [(name, b)];
    assert cs[0] == (name, a) && ds[0] == (name, b);
    assert p == [(name, p[0].1)] && IsCore(a, p[0].1);
    assert q == [(name, q[0].1)] && IsCore(b, q[0].1);
    if v :| IsCore(a, v) && IsCore(b, v) {
      CoreIsTrimmed(a, v);
      CoreIsTrimmed(b, v);
      CoreIsTrimmed(a, p[0].1);
      CoreIsTrimmed(b, q[0].1);
      assert p == q;
    }
  }

  // --- The digest -------------------------------------------------------------------------

  /** A refused input has no digest; an accepted one has 64 lowercase digits that read, pair by pair, as the SHA-256 of the string's UTF-8. */
  lemma DigestSpelledOut(sha256: Bytes -> Digest, cs: seq<Component>)
    ensures CanonicalOf(cs).Err? ==> FingerprintDigest.ComputeOf(sha256, cs) == Err(CanonicalOf(cs).error)
    ensures CanonicalOf(cs).Ok? ==>
              var r := FingerprintDigest.ComputeOf(sha256, cs);
              && r.Ok? && |r.value| == 64
              && forall k :: 0 <= k < 32 ==> Hex.Spells(r.value[2 * k], r.value[2 * k + 1], sha256(Utf8.Encode(CanonicalOf(cs).value))[k])
  {
    hide CanonicalOf, Hex.Of, Hex.Spells, Utf8.Encode;
    if CanonicalOf(cs).Ok? {
      var digest := sha256(Utf8.Encode(CanonicalOf(cs).value));
      forall k | 0 <= k < 32
        ensures Hex.Spells(Hex.Of(digest)[2 * k], Hex.Of(digest)[2 * k + 1], digest[k])
      {
        Hex.Reads(digest, k);
      }
    }
  }
}
