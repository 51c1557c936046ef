/** What decides the sort of a fingerprint's components. */
module FingerprintOrder {
  import opened Words
  import opened Fingerprint
  import Collections
  import Lexicographic
  import Sorting
  import Utf8

  lemma LabelsAreAscii(name: string)
    requires ValidLabel(name)
    ensures Utf8.IsAscii(name + "=")
    ensures forall i :: 0 <= i < |name| ==> name[i] != '='
  {
    assert forall i :: 0 <= i < |name| ==> IsLabelChar(name[i]);
  }

  /** Two different labels part no later than the `=` that ends one of them. */
  lemma TerminatedLabelsPart(a: string, b: string) returns (i: nat)
    requires ValidLabel(a) && ValidLabel(b) && a != b
    ensures i <= |a| && i <= |b|
    ensures (a + "=")[..i] == (b + "=")[..i] && (a + "=")[i] != (b + "=")[i]
  {
    LabelsAreAscii(a);
    LabelsAreAscii(b);
    var s, t := a + "=", b + "=";
    i := 0;
    while i < |a| && i < |b| && a[i] == b[i]
      invariant i <= |a| && i <= |b|
      invariant a[..i] == b[..i]
    {
      assert a[..i + 1] == a[..i] + [a[i]] && b[..i + 1] == b[..i] + [b[i]];
      i := i + 1;
    }
    assert s[..i] == a[..i] && t[..i] == b[..i];
    assert a[..|a|] == a && b[..|b|] == b;
  }

  lemma PairBytes(c: Component)
    requires ValidLabel(c.0)
    ensures Utf8.Encode(PairText(c)) == Utf8.CodePoints(c.0 + "=") + Utf8.Encode(c.1)
  {
    LabelsAreAscii(c.0);
    Utf8.EncodeAppend(c.0 + "=", c.1);
    Utf8.AsciiEncodesAsItself(c.0 + "=");
  }

  /** The comparison of two whole components is over at or before the end of the shorter label, on ASCII bytes. */
  lemma LabelsDecide(c: Component, d: Component) returns (i: nat)
    requires ValidLabel(c.0) && ValidLabel(d.0) && c.0 != d.0
    ensures i <= |c.0| && i <= |d.0|
    ensures Lexicographic.PartAt(Utf8.Encode(PairText(c)), Utf8.Encode(PairText(d)), i)
    ensures Utf8.Encode(PairText(c))[i] < 0x80 && Utf8.Encode(PairText(d))[i] < 0x80
  {
    i := TerminatedLabelsPart(c.0, d.0);
    PairBytes(c);
    PairBytes(d);
    LabelsAreAscii(c.0);
    LabelsAreAscii(d.0);
    var s, t := c.0 + "=", d.0 + "=";
    var a, b := Utf8.CodePoints(s), Utf8.CodePoints(t);
    forall k | 0 <= k < i
      ensures a[k] == b[k]
    {
      assert s[k] == s[..i][k] == t[..i][k] == t[k];
    }
    assert a[..i] == b[..i];
  }

  /** So a value never decides the sort: the order of two components is the order of their terminated labels. */
  lemma ValuesNeverDecide(c: Component, d: Component)
    requires ValidLabel(c.0) && ValidLabel(d.0) && c.0 != d.0
    ensures Sorting.Before(PairText(c), PairText(d)) <==> Sorting.Before(c.0 + "=", d.0 + "=")
  {
    var i := LabelsDecide(c, d);
    PairBytes(c);
    PairBytes(d);
    PairBytes((c.0, ""));
    PairBytes((d.0, ""));
    var a, b := Utf8.CodePoints(c.0 + "="), Utf8.CodePoints(d.0 + "=");
    assert PairText((c.0, "")) == c.0 + "=" && PairText((d.0, "")) == d.0 + "=";
    assert a + [] == a && b + [] == b;
    assert a[..i] == Utf8.Encode(PairText(c))[..i] && b[..i] == Utf8.Encode(PairText(d))[..i];
    Lexicographic.PartingDecides(Utf8.Encode(PairText(c)), Utf8.Encode(PairText(d)), i);
    Lexicographic.PartingDecides(a, b, i);
  }

  /** Every accepted input's decoded pairs stand in ascending order of their terminated labels. */
  lemma DecodedLabelsAscend(cs: seq<Component>)
    requires Accepted(cs)
    ensures CanonicalOf(cs).Ok? && Decode(CanonicalOf(cs).value).Some?
    ensures AscendingLabels(Decode(CanonicalOf(cs).value).value)
  {
    DecodeRecovers(cs);
    var ps := Decode(CanonicalOf(cs).value).value;
    Sorting.SortedIsSortedPermutation(Parts(cs));
    DecodedPairsAreTrimmed(cs, ps);
    forall i, j | 0 <= i < j < |ps|
      ensures Sorting.Before(ps[i].0 + "=", ps[j].0 + "=")
    {
      assert PairText(ps[i]) == Sorting.Sorted(Parts(cs))[i] && PairText(ps[j]) == Sorting.Sorted(Parts(cs))[j];
      assert Sorting.AtMost(PairText(ps[i]), PairText(ps[j]));
      SplitPairOfText(ps[i]);
      SplitPairOfText(ps[j]);
      ValuesNeverDecide(ps[i], ps[j]);
    }
  }

  lemma DecodedPairsAreTrimmed(cs: seq<Component>, ps: seq<Component>)
    requires Accepted(cs) && Collections.Permutation(ps, TrimmedPairs(cs))
    ensures forall i :: 0 <= i < |ps| ==> ValidLabel(ps[i].0)
    ensures forall i, j :: 0 <= i < j < |ps| ==> ps[i].0 != ps[j].0
  {
    forall i | 0 <= i < |ps|
      ensures ValidLabel(ps[i].0)
    {
      assert ps[i] in multiset(TrimmedPairs(cs));
      var k := Collections.IndexOf(TrimmedPairs(cs), ps[i]);
      assert CleanPair(TrimmedPair(cs[k]));
    }
    Collections.MapPermutation(Label, TrimmedPairs(cs), ps);
    assert forall i :: 0 <= i < |cs| ==> Collections.Map(Label, TrimmedPairs(cs))[i] == cs[i].0;
    Collections.PermutationKeepsDistinct(Collections.Map(Label, TrimmedPairs(cs)), Collections.Map(Label, ps));
    assert forall i :: 0 <= i < |ps| ==> Collections.Map(Label, ps)[i] == ps[i].0;
  }

  /** Sorting on the label alone would be a different order. */
  lemma LabelAloneIsAnotherOrder()
    ensures ValidLabel("a") && ValidLabel("a!")
    ensures Sorting.Before("a", "a!") && Sorting.Before("a!" + "=", "a" + "=")
  {
    Utf8.AsciiEncodesAsItself("a");
    Utf8.AsciiEncodesAsItself("a!");
    Utf8.AsciiEncodesAsItself("a=");
    Utf8.AsciiEncodesAsItself("a!=");
    Lexicographic.PartingDecides(Utf8.Encode("a!="), Utf8.Encode("a="), 1);
    assert Utf8.Encode("a")[1..] == [] && Utf8.Encode("a!")[1..] != [];
  }
}
