/** Sorting strings in place, in the order Rust gives `String`: bytewise over the UTF-8 encoding. */
module Sorting {
  import Lexicographic
  import Utf8

  predicate Before(a: string, b: string) {
    Lexicographic.Less(Utf8.Encode(a), Utf8.Encode(b))
  }

  predicate AtMost(a: string, b: string) {
    a == b || Before(a, b)
  }

  ghost predicate IsSorted(s: seq<string>) {
    forall i, j :: 0 <= i < j < |s| ==> AtMost(s[i], s[j])
  }

  lemma BeforeOrAfter(a: string, b: string)
    ensures Before(a, b) || a == b || Before(b, a)
  {
    Lexicographic.Total(Utf8.Encode(a), Utf8.Encode(b));
    if Utf8.Encode(a) == Utf8.Encode(b) {
      Utf8.EncodeInjective(a, b);
    }
  }

  lemma AtMostTransitive(a: string, b: string, c: string)
    requires AtMost(a, b) && AtMost(b, c)
    ensures AtMost(a, c)
  {
    if a != b && b != c {
      Lexicographic.Transitive(Utf8.Encode(a), Utf8.Encode(b), Utf8.Encode(c));
    }
  }

  lemma AtMostAntisymmetric(a: string, b: string)
    requires AtMost(a, b) && AtMost(b, a)
    ensures a == b
  {
    if a != b {
      Lexicographic.Asymmetric(Utf8.Encode(a), Utf8.Encode(b));
    }
  }

  /** Where `x` goes in `s`: behind the last element not above it. */
  function Slot(s: seq<string>, x: string): (k: nat)
    ensures k <= |s|
  {
    if s == [] then 0
    else if Before(x, s[|s| - 1]) then Slot(s[..|s| - 1], x)
    else |s|
  }

  lemma {:induction false} SlotAt(s: seq<string>, x: string, k: nat)
    requires k <= |s|
    requires forall i :: k <= i < |s| ==> Before(x, s[i])
    requires k > 0 ==> !Before(x, s[k - 1])
    ensures Slot(s, x) == k
  {
    if k < |s| {
      SlotAt(s[..|s| - 1], x, k);
    }
  }

  function Insert(s: seq<string>, x: string): (t: seq<string>) {
    s[..Slot(s, x)] + [x] + s[Slot(s, x)..]
  }

  /** The sorted form of `s`. */
  function Sorted(s: seq<string>): (t: seq<string>)
    ensures |t| == |s|
  {
    if s == [] then [] else Insert(Sorted(s[..|s| - 1]), s[|s| - 1])
  }

  lemma {:induction false} SlotSeparates(s: seq<string>, x: string)
    requires IsSorted(s)
    ensures forall i :: 0 <= i < Slot(s, x) ==> AtMost(s[i], x)
    ensures forall i :: Slot(s, x) <= i < |s| ==> AtMost(x, s[i])
  {
    hide Before;
    if s != [] {
      var last := |s| - 1;
      if Before(x, s[last]) {
        SlotSeparates(s[..last], x);
      } else {
        BeforeOrAfter(x, s[last]);
        forall i | 0 <= i < |s|
          ensures AtMost(s[i], x)
        {
          if i < last {
            AtMostTransitive(s[i], s[last], x);
          }
        }
      }
    }
  }

  lemma InsertSorts(s: seq<string>, x: string)
    requires IsSorted(s)
    ensures IsSorted(Insert(s, x))
    ensures multiset(Insert(s, x)) == multiset(s) + multiset{x}
  {
    hide Before, Slot;
    SlotSeparates(s, x);
    var k := Slot(s, x);
    assert s == s[..k] + s[k..];
  }

  lemma {:induction false} SortedIsSortedPermutation(s: seq<string>)
    ensures IsSorted(Sorted(s)) && multiset(Sorted(s)) == multiset(s)
  {
    hide Before, Slot, Insert;
    if s != [] {
      SortedIsSortedPermutation(s[..|s| - 1]);
      InsertSorts(Sorted(s[..|s| - 1]), s[|s| - 1]);
      assert s == s[..|s| - 1] + [s[|s| - 1]];
    }
  }

  /** A collection has one sorted order, so any correct sort gives it. */
  lemma {:induction false} SortedOrderUnique(a: seq<string>, b: seq<string>)
    requires IsSorted(a) && IsSorted(b) && multiset(a) == multiset(b)
    ensures a == b
  {
    hide Before, AtMost;
    assert |a| == |multiset(a)| == |multiset(b)| == |b|;
    if a != [] {
      assert a[0] in multiset(b) && b[0] in multiset(a);
      HeadIsLeast(a, b[0]);
      HeadIsLeast(b, a[0]);
      AtMostAntisymmetric(a[0], b[0]);
      assert a == [a[0]] + a[1..] && b == [b[0]] + b[1..];
      assert multiset(a[1..]) == multiset(a) - multiset{a[0]};
      assert multiset(b[1..]) == multiset(b) - multiset{b[0]};
      SortedOrderUnique(a[1..], b[1..]);
    }
  }

  lemma HeadIsLeast(s: seq<string>, x: string)
    requires IsSorted(s) && s != [] && x in multiset(s)
    ensures AtMost(s[0], x)
  {
    var i :| 0 <= i < |s| && s[i] == x;
  }

  lemma SortedOfPermutation(a: seq<string>, b: seq<string>)
    requires multiset(a) == multiset(b)
    ensures Sorted(a) == Sorted(b)
  {
    SortedIsSortedPermutation(a);
    SortedIsSortedPermutation(b);
    SortedOrderUnique(Sorted(a), Sorted(b));
  }

  lemma Shifted(s: seq<string>, x: string, k: nat, t: seq<string>)
    requires k <= |s| && |t| == |s| + 1 && t[k] == x
    requires forall i :: 0 <= i < k ==> t[i] == s[i]
    requires forall i :: k < i <= |s| ==> t[i] == s[i - 1]
    ensures t == s[..k] + [x] + s[k..]
  {
  }

  /** Moves element `i` down to its slot among the elements before it, shifting those above it. */
  method SinkIntoPlace(a: array<string>, i: nat)
    requires i < a.Length
    modifies a
    ensures a[..i + 1] == Insert(old(a[..i]), old(a[i]))
    ensures a[i + 1..] == old(a[i + 1..])
  {
    hide Before, Slot;
    ghost var sorted := a[..i];
    var x := a[i];
    var j := i;
    while 0 < j && Before(x, a[j - 1])
      invariant j <= i
      invariant forall k :: 0 <= k < j ==> a[k] == sorted[k]
      invariant forall k :: j < k <= i ==> a[k] == sorted[k - 1]
      invariant forall k :: i < k < a.Length ==> a[k] == old(a[k])
      invariant forall k :: j <= k < i ==> Before(x, sorted[k])
    {
      a[j] := a[j - 1];
      j := j - 1;
    }
    a[j] := x;
    SlotAt(sorted, x, j);
    Shifted(sorted, x, j, a[..i + 1]);
  }

  /** Sorts in place. Nothing is lost, added or merged. */
  method SortUnstable(a: array<string>)
    modifies a
    ensures a[..] == Sorted(old(a[..]))
    ensures IsSorted(a[..]) && multiset(a[..]) == multiset(old(a[..]))
  {
    hide Before, Insert;
    ghost var was := a[..];
    var i := 0;
    while i < a.Length
      invariant i <= a.Length
      invariant a[..i] == Sorted(was[..i])
      invariant a[i..] == was[i..]
    {
      assert a[i] == a[i..][0] == was[i..][0];
      assert a[i + 1..] == a[i..][1..] == was[i..][1..];
      SinkIntoPlace(a, i);
      assert was[..i + 1][..i] == was[..i];
      i := i + 1;
    }
    assert a[..i] == a[..] && was[..i] == was;
    SortedIsSortedPermutation(was);
  }
}
