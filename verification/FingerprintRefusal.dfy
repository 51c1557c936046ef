/** Which errors a refused collection can get, over all the orders of its components. */
module FingerprintRefusal {
  import opened Outcomes
  import opened Fingerprint
  import opened Collections

  /** What a component is refused for whatever stands before it. */
  function OwnFault(c: Component): Option<Error> {
    match ValidateLabel(c.0)
    case Some(e) => Some(e)
    case None => if HasControl(TrimmedValue(c.1)) then Some(ControlCharacterInValue(c.0)) else None
  }

  /** The fault `e` is some component's own. */
  predicate OwnFaultIn(cs: seq<Component>, e: Error) {
    exists i :: 0 <= i < |cs| && OwnFault(cs[i]) == Some(e)
  }

  /** Two components share a label, and the one at `i` could stand before the other unrefused. */
  predicate Clash(cs: seq<Component>, i: nat, j: nat, e: Error)
    requires i < |cs| && j < |cs|
  {
    i != j && cs[i].0 == cs[j].0 && OwnFault(cs[i]) == None && e == DuplicateLabel(cs[i].0)
  }

  predicate ClashIn(cs: seq<Component>, e: Error) {
    exists i, j :: 0 <= i < |cs| && 0 <= j < |cs| && Clash(cs, i, j, e)
  }

  /** `e` is a fault some order of the components brings to light. */
  predicate CanRefuseWith(cs: seq<Component>, e: Error) {
    OwnFaultIn(cs, e) || ClashIn(cs, e) || (cs == [] && e == NoComponents)
  }

  lemma FaultWithoutRivals(cs: seq<Component>, i: nat)
    requires i < |cs|
    ensures !LabelSeen(cs[..i], cs[i].0) ==> ComponentError(cs, i) == OwnFault(cs[i])
    ensures ComponentError(cs, i) == None ==> OwnFault(cs[i]) == None
    ensures ComponentError(cs, i).Some? ==>
              || ComponentError(cs, i) == OwnFault(cs[i])
              || (ComponentError(cs, i) == Some(DuplicateLabel(cs[i].0)) && LabelSeen(cs[..i], cs[i].0))
  {
  }

  /** The error a given order gets is among those. */
  lemma RefusalIsPossible(cs: seq<Component>, e: Error)
    requires CanonicalOf(cs) == Err(e)
    ensures CanRefuseWith(cs, e)
  {
    hide OwnFault, ComponentError;
    if FirstError(cs, |cs|).Some? {
      RefusalNamesFirstFault(cs, |cs|, e);
      var i :| 0 <= i < |cs| && ComponentError(cs, i) == Some(e) && forall j :: 0 <= j < i ==> ComponentError(cs, j) == None;
      FaultWithoutRivals(cs, i);
      if ComponentError(cs, i) != OwnFault(cs[i]) {
        var j :| 0 <= j < i && cs[..i][j].0 == cs[i].0;
        FaultWithoutRivals(cs, j);
        assert Clash(cs, j, i, e);
      }
    }
  }

  /** Permuting the components does not change what they can be refused for. */
  lemma PossibleRefusalsPermute(cs: seq<Component>, ds: seq<Component>, e: Error)
    requires Permutation(cs, ds) && CanRefuseWith(cs, e)
    ensures CanRefuseWith(ds, e)
  {
    hide OwnFault;
    assert |cs| == |multiset(cs)| == |multiset(ds)| == |ds|;
    if OwnFaultIn(cs, e) {
      var i :| 0 <= i < |cs| && OwnFault(cs[i]) == Some(e);
      assert cs[i] in multiset(ds);
      var k := IndexOf(ds, cs[i]);
    } else if ClashIn(cs, e) {
      var i, j :| 0 <= i < |cs| && 0 <= j < |cs| && Clash(cs, i, j, e);
      var k, l := IndicesOfTwo(cs, ds, i, j);
      assert Clash(ds, k, l, e);
    }
  }

  /** Elements at two positions of `a` stand at two positions of every permutation of it. */
  lemma IndicesOfTwo<A>(a: seq<A>, b: seq<A>, i: nat, j: nat) returns (k: nat, l: nat)
    requires Permutation(a, b) && i < |a| && j < |a| && i != j
    ensures k < |b| && l < |b| && k != l && b[k] == a[i] && b[l] == a[j]
  {
    assert a[i] in multiset(b);
    k := IndexOf(b, a[i]);
    RemoveAt(a, i);
    RemoveAt(b, k);
    var j' := if j < i then j else j - 1;
    assert Without(a, i)[j'] == a[j];
    assert a[j] in multiset(Without(b, k));
    var l' := IndexOf(Without(b, k), a[j]);
    l := if l' < k then l' else l' + 1;
  }

  function ToFront(cs: seq<Component>, i: nat): (ds: seq<Component>)
    requires i < |cs|
    ensures |ds| == |cs|
  {
    [cs[i]] + Without(cs, i)
  }

  lemma ToFrontPermutes(cs: seq<Component>, i: nat)
    requires i < |cs|
    ensures Permutation(cs, ToFront(cs, i))
  {
    RemoveAt(cs, i);
  }

  /** Moved to the front, a component's own fault is the error. */
  lemma OwnFaultShows(cs: seq<Component>, i: nat, e: Error)
    requires i < |cs| && OwnFault(cs[i]) == Some(e)
    ensures CanonicalOf(ToFront(cs, i)) == Err(e)
  {
    hide OwnFault, ComponentError;
    var ds := ToFront(cs, i);
    FaultWithoutRivals(ds, 0);
    RefusalNamesFirstFault(ds, |ds|, e);
  }

  /** Moved to the front one behind the other, two components that clash make the error. */
  lemma ClashShows(cs: seq<Component>, i: nat, j: nat, e: Error) returns (ds: seq<Component>)
    requires i < |cs| && j < |cs| && Clash(cs, i, j, e)
    ensures Permutation(cs, ds) && CanonicalOf(ds) == Err(e)
  {
    var bs := ToFront(cs, j);
    var k := if i < j then i + 1 else i;
    assert bs[k] == cs[i];
    ds := ToFront(bs, k);
    ToFrontPermutes(cs, j);
    ToFrontPermutes(bs, k);
    assert ds[0] == cs[i] && ds[1] == cs[j];
    FaultWithoutRivals(ds, 0);
    assert ds[..1][0].0 == ds[1].0;
    assert ComponentError(ds, 1) == Some(e);
    hide ComponentError;
    RefusalNamesFirstFault(ds, |ds|, e);
  }

  /**
   * Exactly when some order of the components is refused with `e`: the fault is one component's own, or two
   * share a label and one of them is faultless but for that.
   */
  lemma RefusedInSomeOrderExactly(cs: seq<Component>, e: Error)
    ensures (exists ds :: Permutation(cs, ds) && CanonicalOf(ds) == Err(e)) <==> CanRefuseWith(cs, e)
  {
    hide OwnFault, CanonicalOf, Clash;
    if ds :| Permutation(cs, ds) && CanonicalOf(ds) == Err(e) {
      RefusalIsPossible(ds, e);
      PossibleRefusalsPermute(ds, cs, e);
    }
    if CanRefuseWith(cs, e) {
      if OwnFaultIn(cs, e) {
        var i :| 0 <= i < |cs| && OwnFault(cs[i]) == Some(e);
        OwnFaultShows(cs, i, e);
        ToFrontPermutes(cs, i);
      } else if ClashIn(cs, e) {
        var i, j :| 0 <= i < |cs| && 0 <= j < |cs| && Clash(cs, i, j, e);
        var ds := ClashShows(cs, i, j, e);
      } else {
        NothingIsRefused();
        assert Permutation(cs, cs);
      }
    }
  }

  lemma NothingIsRefused()
    ensures CanonicalOf([]) == Err(NoComponents)
  {
  }

  /** Order shows nowhere in the outcome, error included, iff the components can be refused for one thing at most. */
  lemma OrderInvisibleExactly(cs: seq<Component>)
    ensures (forall ds :: Permutation(cs, ds) ==> CanonicalOf(ds) == CanonicalOf(cs))
            <==> forall e, e' :: CanRefuseWith(cs, e) && CanRefuseWith(cs, e') ==> e == e'
  {
    hide CanonicalOf, CanRefuseWith;
    if forall ds :: Permutation(cs, ds) ==> CanonicalOf(ds) == CanonicalOf(cs) {
      forall e, e' | CanRefuseWith(cs, e) && CanRefuseWith(cs, e')
        ensures e == e'
      {
        RefusedInSomeOrderExactly(cs, e);
        RefusedInSomeOrderExactly(cs, e');
      }
    }
    if forall e, e' :: CanRefuseWith(cs, e) && CanRefuseWith(cs, e') ==> e == e' {
      forall ds | Permutation(cs, ds)
        ensures CanonicalOf(ds) == CanonicalOf(cs)
      {
        OrderInvisible(cs, ds);
        if CanonicalOf(cs).Err? {
          assert Permutation(cs, cs);
          RefusedInSomeOrderExactly(cs, CanonicalOf(cs).error);
          RefusedInSomeOrderExactly(cs, CanonicalOf(ds).error);
        }
      }
    }
  }
}
