/**
 * How an object is built: key by key into a map sorted by key, the last value of a key winning. What
 * was built first leaves no trace in the text.
 */
module JsonDocument {
  import opened Outcomes
  import opened Json
  import Collections
  import JsonReader
  import Lexicographic
  import Sorting
  import Utf8

  /** `BTreeMap::insert`, keys in Rust's string order. */
  function Insert(sorted: seq<Field>, key: string, value: Value): (r: seq<Field>)
    ensures r != [] && (r[0].key == key || (sorted != [] && r[0].key == sorted[0].key))
  {
    if sorted == [] || Sorting.Before(key, sorted[0].key) then [Field(key, value)] + sorted
    else if sorted[0].key == key then [Field(key, value)] + sorted[1..]
    else [sorted[0]] + Insert(sorted[1..], key, value)
  }

  /** Inserts the fields in the order given. */
  function Build(fields: seq<Field>): seq<Field>
    decreases fields, 0
  {
    if fields == [] then []
    else
      var last := fields[|fields| - 1];
      Insert(Build(fields[..|fields| - 1]), last.key, Normal(last.value))
  }

  /** The value as the SDK holds it: every object sorted by key, at every depth. */
  function Normal(v: Value): Value
    decreases v, 1
  {
    match v
    case Array(items) => Array(NormalItems(items))
    case Object(fields) => Object(Build(fields))
    case _ => v
  }

  function NormalItems(items: seq<Value>): (r: seq<Value>)
    ensures |r| == |items|
    decreases items, 0
  {
    if items == [] then [] else [Normal(items[0])] + NormalItems(items[1..])
  }

  /** What was last given for `key`. */
  function LastGiven(fields: seq<Field>, key: string): (r: Option<Value>)
    ensures r.Some? ==> exists i :: 0 <= i < |fields| && fields[i].value == r.value
  {
    if fields == [] then None
    else if fields[|fields| - 1].key == key then Some(fields[|fields| - 1].value)
    else LastGiven(fields[..|fields| - 1], key)
  }

  /** Two ways of writing down one document: key order and overwritten values aside, the same. */
  ghost predicate SameDocument(v: Value, w: Value)
    decreases v
  {
    match (v, w)
    case (Array(xs), Array(ys)) =>
      |xs| == |ys| && forall i :: 0 <= i < |xs| ==> SameDocument(xs[i], ys[i])
    case (Object(fs), Object(gs)) =>
      forall key ::
        && (LastGiven(fs, key).Some? <==> LastGiven(gs, key).Some?)
        && (LastGiven(fs, key).Some? ==> SameDocument(LastGiven(fs, key).value, LastGiven(gs, key).value))
    case _ => v == w
  }

  // --- Sorted maps ----------------------------------------------------------------

  ghost predicate Ascending(fields: seq<Field>) {
    forall i, j :: 0 <= i < j < |fields| ==> Sorting.Before(fields[i].key, fields[j].key)
  }

  function Get(fields: seq<Field>, key: string): Option<Value> {
    if fields == [] then None
    else if fields[0].key == key then Some(fields[0].value)
    else Get(fields[1..], key)
  }

  lemma BeforeIsStrict(a: string, b: string, c: string)
    ensures !Sorting.Before(a, a)
    ensures Sorting.Before(a, b) && Sorting.Before(b, c) ==> Sorting.Before(a, c)
  {
    Lexicographic.Irreflexive(Utf8.Encode(a));
    if Sorting.Before(a, b) && Sorting.Before(b, c) {
      Lexicographic.Transitive(Utf8.Encode(a), Utf8.Encode(b), Utf8.Encode(c));
    }
  }

  lemma GetAbsent(fields: seq<Field>, key: string)
    requires forall i :: 0 <= i < |fields| ==> fields[i].key != key
    ensures Get(fields, key) == None
  {
  }

  /** Inserting keeps the keys ascending and adds only the key given. */
  lemma {:induction false} InsertAscends(fields: seq<Field>, key: string, value: Value)
    requires Ascending(fields)
    ensures Ascending(Insert(fields, key, value))
    ensures forall f :: f in Insert(fields, key, value) ==> f.key == key || f in fields
  {
    hide Sorting.Before;
    if fields == [] {
    } else if Sorting.Before(key, fields[0].key) {
      forall j | 0 <= j < |fields|
        ensures Sorting.Before(key, fields[j].key)
      {
        BeforeIsStrict(key, fields[0].key, fields[j].key);
      }
    } else if fields[0].key == key {
      assert fields == [fields[0]] + fields[1..];
    } else {
      InsertAscends(fields[1..], key, value);
      Sorting.BeforeOrAfter(key, fields[0].key);
      var rest := Insert(fields[1..], key, value);
      forall j | 0 <= j < |rest|
        ensures Sorting.Before(fields[0].key, rest[j].key)
      {
        assert rest[j] in rest;
      }
    }
  }

  /** After an insertion the new key holds the new value and every other key what it held. */
  lemma {:induction false} GetAfterInsert(fields: seq<Field>, key: string, value: Value, x: string)
    requires Ascending(fields)
    ensures Get(Insert(fields, key, value), x) == if x == key then Some(value) else Get(fields, x)
  {
    hide Sorting.Before;
    if fields == [] {
    } else if Sorting.Before(key, fields[0].key) {
      assert ([Field(key, value)] + fields)[1..] == fields;
    } else if fields[0].key == key {
      assert ([Field(key, value)] + fields[1..])[1..] == fields[1..];
    } else {
      GetAfterInsert(fields[1..], key, value, x);
      assert ([fields[0]] + Insert(fields[1..], key, value))[1..] == Insert(fields[1..], key, value);
    }
  }

  lemma HeadIsLeast(fields: seq<Field>, key: string)
    requires Ascending(fields) && fields != [] && Get(fields, key).Some?
    ensures key == fields[0].key || Sorting.Before(fields[0].key, key)
  {
    hide Sorting.Before;
    var i := GetFinds(fields, key);
  }

  lemma {:induction false} GetFinds(fields: seq<Field>, key: string) returns (i: nat)
    requires Get(fields, key).Some?
    ensures i < |fields| && fields[i].key == key
  {
    if fields[0].key == key {
      i := 0;
    } else {
      i := GetFinds(fields[1..], key);
      i := i + 1;
    }
  }

  /** A sorted map is determined by its lookups. */
  lemma {:induction false} LookupsDetermine(a: seq<Field>, b: seq<Field>)
    requires Ascending(a) && Ascending(b)
    requires forall key :: Get(a, key) == Get(b, key)
    ensures a == b
  {
    hide Sorting.Before;
    if a == [] || b == [] {
      assert a != [] ==> Get(a, a[0].key).Some?;
      assert b != [] ==> Get(b, b[0].key).Some?;
    } else {
      assert Get(a, a[0].key).Some? && Get(b, b[0].key).Some?;
      HeadIsLeast(a, b[0].key);
      HeadIsLeast(b, a[0].key);
      BeforeIsStrict(a[0].key, b[0].key, a[0].key);
      assert a[0].key == b[0].key;
      forall key
        ensures Get(a[1..], key) == Get(b[1..], key)
      {
        if key == a[0].key {
          HeadIsNotBehind(a);
          HeadIsNotBehind(b);
        } else {
          assert Get(a, key) == Get(b, key);
        }
      }
      LookupsDetermine(a[1..], b[1..]);
      assert Get(a, a[0].key) == Get(b, a[0].key);
      assert a == [a[0]] + a[1..] && b == [b[0]] + b[1..];
    }
  }

  lemma HeadIsNotBehind(fields: seq<Field>)
    requires Ascending(fields) && fields != []
    ensures Get(fields[1..], fields[0].key) == None
  {
    hide Sorting.Before;
    BeforeIsStrict(fields[0].key, fields[0].key, fields[0].key);
    GetAbsent(fields[1..], fields[0].key);
  }

  // --- Building -------------------------------------------------------------------

  /** A built object is sorted, and holds for each key the value last given. */
  lemma {:induction false} BuildHoldsLastGiven(fields: seq<Field>, key: string)
    ensures Ascending(Build(fields))
    ensures Get(Build(fields), key).Some? <==> LastGiven(fields, key).Some?
    ensures LastGiven(fields, key).Some? ==> Get(Build(fields), key) == Some(Normal(LastGiven(fields, key).value))
  {
    if fields != [] {
      var before, last := fields[..|fields| - 1], fields[|fields| - 1];
      BuildHoldsLastGiven(before, key);
      InsertAscends(Build(before), last.key, Normal(last.value));
      GetAfterInsert(Build(before), last.key, Normal(last.value), key);
    }
  }

  lemma {:induction false} NormalItemsAt(items: seq<Value>, i: nat)
    requires i < |items|
    ensures NormalItems(items)[i] == Normal(items[i])
  {
    if i > 0 {
      NormalItemsAt(items[1..], i - 1);
    }
  }

  /** Two values are held alike iff they write down one document. */
  lemma {:induction false} NormalDecidesDocument(v: Value, w: Value)
    ensures Normal(v) == Normal(w) <==> SameDocument(v, w)
    decreases v
  {
    match (v, w)
    case (Array(xs), Array(ys)) =>
      ArraysDecided(xs, ys, v, w);
    case (Object(fs), Object(gs)) =>
      ObjectsDecided(fs, gs, v, w);
    case _ =>
  }

  lemma {:induction false} ArraysDecided(xs: seq<Value>, ys: seq<Value>, v: Value, w: Value)
    requires v == Array(xs) && w == Array(ys)
    ensures Normal(v) == Normal(w) <==> SameDocument(v, w)
    decreases v, 0
  {
    if |xs| == |ys| {
      forall i | 0 <= i < |xs|
        ensures NormalItems(xs)[i] == NormalItems(ys)[i] <==> SameDocument(xs[i], ys[i])
      {
        NormalItemsAt(xs, i);
        NormalItemsAt(ys, i);
        NormalDecidesDocument(xs[i], ys[i]);
      }
    }
  }

  lemma {:induction false} ObjectsDecided(fs: seq<Field>, gs: seq<Field>, v: Value, w: Value)
    requires v == Object(fs) && w == Object(gs)
    ensures Normal(v) == Normal(w) <==> SameDocument(v, w)
    decreases v, 0
  {
    hide Build;
    BuildHoldsLastGiven(fs, "");
    BuildHoldsLastGiven(gs, "");
    forall key
      ensures Get(Build(fs), key) == Get(Build(gs), key)
              <==> && (LastGiven(fs, key).Some? <==> LastGiven(gs, key).Some?)
                   && (LastGiven(fs, key).Some? ==> SameDocument(LastGiven(fs, key).value, LastGiven(gs, key).value))
    {
      BuildHoldsLastGiven(fs, key);
      BuildHoldsLastGiven(gs, key);
      if LastGiven(fs, key).Some? && LastGiven(gs, key).Some? {
        NormalDecidesDocument(LastGiven(fs, key).value, LastGiven(gs, key).value);
      }
    }
    if SameDocument(v, w) {
      LookupsDetermine(Build(fs), Build(gs));
    }
  }

  lemma {:induction false} GetIsLastGiven(fields: seq<Field>, key: string)
    requires Ascending(fields)
    ensures Get(fields, key) == LastGiven(fields, key)
    ensures forall f :: f in fields && f.key == key ==> Get(fields, key) == Some(f.value)
  {
    hide Sorting.Before;
    if fields != [] {
      var front, last := fields[..|fields| - 1], fields[|fields| - 1];
      GetIsLastGiven(front, key);
      GetOfAppended(front, last, key);
      assert fields == front + [last];
      BeforeIsStrict(key, key, key);
      if last.key == key {
        assert forall i :: 0 <= i < |front| ==> front[i] == fields[i] && Sorting.Before(fields[i].key, key);
        GetAbsent(front, key);
      }
    }
  }

  lemma {:induction false} GetOfAppended(front: seq<Field>, last: Field, key: string)
    ensures Get(front + [last], key)
            == if Get(front, key).Some? then Get(front, key) else if last.key == key then Some(last.value) else None
  {
    if front == [] {
      assert front + [last] == [last] && [last][1..] == [];
    } else {
      assert (front + [last])[1..] == front[1..] + [last];
      GetOfAppended(front[1..], last, key);
    }
  }

  /** What is held is the document that was given: scalars as they are, each key at the value last given for it. */
  lemma {:induction false} NormalIsSameDocument(v: Value)
    ensures SameDocument(Normal(v), v)
    decreases v
  {
    match v
    case Array(items) =>
      forall i | 0 <= i < |items|
        ensures SameDocument(NormalItems(items)[i], items[i])
      {
        NormalItemsAt(items, i);
        NormalIsSameDocument(items[i]);
      }
    case Object(fields) => BuildIsSameDocument(fields, v);
    case _ =>
  }

  lemma {:induction false} BuildIsSameDocument(fields: seq<Field>, v: Value)
    requires v == Object(fields)
    ensures SameDocument(Object(Build(fields)), v)
    decreases v, 0
  {
    hide Build;
    forall key
      ensures LastGiven(Build(fields), key).Some? <==> LastGiven(fields, key).Some?
      ensures LastGiven(fields, key).Some? ==> SameDocument(LastGiven(Build(fields), key).value, LastGiven(fields, key).value)
    {
      BuildHoldsLastGiven(fields, key);
      GetIsLastGiven(Build(fields), key);
      if LastGiven(fields, key).Some? {
        NormalIsSameDocument(LastGiven(fields, key).value);
      }
    }
  }

  /** Every object stands in ascending key order, at every depth. */
  ghost predicate SortedThroughout(v: Value)
    decreases v
  {
    match v
    case Array(items) => forall i :: 0 <= i < |items| ==> SortedThroughout(items[i])
    case Object(fields) => Ascending(fields) && forall i :: 0 <= i < |fields| ==> SortedThroughout(fields[i].value)
    case _ => true
  }

  lemma {:induction false} NormalIsSorted(v: Value)
    ensures SortedThroughout(Normal(v))
    decreases v
  {
    match v
    case Array(items) =>
      forall i | 0 <= i < |items|
        ensures SortedThroughout(NormalItems(items)[i])
      {
        NormalItemsAt(items, i);
        NormalIsSorted(items[i]);
      }
    case Object(fields) => BuildIsSorted(fields, v);
    case _ =>
  }

  lemma {:induction false} BuildIsSorted(fields: seq<Field>, v: Value)
    requires v == Object(fields)
    ensures SortedThroughout(Object(Build(fields)))
    decreases v, 0
  {
    hide Build;
    BuildHoldsLastGiven(fields, "");
    var built := Build(fields);
    forall i | 0 <= i < |built|
      ensures SortedThroughout(built[i].value)
    {
      BuildHoldsLastGiven(fields, built[i].key);
      GetIsLastGiven(built, built[i].key);
      NormalIsSorted(LastGiven(fields, built[i].key).value);
    }
  }

  /** One document, one text: neither the order of insertion nor the depth matters, and nothing else is lost. */
  lemma TextDecidesDocument(v: Value, w: Value)
    ensures Print(Normal(v)) == Print(Normal(w)) <==> SameDocument(v, w)
  {
    NormalDecidesDocument(v, w);
    if Print(Normal(v)) == Print(Normal(w)) {
      JsonReader.PrintInjective(Normal(v), Normal(w));
    }
  }

  lemma {:induction false} LastGivenIsMember(fields: seq<Field>, key: string, value: Value)
    requires forall i, j :: 0 <= i < j < |fields| ==> fields[i].key != fields[j].key
    ensures LastGiven(fields, key) == Some(value) <==> Field(key, value) in fields
  {
    if fields != [] {
      var front, last := fields[..|fields| - 1], fields[|fields| - 1];
      assert forall i :: 0 <= i < |front| ==> front[i] == fields[i] && front[i].key != last.key;
      LastGivenIsMember(front, key, value);
      assert fields == front + [last];
    }
  }

  /** Shuffling an object's distinct keys, with whatever nests below them, leaves the text alone. */
  lemma InsertionOrderInvisible(fs: seq<Field>, gs: seq<Field>)
    requires Collections.Permutation(fs, gs)
    requires forall i, j :: 0 <= i < j < |fs| ==> fs[i].key != fs[j].key
    requires forall i, j :: 0 <= i < j < |gs| ==> gs[i].key != gs[j].key
    ensures Print(Normal(Object(fs))) == Print(Normal(Object(gs)))
  {
    forall key
      ensures LastGiven(fs, key) == LastGiven(gs, key)
      ensures LastGiven(fs, key).Some? ==> SameDocument(LastGiven(fs, key).value, LastGiven(fs, key).value)
    {
      if LastGiven(fs, key).Some? {
        var value := LastGiven(fs, key).value;
        LastGivenIsMember(fs, key, value);
        LastGivenIsMember(gs, key, value);
        assert Field(key, value) in multiset(gs);
        NormalDecidesDocument(value, value);
      }
      if LastGiven(gs, key).Some? {
        var value := LastGiven(gs, key).value;
        LastGivenIsMember(fs, key, value);
        LastGivenIsMember(gs, key, value);
        assert Field(key, value) in multiset(fs);
      }
    }
    TextDecidesDocument(Object(fs), Object(gs));
  }
}
