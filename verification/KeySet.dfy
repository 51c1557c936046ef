/** The trusted keys an offline file may have been signed by (`src/checkout/key_set.rs`). */
module KeySet {
  import opened Outcomes
  import opened Words
  import opened Foreign
  import opened Checkout
  import Base64
  import Crypto
  import Hex
  import Utf8

  type Entry = (string, Key32)

  datatype SigningKeySet = SigningKeySet(entries: seq<Entry>) {
    /** The key held under `kid`: the first entry that names it. */
    function Find(kid: string): Option<Key32> {
      FindIn(entries, kid)
    }

    function Keys(): (keys: seq<Key32>)
      ensures |keys| == |entries|
      ensures forall i :: 0 <= i < |entries| ==> keys[i] == entries[i].1
    {
      seq(|entries|, i requires 0 <= i < |entries| => entries[i].1)
    }

    /** The entries as a set: what order and repetition cannot change. */
    ghost function Held(): set<Entry> {
      set e | e in entries
    }
  }

  function FindIn(entries: seq<Entry>, kid: string): (r: Option<Key32>)
    ensures r.Some? <==> exists i :: 0 <= i < |entries| && entries[i].0 == kid
    ensures r.Some? ==> exists i :: 0 <= i < |entries| && entries[i] == (kid, r.value) && forall j :: 0 <= j < i ==> entries[j].0 != kid
  {
    if entries == [] then None
    else if entries[0].0 == kid then Some(entries[0].1)
    else
      var r := FindIn(entries[1..], kid);
      assert forall i :: 1 <= i < |entries| ==> entries[i] == entries[1..][i - 1];
      assert r.Some? ==> exists i :: 0 <= i < |entries| && entries[i] == (kid, r.value) && forall j :: 0 <= j < i ==> entries[j].0 != kid by {
        if r.Some? {
          var i :| 0 <= i < |entries| - 1 && entries[1..][i] == (kid, r.value) && forall j :: 0 <= j < i ==> entries[1..][j].0 != kid;
          assert entries[i + 1] == (kid, r.value) && forall j :: 0 <= j < i + 1 ==> entries[j].0 != kid;
        }
      }
      r
  }

  // --- Building a set ---------------------------------------------------------

  /** What a strict build of the first `n` keys yields. */
  function StrictEntries(lib: Library, publicKeys: seq<string>, n: nat): Result<seq<Entry>, Crypto.Error>
    requires n <= |publicKeys|
  {
    if n == 0 then Ok([])
    else
      var before :- StrictEntries(lib, publicKeys, n - 1);
      var key :- Crypto.PublicKeyFromBase64(publicKeys[n - 1]);
      Ok(before + [(Crypto.KeyId(lib, publicKeys[n - 1]), key)])
  }

  function StrictSet(lib: Library, publicKeys: seq<string>): Result<SigningKeySet, Crypto.Error> {
    var entries :- StrictEntries(lib, publicKeys, |publicKeys|);
    Ok(SigningKeySet(entries))
  }

  lemma {:induction false} StrictFailureSticks(lib: Library, publicKeys: seq<string>, m: nat, n: nat)
    requires m <= n <= |publicKeys| && StrictEntries(lib, publicKeys, m).Err?
    ensures StrictEntries(lib, publicKeys, n) == StrictEntries(lib, publicKeys, m)
    decreases n
  {
    hide Crypto.PublicKeyFromBase64, Crypto.KeyId, Base64.Encode;
    if m < n {
      StrictFailureSticks(lib, publicKeys, m, n - 1);
    }
  }

  /** `from_public_keys`: any key that is not base64 of 32 bytes fails the whole build. */
  method FromPublicKeys(lib: Library, publicKeys: seq<string>) returns (r: Result<SigningKeySet, Crypto.Error>)
    ensures r == StrictSet(lib, publicKeys)
  {
    hide Crypto.PublicKeyFromBase64, Crypto.KeyId, Base64.Encode;
    var entries: seq<Entry> := [];
    var i := 0;
    while i < |publicKeys|
      invariant i <= |publicKeys|
      invariant StrictEntries(lib, publicKeys, i) == Ok(entries)
    {
      var key := Crypto.PublicKeyFromBase64(publicKeys[i]);
      if key.Err? {
        StrictFailureSticks(lib, publicKeys, i + 1, |publicKeys|);
        return Err(key.error);
      }
      entries := entries + [(Crypto.KeyId(lib, publicKeys[i]), key.value)];
      i := i + 1;
    }
    return Ok(SigningKeySet(entries));
  }

  /** A row of the published key history; its id is the `kid`. */
  datatype KeyResource = KeyResource(id: string, algorithm: string, publicKey: string)

  function AsciiLower(c: char): char {
    if 'A' <= c <= 'Z' then (c as int + 32) as char else c
  }

  predicate EqIgnoreAsciiCase(s: string, t: string) {
    |s| == |t| && forall i :: 0 <= i < |s| ==> AsciiLower(s[i]) == AsciiLower(t[i])
  }

  /** A row the lenient build keeps. */
  predicate Usable(r: KeyResource) {
    EqIgnoreAsciiCase(r.algorithm, "ed25519") && Crypto.PublicKeyFromBase64(r.publicKey).Ok?
  }

  /** `from_resources`: unusable rows are skipped. */
  function FromResources(resources: seq<KeyResource>): SigningKeySet {
    SigningKeySet(LenientEntries(resources))
  }

  function LenientEntries(resources: seq<KeyResource>): seq<Entry> {
    if resources == [] then []
    else
      var r := resources[0];
      (if Usable(r) then [(r.id, Crypto.PublicKeyFromBase64(r.publicKey).value)] else []) + LenientEntries(resources[1..])
  }

  /** The algorithm is told in any case of its two letters. */
  lemma AlgorithmMatches(s: string)
    ensures EqIgnoreAsciiCase(s, "ed25519") <==>
            |s| == 7 && (s[0] == 'e' || s[0] == 'E') && (s[1] == 'd' || s[1] == 'D') && s[2..] == "25519"
  {
    if |s| == 7 {
      assert s[2..][0] == s[2] && s[2..][1] == s[3] && s[2..][2] == s[4] && s[2..][3] == s[5] && s[2..][4] == s[6];
    }
  }

  /** Row `r` contributes the entry `e`: its id, and the key its text is the base64 of. */
  predicate Contributes(r: KeyResource, e: Entry) {
    EqIgnoreAsciiCase(r.algorithm, "ed25519") && r.id == e.0 && r.publicKey == Base64.Encode(e.1)
  }

  lemma UsableRowsContribute(r: KeyResource, e: Entry)
    ensures Contributes(r, e) <==> Usable(r) && e == (r.id, Crypto.PublicKeyFromBase64(r.publicKey).value)
  {
    hide EqIgnoreAsciiCase, Crypto.PublicKeyFromBase64, Base64.Encode;
    Crypto.PublicKeyRoundTrip(e.1);
  }

  /** An entry is held iff some row of the history contributes it. */
  lemma {:induction false} LenientHoldsExactlyUsableRows(resources: seq<KeyResource>, e: Entry)
    ensures e in LenientEntries(resources) <==> exists r :: r in resources && Contributes(r, e)
  {
    hide Usable, Contributes;
    if resources != [] {
      UsableRowsContribute(resources[0], e);
      LenientHoldsExactlyUsableRows(resources[1..], e);
      assert resources == [resources[0]] + resources[1..];
    }
  }

  /** A strict build succeeds iff every key is well formed, and each key is then held under its own id. */
  lemma {:induction false} StrictBuildExactly(lib: Library, publicKeys: seq<string>, n: nat)
    requires n <= |publicKeys|
    ensures StrictEntries(lib, publicKeys, n).Ok?
            <==> forall i :: 0 <= i < n ==> Crypto.PublicKeyFromBase64(publicKeys[i]).Ok?
    ensures StrictEntries(lib, publicKeys, n).Err? ==> StrictEntries(lib, publicKeys, n).error == Crypto.InvalidKey
    ensures StrictEntries(lib, publicKeys, n).Ok? ==>
              var entries := StrictEntries(lib, publicKeys, n).value;
              && |entries| == n
              && forall i :: 0 <= i < n ==> publicKeys[i] == Base64.Encode(entries[i].1) && entries[i].0 == Crypto.KeyId(lib, publicKeys[i])
  {
    hide Crypto.PublicKeyFromBase64, Crypto.KeyId, Base64.Encode;
    if n > 0 {
      StrictBuildExactly(lib, publicKeys, n - 1);
    }
  }

  /** Publishing the embedded keys under their own ids and fetching them back builds the same set. */
  lemma {:induction false} StrictAndLenientAgree(lib: Library, publicKeys: seq<string>, resources: seq<KeyResource>)
    requires |resources| == |publicKeys|
    requires forall i :: 0 <= i < |publicKeys| ==>
                           resources[i] == KeyResource(Crypto.KeyId(lib, publicKeys[i]), "ed25519", publicKeys[i])
    requires StrictSet(lib, publicKeys).Ok?
    ensures FromResources(resources) == StrictSet(lib, publicKeys).value
  {
    StrictBuildExactly(lib, publicKeys, |publicKeys|);
    LenientOfWellFormed(resources, StrictSet(lib, publicKeys).value.entries);
  }

  lemma {:induction false} LenientOfWellFormed(resources: seq<KeyResource>, entries: seq<Entry>)
    requires |resources| == |entries|
    requires forall i :: 0 <= i < |entries| ==>
                           resources[i] == KeyResource(entries[i].0, "ed25519", Base64.Encode(entries[i].1))
    ensures LenientEntries(resources) == entries
  {
    if entries != [] {
      Crypto.PublicKeyRoundTrip(entries[0].1);
      LenientOfWellFormed(resources[1..], entries[1..]);
      assert entries == [entries[0]] + entries[1..];
    }
  }

  // --- Ids, spelled out -------------------------------------------------------------

  /** `kid` is 16 lowercase hexadecimal digits for the first eight bytes of the SHA-256 of this text. */
  ghost predicate IsKidOf(lib: Library, kid: string, publicKey: string) {
    && |kid| == 16
    && forall k :: 0 <= k < 8 ==> Hex.Spells(kid[2 * k], kid[2 * k + 1], lib.sha256(Utf8.Encode(publicKey))[k])
  }

  lemma KeyIdIsKid(lib: Library, publicKey: string)
    ensures IsKidOf(lib, Crypto.KeyId(lib, publicKey), publicKey)
  {
    hide Hex.Of, Hex.Spells, Utf8.Encode;
    var digest := lib.sha256(Utf8.Encode(publicKey));
    forall k | 0 <= k < 8
      ensures Hex.Spells(Hex.Of(digest[..8])[2 * k], Hex.Of(digest[..8])[2 * k + 1], digest[k])
    {
      Hex.Reads(digest[..8], k);
    }
  }

  lemma OneSpelling(p: char, q: char, p': char, q': char, b: nat)
    requires Hex.Spells(p, q, b) && Hex.Spells(p', q', b)
    ensures p == p' && q == q'
  {
  }

  /** A text has one `kid`. */
  lemma OneKid(lib: Library, kid: string, kid': string, publicKey: string)
    requires IsKidOf(lib, kid, publicKey) && IsKidOf(lib, kid', publicKey)
    ensures kid == kid'
  {
    hide Hex.Spells, Utf8.Encode;
    forall i | 0 <= i < 16
      ensures kid[i] == kid'[i]
    {
      var k := i / 2;
      OneSpelling(kid[2 * k], kid[2 * k + 1], kid'[2 * k], kid'[2 * k + 1], lib.sha256(Utf8.Encode(publicKey))[k]);
    }
  }

  /** In a strict set each key is held under the `kid` of its base64 text, not of its bytes. */
  lemma StrictKidsSpelledOut(lib: Library, publicKeys: seq<string>, i: nat)
    requires StrictSet(lib, publicKeys).Ok? && i < |publicKeys|
    ensures var entries := StrictSet(lib, publicKeys).value.entries;
            && |entries| == |publicKeys|
            && publicKeys[i] == Base64.Encode(entries[i].1)
            && IsKidOf(lib, entries[i].0, publicKeys[i])
  {
    hide StrictEntries, Crypto.KeyId, IsKidOf, Base64.Encode;
    StrictBuildExactly(lib, publicKeys, |publicKeys|);
    KeyIdIsKid(lib, publicKeys[i]);
  }

  /** A file nobody verifies that names the `kid` of a key in the set is called a failed verification, never a stale set. */
  lemma HeldKidIsNotStale(lib: Library, publicKeys: seq<string>, i: nat, kid: string, probe: Result<Bytes, Error>)
    requires StrictSet(lib, publicKeys).Ok? && i < |publicKeys|
    requires IsKidOf(lib, kid, publicKeys[i]) && ProbedKid(lib, probe) == Some(kid)
    ensures StrictSet(lib, publicKeys).value.Find(kid).Some?
    ensures LabelFailure(lib, StrictSet(lib, publicKeys).value, probe) == FromCrypto(Crypto.VerificationFailed)
  {
    hide StrictSet, IsKidOf;
    StrictKidsSpelledOut(lib, publicKeys, i);
    OneKid(lib, kid, StrictSet(lib, publicKeys).value.entries[i].0, publicKeys[i]);
    LabelExactly(lib, StrictSet(lib, publicKeys).value, probe);
  }

  // --- Trying every key -------------------------------------------------------

  /** The first key that verifies; a signature malformed for a valid key ends the search. */
  function FindVerifying(lib: Library, keys: seq<Key32>, message: Bytes, signature: Bytes): Result<Option<Key32>, Crypto.Error> {
    if keys == [] then Ok(None)
    else
      match Crypto.EdVerify(lib, keys[0], message, signature)
      case Ok(_) => Ok(Some(keys[0]))
      case Err(e) => if e == Crypto.InvalidSignature then Err(e) else FindVerifying(lib, keys[1..], message, signature)
  }

  predicate SomeTrusts(lib: Library, keys: seq<Key32>, message: Bytes, signature: Bytes) {
    exists i :: 0 <= i < |keys| && Crypto.EdTrusts(lib, keys[i], message, signature)
  }

  predicate SomeValid(lib: Library, keys: seq<Key32>) {
    exists i :: 0 <= i < |keys| && lib.edKeyValid(keys[i])
  }

  /** The search finds a key iff one verifies, and stops early iff a valid key meets a signature of the wrong length. */
  lemma {:induction false} SearchVerdict(lib: Library, keys: seq<Key32>, message: Bytes, signature: Bytes)
    ensures var r := FindVerifying(lib, keys, message, signature);
            && (r.Ok? && r.value.Some? <==> SomeTrusts(lib, keys, message, signature))
            && (r.Err? <==> |signature| != Crypto.SIGNATURE_LEN && SomeValid(lib, keys))
            && (r.Err? ==> r.error == Crypto.InvalidSignature)
            && (r.Ok? && r.value.Some? ==> r.value.value in keys && Crypto.EdTrusts(lib, r.value.value, message, signature))
  {
    if keys != [] {
      SearchVerdict(lib, keys[1..], message, signature);
      assert forall i :: 1 <= i < |keys| ==> keys[i] == keys[1..][i - 1];
      if SomeTrusts(lib, keys[1..], message, signature) {
        var i :| 0 <= i < |keys[1..]| && Crypto.EdTrusts(lib, keys[1..][i], message, signature);
        assert Crypto.EdTrusts(lib, keys[i + 1], message, signature);
      }
      if SomeValid(lib, keys[1..]) {
        var i :| 0 <= i < |keys[1..]| && lib.edKeyValid(keys[1..][i]);
        assert lib.edKeyValid(keys[i + 1]);
      }
    }
  }

  /** For one, a set that holds no key gives no verdict on a signature of the wrong length, where any valid key would end the search. */
  lemma ShortSignatureNeedsAValidKey(lib: Library, key: Key32, message: Bytes)
    requires lib.edKeyValid(key)
    ensures FindVerifying(lib, [], message, [0]) == Ok(None)
    ensures FindVerifying(lib, [key], message, [0]) == Err(Crypto.InvalidSignature)
  {
  }

  /** The search depends on which keys are held, not on their order or repetition, except for which one it names. */
  lemma SearchDependsOnHeldSet(lib: Library, a: SigningKeySet, b: SigningKeySet, message: Bytes, signature: Bytes)
    requires a.Held() == b.Held()
    ensures var r, s := FindVerifying(lib, a.Keys(), message, signature), FindVerifying(lib, b.Keys(), message, signature);
            && (r.Err? <==> s.Err?)
            && (r.Err? ==> r == s)
            && (r.Ok? ==> (r.value.Some? <==> s.value.Some?))
  {
    SearchVerdict(lib, a.Keys(), message, signature);
    SearchVerdict(lib, b.Keys(), message, signature);
    MoreKeysTrustMore(lib, a, b, message, signature);
    MoreKeysTrustMore(lib, b, a, message, signature);
  }

  lemma MoreKeysTrustMore(lib: Library, a: SigningKeySet, b: SigningKeySet, message: Bytes, signature: Bytes)
    requires a.Held() <= b.Held()
    ensures SomeTrusts(lib, a.Keys(), message, signature) ==> SomeTrusts(lib, b.Keys(), message, signature)
    ensures SomeValid(lib, a.Keys()) ==> SomeValid(lib, b.Keys())
  {
    forall i | 0 <= i < |a.entries|
      ensures a.Keys()[i] in b.Keys()
    {
      assert a.entries[i] in b.Held();
      var j :| 0 <= j < |b.entries| && b.entries[j] == a.entries[i];
      assert b.Keys()[j] == a.Keys()[i];
    }
    if SomeTrusts(lib, a.Keys(), message, signature) {
      var i :| 0 <= i < |a.Keys()| && Crypto.EdTrusts(lib, a.Keys()[i], message, signature);
      var j :| 0 <= j < |b.Keys()| && b.Keys()[j] == a.Keys()[i];
    }
    if SomeValid(lib, a.Keys()) {
      var i :| 0 <= i < |a.Keys()| && lib.edKeyValid(a.Keys()[i]);
      var j :| 0 <= j < |b.Keys()| && b.Keys()[j] == a.Keys()[i];
    }
  }

  // --- Labelling a failure ------------------------------------------------------

  /** `label_failure`: what to call a signature no held key verified. `probe` is the attempt to open `enc`. */
  function LabelFailure(lib: Library, held: SigningKeySet, probe: Result<Bytes, Error>): Error {
    match probe
    case Err(LicenseKeyMissing) => LicenseKeyMissing
    case Err(FingerprintMissing) => FingerprintMissing
    case Err(_) => FromCrypto(Crypto.VerificationFailed)
    case Ok(plaintext) =>
      match lib.readKid(plaintext)
      case None => FromCrypto(Crypto.VerificationFailed)
      case Some(kid) => if held.Find(kid).Some? then FromCrypto(Crypto.VerificationFailed) else UnknownSigningKey(kid)
  }

  /** The `kid` a probe yields, if it yields one. */
  function ProbedKid(lib: Library, probe: Result<Bytes, Error>): Option<string> {
    match probe
    case Err(_) => None
    case Ok(plaintext) => lib.readKid(plaintext)
  }

  /**
   * A stale set is reported iff the file names a `kid` the set lacks; a missing argument stays the caller's;
   * everything else, a held `kid` included, is a verification failure.
   */
  lemma LabelExactly(lib: Library, held: SigningKeySet, probe: Result<Bytes, Error>)
    ensures var kid := ProbedKid(lib, probe);
            var stale := kid.Some? && forall e :: e in held.entries ==> e.0 != kid.value;
            var missing := probe == Err(LicenseKeyMissing) || probe == Err(FingerprintMissing);
            && (stale ==> LabelFailure(lib, held, probe) == UnknownSigningKey(kid.value))
            && (missing ==> LabelFailure(lib, held, probe) == probe.error)
            && (!stale && !missing ==> LabelFailure(lib, held, probe) == FromCrypto(Crypto.VerificationFailed))
  {
  }

  /** Two probes that yield one `kid` get one label. */
  lemma SameKidSameLabel(lib: Library, held: SigningKeySet, p: Result<Bytes, Error>, q: Result<Bytes, Error>)
    requires ProbedKid(lib, p).Some? && ProbedKid(lib, p) == ProbedKid(lib, q)
    ensures LabelFailure(lib, held, p) == LabelFailure(lib, held, q)
  {
  }

  /** The label, too, depends only on which entries are held. */
  lemma LabelDependsOnHeldSet(lib: Library, a: SigningKeySet, b: SigningKeySet, probe: Result<Bytes, Error>)
    requires a.Held() == b.Held()
    ensures LabelFailure(lib, a, probe) == LabelFailure(lib, b, probe)
  {
    forall kid
      ensures a.Find(kid).Some? <==> b.Find(kid).Some?
    {
      if a.Find(kid).Some? {
        assert (kid, a.Find(kid).value) in a.Held() && (kid, a.Find(kid).value) in b.Held();
      }
      if b.Find(kid).Some? {
        assert (kid, b.Find(kid).value) in b.Held() && (kid, b.Find(kid).value) in a.Held();
      }
    }
  }
}
