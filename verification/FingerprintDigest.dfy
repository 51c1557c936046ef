/** The digest a client sends. */
module FingerprintDigest {
  import opened Outcomes
  import opened Words
  import opened Fingerprint
  import opened Collections
  import Hex
  import Utf8

  function ComputeOf(sha256: Bytes -> Digest, cs: seq<Component>): (r: Result<string, Error>)
    ensures r.Ok? ==> |r.value| == 64 && forall i :: 0 <= i < |r.value| ==> r.value[i] in Hex.DIGITS
  {
    match CanonicalOf(cs)
    case Err(e) => Err(e)
    case Ok(canonical) => Ok(Hex.Of(sha256(Utf8.Encode(canonical))))
  }

  /** `compute`: hashes the canonical bytes and spells the digest in hexadecimal. */
  method Compute(sha256: Bytes -> Digest, components: seq<Component>) returns (r: Result<string, Error>)
    ensures r == ComputeOf(sha256, components)
  {
    var canonical := Canonical(components);
    if canonical.Err? {
      return Err(canonical.error);
    }
    var hex := Hex.Spell(sha256(Utf8.Encode(canonical.value)));
    return Ok(hex);
  }

  ghost predicate Collision(sha256: Bytes -> Digest, x: string, y: string) {
    x != y && sha256(Utf8.Encode(x)) == sha256(Utf8.Encode(y))
  }

  /** Two accepted inputs name one machine iff their trimmed pairs agree up to order, short of a SHA-256 collision. */
  lemma SameFingerprintIff(sha256: Bytes -> Digest, cs: seq<Component>, ds: seq<Component>)
    requires Accepted(cs) && Accepted(ds)
    ensures CanonicalOf(cs).Ok? && CanonicalOf(ds).Ok?
    ensures ComputeOf(sha256, cs) == ComputeOf(sha256, ds)
            <==> Permutation(TrimmedPairs(cs), TrimmedPairs(ds)) || Collision(sha256, CanonicalOf(cs).value, CanonicalOf(ds).value)
  {
    AcceptedExactly(cs);
    AcceptedExactly(ds);
    SameCanonicalIffPermutation(cs, ds);
    var x, y := sha256(Utf8.Encode(CanonicalOf(cs).value)), sha256(Utf8.Encode(CanonicalOf(ds).value));
    if Hex.Of(x) == Hex.Of(y) {
      Hex.Injective(x, y);
    }
  }
}
