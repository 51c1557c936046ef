/** Offline verification of `.lic` files (`src/checkout/license_file.rs`). */
module LicenseFile {
  import opened Outcomes
  import opened Words
  import opened Foreign
  import opened Checkout
  import Algorithm
  import Base64
  import Crypto
  import KeySet
  import Utf8

  const PEM_HEADER := "-----BEGIN LICENSE FILE-----"
  const PEM_FOOTER := "-----END LICENSE FILE-----"

  function Parse(lib: Library, pem: string): Result<Cert, Error> {
    ParseEnvelope(lib, pem, PEM_HEADER, PEM_FOOTER)
  }

  /** The bytes a signature covers: those of the `enc` string itself, not what it decodes to. */
  function SignedBytes(cert: Cert): Bytes {
    Utf8.Encode(cert.enc)
  }

  function VerifySignature(lib: Library, key: Key32, cert: Cert): Result<(), Error> {
    var signature :- DecodeBase64(cert.sig);
    LiftCrypto(Crypto.EdVerify(lib, key, SignedBytes(cert), signature))
  }

  /** Opens `enc`: one base64 blob, which when encrypted is nonce, ciphertext and tag in a row. */
  function DecodePlaintext(lib: Library, cert: Cert, encoding: Encoding, licenseKey: Option<string>): Result<Bytes, Error> {
    var bytes :- DecodeBase64(cert.enc);
    match encoding
    case Plain => Ok(bytes)
    case Aes256Gcm =>
      match licenseKey
      case None => Err(LicenseKeyMissing)
      case Some(key) =>
        if |bytes| < Crypto.NONCE_LEN + Crypto.TAG_LEN then Err(FromCrypto(Crypto.DecryptionFailed))
        else
          LiftCrypto(Crypto.Decrypt(lib, Crypto.LicenseFileKey(lib, key), bytes[..Crypto.NONCE_LEN], bytes[Crypto.NONCE_LEN..]))
  }

  /** An encrypted `enc` opens to a payload iff it is the one spelling of a nonce and a sealed text, in a row, that do. */
  lemma BlobOpensExactly(lib: Library, cert: Cert, licenseKey: string, payload: Bytes)
    ensures DecodePlaintext(lib, cert, Aes256Gcm, Some(licenseKey)) == Ok(payload)
            <==> exists nonce: Bytes, sealed: Bytes ::
                   && cert.enc == OneBlob(nonce, sealed)
                   && |nonce| == Crypto.NONCE_LEN && |sealed| >= Crypto.TAG_LEN
                   && lib.aesOpen(Crypto.LicenseFileKey(lib, licenseKey), nonce, sealed) == Some(payload)
  {
    hide Base64.Encode, Base64.Decode, Crypto.LicenseFileKey;
    if DecodePlaintext(lib, cert, Aes256Gcm, Some(licenseKey)) == Ok(payload) {
      var bytes := Base64.Decode(cert.enc).value;
      Base64.EncodeOfDecode(cert.enc);
      assert bytes == bytes[..Crypto.NONCE_LEN] + bytes[Crypto.NONCE_LEN..];
      assert cert.enc == OneBlob(bytes[..Crypto.NONCE_LEN], bytes[Crypto.NONCE_LEN..]);
    }
    if nonce: Bytes, sealed: Bytes :|
        && cert.enc == OneBlob(nonce, sealed)
        && |nonce| == Crypto.NONCE_LEN && |sealed| >= Crypto.TAG_LEN
        && lib.aesOpen(Crypto.LicenseFileKey(lib, licenseKey), nonce, sealed) == Some(payload)
    {
      Base64.DecodeOfEncode(nonce + sealed);
      assert (nonce + sealed)[..Crypto.NONCE_LEN] == nonce && (nonce + sealed)[Crypto.NONCE_LEN..] == sealed;
    }
  }

  /** The string an encrypted licence file carries. */
  function OneBlob(nonce: Bytes, sealed: Bytes): string {
    Base64.Encode(nonce + sealed)
  }

  /** Everything after a signature has verified. */
  function Open(lib: Library, cert: Cert, encoding: Encoding, licenseKey: Option<string>, now: I64): Result<Verified, Error> {
    var plaintext :- DecodePlaintext(lib, cert, encoding, licenseKey);
    Finish(lib.readLicense(plaintext), now)
  }

  /** `verify_license_file_at`. */
  function VerifyAt(lib: Library, pem: string, key: Key32, licenseKey: Option<string>, now: I64): Result<Verified, Error> {
    var cert :- Parse(lib, pem);
    var encoding :- Algorithm.ValidateAlg(cert.alg);
    var _ :- VerifySignature(lib, key, cert);
    Open(lib, cert, encoding, licenseKey, now)
  }

  /** `verify_license_file_with_key_set_at`. */
  function VerifyWithKeySetAt(lib: Library, pem: string, held: KeySet.SigningKeySet, licenseKey: Option<string>, now: I64)
    : Result<Verified, Error>
  {
    var cert :- Parse(lib, pem);
    var encoding :- Algorithm.ValidateAlg(cert.alg);
    var signature :- DecodeBase64(cert.sig);
    var found :- LiftCrypto(KeySet.FindVerifying(lib, held.Keys(), SignedBytes(cert), signature));
    match found
    case Some(_) => Open(lib, cert, encoding, licenseKey, now)
    case None => Err(KeySet.LabelFailure(lib, held, DecodePlaintext(lib, cert, encoding, licenseKey)))
  }

  /** `key` verifies the signature this certificate carries over its `enc` string. */
  predicate Vouches(lib: Library, key: Key32, cert: Cert) {
    && Base64.Decode(cert.sig).Some?
    && Crypto.EdTrusts(lib, key, SignedBytes(cert), Base64.Decode(cert.sig).value)
  }

  /** Single-key verification succeeds exactly on a well-formed, supported, vouched-for and fresh file. */
  lemma VerifyAtExactly(lib: Library, pem: string, key: Key32, licenseKey: Option<string>, now: I64, v: Verified)
    ensures VerifyAt(lib, pem, key, licenseKey, now) == Ok(v)
            <==> && Parse(lib, pem).Ok?
                 && var cert := Parse(lib, pem).value;
                 && Algorithm.ValidateAlg(cert.alg).Ok?
                 && Vouches(lib, key, cert)
                 && var plaintext := DecodePlaintext(lib, cert, Algorithm.ValidateAlg(cert.alg).value, licenseKey);
                 && plaintext.Ok?
                 && lib.readLicense(plaintext.value) == Some(v)
                 && Fresh(v.claims, now)
  {
    hide Base64.Decode, Algorithm.ValidateAlg, Parse, Utf8.Encode, SaturatingSub, Fresh, Finish, DecodePlaintext;
    if Parse(lib, pem).Ok? && Algorithm.ValidateAlg(Parse(lib, pem).value.alg).Ok? {
      var cert := Parse(lib, pem).value;
      var plaintext := DecodePlaintext(lib, cert, Algorithm.ValidateAlg(cert.alg).value, licenseKey);
      if plaintext.Ok? {
        FinishIsExact(lib.readLicense(plaintext.value), now);
      }
    }
  }

  /** Key-set verification accepts exactly what single-key verification accepts under some held key, with the same answer. */
  lemma KeySetRefinesSingleKey(lib: Library, pem: string, held: KeySet.SigningKeySet, licenseKey: Option<string>, now: I64, v: Verified)
    ensures VerifyWithKeySetAt(lib, pem, held, licenseKey, now) == Ok(v)
            <==> exists i :: 0 <= i < |held.Keys()| && VerifyAt(lib, pem, held.Keys()[i], licenseKey, now) == Ok(v)
  {
    hide Base64.Decode, Algorithm.ValidateAlg, Parse, Utf8.Encode, Open, KeySet.FindVerifying, Crypto.EdVerify, DecodePlaintext;
    if Parse(lib, pem).Ok? && DecodeBase64(Parse(lib, pem).value.sig).Ok? {
      var cert := Parse(lib, pem).value;
      var signature := DecodeBase64(cert.sig).value;
      KeySet.SearchVerdict(lib, held.Keys(), SignedBytes(cert), signature);
    }
  }

  /** Once any held key vouches for a file, the key set's outcome, value or error, is that key's. */
  lemma VouchedOutcomeIsTheKeys(lib: Library, pem: string, held: KeySet.SigningKeySet, i: nat, licenseKey: Option<string>, now: I64)
    requires Parse(lib, pem).Ok? && i < |held.entries| && Vouches(lib, held.entries[i].1, Parse(lib, pem).value)
    ensures VerifyWithKeySetAt(lib, pem, held, licenseKey, now) == VerifyAt(lib, pem, held.entries[i].1, licenseKey, now)
  {
    hide Base64.Decode, Algorithm.ValidateAlg, Parse, Utf8.Encode, Open, KeySet.FindVerifying, KeySet.LabelFailure, DecodePlaintext;
    var cert := Parse(lib, pem).value;
    KeySet.SearchVerdict(lib, held.Keys(), SignedBytes(cert), Base64.Decode(cert.sig).value);
    assert held.Keys()[i] == held.entries[i].1;
  }

  /** The whole outcome, value or error, depends only on which entries are held. */
  lemma OutcomeDependsOnHeldSet(lib: Library, pem: string, a: KeySet.SigningKeySet, b: KeySet.SigningKeySet,
                                licenseKey: Option<string>, now: I64)
    requires a.Held() == b.Held()
    ensures VerifyWithKeySetAt(lib, pem, a, licenseKey, now) == VerifyWithKeySetAt(lib, pem, b, licenseKey, now)
  {
    hide Base64.Decode, Algorithm.ValidateAlg, Parse, Utf8.Encode, Open, KeySet.FindVerifying, KeySet.LabelFailure, DecodePlaintext;
    if Parse(lib, pem).Ok? && DecodeBase64(Parse(lib, pem).value.sig).Ok? && Algorithm.ValidateAlg(Parse(lib, pem).value.alg).Ok? {
      var cert := Parse(lib, pem).value;
      KeySet.SearchDependsOnHeldSet(lib, a, b, SignedBytes(cert), DecodeBase64(cert.sig).value);
      KeySet.LabelDependsOnHeldSet(lib, a, b,
        DecodePlaintext(lib, cert, Algorithm.ValidateAlg(cert.alg).value, licenseKey));
    }
  }

  /** Holding more keys never turns acceptance into an error. */
  lemma MoreKeysKeepAcceptance(lib: Library, pem: string, a: KeySet.SigningKeySet, b: KeySet.SigningKeySet,
                               licenseKey: Option<string>, now: I64)
    requires a.Held() <= b.Held() && VerifyWithKeySetAt(lib, pem, a, licenseKey, now).Ok?
    ensures VerifyWithKeySetAt(lib, pem, b, licenseKey, now) == VerifyWithKeySetAt(lib, pem, a, licenseKey, now)
  {
    hide Base64.Decode, Algorithm.ValidateAlg, Parse, Utf8.Encode, Open, KeySet.FindVerifying, KeySet.LabelFailure, DecodePlaintext;
    var cert := Parse(lib, pem).value;
    var signature := DecodeBase64(cert.sig).value;
    KeySet.SearchVerdict(lib, a.Keys(), SignedBytes(cert), signature);
    KeySet.SearchVerdict(lib, b.Keys(), SignedBytes(cert), signature);
    KeySet.MoreKeysTrustMore(lib, a, b, SignedBytes(cert), signature);
  }

  /** Acceptance through a key set is sound: a supported `alg`, a held key behind the signature, and an unexpired claim. */
  lemma KeySetSoundness(lib: Library, pem: string, held: KeySet.SigningKeySet, licenseKey: Option<string>, now: I64)
    requires VerifyWithKeySetAt(lib, pem, held, licenseKey, now).Ok?
    ensures Parse(lib, pem).Ok? && Algorithm.ValidateAlg(Parse(lib, pem).value.alg).Ok?
    ensures exists i :: 0 <= i < |held.entries| && Vouches(lib, held.entries[i].1, Parse(lib, pem).value)
    ensures Fresh(VerifyWithKeySetAt(lib, pem, held, licenseKey, now).value.claims, now)
  {
    hide *;
    var v := VerifyWithKeySetAt(lib, pem, held, licenseKey, now).value;
    KeySetRefinesSingleKey(lib, pem, held, licenseKey, now, v);
    var i :| 0 <= i < |held.Keys()| && VerifyAt(lib, pem, held.Keys()[i], licenseKey, now) == Ok(v);
    VerifyAtExactly(lib, pem, held.Keys()[i], licenseKey, now, v);
    assert Vouches(lib, held.entries[i].1, Parse(lib, pem).value);
  }

  /**
   * When the signature is well formed and no held key verifies it, the error is decided by the probed
   * `kid` alone: two files that probe to one `kid` get the same error.
   */
  lemma UnverifiedFilesWithOneKidFailAlike(lib: Library, pem: string, pem': string, held: KeySet.SigningKeySet,
                                           licenseKey: Option<string>, now: I64)
    requires UnverifiedProbe(lib, pem, held, licenseKey).Some? && UnverifiedProbe(lib, pem', held, licenseKey).Some?
    requires var p, q := UnverifiedProbe(lib, pem, held, licenseKey).value, UnverifiedProbe(lib, pem', held, licenseKey).value;
             KeySet.ProbedKid(lib, p).Some? && KeySet.ProbedKid(lib, p) == KeySet.ProbedKid(lib, q)
    ensures VerifyWithKeySetAt(lib, pem, held, licenseKey, now) == VerifyWithKeySetAt(lib, pem', held, licenseKey, now)
    ensures VerifyWithKeySetAt(lib, pem, held, licenseKey, now).Err?
  {
    hide Base64.Decode, Algorithm.ValidateAlg, Parse, Utf8.Encode, Open, KeySet.FindVerifying, KeySet.LabelFailure, DecodePlaintext;
    UnverifiedOutcome(lib, pem, held, licenseKey, now);
    UnverifiedOutcome(lib, pem', held, licenseKey, now);
    KeySet.SameKidSameLabel(lib, held, UnverifiedProbe(lib, pem, held, licenseKey).value,
                            UnverifiedProbe(lib, pem', held, licenseKey).value);
  }

  /** The probe of a well-formed, supported file whose 64-byte signature no held key verifies. */
  function UnverifiedProbe(lib: Library, pem: string, held: KeySet.SigningKeySet, licenseKey: Option<string>)
    : Option<Result<Bytes, Error>>
  {
    match Parse(lib, pem)
    case Err(_) => None
    case Ok(cert) =>
      match (Algorithm.ValidateAlg(cert.alg), Base64.Decode(cert.sig))
      case (Ok(encoding), Some(signature)) =>
        if |signature| == Crypto.SIGNATURE_LEN && !KeySet.SomeTrusts(lib, held.Keys(), SignedBytes(cert), signature)
        then Some(DecodePlaintext(lib, cert, encoding, licenseKey))
        else None
      case _ => None
  }

  lemma UnverifiedOutcome(lib: Library, pem: string, held: KeySet.SigningKeySet, licenseKey: Option<string>, now: I64)
    requires UnverifiedProbe(lib, pem, held, licenseKey).Some?
    ensures VerifyWithKeySetAt(lib, pem, held, licenseKey, now)
            == Err(KeySet.LabelFailure(lib, held, UnverifiedProbe(lib, pem, held, licenseKey).value))
  {
    hide Base64.Decode, Algorithm.ValidateAlg, Parse, Utf8.Encode, Open, KeySet.FindVerifying, KeySet.LabelFailure, DecodePlaintext;
    var cert := Parse(lib, pem).value;
    KeySet.SearchVerdict(lib, held.Keys(), SignedBytes(cert), Base64.Decode(cert.sig).value);
  }

  /** The libraries differ at most in what opens or reads a payload. */
  ghost predicate SameUntilTrust(lib: Library, lib': Library) {
    && (forall k :: lib.edKeyValid(k) == lib'.edKeyValid(k))
    && (forall k, m, s :: lib.edChecks(k, m, s) == lib'.edChecks(k, m, s))
    && (forall b :: lib.readCert(b) == lib'.readCert(b))
  }

  /** Before a signature has verified, nothing that opens or reads the payload can influence the outcome. */
  lemma PayloadCannotSpeakFirst(lib: Library, lib': Library, pem: string, key: Key32,
                                licenseKey: Option<string>, licenseKey': Option<string>, now: I64, now': I64)
    requires SameUntilTrust(lib, lib')
    requires Parse(lib, pem).Ok? ==> !Vouches(lib, key, Parse(lib, pem).value)
    ensures VerifyAt(lib, pem, key, licenseKey, now) == VerifyAt(lib', pem, key, licenseKey', now')
    ensures VerifyAt(lib, pem, key, licenseKey, now).Err?
  {
    hide Base64.Decode, Algorithm.ValidateAlg, Utf8.Encode, Open, PemBody;
  }
}
