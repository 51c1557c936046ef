/** Offline verification of `.mach` files (`src/checkout/machine_file.rs`). */
module MachineFile {
  import opened Outcomes
  import opened Words
  import opened Foreign
  import opened Checkout
  import opened Algorithm
  import Base64
  import Crypto
  import KeySet
  import Text
  import Utf8

  const PEM_HEADER := "-----BEGIN MACHINE FILE-----"
  const PEM_FOOTER := "-----END MACHINE FILE-----"

  function Parse(lib: Library, pem: string): Result<Cert, Error> {
    ParseEnvelope(lib, pem, PEM_HEADER, PEM_FOOTER)
  }

  /** The bytes a signature covers: those of the `enc` string itself, not what it decodes to. */
  function SignedBytes(cert: Cert): Bytes {
    Utf8.Encode(cert.enc)
  }

  /** The signature check of the scheme the caller supplied, never of one the file names. */
  function CheckSignature(lib: Library, scheme: Scheme, key: Bytes, message: Bytes, signature: Bytes): Result<(), Error> {
    match scheme
    case Ed25519Sign =>
      if |key| != 32 then Err(FromCrypto(Crypto.InvalidKey))
      else LiftCrypto(Crypto.EdVerify(lib, key, message, signature))
    case Rsa2048Pkcs1Sign => Checked(lib.rsaPkcs1Checks(key, message, signature))
    case Rsa2048Pkcs1PssSign => Checked(lib.rsaPssChecks(key, message, signature))
    case EcdsaP256Sign => Checked(lib.ecdsaChecks(key, message, signature))
    case Rsa2048JwtRs256 => Err(SchemeNotSupported)
  }

  function Checked(verifies: bool): Result<(), Error> {
    if verifies then Ok(()) else Err(FromCrypto(Crypto.VerificationFailed))
  }

  /** `key` verifies `signature` over `message` under `scheme`. */
  predicate Trusts(lib: Library, scheme: Scheme, key: Bytes, message: Bytes, signature: Bytes) {
    match scheme
    case Ed25519Sign => |key| == 32 && Crypto.EdTrusts(lib, key, message, signature)
    case Rsa2048Pkcs1Sign => lib.rsaPkcs1Checks(key, message, signature)
    case Rsa2048Pkcs1PssSign => lib.rsaPssChecks(key, message, signature)
    case EcdsaP256Sign => lib.ecdsaChecks(key, message, signature)
    case Rsa2048JwtRs256 => false
  }

  /** Opens `enc`: one base64 blob when plain, two dot-separated ones when encrypted. */
  function DecodePlaintext(lib: Library, cert: Cert, encoding: Encoding, licenseKey: Option<string>, fingerprint: Option<string>)
    : Result<Bytes, Error>
  {
    match encoding
    case Plain => DecodeBase64(cert.enc)
    case Aes256Gcm =>
      match (licenseKey, fingerprint)
      case (None, _) => Err(LicenseKeyMissing)
      case (Some(_), None) => Err(FingerprintMissing)
      case (Some(key), Some(fp)) => OpenHalves(lib, cert.enc, Crypto.MachineFileKey(lib, key, fp))
  }

  function OpenHalves(lib: Library, enc: string, key: Key32): Result<Bytes, Error> {
    match Text.SplitOnce(enc, '.')
    case None => Err(FromCrypto(Crypto.DecryptionFailed))
    case Some((nonceB64, cipherB64)) =>
      var nonce :- DecodeBase64(nonceB64);
      if |nonce| != Crypto.NONCE_LEN then Err(FromCrypto(Crypto.DecryptionFailed))
      else
        var sealed :- DecodeBase64(cipherB64);
        if |sealed| < Crypto.TAG_LEN then Err(FromCrypto(Crypto.DecryptionFailed))
        else LiftCrypto(Crypto.Decrypt(lib, key, nonce, sealed))
  }

  /** The string an encrypted machine file carries. */
  function TwoHalves(nonce: Bytes, sealed: Bytes): string {
    Base64.Encode(nonce) + "." + Base64.Encode(sealed)
  }

  /** An encrypted `enc` opens to a payload iff it is the one spelling of a nonce and a sealed text that do. */
  lemma HalvesOpenExactly(lib: Library, enc: string, key: Key32, payload: Bytes)
    ensures OpenHalves(lib, enc, key) == Ok(payload)
            <==> exists nonce: Bytes, sealed: Bytes ::
                   && enc == TwoHalves(nonce, sealed)
                   && |nonce| == Crypto.NONCE_LEN && |sealed| >= Crypto.TAG_LEN
                   && lib.aesOpen(key, nonce, sealed) == Some(payload)
  {
    hide Base64.Encode, Base64.Decode, Text.SplitOnce;
    if OpenHalves(lib, enc, key) == Ok(payload) {
      var (n, s) := Text.SplitOnce(enc, '.').value;
      Base64.EncodeOfDecode(n);
      Base64.EncodeOfDecode(s);
      assert enc == TwoHalves(Base64.Decode(n).value, Base64.Decode(s).value);
    }
    if nonce: Bytes, sealed: Bytes :|
        && enc == TwoHalves(nonce, sealed)
        && |nonce| == Crypto.NONCE_LEN && |sealed| >= Crypto.TAG_LEN
        && lib.aesOpen(key, nonce, sealed) == Some(payload)
    {
      Base64.EncodingHasNoDot(nonce);
      Text.SplitOnceAt(Base64.Encode(nonce), Base64.Encode(sealed), '.');
      Base64.DecodeOfEncode(nonce);
      Base64.DecodeOfEncode(sealed);
    }
  }

  /** What opens an encrypted file: both are needed to derive the key. */
  datatype Secrets = Secrets(licenseKey: Option<string>, fingerprint: Option<string>)

  function Open(lib: Library, cert: Cert, encoding: Encoding, secrets: Secrets, now: I64): Result<Verified, Error> {
    var plaintext :- DecodePlaintext(lib, cert, encoding, secrets.licenseKey, secrets.fingerprint);
    Finish(lib.readMachine(plaintext), now)
  }

  /** `verify_machine_file_at`. */
  function VerifyAt(lib: Library, pem: string, scheme: Scheme, key: Bytes, secrets: Secrets, now: I64): Result<Verified, Error> {
    if scheme == Rsa2048JwtRs256 then Err(SchemeNotSupported)
    else
      var cert :- Parse(lib, pem);
      var (encoding, suffix) :- ParseAlg(cert.alg);
      if suffix != SchemeSuffix(scheme) then
        Err(UnsupportedAlgorithm(SuffixNotOfScheme(suffix, SchemeSuffix(scheme))))
      else
        var signature :- DecodeBase64(cert.sig);
        var _ :- CheckSignature(lib, scheme, key, SignedBytes(cert), signature);
        Open(lib, cert, encoding, secrets, now)
  }

  /** `verify_machine_file_with_key_set_at`. */
  function VerifyWithKeySetAt(lib: Library, pem: string, held: KeySet.SigningKeySet, secrets: Secrets, now: I64): Result<Verified, Error> {
    var cert :- Parse(lib, pem);
    var (encoding, suffix) :- ParseAlg(cert.alg);
    if suffix != SchemeSuffix(Ed25519Sign) then
      Err(UnsupportedAlgorithm(SuffixNotOfKeySet(suffix, SchemeSuffix(Ed25519Sign))))
    else
      var signature :- DecodeBase64(cert.sig);
      var found :- LiftCrypto(KeySet.FindVerifying(lib, held.Keys(), SignedBytes(cert), signature));
      match found
      case Some(_) => Open(lib, cert, encoding, secrets, now)
      case None =>
        Err(KeySet.LabelFailure(lib, held, DecodePlaintext(lib, cert, encoding, secrets.licenseKey, secrets.fingerprint)))
  }

  /** The certificate's own signature verifies over its `enc` string. */
  predicate Vouches(lib: Library, scheme: Scheme, key: Bytes, cert: Cert) {
    && Base64.Decode(cert.sig).Some?
    && Trusts(lib, scheme, key, SignedBytes(cert), Base64.Decode(cert.sig).value)
  }

  /** The encoding a certificate declares, when it declares one under this scheme's suffix. */
  function DeclaredEncoding(cert: Cert, scheme: Scheme): Option<Encoding> {
    match ParseAlg(cert.alg)
    case Err(_) => None
    case Ok((encoding, suffix)) => if suffix == SchemeSuffix(scheme) then Some(encoding) else None
  }

  lemma CheckSignatureExactly(lib: Library, scheme: Scheme, key: Bytes, message: Bytes, signature: Bytes)
    ensures CheckSignature(lib, scheme, key, message, signature).Ok? <==> Trusts(lib, scheme, key, message, signature)
  {
  }

  /**
   * Single-key verification succeeds exactly on a well-formed file that declares the caller's scheme, is
   * vouched for under that scheme, opens, and is fresh; the JWT scheme never succeeds.
   */
  lemma VerifyAtExactly(lib: Library, pem: string, scheme: Scheme, key: Bytes, secrets: Secrets, now: I64, v: Verified)
    ensures VerifyAt(lib, pem, scheme, key, secrets, now) == Ok(v)
            <==> && Parse(lib, pem).Ok?
                 && var cert := Parse(lib, pem).value;
                 && DeclaredEncoding(cert, scheme).Some?
                 && Vouches(lib, scheme, key, cert)
                 && var plaintext := DecodePlaintext(lib, cert, DeclaredEncoding(cert, scheme).value, secrets.licenseKey, secrets.fingerprint);
                 && plaintext.Ok?
                 && lib.readMachine(plaintext.value) == Some(v)
                 && Fresh(v.claims, now)
  {
    hide Base64.Decode, ParseAlg, Parse, Utf8.Encode, Finish, Fresh, DecodePlaintext, CheckSignature, SchemeSuffix;
    if Parse(lib, pem).Ok? && DecodeBase64(Parse(lib, pem).value.sig).Ok? {
      var cert := Parse(lib, pem).value;
      CheckSignatureExactly(lib, scheme, key, SignedBytes(cert), DecodeBase64(cert.sig).value);
      if DeclaredEncoding(cert, scheme).Some? {
        var plaintext := DecodePlaintext(lib, cert, DeclaredEncoding(cert, scheme).value, secrets.licenseKey, secrets.fingerprint);
        if plaintext.Ok? {
          FinishIsExact(lib.readMachine(plaintext.value), now);
        }
      }
    }
  }

  /** Key-set verification accepts exactly what Ed25519 single-key verification accepts under some held key, with the same answer. */
  lemma KeySetRefinesSingleKey(lib: Library, pem: string, held: KeySet.SigningKeySet, secrets: Secrets, now: I64, v: Verified)
    ensures VerifyWithKeySetAt(lib, pem, held, secrets, now) == Ok(v)
            <==> exists i :: 0 <= i < |held.Keys()| && VerifyAt(lib, pem, Ed25519Sign, held.Keys()[i], secrets, now) == Ok(v)
  {
    hide Base64.Decode, ParseAlg, Parse, Utf8.Encode, Open, KeySet.FindVerifying, Crypto.EdVerify, DecodePlaintext;
    if Parse(lib, pem).Ok? && DecodeBase64(Parse(lib, pem).value.sig).Ok? {
      var cert := Parse(lib, pem).value;
      KeySet.SearchVerdict(lib, held.Keys(), SignedBytes(cert), DecodeBase64(cert.sig).value);
    }
  }

  /** Once any held key vouches for a file, the key set's outcome is that key's; an `alg` of another scheme both refuse. */
  lemma VouchedOutcomeIsTheKeys(lib: Library, pem: string, held: KeySet.SigningKeySet, i: nat, secrets: Secrets, now: I64)
    requires Parse(lib, pem).Ok? && i < |held.entries| && Vouches(lib, Ed25519Sign, held.entries[i].1, Parse(lib, pem).value)
    ensures DeclaredEncoding(Parse(lib, pem).value, Ed25519Sign).Some? ==>
              VerifyWithKeySetAt(lib, pem, held, secrets, now) == VerifyAt(lib, pem, Ed25519Sign, held.entries[i].1, secrets, now)
    ensures DeclaredEncoding(Parse(lib, pem).value, Ed25519Sign).None? ==>
              VerifyWithKeySetAt(lib, pem, held, secrets, now).Err? && VerifyAt(lib, pem, Ed25519Sign, held.entries[i].1, secrets, now).Err?
  {
    hide Base64.Decode, ParseAlg, Parse, Utf8.Encode, Open, KeySet.FindVerifying, KeySet.LabelFailure, DecodePlaintext;
    var cert := Parse(lib, pem).value;
    KeySet.SearchVerdict(lib, held.Keys(), SignedBytes(cert), Base64.Decode(cert.sig).value);
    assert held.Keys()[i] == held.entries[i].1;
  }

  /** The whole outcome, value or error, depends only on which entries are held. */
  lemma OutcomeDependsOnHeldSet(lib: Library, pem: string, a: KeySet.SigningKeySet, b: KeySet.SigningKeySet, secrets: Secrets, now: I64)
    requires a.Held() == b.Held()
    ensures VerifyWithKeySetAt(lib, pem, a, secrets, now) == VerifyWithKeySetAt(lib, pem, b, secrets, now)
  {
    hide Base64.Decode, ParseAlg, Parse, Utf8.Encode, Open, KeySet.FindVerifying, KeySet.LabelFailure, DecodePlaintext;
    if Parse(lib, pem).Ok? && DecodeBase64(Parse(lib, pem).value.sig).Ok? && ParseAlg(Parse(lib, pem).value.alg).Ok? {
      var cert := Parse(lib, pem).value;
      KeySet.SearchDependsOnHeldSet(lib, a, b, SignedBytes(cert), DecodeBase64(cert.sig).value);
      KeySet.LabelDependsOnHeldSet(lib, a, b,
        DecodePlaintext(lib, cert, ParseAlg(cert.alg).value.0, secrets.licenseKey, secrets.fingerprint));
    }
  }

  /** Holding more keys never turns acceptance into an error. */
  lemma MoreKeysKeepAcceptance(lib: Library, pem: string, a: KeySet.SigningKeySet, b: KeySet.SigningKeySet, secrets: Secrets, now: I64)
    requires a.Held() <= b.Held() && VerifyWithKeySetAt(lib, pem, a, secrets, now).Ok?
    ensures VerifyWithKeySetAt(lib, pem, b, secrets, now) == VerifyWithKeySetAt(lib, pem, a, secrets, now)
  {
    hide Base64.Decode, ParseAlg, Parse, Utf8.Encode, Open, KeySet.FindVerifying, KeySet.LabelFailure, DecodePlaintext;
    var cert := Parse(lib, pem).value;
    var signature := DecodeBase64(cert.sig).value;
    KeySet.SearchVerdict(lib, a.Keys(), SignedBytes(cert), signature);
    KeySet.SearchVerdict(lib, b.Keys(), SignedBytes(cert), signature);
    KeySet.MoreKeysTrustMore(lib, a, b, SignedBytes(cert), signature);
  }

  /** Acceptance through a key set is sound: an Ed25519 `alg`, a held key behind the signature, and an unexpired claim. */
  lemma KeySetSoundness(lib: Library, pem: string, held: KeySet.SigningKeySet, secrets: Secrets, now: I64)
    requires VerifyWithKeySetAt(lib, pem, held, secrets, now).Ok?
    ensures Parse(lib, pem).Ok? && DeclaredEncoding(Parse(lib, pem).value, Ed25519Sign).Some?
    ensures exists i :: 0 <= i < |held.entries| && Vouches(lib, Ed25519Sign, held.entries[i].1, Parse(lib, pem).value)
    ensures Fresh(VerifyWithKeySetAt(lib, pem, held, secrets, now).value.claims, now)
  {
    hide *;
    var v := VerifyWithKeySetAt(lib, pem, held, secrets, now).value;
    KeySetRefinesSingleKey(lib, pem, held, secrets, now, v);
    var i :| 0 <= i < |held.Keys()| && VerifyAt(lib, pem, Ed25519Sign, held.Keys()[i], secrets, now) == Ok(v);
    VerifyAtExactly(lib, pem, Ed25519Sign, held.Keys()[i], secrets, now, v);
    assert Vouches(lib, Ed25519Sign, held.entries[i].1, Parse(lib, pem).value);
  }

  /** The probe of a well-formed Ed25519 file whose 64-byte signature no held key verifies. */
  function UnverifiedProbe(lib: Library, pem: string, held: KeySet.SigningKeySet, secrets: Secrets): Option<Result<Bytes, Error>> {
    match Parse(lib, pem)
    case Err(_) => None
    case Ok(cert) =>
      match (DeclaredEncoding(cert, Ed25519Sign), Base64.Decode(cert.sig))
      case (Some(encoding), Some(signature)) =>
        if |signature| == Crypto.SIGNATURE_LEN && !KeySet.SomeTrusts(lib, held.Keys(), SignedBytes(cert), signature)
        then Some(DecodePlaintext(lib, cert, encoding, secrets.licenseKey, secrets.fingerprint))
        else None
      case _ => None
  }

  lemma UnverifiedOutcome(lib: Library, pem: string, held: KeySet.SigningKeySet, secrets: Secrets, now: I64)
    requires UnverifiedProbe(lib, pem, held, secrets).Some?
    ensures VerifyWithKeySetAt(lib, pem, held, secrets, now)
            == Err(KeySet.LabelFailure(lib, held, UnverifiedProbe(lib, pem, held, secrets).value))
  {
    hide Base64.Decode, ParseAlg, Parse, Utf8.Encode, Open, KeySet.FindVerifying, KeySet.LabelFailure, DecodePlaintext;
    var cert := Parse(lib, pem).value;
    KeySet.SearchVerdict(lib, held.Keys(), SignedBytes(cert), Base64.Decode(cert.sig).value);
  }

  /** Two files no held key verifies that probe to one `kid` get the same error. */
  lemma UnverifiedFilesWithOneKidFailAlike(lib: Library, pem: string, pem': string, held: KeySet.SigningKeySet, secrets: Secrets, now: I64)
    requires UnverifiedProbe(lib, pem, held, secrets).Some? && UnverifiedProbe(lib, pem', held, secrets).Some?
    requires var p, q := UnverifiedProbe(lib, pem, held, secrets).value, UnverifiedProbe(lib, pem', held, secrets).value;
             KeySet.ProbedKid(lib, p).Some? && KeySet.ProbedKid(lib, p) == KeySet.ProbedKid(lib, q)
    ensures VerifyWithKeySetAt(lib, pem, held, secrets, now) == VerifyWithKeySetAt(lib, pem', held, secrets, now)
    ensures VerifyWithKeySetAt(lib, pem, held, secrets, now).Err?
  {
    hide Base64.Decode, ParseAlg, Parse, Utf8.Encode, Open, KeySet.FindVerifying, KeySet.LabelFailure, DecodePlaintext;
    UnverifiedOutcome(lib, pem, held, secrets, now);
    UnverifiedOutcome(lib, pem', held, secrets, now);
    KeySet.SameKidSameLabel(lib, held, UnverifiedProbe(lib, pem, held, secrets).value, UnverifiedProbe(lib, pem', held, secrets).value);
  }

  /** The libraries differ at most in what opens or reads a payload. */
  ghost predicate SameUntilTrust(lib: Library, lib': Library) {
    && (forall k :: lib.edKeyValid(k) == lib'.edKeyValid(k))
    && (forall k, m, s :: lib.edChecks(k, m, s) == lib'.edChecks(k, m, s))
    && (forall k, m, s :: lib.rsaPkcs1Checks(k, m, s) == lib'.rsaPkcs1Checks(k, m, s))
    && (forall k, m, s :: lib.rsaPssChecks(k, m, s) == lib'.rsaPssChecks(k, m, s))
    && (forall k, m, s :: lib.ecdsaChecks(k, m, s) == lib'.ecdsaChecks(k, m, s))
    && (forall b :: lib.readCert(b) == lib'.readCert(b))
  }

  /** Before a signature has verified, nothing that opens or reads the payload can influence the outcome. */
  lemma PayloadCannotSpeakFirst(lib: Library, lib': Library, pem: string, scheme: Scheme, key: Bytes,
                                secrets: Secrets, secrets': Secrets, now: I64, now': I64)
    requires SameUntilTrust(lib, lib')
    requires Parse(lib, pem).Ok? ==> !Vouches(lib, scheme, key, Parse(lib, pem).value)
    ensures VerifyAt(lib, pem, scheme, key, secrets, now) == VerifyAt(lib', pem, scheme, key, secrets', now')
    ensures VerifyAt(lib, pem, scheme, key, secrets, now).Err?
  {
    hide Base64.Decode, ParseAlg, Utf8.Encode, Open, PemBody;
    if Parse(lib, pem).Ok? && DecodeBase64(Parse(lib, pem).value.sig).Ok? {
      var cert := Parse(lib, pem).value;
      CheckSignatureExactly(lib, scheme, key, SignedBytes(cert), DecodeBase64(cert.sig).value);
    }
  }
}
