/** The foreign code a verifier calls: cryptographic primitives and JSON decoders, as parameters. */
module Foreign {
  import opened Outcomes
  import opened Words

  /** The claims signed alongside a resource. */
  datatype Claims = Claims(iat: I64, exp: Option<I64>, jti: string, kid: string)

  /** A licence or machine resource, carried through unread. */
  datatype Resource = Resource(document: Bytes)

  /** What a payload decodes to, and what a verifier answers. */
  datatype Verified = Verified(resource: Resource, claims: Claims)

  /** The inner `{ enc, sig, alg }` of a checkout file. */
  datatype Cert = Cert(enc: string, sig: string, alg: string)

  /**
   * Signature checks answer whether the signature verifies; `aesOpen` takes key, nonce and
   * ciphertext-with-tag; `hkdf` takes salt, input key and info. The last four decode JSON.
   */
  datatype Library = Library(
    edKeyValid: Key32 -> bool,
    edChecks: (Key32, Bytes, Bytes) -> bool,
    rsaPkcs1Checks: (Bytes, Bytes, Bytes) -> bool,
    rsaPssChecks: (Bytes, Bytes, Bytes) -> bool,
    ecdsaChecks: (Bytes, Bytes, Bytes) -> bool,
    aesOpen: (Bytes, Bytes, Bytes) -> Option<Bytes>,
    hkdf: (Bytes, Bytes, Bytes) -> Key32,
    sha256: Bytes -> Digest,
    readCert: Bytes -> Option<Cert>,
    readLicense: Bytes -> Option<Verified>,
    readMachine: Bytes -> Option<Verified>,
    readKid: Bytes -> Option<string>
  )
}

/** The crate's thin layer over the primitives (`src/crypto/`). */
module Crypto {
  import opened Outcomes
  import opened Words
  import opened Foreign
  import Base64
  import Hex
  import Utf8

  datatype Error = InvalidKey | InvalidSignature | VerificationFailed | DecryptionFailed

  const SIGNATURE_LEN := 64
  const NONCE_LEN := 12
  const TAG_LEN := 16

  /** `ed25519::verify`: a bad key is reported before a bad signature, a bad signature before a mismatch. */
  function EdVerify(lib: Library, key: Key32, message: Bytes, signature: Bytes): (r: Result<(), Error>)
    ensures r.Ok? <==> EdTrusts(lib, key, message, signature)
  {
    if !lib.edKeyValid(key) then Err(InvalidKey)
    else if |signature| != SIGNATURE_LEN then Err(InvalidSignature)
    else if lib.edChecks(key, message, signature) then Ok(())
    else Err(VerificationFailed)
  }

  predicate EdTrusts(lib: Library, key: Key32, message: Bytes, signature: Bytes) {
    lib.edKeyValid(key) && |signature| == SIGNATURE_LEN && lib.edChecks(key, message, signature)
  }

  /** The `kid` of a public key: eight bytes of the digest of its base64 spelling. */
  function KeyId(lib: Library, publicKey: string): (kid: string)
    ensures |kid| == 16
  {
    Hex.Of(lib.sha256(Utf8.Encode(publicKey))[..8])
  }

  function PublicKeyFromBase64(b64: string): (r: Result<Key32, Error>)
    ensures r.Ok? ==> b64 == Base64.Encode(r.value)
    ensures r.Err? ==> r.error == InvalidKey
  {
    match Base64.Decode(b64)
    case None => Err(InvalidKey)
    case Some(bytes) =>
      Base64.EncodeOfDecode(b64);
      if |bytes| == 32 then Ok(bytes) else Err(InvalidKey)
  }

  /** A public key is held under exactly one spelling. */
  lemma PublicKeyRoundTrip(key: Key32)
    ensures PublicKeyFromBase64(Base64.Encode(key)) == Ok(key)
  {
    Base64.DecodeOfEncode(key);
  }

  function Decrypt(lib: Library, key: Key32, nonce: Bytes, sealed: Bytes): Result<Bytes, Error> {
    match lib.aesOpen(key, nonce, sealed)
    case Some(plaintext) => Ok(plaintext)
    case None => Err(DecryptionFailed)
  }

  function MachineFileKey(lib: Library, licenseKey: string, fingerprint: string): Key32 {
    lib.hkdf(Utf8.Encode("tamga:machine-file-key-v1"), Utf8.Encode(licenseKey), Utf8.Encode(fingerprint))
  }

  function LicenseFileKey(lib: Library, licenseKey: string): Key32 {
    lib.hkdf(Utf8.Encode("tamga:license-file-key-v1"), Utf8.Encode(licenseKey), Utf8.Encode("license-file"))
  }
}
