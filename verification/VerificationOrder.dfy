/**
 * The four entry points run step by step with tools that are withheld until they may be used: `enc` is
 * decoded and decrypted, and the payload inside it parsed, by partial functions whose preconditions are
 * granted only for a file a trusted key vouches for. The library itself is ghost, so there is no other way
 * to those steps. The markers, the certificate around `enc` and the signature's own base64 come before the
 * check and are not withheld.
 */
module VerificationOrder {
  import opened Outcomes
  import opened Words
  import opened Foreign
  import opened Checkout
  import Algorithm
  import Base64
  import Crypto
  import KeySet
  import LicenseFile
  import MachineFile
  import Text
  import Utf8

  /**
   * What an entry point works with. `parse` and `check` are there from the start; `decode` reads the base64
   * of an `enc`, `decrypt` opens a nonce and a sealed text under the key the caller's secrets derive, `read`
   * parses a payload and `readKid` only its `kid`.
   */
  datatype Tools = Tools(
    parse: string -> Result<Cert, Error>,
    check: (Bytes, Bytes, Bytes) -> Result<(), Error>,
    decode: string --> Result<Bytes, Error>,
    decrypt: (Bytes, Bytes) --> Result<Bytes, Crypto.Error>,
    read: Bytes --> Option<Verified>,
    readKid: Bytes --> Option<string>
  )

  /** Signatures are checked as the library checks them under `scheme`. */
  ghost predicate Checks(lib: Library, tools: Tools, scheme: Algorithm.Scheme) {
    forall key, message, signature ::
      tools.check(key, message, signature) == MachineFile.CheckSignature(lib, scheme, key, message, signature)
  }

  /** Leave to decode and decrypt; the latter only where the caller gave the secrets that derive a key. */
  ghost predicate MayOpen(lib: Library, tools: Tools, secret: Option<Key32>) {
    && (forall enc :: tools.decode.requires(enc) && tools.decode(enc) == DecodeBase64(enc))
    && (secret.Some? ==>
          forall nonce, sealed ::
            tools.decrypt.requires(nonce, sealed) && tools.decrypt(nonce, sealed) == Crypto.Decrypt(lib, secret.value, nonce, sealed))
  }

  /** Leave to parse this plaintext, and no other, as a payload. */
  ghost predicate MayRead(tools: Tools, plaintext: Result<Bytes, Error>, reader: Bytes -> Option<Verified>) {
    plaintext.Ok? ==> tools.read.requires(plaintext.value) && tools.read(plaintext.value) == reader(plaintext.value)
  }

  /** Leave to look for this plaintext's `kid`. */
  ghost predicate MayProbe(lib: Library, tools: Tools, plaintext: Result<Bytes, Error>) {
    plaintext.Ok? ==> tools.readKid.requires(plaintext.value) && tools.readKid(plaintext.value) == lib.readKid(plaintext.value)
  }

  /** Such tools exist for every library: nothing above asks for the impossible. */
  lemma EveryLibraryServes(lib: Library, parse: string -> Result<Cert, Error>, scheme: Algorithm.Scheme, secret: Option<Key32>,
                           reader: Bytes -> Option<Verified>)
    returns (tools: Tools)
    ensures tools.parse == parse && Checks(lib, tools, scheme) && MayOpen(lib, tools, secret)
    ensures forall plaintext :: MayRead(tools, plaintext, reader) && MayProbe(lib, tools, plaintext)
  {
    hide MachineFile.CheckSignature, DecodeBase64;
    var key: Key32 := if secret.Some? then secret.value else seq(32, _ => 0);
    tools := Tools(parse, (k, message, signature) => MachineFile.CheckSignature(lib, scheme, k, message, signature),
                   enc => DecodeBase64(enc), (nonce, sealed) => Crypto.Decrypt(lib, key, nonce, sealed), reader, lib.readKid);
  }

  // --- Opening --------------------------------------------------------------------

  ghost function LicenseSecret(lib: Library, licenseKey: Option<string>): Option<Key32> {
    if licenseKey.Some? then Some(Crypto.LicenseFileKey(lib, licenseKey.value)) else None
  }

  ghost function MachineSecret(lib: Library, secrets: MachineFile.Secrets): Option<Key32> {
    if secrets.licenseKey.Some? && secrets.fingerprint.Some?
    then Some(Crypto.MachineFileKey(lib, secrets.licenseKey.value, secrets.fingerprint.value))
    else None
  }

  /** `decode_plaintext` of the licence reader. */
  method DecodeLicense(ghost lib: Library, tools: Tools, cert: Cert, encoding: Encoding, licenseKey: Option<string>)
    returns (r: Result<Bytes, Error>)
    requires MayOpen(lib, tools, LicenseSecret(lib, licenseKey))
    ensures r == LicenseFile.DecodePlaintext(lib, cert, encoding, licenseKey)
  {
    hide Base64.Decode, Utf8.Encode, Crypto.LicenseFileKey;
    var bytes := tools.decode(cert.enc);
    if bytes.Err? || encoding == Plain {
      return bytes;
    }
    if licenseKey.None? {
      return Err(LicenseKeyMissing);
    }
    if |bytes.value| < Crypto.NONCE_LEN + Crypto.TAG_LEN {
      return Err(FromCrypto(Crypto.DecryptionFailed));
    }
    return LiftCrypto(tools.decrypt(bytes.value[..Crypto.NONCE_LEN], bytes.value[Crypto.NONCE_LEN..]));
  }

  /** `decode_plaintext` of the machine reader. */
  method DecodeMachine(ghost lib: Library, tools: Tools, cert: Cert, encoding: Encoding, secrets: MachineFile.Secrets)
    returns (r: Result<Bytes, Error>)
    requires MayOpen(lib, tools, MachineSecret(lib, secrets))
    ensures r == MachineFile.DecodePlaintext(lib, cert, encoding, secrets.licenseKey, secrets.fingerprint)
  {
    hide Base64.Decode, Text.SplitOnce, Utf8.Encode, Crypto.MachineFileKey;
    if encoding == Plain {
      return tools.decode(cert.enc);
    }
    if secrets.licenseKey.None? {
      return Err(LicenseKeyMissing);
    }
    if secrets.fingerprint.None? {
      return Err(FingerprintMissing);
    }
    var halves := Text.SplitOnce(cert.enc, '.');
    if halves.None? {
      return Err(FromCrypto(Crypto.DecryptionFailed));
    }
    var nonce := tools.decode(halves.value.0);
    if nonce.Err? {
      return nonce;
    }
    if |nonce.value| != Crypto.NONCE_LEN {
      return Err(FromCrypto(Crypto.DecryptionFailed));
    }
    var sealed := tools.decode(halves.value.1);
    if sealed.Err? {
      return sealed;
    }
    if |sealed.value| < Crypto.TAG_LEN {
      return Err(FromCrypto(Crypto.DecryptionFailed));
    }
    return LiftCrypto(tools.decrypt(nonce.value, sealed.value));
  }

  // --- Under one key ----------------------------------------------------------------

  /** What a licence file's `enc` opens to, for a file that parses and passes the `alg` gate. */
  ghost function LicensePlaintext(lib: Library, pem: string, licenseKey: Option<string>): Result<Bytes, Error> {
    var cert :- LicenseFile.Parse(lib, pem);
    var encoding :- Algorithm.ValidateAlg(cert.alg);
    LicenseFile.DecodePlaintext(lib, cert, encoding, licenseKey)
  }

  ghost function MachinePlaintext(lib: Library, pem: string, secrets: MachineFile.Secrets): Result<Bytes, Error> {
    var cert :- MachineFile.Parse(lib, pem);
    var (encoding, _) :- Algorithm.ParseAlg(cert.alg);
    MachineFile.DecodePlaintext(lib, cert, encoding, secrets.licenseKey, secrets.fingerprint)
  }

  /** `verify_license_file_at`, with nothing to open or parse the payload until the caller's key vouches for the file. */
  method VerifyLicenseAt(ghost lib: Library, tools: Tools, pem: string, key: Key32, licenseKey: Option<string>, now: I64)
    returns (r: Result<Verified, Error>)
    requires tools.parse(pem) == LicenseFile.Parse(lib, pem) && Checks(lib, tools, Algorithm.Ed25519Sign)
    requires LicenseFile.Parse(lib, pem).Ok? && LicenseFile.Vouches(lib, key, LicenseFile.Parse(lib, pem).value) ==>
               && MayOpen(lib, tools, LicenseSecret(lib, licenseKey))
               && MayRead(tools, LicensePlaintext(lib, pem, licenseKey), lib.readLicense)
    ensures r == LicenseFile.VerifyAt(lib, pem, key, licenseKey, now)
  {
    hide Base64.Decode, Utf8.Encode, Algorithm.ValidateAlg, LicenseFile.DecodePlaintext, LicenseFile.Parse, Finish, MayOpen;
    var cert := tools.parse(pem);
    if cert.Err? {
      return Err(cert.error);
    }
    var encoding := Algorithm.ValidateAlg(cert.value.alg);
    if encoding.Err? {
      return Err(encoding.error);
    }
    var signature := DecodeBase64(cert.value.sig);
    if signature.Err? {
      return Err(signature.error);
    }
    var verdict := tools.check(key, LicenseFile.SignedBytes(cert.value), signature.value);
    if verdict.Err? {
      return Err(verdict.error);
    }
    var plaintext := DecodeLicense(lib, tools, cert.value, encoding.value, licenseKey);
    if plaintext.Err? {
      return Err(plaintext.error);
    }
    return Finish(tools.read(plaintext.value), now);
  }

  /** `verify_machine_file_at`: likewise, under the caller's scheme. */
  method VerifyMachineAt(ghost lib: Library, tools: Tools, pem: string, scheme: Algorithm.Scheme, key: Bytes,
                         secrets: MachineFile.Secrets, now: I64)
    returns (r: Result<Verified, Error>)
    requires tools.parse(pem) == MachineFile.Parse(lib, pem) && Checks(lib, tools, scheme)
    requires MachineFile.Parse(lib, pem).Ok? && MachineFile.Vouches(lib, scheme, key, MachineFile.Parse(lib, pem).value) ==>
               && MayOpen(lib, tools, MachineSecret(lib, secrets))
               && MayRead(tools, MachinePlaintext(lib, pem, secrets), lib.readMachine)
    ensures r == MachineFile.VerifyAt(lib, pem, scheme, key, secrets, now)
  {
    hide Base64.Decode, Utf8.Encode, Algorithm.ParseAlg, MachineFile.DecodePlaintext, MachineFile.Parse, Finish, MachineFile.CheckSignature,
         MachineFile.Trusts, Algorithm.SchemeSuffix, MayOpen;
    if scheme == Algorithm.Rsa2048JwtRs256 {
      return Err(SchemeNotSupported);
    }
    var cert := tools.parse(pem);
    if cert.Err? {
      return Err(cert.error);
    }
    var alg := Algorithm.ParseAlg(cert.value.alg);
    if alg.Err? {
      return Err(alg.error);
    }
    var (encoding, suffix) := alg.value;
    var expected := Algorithm.SchemeSuffix(scheme);
    if suffix != expected {
      return Err(UnsupportedAlgorithm(SuffixNotOfScheme(suffix, expected)));
    }
    var signature := DecodeBase64(cert.value.sig);
    if signature.Err? {
      return Err(signature.error);
    }
    var verdict := tools.check(key, MachineFile.SignedBytes(cert.value), signature.value);
    if verdict.Err? {
      return Err(verdict.error);
    }
    MachineFile.CheckSignatureExactly(lib, scheme, key, MachineFile.SignedBytes(cert.value), signature.value);
    var plaintext := DecodeMachine(lib, tools, cert.value, encoding, secrets);
    if plaintext.Err? {
      return Err(plaintext.error);
    }
    return Finish(tools.read(plaintext.value), now);
  }

  // --- Under a key set ----------------------------------------------------------------

  lemma {:induction false} SearchAppends(lib: Library, keys: seq<Key32>, key: Key32, message: Bytes, signature: Bytes)
    requires KeySet.FindVerifying(lib, keys, message, signature) == Ok(None)
    ensures KeySet.FindVerifying(lib, keys + [key], message, signature) == KeySet.FindVerifying(lib, [key], message, signature)
  {
    if keys == [] {
      assert keys + [key] == [key];
    } else {
      assert (keys + [key])[1..] == keys[1..] + [key];
      SearchAppends(lib, keys[1..], key, message, signature);
    }
  }

  /**
   * `find_verifying_key`, as the early-exit loop it is: the check of a key is withheld until every key
   * before it has been tried and has failed without ending the search.
   */
  method FindVerifyingKey(ghost lib: Library, keys: seq<Key32>, ghost message: Bytes, ghost signature: Bytes, check: nat --> Result<(), Error>)
    returns (r: Result<Option<Key32>, Error>)
    requires forall i: nat :: i < |keys| && KeySet.FindVerifying(lib, keys[..i], message, signature) == Ok(None) ==>
                                check.requires(i) && check(i) == LiftCrypto(Crypto.EdVerify(lib, keys[i], message, signature))
    ensures r == LiftCrypto(KeySet.FindVerifying(lib, keys, message, signature))
  {
    var i := 0;
    assert keys[..0] == [];
    while i < |keys|
      invariant i <= |keys|
      invariant KeySet.FindVerifying(lib, keys[..i], message, signature) == Ok(None)
    {
      var verdict := check(i);
      SearchAppends(lib, keys[..i], keys[i], message, signature);
      assert keys[..i] + [keys[i]] == keys[..i + 1];
      if verdict.Ok? {
        SearchSticks(lib, keys, i + 1, message, signature);
        return Ok(Some(keys[i]));
      }
      if verdict.error == FromCrypto(Crypto.InvalidSignature) {
        SearchSticks(lib, keys, i + 1, message, signature);
        return Err(verdict.error);
      }
      i := i + 1;
    }
    assert keys[..i] == keys;
    return Ok(None);
  }

  /** A search that has come to an end among the first keys looks at no further ones. */
  lemma {:induction false} SearchSticks(lib: Library, keys: seq<Key32>, n: nat, message: Bytes, signature: Bytes)
    requires n <= |keys| && KeySet.FindVerifying(lib, keys[..n], message, signature) != Ok(None)
    ensures KeySet.FindVerifying(lib, keys, message, signature) == KeySet.FindVerifying(lib, keys[..n], message, signature)
  {
    if n > 0 {
      assert keys[..n][1..] == keys[1..][..n - 1] && keys[..n][0] == keys[0];
      if KeySet.FindVerifying(lib, keys[1..][..n - 1], message, signature) != Ok(None) {
        SearchSticks(lib, keys[1..], n - 1, message, signature);
      }
    }
  }

  /** How the search over the held keys ended, if the file came that far and the search was not cut short. */
  ghost function SearchOf(lib: Library, held: KeySet.SigningKeySet, cert: Cert): Option<Option<Key32>> {
    match Base64.Decode(cert.sig)
    case None => None
    case Some(signature) =>
      match KeySet.FindVerifying(lib, held.Keys(), Utf8.Encode(cert.enc), signature)
      case Err(_) => None
      case Ok(found) => Some(found)
  }

  /**
   * What is granted to a reader that holds several keys: to open `enc` once the search is over, to parse the
   * payload if a key was found, and to look for no more than a `kid` if none was.
   */
  ghost predicate GrantedBySearch(lib: Library, tools: Tools, held: KeySet.SigningKeySet, cert: Cert, secret: Option<Key32>,
                                  plaintext: Result<Bytes, Error>, reader: Bytes -> Option<Verified>)
  {
    var search := SearchOf(lib, held, cert);
    && (search.Some? ==> MayOpen(lib, tools, secret))
    && (search.Some? && search.value.Some? ==> MayRead(tools, plaintext, reader))
    && (search.Some? && search.value.None? ==> MayProbe(lib, tools, plaintext))
  }

  /** The payload parser is granted exactly when some held key vouches for the file. */
  lemma GrantNeedsAVoucher(lib: Library, held: KeySet.SigningKeySet, cert: Cert)
    ensures var search := SearchOf(lib, held, cert);
            search.Some? && search.value.Some? <==> exists i :: 0 <= i < |held.Keys()| && LicenseFile.Vouches(lib, held.Keys()[i], cert)
  {
    hide Base64.Decode, Utf8.Encode, KeySet.FindVerifying;
    if Base64.Decode(cert.sig).Some? {
      KeySet.SearchVerdict(lib, held.Keys(), Utf8.Encode(cert.enc), Base64.Decode(cert.sig).value);
    }
  }

  /** `label_failure`, of a probe this reader has made. */
  method Label(ghost lib: Library, tools: Tools, held: KeySet.SigningKeySet, probe: Result<Bytes, Error>) returns (e: Error)
    requires MayProbe(lib, tools, probe)
    ensures e == KeySet.LabelFailure(lib, held, probe)
  {
    if probe.Err? {
      return if probe.error == LicenseKeyMissing || probe.error == FingerprintMissing then probe.error
             else FromCrypto(Crypto.VerificationFailed);
    }
    var kid := tools.readKid(probe.value);
    return if kid.None? || held.Find(kid.value).Some? then FromCrypto(Crypto.VerificationFailed) else UnknownSigningKey(kid.value);
  }

  /** The search both key-set readers make, with `check` of the tools behind each key in turn. */
  method Search(ghost lib: Library, tools: Tools, held: KeySet.SigningKeySet, message: Bytes, signature: Bytes)
    returns (r: Result<Option<Key32>, Error>)
    requires Checks(lib, tools, Algorithm.Ed25519Sign)
    ensures r == LiftCrypto(KeySet.FindVerifying(lib, held.Keys(), message, signature))
  {
    var keys := held.Keys();
    r := FindVerifyingKey(lib, keys, message, signature, (i: nat) requires i < |keys| => tools.check(keys[i], message, signature));
  }

  /**
   * `verify_license_file_with_key_set_at`: the payload is parsed only for a file a held key vouches for; one
   * that no key vouches for is at most opened for its `kid`, and neither happens before the search is over.
   */
  method VerifyLicenseWithKeySetAt(ghost lib: Library, tools: Tools, pem: string, held: KeySet.SigningKeySet,
                                   licenseKey: Option<string>, now: I64)
    returns (r: Result<Verified, Error>)
    requires tools.parse(pem) == LicenseFile.Parse(lib, pem) && Checks(lib, tools, Algorithm.Ed25519Sign)
    requires LicenseFile.Parse(lib, pem).Ok? ==>
               GrantedBySearch(lib, tools, held, LicenseFile.Parse(lib, pem).value, LicenseSecret(lib, licenseKey),
                               LicensePlaintext(lib, pem, licenseKey), lib.readLicense)
    ensures r == LicenseFile.VerifyWithKeySetAt(lib, pem, held, licenseKey, now)
  {
    hide Base64.Decode, Utf8.Encode, Algorithm.ValidateAlg, LicenseFile.DecodePlaintext, LicenseFile.Parse, Finish, KeySet.LabelFailure,
         KeySet.FindVerifying, Checks, MayOpen;
    var cert := tools.parse(pem);
    if cert.Err? {
      return Err(cert.error);
    }
    var encoding := Algorithm.ValidateAlg(cert.value.alg);
    if encoding.Err? {
      return Err(encoding.error);
    }
    var signature := DecodeBase64(cert.value.sig);
    if signature.Err? {
      return Err(signature.error);
    }
    var found := Search(lib, tools, held, LicenseFile.SignedBytes(cert.value), signature.value);
    if found.Err? {
      return Err(found.error);
    }
    var plaintext := DecodeLicense(lib, tools, cert.value, encoding.value, licenseKey);
    if found.value.None? {
      var failure := Label(lib, tools, held, plaintext);
      return Err(failure);
    }
    if plaintext.Err? {
      return Err(plaintext.error);
    }
    return Finish(tools.read(plaintext.value), now);
  }

  /** `verify_machine_file_with_key_set_at`: likewise. */
  method VerifyMachineWithKeySetAt(ghost lib: Library, tools: Tools, pem: string, held: KeySet.SigningKeySet,
                                   secrets: MachineFile.Secrets, now: I64)
    returns (r: Result<Verified, Error>)
    requires tools.parse(pem) == MachineFile.Parse(lib, pem) && Checks(lib, tools, Algorithm.Ed25519Sign)
    requires MachineFile.Parse(lib, pem).Ok? ==>
               GrantedBySearch(lib, tools, held, MachineFile.Parse(lib, pem).value, MachineSecret(lib, secrets),
                               MachinePlaintext(lib, pem, secrets), lib.readMachine)
    ensures r == MachineFile.VerifyWithKeySetAt(lib, pem, held, secrets, now)
  {
    hide Base64.Decode, Utf8.Encode, Algorithm.ParseAlg, MachineFile.DecodePlaintext, MachineFile.Parse, Finish, KeySet.LabelFailure,
         KeySet.FindVerifying, Checks, MayOpen;
    var cert := tools.parse(pem);
    if cert.Err? {
      return Err(cert.error);
    }
    var alg := Algorithm.ParseAlg(cert.value.alg);
    if alg.Err? {
      return Err(alg.error);
    }
    var (encoding, suffix) := alg.value;
    var expected := Algorithm.SchemeSuffix(Algorithm.Ed25519Sign);
    if suffix != expected {
      return Err(UnsupportedAlgorithm(SuffixNotOfKeySet(suffix, expected)));
    }
    var signature := DecodeBase64(cert.value.sig);
    if signature.Err? {
      return Err(signature.error);
    }
    var found := Search(lib, tools, held, MachineFile.SignedBytes(cert.value), signature.value);
    if found.Err? {
      return Err(found.error);
    }
    var plaintext := DecodeMachine(lib, tools, cert.value, encoding, secrets);
    if found.value.None? {
      var failure := Label(lib, tools, held, plaintext);
      return Err(failure);
    }
    if plaintext.Err? {
      return Err(plaintext.error);
    }
    return Finish(tools.read(plaintext.value), now);
  }
}
