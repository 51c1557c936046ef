/**
 * What the two file readers accept and refuse, told from the file itself: the framing, the strings, the
 * primitives called and the bytes they are called on.
 */
module FileReading {
  import opened Outcomes
  import opened Words
  import opened Foreign
  import opened Checkout
  import Algorithm
  import Base64
  import Crypto
  import KeySet
  import LicenseFile
  import MachineFile
  import RoundTrip
  import Text
  import Utf8

  // --- The parts of a file ----------------------------------------------------------------

  /** The file frames the base64 of a JSON text that reads as this certificate. `kind` is MACHINE or LICENSE. */
  ghost predicate Carries(lib: Library, pem: string, kind: string, cert: Cert) {
    exists json: Bytes ::
      && Framed(pem, "-----BEGIN " + kind + " FILE-----", Base64.Encode(json), "-----END " + kind + " FILE-----")
      && lib.readCert(json) == Some(cert)
  }

  lemma Markers()
    ensures MachineFile.PEM_HEADER == "-----BEGIN " + "MACHINE" + " FILE-----" && MachineFile.PEM_FOOTER == "-----END " + "MACHINE" + " FILE-----"
    ensures LicenseFile.PEM_HEADER == "-----BEGIN " + "LICENSE" + " FILE-----" && LicenseFile.PEM_FOOTER == "-----END " + "LICENSE" + " FILE-----"
  {
  }

  lemma ParsesExactly(lib: Library, pem: string, header: string, footer: string, cert: Cert)
    requires header != "" && footer != "" && Text.Tight(header, IsWhitespace) && Text.Tight(footer, IsWhitespace)
    ensures ParseEnvelope(lib, pem, header, footer) == Ok(cert) <==>
            exists json: Bytes :: Framed(pem, header, Base64.Encode(json), footer) && lib.readCert(json) == Some(cert)
  {
    hide PemBody, Framed, Base64.Encode, Base64.Decode, Text.Tight;
    if ParseEnvelope(lib, pem, header, footer) == Ok(cert) {
      var body := PemBody(pem, header, footer).value;
      PemBodyExactly(pem, header, body, footer);
      Base64.EncodeOfDecode(body);
    }
    if json: Bytes :| Framed(pem, header, Base64.Encode(json), footer) && lib.readCert(json) == Some(cert) {
      PemBodyExactly(pem, header, Base64.Encode(json), footer);
      Base64.DecodeOfEncode(json);
    }
  }

  ghost predicate IsBase64(s: string) {
    exists bytes: Bytes :: s == Base64.Encode(bytes)
  }

  lemma IsBase64Exactly(s: string)
    ensures IsBase64(s) <==> Base64.Decode(s).Some?
    ensures Base64.Decode(s).Some? ==> s == Base64.Encode(Base64.Decode(s).value)
  {
    hide Base64.Encode, Base64.Decode;
    DecodesExactly(s);
  }

  /** Why an envelope is refused: it is not framed, what is framed is not base64, or what that holds is no certificate. */
  lemma EnvelopeRefusals(lib: Library, pem: string, header: string, footer: string)
    requires header != "" && footer != "" && Text.Tight(header, IsWhitespace) && Text.Tight(footer, IsWhitespace)
    ensures var r := ParseEnvelope(lib, pem, header, footer);
            && (r == Err(MalformedPem) <==> forall body :: !Framed(pem, header, body, footer))
            && (r == Err(InvalidBase64) <==> exists body :: Framed(pem, header, body, footer) && !IsBase64(body))
            && (r == Err(InvalidJson) <==>
                exists json: Bytes :: Framed(pem, header, Base64.Encode(json), footer) && lib.readCert(json) == None)
            && (r.Err? ==> r.error == MalformedPem || r.error == InvalidBase64 || r.error == InvalidJson)
  {
    hide PemBody, Framed, Base64.Encode, Base64.Decode, Text.Tight, IsBase64;
    forall body
      ensures PemBody(pem, header, footer) == Some(body) <==> Framed(pem, header, body, footer)
    {
      PemBodyExactly(pem, header, body, footer);
    }
    if PemBody(pem, header, footer).Some? {
      var body := PemBody(pem, header, footer).value;
      IsBase64Exactly(body);
      assert Framed(pem, header, body, footer);
      forall json: Bytes | Framed(pem, header, Base64.Encode(json), footer)
        ensures body == Base64.Encode(json) && Base64.Decode(body) == Some(json)
      {
        Base64.DecodeOfEncode(json);
      }
      forall other | Framed(pem, header, other, footer)
        ensures other == body
      {
      }
    }
  }

  lemma DecodesExactly(s: string)
    ensures Base64.Decode(s) == None <==> forall bytes: Bytes :: s != Base64.Encode(bytes)
    ensures forall bytes: Bytes :: Base64.Decode(s) == Some(bytes) <==> s == Base64.Encode(bytes)
  {
    hide Base64.Encode, Base64.Decode;
    if Base64.Decode(s).Some? {
      Base64.EncodeOfDecode(s);
    }
    forall bytes: Bytes
      ensures Base64.Decode(Base64.Encode(bytes)) == Some(bytes)
    {
      Base64.DecodeOfEncode(bytes);
    }
  }

  /** The primitive each scheme calls, on the key, the message and the signature. */
  ghost predicate Verifies(lib: Library, scheme: Algorithm.Scheme, key: Bytes, message: Bytes, signature: Bytes) {
    match scheme
    case Ed25519Sign => |key| == 32 && lib.edKeyValid(key) && |signature| == 64 && lib.edChecks(key, message, signature)
    case Rsa2048Pkcs1Sign => lib.rsaPkcs1Checks(key, message, signature)
    case Rsa2048Pkcs1PssSign => lib.rsaPssChecks(key, message, signature)
    case EcdsaP256Sign => lib.ecdsaChecks(key, message, signature)
    case Rsa2048JwtRs256 => false
  }

  /** The signature is over the UTF-8 of the `enc` string. */
  ghost predicate SignedBy(lib: Library, scheme: Algorithm.Scheme, key: Bytes, cert: Cert) {
    exists signature: Bytes :: cert.sig == Base64.Encode(signature) && Verifies(lib, scheme, key, Utf8.Encode(cert.enc), signature)
  }

  lemma VouchesExactly(lib: Library, scheme: Algorithm.Scheme, key: Bytes, cert: Cert)
    ensures MachineFile.Vouches(lib, scheme, key, cert) <==> SignedBy(lib, scheme, key, cert)
    ensures |key| == 32 ==> (LicenseFile.Vouches(lib, key, cert) <==> SignedBy(lib, Algorithm.Ed25519Sign, key, cert))
  {
    hide Base64.Encode, Base64.Decode, Utf8.Encode;
    DecodesExactly(cert.sig);
  }

  /** `rest` is what follows the encoding's name in the `alg` of a file signed under this scheme. */
  ghost predicate IsAlgRest(scheme: Algorithm.Scheme, rest: string) {
    match scheme
    case Ed25519Sign => rest == "+ed25519+v2"
    case Rsa2048Pkcs1Sign => rest == "+rsa-sha256+v2"
    case Rsa2048Pkcs1PssSign => rest == "+rsa-pss-sha256+v2"
    case EcdsaP256Sign => rest == "+ecdsa-p256+v2"
    case Rsa2048JwtRs256 => rest == "+rsa-sha256+v2"
  }

  ghost predicate IsAlg(scheme: Algorithm.Scheme, e: Encoding, alg: string) {
    match e
    case Plain => "base64" <= alg && IsAlgRest(scheme, alg[6..])
    case Aes256Gcm => "aes-256-gcm" <= alg && IsAlgRest(scheme, alg[11..])
  }

  lemma AlgRestIs(scheme: Algorithm.Scheme)
    ensures IsAlgRest(scheme, "+" + (Algorithm.SchemeSuffix(scheme) + "+" + Algorithm.VERSION_MARKER))
  {
  }

  lemma AlgIsExactly(scheme: Algorithm.Scheme, e: Encoding, alg: string)
    ensures IsAlg(scheme, e, alg) <==> alg == Algorithm.AlgString(e, Algorithm.SchemeSuffix(scheme))
  {
    AlgRestIs(scheme);
    assert |"base64"| == 6 && |"aes-256-gcm"| == 11;
    hide IsAlgRest, Algorithm.SchemeSuffix;
    var name := Algorithm.EncodingName(e);
    var rest := "+" + (Algorithm.SchemeSuffix(scheme) + "+" + Algorithm.VERSION_MARKER);
    assert Algorithm.AlgString(e, Algorithm.SchemeSuffix(scheme)) == name + rest;
    if IsAlg(scheme, e, alg) {
      AlgRestUnique(scheme, alg[|name|..], rest);
      assert alg == name + alg[|name|..];
    }
  }

  lemma AlgRestUnique(scheme: Algorithm.Scheme, r: string, s: string)
    requires IsAlgRest(scheme, r) && IsAlgRest(scheme, s)
    ensures r == s
  {
  }

  lemma DeclaresExactly(cert: Cert, scheme: Algorithm.Scheme, e: Encoding)
    ensures MachineFile.DeclaredEncoding(cert, scheme) == Some(e) <==> IsAlg(scheme, e, cert.alg)
    ensures scheme == Algorithm.Ed25519Sign ==> (Algorithm.ValidateAlg(cert.alg) == Ok(e) <==> IsAlg(scheme, e, cert.alg))
  {
    hide Algorithm.ParseAlg, Algorithm.AlgString, Algorithm.SchemeSuffix, Algorithm.ValidateAlg, IsAlg;
    AlgIsExactly(scheme, e, cert.alg);
    Algorithm.SuffixIsAFreeField(scheme);
    Algorithm.GrammarExactly(cert.alg, e, Algorithm.SchemeSuffix(scheme));
    Algorithm.LicenseGateIsMachineParserAtEd25519(cert.alg, e);
  }

  // --- What `enc` holds ---------------------------------------------------------------------

  /** A machine file's `enc` holds a payload: as base64, or sealed under the key of both secrets. */
  ghost predicate MachineHolds(lib: Library, enc: string, e: Encoding, secrets: MachineFile.Secrets, payload: Bytes) {
    match e
    case Plain => enc == Base64.Encode(payload)
    case Aes256Gcm =>
      && secrets.licenseKey.Some? && secrets.fingerprint.Some?
      && exists nonce: Bytes, sealed: Bytes ::
        && enc == Base64.Encode(nonce) + "." + Base64.Encode(sealed)
        && |nonce| == 12 && |sealed| >= 16
        && lib.aesOpen(lib.hkdf(Utf8.Encode("tamga:machine-file-key-v1"), Utf8.Encode(secrets.licenseKey.value),
                                Utf8.Encode(secrets.fingerprint.value)), nonce, sealed) == Some(payload)
  }

  /** A licence file's, likewise, but in one blob and under the licence key alone. */
  ghost predicate LicenseHolds(lib: Library, enc: string, e: Encoding, licenseKey: Option<string>, payload: Bytes) {
    match e
    case Plain => enc == Base64.Encode(payload)
    case Aes256Gcm =>
      && licenseKey.Some?
      && exists nonce: Bytes, sealed: Bytes ::
        && enc == Base64.Encode(nonce + sealed)
        && |nonce| == 12 && |sealed| >= 16
        && lib.aesOpen(lib.hkdf(Utf8.Encode("tamga:license-file-key-v1"), Utf8.Encode(licenseKey.value),
                                Utf8.Encode("license-file")), nonce, sealed) == Some(payload)
  }

  lemma MachineOpensExactly(lib: Library, cert: Cert, e: Encoding, secrets: MachineFile.Secrets, payload: Bytes)
    ensures MachineFile.DecodePlaintext(lib, cert, e, secrets.licenseKey, secrets.fingerprint) == Ok(payload)
            <==> MachineHolds(lib, cert.enc, e, secrets, payload)
  {
    hide Base64.Encode, Base64.Decode, Utf8.Encode, MachineFile.OpenHalves;
    DecodesExactly(cert.enc);
    if e == Aes256Gcm && secrets.licenseKey.Some? && secrets.fingerprint.Some? {
      var key := Crypto.MachineFileKey(lib, secrets.licenseKey.value, secrets.fingerprint.value);
      MachineFile.HalvesOpenExactly(lib, cert.enc, key, payload);
    }
  }

  lemma LicenseOpensExactly(lib: Library, cert: Cert, e: Encoding, licenseKey: Option<string>, payload: Bytes)
    ensures LicenseFile.DecodePlaintext(lib, cert, e, licenseKey) == Ok(payload) <==> LicenseHolds(lib, cert.enc, e, licenseKey, payload)
  {
    hide Base64.Encode, Base64.Decode, Utf8.Encode;
    match e
    case Plain =>
      PlainOpensExactly(lib, cert, licenseKey, payload);
    case Aes256Gcm =>
      if licenseKey.Some? {
        hide LicenseFile.DecodePlaintext;
        LicenseFile.BlobOpensExactly(lib, cert, licenseKey.value, payload);
      }
  }

  lemma PlainOpensExactly(lib: Library, cert: Cert, licenseKey: Option<string>, payload: Bytes)
    ensures LicenseFile.DecodePlaintext(lib, cert, Plain, licenseKey) == Ok(payload) <==> cert.enc == Base64.Encode(payload)
  {
    hide Base64.Encode, Base64.Decode, Utf8.Encode;
    DecodesExactly(cert.enc);
  }

  // --- Acceptance -----------------------------------------------------------------------------

  ghost predicate Unexpired(v: Verified, now: int) {
    v.claims.exp.Some? ==> now <= v.claims.exp.value + 60
  }

  /** A machine file is accepted with `v` exactly when it is all this, whoever built it. */
  lemma MachineAcceptedExactly(lib: Library, pem: string, scheme: Algorithm.Scheme, key: Bytes, secrets: MachineFile.Secrets, now: I64, v: Verified)
    ensures MachineFile.VerifyAt(lib, pem, scheme, key, secrets, now) == Ok(v) <==>
            && Unexpired(v, now)
            && exists cert: Cert, e: Encoding, payload: Bytes ::
              && Carries(lib, pem, "MACHINE", cert)
              && IsAlg(scheme, e, cert.alg)
              && SignedBy(lib, scheme, key, cert)
              && MachineHolds(lib, cert.enc, e, secrets, payload)
              && lib.readMachine(payload) == Some(v)
  {
    hide ParseEnvelope, MachineFile.VerifyAt, MachineFile.DecodePlaintext, MachineFile.DeclaredEncoding, MachineFile.Vouches,
         IsAlg, SignedBy, MachineHolds, Carries;
    MachineFile.VerifyAtExactly(lib, pem, scheme, key, secrets, now, v);
    if MachineFile.VerifyAt(lib, pem, scheme, key, secrets, now) == Ok(v) {
      var cert := MachineFile.Parse(lib, pem).value;
      var e := MachineFile.DeclaredEncoding(cert, scheme).value;
      var payload := MachineFile.DecodePlaintext(lib, cert, e, secrets.licenseKey, secrets.fingerprint).value;
      MachineParts(lib, pem, scheme, key, secrets, cert, e, payload);
    }
    if cert: Cert, e: Encoding, payload: Bytes :|
        && Carries(lib, pem, "MACHINE", cert)
        && IsAlg(scheme, e, cert.alg)
        && SignedBy(lib, scheme, key, cert)
        && MachineHolds(lib, cert.enc, e, secrets, payload)
        && lib.readMachine(payload) == Some(v)
    {
      MachineParts(lib, pem, scheme, key, secrets, cert, e, payload);
    }
  }

  lemma MachineParts(lib: Library, pem: string, scheme: Algorithm.Scheme, key: Bytes, secrets: MachineFile.Secrets,
                     cert: Cert, e: Encoding, payload: Bytes)
    ensures MachineFile.Parse(lib, pem) == Ok(cert) <==> Carries(lib, pem, "MACHINE", cert)
    ensures MachineFile.Vouches(lib, scheme, key, cert) <==> SignedBy(lib, scheme, key, cert)
    ensures MachineFile.DeclaredEncoding(cert, scheme) == Some(e) <==> IsAlg(scheme, e, cert.alg)
    ensures MachineFile.DecodePlaintext(lib, cert, e, secrets.licenseKey, secrets.fingerprint) == Ok(payload)
            <==> MachineHolds(lib, cert.enc, e, secrets, payload)
  {
    hide ParseEnvelope, Framed, Text.Tight, Base64.Encode;
    RoundTrip.MarkersAreTight();
    Markers();
    ParsesExactly(lib, pem, MachineFile.PEM_HEADER, MachineFile.PEM_FOOTER, cert);
    hide *;
    VouchesExactly(lib, scheme, key, cert);
    DeclaresExactly(cert, scheme, e);
    MachineOpensExactly(lib, cert, e, secrets, payload);
  }

  /** A licence file likewise; it is always Ed25519-signed. */
  lemma LicenseAcceptedExactly(lib: Library, pem: string, key: Key32, licenseKey: Option<string>, now: I64, v: Verified)
    ensures LicenseFile.VerifyAt(lib, pem, key, licenseKey, now) == Ok(v) <==>
            && Unexpired(v, now)
            && exists cert: Cert, e: Encoding, payload: Bytes ::
              && Carries(lib, pem, "LICENSE", cert)
              && IsAlg(Algorithm.Ed25519Sign, e, cert.alg)
              && SignedBy(lib, Algorithm.Ed25519Sign, key, cert)
              && LicenseHolds(lib, cert.enc, e, licenseKey, payload)
              && lib.readLicense(payload) == Some(v)
  {
    hide ParseEnvelope, LicenseFile.VerifyAt, LicenseFile.DecodePlaintext, Algorithm.ValidateAlg, LicenseFile.Vouches,
         IsAlg, SignedBy, LicenseHolds, Carries;
    LicenseFile.VerifyAtExactly(lib, pem, key, licenseKey, now, v);
    if LicenseFile.VerifyAt(lib, pem, key, licenseKey, now) == Ok(v) {
      var cert := LicenseFile.Parse(lib, pem).value;
      var e := Algorithm.ValidateAlg(cert.alg).value;
      var payload := LicenseFile.DecodePlaintext(lib, cert, e, licenseKey).value;
      LicenseParts(lib, pem, key, licenseKey, cert, e, payload);
    }
    if cert: Cert, e: Encoding, payload: Bytes :|
        && Carries(lib, pem, "LICENSE", cert)
        && IsAlg(Algorithm.Ed25519Sign, e, cert.alg)
        && SignedBy(lib, Algorithm.Ed25519Sign, key, cert)
        && LicenseHolds(lib, cert.enc, e, licenseKey, payload)
        && lib.readLicense(payload) == Some(v)
    {
      LicenseParts(lib, pem, key, licenseKey, cert, e, payload);
    }
  }

  lemma LicenseParts(lib: Library, pem: string, key: Key32, licenseKey: Option<string>, cert: Cert, e: Encoding, payload: Bytes)
    ensures LicenseFile.Parse(lib, pem) == Ok(cert) <==> Carries(lib, pem, "LICENSE", cert)
    ensures LicenseFile.Vouches(lib, key, cert) <==> SignedBy(lib, Algorithm.Ed25519Sign, key, cert)
    ensures Algorithm.ValidateAlg(cert.alg) == Ok(e) <==> IsAlg(Algorithm.Ed25519Sign, e, cert.alg)
    ensures LicenseFile.DecodePlaintext(lib, cert, e, licenseKey) == Ok(payload) <==> LicenseHolds(lib, cert.enc, e, licenseKey, payload)
  {
    hide ParseEnvelope, Framed, Text.Tight, Base64.Encode;
    RoundTrip.MarkersAreTight();
    Markers();
    ParsesExactly(lib, pem, LicenseFile.PEM_HEADER, LicenseFile.PEM_FOOTER, cert);
    hide *;
    VouchesExactly(lib, Algorithm.Ed25519Sign, key, cert);
    DeclaresExactly(cert, Algorithm.Ed25519Sign, e);
    LicenseOpensExactly(lib, cert, e, licenseKey, payload);
  }

  // --- Refusal --------------------------------------------------------------------------------

  /** What a signature that does not verify is reported as: a bad key before a bad signature, that before a mismatch. */
  function SignatureFault(lib: Library, scheme: Algorithm.Scheme, key: Bytes, signature: Bytes): Crypto.Error {
    if scheme != Algorithm.Ed25519Sign then Crypto.VerificationFailed
    else if |key| != 32 || !lib.edKeyValid(key) then Crypto.InvalidKey
    else if |signature| != 64 then Crypto.InvalidSignature
    else Crypto.VerificationFailed
  }

  lemma ChecksAs(lib: Library, scheme: Algorithm.Scheme, key: Bytes, message: Bytes, signature: Bytes)
    requires scheme != Algorithm.Rsa2048JwtRs256
    ensures MachineFile.CheckSignature(lib, scheme, key, message, signature)
            == if Verifies(lib, scheme, key, message, signature) then Ok(()) else Err(FromCrypto(SignatureFault(lib, scheme, key, signature)))
  {
  }

  /** An `alg` of the right form, under whatever suffix. */
  ghost predicate IsAlgOf(alg: string, suffix: string) {
    suffix != "" && '+' !in suffix && (alg == "base64" + "+" + suffix + "+v2" || alg == "aes-256-gcm" + "+" + suffix + "+v2")
  }

  lemma AlgFormExactly(alg: string, suffix: string)
    ensures IsAlgOf(alg, suffix) <==> Algorithm.ParseAlg(alg).Ok? && Algorithm.ParseAlg(alg).value.1 == suffix
  {
    hide Algorithm.ParseAlg;
    assert Algorithm.AlgString(Plain, suffix) == "base64" + "+" + suffix + "+v2";
    assert Algorithm.AlgString(Aes256Gcm, suffix) == "aes-256-gcm" + "+" + suffix + "+v2";
    hide Algorithm.AlgString;
    Algorithm.GrammarExactly(alg, Plain, suffix);
    Algorithm.GrammarExactly(alg, Aes256Gcm, suffix);
    if Algorithm.ParseAlg(alg).Ok? {
      var (e, t) := Algorithm.ParseAlg(alg).value;
      assert e == Plain || e == Aes256Gcm;
    }
  }

  /** What becomes of a payload once it is open. */
  function Concluded(payload: Option<Verified>, now: int): Result<Verified, Error> {
    match payload
    case None => Err(InvalidJson)
    case Some(v) => if v.claims.exp.Some? && now > v.claims.exp.value + 60 then Err(Expired(v.claims.exp.value)) else Ok(v)
  }

  /**
   * A machine file's refusals, first fault first: a scheme the reader does not check, the envelope, an `alg` of
   * another form, one of another scheme, a signature that is not base64, one that does not verify, an `enc`
   * that does not open, a payload that does not parse, an expired one.
   */
  lemma MachineRefusedExactly(lib: Library, pem: string, scheme: Algorithm.Scheme, key: Bytes, secrets: MachineFile.Secrets, now: I64)
    ensures var r, envelope := MachineFile.VerifyAt(lib, pem, scheme, key, secrets, now), MachineFile.Parse(lib, pem);
            if scheme == Algorithm.Rsa2048JwtRs256 then r == Err(SchemeNotSupported)
            else if envelope.Err? then r == Err(envelope.error)
            else
              var cert := envelope.value;
              && ((forall suffix :: !IsAlgOf(cert.alg, suffix)) ==> r == Err(UnsupportedAlgorithm(NotAnAlgorithm(cert.alg))))
              && (forall suffix :: IsAlgOf(cert.alg, suffix) ==>
                    if suffix != Algorithm.SchemeSuffix(scheme) then
                      r == Err(UnsupportedAlgorithm(SuffixNotOfScheme(suffix, Algorithm.SchemeSuffix(scheme))))
                    else if !IsBase64(cert.sig) then r == Err(InvalidBase64)
                    else
                      forall signature: Bytes :: cert.sig == Base64.Encode(signature) ==>
                        if !Verifies(lib, scheme, key, Utf8.Encode(cert.enc), signature) then
                          r == Err(FromCrypto(SignatureFault(lib, scheme, key, signature)))
                        else r == MachineOpened(lib, cert, secrets, now))
  {
    hide MachineFile.Parse, Algorithm.ParseAlg, IsAlgOf, IsBase64, Base64.Encode, Base64.Decode, Verifies, SignatureFault, Utf8.Encode,
         MachineFile.CheckSignature, MachineFile.DecodePlaintext, Algorithm.SchemeSuffix;
    if scheme != Algorithm.Rsa2048JwtRs256 && MachineFile.Parse(lib, pem).Ok? {
      var cert := MachineFile.Parse(lib, pem).value;
      forall suffix
        ensures IsAlgOf(cert.alg, suffix) <==> Algorithm.ParseAlg(cert.alg).Ok? && Algorithm.ParseAlg(cert.alg).value.1 == suffix
      {
        AlgFormExactly(cert.alg, suffix);
      }
      Algorithm.RefusalNamesTheString(cert.alg);
      assert Algorithm.ParseAlg(cert.alg).Ok? ==> IsAlgOf(cert.alg, Algorithm.ParseAlg(cert.alg).value.1);
      IsBase64Exactly(cert.sig);
      forall signature: Bytes | cert.sig == Base64.Encode(signature)
        ensures Base64.Decode(cert.sig) == Some(signature)
      {
        Base64.DecodeOfEncode(signature);
      }
      if Base64.Decode(cert.sig).Some? {
        ChecksAs(lib, scheme, key, Utf8.Encode(cert.enc), Base64.Decode(cert.sig).value);
      }
      FinishConcludes(now);
    }
  }

  lemma FinishConcludes(now: I64)
    ensures forall payload :: Finish(payload, now) == Concluded(payload, now)
  {
  }

  /** What a vouched-for machine file comes to, by the encoding its `alg` names. */
  ghost function MachineOpened(lib: Library, cert: Cert, secrets: MachineFile.Secrets, now: int): Result<Verified, Error> {
    var e :- if Algorithm.ParseAlg(cert.alg).Ok? then Ok(Algorithm.ParseAlg(cert.alg).value.0) else Err(UnsupportedAlgorithm(NotAnAlgorithm(cert.alg)));
    var plaintext :- MachineFile.DecodePlaintext(lib, cert, e, secrets.licenseKey, secrets.fingerprint);
    Concluded(lib.readMachine(plaintext), now)
  }

  /** Why a machine file's `enc` does not open: what is plain is not base64, a secret is missing, there is no dot, or the halves are at fault. */
  lemma MachineOpeningRefusals(lib: Library, cert: Cert, e: Encoding, secrets: MachineFile.Secrets)
    ensures var r := MachineFile.DecodePlaintext(lib, cert, e, secrets.licenseKey, secrets.fingerprint);
            r.Err? ==>
              if e == Plain then r.error == InvalidBase64 && !IsBase64(cert.enc)
              else if secrets.licenseKey.None? then r.error == LicenseKeyMissing
              else if secrets.fingerprint.None? then r.error == FingerprintMissing
              else if '.' !in cert.enc then r.error == FromCrypto(Crypto.DecryptionFailed)
              else
                forall left, right :: cert.enc == left + "." + right && '.' !in left ==> r.error == HalvesFault(left, right)
  {
    hide Base64.Decode, Utf8.Encode, IsBase64, Text.SplitOnce, HalvesFault;
    IsBase64Exactly(cert.enc);
    if e == Aes256Gcm && secrets.licenseKey.Some? && secrets.fingerprint.Some? {
      forall left, right | cert.enc == left + "." + right && '.' !in left
        ensures MachineFile.OpenHalves(lib, cert.enc, Crypto.MachineFileKey(lib, secrets.licenseKey.value, secrets.fingerprint.value)).Err? ==>
                  MachineFile.OpenHalves(lib, cert.enc, Crypto.MachineFileKey(lib, secrets.licenseKey.value, secrets.fingerprint.value)).error
                  == HalvesFault(left, right)
      {
        HalvesRefused(lib, left, right, Crypto.MachineFileKey(lib, secrets.licenseKey.value, secrets.fingerprint.value));
      }
    }
  }

  ghost predicate IsNonce(s: string) {
    exists nonce: Bytes :: s == Base64.Encode(nonce) && |nonce| == 12
  }

  /** The first half is looked at before the second, and its base64 before its length. */
  ghost function HalvesFault(left: string, right: string): Error {
    if !IsBase64(left) || (IsNonce(left) && !IsBase64(right)) then InvalidBase64 else FromCrypto(Crypto.DecryptionFailed)
  }

  lemma HalvesRefused(lib: Library, left: string, right: string, key: Key32)
    requires '.' !in left
    ensures var r := MachineFile.OpenHalves(lib, left + "." + right, key); r.Err? ==> r.error == HalvesFault(left, right)
  {
    hide Base64.Encode, Base64.Decode, IsBase64, Text.SplitOnce;
    Text.SplitOnceAt(left, right, '.');
    assert left + ['.'] + right == left + "." + right;
    IsBase64Exactly(left);
    IsBase64Exactly(right);
    DecodesExactly(left);
    assert IsNonce(left) <==> Base64.Decode(left).Some? && |Base64.Decode(left).value| == 12;
  }

  /** A licence file's refusals, first fault first, likewise. */
  lemma LicenseRefusedExactly(lib: Library, pem: string, key: Key32, licenseKey: Option<string>, now: I64)
    ensures var r, envelope := LicenseFile.VerifyAt(lib, pem, key, licenseKey, now), LicenseFile.Parse(lib, pem);
            if envelope.Err? then r == Err(envelope.error)
            else
              var cert := envelope.value;
              && ((forall e :: !IsAlg(Algorithm.Ed25519Sign, e, cert.alg)) ==> r == Err(UnsupportedAlgorithm(NotAnAlgorithm(cert.alg))))
              && (forall e :: IsAlg(Algorithm.Ed25519Sign, e, cert.alg) ==>
                    if !IsBase64(cert.sig) then r == Err(InvalidBase64)
                    else
                      forall signature: Bytes :: cert.sig == Base64.Encode(signature) ==>
                        if !Verifies(lib, Algorithm.Ed25519Sign, key, Utf8.Encode(cert.enc), signature) then
                          r == Err(FromCrypto(SignatureFault(lib, Algorithm.Ed25519Sign, key, signature)))
                        else r == LicenseOpened(lib, cert, e, licenseKey, now))
  {
    hide LicenseFile.Parse, Algorithm.ValidateAlg, IsAlg, IsBase64, Base64.Encode, Base64.Decode, Verifies, SignatureFault, Utf8.Encode,
         Crypto.EdVerify, LicenseFile.DecodePlaintext;
    if LicenseFile.Parse(lib, pem).Ok? {
      var cert := LicenseFile.Parse(lib, pem).value;
      forall e
        ensures Algorithm.ValidateAlg(cert.alg) == Ok(e) <==> IsAlg(Algorithm.Ed25519Sign, e, cert.alg)
      {
        DeclaresExactly(cert, Algorithm.Ed25519Sign, e);
      }
      Algorithm.RefusalNamesTheString(cert.alg);
      IsBase64Exactly(cert.sig);
      forall signature: Bytes | cert.sig == Base64.Encode(signature)
        ensures Base64.Decode(cert.sig) == Some(signature)
      {
        Base64.DecodeOfEncode(signature);
      }
      if Base64.Decode(cert.sig).Some? {
        ChecksAs(lib, Algorithm.Ed25519Sign, key, Utf8.Encode(cert.enc), Base64.Decode(cert.sig).value);
      }
      FinishConcludes(now);
    }
  }

  ghost function LicenseOpened(lib: Library, cert: Cert, e: Encoding, licenseKey: Option<string>, now: int): Result<Verified, Error> {
    var plaintext :- LicenseFile.DecodePlaintext(lib, cert, e, licenseKey);
    Concluded(lib.readLicense(plaintext), now)
  }

  /** Why a licence file's `enc` does not open: it is not base64 - looked at before the licence key is missed -, too short, or not what was sealed. */
  lemma LicenseOpeningRefusals(lib: Library, cert: Cert, e: Encoding, licenseKey: Option<string>)
    ensures var r := LicenseFile.DecodePlaintext(lib, cert, e, licenseKey);
            r.Err? ==> r.error == if !IsBase64(cert.enc) then InvalidBase64
                                  else if licenseKey.None? then LicenseKeyMissing
                                  else FromCrypto(Crypto.DecryptionFailed)
  {
    hide Base64.Encode, Base64.Decode, Utf8.Encode, IsBase64;
    IsBase64Exactly(cert.enc);
  }

  // --- Under a key set --------------------------------------------------------------------------

  ghost predicate SomeVerifies(lib: Library, held: KeySet.SigningKeySet, message: Bytes, signature: Bytes) {
    exists i :: 0 <= i < |held.entries| && Verifies(lib, Algorithm.Ed25519Sign, held.entries[i].1, message, signature)
  }

  ghost predicate SomeKeyIsValid(lib: Library, held: KeySet.SigningKeySet) {
    exists i :: 0 <= i < |held.entries| && lib.edKeyValid(held.entries[i].1)
  }

  /** How the search over the held keys ends: cut short, without a key, or with one. */
  lemma SearchEnds(lib: Library, held: KeySet.SigningKeySet, message: Bytes, signature: Bytes)
    ensures var r := KeySet.FindVerifying(lib, held.Keys(), message, signature);
            if |signature| != 64 && SomeKeyIsValid(lib, held) then r == Err(Crypto.InvalidSignature)
            else r.Ok? && (r.value.Some? <==> SomeVerifies(lib, held, message, signature))
  {
    hide KeySet.FindVerifying;
    KeySet.SearchVerdict(lib, held.Keys(), message, signature);
    assert |held.Keys()| == |held.entries|;
    forall i | 0 <= i < |held.entries|
      ensures held.Keys()[i] == held.entries[i].1
      ensures Crypto.EdTrusts(lib, held.Keys()[i], message, signature)
              <==> Verifies(lib, Algorithm.Ed25519Sign, held.entries[i].1, message, signature)
    {
    }
    assert KeySet.SomeValid(lib, held.Keys()) <==> SomeKeyIsValid(lib, held);
    assert KeySet.SomeTrusts(lib, held.Keys(), message, signature) <==> SomeVerifies(lib, held, message, signature);
  }

  /** The whole outcome of a licence file under a key set, first fault first. */
  lemma LicenseKeySetOutcome(lib: Library, pem: string, held: KeySet.SigningKeySet, licenseKey: Option<string>, now: I64)
    ensures var r, envelope := LicenseFile.VerifyWithKeySetAt(lib, pem, held, licenseKey, now), LicenseFile.Parse(lib, pem);
            if envelope.Err? then r == Err(envelope.error)
            else
              var cert := envelope.value;
              && ((forall e :: !IsAlg(Algorithm.Ed25519Sign, e, cert.alg)) ==> r == Err(UnsupportedAlgorithm(NotAnAlgorithm(cert.alg))))
              && (forall e :: IsAlg(Algorithm.Ed25519Sign, e, cert.alg) ==>
                    if !IsBase64(cert.sig) then r == Err(InvalidBase64)
                    else
                      forall signature: Bytes :: cert.sig == Base64.Encode(signature) ==>
                        if |signature| != 64 && SomeKeyIsValid(lib, held) then r == Err(FromCrypto(Crypto.InvalidSignature))
                        else if SomeVerifies(lib, held, Utf8.Encode(cert.enc), signature) then r == LicenseOpened(lib, cert, e, licenseKey, now)
                        else r == Err(KeySet.LabelFailure(lib, held, LicenseFile.DecodePlaintext(lib, cert, e, licenseKey))))
  {
    hide LicenseFile.Parse, Algorithm.ValidateAlg, IsAlg, IsBase64, Base64.Encode, Base64.Decode, Utf8.Encode, SomeVerifies, SomeKeyIsValid,
         KeySet.FindVerifying, KeySet.LabelFailure, LicenseFile.DecodePlaintext;
    if LicenseFile.Parse(lib, pem).Ok? {
      var cert := LicenseFile.Parse(lib, pem).value;
      forall e
        ensures Algorithm.ValidateAlg(cert.alg) == Ok(e) <==> IsAlg(Algorithm.Ed25519Sign, e, cert.alg)
      {
        DeclaresExactly(cert, Algorithm.Ed25519Sign, e);
      }
      Algorithm.RefusalNamesTheString(cert.alg);
      IsBase64Exactly(cert.sig);
      forall signature: Bytes | cert.sig == Base64.Encode(signature)
        ensures Base64.Decode(cert.sig) == Some(signature)
      {
        Base64.DecodeOfEncode(signature);
      }
      if Base64.Decode(cert.sig).Some? {
        SearchEnds(lib, held, Utf8.Encode(cert.enc), Base64.Decode(cert.sig).value);
      }
      FinishConcludes(now);
    }
  }

  /** The whole outcome of a machine file under a key set, likewise. */
  lemma MachineKeySetOutcome(lib: Library, pem: string, held: KeySet.SigningKeySet, secrets: MachineFile.Secrets, now: I64)
    ensures var r, envelope := MachineFile.VerifyWithKeySetAt(lib, pem, held, secrets, now), MachineFile.Parse(lib, pem);
            if envelope.Err? then r == Err(envelope.error)
            else
              var cert := envelope.value;
              && ((forall suffix :: !IsAlgOf(cert.alg, suffix)) ==> r == Err(UnsupportedAlgorithm(NotAnAlgorithm(cert.alg))))
              && (forall suffix :: IsAlgOf(cert.alg, suffix) ==>
                    if suffix != "ed25519" then r == Err(UnsupportedAlgorithm(SuffixNotOfKeySet(suffix, "ed25519")))
                    else if !IsBase64(cert.sig) then r == Err(InvalidBase64)
                    else
                      forall signature: Bytes :: cert.sig == Base64.Encode(signature) ==>
                        if |signature| != 64 && SomeKeyIsValid(lib, held) then r == Err(FromCrypto(Crypto.InvalidSignature))
                        else if SomeVerifies(lib, held, Utf8.Encode(cert.enc), signature) then r == MachineOpened(lib, cert, secrets, now)
                        else
                          forall e :: IsAlg(Algorithm.Ed25519Sign, e, cert.alg) ==>
                            r == Err(KeySet.LabelFailure(lib, held,
                                       MachineFile.DecodePlaintext(lib, cert, e, secrets.licenseKey, secrets.fingerprint))))
  {
    hide MachineFile.Parse, Algorithm.ParseAlg, IsAlg, IsAlgOf, IsBase64, Base64.Encode, Base64.Decode, Utf8.Encode, SomeVerifies, SomeKeyIsValid,
         KeySet.FindVerifying, KeySet.LabelFailure, MachineFile.DecodePlaintext;
    if MachineFile.Parse(lib, pem).Ok? {
      var cert := MachineFile.Parse(lib, pem).value;
      forall suffix
        ensures IsAlgOf(cert.alg, suffix) <==> Algorithm.ParseAlg(cert.alg).Ok? && Algorithm.ParseAlg(cert.alg).value.1 == suffix
      {
        AlgFormExactly(cert.alg, suffix);
      }
      forall e
        ensures MachineFile.DeclaredEncoding(cert, Algorithm.Ed25519Sign) == Some(e) <==> IsAlg(Algorithm.Ed25519Sign, e, cert.alg)
      {
        DeclaresExactly(cert, Algorithm.Ed25519Sign, e);
      }
      Algorithm.RefusalNamesTheString(cert.alg);
      assert Algorithm.ParseAlg(cert.alg).Ok? ==> IsAlgOf(cert.alg, Algorithm.ParseAlg(cert.alg).value.1);
      IsBase64Exactly(cert.sig);
      forall signature: Bytes | cert.sig == Base64.Encode(signature)
        ensures Base64.Decode(cert.sig) == Some(signature)
      {
        Base64.DecodeOfEncode(signature);
      }
      if Base64.Decode(cert.sig).Some? {
        SearchEnds(lib, held, Utf8.Encode(cert.enc), Base64.Decode(cert.sig).value);
      }
      FinishConcludes(now);
    }
  }

  /** A forged file that names the `kid` of an embedded key is reported as a failed verification, in both formats. */
  lemma ForgeryUnderHeldKid(lib: Library, publicKeys: seq<string>, i: nat, kid: string, pem: string, licenseKey: Option<string>,
                            secrets: MachineFile.Secrets, now: I64)
    requires KeySet.StrictSet(lib, publicKeys).Ok? && i < |publicKeys| && KeySet.IsKidOf(lib, kid, publicKeys[i])
    ensures var held := KeySet.StrictSet(lib, publicKeys).value;
            var probe := LicenseFile.UnverifiedProbe(lib, pem, held, licenseKey);
            probe.Some? && KeySet.ProbedKid(lib, probe.value) == Some(kid) ==>
              LicenseFile.VerifyWithKeySetAt(lib, pem, held, licenseKey, now) == Err(FromCrypto(Crypto.VerificationFailed))
    ensures var held := KeySet.StrictSet(lib, publicKeys).value;
            var probe := MachineFile.UnverifiedProbe(lib, pem, held, secrets);
            probe.Some? && KeySet.ProbedKid(lib, probe.value) == Some(kid) ==>
              MachineFile.VerifyWithKeySetAt(lib, pem, held, secrets, now) == Err(FromCrypto(Crypto.VerificationFailed))
  {
    hide *;
    var held := KeySet.StrictSet(lib, publicKeys).value;
    var p, q := LicenseFile.UnverifiedProbe(lib, pem, held, licenseKey), MachineFile.UnverifiedProbe(lib, pem, held, secrets);
    if p.Some? && KeySet.ProbedKid(lib, p.value) == Some(kid) {
      LicenseFile.UnverifiedOutcome(lib, pem, held, licenseKey, now);
      KeySet.HeldKidIsNotStale(lib, publicKeys, i, kid, p.value);
    }
    if q.Some? && KeySet.ProbedKid(lib, q.value) == Some(kid) {
      MachineFile.UnverifiedOutcome(lib, pem, held, secrets, now);
      KeySet.HeldKidIsNotStale(lib, publicKeys, i, kid, q.value);
    }
  }
}
