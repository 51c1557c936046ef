/** Files built in the server's layouts, and what the verifiers make of them. */
module RoundTrip {
  import opened Outcomes
  import opened Words
  import opened Foreign
  import opened Checkout
  import Algorithm
  import Base64
  import Crypto
  import KeySet
  import Json
  import JsonReader
  import LicenseFile
  import MachineFile
  import Text
  import Utf8

  /** The server's side of the foreign code: AES-GCM seal, a signer, and the certificate's JSON writer. */
  datatype Issuer = Issuer(
    seal: (Bytes, Bytes, Bytes) -> Bytes,
    sign: Bytes -> Bytes,
    writeCert: Cert -> Bytes
  )

  ghost predicate OpensWhatItSeals(lib: Library, issuer: Issuer) {
    forall k, n, p :: |k| == 32 && |n| == Crypto.NONCE_LEN ==>
                        && lib.aesOpen(k, n, issuer.seal(k, n, p)) == Some(p)
                        && |issuer.seal(k, n, p)| == |p| + Crypto.TAG_LEN
  }

  ghost predicate ReadsWhatItWrites(lib: Library, issuer: Issuer) {
    forall c :: lib.readCert(issuer.writeCert(c)) == Some(c)
  }

  ghost predicate VerifiesWhatItSigns(lib: Library, issuer: Issuer, scheme: Algorithm.Scheme, key: Bytes) {
    forall m :: MachineFile.Trusts(lib, scheme, key, m, issuer.sign(m))
  }

  /** Whitespace a file may pick up around its markers and its body. */
  datatype Margins = Margins(before: string, gap1: string, gap2: string, after: string) {
    predicate Blank() {
      Text.All(before, IsWhitespace) && Text.All(gap1, IsWhitespace) && Text.All(gap2, IsWhitespace) && Text.All(after, IsWhitespace)
    }
  }

  function Wrap(header: string, footer: string, json: Bytes, m: Margins): string {
    m.before + (header + (m.gap1 + Base64.Encode(json) + m.gap2) + footer) + m.after
  }

  /** `enc` of a machine file: sealed under the licence key and the fingerprint, it is two base64 halves around a dot. */
  function MachineEnc(lib: Library, issuer: Issuer, e: Encoding, payload: Bytes, nonce: Bytes, licenseKey: string, fingerprint: string): string {
    match e
    case Plain => Base64.Encode(payload)
    case Aes256Gcm =>
      var key := lib.hkdf(Utf8.Encode("tamga:machine-file-key-v1"), Utf8.Encode(licenseKey), Utf8.Encode(fingerprint));
      Base64.Encode(nonce) + "." + Base64.Encode(issuer.seal(key, nonce, payload))
  }

  /** `enc` of a licence file: sealed under the licence key alone, it is one blob. */
  function LicenseEnc(lib: Library, issuer: Issuer, e: Encoding, payload: Bytes, nonce: Bytes, licenseKey: string): string {
    match e
    case Plain => Base64.Encode(payload)
    case Aes256Gcm =>
      var key := lib.hkdf(Utf8.Encode("tamga:license-file-key-v1"), Utf8.Encode(licenseKey), Utf8.Encode("license-file"));
      Base64.Encode(nonce + issuer.seal(key, nonce, payload))
  }

  function Certify(issuer: Issuer, enc: string, alg: string): Cert {
    Cert(enc, Base64.Encode(issuer.sign(Utf8.Encode(enc))), alg)
  }

  function MachineCert(lib: Library, issuer: Issuer, scheme: Algorithm.Scheme, e: Encoding, payload: Bytes, nonce: Bytes,
                       licenseKey: string, fingerprint: string): Cert
  {
    Certify(issuer, MachineEnc(lib, issuer, e, payload, nonce, licenseKey, fingerprint),
            Algorithm.AlgString(e, Algorithm.SchemeSuffix(scheme)))
  }

  function LicenseCert(lib: Library, issuer: Issuer, e: Encoding, payload: Bytes, nonce: Bytes, licenseKey: string): Cert {
    Certify(issuer, LicenseEnc(lib, issuer, e, payload, nonce, licenseKey), Algorithm.AlgString(e, "ed25519"))
  }

  function IssueMachineFile(lib: Library, issuer: Issuer, scheme: Algorithm.Scheme, e: Encoding, payload: Bytes, nonce: Bytes,
                            licenseKey: string, fingerprint: string, m: Margins): string
  {
    Wrap(MachineFile.PEM_HEADER, MachineFile.PEM_FOOTER,
         issuer.writeCert(MachineCert(lib, issuer, scheme, e, payload, nonce, licenseKey, fingerprint)), m)
  }

  function IssueLicenseFile(lib: Library, issuer: Issuer, e: Encoding, payload: Bytes, nonce: Bytes, licenseKey: string, m: Margins): string {
    Wrap(LicenseFile.PEM_HEADER, LicenseFile.PEM_FOOTER, issuer.writeCert(LicenseCert(lib, issuer, e, payload, nonce, licenseKey)), m)
  }

  lemma EnvelopeRoundTrip(lib: Library, issuer: Issuer, header: string, footer: string, cert: Cert, m: Margins)
    requires ReadsWhatItWrites(lib, issuer) && m.Blank()
    requires header != "" && footer != "" && Text.Tight(header, IsWhitespace) && Text.Tight(footer, IsWhitespace)
    ensures ParseEnvelope(lib, Wrap(header, footer, issuer.writeCert(cert), m), header, footer) == Ok(cert)
  {
    hide IsWhitespace, PemBody, Base64.Encode, Base64.Decode, Text.Tight, Text.All;
    var json := issuer.writeCert(cert);
    EncodingIsTight(json);
    PemRoundTrip(m.before, header, m.gap1, Base64.Encode(json), m.gap2, footer, m.after);
    Base64.DecodeOfEncode(json);
  }

  lemma MarkersAreTight()
    ensures Text.Tight(MachineFile.PEM_HEADER, IsWhitespace) && Text.Tight(MachineFile.PEM_FOOTER, IsWhitespace)
    ensures Text.Tight(LicenseFile.PEM_HEADER, IsWhitespace) && Text.Tight(LicenseFile.PEM_FOOTER, IsWhitespace)
    ensures MachineFile.PEM_HEADER != "" && MachineFile.PEM_FOOTER != ""
    ensures LicenseFile.PEM_HEADER != "" && LicenseFile.PEM_FOOTER != ""
  {
  }

  /** What a machine file encloses is opened to exactly the payload. */
  lemma MachineEncOpens(lib: Library, issuer: Issuer, e: Encoding, payload: Bytes, nonce: Bytes,
                        licenseKey: string, fingerprint: string, cert: Cert)
    requires OpensWhatItSeals(lib, issuer) && |nonce| == Crypto.NONCE_LEN
    requires cert.enc == MachineEnc(lib, issuer, e, payload, nonce, licenseKey, fingerprint)
    ensures MachineFile.DecodePlaintext(lib, cert, e, Some(licenseKey), Some(fingerprint)) == Ok(payload)
  {
    hide Base64.Encode, Base64.Decode, Utf8.Encode, Text.SplitOnce;
    match e
    case Plain => Base64.DecodeOfEncode(payload);
    case Aes256Gcm =>
      var key := Crypto.MachineFileKey(lib, licenseKey, fingerprint);
      var sealed := issuer.seal(key, nonce, payload);
      Base64.EncodingHasNoDot(nonce);
      Text.SplitOnceAt(Base64.Encode(nonce), Base64.Encode(sealed), '.');
      Base64.DecodeOfEncode(nonce);
      Base64.DecodeOfEncode(sealed);
  }

  /** What a licence file encloses is opened to exactly the payload. */
  lemma LicenseEncOpens(lib: Library, issuer: Issuer, e: Encoding, payload: Bytes, nonce: Bytes, licenseKey: string, cert: Cert)
    requires OpensWhatItSeals(lib, issuer) && |nonce| == Crypto.NONCE_LEN
    requires cert.enc == LicenseEnc(lib, issuer, e, payload, nonce, licenseKey)
    ensures LicenseFile.DecodePlaintext(lib, cert, e, Some(licenseKey)) == Ok(payload)
  {
    hide Base64.Encode, Base64.Decode, Utf8.Encode;
    match e
    case Plain => Base64.DecodeOfEncode(payload);
    case Aes256Gcm =>
      var sealed := issuer.seal(Crypto.LicenseFileKey(lib, licenseKey), nonce, payload);
      Base64.DecodeOfEncode(nonce + sealed);
      assert (nonce + sealed)[..Crypto.NONCE_LEN] == nonce && (nonce + sealed)[Crypto.NONCE_LEN..] == sealed;
  }

  /** A certificate as issued declares its encoding and scheme, and the issuer's key vouches for it. */
  lemma CertifiedIsVouched(lib: Library, issuer: Issuer, scheme: Algorithm.Scheme, key: Bytes, e: Encoding, enc: string)
    requires VerifiesWhatItSigns(lib, issuer, scheme, key)
    ensures var cert := Certify(issuer, enc, Algorithm.AlgString(e, Algorithm.SchemeSuffix(scheme)));
            MachineFile.DeclaredEncoding(cert, scheme) == Some(e) && MachineFile.Vouches(lib, scheme, key, cert)
  {
    hide Base64.Encode, Base64.Decode, Utf8.Encode, Algorithm.ParseAlg, Algorithm.AlgString, Algorithm.SchemeSuffix, MachineFile.Trusts;
    Algorithm.SuffixIsAFreeField(scheme);
    Algorithm.ParseOfAlgString(e, Algorithm.SchemeSuffix(scheme));
    Base64.DecodeOfEncode(issuer.sign(Utf8.Encode(enc)));
  }

  /**
   * For every payload, supported scheme, encoding and margin, the verifier decodes the server's file to
   * that payload: only its JSON and its expiry are left to decide the outcome.
   */
  lemma MachineFileRoundTrip(lib: Library, issuer: Issuer, scheme: Algorithm.Scheme, key: Bytes, e: Encoding, payload: Bytes, nonce: Bytes,
                             licenseKey: string, fingerprint: string, m: Margins, now: I64)
    requires OpensWhatItSeals(lib, issuer) && ReadsWhatItWrites(lib, issuer) && VerifiesWhatItSigns(lib, issuer, scheme, key)
    requires scheme != Algorithm.Rsa2048JwtRs256 && |nonce| == Crypto.NONCE_LEN && m.Blank()
    ensures MachineFile.VerifyAt(lib, IssueMachineFile(lib, issuer, scheme, e, payload, nonce, licenseKey, fingerprint, m),
                                 scheme, key, MachineFile.Secrets(Some(licenseKey), Some(fingerprint)), now)
            == Finish(lib.readMachine(payload), now)
  {
    hide Base64.Decode, Algorithm.ParseAlg, Algorithm.SchemeSuffix, ParseEnvelope, Certify,
         Wrap, MachineFile.DecodePlaintext, MachineEnc, Finish, MachineFile.CheckSignature, MachineFile.Trusts, MachineFile.SignedBytes;
    var cert := MachineCert(lib, issuer, scheme, e, payload, nonce, licenseKey, fingerprint);
    MarkersAreTight();
    EnvelopeRoundTrip(lib, issuer, MachineFile.PEM_HEADER, MachineFile.PEM_FOOTER, cert, m);
    CertifiedIsVouched(lib, issuer, scheme, key, e, MachineEnc(lib, issuer, e, payload, nonce, licenseKey, fingerprint));
    MachineFile.CheckSignatureExactly(lib, scheme, key, MachineFile.SignedBytes(cert), Base64.Decode(cert.sig).value);
    CertifiedEncloses(issuer, MachineEnc(lib, issuer, e, payload, nonce, licenseKey, fingerprint),
                      Algorithm.AlgString(e, Algorithm.SchemeSuffix(scheme)));
    MachineEncOpens(lib, issuer, e, payload, nonce, licenseKey, fingerprint, cert);
  }

  lemma CertifiedEncloses(issuer: Issuer, enc: string, alg: string)
    ensures Certify(issuer, enc, alg).enc == enc && Certify(issuer, enc, alg).alg == alg
  {
  }

  /** A licence file as issued parses, passes the gate with its encoding, and is vouched for. */
  lemma IssuedLicenseIsVouched(lib: Library, issuer: Issuer, key: Key32, e: Encoding, payload: Bytes, nonce: Bytes, licenseKey: string, m: Margins)
    requires ReadsWhatItWrites(lib, issuer) && VerifiesWhatItSigns(lib, issuer, Algorithm.Ed25519Sign, key) && m.Blank()
    ensures var cert := LicenseCert(lib, issuer, e, payload, nonce, licenseKey);
            && LicenseFile.Parse(lib, IssueLicenseFile(lib, issuer, e, payload, nonce, licenseKey, m)) == Ok(cert)
            && Algorithm.ValidateAlg(cert.alg) == Ok(e)
            && LicenseFile.Vouches(lib, key, cert)
  {
    hide Base64.Encode, Base64.Decode, Utf8.Encode, Algorithm.ParseAlg, Algorithm.ValidateAlg, Algorithm.AlgString, ParseEnvelope, Wrap, LicenseEnc;
    var enc := LicenseEnc(lib, issuer, e, payload, nonce, licenseKey);
    var cert := LicenseCert(lib, issuer, e, payload, nonce, licenseKey);
    MarkersAreTight();
    EnvelopeRoundTrip(lib, issuer, LicenseFile.PEM_HEADER, LicenseFile.PEM_FOOTER, cert, m);
    CertifiedIsVouched(lib, issuer, Algorithm.Ed25519Sign, key, e, enc);
    Algorithm.LicenseGateIsMachineParserAtEd25519(cert.alg, e);
  }

  /** Likewise for licence files, which are always Ed25519-signed. */
  lemma LicenseFileRoundTrip(lib: Library, issuer: Issuer, key: Key32, e: Encoding, payload: Bytes, nonce: Bytes,
                             licenseKey: string, m: Margins, now: I64)
    requires OpensWhatItSeals(lib, issuer) && ReadsWhatItWrites(lib, issuer)
    requires VerifiesWhatItSigns(lib, issuer, Algorithm.Ed25519Sign, key)
    requires |nonce| == Crypto.NONCE_LEN && m.Blank()
    ensures LicenseFile.VerifyAt(lib, IssueLicenseFile(lib, issuer, e, payload, nonce, licenseKey, m), key, Some(licenseKey), now)
            == Finish(lib.readLicense(payload), now)
  {
    hide Base64.Encode, Base64.Decode, Algorithm.ValidateAlg, Algorithm.AlgString, LicenseFile.Parse, LicenseFile.SignedBytes,
         IssueLicenseFile, LicenseFile.DecodePlaintext, LicenseEnc, Finish;
    var cert := LicenseCert(lib, issuer, e, payload, nonce, licenseKey);
    IssuedLicenseIsVouched(lib, issuer, key, e, payload, nonce, licenseKey, m);
    LicenseEncOpens(lib, issuer, e, payload, nonce, licenseKey, cert);
  }

  /** A key set that holds the signing key makes of the server's files what that key makes of them, whatever else it holds. */
  lemma KeySetRoundTrip(lib: Library, issuer: Issuer, held: KeySet.SigningKeySet, i: nat, e: Encoding, payload: Bytes, nonce: Bytes,
                        licenseKey: string, fingerprint: string, m: Margins, now: I64)
    requires OpensWhatItSeals(lib, issuer) && ReadsWhatItWrites(lib, issuer)
    requires i < |held.entries| && VerifiesWhatItSigns(lib, issuer, Algorithm.Ed25519Sign, held.entries[i].1)
    requires |nonce| == Crypto.NONCE_LEN && m.Blank()
    ensures var pem := IssueMachineFile(lib, issuer, Algorithm.Ed25519Sign, e, payload, nonce, licenseKey, fingerprint, m);
            MachineFile.VerifyWithKeySetAt(lib, pem, held, MachineFile.Secrets(Some(licenseKey), Some(fingerprint)), now)
            == Finish(lib.readMachine(payload), now)
    ensures var pem := IssueLicenseFile(lib, issuer, e, payload, nonce, licenseKey, m);
            LicenseFile.VerifyWithKeySetAt(lib, pem, held, Some(licenseKey), now) == Finish(lib.readLicense(payload), now)
  {
    MachineKeySetRoundTrip(lib, issuer, held, i, e, payload, nonce, licenseKey, fingerprint, m, now);
    hide *;
    var key := held.entries[i].1;
    IssuedLicenseIsVouched(lib, issuer, key, e, payload, nonce, licenseKey, m);
    LicenseFile.VouchedOutcomeIsTheKeys(lib, IssueLicenseFile(lib, issuer, e, payload, nonce, licenseKey, m), held, i, Some(licenseKey), now);
    LicenseFileRoundTrip(lib, issuer, key, e, payload, nonce, licenseKey, m, now);
  }

  lemma MachineKeySetRoundTrip(lib: Library, issuer: Issuer, held: KeySet.SigningKeySet, i: nat, e: Encoding, payload: Bytes, nonce: Bytes,
                               licenseKey: string, fingerprint: string, m: Margins, now: I64)
    requires OpensWhatItSeals(lib, issuer) && ReadsWhatItWrites(lib, issuer)
    requires i < |held.entries| && VerifiesWhatItSigns(lib, issuer, Algorithm.Ed25519Sign, held.entries[i].1)
    requires |nonce| == Crypto.NONCE_LEN && m.Blank()
    ensures var pem := IssueMachineFile(lib, issuer, Algorithm.Ed25519Sign, e, payload, nonce, licenseKey, fingerprint, m);
            MachineFile.VerifyWithKeySetAt(lib, pem, held, MachineFile.Secrets(Some(licenseKey), Some(fingerprint)), now)
            == Finish(lib.readMachine(payload), now)
  {
    hide Wrap, MachineEnc, ParseEnvelope, Certify, Finish, MachineFile.DeclaredEncoding, MachineFile.Vouches,
         MachineFile.VerifyAt, MachineFile.VerifyWithKeySetAt, Algorithm.AlgString, Algorithm.SchemeSuffix;
    var key := held.entries[i].1;
    var secrets := MachineFile.Secrets(Some(licenseKey), Some(fingerprint));
    var pem := IssueMachineFile(lib, issuer, Algorithm.Ed25519Sign, e, payload, nonce, licenseKey, fingerprint, m);
    MarkersAreTight();
    EnvelopeRoundTrip(lib, issuer, MachineFile.PEM_HEADER, MachineFile.PEM_FOOTER,
                      MachineCert(lib, issuer, Algorithm.Ed25519Sign, e, payload, nonce, licenseKey, fingerprint), m);
    CertifiedIsVouched(lib, issuer, Algorithm.Ed25519Sign, key, e, MachineEnc(lib, issuer, e, payload, nonce, licenseKey, fingerprint));
    MachineFile.VouchedOutcomeIsTheKeys(lib, pem, held, i, secrets, now);
    MachineFileRoundTrip(lib, issuer, Algorithm.Ed25519Sign, key, e, payload, nonce, licenseKey, fingerprint, m, now);
  }

  /** The two encrypted layouts cannot be mistaken for one another: each reader refuses the other's. */
  lemma LayoutsDisjoint(lib: Library, issuer: Issuer, payload: Bytes, nonce: Bytes, licenseKey: string, fingerprint: string, sig: string, alg: string)
    ensures var enc := LicenseEnc(lib, issuer, Aes256Gcm, payload, nonce, licenseKey);
            MachineFile.DecodePlaintext(lib, Cert(enc, sig, alg), Aes256Gcm, Some(licenseKey), Some(fingerprint))
            == Err(FromCrypto(Crypto.DecryptionFailed))
    ensures var enc := MachineEnc(lib, issuer, Aes256Gcm, payload, nonce, licenseKey, fingerprint);
            LicenseFile.DecodePlaintext(lib, Cert(enc, sig, alg), Aes256Gcm, Some(licenseKey)) == Err(InvalidBase64)
  {
    hide Base64.Encode, Base64.Decode, Utf8.Encode;
    var one := nonce + issuer.seal(Crypto.LicenseFileKey(lib, licenseKey), nonce, payload);
    Base64.EncodingHasNoDot(one);
    var two := MachineEnc(lib, issuer, Aes256Gcm, payload, nonce, licenseKey, fingerprint);
    assert two[|Base64.Encode(nonce)|] == '.';
    if Base64.Decode(two).Some? {
      Base64.EncodeOfDecode(two);
      Base64.EncodingHasNoDot(Base64.Decode(two).value);
    }
  }

  // --- Two derivations --------------------------------------------------------------

  /** Two different inputs from which HKDF derives one key. */
  ghost predicate Collide(lib: Library, x: (Bytes, Bytes, Bytes), y: (Bytes, Bytes, Bytes)) {
    x != y && lib.hkdf(x.0, x.1, x.2) == lib.hkdf(y.0, y.1, y.2)
  }

  /** Two machine files are read under one key iff licence key and fingerprint agree, short of a collision. */
  lemma MachineKeysAgreeExactly(lib: Library, licenseKey: string, fingerprint: string, licenseKey': string, fingerprint': string)
    ensures Crypto.MachineFileKey(lib, licenseKey, fingerprint) == Crypto.MachineFileKey(lib, licenseKey', fingerprint') <==>
            || (licenseKey == licenseKey' && fingerprint == fingerprint')
            || Collide(lib, (Utf8.Encode("tamga:machine-file-key-v1"), Utf8.Encode(licenseKey), Utf8.Encode(fingerprint)),
                       (Utf8.Encode("tamga:machine-file-key-v1"), Utf8.Encode(licenseKey'), Utf8.Encode(fingerprint')))
  {
    hide Utf8.Encode;
    if Utf8.Encode(licenseKey) == Utf8.Encode(licenseKey') && Utf8.Encode(fingerprint) == Utf8.Encode(fingerprint') {
      Utf8.EncodeInjective(licenseKey, licenseKey');
      Utf8.EncodeInjective(fingerprint, fingerprint');
    }
  }

  /** Licence files likewise, on the licence key alone. */
  lemma LicenseKeysAgreeExactly(lib: Library, licenseKey: string, licenseKey': string)
    ensures Crypto.LicenseFileKey(lib, licenseKey) == Crypto.LicenseFileKey(lib, licenseKey') <==>
            || licenseKey == licenseKey'
            || Collide(lib, (Utf8.Encode("tamga:license-file-key-v1"), Utf8.Encode(licenseKey), Utf8.Encode("license-file")),
                       (Utf8.Encode("tamga:license-file-key-v1"), Utf8.Encode(licenseKey'), Utf8.Encode("license-file")))
  {
    hide Utf8.Encode;
    if Utf8.Encode(licenseKey) == Utf8.Encode(licenseKey') {
      Utf8.EncodeInjective(licenseKey, licenseKey');
    }
  }

  /** No machine file's key is a licence file's, even for one licence key and the fingerprint `license-file`, short of a collision. */
  lemma DerivationsDisjoint(lib: Library, licenseKey: string, fingerprint: string, licenseKey': string)
    ensures Crypto.MachineFileKey(lib, licenseKey, fingerprint) == Crypto.LicenseFileKey(lib, licenseKey') <==>
            Collide(lib, (Utf8.Encode("tamga:machine-file-key-v1"), Utf8.Encode(licenseKey), Utf8.Encode(fingerprint)),
                    (Utf8.Encode("tamga:license-file-key-v1"), Utf8.Encode(licenseKey'), Utf8.Encode("license-file")))
  {
    SaltsDiffer();
    hide Utf8.Encode;
    if Utf8.Encode("tamga:machine-file-key-v1") == Utf8.Encode("tamga:license-file-key-v1") {
      Utf8.EncodeInjective("tamga:machine-file-key-v1", "tamga:license-file-key-v1");
    }
  }

  lemma SaltsDiffer()
    ensures "tamga:machine-file-key-v1" != "tamga:license-file-key-v1"
  {
    assert "tamga:machine-file-key-v1"[6] == 'm' && "tamga:license-file-key-v1"[6] == 'l';
  }

  // --- The hypotheses can be met ------------------------------------------------

  /** One way of writing a certificate: the JSON array of its three strings. */
  function ArrayText(c: Cert): Bytes {
    Utf8.Encode(Json.Print(Json.Array([Json.String(c.enc), Json.String(c.sig), Json.String(c.alg)])))
  }

  lemma ArrayTextInjective(c: Cert, d: Cert)
    requires ArrayText(c) == ArrayText(d)
    ensures c == d
  {
    hide Json.Print, Utf8.Encode;
    var v := Json.Array([Json.String(c.enc), Json.String(c.sig), Json.String(c.alg)]);
    var w := Json.Array([Json.String(d.enc), Json.String(d.sig), Json.String(d.alg)]);
    Utf8.EncodeInjective(Json.Print(v), Json.Print(w));
    JsonReader.PrintInjective(v, w);
    assert v.items[0] == w.items[0] && v.items[1] == w.items[1] && v.items[2] == w.items[2];
  }

  ghost function ReadArrayText(b: Bytes): (r: Option<Cert>)
    ensures forall c :: ArrayText(c) == b ==> r == Some(c)
  {
    if exists c :: ArrayText(c) == b then
      var c :| ArrayText(c) == b;
      assert forall d :: ArrayText(d) == b ==> d == c by {
        forall d | ArrayText(d) == b
          ensures d == c
        {
          ArrayTextInjective(d, c);
        }
      }
      Some(c)
    else None
  }

  function Padding(n: nat): (b: Bytes)
    ensures |b| == n
  {
    seq(n, _ => 0)
  }

  function OpenPadded(sealed: Bytes): Option<Bytes> {
    if |sealed| < Crypto.TAG_LEN then None else Some(sealed[..|sealed| - Crypto.TAG_LEN])
  }

  /** Some library and issuer meet every hypothesis of the round trips, under every supported scheme. */
  lemma HypothesesAreMet(scheme: Algorithm.Scheme, key: Key32) returns (lib: Library, issuer: Issuer)
    requires scheme != Algorithm.Rsa2048JwtRs256
    ensures OpensWhatItSeals(lib, issuer) && ReadsWhatItWrites(lib, issuer) && VerifiesWhatItSigns(lib, issuer, scheme, key)
  {
    hide ArrayText;
    var key0: Key32, digest0: Digest := Padding(32), Padding(32);
    lib := Library(_ => true, (_, _, _) => true, (_, _, _) => true, (_, _, _) => true, (_, _, _) => true,
                   (k, n, sealed) => OpenPadded(sealed), (_, _, _) => key0, _ => digest0,
                   b => ReadArrayText(b), _ => None, _ => None, _ => None);
    issuer := Issuer((k, n, p) => p + Padding(Crypto.TAG_LEN), _ => Padding(Crypto.SIGNATURE_LEN), c => ArrayText(c));
    assert forall p: Bytes :: OpenPadded(p + Padding(Crypto.TAG_LEN)) == Some(p);
    assert forall c :: lib.readCert(issuer.writeCert(c)) == ReadArrayText(ArrayText(c));
  }
}
