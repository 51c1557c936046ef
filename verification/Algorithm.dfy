/** The `alg` string of a checkout file: `<encoding>+<signing suffix>+v2`. */
module Algorithm {
  import opened Outcomes
  import opened Checkout
  import Text

  const VERSION_MARKER := "v2"

  datatype Scheme = Ed25519Sign | Rsa2048Pkcs1Sign | Rsa2048Pkcs1PssSign | EcdsaP256Sign | Rsa2048JwtRs256

  /** Two schemes share a suffix, which is why the suffix never selects the primitive. */
  function SchemeSuffix(scheme: Scheme): string {
    match scheme
    case Ed25519Sign => "ed25519"
    case Rsa2048Pkcs1Sign | Rsa2048JwtRs256 => "rsa-sha256"
    case Rsa2048Pkcs1PssSign => "rsa-pss-sha256"
    case EcdsaP256Sign => "ecdsa-p256"
  }

  function EncodingName(e: Encoding): string {
    match e
    case Plain => "base64"
    case Aes256Gcm => "aes-256-gcm"
  }

  /** `parse_alg` of the machine-file reader: cut at the first `+`, then at the last. */
  function ParseAlg(alg: string): (r: Result<(Encoding, string), Error>) {
    var unsupported := Err(UnsupportedAlgorithm(NotAnAlgorithm(alg)));
    match Text.SplitOnce(alg, '+')
    case None => unsupported
    case Some((encoding, rest)) =>
      match Text.RSplitOnce(rest, '+')
      case None => unsupported
      case Some((suffix, version)) =>
        if version != VERSION_MARKER then unsupported
        else if suffix == "" || '+' in suffix then unsupported
        else if encoding == "base64" then Ok((Plain, suffix))
        else if encoding == "aes-256-gcm" then Ok((Aes256Gcm, suffix))
        else unsupported
  }

  /** `validate_alg` of the licence-file reader: two strings, matched whole. */
  function ValidateAlg(alg: string): (r: Result<Encoding, Error>) {
    if alg == "base64+ed25519+v2" then Ok(Plain)
    else if alg == "aes-256-gcm+ed25519+v2" then Ok(Aes256Gcm)
    else Err(UnsupportedAlgorithm(NotAnAlgorithm(alg)))
  }

  /** The string a file with this encoding and suffix declares. */
  function AlgString(e: Encoding, suffix: string): string {
    EncodingName(e) + "+" + (suffix + "+" + VERSION_MARKER)
  }

  lemma EncodingNameHasNoPlus(e: Encoding)
    ensures '+' !in EncodingName(e)
  {
  }

  lemma ParseOfAlgString(e: Encoding, suffix: string)
    requires suffix != "" && '+' !in suffix
    ensures ParseAlg(AlgString(e, suffix)) == Ok((e, suffix))
  {
    EncodingNameHasNoPlus(e);
    Text.SplitOnceAt(EncodingName(e), suffix + "+" + VERSION_MARKER, '+');
    Text.RSplitOnceAt(suffix, VERSION_MARKER, '+');
  }

  /** A string is accepted iff it is an encoding, a non-empty suffix free of `+`, and `v2`; the split is that one. */
  lemma GrammarExactly(alg: string, e: Encoding, suffix: string)
    ensures ParseAlg(alg) == Ok((e, suffix)) <==> alg == AlgString(e, suffix) && suffix != "" && '+' !in suffix
  {
    if suffix != "" && '+' !in suffix && alg == AlgString(e, suffix) {
      ParseOfAlgString(e, suffix);
    }
  }

  /** Every refusal names the whole string. */
  lemma RefusalNamesTheString(alg: string)
    ensures ParseAlg(alg).Err? ==> ParseAlg(alg).error == UnsupportedAlgorithm(NotAnAlgorithm(alg))
    ensures ValidateAlg(alg).Err? ==> ValidateAlg(alg).error == UnsupportedAlgorithm(NotAnAlgorithm(alg))
  {
  }

  /** One string has one reading. */
  lemma ReadingUnique(e: Encoding, s: string, f: Encoding, t: string)
    requires s != "" && '+' !in s && t != "" && '+' !in t
    requires AlgString(e, s) == AlgString(f, t)
    ensures e == f && s == t
  {
    ParseOfAlgString(e, s);
    ParseOfAlgString(f, t);
  }

  /** The licence gate accepts exactly what the machine parser reads as Ed25519, with the same encoding. */
  lemma LicenseGateIsMachineParserAtEd25519(alg: string, e: Encoding)
    ensures ValidateAlg(alg) == Ok(e) <==> ParseAlg(alg) == Ok((e, SchemeSuffix(Ed25519Sign)))
  {
    hide ParseAlg, AlgString;
    GrammarExactly(alg, e, SchemeSuffix(Ed25519Sign));
    PlainGate();
    EncryptedGate();
    SuffixIsAFreeField(Ed25519Sign);
  }

  lemma PlainGate()
    ensures AlgString(Plain, SchemeSuffix(Ed25519Sign)) == "base64+ed25519+v2"
    ensures "base64+ed25519+v2" != "aes-256-gcm+ed25519+v2"
  {
    assert "base64+ed25519+v2"[0] == 'b' && "aes-256-gcm+ed25519+v2"[0] == 'a';
  }

  lemma EncryptedGate()
    ensures AlgString(Aes256Gcm, SchemeSuffix(Ed25519Sign)) == "aes-256-gcm+ed25519+v2"
  {
  }

  lemma SuffixIsAFreeField(scheme: Scheme)
    ensures SchemeSuffix(scheme) != "" && '+' !in SchemeSuffix(scheme)
  {
  }
}
