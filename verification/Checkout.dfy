/** What licence files and machine files share: the errors, the envelope, the expiry rule. */
module Checkout {
  import opened Outcomes
  import opened Words
  import opened Foreign
  import Base64
  import Crypto
  import Text

  /** What stands inside `enc`: the payload itself, or the payload sealed. */
  datatype Encoding = Plain | Aes256Gcm

  /** What an unsupported-algorithm error reports. */
  datatype AlgFault =
    | NotAnAlgorithm(alg: string)
    | SuffixNotOfScheme(suffix: string, expected: string)
    | SuffixNotOfKeySet(suffix: string, expected: string)

  datatype Error =
    | MalformedPem
    | InvalidBase64
    | InvalidJson
    | UnsupportedAlgorithm(fault: AlgFault)
    | Expired(exp: I64)
    | LicenseKeyMissing
    | FingerprintMissing
    | SchemeNotSupported
    | UnknownSigningKey(kid: string)
    | FromCrypto(cause: Crypto.Error)

  const CLOCK_SKEW_TOLERANCE_SECS: I64 := 60

  /** The Unicode `White_Space` property, which `str::trim` strips. */
  predicate IsWhitespace(c: char) {
    var n := c as int;
    0x09 <= n <= 0x0D || n == 0x20 || n == 0x85 || n == 0xA0 || n == 0x1680 || 0x2000 <= n <= 0x200A
    || n == 0x2028 || n == 0x2029 || n == 0x202F || n == 0x205F || n == 0x3000
  }

  /** Strips the markers, then decodes the body and the JSON inside it. */
  function ParseEnvelope(lib: Library, pem: string, header: string, footer: string): (r: Result<Cert, Error>) {
    match PemBody(pem, header, footer)
    case None => Err(MalformedPem)
    case Some(body) =>
      match Base64.Decode(body)
      case None => Err(InvalidBase64)
      case Some(json) =>
        match lib.readCert(json)
        case None => Err(InvalidJson)
        case Some(cert) => Ok(cert)
  }

  function PemBody(pem: string, header: string, footer: string): Option<string> {
    match Text.StripPrefix(Text.Trim(pem, IsWhitespace), header)
    case None => None
    case Some(rest) =>
      match Text.StripSuffix(rest, footer)
      case None => None
      case Some(body) => Some(Text.Trim(body, IsWhitespace))
  }

  function DecodeBase64(s: string): (r: Result<Bytes, Error>) {
    match Base64.Decode(s)
    case None => Err(InvalidBase64)
    case Some(bytes) => Ok(bytes)
  }

  function LiftCrypto<T>(r: Result<T, Crypto.Error>): Result<T, Error> {
    match r
    case Ok(value) => Ok(value)
    case Err(e) => Err(FromCrypto(e))
  }

  /** `i64::saturating_sub`. */
  function SaturatingSub(a: I64, b: I64): I64 {
    if a - b < I64_MIN then I64_MIN else if a - b > I64_MAX then I64_MAX else a - b
  }

  /** Enforces the signed `exp` of a decoded payload. */
  function Finish(payload: Option<Verified>, now: I64): (r: Result<Verified, Error>)
  {
    match payload
    case None => Err(InvalidJson)
    case Some(v) =>
      match v.claims.exp
      case None => Ok(v)
      case Some(exp) =>
        if SaturatingSub(now, CLOCK_SKEW_TOLERANCE_SECS) > exp then Err(Expired(exp)) else Ok(v)
  }

  /** Not expired, in unbounded integers. */
  predicate Fresh(claims: Claims, now: int) {
    claims.exp.None? || now <= claims.exp.value + 60
  }

  /** Saturation never shows: for every pair of `i64`s the outcome is the one unbounded arithmetic gives. */
  lemma FinishIsExact(payload: Option<Verified>, now: I64)
    ensures Finish(payload, now).Ok? <==> payload.Some? && Fresh(payload.value.claims, now)
    ensures Finish(payload, now).Ok? ==> payload == Some(Finish(payload, now).value)
    ensures payload.Some? && !Fresh(payload.value.claims, now)
            ==> Finish(payload, now) == Err(Expired(payload.value.claims.exp.value))
  {
  }

  /** A file once refused as expired stays refused as time goes on. */
  lemma ExpiryIsFinal(payload: Option<Verified>, now: I64, later: I64)
    requires now <= later
    ensures Finish(payload, now).Err? ==> Finish(payload, later) == Finish(payload, now)
  {
  }

  /** The markers in place, with whitespace where the reader tolerates it, give the body back. */
  lemma PemRoundTrip(before: string, header: string, gap1: string, body: string, gap2: string, footer: string, after: string)
    requires Text.All(before, IsWhitespace) && Text.All(gap1, IsWhitespace)
    requires Text.All(gap2, IsWhitespace) && Text.All(after, IsWhitespace)
    requires header != "" && footer != "" && Text.Tight(header, IsWhitespace) && Text.Tight(footer, IsWhitespace)
    requires Text.Tight(body, IsWhitespace)
    ensures PemBody(before + (header + (gap1 + body + gap2) + footer) + after, header, footer) == Some(body)
  {
    hide IsWhitespace, Text.Trim;
    var inner := gap1 + body + gap2;
    var core := header + inner + footer;
    assert core[0] == header[0] && core[|core| - 1] == footer[|footer| - 1];
    Text.TrimIgnoresFlanks(before, core, after, IsWhitespace);
    Text.TrimKeepsTight(core, IsWhitespace);
    assert core[|header|..] == inner + footer;
    assert (inner + footer)[|inner|..] == footer && (inner + footer)[..|inner|] == inner;
    assert header <= core;
    Text.TrimIgnoresFlanks(gap1, body, gap2, IsWhitespace);
    Text.TrimKeepsTight(body, IsWhitespace);
  }

  /** What `White_Space` comprises: 25 code points. */
  lemma WhitespaceIsTabled(c: char)
    ensures IsWhitespace(c) <==>
            c as int in {0x09, 0x0A, 0x0B, 0x0C, 0x0D, 0x20, 0x85, 0xA0, 0x1680, 0x2000, 0x2001, 0x2002, 0x2003, 0x2004, 0x2005,
                         0x2006, 0x2007, 0x2008, 0x2009, 0x200A, 0x2028, 0x2029, 0x202F, 0x205F, 0x3000}
  {
  }

  predicate Blank(s: string) {
    Text.All(s, IsWhitespace)
  }

  /** The file is the two markers around the body, with white space about each and nothing else. */
  ghost predicate Framed(pem: string, header: string, body: string, footer: string) {
    && Text.Tight(body, IsWhitespace)
    && exists before, gap1, gap2, after ::
      && Blank(before) && Blank(gap1) && Blank(gap2) && Blank(after)
      && pem == before + (header + (gap1 + body + gap2) + footer) + after
  }

  lemma BodyIsFramed(pem: string, header: string, body: string, footer: string)
    requires PemBody(pem, header, footer) == Some(body)
    ensures Framed(pem, header, body, footer)
  {
    var before, after := Text.TrimSplits(pem, IsWhitespace);
    var rest := Text.StripPrefix(Text.Trim(pem, IsWhitespace), header).value;
    var inner := Text.StripSuffix(rest, footer).value;
    var gap1, gap2 := Text.TrimSplits(inner, IsWhitespace);
    hide IsWhitespace, Text.Trim, Text.Tight, Text.All;
    assert Text.Trim(pem, IsWhitespace) == header + (inner + footer) == header + inner + footer;
    assert inner == gap1 + body + gap2;
    assert Blank(before) && Blank(gap1) && Blank(gap2) && Blank(after);
    assert pem == before + (header + (gap1 + body + gap2) + footer) + after;
  }

  /** A file is read exactly when it carries its markers, and its body is then what they frame. */
  lemma PemBodyExactly(pem: string, header: string, body: string, footer: string)
    requires header != "" && footer != "" && Text.Tight(header, IsWhitespace) && Text.Tight(footer, IsWhitespace)
    ensures PemBody(pem, header, footer) == Some(body) <==> Framed(pem, header, body, footer)
  {
    hide IsWhitespace, Text.Tight, Text.All, PemBody;
    if PemBody(pem, header, footer) == Some(body) {
      BodyIsFramed(pem, header, body, footer);
    }
    if Framed(pem, header, body, footer) {
      var before, gap1, gap2, after :|
        && Blank(before) && Blank(gap1) && Blank(gap2) && Blank(after)
        && pem == before + (header + (gap1 + body + gap2) + footer) + after;
      PemRoundTrip(before, header, gap1, body, gap2, footer, after);
    }
  }

  lemma EncodingIsTight(bytes: Bytes)
    ensures Text.Tight(Base64.Encode(bytes), IsWhitespace)
  {
    Base64.EncodingChars(bytes);
    var s := Base64.Encode(bytes);
    if s != "" {
      assert Base64.IsEncodingChar(s[0]) && Base64.IsEncodingChar(s[|s| - 1]);
    }
  }
}
