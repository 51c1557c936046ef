/** The machine offline proof: the exact payload it signs, and its verification (`src/proof.rs`). */
module OfflineProof {
  import opened Outcomes
  import opened Words
  import opened Foreign
  import opened Json
  import opened JsonDocument
  import Base64
  import Collections
  import Crypto
  import Hex
  import Sorting
  import Text
  import Utf8

  type Uuid = b: Bytes | |b| == 16 witness seq(16, _ => 0)

  /** The hyphenated form a UUID serialises to. */
  function UuidText(id: Uuid): string {
    var h := Hex.Of(id);
    h[..8] + "-" + h[8..12] + "-" + h[12..16] + "-" + h[16..20] + "-" + h[20..]
  }

  lemma UuidTextInjective(a: Uuid, b: Uuid)
    requires UuidText(a) == UuidText(b)
    ensures a == b
  {
    hide Hex.Of;
    var s, t, g, h := UuidText(a), UuidText(b), Hex.Of(a), Hex.Of(b);
    assert s[..8] == g[..8] && s[9..13] == g[8..12] && s[14..18] == g[12..16] && s[19..23] == g[16..20] && s[24..] == g[20..];
    assert t[..8] == h[..8] && t[9..13] == h[8..12] && t[14..18] == h[12..16] && t[19..23] == h[16..20] && t[24..] == h[20..];
    assert g == g[..8] + g[8..12] + g[12..16] + g[16..20] + g[20..];
    assert h == h[..8] + h[8..12] + h[12..16] + h[16..20] + h[20..];
    Hex.Injective(a, b);
  }

  /** Where byte `k` of a UUID stands in its text: groups of 8, 4, 4, 4 and 12 digits. */
  function UuidPlace(k: nat): nat {
    2 * k + (if k < 4 then 0 else if k < 6 then 1 else if k < 8 then 2 else if k < 10 then 3 else 4)
  }

  /** The 36 characters of a UUID's text, told one by one. */
  lemma UuidSpelledOut(id: Uuid, k: nat)
    requires k < 16
    ensures var s := UuidText(id);
            && |s| == 36
            && s[8] == s[13] == s[18] == s[23] == '-'
            && Hex.Spells(s[UuidPlace(k)], s[UuidPlace(k) + 1], id[k])
  {
    hide Hex.Of, Hex.Spells;
    Hex.Reads(id, k);
    var h, s := Hex.Of(id), UuidText(id);
    assert s[..8] == h[..8] && s[9..13] == h[8..12] && s[14..18] == h[12..16] && s[19..23] == h[16..20] && s[24..] == h[20..];
    var p := UuidPlace(k);
    if k < 4 {
      assert s[..8][p] == h[..8][p] && s[..8][p + 1] == h[..8][p + 1];
    } else if k < 6 {
      assert s[9..13][p - 9] == h[8..12][p - 9] && s[9..13][p - 8] == h[8..12][p - 8];
    } else if k < 8 {
      assert s[14..18][p - 14] == h[12..16][p - 14] && s[14..18][p - 13] == h[12..16][p - 13];
    } else if k < 10 {
      assert s[19..23][p - 19] == h[16..20][p - 19] && s[19..23][p - 18] == h[16..20][p - 18];
    } else {
      assert s[24..][p - 24] == h[20..][p - 24] && s[24..][p - 23] == h[20..][p - 23];
    }
  }

  /** What a proof is about. */
  datatype Subject = Subject(account: Uuid, machine: Uuid, fingerprint: string, dataset: Value)

  /** The payload, its keys in the order the source writes them. */
  function Payload(s: Subject): Value {
    Object([
      Field("account", Object([Field("id", String(UuidText(s.account)))])),
      Field("machine", Object([Field("id", String(UuidText(s.machine))), Field("fingerprint", String(s.fingerprint))])),
      Field("dataset", s.dataset)])
  }

  /** `build_payload_json`. */
  function PayloadJson(s: Subject): string {
    Print(Normal(Payload(s)))
  }

  ghost predicate SameSubject(s: Subject, t: Subject) {
    && s.account == t.account
    && s.machine == t.machine
    && s.fingerprint == t.fingerprint
    && SameDocument(s.dataset, t.dataset)
  }

  lemma LookupInTwo(f: Field, g: Field)
    ensures forall key :: LastGiven([f], key) == if f.key == key then Some(f.value) else None
    ensures forall key :: LastGiven([f, g], key)
                          == if g.key == key then Some(g.value) else LastGiven([f], key)
  {
    assert [f, g][..1] == [f];
  }

  lemma LookupInThree(f: Field, g: Field, h: Field)
    ensures forall key :: LastGiven([f, g, h], key)
                          == if h.key == key then Some(h.value) else if g.key == key then Some(g.value)
                             else if f.key == key then Some(f.value) else None
  {
    assert [f, g, h][..2] == [f, g];
    LookupInTwo(f, g);
  }

  lemma AccountDecides(a: Uuid, b: Uuid)
    ensures SameDocument(Object([Field("id", String(UuidText(a)))]), Object([Field("id", String(UuidText(b)))])) <==> a == b
  {
    hide UuidText, LastGiven;
    var f, g := Field("id", String(UuidText(a))), Field("id", String(UuidText(b)));
    LookupInTwo(f, f);
    LookupInTwo(g, g);
    assert LastGiven([f], "id").Some?;
    if UuidText(a) == UuidText(b) {
      UuidTextInjective(a, b);
    }
  }

  lemma MachineDecides(a: Uuid, x: string, b: Uuid, y: string)
    ensures SameDocument(Object([Field("id", String(UuidText(a))), Field("fingerprint", String(x))]),
                         Object([Field("id", String(UuidText(b))), Field("fingerprint", String(y))]))
            <==> a == b && x == y
  {
    hide UuidText, LastGiven;
    var fs, gs := [Field("id", String(UuidText(a))), Field("fingerprint", String(x))], [Field("id", String(UuidText(b))), Field("fingerprint", String(y))];
    LookupInTwo(fs[0], fs[1]);
    LookupInTwo(gs[0], gs[1]);
    assert LastGiven(fs, "id").Some? && LastGiven(fs, "fingerprint").Some?;
    if UuidText(a) == UuidText(b) {
      UuidTextInjective(a, b);
    }
  }

  /** Objects with the same three keys are one document iff the values are, key by key. */
  lemma SameKeysCompareByValue(f0: Field, f1: Field, f2: Field, g0: Field, g1: Field, g2: Field)
    requires f0.key == g0.key && f1.key == g1.key && f2.key == g2.key
    requires f0.key != f1.key && f0.key != f2.key && f1.key != f2.key
    ensures SameDocument(Object([f0, f1, f2]), Object([g0, g1, g2]))
            <==> SameDocument(f0.value, g0.value) && SameDocument(f1.value, g1.value) && SameDocument(f2.value, g2.value)
  {
    hide LastGiven;
    LookupInThree(f0, f1, f2);
    LookupInThree(g0, g1, g2);
    var fs := [f0, f1, f2];
    assert LastGiven(fs, f0.key).Some? && LastGiven(fs, f1.key).Some? && LastGiven(fs, f2.key).Some?;
  }

  lemma PayloadDecides(s: Subject, t: Subject)
    ensures SameDocument(Payload(s), Payload(t)) <==> SameSubject(s, t)
  {
    hide UuidText, SameDocument;
    var fs, gs := Payload(s).fields, Payload(t).fields;
    SameKeysCompareByValue(fs[0], fs[1], fs[2], gs[0], gs[1], gs[2]);
    AccountDecides(s.account, t.account);
    MachineDecides(s.machine, s.fingerprint, t.machine, t.fingerprint);
  }

  lemma FirstLetterDecides(a: string, b: string)
    requires a != "" && b != "" && a[0] < b[0]
    ensures Sorting.Before(a, b) && !Sorting.Before(b, a)
  {
    Utf8.ByteOrderIsCodePointOrder(a, b);
    Utf8.ByteOrderIsCodePointOrder(b, a);
  }

  /** The printed payload is alphabetical at every level, whatever order the source writes: `dataset` before `machine`, `fingerprint` before `id`. */
  lemma PayloadIsAlphabetical(s: Subject)
    ensures Normal(Payload(s)) == Object([
              Field("account", Object([Field("id", String(UuidText(s.account)))])),
              Field("dataset", Normal(s.dataset)),
              Field("machine", Object([Field("fingerprint", String(s.fingerprint)), Field("id", String(UuidText(s.machine)))]))])
  {
    hide UuidText, Sorting.Before;
    FirstLetterDecides("account", "machine");
    FirstLetterDecides("account", "dataset");
    FirstLetterDecides("dataset", "machine");
    FirstLetterDecides("fingerprint", "id");
    var id, m0, m1 := Field("id", String(UuidText(s.account))), Field("id", String(UuidText(s.machine))), Field("fingerprint", String(s.fingerprint));
    BuildTwo(id, id);
    BuildTwo(m0, m1);
    var fs := Payload(s).fields;
    BuildThree(fs[0], fs[1], fs[2]);
    var account, dataset, machine := Normal(fs[0].value), Normal(fs[2].value), Normal(fs[1].value);
    assert account == Object([id]);
    assert machine == Object([m1, m0]);
    assert Build([fs[0], fs[1]]) == [Field("account", account), Field("machine", machine)];
    assert [Field("account", account), Field("machine", machine)][1..] == [Field("machine", machine)];
    assert Insert([Field("machine", machine)], "dataset", dataset) == [Field("dataset", dataset), Field("machine", machine)];
  }

  /** The member `id` of an account or machine, letter by letter: a UUID needs no escaping. */
  lemma IdText(id: Uuid)
    ensures Member(Field("id", String(UuidText(id)))) == "\"id\":\"" + UuidText(id) + "\""
  {
    hide Hex.Of, Escape, UuidText;
    UuidChars(id);
    PlainTextIsNotEscaped(UuidText(id));
    KeysArePrintedPlain();
  }

  lemma AccountText(account: Uuid)
    ensures Print(Object([Field("id", String(UuidText(account)))])) == "{\"id\":\"" + UuidText(account) + "\"}"
  {
    hide UuidText, Print, Member;
    var id := Field("id", String(UuidText(account)));
    ObjectText([id]);
    assert Collections.Map(Member, [id][1..]) == [];
    IdText(account);
    calc {
      Print(Object([id]));
      "{" + (Member(id) + "}");
      "{" + ("\"id\":\"" + UuidText(account) + "\"" + "}");
      "{\"id\":\"" + UuidText(account) + "\"}";
    }
  }

  lemma MachineText(machine: Uuid, fingerprint: string)
    ensures Print(Object([Field("fingerprint", String(fingerprint)), Field("id", String(UuidText(machine)))]))
            == "{\"fingerprint\":\"" + Escape(fingerprint) + "\",\"id\":\"" + UuidText(machine) + "\"}"
  {
    hide UuidText, Print, Member, Escape;
    var f, id := Field("fingerprint", String(fingerprint)), Field("id", String(UuidText(machine)));
    ObjectText([f, id]);
    JoinOfTwo(f, id);
    IdText(machine);
    FingerprintText(fingerprint);
    assert Print(Object([f, id])) == "{" + (Member(f) + "," + Member(id) + "}");
    RegroupTwo("{", "\"fingerprint\":\"", Escape(fingerprint), "\"", "\"id\":\"", UuidText(machine), "}");
    MachineLiteralsMeet();
  }

  lemma RegroupTwo(open: string, k: string, f: string, q: string, l: string, v: string, close: string)
    ensures open + ((k + f + q) + "," + (l + v + q) + close) == (open + k) + f + (q + "," + l) + v + (q + close)
  {
    assert open + ((k + f + q) + "," + (l + v + q) + close) == open + (k + f + q) + ("," + (l + v + q) + close);
    assert open + (k + f + q) == (open + k) + f + q;
    assert "," + (l + v + q) + close == ("," + l) + v + (q + close);
  }

  lemma MachineLiteralsMeet()
    ensures "{" + "\"fingerprint\":\"" == "{\"fingerprint\":\""
    ensures "\"" + "," + "\"id\":\"" == "\",\"id\":\""
    ensures "\"" + "}" == "\"}"
  {
  }

  lemma FingerprintText(fingerprint: string)
    ensures Member(Field("fingerprint", String(fingerprint))) == "\"fingerprint\":\"" + Escape(fingerprint) + "\""
  {
    hide Escape;
    KeysArePrintedPlain();
  }

  lemma JoinOfTwo(f: Field, g: Field)
    ensures Text.Join(Member(f), Collections.Map(Member, [f, g][1..]), ',') == Member(f) + "," + Member(g)
  {
    hide Member;
    assert Collections.Map(Member, [f, g][1..]) == [Member(g)];
    assert [Member(g)][1..] == [];
  }

  lemma JoinOfThree(f: Field, g: Field, h: Field)
    ensures Text.Join(Member(f), Collections.Map(Member, [f, g, h][1..]), ',') == Member(f) + "," + (Member(g) + "," + Member(h))
  {
    hide Member;
    JoinOfTwo(g, h);
    assert [f, g, h][1..] == [g, h] && Collections.Map(Member, [g, h])[1..] == Collections.Map(Member, [g, h][1..]);
  }

  lemma MemberText(key: string, value: Value, text: string)
    requires Quote(key) == "\"" + key + "\"" && Print(value) == text
    ensures Member(Field(key, value)) == "\"" + key + "\":" + text
  {
    hide Quote, Print;
  }

  /**
   * The very text that is signed, letter by letter: no space, members in alphabetical order, and nothing
   * escaped but what the fingerprint and the dataset need.
   */
  lemma PayloadJsonIs(s: Subject)
    ensures PayloadJson(s)
            == "{\"account\":{\"id\":\"" + UuidText(s.account) + "\"},\"dataset\":" + Print(Normal(s.dataset))
               + ",\"machine\":{\"fingerprint\":\"" + Escape(s.fingerprint) + "\",\"id\":\"" + UuidText(s.machine) + "\"}}"
  {
    hide UuidText, Print, Normal, Quote, Escape, Member, Payload;
    PayloadIsAlphabetical(s);
    KeysArePrintedPlain();
    AccountText(s.account);
    MachineText(s.machine, s.fingerprint);
    var account := Object([Field("id", String(UuidText(s.account)))]);
    var machine := Object([Field("fingerprint", String(s.fingerprint)), Field("id", String(UuidText(s.machine)))]);
    MemberText("account", account, Print(account));
    MemberText("dataset", Normal(s.dataset), Print(Normal(s.dataset)));
    MemberText("machine", machine, Print(machine));
    var a, d, m := Field("account", account), Field("dataset", Normal(s.dataset)), Field("machine", machine);
    ObjectText([a, d, m]);
    JoinOfThree(a, d, m);
    Glue(UuidText(s.account), Print(Normal(s.dataset)), Escape(s.fingerprint), UuidText(s.machine));
  }

  lemma Glue(account: string, dataset: string, fingerprint: string, machine: string)
    ensures var a := "\"" + "account" + "\":" + ("{\"id\":\"" + account + "\"}");
            var d := "\"" + "dataset" + "\":" + dataset;
            var m := "\"" + "machine" + "\":" + ("{\"fingerprint\":\"" + fingerprint + "\",\"id\":\"" + machine + "\"}");
            "{" + (a + "," + (d + "," + m) + "}")
            == "{\"account\":{\"id\":\"" + account + "\"},\"dataset\":" + dataset
               + ",\"machine\":{\"fingerprint\":\"" + fingerprint + "\",\"id\":\"" + machine + "\"}}"
  {
    KeysWithColons();
    var q, r, t := "\"account\":", "\"dataset\":", "\"machine\":";
    Regroup("{", q, "{\"id\":\"", account, "\"}", r, dataset, t, "{\"fingerprint\":\"", fingerprint, "\",\"id\":\"", machine, "\"}", "}");
    LiteralsMeet();
  }

  lemma KeysWithColons()
    ensures "\"" + "account" + "\":" == "\"account\":" && "\"" + "dataset" + "\":" == "\"dataset\":"
    ensures "\"" + "machine" + "\":" == "\"machine\":"
  {
  }

  lemma LiteralsMeet()
    ensures "{" + "\"account\":" + "{\"id\":\"" == "{\"account\":{\"id\":\""
    ensures "\"}" + "," + "\"dataset\":" == "\"},\"dataset\":"
    ensures "," + "\"machine\":" + "{\"fingerprint\":\"" == ",\"machine\":{\"fingerprint\":\""
    ensures "\"}" + "}" == "\"}}"
  {
  }

  lemma Regroup(open: string, k1: string, a1: string, u: string, a2: string, k2: string, d: string,
                k3: string, m1: string, f: string, m2: string, v: string, m3: string, close: string)
    ensures open + ((k1 + (a1 + u + a2)) + "," + ((k2 + d) + "," + (k3 + (m1 + f + m2 + v + m3))) + close)
            == (open + k1 + a1) + u + (a2 + "," + k2) + d + ("," + k3 + m1) + f + m2 + v + (m3 + close)
  {
    var front, back := k1 + (a1 + u + a2), k3 + (m1 + f + m2 + v + m3);
    RegroupOuter(open, front, k2 + d, back, close);
    RegroupFront(open, k1, a1, u, a2);
    RegroupBack(k3, m1, f, m2, v, m3, close);
    RegroupMiddle((open + k1 + a1) + u, a2, k2, d, "," + k3 + m1, f, m2, v, m3 + close);
  }

  lemma RegroupOuter(open: string, a: string, d: string, m: string, close: string)
    ensures open + (a + "," + (d + "," + m) + close) == open + a + ("," + d) + ("," + m + close)
  {
  }

  lemma RegroupFront(open: string, k: string, p: string, u: string, q: string)
    ensures open + (k + (p + u + q)) == (open + k + p) + u + q
  {
  }

  lemma RegroupBack(k: string, m1: string, f: string, m2: string, v: string, m3: string, close: string)
    ensures "," + (k + (m1 + f + m2 + v + m3)) + close == ("," + k + m1) + (f + m2 + v + (m3 + close))
  {
  }

  lemma RegroupMiddle(front: string, a: string, k: string, d: string, p: string, f: string, m: string, v: string, q: string)
    ensures front + a + ("," + (k + d)) + (p + (f + m + v + q)) == front + (a + "," + k) + d + p + f + m + v + q
  {
    assert front + a + ("," + (k + d)) == front + (a + "," + k) + d;
  }

  lemma UuidChars(id: Uuid)
    ensures forall i :: 0 <= i < |UuidText(id)| ==> UuidText(id)[i] == '-' || '0' <= UuidText(id)[i] <= '9' || 'a' <= UuidText(id)[i] <= 'f'
  {
    HexChars(Hex.Of(id));
    hide Hex.Of, Hex.DIGITS;
  }

  lemma HexChars(s: string)
    requires forall i :: 0 <= i < |s| ==> s[i] in Hex.DIGITS
    ensures forall i :: 0 <= i < |s| ==> '0' <= s[i] <= '9' || 'a' <= s[i] <= 'f'
  {
  }

  /** Nor do the keys need escaping. */
  lemma KeysArePrintedPlain()
    ensures Quote("account") == "\"account\"" && Quote("dataset") == "\"dataset\"" && Quote("machine") == "\"machine\""
    ensures Quote("fingerprint") == "\"fingerprint\"" && Quote("id") == "\"id\""
  {
    hide Escape;
    PlainTextIsNotEscaped("account");
    PlainTextIsNotEscaped("dataset");
    PlainTextIsNotEscaped("machine");
    PlainTextIsNotEscaped("fingerprint");
    PlainTextIsNotEscaped("id");
  }

  lemma BuildTwo(f: Field, g: Field)
    ensures Build([f]) == [Field(f.key, Normal(f.value))]
    ensures Build([f, g]) == Insert([Field(f.key, Normal(f.value))], g.key, Normal(g.value))
  {
    assert [f][..0] == [] && [f, g][..1] == [f];
  }

  lemma BuildThree(f: Field, g: Field, h: Field)
    ensures Build([f, g, h]) == Insert(Build([f, g]), h.key, Normal(h.value))
    ensures Build([f, g]) == Insert([Field(f.key, Normal(f.value))], g.key, Normal(g.value))
  {
    BuildTwo(f, g);
    assert [f, g, h][..2] == [f, g];
  }

  /** The signed bytes name one account, machine, fingerprint and dataset, and every way of building those gives the same bytes. */
  lemma PayloadBytesDecideSubject(s: Subject, t: Subject)
    ensures Utf8.Encode(PayloadJson(s)) == Utf8.Encode(PayloadJson(t)) <==> SameSubject(s, t)
  {
    hide SameDocument, Print, Normal, Payload, Utf8.Encode;
    PayloadDecides(s, t);
    TextDecidesDocument(Payload(s), Payload(t));
    if Utf8.Encode(PayloadJson(s)) == Utf8.Encode(PayloadJson(t)) {
      Utf8.EncodeInjective(PayloadJson(s), PayloadJson(t));
    }
  }

  datatype Error = MalformedProof | InvalidBase64 | FromCrypto(cause: Crypto.Error)

  const PROOF_PREFIX := "v1x0."

  /** `verify_offline_proof`. */
  function Verify(lib: Library, proof: string, subject: Subject, key: Bytes): Result<(), Error> {
    match Text.StripPrefix(proof, PROOF_PREFIX)
    case None => Err(MalformedProof)
    case Some(b64) =>
      match Base64.Decode(b64)
      case None => Err(InvalidBase64)
      case Some(signature) =>
        if lib.rsaPkcs1Checks(key, Utf8.Encode(PayloadJson(subject)), signature) then Ok(())
        else Err(FromCrypto(Crypto.VerificationFailed))
  }

  /** A proof is accepted iff it is the prefix and the one base64 spelling of a signature over this subject's payload. */
  lemma VerifyExactly(lib: Library, proof: string, subject: Subject, key: Bytes)
    ensures Verify(lib, proof, subject, key).Ok?
            <==> exists signature: Bytes ::
                   && proof == "v1x0." + Base64.Encode(signature)
                   && lib.rsaPkcs1Checks(key, Utf8.Encode(PayloadJson(subject)), signature)
  {
    hide Base64.Encode, Base64.Decode, PayloadJson, Utf8.Encode;
    if Verify(lib, proof, subject, key).Ok? {
      Base64.EncodeOfDecode(Text.StripPrefix(proof, PROOF_PREFIX).value);
    }
    if exists signature: Bytes ::
        && proof == PROOF_PREFIX + Base64.Encode(signature)
        && lib.rsaPkcs1Checks(key, Utf8.Encode(PayloadJson(subject)), signature)
    {
      var signature: Bytes :|
        && proof == PROOF_PREFIX + Base64.Encode(signature)
        && lib.rsaPkcs1Checks(key, Utf8.Encode(PayloadJson(subject)), signature);
      assert PROOF_PREFIX <= proof && proof[|PROOF_PREFIX|..] == Base64.Encode(signature);
      Base64.DecodeOfEncode(signature);
    }
  }

  /** A refused proof lacks its prefix, is not base64 behind it, or does not verify. */
  lemma RefusedExactly(lib: Library, proof: string, subject: Subject, key: Bytes)
    ensures var r := Verify(lib, proof, subject, key);
            && (r == Err(MalformedProof) <==> forall rest :: proof != "v1x0." + rest)
            && (r == Err(InvalidBase64) <==>
                exists rest :: proof == "v1x0." + rest && forall bytes: Bytes :: rest != Base64.Encode(bytes))
            && (r.Err? ==> r.error == MalformedProof || r.error == InvalidBase64 || r.error == FromCrypto(Crypto.VerificationFailed))
  {
    hide Base64.Encode, Base64.Decode, PayloadJson, Utf8.Encode;
    var stripped := Text.StripPrefix(proof, PROOF_PREFIX);
    forall rest
      ensures proof == "v1x0." + rest <==> stripped == Some(rest)
    {
      assert proof == "v1x0." + rest ==> proof[|PROOF_PREFIX|..] == rest;
    }
    if stripped.Some? {
      if Base64.Decode(stripped.value).Some? {
        Base64.EncodeOfDecode(stripped.value);
      }
      forall bytes: Bytes
        ensures Base64.Decode(Base64.Encode(bytes)) == Some(bytes)
      {
        Base64.DecodeOfEncode(bytes);
      }
      assert proof == "v1x0." + stripped.value;
    }
  }

  /** Acceptance depends on the subject only as a document: rebuilding the dataset in another order changes no outcome. */
  lemma VerifySeesOnlyTheDocument(lib: Library, proof: string, s: Subject, t: Subject, key: Bytes)
    requires SameSubject(s, t)
    ensures Verify(lib, proof, s, key) == Verify(lib, proof, t, key)
  {
    hide SameDocument, PayloadJson, Utf8.Encode;
    PayloadBytesDecideSubject(s, t);
  }

  /** One signature verifies over two different messages. */
  ghost predicate Ambiguous(lib: Library, key: Bytes, signature: Bytes, m: Bytes, n: Bytes) {
    m != n && lib.rsaPkcs1Checks(key, m, signature) && lib.rsaPkcs1Checks(key, n, signature)
  }

  /**
   * A proof binds its subject: one accepted for `s` is accepted for `t` as well iff they are the same
   * account, machine, fingerprint and dataset, or its signature verifies over their different payloads both.
   */
  lemma ProofBindsItsSubject(lib: Library, signature: Bytes, s: Subject, t: Subject, key: Bytes)
    requires Verify(lib, PROOF_PREFIX + Base64.Encode(signature), s, key).Ok?
    ensures Verify(lib, PROOF_PREFIX + Base64.Encode(signature), t, key).Ok?
            <==> SameSubject(s, t) || Ambiguous(lib, key, signature, Utf8.Encode(PayloadJson(s)), Utf8.Encode(PayloadJson(t)))
  {
    hide SameDocument, PayloadJson, Utf8.Encode, Base64.Encode, Base64.Decode;
    var proof := PROOF_PREFIX + Base64.Encode(signature);
    assert PROOF_PREFIX <= proof && proof[|PROOF_PREFIX|..] == Base64.Encode(signature);
    Base64.DecodeOfEncode(signature);
    PayloadBytesDecideSubject(s, t);
  }

  /** So where a signature verifies over the payload of one genuine subject only, no other subject is accepted with it. */
  lemma AcceptedIsGenuine(lib: Library, signature: Bytes, genuine: Subject, claimed: Subject, key: Bytes)
    requires forall message :: lib.rsaPkcs1Checks(key, message, signature) ==> message == Utf8.Encode(PayloadJson(genuine))
    requires Verify(lib, PROOF_PREFIX + Base64.Encode(signature), claimed, key).Ok?
    ensures SameSubject(claimed, genuine)
  {
    hide SameDocument, PayloadJson, Utf8.Encode, Base64.Encode, Base64.Decode;
    var proof := PROOF_PREFIX + Base64.Encode(signature);
    assert PROOF_PREFIX <= proof && proof[|PROOF_PREFIX|..] == Base64.Encode(signature);
    Base64.DecodeOfEncode(signature);
    PayloadBytesDecideSubject(claimed, genuine);
  }
}
