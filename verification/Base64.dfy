/** Base64 as section 4 of RFC 4648 has it: padded, and strict about stray trailing bits. */
module Base64 {
  import opened Outcomes
  import opened Words
  import Division

  type Sextet = v: int | 0 <= v < 64

  const PAD: char := '='

  function Symbol(v: Sextet): (c: char)
    ensures IsSymbol(c)
  {
    if v < 26 then (v + 'A' as int) as char
    else if v < 52 then (v - 26 + 'a' as int) as char
    else if v < 62 then (v - 52 + '0' as int) as char
    else if v == 62 then '+'
    else '/'
  }

  predicate IsSymbol(c: char) {
    'A' <= c <= 'Z' || 'a' <= c <= 'z' || '0' <= c <= '9' || c == '+' || c == '/'
  }

  function Value(c: char): (v: Sextet)
    requires IsSymbol(c)
    ensures Symbol(v) == c
  {
    if 'A' <= c <= 'Z' then c as int - 'A' as int
    else if 'a' <= c <= 'z' then c as int - 'a' as int + 26
    else if '0' <= c <= '9' then c as int - '0' as int + 52
    else if c == '+' then 62
    else 63
  }

  lemma SymbolInjective(v: Sextet, w: Sextet)
    requires Symbol(v) == Symbol(w)
    ensures v == w
  {
  }

  // Three bytes are four sextets: x = aaaaaabb, y = bbbbcccc, z = ccdddddd.

  function First(x: Byte): Sextet { x / 4 }
  function Second(x: Byte, y: Byte): Sextet { x % 4 * 16 + y / 16 }
  function Third(y: Byte, z: Byte): Sextet { y % 16 * 4 + z / 64 }
  function Fourth(z: Byte): Sextet { z % 64 }

  function Byte0(a: Sextet, b: Sextet): Byte { a * 4 + b / 16 }
  function Byte1(b: Sextet, c: Sextet): Byte { b % 16 * 16 + c / 4 }
  function Byte2(c: Sextet, d: Sextet): Byte { c % 4 * 64 + d }

  lemma BytesToSextets(x: Byte, y: Byte, z: Byte)
    ensures Byte0(First(x), Second(x, y)) == x
    ensures Byte1(Second(x, y), Third(y, z)) == y
    ensures Byte2(Third(y, z), Fourth(z)) == z
  {
  }

  lemma SextetsToBytes(a: Sextet, b: Sextet, c: Sextet, d: Sextet)
    ensures First(Byte0(a, b)) == a
    ensures Second(Byte0(a, b), Byte1(b, c)) == b
    ensures Third(Byte1(b, c), Byte2(c, d)) == c
    ensures Fourth(Byte2(c, d)) == d
  {
  }

  function Encode(bytes: Bytes): (s: string) {
    if |bytes| == 0 then ""
    else if |bytes| == 1 then
      [Symbol(First(bytes[0])), Symbol(Second(bytes[0], 0)), PAD, PAD]
    else if |bytes| == 2 then
      [Symbol(First(bytes[0])), Symbol(Second(bytes[0], bytes[1])), Symbol(Third(bytes[1], 0)), PAD]
    else
      EncodeTriple(bytes[0], bytes[1], bytes[2]) + Encode(bytes[3..])
  }

  function EncodeTriple(x: Byte, y: Byte, z: Byte): (s: string)
    ensures |s| == 4
  {
    [Symbol(First(x)), Symbol(Second(x, y)), Symbol(Third(y, z)), Symbol(Fourth(z))]
  }

  function Decode(s: string): (r: Option<Bytes>) {
    if |s| == 0 then Some([])
    else if |s| < 4 then None
    else if |s| == 4 then DecodeLast(s[0], s[1], s[2], s[3])
    else
      match (DecodeFull(s[0], s[1], s[2], s[3]), Decode(s[4..]))
      case (Some(head), Some(rest)) => Some(head + rest)
      case _ => None
  }

  function DecodeFull(p: char, q: char, r: char, t: char): (bytes: Option<Bytes>)
    ensures bytes.Some? ==> |bytes.value| == 3
  {
    if IsSymbol(p) && IsSymbol(q) && IsSymbol(r) && IsSymbol(t) then
      var (a, b, c, d) := (Value(p), Value(q), Value(r), Value(t));
      Some([Byte0(a, b), Byte1(b, c), Byte2(c, d)])
    else None
  }

  /** The last quantum may be padded; the bits the padding leaves over must be zero. */
  function DecodeLast(p: char, q: char, r: char, t: char): (bytes: Option<Bytes>) {
    if t != PAD then DecodeFull(p, q, r, t)
    else if !IsSymbol(p) || !IsSymbol(q) then None
    else if r == PAD then
      if Value(q) % 16 == 0 then Some([Byte0(Value(p), Value(q))]) else None
    else if IsSymbol(r) && Value(r) % 4 == 0 then
      Some([Byte0(Value(p), Value(q)), Byte1(Value(q), Value(r))])
    else None
  }

  lemma ValueOfSymbol(v: Sextet)
    ensures Value(Symbol(v)) == v
  {
    SymbolInjective(Value(Symbol(v)), v);
  }

  lemma FullRoundTrip(x: Byte, y: Byte, z: Byte)
    ensures var s := EncodeTriple(x, y, z); DecodeFull(s[0], s[1], s[2], s[3]) == Some([x, y, z])
  {
    ValueOfSymbol(First(x));
    ValueOfSymbol(Second(x, y));
    ValueOfSymbol(Third(y, z));
    ValueOfSymbol(Fourth(z));
    BytesToSextets(x, y, z);
  }

  lemma DecodeOnePadded(a: Sextet, b: Sextet)
    requires b % 16 == 0
    ensures DecodeLast(Symbol(a), Symbol(b), PAD, PAD) == Some([Byte0(a, b)])
  {
    ValueOfSymbol(a);
    ValueOfSymbol(b);
  }

  lemma DecodeTwoPadded(a: Sextet, b: Sextet, c: Sextet)
    requires c % 4 == 0
    ensures DecodeLast(Symbol(a), Symbol(b), Symbol(c), PAD) == Some([Byte0(a, b), Byte1(b, c)])
  {
    ValueOfSymbol(a);
    ValueOfSymbol(b);
    ValueOfSymbol(c);
    assert Symbol(c) != PAD;
  }

  lemma PaddedRoundTrip(x: Byte, y: Byte)
    ensures Decode(Encode([x])) == Some([x])
    ensures Decode(Encode([x, y])) == Some([x, y])
  {
    hide Symbol, DecodeLast, First, Second, Third;
    BytesToSextets(x, 0, 0);
    BytesToSextets(x, y, 0);
    DecodeOnePadded(First(x), Second(x, 0));
    DecodeTwoPadded(First(x), Second(x, y), Third(y, 0));
  }

  lemma DecodeStep(s: string, head: Bytes, rest: Bytes)
    requires |s| >= 4 && s[3] != PAD
    requires DecodeFull(s[0], s[1], s[2], s[3]) == Some(head)
    requires Decode(s[4..]) == Some(rest)
    ensures Decode(s) == Some(head + rest)
  {
    if |s| == 4 {
      assert s[4..] == "" && head + rest == head;
    }
  }

  lemma EncodeStep(x: Byte, y: Byte, z: Byte, rest: Bytes)
    ensures Encode([x, y, z] + rest) == EncodeTriple(x, y, z) + Encode(rest)
  {
    assert ([x, y, z] + rest)[3..] == rest;
  }

  /** Decoding undoes encoding. */
  lemma {:induction false} DecodeOfEncode(bytes: Bytes)
    ensures Decode(Encode(bytes)) == Some(bytes)
  {
    if |bytes| == 1 {
      PaddedRoundTrip(bytes[0], 0);
      assert bytes == [bytes[0]];
    } else if |bytes| == 2 {
      PaddedRoundTrip(bytes[0], bytes[1]);
      assert bytes == [bytes[0], bytes[1]];
    } else if |bytes| >= 3 {
      var x, y, z, rest := bytes[0], bytes[1], bytes[2], bytes[3..];
      assert bytes == [x, y, z] + rest;
      DecodeOfEncode(rest);
      FullRoundTrip(x, y, z);
      EncodeStep(x, y, z, rest);
      var s := EncodeTriple(x, y, z) + Encode(rest);
      assert s[4..] == Encode(rest);
      DecodeStep(s, [x, y, z], rest);
    }
  }

  lemma FullReencodes(p: char, q: char, r: char, t: char)
    requires DecodeFull(p, q, r, t).Some?
    ensures var b := DecodeFull(p, q, r, t).value; EncodeTriple(b[0], b[1], b[2]) == [p, q, r, t]
  {
    SextetsToBytes(Value(p), Value(q), Value(r), Value(t));
  }

  lemma LastReencodes(p: char, q: char, r: char, t: char)
    requires DecodeLast(p, q, r, t).Some?
    ensures Encode(DecodeLast(p, q, r, t).value) == [p, q, r, t]
  {
    var b := DecodeLast(p, q, r, t).value;
    if t != PAD {
      FullReencodes(p, q, r, t);
      assert Encode(b[3..]) == "";
    } else if r == PAD {
      SextetsToBytes(Value(p), Value(q), 0, 0);
    } else {
      SextetsToBytes(Value(p), Value(q), Value(r), 0);
    }
  }

  lemma DecodeSplits(s: string) returns (head: Bytes, rest: Bytes)
    requires |s| > 4 && Decode(s).Some?
    ensures DecodeFull(s[0], s[1], s[2], s[3]) == Some(head) && Decode(s[4..]) == Some(rest)
    ensures |head| == 3 && Decode(s).value == head + rest
  {
    head, rest := DecodeFull(s[0], s[1], s[2], s[3]).value, Decode(s[4..]).value;
  }

  /** The decoder accepts the encoder's spellings and no others. */
  lemma {:induction false} EncodeOfDecode(s: string)
    requires Decode(s).Some?
    ensures Encode(Decode(s).value) == s
  {
    hide DecodeFull, DecodeLast, EncodeTriple;
    if |s| == 4 {
      LastReencodes(s[0], s[1], s[2], s[3]);
      assert s == [s[0], s[1], s[2], s[3]];
    } else if |s| > 4 {
      var head, rest := DecodeSplits(s);
      EncodeOfDecode(s[4..]);
      FullReencodes(s[0], s[1], s[2], s[3]);
      assert head == [head[0], head[1], head[2]];
      EncodeStep(head[0], head[1], head[2], rest);
      assert s == [s[0], s[1], s[2], s[3]] + s[4..];
    }
  }

  /** Every character an encoding can hold; `.`, `-` and whitespace are not among them. */
  predicate IsEncodingChar(c: char) {
    IsSymbol(c) || c == PAD
  }

  lemma {:induction false} EncodingChars(bytes: Bytes)
    ensures forall i :: 0 <= i < |Encode(bytes)| ==> IsEncodingChar(Encode(bytes)[i])
  {
    if |bytes| >= 3 {
      EncodingChars(bytes[3..]);
    }
  }

  lemma EncodingHasNoDot(bytes: Bytes)
    ensures '.' !in Encode(bytes)
  {
    EncodingChars(bytes);
    assert !IsEncodingChar('.');
  }

  /** The table of section 4, in order. */
  const UPPER := "ABCDEFGHIJKLMNOPQRSTUVWXYZ"
  const LOWER := "abcdefghijklmnopqrstuvwxyz"
  const ALPHABET := UPPER + LOWER + "0123456789" + "+/"

  lemma LettersInOrder(i: nat)
    requires i < 26
    ensures UPPER[i] as int == 'A' as int + i && LOWER[i] as int == 'a' as int + i
  {
  }

  lemma AlphabetParts(i: nat)
    ensures |ALPHABET| == 64 && |UPPER| == |LOWER| == 26
    ensures i < 26 ==> ALPHABET[i] == UPPER[i] && ALPHABET[26 + i] == LOWER[i]
    ensures i < 10 ==> ALPHABET[52 + i] as int == '0' as int + i
    ensures ALPHABET[62] == '+' && ALPHABET[63] == '/'
  {
    assert |UPPER| == 26 && |LOWER| == 26;
    hide UPPER, LOWER;
  }

  lemma SymbolIsTabled(v: Sextet)
    ensures |ALPHABET| == 64 && Symbol(v) == ALPHABET[v]
  {
    hide UPPER, LOWER, ALPHABET;
    var i := if v < 26 then v else if v < 52 then v - 26 else if v < 62 then v - 52 else 0;
    AlphabetParts(i);
    if v < 52 {
      LettersInOrder(i);
    }
  }

  /** Symbol `i` of a 24-bit group, the highest bits first. */
  function GroupSymbol(group: nat, i: nat): char
    requires group < 0x100_0000 && i < 4
  {
    assert |ALPHABET| == 64;
    if i == 0 then ALPHABET[group / 0x4_0000] else if i == 1 then ALPHABET[group / 0x1000 % 64]
    else if i == 2 then ALPHABET[group / 64 % 64] else ALPHABET[group % 64]
  }

  lemma GroupBits(x: Byte, y: Byte, z: Byte)
    ensures var g := x * 0x1_0000 + y * 0x100 + z;
            g < 0x100_0000 && First(x) == g / 0x4_0000 && Second(x, y) == g / 0x1000 % 64 && Third(y, z) == g / 64 % 64 && Fourth(z) == g % 64
  {
    var g := x * 0x1_0000 + y * 0x100 + z;
    var (a, b) := (x / 4, x % 4);
    var (c, d) := (y / 16, y % 16);
    var (e, f) := (z / 64, z % 64);
    assert x == 4 * a + b && y == 16 * c + d && z == 64 * e + f;
    Division.QuotientUnique(g, 0x4_0000, a, b * 0x1_0000 + y * 0x100 + z);
    Division.QuotientUnique(g, 0x1000, x * 16 + c, d * 0x100 + z);
    Division.QuotientUnique(x * 16 + c, 64, a, b * 16 + c);
    Division.QuotientUnique(g, 64, x * 0x400 + y * 4 + e, f);
    Division.QuotientUnique(x * 0x400 + y * 4 + e, 64, x * 16 + c, d * 4 + e);
  }

  lemma GroupSymbols(x: Byte, y: Byte, z: Byte)
    ensures var g := x * 0x1_0000 + y * 0x100 + z;
            && g < 0x100_0000
            && Symbol(First(x)) == GroupSymbol(g, 0) && Symbol(Second(x, y)) == GroupSymbol(g, 1)
            && Symbol(Third(y, z)) == GroupSymbol(g, 2) && Symbol(Fourth(z)) == GroupSymbol(g, 3)
  {
    GroupBits(x, y, z);
    hide First, Second, Third, Fourth, Symbol, ALPHABET;
    SymbolIsTabled(First(x));
    SymbolIsTabled(Second(x, y));
    SymbolIsTabled(Third(y, z));
    SymbolIsTabled(Fourth(z));
  }

  /** The byte at `i`, or the zero bits that fill up the last group. */
  function ByteOrZero(bytes: Bytes, i: nat): Byte {
    if i < |bytes| then bytes[i] else 0
  }

  /**
   * Quantum `k` of an encoding, told by the bits: three bytes, or what is left of them filled up with zeros,
   * make a group of 24 bits; four symbols of the table spell it, and a symbol that would spell filling alone is `=`.
   */
  lemma {:induction false} QuantumSpelledOut(bytes: Bytes, k: nat)
    requires 3 * k < |bytes|
    ensures |Encode(bytes)| == (|bytes| + 2) / 3 * 4
    ensures var g := ByteOrZero(bytes, 3 * k) * 0x1_0000 + ByteOrZero(bytes, 3 * k + 1) * 0x100 + ByteOrZero(bytes, 3 * k + 2);
            && g < 0x100_0000 && 4 * k + 3 < |Encode(bytes)|
            && Encode(bytes)[4 * k] == GroupSymbol(g, 0)
            && Encode(bytes)[4 * k + 1] == GroupSymbol(g, 1)
            && Encode(bytes)[4 * k + 2] == (if 3 * k + 1 < |bytes| then GroupSymbol(g, 2) else '=')
            && Encode(bytes)[4 * k + 3] == (if 3 * k + 2 < |bytes| then GroupSymbol(g, 3) else '=')
  {
    hide Symbol, First, Second, Third, Fourth, GroupSymbol;
    GroupSymbols(ByteOrZero(bytes, 3 * k), ByteOrZero(bytes, 3 * k + 1), ByteOrZero(bytes, 3 * k + 2));
    if |bytes| > 3 {
      QuantumSpelledOut(bytes[3..], if k > 0 then k - 1 else 0);
      if k > 0 {
        assert forall j :: 3 <= j < |bytes| ==> bytes[j] == bytes[3..][j - 3];
        assert forall j :: 4 <= j < |Encode(bytes)| ==> Encode(bytes)[j] == Encode(bytes[3..])[j - 4];
      }
    }
  }
}
