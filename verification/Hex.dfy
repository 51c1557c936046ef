/** Lowercase hexadecimal, the spelling of fingerprints, key ids and UUIDs. */
module Hex {
  import opened Outcomes
  import opened Words

  const DIGITS := "0123456789abcdef"

  function OfByte(b: Byte): (s: string)
    ensures |s| == 2 && s[0] in DIGITS && s[1] in DIGITS
  {
    [DIGITS[b / 16], DIGITS[b % 16]]
  }

  function Of(bytes: Bytes): (s: string)
    ensures |s| == 2 * |bytes|
    ensures forall i :: 0 <= i < |s| ==> s[i] in DIGITS
  {
    if bytes == [] then "" else OfByte(bytes[0]) + Of(bytes[1..])
  }

  lemma DigitsDistinct(m: nat, n: nat)
    requires m < 16 && n < 16 && DIGITS[m] == DIGITS[n]
    ensures m == n
  {
  }

  lemma {:induction false} Injective(a: Bytes, b: Bytes)
    requires Of(a) == Of(b)
    ensures a == b
  {
    hide DIGITS;
    if a != [] {
      assert |b| == |a|;
      var s, t := Of(a), Of(b);
      assert s[0] == t[0] && s[1] == t[1] && s[2..] == t[2..];
      assert s[2..] == Of(a[1..]) && t[2..] == Of(b[1..]);
      DigitsDistinct(a[0] / 16, b[0] / 16);
      DigitsDistinct(a[0] % 16, b[0] % 16);
      Injective(a[1..], b[1..]);
      assert a == [a[0]] + a[1..] && b == [b[0]] + b[1..];
    }
  }

  lemma {:induction false} Append(a: Bytes, b: Byte)
    ensures Of(a + [b]) == Of(a) + OfByte(b)
  {
    if a == [] {
      assert a + [b] == [b];
      assert Of([b]) == OfByte(b) + Of([]);
    } else {
      assert (a + [b])[1..] == a[1..] + [b];
      Append(a[1..], b);
    }
  }

  lemma Extends(bytes: Bytes, i: nat)
    requires i < |bytes|
    ensures Of(bytes[..i + 1]) == Of(bytes[..i]) + OfByte(bytes[i])
  {
    assert bytes[..i + 1] == bytes[..i] + [bytes[i]];
    Append(bytes[..i], bytes[i]);
  }

  /** Pushes two digits a byte. */
  method Spell(bytes: Bytes) returns (hex: string)
    ensures hex == Of(bytes)
  {
    hex := "";
    var i := 0;
    while i < |bytes|
      invariant i <= |bytes|
      invariant hex == Of(bytes[..i])
    {
      hide Of, OfByte, DIGITS;
      var digits := OfByte(bytes[i]);
      Extends(bytes, i);
      ghost var before := hex;
      hex := hex + [digits[0]];
      hex := hex + [digits[1]];
      assert hex == before + digits;
      i := i + 1;
    }
    assert bytes[..i] == bytes;
  }

  /** The number a hexadecimal digit stands for, in either case. */
  function Value(c: char): (n: Option<nat>)
    ensures n.Some? ==> n.value < 16
  {
    if '0' <= c <= '9' then Some(c as int - '0' as int)
    else if 'a' <= c <= 'f' then Some(c as int - 'a' as int + 10)
    else if 'A' <= c <= 'F' then Some(c as int - 'A' as int + 10)
    else None
  }

  /** Two lowercase digits that read, the higher first, as the number `b`. */
  predicate Spells(p: char, q: char, b: nat) {
    && ('0' <= p <= '9' || 'a' <= p <= 'f')
    && ('0' <= q <= '9' || 'a' <= q <= 'f')
    && Value(p).value * 16 + Value(q).value == b
  }

  lemma DigitReads(n: nat)
    requires n < 16
    ensures Value(DIGITS[n]) == Some(n) && ('0' <= DIGITS[n] <= '9' || 'a' <= DIGITS[n] <= 'f')
  {
  }

  lemma ByteReads(b: Byte)
    ensures Spells(OfByte(b)[0], OfByte(b)[1], b)
  {
    hide DIGITS, Value;
    DigitReads(b / 16);
    DigitReads(b % 16);
  }

  /** The two digits at `2 * k` spell byte `k`. */
  lemma {:induction false} Reads(bytes: Bytes, k: nat)
    requires k < |bytes|
    ensures Spells(Of(bytes)[2 * k], Of(bytes)[2 * k + 1], bytes[k])
  {
    hide OfByte, Spells, DIGITS;
    var s, head, tail := Of(bytes), OfByte(bytes[0]), Of(bytes[1..]);
    assert s == head + tail;
    hide Of;
    if k == 0 {
      ByteReads(bytes[0]);
      assert s[0] == head[0] && s[1] == head[1];
    } else {
      Reads(bytes[1..], k - 1);
      assert s[2 * k] == tail[2 * k - 2] && s[2 * k + 1] == tail[2 * k - 1] && bytes[1..][k - 1] == bytes[k];
    }
  }
}
