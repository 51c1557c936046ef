/** Lexicographic order on integer sequences: the order Rust's `Ord for [u8]` uses. */
module Lexicographic {
  predicate Less(a: seq<int>, b: seq<int>) {
    b != [] && (a == [] || a[0] < b[0] || (a[0] == b[0] && Less(a[1..], b[1..])))
  }

  predicate AtMost(a: seq<int>, b: seq<int>) {
    a == b || Less(a, b)
  }

  /** `a` and `b` agree before `i` and part at `i`, inside both. */
  ghost predicate PartAt(a: seq<int>, b: seq<int>, i: nat) {
    && i < |a| && i < |b|
    && a[..i] == b[..i]
    && a[i] != b[i]
  }

  /** Where two sequences part decides how they compare. */
  lemma {:induction false} PartingDecides(a: seq<int>, b: seq<int>, i: nat)
    requires PartAt(a, b, i)
    ensures Less(a, b) <==> a[i] < b[i]
    decreases i
  {
    if i > 0 {
      assert a[0] == a[..i][0] == b[..i][0] == b[0];
      assert a[1..][..i - 1] == a[..i][1..] == b[..i][1..] == b[1..][..i - 1];
      PartingDecides(a[1..], b[1..], i - 1);
    }
  }

  lemma {:induction false} CommonPrefixCancels(p: seq<int>, a: seq<int>, b: seq<int>)
    ensures Less(p + a, p + b) <==> Less(a, b)
  {
    if p == [] {
      assert p + a == a && p + b == b;
    } else {
      assert (p + a)[1..] == p[1..] + a && (p + b)[1..] == p[1..] + b;
      CommonPrefixCancels(p[1..], a, b);
    }
  }

  lemma {:induction false} Irreflexive(a: seq<int>)
    ensures !Less(a, a)
  {
    if a != [] {
      Irreflexive(a[1..]);
    }
  }

  lemma {:induction false} Transitive(a: seq<int>, b: seq<int>, c: seq<int>)
    requires Less(a, b) && Less(b, c)
    ensures Less(a, c)
  {
    if a != [] && a[0] == b[0] == c[0] {
      Transitive(a[1..], b[1..], c[1..]);
    }
  }

  lemma {:induction false} Total(a: seq<int>, b: seq<int>)
    ensures Less(a, b) || a == b || Less(b, a)
  {
    if a != [] && b != [] && a[0] == b[0] {
      Total(a[1..], b[1..]);
      assert a == [a[0]] + a[1..] && b == [b[0]] + b[1..];
    }
  }

  lemma Asymmetric(a: seq<int>, b: seq<int>)
    requires Less(a, b)
    ensures !Less(b, a)
  {
    if Less(b, a) {
      Transitive(a, b, a);
      Irreflexive(a);
    }
  }
}

/** Rust strings are sequences of Unicode scalar values held as UTF-8 (RFC 3629). */
module Utf8 {
  import opened Words
  import Lexicographic

  /** Section 3 of RFC 3629: one to four bytes a scalar value. */
  function EncodeChar(c: char): (bytes: Bytes)
    ensures 1 <= |bytes| <= 4
  {
    var n := c as int;
    if n < 0x80 then [n]
    else if n < 0x800 then [0xC0 + n / 0x40, Continuation(n)]
    else if n < 0x1_0000 then [0xE0 + n / 0x40 / 0x40, Continuation(n / 0x40), Continuation(n)]
    else [0xF0 + n / 0x40 / 0x40 / 0x40, Continuation(n / 0x40 / 0x40), Continuation(n / 0x40), Continuation(n)]
  }

  /** The low six bits under the continuation marker `10`. */
  function Continuation(n: nat): (b: Byte)
    ensures 0x80 <= b < 0xC0
  {
    0x80 + n % 0x40
  }

  function Encode(s: string): (bytes: Bytes) {
    if s == "" then [] else EncodeChar(s[0]) + Encode(s[1..])
  }

  /**
   * The table of section 3 of RFC 3629: the lead byte tells the length, every other byte is a continuation,
   * and the payload bits spell the scalar value.
   */
  lemma EncodeCharMatchesTable(c: char)
    ensures var b: seq<int> := EncodeChar(c);
            var n := c as int;
            && (|b| == 1 <==> n < 0x80)
            && (|b| == 2 <==> 0x80 <= n < 0x800)
            && (|b| == 3 <==> 0x800 <= n < 0x1_0000)
            && (|b| == 4 <==> 0x1_0000 <= n)
            && (|b| == 1 ==> b[0] == n)
            && (|b| == 2 ==> 0xC2 <= b[0] < 0xE0 && n == (b[0] - 0xC0) * 0x40 + (b[1] - 0x80))
            && (|b| == 3 ==> 0xE0 <= b[0] < 0xF0 && n == ((b[0] - 0xE0) * 0x40 + (b[1] - 0x80)) * 0x40 + (b[2] - 0x80))
            && (|b| == 4 ==> 0xF0 <= b[0] < 0xF5 && n == (((b[0] - 0xF0) * 0x40 + (b[1] - 0x80)) * 0x40 + (b[2] - 0x80)) * 0x40 + (b[3] - 0x80))
            && forall i :: 1 <= i < |b| ==> 0x80 <= b[i] < 0xC0
  {
  }

  /** A string's bytes are those of its characters, one after another. */
  lemma {:induction false} EncodesCharByChar(s: string, c: char)
    ensures Encode("") == []
    ensures Encode(s + [c]) == Encode(s) + EncodeChar(c)
  {
    EncodeAppend(s, [c]);
    assert Encode([c]) == EncodeChar(c) + Encode([c][1..]);
  }

  function CodePoints(s: string): (codes: seq<int>)
    ensures |codes| == |s| && forall i :: 0 <= i < |s| ==> codes[i] == s[i] as int
  {
    seq(|s|, i requires 0 <= i < |s| => s[i] as int)
  }

  /** The encodings of two different scalar values part inside both of them, in code-point order. */
  lemma CharsPart(c: char, d: char) returns (i: nat)
    requires c < d
    ensures Lexicographic.PartAt(EncodeChar(c), EncodeChar(d), i)
    ensures EncodeChar(c)[i] < EncodeChar(d)[i]
  {
    LeadBytesOrdered(c, d);
    var m, n := c as int, d as int;
    var a, b := EncodeChar(c), EncodeChar(d);
    if a[0] != b[0] {
      return 0;
    }
    SixBitsDecide(m, n);
    if |a| == 2 {
      assert a[..1] == b[..1];
      return 1;
    }
    if |a| == 3 {
      if m / 0x40 == n / 0x40 {
        assert a[..2] == b[..2];
        return 2;
      }
      SixBitsDecide(m / 0x40, n / 0x40);
      assert a[..1] == b[..1];
      return 1;
    }
    i := QuadsPart(m, n, a, b);
  }

  lemma QuadsPart(m: nat, n: nat, a: seq<int>, b: seq<int>) returns (i: nat)
    requires m < n && m / 0x40 / 0x40 / 0x40 == n / 0x40 / 0x40 / 0x40
    requires |a| == |b| == 4 && a[0] == b[0]
    requires a[1..] == [Continuation(m / 0x40 / 0x40), Continuation(m / 0x40), Continuation(m)]
    requires b[1..] == [Continuation(n / 0x40 / 0x40), Continuation(n / 0x40), Continuation(n)]
    ensures Lexicographic.PartAt(a, b, i) && a[i] < b[i]
  {
    assert a[1] == a[1..][0] && a[2] == a[1..][1] && a[3] == a[1..][2];
    assert b[1] == b[1..][0] && b[2] == b[1..][1] && b[3] == b[1..][2];
    SixBitsDecide(m, n);
    if m / 0x40 == n / 0x40 {
      assert a[..3] == b[..3];
      return 3;
    }
    SixBitsDecide(m / 0x40, n / 0x40);
    if m / 0x40 / 0x40 == n / 0x40 / 0x40 {
      assert a[..2] == b[..2];
      return 2;
    }
    SixBitsDecide(m / 0x40 / 0x40, n / 0x40 / 0x40);
    assert a[..1] == b[..1];
    return 1;
  }

  /** Of two numbers, either the quotients by 64 are already in order or the low six bits decide. */
  lemma SixBitsDecide(m: nat, n: nat)
    requires m < n
    ensures m / 0x40 <= n / 0x40
    ensures m / 0x40 == n / 0x40 ==> Continuation(m) < Continuation(n)
  {
  }

  /** Either the first bytes already differ, in order, or both encodings are equally long. */
  lemma LeadBytesOrdered(c: char, d: char)
    requires c < d
    ensures EncodeChar(c)[0] <= EncodeChar(d)[0]
    ensures EncodeChar(c)[0] == EncodeChar(d)[0] ==> |EncodeChar(c)| == |EncodeChar(d)| >= 2
  {
  }

  lemma {:induction false} EncodeAppend(s: string, t: string)
    ensures Encode(s + t) == Encode(s) + Encode(t)
  {
    if s == "" {
      assert s + t == t;
    } else {
      assert (s + t)[1..] == s[1..] + t;
      EncodeAppend(s[1..], t);
    }
  }

  /** Comparing UTF-8 bytes is comparing code points, for every pair of strings. */
  lemma {:induction false} ByteOrderIsCodePointOrder(s: string, t: string)
    ensures Lexicographic.Less(Encode(s), Encode(t)) <==> Lexicographic.Less(CodePoints(s), CodePoints(t))
  {
    if s != "" && t != "" {
      assert CodePoints(s)[1..] == CodePoints(s[1..]) && CodePoints(t)[1..] == CodePoints(t[1..]);
      if s[0] == t[0] {
        Lexicographic.CommonPrefixCancels(EncodeChar(s[0]), Encode(s[1..]), Encode(t[1..]));
        ByteOrderIsCodePointOrder(s[1..], t[1..]);
      } else if s[0] < t[0] {
        var i := CharsPart(s[0], t[0]);
        HeadsPart(s, t, i);
      } else {
        var i := CharsPart(t[0], s[0]);
        HeadsPart(t, s, i);
      }
    }
  }

  lemma HeadsPart(s: string, t: string, i: nat)
    requires s != "" && t != ""
    requires Lexicographic.PartAt(EncodeChar(s[0]), EncodeChar(t[0]), i)
    requires EncodeChar(s[0])[i] < EncodeChar(t[0])[i]
    ensures Lexicographic.Less(Encode(s), Encode(t)) && !Lexicographic.Less(Encode(t), Encode(s))
  {
    var a, b := Encode(s), Encode(t);
    assert a[..i] == EncodeChar(s[0])[..i] && b[..i] == EncodeChar(t[0])[..i];
    assert a[i] == EncodeChar(s[0])[i] && b[i] == EncodeChar(t[0])[i];
    Lexicographic.PartingDecides(a, b, i);
    Lexicographic.PartingDecides(b, a, i);
  }

  lemma EncodeInjective(s: string, t: string)
    requires Encode(s) == Encode(t)
    ensures s == t
  {
    Lexicographic.Irreflexive(Encode(s));
    ByteOrderIsCodePointOrder(s, t);
    ByteOrderIsCodePointOrder(t, s);
    Lexicographic.Total(CodePoints(s), CodePoints(t));
    assert |s| == |t| && forall i :: 0 <= i < |s| ==> s[i] as int == CodePoints(s)[i];
  }

  predicate IsAscii(s: string) {
    forall i :: 0 <= i < |s| ==> s[i] as int < 0x80
  }

  lemma {:induction false} AsciiEncodesAsItself(s: string)
    requires IsAscii(s)
    ensures Encode(s) == CodePoints(s)
  {
    if s != "" {
      assert IsAscii(s[1..]);
      AsciiEncodesAsItself(s[1..]);
      assert CodePoints(s) == [s[0] as int] + CodePoints(s[1..]);
    }
  }
}
