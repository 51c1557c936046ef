/**
 * A reader of JSON texts as RFC 8259 defines them, white space and every form of escape included. What the
 * printer writes reads back as the value it was written from, and no shorter text does.
 */
module JsonReader {
  import opened Outcomes
  import opened Words
  import opened Json
  import Hex

  // --- The reader -------------------------------------------------------------------

  /** White space between tokens, section 2. */
  function Skip(s: string): (rest: string)
    ensures |rest| <= |s|
  {
    if s != "" && (s[0] == ' ' || s[0] == '\t' || s[0] == '\n' || s[0] == '\r') then Skip(s[1..]) else s
  }

  /** What a backslash and one character stand for, section 7. */
  function SimpleEscape(c: char): Option<char> {
    if c == '"' || c == '\\' || c == '/' then Some(c)
    else if c == 'b' then Some('\U{8}')
    else if c == 'f' then Some('\U{c}')
    else if c == 'n' then Some('\n')
    else if c == 'r' then Some('\r')
    else if c == 't' then Some('\t')
    else None
  }

  function HexFour(p: char, q: char, r: char, t: char): (n: Option<nat>)
    ensures n.Some? ==> n.value < 0x1_0000
  {
    match (Hex.Value(p), Hex.Value(q), Hex.Value(r), Hex.Value(t))
    case (Some(a), Some(b), Some(c), Some(d)) => Some(((a * 16 + b) * 16 + c) * 16 + d)
    case _ => None
  }

  /** A `\u` escape: one code unit, or a pair of surrogates. */
  function ReadUnicode(s: string): (r: Option<(char, string)>)
    requires |s| >= 6 && s[0] == '\\' && s[1] == 'u'
    ensures r.Some? ==> |r.value.1| + 6 <= |s|
  {
    match HexFour(s[2], s[3], s[4], s[5])
    case None => None
    case Some(n) =>
      if n < 0xD800 || 0xE000 <= n then Some((n as char, s[6..]))
      else if n >= 0xDC00 || |s| < 12 || s[6] != '\\' || s[7] != 'u' then None
      else
        match HexFour(s[8], s[9], s[10], s[11])
        case None => None
        case Some(m) =>
          if 0xDC00 <= m < 0xE000 then Some(((0x1_0000 + (n - 0xD800) * 0x400 + (m - 0xDC00)) as char, s[12..])) else None
  }

  /** One character of a string, section 7, and what follows it. */
  function ReadChar(s: string): (r: Option<(char, string)>)
    ensures r.Some? ==> |r.value.1| < |s|
  {
    if s == "" || s[0] == '"' || s[0] as int < 0x20 then None
    else if s[0] != '\\' then Some((s[0], s[1..]))
    else if |s| >= 6 && s[1] == 'u' then ReadUnicode(s)
    else if |s| >= 2 && SimpleEscape(s[1]).Some? then Some((SimpleEscape(s[1]).value, s[2..]))
    else None
  }

  /** The rest of a string behind its opening quote, up to and with the closing one. */
  function ReadString(s: string): (r: Option<(string, string)>)
    ensures r.Some? ==> |r.value.1| < |s|
    decreases |s|
  {
    if s != "" && s[0] == '"' then Some(("", s[1..]))
    else
      match ReadChar(s)
      case None => None
      case Some((c, rest)) =>
        match ReadString(rest)
        case None => None
        case Some((tail, end)) => Some(([c] + tail, end))
  }

  /** The longest front made of number characters. */
  function TokenLength(s: string): (n: nat)
    ensures n <= |s| && forall i :: 0 <= i < n ==> IsNumberChar(s[i])
    ensures n < |s| ==> !IsNumberChar(s[n])
  {
    if s != "" && IsNumberChar(s[0]) then 1 + TokenLength(s[1..]) else 0
  }

  /** The number a run of digits spells. */
  function ReadDecimal(s: string): nat
    requires forall i :: 0 <= i < |s| ==> '0' <= s[i] <= '9'
  {
    if s == "" then 0 else ReadDecimal(s[..|s| - 1]) * 10 + (s[|s| - 1] as int - '0' as int)
  }

  /** A number with a fraction or an exponent is kept as its text. */
  function ReadNumber(token: string): Option<Value>
    requires forall i :: 0 <= i < |token| ==> IsNumberChar(token[i])
  {
    if !IsNumberText(token) then None
    else if ShowsFraction(token) then Some(Float(token))
    else
      PlainNumberIsWhole(token);
      if token[0] == '-' then Some(Integer(0 - ReadDecimal(token[1..]))) else Some(Integer(ReadDecimal(token)))
  }

  /** One value, and what follows it. */
  function ReadValue(text: string): (r: Option<(Value, string)>)
    ensures r.Some? ==> |r.value.1| < |text|
    decreases |text|, 1
  {
    var s := Skip(text);
    if s == "" then None
    else if "null" <= s then Some((Null, s[4..]))
    else if "true" <= s then Some((Bool(true), s[4..]))
    else if "false" <= s then Some((Bool(false), s[5..]))
    else if s[0] == '"' then
      match ReadString(s[1..])
      case None => None
      case Some((x, rest)) => Some((String(x), rest))
    else if s[0] == '[' then
      var t := Skip(s[1..]);
      if t != "" && t[0] == ']' then Some((Array([]), t[1..]))
      else
        match ReadElements(s[1..])
        case None => None
        case Some((items, rest)) => Some((Array(items), rest))
    else if s[0] == '{' then
      var t := Skip(s[1..]);
      if t != "" && t[0] == '}' then Some((Object([]), t[1..]))
      else
        match ReadMembers(s[1..])
        case None => None
        case Some((fields, rest)) => Some((Object(fields), rest))
    else
      var n := TokenLength(s);
      match ReadNumber(s[..n])
      case None => None
      case Some(v) =>
        assert n > 0;
        Some((v, s[n..]))
  }

  /** Elements up to and with the closing bracket. */
  function ReadElements(s: string): (r: Option<(seq<Value>, string)>)
    ensures r.Some? ==> |r.value.1| < |s|
    decreases |s|, 2
  {
    match ReadValue(s)
    case None => None
    case Some((v, after)) =>
      var t := Skip(after);
      if t == "" then None
      else if t[0] == ']' then Some(([v], t[1..]))
      else if t[0] != ',' then None
      else
        match ReadElements(t[1..])
        case None => None
        case Some((rest, end)) => Some(([v] + rest, end))
  }

  /** Members up to and with the closing brace. */
  function ReadMembers(s: string): (r: Option<(seq<Field>, string)>)
    ensures r.Some? ==> |r.value.1| < |s|
    decreases |s|, 2
  {
    match ReadMember(s)
    case None => None
    case Some((f, after)) =>
      var t := Skip(after);
      if t == "" then None
      else if t[0] == '}' then Some(([f], t[1..]))
      else if t[0] != ',' then None
      else
        match ReadMembers(t[1..])
        case None => None
        case Some((rest, end)) => Some(([f] + rest, end))
  }

  function ReadMember(s: string): (r: Option<(Field, string)>)
    ensures r.Some? ==> |r.value.1| < |s|
    decreases |s|, 1
  {
    var t := Skip(s);
    if t == "" || t[0] != '"' then None
    else
      match ReadString(t[1..])
      case None => None
      case Some((key, after)) =>
        var u := Skip(after);
        if u == "" || u[0] != ':' then None
        else
          match ReadValue(u[1..])
          case None => None
          case Some((value, rest)) => Some((Field(key, value), rest))
  }

  /** A whole text: one value, with nothing but white space around it. */
  function Read(text: string): Option<Value> {
    match ReadValue(text)
    case None => None
    case Some((v, rest)) => if Skip(rest) == "" then Some(v) else None
  }

  // --- Numbers ----------------------------------------------------------------------

  /** A number text with neither fraction nor exponent is a whole number, perhaps behind a minus. */
  lemma PlainNumberIsWhole(s: string)
    requires IsNumberText(s) && !ShowsFraction(s)
    ensures s != "" && IsWhole(if s[0] == '-' then s[1..] else s)
  {
    var u := if s != "" && s[0] == '-' then s[1..] else s;
    assert '.' !in u && 'e' !in u && 'E' !in u;
  }

  lemma {:induction false} DecimalReads(n: nat)
    ensures ReadDecimal(Decimal(n)) == n
  {
    if n >= 10 {
      var s := Decimal(n);
      assert s[..|s| - 1] == Decimal(n / 10) && s[|s| - 1] == Digit(n % 10);
      DecimalReads(n / 10);
    } else {
      assert [Digit(n)][..0] == "";
    }
  }

  lemma {:induction false} DecimalIsWhole(n: nat)
    ensures IsWhole(Decimal(n)) && (Decimal(n)[0] == '0' ==> n == 0)
  {
    if n >= 10 {
      DecimalIsWhole(n / 10);
      assert Decimal(n)[0] == Decimal(n / 10)[0];
    }
  }

  lemma IntegerReads(n: int)
    ensures ReadNumber(IntegerText(n)) == Some(Integer(n))
  {
    hide Decimal;
    var s := IntegerText(n);
    var u := Decimal(if n < 0 then -n else n);
    DecimalIsWhole(if n < 0 then -n else n);
    DecimalReads(if n < 0 then -n else n);
    assert u[0] != '-' && s == if n < 0 then "-" + u else u;
    assert (if s[0] == '-' then s[1..] else s) == u;
    assert '.' !in u && 'e' !in u && 'E' !in u;
    assert IsNumberText(s) && !ShowsFraction(s);
  }

  lemma DecimalAppends(q: nat, d: nat)
    requires q > 0 && d < 10
    ensures Decimal(q * 10 + d) == Decimal(q) + [Digit(d)]
  {
    assert (q * 10 + d) / 10 == q && (q * 10 + d) % 10 == d;
  }

  /** A whole number text is the one the printer writes. */
  lemma {:induction false} WholeIsDecimal(s: string)
    requires IsWhole(s)
    ensures Decimal(ReadDecimal(s)) == s
  {
    var front, d := s[..|s| - 1], s[|s| - 1] as int - '0' as int;
    assert s == front + [s[|s| - 1]] && s[|s| - 1] == Digit(d);
    if front == "" {
      assert ReadDecimal(front) == 0 && ReadDecimal(s) == d;
    } else {
      assert front[0] == s[0];
      WholeIsDecimal(front);
      PositiveReads(front);
      var q := ReadDecimal(front);
      assert ReadDecimal(s) == q * 10 + d;
      hide Decimal, ReadDecimal;
      DecimalAppends(q, d);
    }
  }

  lemma {:induction false} PositiveReads(s: string)
    requires IsDigits(s) && s[0] != '0'
    ensures ReadDecimal(s) > 0
  {
    if |s| > 1 {
      PositiveReads(s[..|s| - 1]);
    }
  }

  /** No number text is shorter than the printed one. */
  lemma ShortestNumber(token: string)
    requires forall i :: 0 <= i < |token| ==> IsNumberChar(token[i])
    requires ReadNumber(token).Some?
    ensures |Print(ReadNumber(token).value)| <= |token|
  {
    hide Decimal, ReadDecimal, IsNumberText;
    if !ShowsFraction(token) {
      PlainNumberIsWhole(token);
      WholeIsDecimal(if token[0] == '-' then token[1..] else token);
      ZeroIsShort();
    }
  }

  lemma ZeroIsShort()
    ensures |Decimal(0)| == 1
  {
  }

  // --- Strings ----------------------------------------------------------------------

  /** An escape is the character itself, a backslash and a letter, or `\u00` and two lowercase digits that spell it. */
  lemma EscapeShape(c: char)
    ensures var e := EscapeChar(c);
            && (|e| == 1 || |e| == 2 || |e| == 6)
            && (|e| == 1 ==> e[0] == c && c != '\\' && c != '"' && c as int >= 0x20)
            && (|e| == 2 ==> e[0] == '\\' && e[1] != 'u' && SimpleEscape(e[1]) == Some(c))
            && (|e| == 6 ==> e[..4] == "\\u00" && Hex.Spells(e[4], e[5], c as int))
  {
    hide Hex.OfByte, Hex.Spells;
    if c as int < 0x20 {
      Hex.ByteReads(c as int);
    }
  }

  lemma EscapeReadsBack(c: char, rest: string)
    ensures ReadChar(EscapeChar(c) + rest) == Some((c, rest))
  {
    hide EscapeChar;
    EscapeShape(c);
    var e, s := EscapeChar(c), EscapeChar(c) + rest;
    assert s[..|e|] == e && s[|e|..] == rest;
    assert s[0] == e[0] && (|e| >= 2 ==> s[1] == e[1]);
    if |e| == 6 {
      assert e[..4][0] == '\\' && e[..4][1] == 'u' && e[..4][2] == '0' && e[..4][3] == '0';
      assert s[2] == e[2] && s[3] == e[3] && s[4] == e[4] && s[5] == e[5];
      assert HexFour(s[2], s[3], s[4], s[5]) == Some(c as int);
    }
  }

  /** The reader gets back from the printed string exactly the string it was printed from. */
  lemma {:induction false} EscapedStringReadsBack(s: string, rest: string)
    ensures ReadString(Escape(s) + ("\"" + rest)) == Some((s, rest))
  {
    hide ReadChar, EscapeChar;
    if s == "" {
      assert Escape(s) + ("\"" + rest) == "\"" + rest;
    } else {
      var tail := Escape(s[1..]) + ("\"" + rest);
      assert Escape(s) + ("\"" + rest) == EscapeChar(s[0]) + tail;
      assert (EscapeChar(s[0]) + tail)[0] == EscapeChar(s[0])[0];
      EscapeReadsBack(s[0], tail);
      EscapedStringReadsBack(s[1..], rest);
      assert s == [s[0]] + s[1..];
    }
  }

  /** No shorter text reads as the same character. */
  lemma ShortestChar(s: string)
    ensures ReadChar(s).Some? ==> |EscapeChar(ReadChar(s).value.0)| <= |s| - |ReadChar(s).value.1|
  {
    hide HexFour;
  }

  lemma {:induction false} ShortestString(s: string)
    ensures ReadString(s).Some? ==> |Escape(ReadString(s).value.0)| + 1 <= |s| - |ReadString(s).value.1|
    decreases |s|
  {
    hide ReadChar, EscapeChar;
    if ReadString(s).Some? && s[0] != '"' {
      ShortestChar(s);
      ShortestString(ReadChar(s).value.1);
      var x := ReadString(s).value.0;
      assert x[1..] == ReadString(ReadChar(s).value.1).value.0;
    }
  }

  // --- Printed values read back -------------------------------------------------------

  /** What may follow a value: nothing, or the punctuation that ends it. */
  predicate Ends(rest: string) {
    rest == "" || rest[0] == ',' || rest[0] == ']' || rest[0] == '}'
  }

  lemma TokenOf(token: string, rest: string)
    requires Ends(rest) && forall i :: 0 <= i < |token| ==> IsNumberChar(token[i])
    ensures TokenLength(token + rest) == |token|
  {
    var s, n := token + rest, TokenLength(token + rest);
    assert forall i :: 0 <= i < |token| ==> s[i] == token[i];
    assert |token| < |s| ==> s[|token|] == rest[0];
  }

  /** The first character tells a value's kind, and is no white space. */
  lemma FirstChar(v: Value)
    ensures Print(v) != ""
    ensures var c := Print(v)[0];
            match v
            case Null => c == 'n'
            case Bool(b) => c == if b then 't' else 'f'
            case Integer(_) | Float(_) => IsNumberChar(c)
            case String(_) => c == '"'
            case Array(_) => c == '['
            case Object(_) => c == '{'
  {
    hide IsNumberText;
    if v.Float? {
      assert ShowsFraction(v.text);
    }
  }

  lemma NothingToSkip(v: Value, rest: string)
    ensures Skip(Print(v) + rest) == Print(v) + rest
  {
    hide Print;
    FirstChar(v);
    assert (Print(v) + rest)[0] == Print(v)[0];
  }

  lemma NumberReadsBack(v: Value, rest: string)
    requires (v.Integer? || v.Float?) && Ends(rest)
    ensures ReadValue(Print(v) + rest) == Some((v, rest))
  {
    hide IsNumberText, IntegerText, ReadNumber;
    var s := Print(v) + rest;
    FirstChar(v);
    NothingToSkip(v, rest);
    TokenOf(Print(v), rest);
    assert s[..|Print(v)|] == Print(v) && s[|Print(v)|..] == rest && s[0] == Print(v)[0];
    if v.Integer? {
      IntegerReads(v.n);
    } else {
      FloatReads(v.text);
    }
  }

  lemma FloatReads(text: FloatText)
    ensures ReadNumber(text) == Some(Float(text))
  {
  }

  lemma LiteralReadsBack(v: Value, rest: string)
    requires v.Null? || v.Bool?
    ensures ReadValue(Print(v) + rest) == Some((v, rest))
  {
    NothingToSkip(v, rest);
    var s := Print(v) + rest;
    assert s[|Print(v)|..] == rest && Print(v) <= s && s[0] == Print(v)[0];
  }

  lemma StringReadsBack(x: string, rest: string)
    ensures ReadValue(Quote(x) + rest) == Some((String(x), rest))
  {
    hide Escape, ReadString;
    NothingToSkip(String(x), rest);
    var s := Quote(x) + rest;
    assert s[0] == '"' && s[1..] == Escape(x) + ("\"" + rest);
    EscapedStringReadsBack(x, rest);
  }

  lemma PunctuationIsNotSkipped(s: string)
    requires s != "" && (s[0] == ',' || s[0] == ':' || s[0] == ']' || s[0] == '}' || s[0] == '"')
    ensures Skip(s) == s
  {
  }

  lemma {:induction false} ItemsBehindComma(items: seq<Value>, close: string)
    requires items != []
    ensures PrintItems(items, true) + close == Print(items[0]) + (PrintItems(items[1..], false) + close)
    ensures PrintItems(items, false) + close == "," + (PrintItems(items, true) + close)
  {
    hide Print;
  }

  lemma {:induction false} ElementsReadBack(items: seq<Value>, rest: string)
    requires items != []
    ensures ReadElements(PrintItems(items, true) + ("]" + rest)) == Some((items, rest))
    decreases items, 0
  {
    hide Print, PrintItems, ReadValue;
    var close, tail := "]" + rest, items[1..];
    var after := PrintItems(tail, false) + close;
    ItemsBehindComma(items, close);
    if tail == [] {
      NoItemsNoText();
      assert after == close;
      assert [items[0]] == items;
    } else {
      ItemsBehindComma(tail, close);
      ElementsReadBack(tail, rest);
      assert after[1..] == PrintItems(tail, true) + close;
      assert [items[0]] + tail == items;
    }
    PunctuationIsNotSkipped(after);
    ValueReadsBack(items[0], after);
  }

  lemma NoItemsNoText()
    ensures PrintItems([], true) == "" && PrintItems([], false) == ""
  {
  }

  lemma MemberSplits(f: Field, rest: string)
    ensures Member(f) + rest == Quote(f.key) + (":" + (Print(f.value) + rest))
  {
    hide Quote, Print;
  }

  lemma FieldsBehindComma(fields: seq<Field>, close: string)
    requires fields != []
    ensures PrintFields(fields, true) + close == Member(fields[0]) + (PrintFields(fields[1..], false) + close)
    ensures PrintFields(fields, false) + close == "," + (PrintFields(fields, true) + close)
  {
    MemberFirst(fields, true);
    MemberFirst(fields, false);
    Regrouped(PrintFields(fields, true), PrintFields(fields, false), Member(fields[0]), PrintFields(fields[1..], false), close);
  }

  lemma Regrouped(first: string, later: string, m: string, p: string, close: string)
    requires first == "" + (m + p) && later == "," + (m + p)
    ensures first + close == m + (p + close) && later + close == "," + (first + close)
  {
  }

  lemma {:induction false} MemberReadsBack(f: Field, rest: string)
    requires Ends(rest)
    ensures ReadMember(Member(f) + rest) == Some((f, rest))
    decreases f, 0
  {
    hide Print, Escape, ReadString, ReadValue;
    var value := Print(f.value) + rest;
    MemberSplits(f, rest);
    var s := Member(f) + rest;
    assert s[0] == '"' && s[1..] == Escape(f.key) + ("\"" + (":" + value));
    PunctuationIsNotSkipped(s);
    EscapedStringReadsBack(f.key, ":" + value);
    PunctuationIsNotSkipped(":" + value);
    assert (":" + value)[1..] == value;
    ValueReadsBack(f.value, rest);
  }

  lemma {:induction false} MembersReadBack(fields: seq<Field>, rest: string)
    requires fields != []
    ensures ReadMembers(PrintFields(fields, true) + ("}" + rest)) == Some((fields, rest))
    decreases fields, 1
  {
    hide Member, PrintFields, ReadMember;
    var close, tail := "}" + rest, fields[1..];
    var after := PrintFields(tail, false) + close;
    FieldsBehindComma(fields, close);
    if tail == [] {
      NoFieldsNoText(false);
      assert after == close;
      assert [fields[0]] == fields;
    } else {
      FieldsBehindComma(tail, close);
      MembersReadBack(tail, rest);
      assert after[1..] == PrintFields(tail, true) + close;
      assert [fields[0]] + tail == fields;
    }
    PunctuationIsNotSkipped(after);
    MemberReadsBack(fields[0], after);
  }

  lemma BracketedSplits(open: string, inner: string, close: string, rest: string)
    requires |open| == 1
    ensures (open + (inner + close) + rest)[0] == open[0]
    ensures (open + (inner + close) + rest)[1..] == inner + (close + rest)
  {
  }

  lemma ReadsBracketed(s: string)
    requires s != "" && s[0] == '['
    ensures Skip(s) == s
    ensures ReadValue(s)
            == var t := Skip(s[1..]);
               if t != "" && t[0] == ']' then Some((Array([]), t[1..]))
               else
                 match ReadElements(s[1..])
                 case None => None
                 case Some((items, rest)) => Some((Array(items), rest))
  {
    hide ReadElements;
  }

  lemma ReadsBraced(s: string)
    requires s != "" && s[0] == '{'
    ensures Skip(s) == s
    ensures ReadValue(s)
            == var t := Skip(s[1..]);
               if t != "" && t[0] == '}' then Some((Object([]), t[1..]))
               else
                 match ReadMembers(s[1..])
                 case None => None
                 case Some((fields, rest)) => Some((Object(fields), rest))
  {
    hide ReadMembers;
  }

  lemma ReadsPlain(s: string)
    requires s != "" && Skip(s) == s && s[0] != '"' && s[0] != '[' && s[0] != '{'
    ensures ReadValue(s)
            == if "null" <= s then Some((Null, s[4..]))
               else if "true" <= s then Some((Bool(true), s[4..]))
               else if "false" <= s then Some((Bool(false), s[5..]))
               else
                 match ReadNumber(s[..TokenLength(s)])
                 case None => None
                 case Some(v) => Some((v, s[TokenLength(s)..]))
  {
    hide ReadNumber;
  }

  lemma ReadsQuoted(s: string)
    requires s != "" && s[0] == '"'
    ensures Skip(s) == s
    ensures ReadValue(s)
            == match ReadString(s[1..])
               case None => None
               case Some((x, rest)) => Some((String(x), rest))
  {
    hide ReadString;
  }

  lemma {:induction false} SkipTwice(s: string)
    ensures Skip(Skip(s)) == Skip(s)
  {
    if s != "" && Skip(s) != s {
      SkipTwice(s[1..]);
    }
  }

  lemma ReadsBehindSpace(text: string)
    ensures ReadValue(text) == ReadValue(Skip(text))
  {
    SkipTwice(text);
    hide ReadNumber, ReadString, ReadElements, ReadMembers, Skip;
  }

  lemma {:induction false} ArrayReadsBack(items: seq<Value>, rest: string)
    ensures ReadValue(Print(Array(items)) + rest) == Some((Array(items), rest))
    decreases items, 1
  {
    PrintedArray(items);
    hide Print, PrintItems, ReadElements, ReadValue;
    var s, inner := Print(Array(items)) + rest, PrintItems(items, true) + ("]" + rest);
    BracketedSplits("[", PrintItems(items, true), "]", rest);
    ReadsBracketed(s);
    assert s[1..] == inner;
    if items == [] {
      NoItemsNoText();
      assert inner == "]" + rest && inner[1..] == rest;
      PunctuationIsNotSkipped(inner);
    } else {
      ItemsBehindComma(items, "]" + rest);
      NothingToSkip(items[0], PrintItems(items[1..], false) + ("]" + rest));
      FirstChar(items[0]);
      assert inner[0] == Print(items[0])[0];
      ElementsReadBack(items, rest);
    }
  }

  lemma {:induction false} ObjectReadsBack(fields: seq<Field>, rest: string)
    ensures ReadValue(Print(Object(fields)) + rest) == Some((Object(fields), rest))
    decreases fields, 2
  {
    PrintedObject(fields);
    hide Print, PrintFields, ReadMembers, ReadValue;
    var s, inner := Print(Object(fields)) + rest, PrintFields(fields, true) + ("}" + rest);
    BracketedSplits("{", PrintFields(fields, true), "}", rest);
    ReadsBraced(s);
    assert s[1..] == inner;
    if fields == [] {
      NoFieldsNoText(true);
      assert inner == "}" + rest && inner[1..] == rest;
      PunctuationIsNotSkipped(inner);
    } else {
      hide Quote;
      FieldsBehindComma(fields, "}" + rest);
      MemberSplits(fields[0], PrintFields(fields[1..], false) + ("}" + rest));
      QuoteOpens(fields[0].key);
      assert inner[0] == '"';
      PunctuationIsNotSkipped(inner);
      MembersReadBack(fields, rest);
    }
  }

  lemma QuoteOpens(s: string)
    ensures Quote(s) != "" && Quote(s)[0] == '"'
  {
  }

  /** Whatever ends it, a printed value reads back as itself, and the reader stops where it ends. */
  lemma {:induction false} ValueReadsBack(v: Value, rest: string)
    requires Ends(rest)
    ensures ReadValue(Print(v) + rest) == Some((v, rest))
    decreases v, 3
  {
    hide ReadValue;
    match v
    case Null => LiteralReadsBack(v, rest);
    case Bool(_) => LiteralReadsBack(v, rest);
    case Integer(_) => NumberReadsBack(v, rest);
    case Float(_) => NumberReadsBack(v, rest);
    case String(x) => StringReadsBack(x, rest);
    case Array(items) => ArrayReadsBack(items, rest);
    case Object(fields) => ObjectReadsBack(fields, rest);
  }

  /** Every value is read back from its text. */
  lemma PrintReadsBack(v: Value)
    ensures Read(Print(v)) == Some(v)
  {
    hide ReadValue, Print;
    ValueReadsBack(v, "");
    assert Print(v) + "" == Print(v);
  }

  /** So two values whose texts, each with an ending behind it, agree are one value, and the endings agree. */
  lemma Readable(v: Value, w: Value, r: string, s: string)
    requires Ends(r) && Ends(s) && Print(v) + r == Print(w) + s
    ensures v == w && r == s
  {
    hide ReadValue, Print;
    ValueReadsBack(v, r);
    ValueReadsBack(w, s);
  }

  /** Equal texts are texts of equal values. */
  lemma PrintInjective(v: Value, w: Value)
    requires Print(v) == Print(w)
    ensures v == w
  {
    hide Read, Print;
    PrintReadsBack(v);
    PrintReadsBack(w);
  }

  lemma IntegerTextInjective(m: int, n: int)
    requires IntegerText(m) == IntegerText(n)
    ensures m == n
  {
    hide ReadNumber, IntegerText;
    IntegerReads(m);
    IntegerReads(n);
  }

  /** A quoted string ends where its text says, whatever follows. */
  lemma QuoteReadable(s: string, t: string, x: string, y: string)
    requires Quote(s) + x == Quote(t) + y
    ensures s == t && x == y
  {
    hide Escape, ReadString;
    EscapedStringReadsBack(s, x);
    EscapedStringReadsBack(t, y);
    assert (Quote(s) + x)[1..] == Escape(s) + ("\"" + x);
    assert (Quote(t) + y)[1..] == Escape(t) + ("\"" + y);
  }

  // --- Nothing shorter reads back -------------------------------------------------------

  lemma LengthOfItems(v: Value, items: seq<Value>)
    ensures |PrintItems([v] + items, true)| == |Print(v)| + if items == [] then 0 else 1 + |PrintItems(items, true)|
  {
    hide Print;
    assert ([v] + items)[1..] == items;
    if items != [] {
      ItemsBehindComma(items, "");
    }
  }

  lemma LengthOfFields(f: Field, fields: seq<Field>)
    ensures |PrintFields([f] + fields, true)| == |Member(f)| + if fields == [] then 0 else 1 + |PrintFields(fields, true)|
  {
    hide Member;
    MemberFirst([f] + fields, true);
    assert ([f] + fields)[1..] == fields;
    if fields == [] {
      NoFieldsNoText(false);
    } else {
      FieldsBehindComma(fields, "");
    }
  }

  lemma {:induction false} ShortestElements(s: string)
    ensures ReadElements(s).Some? ==> |PrintItems(ReadElements(s).value.0, true)| + 1 <= |s| - |ReadElements(s).value.1|
    ensures ReadElements(s).Some? ==> ReadElements(s).value.0 != []
    decreases |s|, 2
  {
    hide Print, PrintItems, ReadValue;
    if ReadElements(s).Some? {
      ShortestValue(s);
      var (v, after) := ReadValue(s).value;
      var t := Skip(after);
      LengthOfItems(v, []);
      assert [v] + [] == [v];
      if t[0] != ']' {
        ShortestElements(t[1..]);
        LengthOfItems(v, ReadElements(t[1..]).value.0);
      }
    }
  }

  lemma {:induction false} ShortestMember(s: string)
    ensures ReadMember(s).Some? ==> |Member(ReadMember(s).value.0)| <= |s| - |ReadMember(s).value.1|
    decreases |s|, 1
  {
    hide Print, ReadValue, ReadString, Escape;
    if ReadMember(s).Some? {
      var t := Skip(s);
      ShortestString(t[1..]);
      ShortestValue(Skip(ReadString(t[1..]).value.1)[1..]);
    }
  }

  lemma {:induction false} ShortestMembers(s: string)
    ensures ReadMembers(s).Some? ==> |PrintFields(ReadMembers(s).value.0, true)| + 1 <= |s| - |ReadMembers(s).value.1|
    ensures ReadMembers(s).Some? ==> ReadMembers(s).value.0 != []
    decreases |s|, 2
  {
    hide Member, PrintFields, ReadMember;
    if ReadMembers(s).Some? {
      ShortestMember(s);
      var (f, after) := ReadMember(s).value;
      var t := Skip(after);
      LengthOfFields(f, []);
      assert [f] + [] == [f];
      if t[0] != '}' {
        ShortestMembers(t[1..]);
        LengthOfFields(f, ReadMembers(t[1..]).value.0);
      }
    }
  }

  /** What stands in front of the rest when a value has been read is never shorter than that value's printed text. */
  lemma {:induction false} ShortestValue(text: string)
    ensures ReadValue(text).Some? ==> |Print(ReadValue(text).value.0)| <= |text| - |ReadValue(text).value.1|
    decreases |text|, 1
  {
    hide ReadValue, ReadElements, ReadMembers, ReadString, ReadNumber, Print;
    if ReadValue(text).Some? {
      var s, v := Skip(text), ReadValue(text).value.0;
      ReadsBehindSpace(text);
      SkipTwice(text);
      NothingReadsAsNothing();
      LengthOfText(v);
      if s[0] == '[' {
        ReadsBracketed(s);
        ShortestElements(s[1..]);
      } else if s[0] == '{' {
        ReadsBraced(s);
        ShortestMembers(s[1..]);
      } else if s[0] == '"' {
        ReadsQuoted(s);
        ShortestString(s[1..]);
      } else {
        ReadsPlain(s);
        if ReadNumber(s[..TokenLength(s)]).Some? {
          ShortestNumber(s[..TokenLength(s)]);
        }
      }
    }
  }

  lemma NothingReadsAsNothing()
    ensures ReadValue("") == None
  {
  }

  lemma LengthOfText(v: Value)
    ensures |Print(v)| == match v
                          case Null => 4
                          case Bool(b) => if b then 4 else 5
                          case Integer(_) | Float(_) => |Print(v)|
                          case String(s) => |Escape(s)| + 2
                          case Array(items) => |PrintItems(items, true)| + 2
                          case Object(fields) => |PrintFields(fields, true)| + 2
    ensures v == Array([]) || v == Object([]) ==> |Print(v)| == 2
  {
    hide Escape;
  }

  /** The printed text is compact: no shorter text reads as the same value. */
  lemma NothingShorterReadsBack(text: string, v: Value)
    requires Read(text) == Some(v)
    ensures |Print(v)| <= |text|
  {
    hide ReadValue, Print;
    ShortestValue(text);
  }
}
