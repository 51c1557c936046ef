/**
 * JSON values and their compact printing, as `serde_json` has them: objects are kept sorted by key, so
 * one document has one text. Escaping follows section 7 of RFC 8259.
 */
module Json {
  import opened Outcomes
  import opened Words
  import Collections
  import Hex
  import Text

  // --- Number texts: section 6 of RFC 8259 ------------------------------------------

  predicate IsNumberChar(c: char) {
    '0' <= c <= '9' || c == '-' || c == '+' || c == '.' || c == 'e' || c == 'E'
  }

  predicate IsDigits(s: string) {
    s != "" && forall i :: 0 <= i < |s| ==> '0' <= s[i] <= '9'
  }

  /** Digits without a leading zero, `0` itself excepted. */
  predicate IsWhole(s: string) {
    IsDigits(s) && (s[0] == '0' ==> |s| == 1)
  }

  predicate IsExponent(s: string) {
    s != "" && IsDigits(if s[0] == '+' || s[0] == '-' then s[1..] else s)
  }

  predicate IsMantissa(s: string) {
    match Text.SplitOnce(s, '.')
    case None => IsWhole(s)
    case Some((whole, fraction)) => IsWhole(whole) && IsDigits(fraction)
  }

  predicate IsUnsigned(s: string) {
    match Text.SplitOnce(s, if 'e' in s then 'e' else 'E')
    case None => IsMantissa(s)
    case Some((mantissa, exponent)) => IsMantissa(mantissa) && IsExponent(exponent)
  }

  predicate IsNumberText(s: string) {
    IsUnsigned(if s != "" && s[0] == '-' then s[1..] else s)
  }

  predicate ShowsFraction(s: string) {
    '.' in s || 'e' in s || 'E' in s
  }

  predicate IsFloatText(s: string) {
    IsNumberText(s) && ShowsFraction(s) && forall i :: 0 <= i < |s| ==> IsNumberChar(s[i])
  }

  /** The text of a finite floating-point number, shortest form; it always shows a point or an exponent. */
  type FloatText = s: string | IsFloatText(s) witness (assert IsDigits("0"); "0.0")

  // --- Values -----------------------------------------------------------------------

  datatype Value =
    | Null
    | Bool(b: bool)
    | Integer(n: int)
    | Float(text: FloatText)
    | String(s: string)
    | Array(items: seq<Value>)
    | Object(fields: seq<Field>)

  datatype Field = Field(key: string, value: Value)

  // --- Printing -----------------------------------------------------------------

  function Decimal(n: nat): (s: string)
    ensures s != "" && forall i :: 0 <= i < |s| ==> '0' <= s[i] <= '9'
  {
    if n < 10 then [Digit(n)] else Decimal(n / 10) + [Digit(n % 10)]
  }

  function Digit(d: nat): (c: char)
    requires d < 10
    ensures '0' <= c <= '9' && c as int == '0' as int + d
  {
    ('0' as int + d) as char
  }

  function IntegerText(n: int): (s: string)
    ensures s != "" && forall i :: 0 <= i < |s| ==> IsNumberChar(s[i]) && s[i] != '.' && s[i] != 'e' && s[i] != 'E'
  {
    if n < 0 then "-" + Decimal(-n) else Decimal(n)
  }

  function EscapeChar(c: char): (s: string)
    ensures s != "" && s[0] != '"'
  {
    var n := c as int;
    if c == '"' then "\\\""
    else if c == '\\' then "\\\\"
    else if n == 0x08 then "\\b"
    else if n == 0x09 then "\\t"
    else if n == 0x0A then "\\n"
    else if n == 0x0C then "\\f"
    else if n == 0x0D then "\\r"
    else if n < 0x20 then "\\u00" + Hex.OfByte(n)
    else [c]
  }

  function Escape(s: string): string {
    if s == "" then "" else EscapeChar(s[0]) + Escape(s[1..])
  }

  function Quote(s: string): string {
    "\"" + (Escape(s) + "\"")
  }

  function Print(v: Value): string
    decreases v, 1
  {
    match v
    case Null => "null"
    case Bool(b) => if b then "true" else "false"
    case Integer(n) => IntegerText(n)
    case Float(text) => text
    case String(s) => Quote(s)
    case Array(items) => "[" + (PrintItems(items, true) + "]")
    case Object(fields) => "{" + (PrintFields(fields, true) + "}")
  }

  /** Elements behind commas, but for the first. */
  function PrintItems(items: seq<Value>, first: bool): string
    decreases items, 0
  {
    if items == [] then "" else (if first then "" else ",") + (Print(items[0]) + PrintItems(items[1..], false))
  }

  function PrintFields(fields: seq<Field>, first: bool): string
    decreases fields, 0
  {
    if fields == [] then ""
    else
      (if first then "" else ",") + (Quote(fields[0].key) + (":" + (Print(fields[0].value) + PrintFields(fields[1..], false))))
  }

  /** Text without quotes, backslashes and control characters is printed as it is. */
  lemma {:induction false} PlainTextIsNotEscaped(s: string)
    requires forall i :: 0 <= i < |s| ==> s[i] as int >= 0x20 && s[i] != '"' && s[i] != '\\'
    ensures Escape(s) == s
  {
    if s != "" {
      PlainTextIsNotEscaped(s[1..]);
      assert s == [s[0]] + s[1..];
    }
  }

  /** One member of an object: its quoted key, a colon, its value. */
  function Member(f: Field): string {
    Quote(f.key) + (":" + Print(f.value))
  }

  lemma PrintedObject(fields: seq<Field>)
    ensures Print(Object(fields)) == "{" + (PrintFields(fields, true) + "}")
  {
  }

  lemma {:induction false} MemberFirst(fields: seq<Field>, first: bool)
    requires fields != []
    ensures PrintFields(fields, first) == (if first then "" else ",") + (Member(fields[0]) + PrintFields(fields[1..], false))
  {
    hide Quote, Print;
    Regroup(Quote(fields[0].key), Print(fields[0].value), PrintFields(fields[1..], false));
  }

  lemma Regroup(key: string, value: string, rest: string)
    ensures key + (":" + (value + rest)) == (key + (":" + value)) + rest
  {
  }

  lemma {:induction false} FieldsAreJoined(fields: seq<Field>, first: bool)
    requires fields != []
    ensures PrintFields(fields, first)
            == (if first then "" else ",") + Text.Join(Member(fields[0]), Collections.Map(Member, fields[1..]), ',')
    decreases |fields|
  {
    var f, rest := fields[0], fields[1..];
    MemberFirst(fields, first);
    hide PrintFields, Member;
    if rest == [] {
      NoFieldsNoText(false);
      assert Collections.Map(Member, rest) == [];
    } else {
      FieldsAreJoined(rest, false);
      JoinHead(Member(f), Member(rest[0]), Collections.Map(Member, rest[1..]));
      assert Collections.Map(Member, rest) == [Member(rest[0])] + Collections.Map(Member, rest[1..]);
    }
  }

  lemma JoinHead(a: string, b: string, rest: seq<string>)
    ensures a + ("," + Text.Join(b, rest, ',')) == Text.Join(a, [b] + rest, ',')
  {
    assert ([b] + rest)[1..] == rest;
  }

  /** An object's text: its members in order, one comma between any two, inside braces, with no space. */
  lemma ObjectText(fields: seq<Field>)
    ensures Print(Object(fields))
            == if fields == [] then "{}"
               else "{" + (Text.Join(Member(fields[0]), Collections.Map(Member, fields[1..]), ',') + "}")
  {
    hide Print, PrintFields, Member;
    PrintedObject(fields);
    if fields == [] {
      NoFieldsNoText(true);
    } else {
      FieldsAreJoined(fields, true);
    }
  }

  lemma NoFieldsNoText(first: bool)
    ensures PrintFields([], first) == ""
  {
  }

  lemma {:induction false} ItemsAreJoined(items: seq<Value>, first: bool)
    requires items != []
    ensures PrintItems(items, first)
            == (if first then "" else ",") + Text.Join(Print(items[0]), Collections.Map(Print, items[1..]), ',')
    decreases |items|
  {
    hide Print;
    var rest := items[1..];
    assert PrintItems(items, first) == (if first then "" else ",") + (Print(items[0]) + PrintItems(rest, false));
    if rest == [] {
      assert Collections.Map(Print, rest) == [];
    } else {
      ItemsAreJoined(rest, false);
      JoinHead(Print(items[0]), Print(rest[0]), Collections.Map(Print, rest[1..]));
      assert Collections.Map(Print, rest) == [Print(rest[0])] + Collections.Map(Print, rest[1..]);
    }
  }

  /** An array's text: its elements in order, one comma between any two, inside brackets, with no space. */
  lemma ArrayText(items: seq<Value>)
    ensures Print(Array(items))
            == if items == [] then "[]"
               else "[" + (Text.Join(Print(items[0]), Collections.Map(Print, items[1..]), ',') + "]")
  {
    PrintedArray(items);
    hide Print;
    if items != [] {
      ItemsAreJoined(items, true);
    }
  }

  lemma PrintedArray(items: seq<Value>)
    ensures Print(Array(items)) == "[" + (PrintItems(items, true) + "]")
  {
  }
}
