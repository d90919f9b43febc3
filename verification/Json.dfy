/** JSON values and their canonical text: keys in code-unit order, no white space,
    the language's own string and number spellings. */
module Json {
  import opened Texts
  import opened Sorting

  /** A finite number, as the four pieces of the text `String(n)` prints for it:
      sign, whole part, fraction digits and decimal exponent (0 when none is printed). */
  datatype Decimal = Decimal(negative: bool, whole: nat, fraction: Text, exponent: int)

  predicate IsNumeral(d: Decimal) {
    && (forall c <- d.fraction :: IsDigit(c))
    && (d.fraction != [] ==> d.fraction[|d.fraction| - 1] != 0x30)  // shortest spelling
    && !(d.negative && d.whole == 0 && d.fraction == [])            // -0 prints as 0
  }

  type Numeral = d: Decimal | IsNumeral(d) witness Decimal(false, 0, [], 0)

  /** A JSON value. Objects are maps: key insertion order is not part of the value. */
  datatype Json =
    | JNull
    | JBool(b: bool)
    | JNum(n: Numeral)
    | JStr(s: Text)
    | JArr(items: seq<Json>)
    | JObj(members: map<Text, Json>)

  const QUOTE: CodeUnit := 0x22
  const BACKSLASH: CodeUnit := 0x5C
  const COMMA: CodeUnit := 0x2C
  const LBRACKET: CodeUnit := 0x5B
  const RBRACKET: CodeUnit := 0x5D
  const LBRACE: CodeUnit := 0x7B
  const RBRACE: CodeUnit := 0x7D
  const MINUS: CodeUnit := 0x2D
  const PLUS: CodeUnit := 0x2B
  const POINT: CodeUnit := 0x2E
  const LOWER_E: CodeUnit := 0x65
  const LOWER_U: CodeUnit := 0x75

  const NULL_TEXT: Text := [0x6E, 0x75, 0x6C, 0x6C]
  const TRUE_TEXT: Text := [0x74, 0x72, 0x75, 0x65]
  const FALSE_TEXT: Text := [0x66, 0x61, 0x6C, 0x73, 0x65]

  // ---------------------------------------------------------------- numbers

  /** `String(n)` */
  function NumText(n: Numeral): Text {
    (if n.negative then [MINUS] else []) + NatText(n.whole) + TailText(n.fraction, n.exponent)
  }

  function TailText(fraction: Text, exponent: int): Text {
    (if fraction == [] then [] else [POINT] + fraction) + ExponentText(exponent)
  }

  function ExponentText(exponent: int): Text {
    if exponent == 0 then []
    else if exponent > 0 then [LOWER_E, PLUS] + NatText(exponent)
    else [LOWER_E, MINUS] + NatText(-exponent)
  }

  // ---------------------------------------------------------------- strings

  predicate IsHigh(c: CodeUnit) { 0xD800 <= c <= 0xDBFF }
  predicate IsLow(c: CodeUnit) { 0xDC00 <= c <= 0xDFFF }

  function HexDigit(d: nat): CodeUnit
    requires d < 16
  {
    (if d < 10 then 0x30 + d else 0x61 + d - 10) as CodeUnit
  }

  function Hex4(c: CodeUnit): Text {
    var n := c as int;
    [HexDigit(n / 4096), HexDigit(n / 256 % 16), HexDigit(n / 16 % 16), HexDigit(n % 16)]
  }

  /** How one code unit that is not half of a surrogate pair is written. */
  function EscapeUnit(c: CodeUnit): Text {
    if c == QUOTE || c == BACKSLASH then [BACKSLASH, c]
    else if c == 0x08 then [BACKSLASH, 0x62]
    else if c == 0x0C then [BACKSLASH, 0x66]
    else if c == NEWLINE then [BACKSLASH, 0x6E]
    else if c == 0x0D then [BACKSLASH, 0x72]
    else if c == 0x09 then [BACKSLASH, 0x74]
    else if c < 0x20 || IsHigh(c) || IsLow(c) then [BACKSLASH, LOWER_U] + Hex4(c)
    else [c]
  }

  /** The body of `JSON.stringify(s)`: surrogate pairs stay raw, lone surrogates are escaped. */
  function Escape(s: Text): Text {
    if s == [] then []
    else if |s| >= 2 && IsHigh(s[0]) && IsLow(s[1]) then [s[0], s[1]] + Escape(s[2..])
    else EscapeUnit(s[0]) + Escape(s[1..])
  }

  /** `JSON.stringify(s)` for a string. */
  function Quote(s: Text): Text {
    [QUOTE] + Escape(s) + [QUOTE]
  }

  // ------------------------------------------------------------ canonical text

  ghost function ItemTexts(items: seq<Json>): (parts: seq<Text>)
    ensures |parts| == |items|
    ensures forall i :: 0 <= i < |items| ==> parts[i] == Canonical(items[i])
    decreases items, 0
  {
    seq(|items|, i requires 0 <= i < |items| => Canonical(items[i]))
  }

  ghost function MemberText(key: Text, value: Json): Text
    decreases value, 3
  {
    Quote(key) + [COLON] + Canonical(value)
  }

  /** The members of an object with the given keys, written out in that order. */
  ghost function MemberTexts(j: Json, keys: seq<Text>): (parts: seq<Text>)
    requires j.JObj? && forall k <- keys :: k in j.members
    ensures |parts| == |keys|
    ensures forall i :: 0 <= i < |keys| ==> parts[i] == MemberText(keys[i], j.members[keys[i]])
    decreases j, 1
  {
    seq(|keys|, i requires 0 <= i < |keys| => MemberText(keys[i], j.members[keys[i]]))
  }

  /** The canonical text of a value. */
  ghost function Canonical(j: Json): Text
    decreases j, 2
  {
    match j
    case JNull => NULL_TEXT
    case JBool(b) => if b then TRUE_TEXT else FALSE_TEXT
    case JNum(n) => NumText(n)
    case JStr(s) => Quote(s)
    case JArr(items) => [LBRACKET] + Join(ItemTexts(items), [COMMA]) + [RBRACKET]
    case JObj(members) => [LBRACE] + Join(MemberTexts(j, SortSet(members.Keys)), [COMMA]) + [RBRACE]
  }

  // ----------------------------------------------------- printable, never empty

  ghost predicate Printable(t: Text) {
    forall c <- t :: c >= 0x20
  }

  lemma {:induction false} EscapePrintable(s: Text)
    ensures Printable(Escape(s))
  {
    if s == [] {
    } else if |s| >= 2 && IsHigh(s[0]) && IsLow(s[1]) {
      EscapePrintable(s[2..]);
    } else {
      EscapePrintable(s[1..]);
      assert Printable(EscapeUnit(s[0]));
    }
  }

  lemma PrintableConcat(a: Text, b: Text)
    requires Printable(a) && Printable(b)
    ensures Printable(a + b)
  {
  }

  lemma {:induction false} JoinPrintable(parts: seq<Text>)
    requires forall i :: 0 <= i < |parts| ==> Printable(parts[i])
    ensures Printable(Join(parts, [COMMA]))
  {
    if |parts| <= 1 {
    } else {
      JoinPrintable(parts[1..]);
      PrintableConcat(parts[0], [COMMA]);
      PrintableConcat(parts[0] + [COMMA], Join(parts[1..], [COMMA]));
    }
  }

  lemma QuotePrintable(s: Text)
    ensures Printable(Quote(s))
  {
    EscapePrintable(s);
  }

  lemma DigitsPrintable(t: Text)
    requires forall c <- t :: IsDigit(c)
    ensures Printable(t)
  {
  }

  lemma NumTextHead(n: Numeral)
    ensures NumText(n) != [] && (IsDigit(NumText(n)[0]) || NumText(n)[0] == MINUS)
    ensures Printable(NumText(n))
  {
    var sign: Text := if n.negative then [MINUS] else [];
    var point: Text := if n.fraction == [] then [] else [POINT] + n.fraction;
    assert NatText(n.whole)[0] in NatText(n.whole);
    DigitsPrintable(NatText(n.whole));
    DigitsPrintable(n.fraction);
    ExponentPrintable(n.exponent);
    PrintableConcat(sign, NatText(n.whole));
    PrintableConcat(point, ExponentText(n.exponent));
    PrintableConcat(sign + NatText(n.whole), TailText(n.fraction, n.exponent));
  }

  lemma ExponentPrintable(exponent: int)
    ensures Printable(ExponentText(exponent))
  {
    if exponent != 0 {
      var digits := NatText(if exponent > 0 then exponent else -exponent);
      DigitsPrintable(digits);
      PrintableConcat([LOWER_E, if exponent > 0 then PLUS else MINUS], digits);
    }
  }

  lemma MemberPrintable(key: Text, value: Json)
    requires Printable(Canonical(value))
    ensures Printable(MemberText(key, value))
  {
    QuotePrintable(key);
    PrintableConcat(Quote(key), [COLON]);
    PrintableConcat(Quote(key) + [COLON], Canonical(value));
  }

  lemma BracketedPrintable(open: CodeUnit, parts: seq<Text>, close: CodeUnit)
    requires open >= 0x20 && close >= 0x20
    requires forall i :: 0 <= i < |parts| ==> Printable(parts[i])
    ensures Printable([open] + Join(parts, [COMMA]) + [close])
  {
    JoinPrintable(parts);
    PrintableConcat([open], Join(parts, [COMMA]));
    PrintableConcat([open] + Join(parts, [COMMA]), [close]);
  }

  /** No canonical text contains a control character, a raw newline in particular. */
  lemma {:induction false} CanonicalPrintable(j: Json)
    ensures Printable(Canonical(j))
    decreases j
  {
    match j
    case JNull =>
    case JBool(b) =>
    case JNum(n) => NumTextHead(n);
    case JStr(s) => QuotePrintable(s);
    case JArr(items) =>
      forall i | 0 <= i < |items| ensures Printable(ItemTexts(items)[i]) {
        CanonicalPrintable(items[i]);
      }
      BracketedPrintable(LBRACKET, ItemTexts(items), RBRACKET);
    case JObj(members) =>
      var keys := SortSet(members.Keys);
      var parts := MemberTexts(j, keys);
      forall i | 0 <= i < |keys| ensures Printable(parts[i]) {
        CanonicalPrintable(members[keys[i]]);
        MemberPrintable(keys[i], members[keys[i]]);
      }
      BracketedPrintable(LBRACE, parts, RBRACE);
  }
}
