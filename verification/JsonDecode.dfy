/** A JSON reader, and the proof that it inverts the canonical printer. */
module JsonDecode {
  import opened Texts
  import opened Sorting
  import opened Json
  import opened Results

  /** What reading a prefix of a text gives: the value read and the text left over. */
  datatype Parsed<T> = Fail | Ok(value: T, rest: Text)

  predicate IsSpace(c: CodeUnit) { c == 0x20 || c == 0x09 || c == NEWLINE || c == 0x0D }

  function SkipSpace(t: Text): (r: Text)
    ensures |r| <= |t|
  {
    if t != [] && IsSpace(t[0]) then SkipSpace(t[1..]) else t
  }

  // ---------------------------------------------------------------- numbers

  /** Splits off the longest run of digits. */
  function DigitRun(t: Text): (r: (Text, Text))
    ensures forall c <- r.0 :: IsDigit(c)
    ensures t == r.0 + r.1
    ensures r.1 == [] || !IsDigit(r.1[0])
  {
    if t == [] || !IsDigit(t[0]) then ([], t)
    else
      var (run, rest) := DigitRun(t[1..]);
      ([t[0]] + run, rest)
  }

  /** An exponent part, when one is there. */
  function ParseExponent(t: Text): (r: Parsed<int>)
    ensures r.Ok? ==> |r.rest| <= |t|
  {
    if |t| >= 2 && t[0] == LOWER_E && (t[1] == PLUS || t[1] == MINUS) then
      var (run, rest) := DigitRun(t[2..]);
      if run == [] then Fail
      else
        var n: int := NatValue(run, 0);
        Ok(if t[1] == PLUS then n else -n, rest)
    else Ok(0, t)
  }

  /** A fraction part, when one is there. */
  function ParseFraction(t: Text): (r: Parsed<Text>)
    ensures r.Ok? ==> |r.rest| <= |t|
  {
    if t != [] && t[0] == POINT then
      var (run, rest) := DigitRun(t[1..]);
      if run == [] then Fail else Ok(run, rest)
    else Ok([], t)
  }

  function ParseNumber(t: Text): (r: Parsed<Json>)
    ensures r.Ok? ==> |r.rest| < |t|
  {
    var negative := t != [] && t[0] == MINUS;
    var (run, rest) := DigitRun(if negative then t[1..] else t);
    if run == [] || (run[0] == 0x30 && |run| > 1) then Fail
    else
      match ParseFraction(rest)
      case Fail => Fail
      case Ok(fraction, rest') =>
        match ParseExponent(rest')
        case Fail => Fail
        case Ok(exponent, rest'') =>
          var d := Decimal(negative, NatValue(run, 0), fraction, exponent);
          if IsNumeral(d) then Ok(JNum(d), rest'') else Fail
  }

  // ---------------------------------------------------------------- strings

  function HexValue(c: CodeUnit): (r: int)
    ensures -1 <= r < 16
  {
    if 0x30 <= c <= 0x39 then c as int - 0x30
    else if 0x61 <= c <= 0x66 then c as int - 0x61 + 10
    else if 0x41 <= c <= 0x46 then c as int - 0x41 + 10
    else -1
  }

  function Hex4Value(a: CodeUnit, b: CodeUnit, c: CodeUnit, d: CodeUnit): (r: int)
    ensures -1 <= r < 0x1_0000
  {
    var (w, x, y, z) := (HexValue(a), HexValue(b), HexValue(c), HexValue(d));
    if w < 0 || x < 0 || y < 0 || z < 0 then -1 else 4096 * w + 256 * x + 16 * y + z
  }

  /** The unit a two-character escape stands for. */
  function Unescape(c: CodeUnit): Parsed<CodeUnit> {
    if c == QUOTE || c == BACKSLASH || c == 0x2F then Ok(c, [])
    else if c == 0x62 then Ok(0x08, [])
    else if c == 0x66 then Ok(0x0C, [])
    else if c == 0x6E then Ok(NEWLINE, [])
    else if c == 0x72 then Ok(0x0D, [])
    else if c == 0x74 then Ok(0x09, [])
    else Fail
  }

  /** One possibly escaped unit inside a string. */
  function ParseUnit(t: Text): (r: Parsed<CodeUnit>)
    ensures r.Ok? ==> |r.rest| < |t|
  {
    if t == [] || t[0] < 0x20 then Fail
    else if t[0] != BACKSLASH then Ok(t[0], t[1..])
    else if |t| >= 6 && t[1] == LOWER_U then
      var v := Hex4Value(t[2], t[3], t[4], t[5]);
      if v < 0 then Fail else Ok(v as CodeUnit, t[6..])
    else if |t| >= 2 && Unescape(t[1]).Ok? then Ok(Unescape(t[1]).value, t[2..])
    else Fail
  }

  /** The units of a string up to and including its closing quote. */
  function ParseString(t: Text): (r: Parsed<Text>)
    ensures r.Ok? ==> |r.rest| < |t|
    decreases |t|
  {
    if t != [] && t[0] == QUOTE then Ok([], t[1..])
    else
      match ParseUnit(t)
      case Fail => Fail
      case Ok(c, rest) =>
        match ParseString(rest)
        case Fail => Fail
        case Ok(s, rest') => Ok([c] + s, rest')
  }

  // ---------------------------------------------------------------- values

  /** The literal `word`, standing for `j`. */
  function ParseLiteral(t: Text, word: Text, j: Json): (r: Parsed<Json>)
    requires word != []
    ensures r.Ok? ==> |r.rest| < |t|
  {
    if word <= t then Ok(j, t[|word|..]) else Fail
  }

  function Parse(text: Text): (r: Parsed<Json>)
    ensures r.Ok? ==> |r.rest| < |text|
    decreases |text|, 0
  {
    var t := SkipSpace(text);
    if t == [] then Fail
    else if t[0] == NULL_TEXT[0] then ParseLiteral(t, NULL_TEXT, JNull)
    else if t[0] == TRUE_TEXT[0] then ParseLiteral(t, TRUE_TEXT, JBool(true))
    else if t[0] == FALSE_TEXT[0] then ParseLiteral(t, FALSE_TEXT, JBool(false))
    else if t[0] == QUOTE then ParseStringValue(t[1..])
    else if t[0] == LBRACKET then ParseArray(t[1..])
    else if t[0] == LBRACE then ParseObject(t[1..])
    else ParseNumber(t)
  }

  function ParseStringValue(t: Text): (r: Parsed<Json>)
    ensures r.Ok? ==> |r.rest| < |t|
  {
    match ParseString(t)
    case Fail => Fail
    case Ok(s, rest) => Ok(JStr(s), rest)
  }

  /** An array after its opening bracket. */
  function ParseArray(text: Text): (r: Parsed<Json>)
    ensures r.Ok? ==> |r.rest| < |text|
    decreases |text|, 2
  {
    var t := SkipSpace(text);
    if t != [] && t[0] == RBRACKET then Ok(JArr([]), t[1..])
    else
      match ParseItems(t)
      case Fail => Fail
      case Ok(items, rest) => Ok(JArr(items), rest)
  }

  /** An object after its opening brace. */
  function ParseObject(text: Text): (r: Parsed<Json>)
    ensures r.Ok? ==> |r.rest| < |text|
    decreases |text|, 2
  {
    var t := SkipSpace(text);
    if t != [] && t[0] == RBRACE then Ok(JObj(map[]), t[1..])
    else
      match ParseMembers(t)
      case Fail => Fail
      case Ok(members, rest) => Ok(JObj(members), rest)
  }

  /** The items of a non-empty array up to and including its closing bracket. */
  function ParseItems(t: Text): (r: Parsed<seq<Json>>)
    ensures r.Ok? ==> |r.rest| < |t|
    decreases |t|, 1
  {
    match Parse(t)
    case Fail => Fail
    case Ok(item, rest) =>
      var t' := SkipSpace(rest);
      if t' == [] then Fail
      else if t'[0] == RBRACKET then Ok([item], t'[1..])
      else if t'[0] != COMMA then Fail
      else
        match ParseItems(t'[1..])
        case Fail => Fail
        case Ok(items, rest') => Ok([item] + items, rest')
  }

  /** The members of a non-empty object up to and including its closing brace; of two
      members with one key the later wins. */
  function ParseMembers(text: Text): (r: Parsed<map<Text, Json>>)
    ensures r.Ok? ==> |r.rest| < |text|
    decreases |text|, 1
  {
    var t := SkipSpace(text);
    if t == [] || t[0] != QUOTE then Fail
    else
      match ParseString(t[1..])
      case Fail => Fail
      case Ok(key, rest) =>
        var t1 := SkipSpace(rest);
        if t1 == [] || t1[0] != COLON then Fail
        else
          match Parse(t1[1..])
          case Fail => Fail
          case Ok(value, rest1) =>
            var t2 := SkipSpace(rest1);
            if t2 == [] then Fail
            else if t2[0] == RBRACE then Ok(map[key := value], t2[1..])
            else if t2[0] != COMMA then Fail
            else
              match ParseMembers(t2[1..])
              case Fail => Fail
              case Ok(members, rest2) => Ok(map[key := value] + members, rest2)
  }

  /** A whole document: one value and nothing but white space after it. */
  function Decode(t: Text): Option<Json> {
    match Parse(t)
    case Fail => None
    case Ok(j, rest) => if SkipSpace(rest) == [] then Some(j) else None
  }

  // ------------------------------------------------------- strings round trip

  lemma HexRoundTrip(d: nat)
    requires d < 16
    ensures HexValue(HexDigit(d)) == d
  {
  }

  lemma Base16(n: nat)
    requires n < 0x1_0000
    ensures n / 4096 < 16
    ensures n == 4096 * (n / 4096) + 256 * (n / 256 % 16) + 16 * (n / 16 % 16) + n % 16
  {
    assert n / 16 / 16 == n / 256;
    assert n / 256 / 16 == n / 4096;
  }

  lemma Hex4RoundTrip(c: CodeUnit)
    ensures var h := Hex4(c); Hex4Value(h[0], h[1], h[2], h[3]) == c as int
  {
    var n := c as int;
    Base16(n);
    HexRoundTrip(n / 4096);
    HexRoundTrip(n / 256 % 16);
    HexRoundTrip(n / 16 % 16);
    HexRoundTrip(n % 16);
  }

  lemma HexUnitRoundTrip(c: CodeUnit, rest: Text)
    ensures ParseUnit([BACKSLASH, LOWER_U] + Hex4(c) + rest) == Ok(c, rest)
  {
    Hex4RoundTrip(c);
    var h := Hex4(c);
    var t := [BACKSLASH, LOWER_U] + h + rest;
    assert t[2] == h[0] && t[3] == h[1] && t[4] == h[2] && t[5] == h[3];
    assert t[6..] == rest;
  }

  lemma ShortUnitRoundTrip(e: CodeUnit, c: CodeUnit, rest: Text)
    requires Unescape(e) == Ok(c, []) && e != LOWER_U
    ensures ParseUnit([BACKSLASH, e] + rest) == Ok(c, rest)
  {
    assert ([BACKSLASH, e] + rest)[2..] == rest;
  }

  lemma UnitRoundTrip(c: CodeUnit, rest: Text)
    ensures ParseUnit(EscapeUnit(c) + rest) == Ok(c, rest)
    ensures EscapeUnit(c)[0] != QUOTE
  {
    if |EscapeUnit(c)| == 2 {
      ShortUnitRoundTrip(EscapeUnit(c)[1], c, rest);
    } else if |EscapeUnit(c)| == 6 {
      HexUnitRoundTrip(c, rest);
    } else {
      RawUnit(c, rest);
    }
  }

  lemma RawUnit(c: CodeUnit, rest: Text)
    requires c >= 0x20 && c != BACKSLASH
    ensures ParseUnit([c] + rest) == Ok(c, rest)
  {
  }

  lemma StringStep(t: Text, c: CodeUnit, rest: Text, s: Text, after: Text)
    requires t != [] && t[0] != QUOTE && ParseUnit(t) == Ok(c, rest)
    requires ParseString(rest) == Ok(s, after)
    ensures ParseString(t) == Ok([c] + s, after)
  {
  }

  lemma RawPair(high: CodeUnit, low: CodeUnit, t: Text, s: Text, after: Text)
    requires IsHigh(high) && IsLow(low) && ParseString(t) == Ok(s, after)
    ensures ParseString([high] + ([low] + t)) == Ok([high] + ([low] + s), after)
  {
    RawUnit(low, t);
    StringStep([low] + t, low, t, s, after);
    RawUnit(high, [low] + t);
    StringStep([high] + ([low] + t), high, [low] + t, [low] + s, after);
  }

  lemma RegroupString(piece: Text, body: Text, rest: Text)
    ensures piece + body + [QUOTE] + rest == piece + (body + [QUOTE] + rest)
  {
  }

  lemma FirstOne(s: Text)
    requires s != []
    ensures s == [s[0]] + s[1..]
  {
  }

  lemma FirstTwo(s: Text)
    requires |s| >= 2
    ensures s == [s[0]] + ([s[1]] + s[2..])
  {
  }

  lemma RegroupPair(high: CodeUnit, low: CodeUnit, body: Text, rest: Text)
    ensures [high, low] + body + [QUOTE] + rest == [high] + ([low] + (body + [QUOTE] + rest))
  {
  }

  lemma {:induction false} StringRoundTrip(s: Text, rest: Text)
    ensures ParseString(Escape(s) + [QUOTE] + rest) == Ok(s, rest)
    decreases |s|
  {
    if s == [] {
      assert (Escape(s) + [QUOTE] + rest)[1..] == rest;
    } else if |s| >= 2 && IsHigh(s[0]) && IsLow(s[1]) {
      var more := Escape(s[2..]) + [QUOTE] + rest;
      StringRoundTrip(s[2..], rest);
      RegroupPair(s[0], s[1], Escape(s[2..]), rest);
      FirstTwo(s);
      RawPair(s[0], s[1], more, s[2..], rest);
    } else {
      var more := Escape(s[1..]) + [QUOTE] + rest;
      StringRoundTrip(s[1..], rest);
      RegroupString(EscapeUnit(s[0]), Escape(s[1..]), rest);
      FirstOne(s);
      UnitRoundTrip(s[0], more);
      StringStep(EscapeUnit(s[0]) + more, s[0], more, s[1..], rest);
    }
  }

  // ------------------------------------------------------- numbers round trip

  /** What may follow a number without being read as part of it. */
  ghost predicate Delimits(rest: Text) {
    rest != [] ==> !IsDigit(rest[0]) && rest[0] != POINT && rest[0] != LOWER_E
  }

  lemma {:induction false} DigitRunExact(run: Text, rest: Text)
    requires forall c <- run :: IsDigit(c)
    requires rest != [] ==> !IsDigit(rest[0])
    ensures DigitRun(run + rest) == (run, rest)
  {
    if run == [] {
      assert run + rest == rest;
    } else {
      assert (run + rest)[1..] == run[1..] + rest;
      DigitRunExact(run[1..], rest);
      assert run == [run[0]] + run[1..];
    }
  }

  /** Reading an exponent, given what its digits read as. */
  lemma ExponentStep(t: Text, run: Text, rest: Text)
    requires |t| >= 2 && t[0] == LOWER_E && (t[1] == PLUS || t[1] == MINUS)
    requires DigitRun(t[2..]) == (run, rest) && run != [] && forall c <- run :: IsDigit(c)
    ensures var n: int := NatValue(run, 0); ParseExponent(t) == Ok(if t[1] == PLUS then n else -n, rest)
  {
  }

  lemma SignedExponent(sign: CodeUnit, n: int, rest: Text)
    requires (sign == PLUS || sign == MINUS) && n >= 0 && Delimits(rest)
    ensures ParseExponent([LOWER_E, sign] + NatText(n) + rest) == Ok(if sign == PLUS then n else -n, rest)
  {
    var t := [LOWER_E, sign] + NatText(n) + rest;
    assert t[2..] == NatText(n) + rest;
    DigitRunExact(NatText(n), rest);
    NatTextValue(n);
    ExponentStep(t, NatText(n), rest);
  }

  lemma ExponentRoundTrip(exponent: int, rest: Text)
    requires Delimits(rest)
    ensures ParseExponent(ExponentText(exponent) + rest) == Ok(exponent, rest)
  {
    if exponent == 0 {
      assert ExponentText(exponent) + rest == rest;
    } else if exponent > 0 {
      SignedExponent(PLUS, exponent, rest);
    } else {
      SignedExponent(MINUS, -exponent, rest);
    }
  }

  lemma FractionRoundTrip(fraction: Text, rest: Text)
    requires forall c <- fraction :: IsDigit(c)
    requires rest != [] ==> !IsDigit(rest[0]) && rest[0] != POINT
    ensures ParseFraction((if fraction == [] then [] else [POINT] + fraction) + rest) == Ok(fraction, rest)
  {
    if fraction == [] {
      assert [] + rest == rest;
    } else {
      assert ([POINT] + fraction + rest)[1..] == fraction + rest;
      DigitRunExact(fraction, rest);
    }
  }

  lemma {:induction false} NatTextNoLeadingZero(n: nat)
    ensures NatText(n)[0] == 0x30 ==> |NatText(n)| == 1
    ensures NatText(n)[0] == 0x30 ==> n == 0
  {
    if n < 10 {
    } else {
      NatTextNoLeadingZero(n / 10);
    }
  }

  /** Reading a number, given what its pieces read as. */
  lemma NumberStep(n: Numeral, t: Text, run: Text, frac: Text, after: Text, rest: Text)
    requires t != [] && (t[0] == MINUS <==> n.negative)
    requires DigitRun(if n.negative then t[1..] else t) == (run, frac)
    requires run != [] && (run[0] == 0x30 ==> |run| == 1)
    requires (forall c <- run :: IsDigit(c)) && NatValue(run, 0) == n.whole
    requires ParseFraction(frac) == Ok(n.fraction, after)
    requires ParseExponent(after) == Ok(n.exponent, rest)
    ensures ParseNumber(t) == Ok(JNum(n), rest)
  {
    assert n == Decimal(n.negative, n.whole, n.fraction, n.exponent);
  }

  lemma NumberPieces(sign: Text, run: Text, point: Text, exponent: Text, rest: Text)
    ensures sign + run + (point + exponent) + rest == sign + (run + (point + (exponent + rest)))
  {
  }

  lemma NumberRoundTrip(n: Numeral, rest: Text)
    requires Delimits(rest)
    ensures ParseNumber(NumText(n) + rest) == Ok(JNum(n), rest)
  {
    var sign := if n.negative then [MINUS] else [];
    var run := NatText(n.whole);
    var point := if n.fraction == [] then [] else [POINT] + n.fraction;
    var after := ExponentText(n.exponent) + rest;
    var frac := point + after;
    var t := NumText(n) + rest;
    NumberPieces(sign, run, point, ExponentText(n.exponent), rest);
    assert run[0] in run;
    assert (if n.negative then t[1..] else t) == run + frac;
    NatTextValue(n.whole);
    NatTextNoLeadingZero(n.whole);
    assert after != [] ==> !IsDigit(after[0]) && after[0] != POINT;
    DigitRunExact(run, frac);
    FractionRoundTrip(n.fraction, after);
    ExponentRoundTrip(n.exponent, rest);
    NumberStep(n, t, run, frac, after, rest);
  }

  // -------------------------------------------------------- values round trip

  /** How a canonical text can start: never like white space or a closing bracket. */
  lemma {:induction false} CanonicalHead(j: Json)
    ensures Canonical(j) != []
    ensures var c := Canonical(j)[0]; !IsSpace(c) && c != RBRACKET && c != RBRACE
  {
    match j
    case JNum(n) => NumTextHead(n);
    case _ =>
  }

  /** Which reader a text that starts with no white space is handed to. */
  lemma Dispatch(t: Text)
    requires t != [] && !IsSpace(t[0])
    ensures t[0] == QUOTE ==> Parse(t) == ParseStringValue(t[1..])
    ensures t[0] == LBRACKET ==> Parse(t) == ParseArray(t[1..])
    ensures t[0] == LBRACE ==> Parse(t) == ParseObject(t[1..])
    ensures IsDigit(t[0]) || t[0] == MINUS ==> Parse(t) == ParseNumber(t)
    ensures t[0] == NULL_TEXT[0] ==> Parse(t) == ParseLiteral(t, NULL_TEXT, JNull)
    ensures t[0] == TRUE_TEXT[0] ==> Parse(t) == ParseLiteral(t, TRUE_TEXT, JBool(true))
    ensures t[0] == FALSE_TEXT[0] ==> Parse(t) == ParseLiteral(t, FALSE_TEXT, JBool(false))
  {
    assert SkipSpace(t) == t;
  }

  /** Canonical text is uniquely decodable: whatever delimiter and text follow it, the
      reader gives back exactly the value and the untouched rest. */
  lemma {:induction false} RoundTrip(j: Json, rest: Text)
    requires Delimits(rest)
    ensures Parse(Canonical(j) + rest) == Ok(j, rest)
    decreases j, 2, 0
  {
    match j
    case JNull =>
      Dispatch(NULL_TEXT + rest);
      LiteralRoundTrip(NULL_TEXT, j, rest);
    case JBool(b) =>
      var word := if b then TRUE_TEXT else FALSE_TEXT;
      Dispatch(word + rest);
      LiteralRoundTrip(word, j, rest);
    case JNum(n) => NumberValueRoundTrip(n, rest);
    case JStr(s) => StringValueRoundTrip(s, rest);
    case JArr(items) =>
      ArrayRoundTrip(j, rest);
      BracketedDispatch(LBRACKET, Join(ItemTexts(items), [COMMA]), RBRACKET, rest);
    case JObj(members) =>
      ObjectRoundTrip(j, rest);
      BracketedDispatch(LBRACE, Join(MemberTexts(j, SortSet(members.Keys)), [COMMA]), RBRACE, rest);
  }

  lemma StringValueRoundTrip(s: Text, rest: Text)
    ensures Parse(Quote(s) + rest) == Ok(JStr(s), rest)
  {
    var t := Quote(s) + rest;
    var body := Escape(s) + [QUOTE] + rest;
    assert t == [QUOTE] + body;
    assert t[1..] == body;
    Dispatch(t);
    StringRoundTrip(s, rest);
  }

  /** One of the three literals, given what the reader does with its first unit. */
  lemma LiteralRoundTrip(word: Text, j: Json, rest: Text)
    requires word != []
    requires Parse(word + rest) == ParseLiteral(word + rest, word, j)
    ensures Parse(word + rest) == Ok(j, rest)
  {
    assert (word + rest)[|word|..] == rest;
  }

  lemma NumberValueRoundTrip(n: Numeral, rest: Text)
    requires Delimits(rest)
    ensures Parse(NumText(n) + rest) == Ok(JNum(n), rest)
  {
    NumTextHead(n);
    NumberRoundTrip(n, rest);
    Dispatch(NumText(n) + rest);
  }

  lemma BracketedDispatch(open: CodeUnit, inner: Text, close: CodeUnit, rest: Text)
    requires open == LBRACKET || open == LBRACE
    ensures Parse([open] + inner + [close] + rest) ==
            if open == LBRACKET then ParseArray(inner + [close] + rest)
            else ParseObject(inner + [close] + rest)
  {
    var t := [open] + inner + [close] + rest;
    assert t[1..] == inner + [close] + rest;
    Dispatch(t);
  }

  lemma ArrayRoundTrip(j: Json, rest: Text)
    requires j.JArr?
    ensures ParseArray(Join(ItemTexts(j.items), [COMMA]) + [RBRACKET] + rest) == Ok(j, rest)
    decreases j, 1, 0
  {
    var parts := ItemTexts(j.items);
    var t := Join(parts, [COMMA]) + [RBRACKET] + rest;
    if j.items == [] {
      assert t == [RBRACKET] + rest;
      assert t[1..] == rest;
    } else {
      CanonicalHead(j.items[0]);
      assert t[0] == Canonical(j.items[0])[0];
      assert j.items[0..] == j.items;
      ItemsRoundTrip(j, 0, rest);
    }
  }

  /** The text of a non-empty list of parts, from the first part on. */
  lemma JoinedText(parts: seq<Text>, close: CodeUnit, rest: Text)
    requires parts != []
    ensures Join(parts, [COMMA]) + [close] + rest ==
            parts[0] +
            if |parts| == 1 then [close] + rest
            else [COMMA] + (Join(parts[1..], [COMMA]) + [close] + rest)
  {
    if |parts| == 1 {
      Regroup([], [], parts[0], [close], rest);
    } else {
      Regroup(parts[0], [COMMA], Join(parts[1..], [COMMA]), [close], rest);
    }
  }

  lemma Regroup(a: Text, b: Text, c: Text, d: Text, e: Text)
    ensures a + b + c + d + e == a + (b + (c + d + e))
    ensures c + d + e == c + (d + e)
  {
  }

  /** One turn of the item loop, given what its value reads as. */
  lemma ItemStep(t: Text, item: Json, after: Text)
    requires Parse(t) == Ok(item, after)
    requires after != [] && (after[0] == RBRACKET || after[0] == COMMA)
    ensures ParseItems(t) ==
            if after[0] == RBRACKET then Ok([item], after[1..])
            else match ParseItems(after[1..])
                 case Fail => Fail
                 case Ok(items, rest) => Ok([item] + items, rest)
  {
    assert SkipSpace(after) == after;
  }

  lemma {:induction false} ItemsRoundTrip(j: Json, from: nat, rest: Text)
    requires j.JArr? && from < |j.items|
    ensures ParseItems(Join(ItemTexts(j.items[from..]), [COMMA]) + [RBRACKET] + rest) == Ok(j.items[from..], rest)
    decreases j, 0, |j.items| - from
  {
    var items, item := j.items[from..], j.items[from];
    var parts := ItemTexts(items);
    JoinedText(parts, RBRACKET, rest);
    if |items| == 1 {
      var after := [RBRACKET] + rest;
      RoundTrip(item, after);
      ItemStep(Canonical(item) + after, item, after);
      assert after[1..] == rest;
      assert items == [item];
    } else {
      var more := j.items[from + 1..];
      assert items == [item] + more;
      assert parts[1..] == ItemTexts(more);
      var next := Join(ItemTexts(more), [COMMA]) + [RBRACKET] + rest;
      var after := [COMMA] + next;
      ItemsRoundTrip(j, from + 1, rest);
      assert after[1..] == next;
      RoundTrip(item, after);
      ItemStep(Canonical(item) + after, item, after);
    }
  }

  ghost function Restrict(members: map<Text, Json>, keys: seq<Text>): map<Text, Json>
    requires forall k <- keys :: k in members
  {
    map k | k in keys :: members[k]
  }

  lemma RestrictStep(members: map<Text, Json>, keys: seq<Text>)
    requires keys != [] && forall k <- keys :: k in members
    requires forall i, i' :: 0 <= i < i' < |keys| ==> keys[i] != keys[i']
    ensures |keys| == 1 ==> Restrict(members, keys) == map[keys[0] := members[keys[0]]]
    ensures Restrict(members, keys) == map[keys[0] := members[keys[0]]] + Restrict(members, keys[1..])
  {
  }

  lemma RestrictAll(members: map<Text, Json>)
    ensures forall k <- SortSet(members.Keys) :: k in members
    ensures Restrict(members, SortSet(members.Keys)) == members
  {
  }

  lemma {:induction false} ObjectRoundTrip(j: Json, rest: Text)
    requires j.JObj?
    ensures ParseObject(Join(MemberTexts(j, SortSet(j.members.Keys)), [COMMA]) + [RBRACE] + rest)
            == Ok(j, rest)
    decreases j, 1, 0
  {
    var keys := SortSet(j.members.Keys);
    SortSetAscending(j.members.Keys);
    RestrictAll(j.members);
    var parts := MemberTexts(j, keys);
    if keys == [] {
      EmptyObject(rest);
    } else {
      JoinedText(parts, RBRACE, rest);
      MembersRoundTrip(j, keys, rest);
      assert parts[0] == MemberText(keys[0], j.members[keys[0]]);
      ObjectStep(Join(parts, [COMMA]) + [RBRACE] + rest, j.members, rest);
    }
  }

  lemma ObjectStep(t: Text, members: map<Text, Json>, rest: Text)
    requires t != [] && t[0] == QUOTE && ParseMembers(t) == Ok(members, rest)
    ensures ParseObject(t) == Ok(JObj(members), rest)
  {
    assert SkipSpace(t) == t;
  }

  lemma EmptyObject(rest: Text)
    ensures ParseObject([] + [RBRACE] + rest) == Ok(JObj(map[]), rest)
  {
    var t := [] + [RBRACE] + rest;
    assert t == [RBRACE] + rest;
    assert t[1..] == rest;
  }

  lemma MemberPieces(key: Text, value: Json, after: Text)
    ensures var more := [COLON] + (Canonical(value) + after);
            MemberText(key, value) + after == [QUOTE] + (Escape(key) + [QUOTE] + more)
  {
    RegroupMember(Escape(key), Canonical(value), after);
  }

  lemma RegroupMember(key: Text, value: Text, after: Text)
    ensures [QUOTE] + key + [QUOTE] + [COLON] + value + after ==
            [QUOTE] + (key + [QUOTE] + ([COLON] + (value + after)))
  {
  }

  /** Reading one `"key":value` and stopping at the delimiter after it. */
  lemma {:induction false} MemberRoundTrip(key: Text, value: Json, after: Text)
    requires Delimits(after) && after != []
    ensures var t := MemberText(key, value) + after;
            && t[0] == QUOTE
            && ParseString(t[1..]) == Ok(key, [COLON] + (Canonical(value) + after))
            && Parse(Canonical(value) + after) == Ok(value, after)
    decreases value, 3, 0
  {
    var more := [COLON] + (Canonical(value) + after);
    MemberPieces(key, value, after);
    assert ([QUOTE] + (Escape(key) + [QUOTE] + more))[1..] == Escape(key) + [QUOTE] + more;
    StringRoundTrip(key, more);
    RoundTrip(value, after);
  }

  /** One turn of the member loop, given what the pieces read as. */
  lemma {:induction false} MemberStep(t: Text, key: Text, value: Json, valueText: Text, after: Text)
    requires t != [] && t[0] == QUOTE
    requires ParseString(t[1..]) == Ok(key, [COLON] + valueText)
    requires Parse(valueText) == Ok(value, after)
    requires after != [] && (after[0] == RBRACE || after[0] == COMMA)
    ensures ParseMembers(t) ==
            if after[0] == RBRACE then Ok(map[key := value], after[1..])
            else match ParseMembers(after[1..])
                 case Fail => Fail
                 case Ok(members, rest) => Ok(map[key := value] + members, rest)
  {
    assert SkipSpace(t) == t;
    assert SkipSpace([COLON] + valueText) == [COLON] + valueText;
    assert ([COLON] + valueText)[1..] == valueText;
    assert SkipSpace(after) == after;
  }

  lemma {:induction false} MembersRoundTrip(j: Json, keys: seq<Text>, rest: Text)
    requires j.JObj? && keys != [] && forall k <- keys :: k in j.members
    requires forall i, i' :: 0 <= i < i' < |keys| ==> keys[i] != keys[i']
    ensures ParseMembers(Join(MemberTexts(j, keys), [COMMA]) + [RBRACE] + rest)
            == Ok(Restrict(j.members, keys), rest)
    decreases j, 0, |keys|
  {
    var parts := MemberTexts(j, keys);
    var k, v := keys[0], j.members[keys[0]];
    var t := Join(parts, [COMMA]) + [RBRACE] + rest;
    JoinedText(parts, RBRACE, rest);
    RestrictStep(j.members, keys);
    if |keys| == 1 {
      var after := [RBRACE] + rest;
      MemberRoundTrip(k, v, after);
      MemberStep(t, k, v, Canonical(v) + after, after);
      assert after[1..] == rest;
    } else {
      var more := keys[1..];
      MembersRoundTrip(j, more, rest);
      assert parts[1..] == MemberTexts(j, more);
      var next := Join(parts[1..], [COMMA]) + [RBRACE] + rest;
      var after := [COMMA] + next;
      MemberRoundTrip(k, v, after);
      assert after[1..] == next;
      MemberStep(t, k, v, Canonical(v) + after, after);
    }
  }

  /** A whole document reads back, with or without white space at its end. */
  lemma DecodeCanonical(j: Json, space: Text)
    requires forall i :: 0 <= i < |space| ==> IsSpace(space[i])
    ensures Decode(Canonical(j) + space) == Some(j)
  {
    RoundTrip(j, space);
    SkipAllSpace(space);
  }

  lemma {:induction false} SkipAllSpace(space: Text)
    requires forall i :: 0 <= i < |space| ==> IsSpace(space[i])
    ensures SkipSpace(space) == []
  {
    if space == [] {
    } else {
      SkipAllSpace(space[1..]);
    }
  }

  /** Two values print alike exactly when they are equal. */
  lemma CanonicalInjective(a: Json, b: Json)
    ensures Canonical(a) == Canonical(b) <==> a == b
  {
    DecodeCanonical(a, []);
    DecodeCanonical(b, []);
    assert Canonical(a) + [] == Canonical(a) && Canonical(b) + [] == Canonical(b);
  }
}
