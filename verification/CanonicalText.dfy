/** The canonical text itself, piece by piece, as the language's own functions spell it. */
module CanonicalText {
  import opened Json
  import opened JsonDecode
  import opened Sorting
  import opened Texts

  // ---------------------------------------------------------------------- strings

  /** `\u` and the four lower-case hexadecimal digits of `c`. */
  ghost predicate IsUnicodeEscape(c: CodeUnit, t: Text) {
    exists p: nat, q: nat, r: nat, s: nat | p < 16 && q < 16 && r < 16 && s < 16 ::
      c as int == 4096 * p + 256 * q + 16 * r + s && t == Ascii("\\u") + HexDigits(p, q, r, s)
  }

  function HexDigits(p: nat, q: nat, r: nat, s: nat): Text
    requires p < 16 && q < 16 && r < 16 && s < 16
  {
    var digits := Ascii("0123456789abcdef");
    [digits[p], digits[q], digits[r], digits[s]]
  }

  /** How `JSON.stringify` writes a unit that is not half of a surrogate pair. */
  ghost predicate SpellsUnit(c: CodeUnit, t: Text) {
    if c == 0x22 then t == Ascii("\\\"")
    else if c == 0x5C then t == Ascii("\\\\")
    else if c == 0x08 then t == Ascii("\\b")
    else if c == 0x09 then t == Ascii("\\t")
    else if c == 0x0A then t == Ascii("\\n")
    else if c == 0x0C then t == Ascii("\\f")
    else if c == 0x0D then t == Ascii("\\r")
    else if c < 0x20 || 0xD800 <= c <= 0xDFFF then IsUnicodeEscape(c, t)
    else t == [c]
  }

  predicate StartsWithPair(s: Text) {
    |s| >= 2 && 0xD800 <= s[0] <= 0xDBFF && 0xDC00 <= s[1] <= 0xDFFF
  }

  /** `t` spells the units of `s` in their order; surrogate pairs stay as they are. */
  ghost predicate Spells(s: Text, t: Text) {
    if s == [] then t == []
    else if StartsWithPair(s) then s[..2] <= t && Spells(s[2..], t[2..])
    else exists n: nat :: n <= |t| && SpellsUnit(s[0], t[..n]) && Spells(s[1..], t[n..])
  }

  lemma UnitSpelled(c: CodeUnit)
    ensures SpellsUnit(c, EscapeUnit(c))
  {
    if c == 0x22 || c == 0x5C || c == 0x08 || c == 0x09 || c == 0x0A || c == 0x0C || c == 0x0D {
      assert |EscapeUnit(c)| == 2;
    } else if c < 0x20 || 0xD800 <= c <= 0xDFFF {
      HexSpelled(c);
    }
  }

  lemma HexDigitIs(d: nat)
    requires d < 16
    ensures HexDigit(d) == Ascii("0123456789abcdef")[d]
  {
  }

  lemma HexSpelled(c: CodeUnit)
    ensures IsUnicodeEscape(c, [BACKSLASH, LOWER_U] + Hex4(c))
  {
    var n := c as int;
    Base16(n);
    var p: nat, q: nat, r: nat, s: nat := n / 4096, n / 256 % 16, n / 16 % 16, n % 16;
    IsHexText(c, p, q, r, s);
  }

  lemma IsHexText(c: CodeUnit, p: nat, q: nat, r: nat, s: nat)
    requires p < 16 && q < 16 && r < 16 && s < 16 && c as int == 4096 * p + 256 * q + 16 * r + s
    requires p == c as int / 4096 && q == c as int / 256 % 16 && r == c as int / 16 % 16 && s == c as int % 16
    ensures IsUnicodeEscape(c, [BACKSLASH, LOWER_U] + Hex4(c))
  {
    HexDigitIs(p);
    HexDigitIs(q);
    HexDigitIs(r);
    HexDigitIs(s);
    assert Hex4(c) == [HexDigit(p), HexDigit(q), HexDigit(r), HexDigit(s)];
    assert Hex4(c) == HexDigits(p, q, r, s);
    assert Ascii("\\u") == [BACKSLASH, LOWER_U];
  }

  lemma {:induction false} EscapeSpells(s: Text)
    ensures Spells(s, Escape(s))
  {
    if s == [] {
    } else if StartsWithPair(s) {
      EscapeSpells(s[2..]);
      assert Escape(s)[2..] == Escape(s[2..]);
    } else {
      EscapeSpells(s[1..]);
      UnitSpelled(s[0]);
      var n := |EscapeUnit(s[0])|;
      assert Escape(s)[..n] == EscapeUnit(s[0]) && Escape(s)[n..] == Escape(s[1..]);
    }
  }

  lemma SpelledOneWay(c: CodeUnit, t: Text, u: Text)
    requires SpellsUnit(c, t) && SpellsUnit(c, u)
    ensures t == u
  {
    if (c < 0x20 || 0xD800 <= c <= 0xDFFF) && !(0x08 <= c <= 0x0A) && c != 0x0C && c != 0x0D {
      HexOneWay(c, t, u);
    }
  }

  lemma SameDigits(p: nat, q: nat, r: nat, s: nat, p': nat, q': nat, r': nat, s': nat)
    requires p < 16 && q < 16 && r < 16 && s < 16 && p' < 16 && q' < 16 && r' < 16 && s' < 16
    requires 4096 * p + 256 * q + 16 * r + s == 4096 * p' + 256 * q' + 16 * r' + s'
    ensures p == p' && q == q' && r == r' && s == s'
  {
  }

  lemma HexOneWay(c: CodeUnit, t: Text, u: Text)
    requires IsUnicodeEscape(c, t) && IsUnicodeEscape(c, u)
    ensures t == u
  {
    var p: nat, q: nat, r: nat, s: nat :| p < 16 && q < 16 && r < 16 && s < 16 &&
      c as int == 4096 * p + 256 * q + 16 * r + s && t == Ascii("\\u") + HexDigits(p, q, r, s);
    var p': nat, q': nat, r': nat, s': nat :| p' < 16 && q' < 16 && r' < 16 && s' < 16 &&
      c as int == 4096 * p' + 256 * q' + 16 * r' + s' && u == Ascii("\\u") + HexDigits(p', q', r', s');
    SameDigits(p, q, r, s, p', q', r', s');
  }

  /** A string has one spelling. */
  lemma {:induction false} SpellingUnique(s: Text, t: Text, u: Text)
    requires Spells(s, t) && Spells(s, u)
    ensures t == u
  {
    if s == [] {
    } else if StartsWithPair(s) {
      SpellingUnique(s[2..], t[2..], u[2..]);
      SameParts(t, 2, u, 2);
    } else {
      var n: nat :| n <= |t| && SpellsUnit(s[0], t[..n]) && Spells(s[1..], t[n..]);
      var m: nat :| m <= |u| && SpellsUnit(s[0], u[..m]) && Spells(s[1..], u[m..]);
      SpelledOneWay(s[0], t[..n], u[..m]);
      SpellingUnique(s[1..], t[n..], u[m..]);
      SameParts(t, n, u, m);
    }
  }

  lemma SameParts(t: Text, n: nat, u: Text, m: nat)
    requires n <= |t| && m <= |u| && t[..n] == u[..m] && t[n..] == u[m..]
    ensures t == u
  {
    assert t == t[..n] + t[n..] && u == u[..m] + u[m..];
  }

  /** A string prints as its spelling between two quotes, and as nothing else. */
  lemma StringTextExactly(s: Text, body: Text)
    ensures Canonical(JStr(s)) == Ascii("\"") + body + Ascii("\"") <==> Spells(s, body)
  {
    EscapeSpells(s);
    BetweenQuotes(Escape(s), body);
    if Spells(s, body) {
      SpellingUnique(s, body, Escape(s));
    }
  }

  lemma BetweenQuotes(a: Text, b: Text)
    ensures [QUOTE] + a + [QUOTE] == Ascii("\"") + b + Ascii("\"") <==> a == b
  {
    assert Ascii("\"") == [QUOTE];
    assert ([QUOTE] + a + [QUOTE])[1..|a| + 1] == a;
    assert ([QUOTE] + b + [QUOTE])[1..|b| + 1] == b;
    assert |[QUOTE] + a + [QUOTE]| == |a| + 2 && |[QUOTE] + b + [QUOTE]| == |b| + 2;
  }

  /** Nothing but quotes, backslashes, control units and surrogates is ever escaped. */
  predicate IsPlain(s: Text) {
    forall i :: 0 <= i < |s| ==> s[i] >= 0x20 && s[i] != 0x22 && s[i] != 0x5C && !(0xD800 <= s[i] <= 0xDFFF)
  }

  lemma {:induction false} PlainSpells(s: Text)
    requires IsPlain(s)
    ensures Spells(s, s)
  {
    if s == [] {
    } else {
      PlainSpells(s[1..]);
      assert s[..1] == [s[0]];
    }
  }

  /** A plain string prints as itself between two quotes. */
  lemma PlainStringText(s: Text)
    requires IsPlain(s)
    ensures Canonical(JStr(s)) == Ascii("\"") + s + Ascii("\"")
  {
    PlainSpells(s);
    StringTextExactly(s, s);
  }

  // ------------------------------------------------- constants, arrays and objects

  lemma ConstantTexts()
    ensures Canonical(JNull) == Ascii("null")
    ensures Canonical(JBool(true)) == Ascii("true") && Canonical(JBool(false)) == Ascii("false")
  {
  }

  /** An array prints as the texts of its items, with commas between them. */
  lemma ArrayText(items: seq<Json>, texts: seq<Text>)
    requires |texts| == |items| && forall i :: 0 <= i < |items| ==> texts[i] == Canonical(items[i])
    ensures Canonical(JArr(items)) == Ascii("[") + Join(texts, Ascii(",")) + Ascii("]")
  {
    assert ItemTexts(items) == texts;
    assert Ascii("[") == [LBRACKET] && Ascii(",") == [COMMA] && Ascii("]") == [RBRACKET];
  }

  /** An object prints its members in ascending order of their keys. */
  lemma ObjectText(members: map<Text, Json>, keys: seq<Text>, texts: seq<Text>)
    requires Ascending(keys) && forall k :: k in keys <==> k in members
    requires |texts| == |keys|
    requires forall i :: 0 <= i < |keys| ==>
               keys[i] in members &&
               texts[i] == Canonical(JStr(keys[i])) + Ascii(":") + Canonical(members[keys[i]])
    ensures Canonical(JObj(members)) == Ascii("{") + Join(texts, Ascii(",")) + Ascii("}")
  {
    AscendingIsSortSet(keys, members.Keys);
    var parts := MemberTexts(JObj(members), keys);
    forall i | 0 <= i < |keys| ensures parts[i] == texts[i] {
      MemberIs(keys[i], members[keys[i]]);
    }
    assert parts == texts;
    assert Ascii("{") == [LBRACE] && Ascii(",") == [COMMA] && Ascii("}") == [RBRACE];
  }

  lemma MemberIs(key: Text, value: Json)
    ensures MemberText(key, value) == Canonical(JStr(key)) + Ascii(":") + Canonical(value)
  {
    assert Ascii(":") == [COLON];
  }

  // ---------------------------------------------------------------------- numbers

  /** A number prints as sign, whole part, fraction and exponent, each where there is one. */
  lemma NumberText(n: Numeral)
    ensures var sign: Text := if n.negative then Ascii("-") else [];
            var point: Text := if n.fraction == [] then [] else Ascii(".") + n.fraction;
            var power: Text := if n.exponent == 0 then []
                               else if n.exponent > 0 then Ascii("e+") + NatText(n.exponent)
                               else Ascii("e-") + NatText(-n.exponent);
            Canonical(JNum(n)) == sign + NatText(n.whole) + (point + power)
  {
    assert Ascii("-") == [MINUS] && Ascii(".") == [POINT];
    assert Ascii("e+") == [LOWER_E, PLUS] && Ascii("e-") == [LOWER_E, MINUS];
  }
}
