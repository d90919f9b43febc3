/** Strings as the source's language sees them: sequences of UTF-16 code units,
    compared code unit by code unit. */
module Texts {

  newtype CodeUnit = u: int | 0 <= u < 0x1_0000

  type Text = seq<CodeUnit>

  /** A hash function, from the hashed text to the digest's text. */
  type Hash = Text -> Text

  const NEWLINE: CodeUnit := 0x0A
  const SLASH: CodeUnit := 0x2F
  const COLON: CodeUnit := 0x3A
  const BAR: CodeUnit := 0x7C

  /** The code unit of a character; only characters below 0x10000 are ever used. */
  function Code(c: char): CodeUnit {
    if c as int < 0x1_0000 then c as int as CodeUnit else 0xFFFD
  }

  /** A string literal of the source as code units. */
  function Ascii(s: string): (t: Text)
    ensures |t| == |s|
  {
    seq(|s|, i requires 0 <= i < |s| => Code(s[i]))
  }

  // ---------------------------------------------------------------- order

  /** The language's `<=` on strings. */
  predicate Leq(a: Text, b: Text) {
    a == [] ||
    (b != [] && (a[0] < b[0] || (a[0] == b[0] && Leq(a[1..], b[1..]))))
  }

  /** The language's `<` on strings. */
  predicate Less(a: Text, b: Text) {
    a != b && Leq(a, b)
  }

  lemma {:induction false} LeqTotal(a: Text, b: Text)
    ensures Leq(a, b) || Leq(b, a)
  {
    if a == [] || b == [] || a[0] != b[0] {
    } else {
      LeqTotal(a[1..], b[1..]);
    }
  }

  lemma {:induction false} LeqAntisymmetric(a: Text, b: Text)
    requires Leq(a, b) && Leq(b, a)
    ensures a == b
  {
    if a == [] || b == [] {
    } else {
      LeqAntisymmetric(a[1..], b[1..]);
      assert a == [a[0]] + a[1..] && b == [b[0]] + b[1..];
    }
  }

  lemma {:induction false} LeqTransitive(a: Text, b: Text, c: Text)
    requires Leq(a, b) && Leq(b, c)
    ensures Leq(a, c)
  {
    if a == [] || b == [] || c == [] || a[0] != b[0] || b[0] != c[0] {
    } else {
      LeqTransitive(a[1..], b[1..], c[1..]);
    }
  }

  /** All the order laws at once, for proofs that sort. */
  lemma LeqIsTotalOrder()
    ensures forall a, b :: Leq(a, b) || Leq(b, a)
    ensures forall a, b :: Leq(a, b) && Leq(b, a) ==> a == b
    ensures forall a, b, c :: Leq(a, b) && Leq(b, c) ==> Leq(a, c)
  {
    forall a, b ensures Leq(a, b) || Leq(b, a) { LeqTotal(a, b); }
    forall a, b | Leq(a, b) && Leq(b, a) ensures a == b { LeqAntisymmetric(a, b); }
    forall a, b, c | Leq(a, b) && Leq(b, c) ensures Leq(a, c) { LeqTransitive(a, b, c); }
  }

  /** `a` comes before `b`: it is a proper beginning of it, or the first units in which they
      differ ascend. */
  ghost predicate PartsBefore(a: Text, b: Text, n: nat) {
    && n <= |a| && n <= |b| && a[..n] == b[..n]
    && n < |b| && (n == |a| || a[n] < b[n])
  }

  lemma HeadsAgree(a: Text, b: Text, n: nat)
    requires PartsBefore(a, b, n) && n > 0
    ensures a != [] && b != [] && a[0] == b[0]
  {
    assert a[..n][0] == a[0] && b[..n][0] == b[0];
  }

  /** The order is the lexicographic one, by code units. */
  lemma {:induction false} LessExactly(a: Text, b: Text)
    ensures Less(a, b) <==> exists n: nat :: PartsBefore(a, b, n)
  {
    assert a[..0] == [] && b[..0] == [];
    if a == [] || b == [] || a[0] != b[0] {
      if Less(a, b) {
        assert PartsBefore(a, b, 0);
      }
      if n: nat :| PartsBefore(a, b, n) && n > 0 {
        HeadsAgree(a, b, n);
      }
    } else {
      LessExactly(a[1..], b[1..]);
      assert a == [a[0]] + a[1..] && b == [b[0]] + b[1..];
      if n: nat :| PartsBefore(a[1..], b[1..], n) {
        PartsLater(a, b, n);
      }
      if n: nat :| PartsBefore(a, b, n) {
        assert n > 0;
        PartsLater(a, b, n - 1);
      }
    }
  }

  lemma PartsLater(a: Text, b: Text, n: nat)
    requires a != [] && b != [] && a[0] == b[0]
    ensures PartsBefore(a, b, n + 1) <==> PartsBefore(a[1..], b[1..], n)
  {
    if n < |a| && n < |b| {
      assert a[..n + 1] == [a[0]] + a[1..][..n] && b[..n + 1] == [b[0]] + b[1..][..n];
      assert a[1..][..n] == a[..n + 1][1..] && b[1..][..n] == b[..n + 1][1..];
    }
  }

  // ------------------------------------------------------- joining, splitting

  lemma ConcatAssociative<T>(a: seq<T>, b: seq<T>, c: seq<T>)
    ensures (a + b) + c == a + (b + c)
  {
  }

  /** `parts.join(sep)` */
  function Join(parts: seq<Text>, sep: Text): Text {
    if |parts| == 0 then []
    else if |parts| == 1 then parts[0]
    else parts[0] + sep + Join(parts[1..], sep)
  }

  /** `t.split(c)` for a one-unit separator. */
  function Split(t: Text, c: CodeUnit): (parts: seq<Text>)
    ensures |parts| > 0
  {
    if t == [] then [[]]
    else
      var rest := Split(t[1..], c);
      if t[0] == c then [[]] + rest else [[t[0]] + rest[0]] + rest[1..]
  }

  /** Splitting right after a piece that has no separator in it. */
  lemma {:induction false} SplitAfterPiece(piece: Text, rest: Text, c: CodeUnit)
    requires c !in piece
    ensures Split(piece + [c] + rest, c) == [piece] + Split(rest, c)
  {
    var t := piece + [c] + rest;
    if piece == [] {
      assert t[1..] == rest;
    } else {
      assert t[1..] == piece[1..] + [c] + rest;
      SplitAfterPiece(piece[1..], rest, c);
      assert piece == [piece[0]] + piece[1..];
    }
  }

  lemma {:induction false} SplitWithoutSeparator(piece: Text, c: CodeUnit)
    requires c !in piece
    ensures Split(piece, c) == [piece]
  {
    if piece == [] {
    } else {
      SplitWithoutSeparator(piece[1..], c);
      assert piece == [piece[0]] + piece[1..];
    }
  }

  /** Splitting undoes joining when no piece has the separator in it. */
  lemma {:induction false} SplitJoin(parts: seq<Text>, c: CodeUnit)
    requires |parts| > 0
    requires forall p <- parts :: c !in p
    ensures Split(Join(parts, [c]), c) == parts
  {
    if |parts| == 1 {
      SplitWithoutSeparator(parts[0], c);
    } else {
      SplitAfterPiece(parts[0], Join(parts[1..], [c]), c);
      SplitJoin(parts[1..], c);
      assert parts == [parts[0]] + parts[1..];
    }
  }

  /** `Join` reads one part at a time. */
  lemma JoinCons(first: Text, rest: seq<Text>, sep: Text)
    requires rest != []
    ensures Join([first] + rest, sep) == first + sep + Join(rest, sep)
  {
    assert ([first] + rest)[1..] == rest;
  }

  /** A longer first part. */
  lemma JoinLonger(x: CodeUnit, parts: seq<Text>, sep: Text)
    requires parts != []
    ensures Join([[x] + parts[0]] + parts[1..], sep) == [x] + Join(parts, sep)
  {
    assert ([[x] + parts[0]] + parts[1..])[1..] == parts[1..];
    if |parts| > 1 {
      ConcatAssociative([x] + parts[0], sep, Join(parts[1..], sep));
      ConcatAssociative([x], parts[0], sep + Join(parts[1..], sep));
      ConcatAssociative(parts[0], sep, Join(parts[1..], sep));
    }
  }

  lemma JoinSplitCons(x: CodeUnit, t: Text, c: CodeUnit)
    requires Join(Split(t, c), [c]) == t
    ensures Join(Split([x] + t, c), [c]) == [x] + t
  {
    assert ([x] + t)[1..] == t;
    var rest := Split(t, c);
    if x == c {
      JoinCons([], rest, [c]);
    } else {
      JoinLonger(x, rest, [c]);
    }
  }

  /** And joining undoes splitting. */
  lemma {:induction false} JoinSplit(t: Text, c: CodeUnit)
    ensures Join(Split(t, c), [c]) == t
  {
    if t == [] {
    } else {
      JoinSplit(t[1..], c);
      JoinSplitCons(t[0], t[1..], c);
      assert t == [t[0]] + t[1..];
    }
  }

  lemma {:induction false} JoinAppend(parts: seq<Text>, last: Text, sep: Text)
    requires parts != []
    ensures Join(parts + [last], sep) == Join(parts, sep) + sep + last
  {
    var all := parts + [last];
    if |parts| == 1 {
      assert all[1..] == [last];
    } else {
      assert all[1..] == parts[1..] + [last];
      JoinAppend(parts[1..], last, sep);
      assert Join(all, sep) == parts[0] + sep + (Join(parts[1..], sep) + sep + last);
    }
  }

  /** `parts.filter(p => p.length > 0)` */
  function NonEmpty(parts: seq<Text>): seq<Text> {
    if parts == [] then []
    else
      var front, last := parts[..|parts| - 1], parts[|parts| - 1];
      if last == [] then NonEmpty(front) else NonEmpty(front) + [last]
  }

  lemma {:induction false} NonEmptyAll(parts: seq<Text>)
    requires forall i :: 0 <= i < |parts| ==> parts[i] != []
    ensures NonEmpty(parts) == parts
  {
    if parts == [] {
    } else {
      NonEmptyAll(parts[..|parts| - 1]);
      assert parts == parts[..|parts| - 1] + [parts[|parts| - 1]];
    }
  }

  lemma {:induction false} NonEmptyMembers(parts: seq<Text>, part: Text)
    ensures part in NonEmpty(parts) <==> part != [] && part in parts
  {
    if parts == [] {
    } else {
      var front := parts[..|parts| - 1];
      NonEmptyMembers(front, part);
      assert parts == front + [parts[|parts| - 1]];
    }
  }

  /** No piece has the separator in it. */
  lemma {:induction false} SplitPieces(t: Text, c: CodeUnit)
    ensures forall i :: 0 <= i < |Split(t, c)| ==> c !in Split(t, c)[i]
  {
    if t == [] {
    } else {
      SplitPieces(t[1..], c);
    }
  }

  /** What stands before and after a separator can be told from the whole, when the separator
      is its first or its last there. */
  lemma SeparatorTellsApart(c: CodeUnit, a: Text, b: Text, x: Text, y: Text)
    requires a + [c] + x == b + [c] + y
    requires (c !in a && c !in b) || (c !in x && c !in y)
    ensures a == b && x == y
  {
    var s, t := a + [c] + x, b + [c] + y;
    assert s[|a|] == c && t[|b|] == c;
    if |a| != |b| {
      assert false;
    }
    assert s[..|a|] == a && t[..|a|] == b;
    assert s[|a| + 1..] == x && t[|a| + 1..] == y;
  }

  // --------------------------------------------------------- searching, trimming

  /** `t.includes(part)` */
  predicate Contains(t: Text, part: Text) {
    part <= t || (t != [] && Contains(t[1..], part))
  }

  lemma {:induction false} ContainsExactly(t: Text, part: Text)
    ensures Contains(t, part) <==> exists before, after :: t == before + part + after
  {
    if Contains(t, part) {
      var before, after := ContainedAt(t, part);
    }
    if before, after :| t == before + part + after {
      ContainsAfter(before, part, after);
    }
  }

  lemma {:induction false} ContainedAt(t: Text, part: Text) returns (before: Text, after: Text)
    requires Contains(t, part)
    ensures t == before + part + after
  {
    if part <= t {
      before, after := [], t[|part|..];
    } else {
      before, after := ContainedAt(t[1..], part);
      assert t == [t[0]] + t[1..];
      before := [t[0]] + before;
    }
  }

  lemma {:induction false} ContainsAfter(before: Text, part: Text, after: Text)
    ensures Contains(before + part + after, part)
  {
    if before == [] {
      assert before + part + after == part + after;
    } else {
      assert (before + part + after)[1..] == before[1..] + part + after;
      ContainsAfter(before[1..], part, after);
    }
  }

  /** `t.startsWith('./') ? t.slice(2) : t` */
  function StripHere(t: Text): Text {
    if Ascii("./") <= t then t[2..] else t
  }

  /** `plain` is the path without a `./` at its start. */
  ghost predicate WithoutHere(path: Text, plain: Text) {
    path == Ascii("./") + plain || (path == plain && !(Ascii("./") <= path))
  }

  lemma HereExactly(path: Text, plain: Text)
    ensures StripHere(path) == plain <==> WithoutHere(path, plain)
  {
    var here := Ascii("./");
    if here <= path {
      assert path == here + path[2..];
      assert (here + plain)[2..] == plain;
    }
  }

  /** What `trim()` removes and `\s` matches. */
  predicate IsWhiteSpace(c: CodeUnit) {
    || 0x09 <= c <= 0x0D || c == 0x20 || c == 0xA0 || c == 0x1680
    || 0x2000 <= c <= 0x200A || c == 0x2028 || c == 0x2029
    || c == 0x202F || c == 0x205F || c == 0x3000 || c == 0xFEFF
  }

  /** What `.` does not match. */
  predicate IsLineTerminator(c: CodeUnit) {
    c == 0x0A || c == 0x0D || c == 0x2028 || c == 0x2029
  }

  /** The language's white space unit by unit, and which of it ends a line. */
  lemma WhiteSpaceUnits(c: CodeUnit)
    ensures IsWhiteSpace(c) <==>
            c in {0x09, 0x0A, 0x0B, 0x0C, 0x0D, 0x20, 0xA0, 0x1680, 0x2000, 0x2001, 0x2002, 0x2003, 0x2004, 0x2005,
                  0x2006, 0x2007, 0x2008, 0x2009, 0x200A, 0x2028, 0x2029, 0x202F, 0x205F, 0x3000, 0xFEFF}
    ensures IsLineTerminator(c) <==> c in {0x0A, 0x0D, 0x2028, 0x2029}
  {
  }

  ghost predicate OneLine(t: Text) {
    forall i :: 0 <= i < |t| ==> !IsLineTerminator(t[i])
  }

  function TrimStart(t: Text): Text {
    if t != [] && IsWhiteSpace(t[0]) then TrimStart(t[1..]) else t
  }

  function TrimEnd(t: Text): Text {
    if t != [] && IsWhiteSpace(t[|t| - 1]) then TrimEnd(t[..|t| - 1]) else t
  }

  function Trim(t: Text): Text {
    TrimEnd(TrimStart(t))
  }

  lemma {:induction false} TrimStartExactly(a: Text, t: Text)
    requires (forall c <- a :: IsWhiteSpace(c)) && (t != [] ==> !IsWhiteSpace(t[0]))
    ensures TrimStart(a + t) == t
  {
    if a == [] {
      assert a + t == t;
    } else {
      assert (a + t)[1..] == a[1..] + t;
      TrimStartExactly(a[1..], t);
    }
  }

  lemma {:induction false} TrimEndExactly(t: Text, b: Text)
    requires (forall c <- b :: IsWhiteSpace(c)) && (t != [] ==> !IsWhiteSpace(t[|t| - 1]))
    ensures TrimEnd(t + b) == t
  {
    if b == [] {
      assert t + b == t;
    } else {
      assert (t + b)[..|t + b| - 1] == t + b[..|b| - 1];
      TrimEndExactly(t, b[..|b| - 1]);
    }
  }

  /** Trimming takes away exactly the white space around what has none at its ends. */
  lemma TrimExactly(a: Text, t: Text, b: Text)
    requires forall c <- a + b :: IsWhiteSpace(c)
    requires t != [] ==> !IsWhiteSpace(t[0]) && !IsWhiteSpace(t[|t| - 1])
    ensures Trim(a + t + b) == t
  {
    AllOfBoth(a, b);
    if t == [] {
      assert a + t + b == (a + b) + t;
      TrimStartExactly(a + b, t);
    } else {
      ConcatAssociative(a, t, b);
      TrimStartExactly(a, t + b);
      TrimEndExactly(t, b);
    }
  }

  lemma AllOfBoth(a: Text, b: Text)
    requires forall c <- a + b :: IsWhiteSpace(c)
    ensures (forall c <- a :: IsWhiteSpace(c)) && (forall c <- b :: IsWhiteSpace(c))
  {
    assert forall c <- a :: c in a + b;
    assert forall c <- b :: c in a + b;
  }

  // ------------------------------------------------------------- decimal text

  predicate IsDigit(c: CodeUnit) { 0x30 <= c <= 0x39 }

  /** The decimal text of a natural number, as `String(n)` prints it. */
  function NatText(n: nat): (t: Text)
    ensures t != [] && forall c <- t :: IsDigit(c)
  {
    if n < 10 then [(0x30 + n) as CodeUnit]
    else NatText(n / 10) + [(0x30 + n % 10) as CodeUnit]
  }

  function DigitValue(c: CodeUnit): nat
    requires IsDigit(c)
  {
    c as int - 0x30
  }

  /** The value of a run of digits read after a prefix of value `acc`. */
  function NatValue(digits: Text, acc: nat): nat
    requires forall c <- digits :: IsDigit(c)
  {
    if digits == [] then acc
    else NatValue(digits[1..], 10 * acc + DigitValue(digits[0]))
  }

  lemma {:induction false} NatValueAppend(digits: Text, last: CodeUnit, acc: nat)
    requires forall c <- digits :: IsDigit(c)
    requires IsDigit(last)
    ensures NatValue(digits + [last], acc) == 10 * NatValue(digits, acc) + DigitValue(last)
  {
    var all := digits + [last];
    if digits == [] {
      assert all[1..] == [];
    } else {
      assert all[1..] == digits[1..] + [last];
      NatValueAppend(digits[1..], last, 10 * acc + DigitValue(digits[0]));
    }
  }

  lemma {:induction false} NatTextValue(n: nat)
    ensures NatValue(NatText(n), 0) == n
  {
    if n >= 10 {
      NatTextValue(n / 10);
      NatValueAppend(NatText(n / 10), (0x30 + n % 10) as CodeUnit, 0);
    } else {
      assert NatText(n)[1..] == [];
    }
  }
}
