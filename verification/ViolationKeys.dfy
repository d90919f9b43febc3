/** The keys violations without an id are compared under: when they tell violations apart. */
module ViolationKeys {
  import opened Drift
  import opened DriftFacts
  import opened Results
  import opened Texts

  /** A violation that is compared under what it says. */
  predicate Unnamed(v: Violation) {
    OrEmpty(v.id) == []
  }

  /** Its key has one reading: no bar in front of the severity but those that separate. */
  predicate BarFree(v: Violation) {
    BAR !in OrEmpty(v.ruleId) && BAR !in OrEmpty(v.from) && BAR !in OrEmpty(v.to)
  }

  predicate SaySame(v: Violation, w: Violation) {
    && OrEmpty(v.ruleId) == OrEmpty(w.ruleId) && OrEmpty(v.from) == OrEmpty(w.from)
    && OrEmpty(v.to) == OrEmpty(w.to) && OrEmpty(v.severity) == OrEmpty(w.severity)
  }

  /** Four texts joined by bars. */
  function Joined(a: Text, b: Text, c: Text, d: Text): Text {
    a + [BAR] + (b + [BAR] + (c + [BAR] + d))
  }

  lemma JoinedIs(prefix: Text, a: Text, b: Text, c: Text, d: Text)
    ensures prefix + a + [BAR] + b + [BAR] + c + [BAR] + d == prefix + Joined(a, b, c, d)
  {
    var front := prefix + a + [BAR] + b;
    ConcatAssociative(front + [BAR] + c, [BAR], d);
    ConcatAssociative(front + [BAR], c, [BAR] + d);
    ConcatAssociative(front, [BAR], c + ([BAR] + d));
    ConcatAssociative(c, [BAR], d);
    var tail := c + [BAR] + d;
    assert prefix + a + [BAR] + b + ([BAR] + tail) == prefix + (a + [BAR] + (b + [BAR] + tail));
  }

  lemma JoinedSeparate(a: Text, b: Text, c: Text, d: Text, a': Text, b': Text, c': Text, d': Text)
    requires BAR !in a && BAR !in b && BAR !in c && BAR !in a' && BAR !in b' && BAR !in c'
    requires Joined(a, b, c, d) == Joined(a', b', c', d')
    ensures a == a' && b == b' && c == c' && d == d'
  {
    SeparatorTellsApart(BAR, a, a', b + [BAR] + (c + [BAR] + d), b' + [BAR] + (c' + [BAR] + d'));
    SeparatorTellsApart(BAR, b, b', c + [BAR] + d, c' + [BAR] + d');
    SeparatorTellsApart(BAR, c, c', d, d');
  }

  const FALLBACK: Text := Ascii("fallback:")

  lemma FallbackKeyIs(v: Violation)
    requires Unnamed(v) && ViolationKey(v).Some?
    ensures ViolationKey(v).value ==
            FALLBACK + Joined(OrEmpty(v.ruleId), OrEmpty(v.from), OrEmpty(v.to), OrEmpty(v.severity))
  {
    JoinedIs(FALLBACK, OrEmpty(v.ruleId), OrEmpty(v.from), OrEmpty(v.to), OrEmpty(v.severity));
  }

  /** `t` is what an optional member says, nothing when it is missing. */
  ghost predicate Says(member: Option<Text>, t: Text) {
    member == Some(t) || (member == None && t == [])
  }

  /** The text a violation is compared under: its id if it has one, and otherwise its rule, its
      ends and its severity, as long as it has a rule or an end. */
  ghost predicate ComparedUnder(v: Violation, key: Text) {
    || (key != [] && v.id == Some(key))
    || (Says(v.id, []) && exists rule, from, to, severity ::
          && Says(v.ruleId, rule) && Says(v.from, from) && Says(v.to, to) && Says(v.severity, severity)
          && (rule != [] || from != [] || to != [])
          && key == Ascii("fallback:") + rule + Ascii("|") + from + Ascii("|") + to + Ascii("|") + severity)
  }

  lemma KeyExactly(v: Violation, key: Text)
    ensures ViolationKey(v) == Some(key) <==> ComparedUnder(v, key)
  {
    assert Ascii("|") == [BAR];
    assert forall member, t :: Says(member, t) <==> OrEmpty(member) == t;
    var (rule, from, to, severity) := (OrEmpty(v.ruleId), OrEmpty(v.from), OrEmpty(v.to), OrEmpty(v.severity));
    assert Says(v.ruleId, rule) && Says(v.from, from) && Says(v.to, to) && Says(v.severity, severity);
  }

  /** Nothing is lost before the comparison: exactly the violations with a key are compared. */
  lemma ComparedExactly(violations: seq<Violation>, key: Text)
    ensures key in Keys(violations) <==> exists v :: v in violations && ComparedUnder(v, key)
  {
    var entries := KeyedList(violations);
    IndexContents(entries);
    forall v ensures Entry(key, v) in entries <==> v in violations && ComparedUnder(v, key) {
      KeyedMembers(violations, Entry(key, v));
      KeyExactly(v, key);
    }
    if key in IdsOf(entries) {
      var i :| 0 <= i < |entries| && entries[i].id == key;
      assert entries[i] == Entry(key, entries[i].value) && entries[i] in entries;
    }
    if v :| Entry(key, v) in entries {
      var i :| 0 <= i < |entries| && entries[i] == Entry(key, v);
      assert entries[i].id == key;
    }
  }

  /** Without bars in rule and ends, the keys of two violations without an id are equal exactly
      when they say the same. */
  lemma FallbackKeysSeparate(v: Violation, w: Violation)
    requires Unnamed(v) && Unnamed(w) && BarFree(v) && BarFree(w)
    requires ViolationKey(v).Some? && ViolationKey(w).Some?
    ensures ViolationKey(v) == ViolationKey(w) <==> SaySame(v, w)
  {
    FallbackKeyIs(v);
    FallbackKeyIs(w);
    if ViolationKey(v) == ViolationKey(w) {
      var x := Joined(OrEmpty(v.ruleId), OrEmpty(v.from), OrEmpty(v.to), OrEmpty(v.severity));
      var y := Joined(OrEmpty(w.ruleId), OrEmpty(w.from), OrEmpty(w.to), OrEmpty(w.severity));
      assert (FALLBACK + x)[|FALLBACK|..] == x && (FALLBACK + y)[|FALLBACK|..] == y;
      JoinedSeparate(
        OrEmpty(v.ruleId), OrEmpty(v.from), OrEmpty(v.to), OrEmpty(v.severity),
        OrEmpty(w.ruleId), OrEmpty(w.from), OrEmpty(w.to), OrEmpty(w.severity));
    }
  }

  /** No violation without an id has a bar in rule or ends, and no id looks like a fallback key. */
  ghost predicate KeysAreClear(violations: seq<Violation>) {
    && (forall v <- violations :: Unnamed(v) ==> BarFree(v))
    && (forall v <- violations :: !Unnamed(v) ==> !(FALLBACK <= v.id.value))
  }

  /** When the keys are clear every change of severity is of a violation that carries the
      id it is reported under, on both sides: one without an id never changes severity. */
  lemma ChangesHaveIds(baseline: seq<Violation>, current: seq<Violation>, c: Entry<Change>)
    requires KeysAreClear(baseline) && KeysAreClear(current)
    requires c in Changed(baseline, current)
    ensures exists v, w :: v in baseline && w in current && v.id == Some(c.id) && w.id == Some(c.id)
  {
    ChangesExactly(baseline, current, c);
    var before, after := KeyedList(baseline), KeyedList(current);
    var i: nat, j: nat :| ChangedBetween(before, after, i, j, c);
    var v, w := before[i].value, after[j].value;
    assert before[i] in before && after[j] in after;
    KeyedMembers(baseline, before[i]);
    KeyedMembers(current, after[j]);
    ChangedAreNamed(v, w, c.id);
  }

  lemma ChangedAreNamed(v: Violation, w: Violation, key: Text)
    requires ViolationKey(v) == Some(key) && ViolationKey(w) == Some(key) && SeverityDiffers(v, w)
    requires Unnamed(v) ==> BarFree(v)
    requires Unnamed(w) ==> BarFree(w)
    requires !Unnamed(v) ==> !(FALLBACK <= v.id.value)
    requires !Unnamed(w) ==> !(FALLBACK <= w.id.value)
    ensures v.id == Some(key) && w.id == Some(key)
  {
    if Unnamed(v) {
      FallbackKeyIs(v);
      if Unnamed(w) {
        FallbackKeysSeparate(v, w);
        assert false;
      }
    } else if Unnamed(w) {
      FallbackKeyIs(w);
    }
  }

  /** A bar in an end: two different violations are reported as one whose severity changed. */
  lemma BarsCollide()
    ensures var v := Violation(None, Some(Ascii("r")), Some(Ascii("f")), Some(Ascii("t|A")), Some(Ascii("B")));
            var w := Violation(None, Some(Ascii("r")), Some(Ascii("f")), Some(Ascii("t")), Some(Ascii("A|B")));
            && !SaySame(v, w) && ViolationKey(v) == ViolationKey(w)
            && Entry(ViolationKey(v).value, Change(Some(Ascii("r")), Ascii("B"), Ascii("A|B"))) in Changed([v], [w])
  {
    var v := Violation(None, Some(Ascii("r")), Some(Ascii("f")), Some(Ascii("t|A")), Some(Ascii("B")));
    var w := Violation(None, Some(Ascii("r")), Some(Ascii("f")), Some(Ascii("t")), Some(Ascii("A|B")));
    var c := Entry(ViolationKey(v).value, Change(Some(Ascii("r")), Ascii("B"), Ascii("A|B")));
    FallbackKeyIs(v);
    FallbackKeyIs(w);
    assert |Ascii("t|A")| == 3 && |Ascii("t")| == 1;
    assert Ascii("t|A") + [BAR] + Ascii("B") == Ascii("t") + [BAR] + Ascii("A|B");
    assert KeyedList([v]) == [Entry(c.id, v)] && KeyedList([w]) == [Entry(c.id, w)];
    assert ChangedBetween(KeyedList([v]), KeyedList([w]), 0, 0, c);
    ChangesExactly([v], [w], c);
  }
}
