/** The order of the violation lists: when the comparison they are sorted by is an order, and
    what the lists are then. */
module ViolationOrder {
  import opened Drift
  import opened DriftFacts
  import opened Results
  import opened Sorting
  import opened Texts

  // ------------------------------------------------------ when the comparison is an order

  ghost predicate AllHaveIds(r: seq<Entry<Violation>>) {
    forall e <- r :: e.value.id.Some?
  }

  /** Any two ids present are equal; in particular when there is none. */
  ghost predicate OneId(r: seq<Entry<Violation>>) {
    forall a <- r, b <- r :: a.value.id.Some? && b.value.id.Some? ==> a.value.id == b.value.id
  }

  /** The comparison is consistent exactly on the lists whose entries all have ids, or among
      whose ids no two differ. */
  lemma ConsistentExactly(r: seq<Entry<Violation>>)
    ensures Consistent(r) <==> AllHaveIds(r) || OneId(r)
  {
    LeqIsTotalOrder();
    if Consistent(r) && !AllHaveIds(r) {
      var e :| e in r && e.value.id.None?;
      forall a, b | a in r && b in r && a.value.id.Some? && b.value.id.Some? ensures a.value.id == b.value.id {
        assert ViolationLeq(a, e) && ViolationLeq(e, b) && ViolationLeq(b, e) && ViolationLeq(e, a);
        assert ViolationLeq(a, b) && ViolationLeq(b, a);
      }
    }
  }

  // --------------------------------------------------------------- what the lists are then

  /** A list among whose ids no two differ keeps the order its entries were pushed in. */
  lemma OneIdKeepsOrder(r: seq<Entry<Violation>>, s: seq<Entry<Violation>>)
    requires OneId(r) && IsArrangement(r, s)
    ensures s == r
  {
    ConsistentExactly(r);
    LeqIsTotalOrder();
    assert Sorted(ViolationLeq, r) by {
      forall i, j | 0 <= i < j < |r| ensures ViolationLeq(r[i], r[j]) {
        assert r[i] in r && r[j] in r;
      }
    }
    SortOfSorted(ViolationLeq, r);
  }

  /** Every entry has an id and is kept under it. */
  ghost predicate KeptByIds(r: seq<Entry<Violation>>) {
    forall i :: 0 <= i < |r| ==> r[i].value.id == Some(r[i].id)
  }

  lemma {:induction false} InsertById(x: Entry<Violation>, s: seq<Entry<Violation>>)
    requires x.value.id == Some(x.id) && KeptByIds(s)
    ensures Insert(ViolationLeq, x, s) == Insert(EntryLeq, x, s)
  {
    if s == [] {
    } else {
      assert ViolationLeq(x, s[0]) <==> EntryLeq(x, s[0]);
      InsertById(x, s[1..]);
    }
  }

  lemma SortKeptByIds(s: seq<Entry<Violation>>)
    requires KeptByIds(s)
    ensures KeptByIds(Sort(EntryLeq, s))
  {
    var sorted := Sort(EntryLeq, s);
    SortMembers(EntryLeq, s);
    forall i | 0 <= i < |sorted| ensures sorted[i].value.id == Some(sorted[i].id) {
      assert sorted[i] in sorted;
    }
  }

  lemma {:induction false} SortById(s: seq<Entry<Violation>>)
    requires KeptByIds(s)
    ensures Sort(ViolationLeq, s) == Sort(EntryLeq, s)
  {
    if s == [] {
    } else {
      var rest := s[1..];
      SortById(rest);
      SortKeptByIds(rest);
      InsertById(s[0], Sort(EntryLeq, rest));
    }
  }

  /** Every violation has a non-empty id, as the emitter writes them. */
  ghost predicate AllIds(violations: seq<Violation>) {
    forall v <- violations :: v.id.Some? && v.id.value != []
  }

  lemma PushedByIds(violations: seq<Violation>, keys: set<Text>, s: seq<Entry<Violation>>)
    requires AllIds(violations) && keys <= KeyIndex(violations).Keys
    requires IsArrangement(Pushed(KeyIndex(violations), KeyOrder(KeyedList(violations)), keys), s)
    ensures s == Select(KeyIndex(violations), keys)
  {
    var t := KeyTable(violations);
    TableOfIsTable(KeyedList(violations));
    PushedLists(t, keys);
    var r := Pushed(t.index, t.order, keys);
    ListedGenuine(r, violations, keys);
    forall i | 0 <= i < |r| ensures r[i].value.id == Some(r[i].id) {
      assert r[i] in r;
    }
    ConsistentExactly(r);
    SortById(r);
    SortListed(r, t.index, keys);
  }

  /** With ids throughout each list ascends by id: it is the selection of its keys. */
  lemma {:induction false} ListsAscend(baseline: seq<Violation>, current: seq<Violation>, block: ViolationsBlock)
    requires IsViolationsDrift(baseline, current, block) && AllIds(baseline) && AllIds(current)
    ensures var (base, curr) := (KeyIndex(baseline), KeyIndex(current));
            && block.introduced == Select(curr, curr.Keys - base.Keys)
            && block.resolved == Select(base, base.Keys - curr.Keys)
            && block.persisted == Select(curr, curr.Keys * base.Keys)
    ensures Ascending(Map(EntryId, block.introduced)) && Ascending(Map(EntryId, block.resolved))
    ensures Ascending(Map(EntryId, block.persisted))
  {
    var base, curr := KeyIndex(baseline), KeyIndex(current);
    PushedByIds(current, curr.Keys - base.Keys, block.introduced);
    PushedByIds(baseline, base.Keys - curr.Keys, block.resolved);
    PushedByIds(current, curr.Keys * base.Keys, block.persisted);
    SelectionAscends(current, curr.Keys - base.Keys);
    SelectionAscends(baseline, base.Keys - curr.Keys);
    SelectionAscends(current, curr.Keys * base.Keys);
  }

  lemma SelectionAscends(violations: seq<Violation>, keys: set<Text>)
    requires keys <= KeyIndex(violations).Keys
    ensures Ascending(Map(EntryId, Select(KeyIndex(violations), keys)))
  {
    IndexContents(KeyedList(violations));
    SelectContents(KeyIndex(violations), keys);
    SortSetAscending(keys);
  }

  // --------------------------------------------------------- when the result is determined

  /** Whatever a sort may do, the result is one and the same. */
  ghost predicate Determined(baseline: seq<Violation>, current: seq<Violation>) {
    forall block, other ::
      IsViolationsDrift(baseline, current, block) && IsViolationsDrift(baseline, current, other) ==> block == other
  }

  ghost predicate AllConsistent(baseline: seq<Violation>, current: seq<Violation>) {
    && Consistent(OnlyIn(current, baseline)) && Consistent(OnlyIn(baseline, current))
    && Consistent(InBoth(current, baseline))
  }

  lemma SwapFirst<T>(r: seq<T>) returns (s: seq<T>)
    requires |r| > 1 && r[0] != r[1]
    ensures multiset(s) == multiset(r) && s != r
  {
    s := [r[1], r[0]] + r[2..];
    assert r == [r[0], r[1]] + r[2..];
    assert s[0] != r[0];
  }

  lemma InconsistentLong(r: seq<Entry<Violation>>)
    requires !Consistent(r)
    ensures |r| > 1
  {
    ConsistentExactly(r);
    var a :| a in r && a.value.id.None?;
    var b :| b in r && b.value.id.Some?;
    var i :| 0 <= i < |r| && r[i] == a;
    var j :| 0 <= j < |r| && r[j] == b;
    assert i != j;
  }

  /** A list may come out in two ways when the comparison is not consistent on it. */
  lemma TwoArrangements(r: seq<Entry<Violation>>) returns (s: seq<Entry<Violation>>, s': seq<Entry<Violation>>)
    requires forall i, j :: 0 <= i < j < |r| ==> r[i] != r[j]
    ensures IsArrangement(r, s) && IsArrangement(r, s')
    ensures !Consistent(r) ==> s != s'
  {
    if Consistent(r) {
      s, s' := Sort(ViolationLeq, r), Sort(ViolationLeq, r);
    } else {
      InconsistentLong(r);
      s := r;
      s' := SwapFirst(r);
    }
  }

  lemma TwoArrangementsOf(t: Table<Violation>, keys: set<Text>)
    returns (s: seq<Entry<Violation>>, s': seq<Entry<Violation>>)
    requires IsTable(t) && keys <= t.index.Keys
    ensures var r := Pushed(t.index, t.order, keys);
            IsArrangement(r, s) && IsArrangement(r, s') && (!Consistent(r) ==> s != s')
  {
    PushedLists(t, keys);
    var r := Pushed(t.index, t.order, keys);
    forall i, j | 0 <= i < j < |r| ensures r[i] != r[j] {
      assert r[i].id != r[j].id;
    }
    s, s' := TwoArrangements(r);
  }

  lemma {:induction false} TwoResults(baseline: seq<Violation>, current: seq<Violation>)
    returns (block: ViolationsBlock, other: ViolationsBlock)
    requires !AllConsistent(baseline, current)
    ensures IsViolationsDrift(baseline, current, block) && IsViolationsDrift(baseline, current, other)
    ensures block != other
  {
    var base, curr := KeyTable(baseline), KeyTable(current);
    TableOfIsTable(KeyedList(baseline));
    TableOfIsTable(KeyedList(current));
    var a, a' := TwoArrangementsOf(curr, curr.index.Keys - base.index.Keys);
    var b, b' := TwoArrangementsOf(base, base.index.Keys - curr.index.Keys);
    var c, c' := TwoArrangementsOf(curr, curr.index.Keys * base.index.Keys);
    var changed := Changed(baseline, current);
    block, other := ViolationsBlock(a, b, c, changed), ViolationsBlock(a', b', c', changed);
  }

  /** The result is determined exactly when the comparison is consistent on each of the three
      lists that are sorted by it. */
  lemma ViolationsDetermined(baseline: seq<Violation>, current: seq<Violation>)
    ensures Determined(baseline, current) <==> AllConsistent(baseline, current)
  {
    if Determined(baseline, current) && !AllConsistent(baseline, current) {
      var block, other := TwoResults(baseline, current);
      assert false;
    }
  }

  // ------------------------------------------------------------------------ an input

  function WithId(id: Text): Violation { Violation(Some(id), None, None, None, None) }

  function WithoutId(rule: Text): Violation { Violation(None, Some(rule), None, None, None) }

  /** Three violations: one with the id `b`, one without an id, one with the id `a`. */
  function Mixed(): seq<Violation> {
    [WithId(Ascii("b")), WithoutId(Ascii("r")), WithId(Ascii("a"))]
  }

  lemma KeyedOne(front: seq<Violation>, v: Violation)
    requires ViolationKey(v).Some?
    ensures KeyedList(front + [v]) == KeyedList(front) + [Entry(ViolationKey(v).value, v)]
  {
    assert (front + [v])[..|front|] == front;
  }

  lemma KeyedThree(a: Violation, b: Violation, c: Violation)
    requires ViolationKey(a).Some? && ViolationKey(b).Some? && ViolationKey(c).Some?
    ensures KeyedList([a, b, c]) ==
            [Entry(ViolationKey(a).value, a), Entry(ViolationKey(b).value, b), Entry(ViolationKey(c).value, c)]
  {
    KeyedOne([], a);
    KeyedOne([a], b);
    KeyedOne([a, b], c);
    assert [] + [a] == [a] && [a] + [b] == [a, b] && [a, b] + [c] == [a, b, c];
  }

  /** What is pushed has every violation that is alone under its key. */
  lemma PushedHolds(current: seq<Violation>, i: nat)
    requires IsLast(KeyedList(current), i)
    ensures KeyedList(current)[i] in OnlyIn(current, [])
  {
    var t, e := KeyTable(current), KeyedList(current)[i];
    TableOfIsTable(KeyedList(current));
    IndexHoldsLast(KeyedList(current), i);
    assert t.index.Keys - KeyIndex([]).Keys == t.index.Keys;
    PushedLists(t, t.index.Keys);
    var r := OnlyIn(current, []);
    var j :| 0 <= j < |r| && r[j].id == e.id;
    assert r[j] in r;
  }

  /** Against an empty baseline these three have no determined order. */
  lemma MixedUndetermined()
    ensures !Consistent(OnlyIn(Mixed(), [])) && !Determined([], Mixed())
  {
    var b, n, a := WithId(Ascii("b")), WithoutId(Ascii("r")), WithId(Ascii("a"));
    var r := OnlyIn(Mixed(), []);
    KeyedThree(b, n, a);
    var entries := KeyedList(Mixed());
    assert Ascii("b")[0] == 0x62 && Ascii("a")[0] == 0x61 && |Ascii("r")| == 1;
    assert |entries[0].id| == 1 && |entries[1].id| > 1 && |entries[2].id| == 1;
    PushedHolds(Mixed(), 0);
    PushedHolds(Mixed(), 1);
    PushedHolds(Mixed(), 2);
    assert entries[0].value == b && entries[1].value == n && entries[2].value == a;
    ConsistentExactly(r);
    ViolationsDetermined([], Mixed());
  }
}
