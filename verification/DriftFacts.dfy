/** Drift is a true difference: what it conserves, how it turns around, when there is none. */
module DriftFacts {
  import opened CanonicalTopology
  import opened Drift
  import opened GraphSurface
  import opened Results
  import opened Sorting
  import opened Texts

  // ----------------------------------------------------------------- selections

  lemma SelectContents<T(!new)>(m: Index<T>, keys: set<Text>)
    requires Keyed(m) && keys <= m.Keys
    ensures Map(EntryId, Select(m, keys)) == SortSet(keys)
    ensures IdsOf(Select(m, keys)) == keys
    ensures |Select(m, keys)| == |keys|
    ensures forall e <- Select(m, keys) :: e.id in m && m[e.id] == e
  {
    SortSetAscending(keys);
    var sorted := SortSet(keys);
    assert forall i :: 0 <= i < |sorted| ==> sorted[i] in sorted;
    PickContents(m, sorted, Select(m, keys));
    PickedIds(sorted, Select(m, keys), keys);
  }

  lemma PickContents<T(!new)>(m: Index<T>, keys: seq<Text>, r: seq<Entry<T>>)
    requires Keyed(m) && (forall i :: 0 <= i < |keys| ==> keys[i] in m) && r == Pick(m, keys)
    ensures Map(EntryId, r) == keys
    ensures forall e <- r :: e.id in m && m[e.id] == e
  {
    assert forall i :: 0 <= i < |keys| ==> r[i].id == keys[i];
  }

  lemma PickedIds<T(!new)>(sorted: seq<Text>, r: seq<Entry<T>>, keys: set<Text>)
    requires Map(EntryId, r) == sorted && forall k :: k in sorted <==> k in keys
    ensures IdsOf(r) == keys
  {
    assert forall i :: 0 <= i < |r| ==> r[i].id == sorted[i];
    assert forall i :: 0 <= i < |r| ==> sorted[i] in sorted;
    forall k | k in keys ensures k in IdsOf(r) {
      var i :| 0 <= i < |sorted| && sorted[i] == k;
      assert r[i].id == k;
    }
  }

  /** `Only` is the difference of the ids, holds the first list's own entries, one an id, and
      ascends. */
  lemma OnlyContents<T(!new)>(a: seq<Entry<T>>, b: seq<Entry<T>>)
    ensures IdsOf(Only(a, b)) == IdsOf(a) - IdsOf(b)
    ensures |Only(a, b)| == |IdsOf(a) - IdsOf(b)|
    ensures forall e <- Only(a, b) :: e in a
    ensures Ascending(Map(EntryId, Only(a, b)))
  {
    IndexContents(a);
    IndexContents(b);
    SelectContents(IndexOf(a), IdsOf(a) - IdsOf(b));
    SortSetAscending(IdsOf(a) - IdsOf(b));
  }

  // ------------------------------------------------------------------- topology

  ghost function NodeIds(t: Topology): set<Text> { set n <- t.nodes :: n.id }

  ghost function EdgeIds(t: Topology): set<Text> { set e <- t.edges :: e.id }

  lemma EntryIds(t: Topology)
    ensures IdsOf(NodesIn(t)) == NodeIds(t)
    ensures IdsOf(EdgesIn(t)) == EdgeIds(t)
  {
    NodeEntryIds(t);
    EdgeEntryIds(t);
  }

  lemma NodeEntryIds(t: Topology)
    ensures IdsOf(NodesIn(t)) == NodeIds(t)
  {
    forall id | id in NodeIds(t) ensures id in IdsOf(NodesIn(t)) {
      var i :| 0 <= i < |t.nodes| && t.nodes[i].id == id;
      assert NodesIn(t)[i].id == id;
    }
    forall i | 0 <= i < |t.nodes| ensures NodesIn(t)[i].id in NodeIds(t) {
      assert t.nodes[i] in t.nodes;
    }
  }

  lemma EdgeEntryIds(t: Topology)
    ensures IdsOf(EdgesIn(t)) == EdgeIds(t)
  {
    forall id | id in EdgeIds(t) ensures id in IdsOf(EdgesIn(t)) {
      var i :| 0 <= i < |t.edges| && t.edges[i].id == id;
      assert EdgesIn(t)[i].id == id;
    }
    forall i | 0 <= i < |t.edges| ensures EdgesIn(t)[i].id in EdgeIds(t) {
      assert t.edges[i] in t.edges;
    }
  }

  lemma TopologyIds(baseline: Topology, current: Topology)
    ensures var t := TopologyDrift(baseline, current);
            && IdsOf(t.addedNodes) == NodeIds(current) - NodeIds(baseline)
            && IdsOf(t.removedNodes) == NodeIds(baseline) - NodeIds(current)
            && IdsOf(t.addedEdges) == EdgeIds(current) - EdgeIds(baseline)
            && IdsOf(t.removedEdges) == EdgeIds(baseline) - EdgeIds(current)
  {
    EntryIds(baseline);
    EntryIds(current);
    OnlyContents(NodesIn(current), NodesIn(baseline));
    OnlyContents(NodesIn(baseline), NodesIn(current));
    OnlyContents(EdgesIn(current), EdgesIn(baseline));
    OnlyContents(EdgesIn(baseline), EdgesIn(current));
  }

  /** Baseline ids minus the removed ones plus the added ones are the current ids; what was
      removed was there, and what was added was not. */
  lemma TopologyConserved(baseline: Topology, current: Topology)
    ensures var t := TopologyDrift(baseline, current);
            && NodeIds(baseline) - IdsOf(t.removedNodes) + IdsOf(t.addedNodes) == NodeIds(current)
            && EdgeIds(baseline) - IdsOf(t.removedEdges) + IdsOf(t.addedEdges) == EdgeIds(current)
            && IdsOf(t.removedNodes) <= NodeIds(baseline) && IdsOf(t.addedNodes) !! NodeIds(baseline)
            && IdsOf(t.removedEdges) <= EdgeIds(baseline) && IdsOf(t.addedEdges) !! EdgeIds(baseline)
  {
    TopologyIds(baseline, current);
  }

  /** Every entry reported as added is one of the current lists, as removed one of the
      baseline's. */
  lemma TopologyEntriesGenuine(baseline: Topology, current: Topology)
    ensures var t := TopologyDrift(baseline, current);
            && (forall e <- t.addedNodes :: e.value in current.nodes && e.id == e.value.id)
            && (forall e <- t.removedNodes :: e.value in baseline.nodes && e.id == e.value.id)
            && (forall e <- t.addedEdges :: e.value in current.edges && e.id == e.value.id)
            && (forall e <- t.removedEdges :: e.value in baseline.edges && e.id == e.value.id)
  {
    OnlyContents(NodesIn(current), NodesIn(baseline));
    OnlyContents(NodesIn(baseline), NodesIn(current));
    OnlyContents(EdgesIn(current), EdgesIn(baseline));
    OnlyContents(EdgesIn(baseline), EdgesIn(current));
    EntriesGenuine(baseline);
    EntriesGenuine(current);
  }

  lemma EntriesGenuine(t: Topology)
    ensures forall e <- NodesIn(t) :: e.value in t.nodes && e.id == e.value.id
    ensures forall e <- EdgesIn(t) :: e.value in t.edges && e.id == e.value.id
  {
    assert forall i :: 0 <= i < |t.nodes| ==> NodesIn(t)[i] == NodeEntry(t.nodes[i]);
    assert forall i :: 0 <= i < |t.edges| ==> EdgesIn(t)[i] == EdgeEntry(t.edges[i]);
  }

  // ----------------------------------------------------------------- violations

  lemma ChangesKeyed(base: Index<Violation>, curr: Index<Violation>)
    ensures Keyed(Changes(base, curr))
    ensures Changes(base, curr).Keys <= curr.Keys * base.Keys
  {
  }

  /** The keys of the violations that have one. */
  ghost function Keys(violations: seq<Violation>): set<Text> {
    KeyIndex(violations).Keys
  }

  lemma ListsContents<T(!new)>(r: seq<Entry<T>>, m: Index<T>, keys: set<Text>)
    requires Lists(r, m, keys)
    ensures IdsOf(r) == keys && |r| == |keys|
  {
    ListedIds(r, m, keys);
    SortSetAscending(keys);
    assert |Map(EntryId, r)| == |r|;
    forall k | k in keys ensures k in IdsOf(r) {
      var i :| 0 <= i < |r| && r[i].id == k;
    }
  }

  lemma {:induction false} KeyedMembers(violations: seq<Violation>, e: Entry<Violation>)
    ensures e in KeyedList(violations) <==> e.value in violations && ViolationKey(e.value) == Some(e.id)
  {
    if violations == [] {
    } else {
      var front, last := violations[..|violations| - 1], violations[|violations| - 1];
      KeyedMembers(front, e);
      assert violations == front + [last];
    }
  }

  /** Every listed entry is one of the violations, under its own key. */
  lemma ListedGenuine(r: seq<Entry<Violation>>, violations: seq<Violation>, keys: set<Text>)
    requires Lists(r, KeyIndex(violations), keys)
    ensures forall e <- r :: e.value in violations && ViolationKey(e.value) == Some(e.id)
  {
    IndexContents(KeyedList(violations));
    forall e | e in r ensures e.value in violations && ViolationKey(e.value) == Some(e.id) {
      KeyedMembers(violations, e);
    }
  }

  lemma ChangedContents(baseline: seq<Violation>, current: seq<Violation>)
    ensures IdsOf(Changed(baseline, current)) == Changes(KeyIndex(baseline), KeyIndex(current)).Keys
    ensures IdsOf(Changed(baseline, current)) <= Keys(current) * Keys(baseline)
  {
    var changes := Changes(KeyIndex(baseline), KeyIndex(current));
    ChangesKeyed(KeyIndex(baseline), KeyIndex(current));
    SelectContents(changes, changes.Keys);
  }

  /** Entry `i` is the last with its id. */
  ghost predicate IsLast<T>(entries: seq<Entry<T>>, i: nat) {
    i < |entries| && forall j :: i < j < |entries| ==> entries[j].id != entries[i].id
  }

  lemma {:induction false} IndexHoldsLast<T(!new)>(entries: seq<Entry<T>>, i: nat)
    requires IsLast(entries, i)
    ensures entries[i].id in IndexOf(entries) && IndexOf(entries)[entries[i].id] == entries[i]
  {
    if i == |entries| - 1 {
    } else {
      IndexHoldsLast(entries[..|entries| - 1], i);
    }
  }

  lemma {:induction false} LastWithId<T(!new)>(entries: seq<Entry<T>>, k: Text) returns (i: nat)
    requires k in IndexOf(entries)
    ensures IsLast(entries, i) && entries[i].id == k
  {
    var front, last := entries[..|entries| - 1], entries[|entries| - 1];
    if last.id == k {
      i := |entries| - 1;
    } else {
      i := LastWithId(front, k);
    }
  }

  /** Change `c` is what happened from violation `b` to violation `v`. */
  ghost predicate IsChange(b: Entry<Violation>, v: Entry<Violation>, c: Entry<Change>) {
    && b.id == c.id == v.id
    && b.value.severity == Some(c.value.from) && v.value.severity == Some(c.value.to)
    && c.value.from != [] && c.value.to != [] && c.value.from != c.value.to
    && c.value.ruleId == v.value.ruleId
  }

  ghost predicate ChangedBetween(
      baseline: seq<Entry<Violation>>, current: seq<Entry<Violation>>, i: nat, j: nat, c: Entry<Change>) {
    IsLast(baseline, i) && IsLast(current, j) && IsChange(baseline[i], current[j], c)
  }

  ghost predicate ChangedBetweenLasts(
      baseline: seq<Entry<Violation>>, current: seq<Entry<Violation>>, c: Entry<Change>) {
    exists i: nat, j: nat :: ChangedBetween(baseline, current, i, j, c)
  }

  lemma {:induction false} ChangesMember(base: Index<Violation>, curr: Index<Violation>, c: Entry<Change>)
    requires Keyed(base) && Keyed(curr)
    ensures c in Select(Changes(base, curr), Changes(base, curr).Keys) <==>
            c.id in base && c.id in curr && IsChange(base[c.id], curr[c.id], c)
  {
    ChangesKeyed(base, curr);
    SelectMembers(Changes(base, curr), c);
  }

  lemma {:induction false} LastsChanged(
      before: seq<Entry<Violation>>, after: seq<Entry<Violation>>, base: Index<Violation>, curr: Index<Violation>,
      c: Entry<Change>)
    requires base == IndexOf(before) && curr == IndexOf(after)
    ensures c.id in base && c.id in curr && IsChange(base[c.id], curr[c.id], c) <==>
            ChangedBetweenLasts(before, after, c)
  {
    if c.id in base && c.id in curr && IsChange(base[c.id], curr[c.id], c) {
      var i := LastWithId(before, c.id);
      var j := LastWithId(after, c.id);
      IndexHoldsLast(before, i);
      IndexHoldsLast(after, j);
      assert ChangedBetween(before, after, i, j, c);
    }
    if i: nat, j: nat :| ChangedBetween(before, after, i, j, c) {
      IndexHoldsLast(before, i);
      IndexHoldsLast(after, j);
    }
  }

  /** The severity changes are exactly those from the last baseline violation to the last current
      one with the same key, when both state a severity and the two differ. */
  lemma {:induction false} ChangesExactly(baseline: seq<Violation>, current: seq<Violation>, c: Entry<Change>)
    ensures c in Changed(baseline, current) <==>
            ChangedBetweenLasts(KeyedList(baseline), KeyedList(current), c)
  {
    var before, after := KeyedList(baseline), KeyedList(current);
    var base, curr := KeyIndex(baseline), KeyIndex(current);
    IndexContents(before);
    IndexContents(after);
    assert Changed(baseline, current) == Select(Changes(base, curr), Changes(base, curr).Keys);
    ChangesMember(base, curr, c);
    LastsChanged(before, after, base, curr, c);
  }

  lemma SelectMembers<T(!new)>(m: Index<T>, e: Entry<T>)
    requires Keyed(m)
    ensures e in Select(m, m.Keys) <==> e.id in m && m[e.id] == e
  {
    SelectContents(m, m.Keys);
    var r := Select(m, m.Keys);
    if e.id in m && m[e.id] == e {
      assert e.id in IdsOf(r);
      var i :| 0 <= i < |r| && r[i].id == e.id;
      assert r[i] in r;
    }
  }

  /** The ids and the length of each list, in terms of the keys of the two sides. */
  ghost predicate IdsSplit(block: ViolationsBlock, base: set<Text>, curr: set<Text>) {
    && IdsOf(block.introduced) == curr - base && |block.introduced| == |curr - base|
    && IdsOf(block.resolved) == base - curr && |block.resolved| == |base - curr|
    && IdsOf(block.persisted) == curr * base && |block.persisted| == |curr * base|
  }

  lemma ArrangementLists(
      t: Table<Violation>, keys: set<Text>, r: seq<Entry<Violation>>, s: seq<Entry<Violation>>)
    requires IsTable(t) && keys <= t.index.Keys
    requires r == Pushed(t.index, t.order, keys) && multiset(s) == multiset(r)
    ensures Lists(s, t.index, keys)
  {
    PushedLists(t, keys);
    forall i, j | 0 <= i < j < |r| ensures r[i] != r[j] {
      assert r[i].id != r[j].id;
    }
    RearrangedDistinct(r, s);
    RearrangedLists(r, s, t.index, keys);
  }

  lemma {:induction false} BlockLists(baseline: seq<Violation>, current: seq<Violation>, block: ViolationsBlock)
    requires IsViolationsDrift(baseline, current, block)
    ensures var (base, curr) := (KeyIndex(baseline), KeyIndex(current));
            && Lists(block.introduced, curr, curr.Keys - base.Keys)
            && Lists(block.resolved, base, base.Keys - curr.Keys)
            && Lists(block.persisted, curr, curr.Keys * base.Keys)
  {
    var base, curr := KeyTable(baseline), KeyTable(current);
    TableOfIsTable(KeyedList(baseline));
    TableOfIsTable(KeyedList(current));
    ArrangementLists(curr, curr.index.Keys - base.index.Keys, OnlyIn(current, baseline), block.introduced);
    ArrangementLists(base, base.index.Keys - curr.index.Keys, OnlyIn(baseline, current), block.resolved);
    ArrangementLists(curr, curr.index.Keys * base.index.Keys, InBoth(current, baseline), block.persisted);
  }

  lemma {:induction false} BlockIds(baseline: seq<Violation>, current: seq<Violation>, block: ViolationsBlock)
    requires IsViolationsDrift(baseline, current, block)
    ensures IdsSplit(block, Keys(baseline), Keys(current))
  {
    BlockLists(baseline, current, block);
    var base, curr := KeyIndex(baseline), KeyIndex(current);
    ListsContents(block.introduced, curr, curr.Keys - base.Keys);
    ListsContents(block.resolved, base, base.Keys - curr.Keys);
    ListsContents(block.persisted, curr, curr.Keys * base.Keys);
  }

  /** New and persisted violations split the distinct current keys, resolved and persisted ones
      the baseline's, in number too; every entry comes from the list it is attributed to; and
      every severity change is of a persisted violation. */
  lemma {:induction false} ViolationsPartition(
      baseline: seq<Violation>, current: seq<Violation>, block: ViolationsBlock)
    requires IsViolationsDrift(baseline, current, block)
    ensures IdsOf(block.introduced) + IdsOf(block.persisted) == Keys(current)
    ensures IdsOf(block.introduced) !! IdsOf(block.persisted)
    ensures |block.introduced| + |block.persisted| == |Keys(current)|
    ensures IdsOf(block.resolved) + IdsOf(block.persisted) == Keys(baseline)
    ensures IdsOf(block.resolved) !! IdsOf(block.persisted)
    ensures |block.resolved| + |block.persisted| == |Keys(baseline)|
    ensures IdsOf(block.severityChanged) <= IdsOf(block.persisted)
  {
    BlockIds(baseline, current, block);
    SplitCovers(block, Keys(baseline), Keys(current));
    ChangedContents(baseline, current);
  }

  lemma SplitCovers(block: ViolationsBlock, base: set<Text>, curr: set<Text>)
    requires IdsSplit(block, base, curr)
    ensures IdsOf(block.introduced) + IdsOf(block.persisted) == curr
    ensures IdsOf(block.introduced) !! IdsOf(block.persisted)
    ensures |block.introduced| + |block.persisted| == |curr|
    ensures IdsOf(block.resolved) + IdsOf(block.persisted) == base
    ensures IdsOf(block.resolved) !! IdsOf(block.persisted)
    ensures |block.resolved| + |block.persisted| == |base|
  {
    TwoParts(curr, base);
    TwoParts(base, curr);
    assert curr * base == base * curr;
  }

  lemma TwoParts(a: set<Text>, b: set<Text>)
    ensures (a - b) + a * b == a
    ensures |a - b| + |a * b| == |a|
  {
  }

  /** New and persisted entries are current violations, resolved ones the baseline's. */
  lemma {:induction false} ViolationsGenuine(baseline: seq<Violation>, current: seq<Violation>, block: ViolationsBlock)
    requires IsViolationsDrift(baseline, current, block)
    ensures forall e <- block.introduced + block.persisted :: e.value in current && ViolationKey(e.value) == Some(e.id)
    ensures forall e <- block.resolved :: e.value in baseline && ViolationKey(e.value) == Some(e.id)
  {
    BlockLists(baseline, current, block);
    var base, curr := KeyIndex(baseline), KeyIndex(current);
    ListedGenuine(block.introduced, current, curr.Keys - base.Keys);
    ListedGenuine(block.persisted, current, curr.Keys * base.Keys);
    ListedGenuine(block.resolved, baseline, base.Keys - curr.Keys);
  }

  // -------------------------------------------------------------- turned around

  function Negated(d: Option<real>): Option<real> {
    if d.None? then None else Some(-d.value)
  }

  function Reversed(c: Entry<Change>, ruleId: Option<Text>): Entry<Change> {
    Entry(c.id, Change(ruleId, c.value.to, c.value.from))
  }

  lemma ChangesReversed(base: Index<Violation>, curr: Index<Violation>)
    ensures Changes(curr, base).Keys == Changes(base, curr).Keys
    ensures forall k <- Changes(base, curr) ::
              Changes(curr, base)[k] == Reversed(Changes(base, curr)[k], base[k].value.ruleId)
  {
  }

  lemma {:induction false} ChangedReversed(baseline: seq<Violation>, current: seq<Violation>)
    ensures |Changed(current, baseline)| == |Changed(baseline, current)|
    ensures forall i :: 0 <= i < |Changed(baseline, current)| ==>
              var (c, c') := (Changed(baseline, current)[i], Changed(current, baseline)[i]);
              c'.id == c.id && c'.value.from == c.value.to && c'.value.to == c.value.from
  {
    var base, curr := KeyIndex(baseline), KeyIndex(current);
    ChangesReversed(base, curr);
    var keys := SortSet(Changes(base, curr).Keys);
    forall i | 0 <= i < |keys|
      ensures var (c, c') := (Changed(baseline, current)[i], Changed(current, baseline)[i]);
              c'.id == c.id && c'.value.from == c.value.to && c'.value.to == c.value.from
    {
      assert keys[i] in keys;
    }
  }

  /** Swapping the arguments swaps added with removed. */
  lemma TopologyTurnsAround(baseline: Topology, current: Topology)
    ensures var (t, t') := (TopologyDrift(baseline, current), TopologyDrift(current, baseline));
            t' == TopologyBlock(t.removedNodes, t.addedNodes, [], t.removedEdges, t.addedEdges, [])
  {
  }

  lemma SplitTurned(v: ViolationsBlock, v': ViolationsBlock, base: set<Text>, curr: set<Text>)
    requires IdsSplit(v, base, curr) && IdsSplit(v', curr, base)
    ensures IdsOf(v'.introduced) == IdsOf(v.resolved) && |v'.introduced| == |v.resolved|
    ensures IdsOf(v'.resolved) == IdsOf(v.introduced) && |v'.resolved| == |v.introduced|
    ensures IdsOf(v'.persisted) == IdsOf(v.persisted) && |v'.persisted| == |v.persisted|
  {
    assert curr * base == base * curr;
  }

  /** Swapping the arguments swaps new with resolved, keeps the keys that persist, and turns
      every severity change around. */
  lemma {:induction false} ViolationsTurnAround(
      baseline: seq<Violation>, current: seq<Violation>, v: ViolationsBlock, v': ViolationsBlock)
    requires IsViolationsDrift(baseline, current, v) && IsViolationsDrift(current, baseline, v')
    ensures IdsOf(v'.introduced) == IdsOf(v.resolved) && |v'.introduced| == |v.resolved|
    ensures IdsOf(v'.resolved) == IdsOf(v.introduced) && |v'.resolved| == |v.introduced|
    ensures IdsOf(v'.persisted) == IdsOf(v.persisted) && |v'.persisted| == |v.persisted|
    ensures |v'.severityChanged| == |v.severityChanged|
    ensures forall i :: 0 <= i < |v.severityChanged| ==>
              var (c, c') := (v.severityChanged[i], v'.severityChanged[i]);
              c'.id == c.id && c'.value.from == c.value.to && c'.value.to == c.value.from
  {
    BlockIds(baseline, current, v);
    BlockIds(current, baseline, v');
    SplitTurned(v, v', Keys(baseline), Keys(current));
    ChangedReversed(baseline, current);
  }

  /** A delta is there exactly when both numbers are, and then it leads from one to the other. */
  ghost predicate LeadsTo(baseline: Option<real>, delta: Option<real>, current: Option<real>) {
    && (delta.Some? <==> baseline.Some? && current.Some?)
    && (delta.Some? ==> baseline.value + delta.value == current.value)
  }

  /** Each delta leads from the baseline's number to the current one of the same signal. */
  lemma SignalsExactly(baseline: Input, current: Input, d: DriftResult)
    requires IsDrift(baseline, current, d)
    ensures var (b, c) := (baseline.signals, current.signals);
            && LeadsTo(b.score, d.signal.scoreDelta, c.score)
            && LeadsTo(b.coverage, d.signal.coverageDelta, c.coverage)
            && LeadsTo(b.connectivity, d.signal.connectivityDelta, c.connectivity)
            && LeadsTo(b.confidence, d.signal.confidenceDelta, c.confidence)
            && LeadsTo(b.violationsCount, d.signal.violationsDelta, c.violationsCount)
    ensures d.signal.graphSurfaceHashChanged <==> baseline.canonical.hash != current.canonical.hash
  {
    assert d.signal == SignalDrift(baseline, current);
  }

  lemma SignalTurnsAround(baseline: Input, current: Input)
    ensures var (s, s') := (SignalDrift(baseline, current), SignalDrift(current, baseline));
            s' == SignalBlock(
                    Negated(s.scoreDelta), Negated(s.coverageDelta), Negated(s.connectivityDelta),
                    Negated(s.confidenceDelta), Negated(s.violationsDelta), s.graphSurfaceHashChanged)
  {
  }

  /** Swapping the arguments turns the whole result around: added and removed, new and
      resolved, and the sign of every delta change places, and both flags stay. */
  lemma DriftTurnsAround(baseline: Input, current: Input, d: DriftResult, d': DriftResult)
    requires IsDrift(baseline, current, d) && IsDrift(current, baseline, d')
    ensures d'.topology == TopologyBlock(
              d.topology.removedNodes, d.topology.addedNodes, [], d.topology.removedEdges, d.topology.addedEdges, [])
    ensures IdsOf(d'.violations.introduced) == IdsOf(d.violations.resolved)
    ensures IdsOf(d'.violations.resolved) == IdsOf(d.violations.introduced)
    ensures IdsOf(d'.violations.persisted) == IdsOf(d.violations.persisted)
    ensures d'.signal == SignalBlock(
              Negated(d.signal.scoreDelta), Negated(d.signal.coverageDelta), Negated(d.signal.connectivityDelta),
              Negated(d.signal.confidenceDelta), Negated(d.signal.violationsDelta), d.signal.graphSurfaceHashChanged)
    ensures d'.hasDrift == d.hasDrift
  {
    TopologyTurnsAround(baseline.canonical, current.canonical);
    ViolationsTurnAround(baseline.violations, current.violations, d.violations, d'.violations);
    SignalTurnsAround(baseline, current);
  }

  // ------------------------------------------------------------------- the hash flag

  /** A topology the canonical builder could have produced. */
  ghost predicate IsCanonical(sha: Hash, t: Topology) {
    && t.nodes == NodesOf(NodeIds(t))
    && InForm(sha, t.edges)
    && t.hash == GraphSurfaceHash(sha, t.nodes, t.edges)
  }

  /** What the builder returns is canonical in this sense. */
  lemma BuiltIsCanonical(sha: Hash, nodeIds: set<Text>, edges: seq<RawEdge>)
    ensures IsCanonical(sha, Canonical(sha, nodeIds, edges))
  {
    CanonicalInForm(sha, edges);
    NodesContents(nodeIds);
    var nodes := NodesOf(nodeIds);
    var ids := set n <- nodes :: n.id;
    forall id | id != [] ensures id in ids <==> id in nodeIds {
      assert Node(id) in nodes <==> id in nodeIds;
    }
    NodesDependOnIds(ids, nodeIds);
  }

  /** No collision between the two surfaces, nor between the ids of two different edges. */
  ghost predicate NoCollision(sha: Hash, s: Topology, t: Topology) {
    var x, y := SurfaceText(s.nodes, s.edges), SurfaceText(t.nodes, t.edges);
    && (sha(x) == sha(y) ==> x == y)
    && forall e, f :: e in s.edges && f in t.edges && e.id == f.id ==> e == f
  }

  lemma SameEdges(sha: Hash, s: Topology, t: Topology)
    requires InForm(sha, s.edges) && InForm(sha, t.edges)
    requires forall e, f :: e in s.edges && f in t.edges && e.id == f.id ==> e == f
    requires EdgeIds(s) == EdgeIds(t)
    ensures s.edges == t.edges
  {
    forall e ensures e in s.edges <==> e in t.edges {
      if e in s.edges {
        assert e.id in EdgeIds(t);
      }
      if e in t.edges {
        assert e.id in EdgeIds(s);
      }
    }
    AscendingEdgesUnique(s.edges, t.edges);
  }

  lemma HashDetermines(sha: Hash, s: Topology, t: Topology)
    requires IsCanonical(sha, s) && IsCanonical(sha, t) && NoCollision(sha, s, t)
    ensures s.hash == t.hash <==> NodeIds(s) == NodeIds(t) && EdgeIds(s) == EdgeIds(t)
    ensures s.hash == t.hash <==> s.nodes == t.nodes && s.edges == t.edges
  {
    SurfaceTextInjective(s.nodes, s.edges, t.nodes, t.edges);
    if NodeIds(s) == NodeIds(t) && EdgeIds(s) == EdgeIds(t) {
      SameEdges(sha, s, t);
    }
  }

  ghost predicate Touched(t: TopologyBlock) {
    t.addedNodes != [] || t.removedNodes != [] || t.addedEdges != [] || t.removedEdges != []
  }

  lemma TouchedExactly(baseline: Topology, current: Topology)
    ensures Touched(TopologyDrift(baseline, current)) <==>
            NodeIds(baseline) != NodeIds(current) || EdgeIds(baseline) != EdgeIds(current)
  {
    var t := TopologyDrift(baseline, current);
    TopologyIds(baseline, current);
    EmptyIds(t.addedNodes);
    EmptyIds(t.removedNodes);
    EmptyIds(t.addedEdges);
    EmptyIds(t.removedEdges);
    SameIffNoDifference(NodeIds(baseline), NodeIds(current));
    SameIffNoDifference(EdgeIds(baseline), EdgeIds(current));
  }

  lemma SameIffNoDifference(a: set<Text>, b: set<Text>)
    ensures a == b <==> a - b == {} && b - a == {}
  {
    if a - b == {} && b - a == {} {
      forall x ensures x in a <==> x in b {
        assert x in a && x !in b ==> x in a - b;
        assert x in b && x !in a ==> x in b - a;
      }
    }
  }

  lemma EmptyIds<T>(entries: seq<Entry<T>>)
    ensures IdsOf(entries) == {} <==> entries == []
  {
    if entries != [] {
      assert entries[0].id in IdsOf(entries);
    }
  }

  /** For canonical topologies, without collisions, the hash flag is set exactly when some
      node or edge was added or removed. */
  lemma HashFlagExact(sha: Hash, baseline: Input, current: Input)
    requires IsCanonical(sha, baseline.canonical) && IsCanonical(sha, current.canonical)
    requires NoCollision(sha, baseline.canonical, current.canonical)
    ensures SignalDrift(baseline, current).graphSurfaceHashChanged <==>
            Touched(TopologyDrift(baseline.canonical, current.canonical))
  {
    HashDetermines(sha, baseline.canonical, current.canonical);
    TouchedExactly(baseline.canonical, current.canonical);
  }

  /** For any two runs there is drift exactly when their ids, their violation keys or their hashes
      differ or some violation changed its severity; persisting violations do not count. */
  lemma DriftExactly(baseline: Input, current: Input, drift: DriftResult)
    requires IsDrift(baseline, current, drift)
    ensures drift.hasDrift <==>
            || NodeIds(baseline.canonical) != NodeIds(current.canonical)
            || EdgeIds(baseline.canonical) != EdgeIds(current.canonical)
            || Keys(baseline.violations) != Keys(current.violations)
            || Changed(baseline.violations, current.violations) != []
            || baseline.canonical.hash != current.canonical.hash
  {
    TouchedExactly(baseline.canonical, current.canonical);
    ViolationsQuiet(baseline.violations, current.violations, drift.violations);
    ChangedContents(baseline.violations, current.violations);
    EmptyIds(Changed(baseline.violations, current.violations));
    SignalsExactly(baseline, current, drift);
    FlagExactly(drift);
  }

  lemma FlagExactly(drift: DriftResult)
    ensures HasDrift(drift.topology, drift.violations, drift.signal) <==>
            || drift.topology.changedNodes != [] || drift.topology.changedEdges != [] || Touched(drift.topology)
            || drift.violations.introduced != [] || drift.violations.resolved != []
            || drift.violations.severityChanged != [] || drift.signal.graphSurfaceHashChanged
  {
  }

  /** For canonical topologies, without collisions, there is no drift exactly when the graphs
      are equal, the violations agree by key, and none of them changed severity. */
  lemma NoDriftExactly(sha: Hash, baseline: Input, current: Input, drift: DriftResult)
    requires IsCanonical(sha, baseline.canonical) && IsCanonical(sha, current.canonical)
    requires NoCollision(sha, baseline.canonical, current.canonical)
    requires IsDrift(baseline, current, drift)
    ensures !drift.hasDrift <==>
            && baseline.canonical.nodes == current.canonical.nodes
            && baseline.canonical.edges == current.canonical.edges
            && Keys(baseline.violations) == Keys(current.violations)
            && Changes(KeyIndex(baseline.violations), KeyIndex(current.violations)) == map[]
  {
    HashDetermines(sha, baseline.canonical, current.canonical);
    TouchedExactly(baseline.canonical, current.canonical);
    ViolationsQuiet(baseline.violations, current.violations, drift.violations);
  }

  lemma {:induction false} ViolationsQuiet(baseline: seq<Violation>, current: seq<Violation>, v: ViolationsBlock)
    requires IsViolationsDrift(baseline, current, v)
    ensures (v.introduced == [] && v.resolved == [] && v.severityChanged == []) <==>
            (Keys(baseline) == Keys(current) && Changes(KeyIndex(baseline), KeyIndex(current)) == map[])
  {
    BlockIds(baseline, current, v);
    ChangedContents(baseline, current);
    EmptyIds(v.introduced);
    EmptyIds(v.resolved);
    EmptyIds(v.severityChanged);
    SameIffNoDifference(Keys(baseline), Keys(current));
    var changes := Changes(KeyIndex(baseline), KeyIndex(current));
    assert changes.Keys == {} <==> changes == map[];
  }
}
