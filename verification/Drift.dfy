/** The drift engine: what changed from a baseline to the current state. */
module Drift {
  import opened GraphSurface
  import opened Results
  import opened Sorting
  import opened Texts

  /** Something and the id it is kept under: a node, an edge, a violation or a severity change. */
  datatype Entry<T> = Entry(id: Text, value: T)

  type Index<T> = map<Text, Entry<T>>

  ghost predicate Keyed<T>(m: Index<T>) {
    forall k <- m :: m[k].id == k
  }

  ghost function IdsOf<T>(entries: seq<Entry<T>>): set<Text> {
    set i | 0 <= i < |entries| :: entries[i].id
  }

  /** `new Map(list.map(e => [e.id, e]))`: of two entries with one id the later stays. */
  function IndexOf<T>(entries: seq<Entry<T>>): Index<T> {
    if entries == [] then map[]
    else
      var front, last := entries[..|entries| - 1], entries[|entries| - 1];
      IndexOf(front)[last.id := last]
  }

  lemma {:induction false} IndexContents<T(!new)>(entries: seq<Entry<T>>)
    ensures Keyed(IndexOf(entries))
    ensures IndexOf(entries).Keys == IdsOf(entries)
    ensures forall k <- IndexOf(entries) :: IndexOf(entries)[k] in entries
  {
    if entries == [] {
    } else {
      var front, last := entries[..|entries| - 1], entries[|entries| - 1];
      IndexContents(front);
      assert entries == front + [last];
      assert IdsOf(entries) == IdsOf(front) + {last.id} by {
        assert forall i :: 0 <= i < |front| ==> entries[i] == front[i];
        assert forall k <- IdsOf(front) :: exists i :: 0 <= i < |front| && entries[i].id == k;
        assert entries[|front|].id == last.id;
      }
    }
  }

  /** The keys of that map in its own order: a key keeps the place of its first entry. */
  function KeyOrder<T>(entries: seq<Entry<T>>): seq<Text> {
    FirstMet(Map(EntryId, entries))
  }

  lemma KeyOrderContents<T(!new)>(entries: seq<Entry<T>>)
    ensures Distinct(KeyOrder(entries))
    ensures forall k :: k in KeyOrder(entries) <==> k in IndexOf(entries)
  {
    var ids := Map(EntryId, entries);
    FirstMetContents(ids);
    IndexContents(entries);
    forall k ensures k in ids <==> k in IdsOf(entries) {
      if k in IdsOf(entries) {
        var i :| 0 <= i < |entries| && entries[i].id == k;
        assert ids[i] == k;
      }
    }
  }

  /** A map with its order. */
  datatype Table<T> = Table(order: seq<Text>, index: Index<T>)

  function TableOf<T>(entries: seq<Entry<T>>): Table<T> {
    Table(KeyOrder(entries), IndexOf(entries))
  }

  ghost predicate IsTable<T(!new)>(t: Table<T>) {
    Keyed(t.index) && Distinct(t.order) && forall k :: k in t.order <==> k in t.index
  }

  lemma TableOfIsTable<T(!new)>(entries: seq<Entry<T>>)
    ensures IsTable(TableOf(entries))
  {
    IndexContents(entries);
    KeyOrderContents(entries);
  }

  function Pick<T>(m: Index<T>, keys: seq<Text>): (r: seq<Entry<T>>)
    requires forall i :: 0 <= i < |keys| ==> keys[i] in m
    ensures |r| == |keys| && forall i :: 0 <= i < |keys| ==> r[i] == m[keys[i]]
  {
    if keys == [] then [] else [m[keys[0]]] + Pick(m, keys[1..])
  }

  /** The entries of `m` under the given keys, ascending by id. */
  ghost function Select<T>(m: Index<T>, keys: set<Text>): seq<Entry<T>>
    requires keys <= m.Keys
  {
    SelectAll(m, SortSet(keys), keys)
  }

  ghost function SelectAll<T>(m: Index<T>, sorted: seq<Text>, keys: set<Text>): seq<Entry<T>>
    requires keys <= m.Keys && forall k :: k in sorted <==> k in keys
  {
    assert forall i :: 0 <= i < |sorted| ==> sorted[i] in sorted;
    Pick(m, sorted)
  }

  predicate EntryLeq<T>(a: Entry<T>, b: Entry<T>) { Leq(a.id, b.id) }

  function EntryId<T>(e: Entry<T>): Text { e.id }

  /** The list holds the entries of `m` under the given keys, once each, in some order. */
  ghost predicate Lists<T(!new)>(r: seq<Entry<T>>, m: Index<T>, keys: set<Text>) {
    && (forall i :: 0 <= i < |r| ==> r[i].id in keys && r[i].id in m && m[r[i].id] == r[i])
    && (forall k <- keys :: exists i :: 0 <= i < |r| && r[i].id == k)
    && (forall i, j :: 0 <= i < j < |r| ==> r[i].id != r[j].id)
  }

  lemma ListsPush<T(!new)>(r: seq<Entry<T>>, m: Index<T>, keys: set<Text>, k: Text)
    requires Lists(r, m, keys) && Keyed(m) && k in m && k !in keys
    ensures Lists(r + [m[k]], m, keys + {k})
  {
    var grown := r + [m[k]];
    assert grown[|r|].id == k;
    forall x | x in keys ensures exists i :: 0 <= i < |grown| && grown[i].id == x {
      var i :| 0 <= i < |r| && r[i].id == x;
      assert grown[i].id == x;
    }
  }

  lemma ListedIds<T(!new)>(r: seq<Entry<T>>, m: Index<T>, keys: set<Text>)
    requires Lists(r, m, keys)
    ensures Sort(Leq, Map(EntryId, r)) == SortSet(keys)
  {
    var ids := Map(EntryId, r);
    forall k | k in keys ensures k in ids {
      var i :| 0 <= i < |r| && r[i].id == k;
      assert ids[i] == k;
    }
    SortEnumerates(ids, keys);
  }

  lemma RearrangedLists<T(!new)>(r: seq<Entry<T>>, s: seq<Entry<T>>, m: Index<T>, keys: set<Text>)
    requires Lists(r, m, keys) && multiset(s) == multiset(r)
    requires forall i, j :: 0 <= i < j < |s| ==> s[i] != s[j]
    ensures Lists(s, m, keys)
  {
    forall i | 0 <= i < |s| ensures s[i].id in keys && s[i].id in m && m[s[i].id] == s[i] {
      assert s[i] in multiset(r);
    }
    forall k | k in keys ensures exists i :: 0 <= i < |s| && s[i].id == k {
      var i :| 0 <= i < |r| && r[i].id == k;
      assert r[i] in multiset(s);
    }
  }

  /** Sorting by whatever comparison gives a listing of the same entries. */
  lemma {:induction false} SortKeepsListing<T(!new)>(
      le: (Entry<T>, Entry<T>) -> bool, r: seq<Entry<T>>, m: Index<T>, keys: set<Text>)
    requires Lists(r, m, keys)
    ensures Lists(Sort(le, r), m, keys)
  {
    forall i, j | 0 <= i < j < |r| ensures r[i] != r[j] {
      assert r[i].id != r[j].id;
    }
    SortDistinct(le, r);
    RearrangedLists(r, Sort(le, r), m, keys);
  }

  /** Entries listed once each, in any order, sort to the ascending selection. */
  lemma SortListed<T(!new)>(r: seq<Entry<T>>, m: Index<T>, keys: set<Text>)
    requires Lists(r, m, keys) && keys <= m.Keys
    ensures Sort(EntryLeq, r) == Select(m, keys)
  {
    SortMap(EntryLeq, Leq, EntryId, r);
    ListedIds(r, m, keys);
    SortKeepsListing(EntryLeq, r, m, keys);
    PickedById(m, Sort(EntryLeq, r), SortSet(keys));
  }

  lemma PickedById<T(!new)>(m: Index<T>, entries: seq<Entry<T>>, ids: seq<Text>)
    requires Map(EntryId, entries) == ids
    requires forall i :: 0 <= i < |entries| ==> entries[i].id in m && m[entries[i].id] == entries[i]
    ensures forall i :: 0 <= i < |ids| ==> ids[i] in m
    ensures entries == Pick(m, ids)
  {
    assert forall i :: 0 <= i < |entries| ==> entries[i].id == ids[i];
  }

  /** The last entry under each id of `a` that is no id of `b`, ascending by id. */
  ghost function Only<T(!new)>(a: seq<Entry<T>>, b: seq<Entry<T>>): seq<Entry<T>> {
    Select(IndexOf(a), IndexOf(a).Keys - IndexOf(b).Keys)
  }

  /** The entries of `m` under the given keys, in the order given. */
  function Pushed<T>(m: Index<T>, order: seq<Text>, keys: set<Text>): seq<Entry<T>>
    requires keys <= m.Keys
  {
    if order == [] then []
    else
      var front, last := Pushed(m, order[..|order| - 1], keys), order[|order| - 1];
      if last in keys then front + [m[last]] else front
  }

  lemma PushedStep<T>(m: Index<T>, order: seq<Text>, keys: set<Text>, i: nat)
    requires keys <= m.Keys && i < |order|
    ensures var before := Pushed(m, order[..i], keys);
            Pushed(m, order[..i + 1], keys) == if order[i] in keys then before + [m[order[i]]] else before
  {
    assert order[..i + 1][..i] == order[..i];
  }

  lemma {:induction false} PushedOf<T(!new)>(m: Index<T>, order: seq<Text>, keys: set<Text>)
    requires keys <= m.Keys && Keyed(m) && Distinct(order)
    ensures Lists(Pushed(m, order, keys), m, set k | k in keys && k in order)
  {
    if order == [] {
    } else {
      var front, last := order[..|order| - 1], order[|order| - 1];
      PushedOf(m, front, keys);
      assert order == front + [last];
      ghost var before := set k | k in keys && k in front;
      if last in keys {
        ListsPush(Pushed(m, front, keys), m, before, last);
        assert (set k | k in keys && k in order) == before + {last};
      } else {
        assert (set k | k in keys && k in order) == before;
      }
    }
  }

  lemma PushedLists<T(!new)>(t: Table<T>, keys: set<Text>)
    requires IsTable(t) && keys <= t.index.Keys
    ensures Lists(Pushed(t.index, t.order, keys), t.index, keys)
  {
    PushedOf(t.index, t.order, keys);
    assert (set k | k in keys && k in t.order) == keys;
  }

  /** The entries of one map whose id the other lacks, pushed in the map's order. */
  method Difference<T(!new)>(a: Table<T>, b: Index<T>) returns (r: seq<Entry<T>>)
    requires IsTable(a)
    ensures r == Pushed(a.index, a.order, a.index.Keys - b.Keys)
  {
    r := [];
    for i := 0 to |a.order|
      invariant r == Pushed(a.index, a.order[..i], a.index.Keys - b.Keys)
    {
      var id := a.order[i];
      PushedStep(a.index, a.order, a.index.Keys - b.Keys, i);
      assert id in a.order;
      if id !in b {
        r := r + [a.index[id]];
      }
    }
    assert a.order[..|a.order|] == a.order;
  }

  /** The same, sorted by id. */
  method SortedDifference<T(!new)>(a: Table<T>, b: Index<T>) returns (r: seq<Entry<T>>)
    requires IsTable(a)
    ensures r == Select(a.index, a.index.Keys - b.Keys)
  {
    r := Difference(a, b);
    PushedLists(a, a.index.Keys - b.Keys);
    SortListed(r, a.index, a.index.Keys - b.Keys);
    r := Sort(EntryLeq, r);
  }

  // ------------------------------------------------------------------- topology

  datatype TopologyBlock = TopologyBlock(
    addedNodes: seq<Entry<Node>>, removedNodes: seq<Entry<Node>>, changedNodes: seq<Entry<Node>>,
    addedEdges: seq<Entry<Edge>>, removedEdges: seq<Entry<Edge>>, changedEdges: seq<Entry<Edge>>)

  function NodeEntry(n: Node): Entry<Node> { Entry(n.id, n) }

  function EdgeEntry(e: Edge): Entry<Edge> { Entry(e.id, e) }

  function NodesIn(t: Topology): seq<Entry<Node>> { Map(NodeEntry, t.nodes) }

  function EdgesIn(t: Topology): seq<Entry<Edge>> { Map(EdgeEntry, t.edges) }

  ghost function TopologyDrift(baseline: Topology, current: Topology): TopologyBlock {
    TopologyBlock(
      Only(NodesIn(current), NodesIn(baseline)), Only(NodesIn(baseline), NodesIn(current)), [],
      Only(EdgesIn(current), EdgesIn(baseline)), Only(EdgesIn(baseline), EdgesIn(current)), [])
  }

  method DiffTopology(baseline: Topology, current: Topology) returns (block: TopologyBlock)
    ensures block == TopologyDrift(baseline, current)
  {
    var baseNodes, currNodes := TableOf(NodesIn(baseline)), TableOf(NodesIn(current));
    var baseEdges, currEdges := TableOf(EdgesIn(baseline)), TableOf(EdgesIn(current));
    TableOfIsTable(NodesIn(baseline));
    TableOfIsTable(NodesIn(current));
    TableOfIsTable(EdgesIn(baseline));
    TableOfIsTable(EdgesIn(current));
    var addedNodes := SortedDifference(currNodes, baseNodes.index);
    var removedNodes := SortedDifference(baseNodes, currNodes.index);
    var addedEdges := SortedDifference(currEdges, baseEdges.index);
    var removedEdges := SortedDifference(baseEdges, currEdges.index);
    block := TopologyBlock(addedNodes, removedNodes, [], addedEdges, removedEdges, []);
  }

  // ----------------------------------------------------------------- violations

  datatype Violation = Violation(
    id: Option<Text>, ruleId: Option<Text>, from: Option<Text>, to: Option<Text>, severity: Option<Text>)

  datatype Change = Change(ruleId: Option<Text>, from: Text, to: Text)

  datatype ViolationsBlock = ViolationsBlock(
    introduced: seq<Entry<Violation>>, resolved: seq<Entry<Violation>>, persisted: seq<Entry<Violation>>,
    severityChanged: seq<Entry<Change>>)

  /** `v ?? ''` */
  function OrEmpty(t: Option<Text>): Text {
    if t.None? then [] else t.value
  }

  /** What a violation is compared under: its id, or else a text made of what it says; nothing
      when it says nothing. */
  function ViolationKey(v: Violation): Option<Text> {
    if v.id.Some? && v.id.value != [] then v.id
    else
      var (rule, from, to) := (OrEmpty(v.ruleId), OrEmpty(v.from), OrEmpty(v.to));
      if rule == [] && from == [] && to == [] then None
      else Some(Ascii("fallback:") + rule + [BAR] + from + [BAR] + to + [BAR] + OrEmpty(v.severity))
  }

  /** The violations that have a key, under it. */
  function KeyedList(violations: seq<Violation>): seq<Entry<Violation>> {
    if violations == [] then []
    else
      var front, last := KeyedList(violations[..|violations| - 1]), violations[|violations| - 1];
      match ViolationKey(last)
      case None => front
      case Some(key) => front + [Entry(key, last)]
  }

  function KeyIndex(violations: seq<Violation>): Index<Violation> {
    IndexOf(KeyedList(violations))
  }

  function KeyTable(violations: seq<Violation>): Table<Violation> {
    TableOf(KeyedList(violations))
  }

  /** `map.set(e.id, e)` */
  function Put<T>(t: Table<T>, e: Entry<T>): Table<T> {
    Table(Met(t.order, e.id), t.index[e.id := e])
  }

  lemma TableAppend<T>(entries: seq<Entry<T>>, e: Entry<T>)
    ensures TableOf(entries + [e]) == Put(TableOf(entries), e)
  {
    assert (entries + [e])[..|entries|] == entries;
    MapAppend(EntryId, entries, e);
    FirstMetAppend(Map(EntryId, entries), e.id);
  }

  lemma KeyStep(violations: seq<Violation>, i: nat)
    requires i < |violations|
    ensures var before, key := KeyTable(violations[..i]), ViolationKey(violations[i]);
            KeyTable(violations[..i + 1]) ==
            if key.None? then before else Put(before, Entry(key.value, violations[i]))
  {
    assert violations[..i + 1][..i] == violations[..i];
    var key := ViolationKey(violations[i]);
    if key.Some? {
      TableAppend(KeyedList(violations[..i]), Entry(key.value, violations[i]));
    }
  }

  method IndexViolations(violations: seq<Violation>) returns (byId: Table<Violation>)
    ensures byId == KeyTable(violations) && IsTable(byId)
  {
    byId := Table([], map[]);
    for i := 0 to |violations|
      invariant byId == KeyTable(violations[..i])
    {
      KeyStep(violations, i);
      var key := ViolationKey(violations[i]);
      if key.Some? {
        byId := Put(byId, Entry(key.value, violations[i]));
      }
    }
    assert violations[..|violations|] == violations;
    TableOfIsTable(KeyedList(violations));
  }

  predicate SeverityDiffers(base: Violation, curr: Violation) {
    OrEmpty(base.severity) != [] && OrEmpty(curr.severity) != [] && base.severity != curr.severity
  }

  function ChangeOf(key: Text, base: Violation, curr: Violation): Entry<Change> {
    Entry(key, Change(curr.ruleId, OrEmpty(base.severity), OrEmpty(curr.severity)))
  }

  /** The severity changes among the violations present on both sides. */
  ghost function Changes(base: Index<Violation>, curr: Index<Violation>): Index<Change> {
    map k | k in base && k in curr && SeverityDiffers(base[k].value, curr[k].value) ::
      ChangeOf(k, base[k].value, curr[k].value)
  }

  ghost function Changed(baseline: seq<Violation>, current: seq<Violation>): seq<Entry<Change>> {
    var changes := Changes(KeyIndex(baseline), KeyIndex(current));
    Select(changes, changes.Keys)
  }

  /** `byId(a, b) <= 0`: two violations without an id, or one of them, compare equal. */
  predicate ViolationLeq(a: Entry<Violation>, b: Entry<Violation>) {
    a.value.id.None? || b.value.id.None? || Leq(a.value.id.value, b.value.id.value)
  }

  /** On this list the comparison is an order the language's sort respects: total and
      transitive. */
  ghost predicate Consistent(r: seq<Entry<Violation>>) {
    && (forall a <- r, b <- r :: ViolationLeq(a, b) || ViolationLeq(b, a))
    && (forall a <- r, b <- r, c <- r :: ViolationLeq(a, b) && ViolationLeq(b, c) ==> ViolationLeq(a, c))
  }

  /** `s` is what `r.sort(byId)` may give: the stable sort of `r` when the comparison is
      consistent on it, and some arrangement of it otherwise. */
  ghost predicate IsArrangement(r: seq<Entry<Violation>>, s: seq<Entry<Violation>>) {
    multiset(s) == multiset(r) && (Consistent(r) ==> s == Sort(ViolationLeq, r))
  }

  method SortViolations(r: seq<Entry<Violation>>) returns (sorted: seq<Entry<Violation>>)
    ensures IsArrangement(r, sorted)
  {
    sorted := Sort(ViolationLeq, r);
  }

  /** The violations of `a` whose key `b` lacks, as they are pushed. */
  function OnlyIn(a: seq<Violation>, b: seq<Violation>): seq<Entry<Violation>> {
    var (own, other) := (KeyTable(a), KeyIndex(b));
    Pushed(own.index, own.order, own.index.Keys - other.Keys)
  }

  /** And those whose key `b` has. */
  function InBoth(a: seq<Violation>, b: seq<Violation>): seq<Entry<Violation>> {
    var (own, other) := (KeyTable(a), KeyIndex(b));
    Pushed(own.index, own.order, own.index.Keys * other.Keys)
  }

  /** What the comparison of two violation lists gives. */
  ghost predicate IsViolationsDrift(baseline: seq<Violation>, current: seq<Violation>, block: ViolationsBlock) {
    && IsArrangement(OnlyIn(current, baseline), block.introduced)
    && IsArrangement(OnlyIn(baseline, current), block.resolved)
    && IsArrangement(InBoth(current, baseline), block.persisted)
    && block.severityChanged == Changed(baseline, current)
  }

  method DiffViolations(baseline: seq<Violation>, current: seq<Violation>) returns (block: ViolationsBlock)
    ensures IsViolationsDrift(baseline, current, block)
  {
    var baseById := IndexViolations(baseline);
    var currById := IndexViolations(current);
    var newArr, persistedArr, severityChangedArr := CompareCurrent(baseById.index, currById);
    var resolvedArr := Difference(baseById, currById.index);
    newArr := SortViolations(newArr);
    resolvedArr := SortViolations(resolvedArr);
    persistedArr := SortViolations(persistedArr);
    ghost var all := Changes(baseById.index, currById.index);
    PushedChanges(baseById.index, currById);
    SortListed(severityChangedArr, all, all.Keys);
    severityChangedArr := Sort(EntryLeq, severityChangedArr);
    block := ViolationsBlock(newArr, resolvedArr, persistedArr, severityChangedArr);
  }

  lemma PushedChanges(base: Index<Violation>, curr: Table<Violation>)
    requires IsTable(curr)
    ensures var all := Changes(base, curr.index);
            Lists(Pushed(all, curr.order, all.Keys), all, all.Keys)
  {
    var all := Changes(base, curr.index);
    PushedOf(all, curr.order, all.Keys);
    assert (set k | k in all.Keys && k in curr.order) == all.Keys;
  }

  lemma ChangeAt(base: Index<Violation>, curr: Index<Violation>, id: Text)
    requires id in curr
    ensures id in Changes(base, curr) <==> id in base && SeverityDiffers(base[id].value, curr[id].value)
    ensures id in Changes(base, curr) ==>
              Changes(base, curr)[id] == ChangeOf(id, base[id].value, curr[id].value)
  {
  }

  lemma NewStep(base: Index<Violation>, curr: Table<Violation>, i: nat)
    requires IsTable(curr) && i < |curr.order|
    ensures var keys, id := curr.index.Keys - base.Keys, curr.order[i];
            var before := Pushed(curr.index, curr.order[..i], keys);
            && id in curr.index
            && Pushed(curr.index, curr.order[..i + 1], keys) ==
               if id in base then before else before + [curr.index[id]]
  {
    assert curr.order[i] in curr.order;
    PushedStep(curr.index, curr.order, curr.index.Keys - base.Keys, i);
  }

  lemma SharedStep(base: Index<Violation>, curr: Table<Violation>, i: nat)
    requires IsTable(curr) && i < |curr.order|
    ensures var keys, id := curr.index.Keys * base.Keys, curr.order[i];
            var before := Pushed(curr.index, curr.order[..i], keys);
            && id in curr.index
            && Pushed(curr.index, curr.order[..i + 1], keys) ==
               if id in base then before + [curr.index[id]] else before
  {
    assert curr.order[i] in curr.order;
    PushedStep(curr.index, curr.order, curr.index.Keys * base.Keys, i);
  }

  lemma ChangeStep(base: Index<Violation>, curr: Table<Violation>, all: Index<Change>, i: nat)
    requires IsTable(curr) && i < |curr.order| && all == Changes(base, curr.index)
    ensures var id, before := curr.order[i], Pushed(all, curr.order[..i], all.Keys);
            && id in curr.index
            && Pushed(all, curr.order[..i + 1], all.Keys) ==
               if id in base && SeverityDiffers(base[id].value, curr.index[id].value)
               then before + [ChangeOf(id, base[id].value, curr.index[id].value)] else before
  {
    assert curr.order[i] in curr.order;
    ChangeAt(base, curr.index, curr.order[i]);
    PushedStep(all, curr.order, all.Keys, i);
  }

  /** The loop over the current violations: new ones, those on both sides, and the changes of
      severity among the latter. */
  method CompareCurrent(base: Index<Violation>, curr: Table<Violation>)
    returns (newArr: seq<Entry<Violation>>, persistedArr: seq<Entry<Violation>>, changedArr: seq<Entry<Change>>)
    requires IsTable(curr)
    ensures newArr == Pushed(curr.index, curr.order, curr.index.Keys - base.Keys)
    ensures persistedArr == Pushed(curr.index, curr.order, curr.index.Keys * base.Keys)
    ensures var all := Changes(base, curr.index); changedArr == Pushed(all, curr.order, all.Keys)
  {
    newArr, persistedArr, changedArr := [], [], [];
    ghost var all := Changes(base, curr.index);
    for i := 0 to |curr.order|
      invariant newArr == Pushed(curr.index, curr.order[..i], curr.index.Keys - base.Keys)
      invariant persistedArr == Pushed(curr.index, curr.order[..i], curr.index.Keys * base.Keys)
      invariant changedArr == Pushed(all, curr.order[..i], all.Keys)
    {
      NewStep(base, curr, i);
      SharedStep(base, curr, i);
      ChangeStep(base, curr, all, i);
      var id := curr.order[i];
      var v := curr.index[id];
      if id !in base {
        newArr := newArr + [v];
      } else {
        persistedArr := persistedArr + [v];
        var baseSev, currSev := OrEmpty(base[id].value.severity), OrEmpty(v.value.severity);
        if baseSev != [] && currSev != [] && baseSev != currSev {
          changedArr := changedArr + [Entry(id, Change(v.value.ruleId, baseSev, currSev))];
        }
      }
    }
    assert curr.order[..|curr.order|] == curr.order;
  }

  // -------------------------------------------------------------------- signals

  datatype Signals = Signals(
    score: Option<real>, coverage: Option<real>, connectivity: Option<real>, confidence: Option<real>,
    violationsCount: Option<real>)

  datatype SignalBlock = SignalBlock(
    scoreDelta: Option<real>, coverageDelta: Option<real>, connectivityDelta: Option<real>,
    confidenceDelta: Option<real>, violationsDelta: Option<real>, graphSurfaceHashChanged: bool)

  function NumericDelta(baseline: Option<real>, current: Option<real>): (delta: Option<real>)
    ensures delta.Some? <==> baseline.Some? && current.Some?
    ensures delta.Some? ==> baseline.value + delta.value == current.value
  {
    if baseline.None? || current.None? then None else Some(current.value - baseline.value)
  }

  datatype Input = Input(canonical: Topology, violations: seq<Violation>, signals: Signals)

  function SignalDrift(baseline: Input, current: Input): SignalBlock {
    SignalBlock(
      NumericDelta(baseline.signals.score, current.signals.score),
      NumericDelta(baseline.signals.coverage, current.signals.coverage),
      NumericDelta(baseline.signals.connectivity, current.signals.connectivity),
      NumericDelta(baseline.signals.confidence, current.signals.confidence),
      NumericDelta(baseline.signals.violationsCount, current.signals.violationsCount),
      baseline.canonical.hash != current.canonical.hash)
  }

  // --------------------------------------------------------------------- drift

  datatype DriftResult = DriftResult(
    topology: TopologyBlock, violations: ViolationsBlock, signal: SignalBlock, hasDrift: bool)

  function HasDrift(topology: TopologyBlock, violations: ViolationsBlock, signal: SignalBlock): bool {
    |topology.addedNodes| + |topology.removedNodes| + |topology.changedNodes| +
    |topology.addedEdges| + |topology.removedEdges| + |topology.changedEdges| +
    |violations.introduced| + |violations.resolved| + |violations.severityChanged| > 0
    || signal.graphSurfaceHashChanged
  }

  /** What the comparison of two runs gives. */
  ghost predicate IsDrift(baseline: Input, current: Input, drift: DriftResult) {
    && drift.topology == TopologyDrift(baseline.canonical, current.canonical)
    && IsViolationsDrift(baseline.violations, current.violations, drift.violations)
    && drift.signal == SignalDrift(baseline, current)
    && drift.hasDrift == HasDrift(drift.topology, drift.violations, drift.signal)
  }

  method ComputeArchitectureDrift(baseline: Input, current: Input) returns (drift: DriftResult)
    ensures IsDrift(baseline, current, drift)
  {
    var topology := DiffTopology(baseline.canonical, current.canonical);
    var violations := DiffViolations(baseline.violations, current.violations);
    var signal := SignalDrift(baseline, current);
    drift := DriftResult(topology, violations, signal, HasDrift(topology, violations, signal));
  }
}
