/** The canonical printer as it runs: on an object graph, with a set of containers already
    seen that is only ever added to. */
module ObjectGraph {
  import opened Json
  import opened Results
  import opened Sorting
  import opened Texts

  /** What an array element or an object member can hold. `Foreign` stands for the values
      with no JSON form: NaN, the infinities, bigints, functions and symbols. */
  datatype Slot =
    | Undefined
    | Null
    | Bool(b: bool)
    | Num(n: Numeral)
    | Str(s: Text)
    | Foreign
    | Ref(address: nat)

  datatype Container =
    | ArrayNode(items: seq<Slot>)
    | ObjectNode(members: map<Text, Slot>)

  type Heap = map<nat, Container>

  predicate InHeap(heap: Heap, slot: Slot) {
    slot.Ref? ==> slot.address in heap
  }

  /** Every reference leads to a container. */
  ghost predicate Closed(heap: Heap) {
    forall a <- heap ::
      match heap[a]
      case ArrayNode(items) => forall i :: 0 <= i < |items| ==> InHeap(heap, items[i])
      case ObjectNode(members) => forall k <- members :: InHeap(heap, members[k])
  }

  // ------------------------------------------------------------------ unfolding

  /** A tree that remembers the address each of its containers came from. */
  datatype Tree =
    | Leaf(slot: Slot)
    | ArrayTree(address: nat, items: seq<Tree>)
    | ObjectTree(address: nat, members: map<Text, Tree>)

  predicate Representable(slot: Slot) {
    slot.Null? || slot.Bool? || slot.Num? || slot.Str?
  }

  /** The members that are not `undefined`. */
  function Present(members: map<Text, Slot>): set<Text> {
    set k | k in members && members[k] != Undefined
  }

  /** `t` is the finite unfolding of the graph at `slot`, with every leaf representable. */
  ghost predicate Unfolds(heap: Heap, slot: Slot, t: Tree)
    decreases t
  {
    match t
    case Leaf(s) => slot == s && Representable(s)
    case ArrayTree(a, items) =>
      && slot == Ref(a) && a in heap && heap[a].ArrayNode?
      && |items| == |heap[a].items|
      && forall i :: 0 <= i < |items| ==> Unfolds(heap, heap[a].items[i], items[i])
    case ObjectTree(a, members) =>
      && slot == Ref(a) && a in heap && heap[a].ObjectNode?
      && members.Keys == Present(heap[a].members)
      && forall k <- members :: Unfolds(heap, heap[a].members[k], members[k])
  }

  ghost function Addresses(t: Tree): set<nat>
    decreases t
  {
    match t
    case Leaf(_) => {}
    case ArrayTree(a, items) => {a} + set i, x | 0 <= i < |items| && x in Addresses(items[i]) :: x
    case ObjectTree(a, members) => {a} + set k, x | k in members && x in Addresses(members[k]) :: x
  }

  /** No container is reached twice. */
  ghost predicate Once(t: Tree)
    decreases t
  {
    match t
    case Leaf(_) => true
    case ArrayTree(a, items) =>
      && (forall i :: 0 <= i < |items| ==> Once(items[i]) && a !in Addresses(items[i]))
      && (forall i, j :: 0 <= i < j < |items| ==> Addresses(items[i]) !! Addresses(items[j]))
    case ObjectTree(a, members) =>
      && (forall k <- members :: Once(members[k]) && a !in Addresses(members[k]))
      && (forall k, l :: k in members && l in members && k != l ==>
            Addresses(members[k]) !! Addresses(members[l]))
  }

  /** The JSON value a tree stands for. */
  ghost function Meaning(t: Tree): Json
    decreases t
  {
    match t
    case Leaf(Bool(b)) => JBool(b)
    case Leaf(Num(n)) => JNum(n)
    case Leaf(Str(s)) => JStr(s)
    case Leaf(_) => JNull
    case ArrayTree(_, items) => JArr(seq(|items|, i requires 0 <= i < |items| => Meaning(items[i])))
    case ObjectTree(_, members) => JObj(map k | k in members :: Meaning(members[k]))
  }

  /** A graph has at most one unfolding at a slot. */
  lemma {:induction false} UnfoldingUnique(heap: Heap, slot: Slot, t: Tree, u: Tree)
    requires Unfolds(heap, slot, t) && Unfolds(heap, slot, u)
    ensures t == u
    decreases t
  {
    match t
    case Leaf(_) =>
    case ArrayTree(a, items) =>
      assert u.ArrayTree? && |items| == |u.items|;
      forall i | 0 <= i < |items| ensures items[i] == u.items[i] {
        UnfoldingUnique(heap, heap[a].items[i], items[i], u.items[i]);
      }
    case ObjectTree(a, members) =>
      assert u.ObjectTree? && members.Keys == u.members.Keys;
      forall k | k in members ensures members[k] == u.members[k] {
        UnfoldingUnique(heap, heap[a].members[k], members[k], u.members[k]);
      }
  }

  /** The printer's test is for sharing, not only for cycles: an array that holds the same
      container twice is never emitted, however finite its unfolding. */
  lemma SharedContainerRejected(heap: Heap, a: nat, i: nat, j: nat, t: Tree)
    requires a in heap && heap[a].ArrayNode? && i < j < |heap[a].items|
    requires heap[a].items[i].Ref? && heap[a].items[i] == heap[a].items[j]
    requires Unfolds(heap, Ref(a), t)
    ensures !Once(t)
  {
    var b := heap[a].items[i].address;
    assert Unfolds(heap, Ref(b), t.items[i]) && Unfolds(heap, Ref(b), t.items[j]);
    assert b in Addresses(t.items[i]) && b in Addresses(t.items[j]);
  }

  /** An array that holds one empty array twice. */
  const TWICE: Heap := map[0 := ArrayNode([Ref(1), Ref(1)]), 1 := ArrayNode([])]

  /** It unfolds to a finite tree, and the printer's condition for success fails on it. */
  lemma TwiceRejected()
    ensures Closed(TWICE) && InHeap(TWICE, Ref(0))
    ensures Unfolds(TWICE, Ref(0), ArrayTree(0, [ArrayTree(1, []), ArrayTree(1, [])]))
    ensures !exists t :: Unfolds(TWICE, Ref(0), t) && Once(t)
  {
    forall t | Unfolds(TWICE, Ref(0), t) ensures !Once(t) {
      SharedContainerRejected(TWICE, 0, 0, 1, t);
    }
    var inner := ArrayTree(1, []);
    assert Unfolds(TWICE, Ref(1), inner);
    assert [inner, inner][0] == inner && [inner, inner][1] == inner;
  }

  // --------------------------------------------------------------------- emitter

  datatype EmitError = UndefinedValue | UnrepresentableValue | CircularReference

  class SeenSet {
    var addresses: set<nat>

    constructor ()
      ensures addresses == {}
    {
      addresses := {};
    }
  }

  /** `t` is what a successful emission at `slot` consumed, starting from `before`. */
  ghost predicate Emitted(heap: Heap, slot: Slot, before: set<nat>, t: Tree) {
    Unfolds(heap, slot, t) && Once(t) && Addresses(t) !! before
  }

  /** The recursive printer. It succeeds exactly when the graph at `slot` unfolds to a tree
      that reaches no container twice and none seen before; then the text is that tree's
      canonical text and its containers have been added to `seen`. */
  method Emit(heap: Heap, slot: Slot, seen: SeenSet) returns (r: Result<Text, EmitError>, ghost t: Tree)
    requires Closed(heap) && InHeap(heap, slot) && seen.addresses <= heap.Keys
    modifies seen
    ensures old(seen.addresses) <= seen.addresses <= heap.Keys
    ensures r.Success? ==>
              && Emitted(heap, slot, old(seen.addresses), t)
              && r.value == Canonical(Meaning(t))
              && seen.addresses == old(seen.addresses) + Addresses(t)
    ensures r.Failure? ==> forall u :: !Emitted(heap, slot, old(seen.addresses), u)
    decreases heap.Keys - seen.addresses, 1
  {
    t := Leaf(slot);
    match slot
    case Null => r := Success(NULL_TEXT);
    case Undefined => r := Failure(UndefinedValue);
    case Bool(b) => r := Success(if b then TRUE_TEXT else FALSE_TEXT);
    case Str(s) => r := Success(Quote(s));
    case Num(n) => r := Success(NumText(n));
    case Foreign => r := Failure(UnrepresentableValue);
    case Ref(a) =>
      if a in seen.addresses {
        return Failure(CircularReference), t;
      }
      match heap[a] {
        case ArrayNode(items) => r, t := EmitArray(heap, a, seen);
        case ObjectNode(members) => r, t := EmitObject(heap, a, seen);
      }
  }

  method EmitArray(heap: Heap, a: nat, seen: SeenSet) returns (r: Result<Text, EmitError>, ghost t: Tree)
    requires Closed(heap) && seen.addresses <= heap.Keys
    requires a in heap && heap[a].ArrayNode? && a !in seen.addresses
    modifies seen
    ensures old(seen.addresses) <= seen.addresses <= heap.Keys
    ensures r.Success? ==>
              && Emitted(heap, Ref(a), old(seen.addresses), t)
              && r.value == Canonical(Meaning(t))
              && seen.addresses == old(seen.addresses) + Addresses(t)
    ensures r.Failure? ==> forall u :: !Emitted(heap, Ref(a), old(seen.addresses), u)
    decreases heap.Keys - seen.addresses, 0
  {
    var items := heap[a].items;
    ghost var before := seen.addresses;
    seen.addresses := seen.addresses + {a};
    var parts: seq<Text> := [];
    ghost var trees: seq<Tree> := [];
    t := ArrayTree(a, trees);
    for i := 0 to |items|
      invariant |parts| == |trees| == i
      invariant t == ArrayTree(a, trees)
      invariant forall j :: 0 <= j < i ==> parts[j] == Canonical(Meaning(trees[j]))
      invariant ArrayProgress(heap, a, before, seen.addresses, trees) && seen.addresses <= heap.Keys
    {
      ghost var u, now := *, seen.addresses;
      r, u := Emit(heap, items[i], seen);
      if r.Failure? {
        ArrayFails(heap, a, trees, before, now);
        return;
      }
      parts := parts + [r.value];
      GrowArray(heap, a, before, now, trees, u);
      trees := trees + [u];
      t := ArrayTree(a, trees);
    }
    assert ItemTexts(Meaning(t).items) == parts;
    r := Success([LBRACKET] + Join(parts, [COMMA]) + [RBRACKET]);
  }

  /** The first items of the array at `a` have been emitted, and `now` has been seen. */
  ghost predicate ArrayProgress(heap: Heap, a: nat, before: set<nat>, now: set<nat>, trees: seq<Tree>) {
    && a in heap && heap[a].ArrayNode? && |trees| <= |heap[a].items|
    && (forall j :: 0 <= j < |trees| ==> Unfolds(heap, heap[a].items[j], trees[j]))
    && Once(ArrayTree(a, trees))
    && Addresses(ArrayTree(a, trees)) !! before
    && now == before + Addresses(ArrayTree(a, trees))
  }

  /** When an item cannot be emitted, neither can its array: any unfolding of the array
      agrees with the subtrees already produced. */
  lemma ArrayFails(heap: Heap, a: nat, trees: seq<Tree>, before: set<nat>, now: set<nat>)
    requires a in heap && heap[a].ArrayNode? && |trees| < |heap[a].items|
    requires ArrayProgress(heap, a, before, now, trees)
    requires forall u :: !Emitted(heap, heap[a].items[|trees|], now, u)
    ensures forall v :: !Emitted(heap, Ref(a), before, v)
  {
    forall v | Emitted(heap, Ref(a), before, v) ensures false {
      var u := v.items[|trees|];
      assert Unfolds(heap, heap[a].items[|trees|], u);
      forall j | 0 <= j < |trees| ensures trees[j] == v.items[j] {
        UnfoldingUnique(heap, heap[a].items[j], trees[j], v.items[j]);
      }
      assert Addresses(u) <= Addresses(v);
      assert Emitted(heap, heap[a].items[|trees|], now, u);
    }
  }

  lemma ArrayAddresses(a: nat, trees: seq<Tree>, u: Tree)
    ensures Addresses(ArrayTree(a, trees + [u])) == Addresses(ArrayTree(a, trees)) + Addresses(u)
  {
    var grown := trees + [u];
    var old' := Addresses(ArrayTree(a, trees));
    forall x | x in Addresses(u) ensures x in Addresses(ArrayTree(a, grown)) {
      assert grown[|trees|] == u;
    }
    forall x | x in old' ensures x in Addresses(ArrayTree(a, grown)) {
      if x != a {
        var i :| 0 <= i < |trees| && x in Addresses(trees[i]);
        assert grown[i] == trees[i];
      }
    }
    forall x | x in Addresses(ArrayTree(a, grown)) ensures x in old' + Addresses(u) {
      if x != a {
        var i :| 0 <= i < |grown| && x in Addresses(grown[i]);
        assert i < |trees| ==> grown[i] == trees[i];
      }
    }
  }

  lemma {:induction false} GrowArray(heap: Heap, a: nat, before: set<nat>, now: set<nat>, trees: seq<Tree>, u: Tree)
    requires ArrayProgress(heap, a, before, now, trees) && |trees| < |heap[a].items|
    requires Emitted(heap, heap[a].items[|trees|], now, u)
    ensures ArrayProgress(heap, a, before, now + Addresses(u), trees + [u])
  {
    ArrayAddresses(a, trees, u);
  }

  /** The members under `done` that are not `undefined` have been printed, in ascending order. */
  ghost predicate Printed(
      members: map<Text, Slot>, done: seq<Text>, printed: seq<Text>, trees: map<Text, Tree>, parts: seq<Text>) {
    && |parts| == |printed|
    && Ascending(printed)
    && (forall k :: k in printed <==> k in trees)
    && (forall k <- done :: k in members)
    && (forall k :: k in trees <==> k in done && members[k] != Undefined)
    && (forall j :: 0 <= j < |printed| ==> parts[j] == MemberText(printed[j], Meaning(trees[printed[j]])))
  }

  lemma {:induction false} PrintOne(
      members: map<Text, Slot>, keys: seq<Text>, i: nat, printed: seq<Text>, trees: map<Text, Tree>,
      parts: seq<Text>, u: Tree)
    requires Ascending(keys) && i < |keys| && keys[i] in members && members[keys[i]] != Undefined
    requires Printed(members, keys[..i], printed, trees, parts)
    ensures keys[i] !in trees
    ensures Printed(members, keys[..i + 1], printed + [keys[i]], trees[keys[i] := u],
                    parts + [MemberText(keys[i], Meaning(u))])
  {
    var k := keys[i];
    assert keys[..i + 1] == keys[..i] + [k];
    forall l | l in keys[..i] ensures Less(l, k) {
      var j :| 0 <= j < i && keys[j] == l;
    }
    assert k !in trees;
    forall j | 0 <= j < |printed| ensures Less(printed[j], k) {
      assert printed[j] in trees;
    }
  }

  lemma SkipOne(
      members: map<Text, Slot>, keys: seq<Text>, i: nat, printed: seq<Text>, trees: map<Text, Tree>, parts: seq<Text>)
    requires i < |keys| && keys[i] in members && members[keys[i]] == Undefined
    requires Printed(members, keys[..i], printed, trees, parts)
    ensures Printed(members, keys[..i + 1], printed, trees, parts)
  {
    assert keys[..i + 1] == keys[..i] + [keys[i]];
  }

  lemma AllPrinted(
      members: map<Text, Slot>, keys: seq<Text>, printed: seq<Text>, trees: map<Text, Tree>, parts: seq<Text>, a: nat)
    requires Printed(members, keys, printed, trees, parts) && forall k <- members :: k in keys
    ensures trees.Keys == Present(members)
    ensures Canonical(Meaning(ObjectTree(a, trees))) == [LBRACE] + Join(parts, [COMMA]) + [RBRACE]
  {
    AscendingIsSortSet(printed, trees.Keys);
    var j := Meaning(ObjectTree(a, trees));
    assert j.members.Keys == trees.Keys;
    assert MemberTexts(j, printed) == parts;
  }

  method EmitObject(heap: Heap, a: nat, seen: SeenSet) returns (r: Result<Text, EmitError>, ghost t: Tree)
    requires Closed(heap) && seen.addresses <= heap.Keys
    requires a in heap && heap[a].ObjectNode? && a !in seen.addresses
    modifies seen
    ensures old(seen.addresses) <= seen.addresses <= heap.Keys
    ensures r.Success? ==>
              && Emitted(heap, Ref(a), old(seen.addresses), t)
              && r.value == Canonical(Meaning(t))
              && seen.addresses == old(seen.addresses) + Addresses(t)
    ensures r.Failure? ==> forall u :: !Emitted(heap, Ref(a), old(seen.addresses), u)
    decreases heap.Keys - seen.addresses, 0
  {
    var members := heap[a].members;
    ghost var before := seen.addresses;
    seen.addresses := seen.addresses + {a};
    var keys := SortedElements(members.Keys);
    SortSetAscending(members.Keys);
    var parts: seq<Text> := [];
    ghost var printed: seq<Text> := [];
    ghost var trees: map<Text, Tree> := map[];
    t := ObjectTree(a, trees);
    StartObject(heap, a, before, keys);
    for i := 0 to |keys|
      invariant t == ObjectTree(a, trees)
      invariant Printed(members, keys[..i], printed, trees, parts)
      invariant ObjectProgress(heap, a, before, seen.addresses, trees) && seen.addresses <= heap.Keys
    {
      var k := keys[i];
      if members[k] == Undefined {
        SkipOne(members, keys, i, printed, trees, parts);
        continue;
      }
      ghost var u, now := *, seen.addresses;
      r, u := Emit(heap, members[k], seen);
      if r.Failure? {
        ObjectFails(heap, a, trees, k, before, now);
        return;
      }
      PrintOne(members, keys, i, printed, trees, parts, u);
      GrowObject(heap, a, before, now, trees, k, u);
      parts := parts + [Quote(k) + [COLON] + r.value];
      trees := trees[k := u];
      printed := printed + [k];
      t := ObjectTree(a, trees);
    }
    assert keys[..|keys|] == keys;
    AllPrinted(members, keys, printed, trees, parts, a);
    r := Success([LBRACE] + Join(parts, [COMMA]) + [RBRACE]);
  }

  /** The members in `trees` of the object at `a` have been emitted, and `now` has been seen. */
  ghost predicate ObjectProgress(heap: Heap, a: nat, before: set<nat>, now: set<nat>, trees: map<Text, Tree>) {
    && a in heap && heap[a].ObjectNode? && trees.Keys <= Present(heap[a].members)
    && (forall k <- trees :: Unfolds(heap, heap[a].members[k], trees[k]))
    && Once(ObjectTree(a, trees))
    && Addresses(ObjectTree(a, trees)) !! before
    && now == before + Addresses(ObjectTree(a, trees))
  }

  lemma StartObject(heap: Heap, a: nat, before: set<nat>, keys: seq<Text>)
    requires a in heap && heap[a].ObjectNode? && a !in before
    ensures ObjectProgress(heap, a, before, before + {a}, map[])
    ensures Printed(heap[a].members, keys[..0], [], map[], [])
  {
  }

  lemma ObjectFails(heap: Heap, a: nat, trees: map<Text, Tree>, k: Text, before: set<nat>, now: set<nat>)
    requires ObjectProgress(heap, a, before, now, trees)
    requires k in Present(heap[a].members) && k !in trees
    requires forall u :: !Emitted(heap, heap[a].members[k], now, u)
    ensures forall v :: !Emitted(heap, Ref(a), before, v)
  {
    forall v | Emitted(heap, Ref(a), before, v) ensures false {
      var u := v.members[k];
      assert Unfolds(heap, heap[a].members[k], u);
      forall l | l in trees ensures l in v.members && trees[l] == v.members[l] {
        UnfoldingUnique(heap, heap[a].members[l], trees[l], v.members[l]);
      }
      assert Addresses(u) <= Addresses(v);
      assert Emitted(heap, heap[a].members[k], now, u);
    }
  }

  lemma ObjectAddresses(a: nat, trees: map<Text, Tree>, k: Text, u: Tree)
    requires k !in trees
    ensures Addresses(ObjectTree(a, trees[k := u])) == Addresses(ObjectTree(a, trees)) + Addresses(u)
  {
    var grown := trees[k := u];
    var old' := Addresses(ObjectTree(a, trees));
    forall x | x in Addresses(u) ensures x in Addresses(ObjectTree(a, grown)) {
      assert grown[k] == u;
    }
    forall x | x in old' ensures x in Addresses(ObjectTree(a, grown)) {
      if x != a {
        var l :| l in trees && x in Addresses(trees[l]);
        assert grown[l] == trees[l];
      }
    }
    forall x | x in Addresses(ObjectTree(a, grown)) ensures x in old' + Addresses(u) {
      if x != a {
        var l :| l in grown && x in Addresses(grown[l]);
        assert l != k ==> grown[l] == trees[l];
      }
    }
  }

  lemma {:induction false} GrowObject(
      heap: Heap, a: nat, before: set<nat>, now: set<nat>, trees: map<Text, Tree>, k: Text, u: Tree)
    requires ObjectProgress(heap, a, before, now, trees)
    requires k in Present(heap[a].members) && k !in trees
    requires Emitted(heap, heap[a].members[k], now, u)
    ensures ObjectProgress(heap, a, before, now + Addresses(u), trees[k := u])
  {
    ObjectAddresses(a, trees, k, u);
  }

  /** The public entry: a fresh `seen` set, so sharing inside the graph is all that matters. */
  method CanonicalJson(heap: Heap, slot: Slot) returns (r: Result<Text, EmitError>)
    requires Closed(heap) && InHeap(heap, slot)
    ensures r.Success? <==> exists t :: Unfolds(heap, slot, t) && Once(t)
    ensures forall t :: Unfolds(heap, slot, t) && Once(t) ==> r == Success(Canonical(Meaning(t)))
  {
    var seen := new SeenSet();
    ghost var t;
    r, t := Emit(heap, slot, seen);
    if r.Success? {
      assert Unfolds(heap, slot, t) && Once(t);
      forall u | Unfolds(heap, slot, u) ensures u == t {
        UnfoldingUnique(heap, slot, t, u);
      }
    } else {
      forall u | Unfolds(heap, slot, u) && Once(u) ensures false {
        assert Emitted(heap, slot, {}, u);
      }
    }
  }
}
