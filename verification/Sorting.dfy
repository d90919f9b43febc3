/** The language's stable array sort, and what a sorted sequence of strings is. */
module Sorting {
  import opened Texts

  ghost predicate TotalPreorder<T(!new)>(le: (T, T) -> bool) {
    && (forall x, y :: le(x, y) || le(y, x))
    && (forall x, y, z :: le(x, y) && le(y, z) ==> le(x, z))
  }

  ghost predicate Sorted<T>(le: (T, T) -> bool, s: seq<T>) {
    forall i, j :: 0 <= i < j < |s| ==> le(s[i], s[j])
  }

  ghost predicate Distinct<T>(s: seq<T>) {
    forall i, j :: 0 <= i < j < |s| ==> s[i] != s[j]
  }

  /** Puts `x` before the first element it is not greater than. */
  function Insert<T>(le: (T, T) -> bool, x: T, s: seq<T>): (r: seq<T>)
    ensures multiset(r) == multiset{x} + multiset(s)
    ensures |r| == |s| + 1
  {
    if s == [] || le(x, s[0]) then [x] + s
    else
      assert s == [s[0]] + s[1..];
      [s[0]] + Insert(le, x, s[1..])
  }

  /** `s.sort(compare)`, where `le(a, b)` is `compare(a, b) <= 0`. */
  function Sort<T>(le: (T, T) -> bool, s: seq<T>): (r: seq<T>)
    ensures multiset(r) == multiset(s)
    ensures |r| == |s|
  {
    if s == [] then []
    else
      assert s == [s[0]] + s[1..];
      Insert(le, s[0], Sort(le, s[1..]))
  }

  lemma SortMembers<T>(le: (T, T) -> bool, s: seq<T>)
    ensures forall x :: x in Sort(le, s) <==> x in s
  {
    assert forall x :: x in Sort(le, s) <==> x in multiset(Sort(le, s));
    assert forall x :: x in s <==> x in multiset(s);
  }

  lemma {:induction false} InsertSorted<T(!new)>(le: (T, T) -> bool, x: T, s: seq<T>)
    requires TotalPreorder(le) && Sorted(le, s)
    ensures Sorted(le, Insert(le, x, s))
  {
    if s == [] {
    } else if le(x, s[0]) {
      forall j | 0 <= j < |s| ensures le(x, s[j]) {
        assert j == 0 || le(s[0], s[j]);
      }
    } else {
      InsertSorted(le, x, s[1..]);
      var tail := Insert(le, x, s[1..]);
      forall j | 0 <= j < |tail| ensures le(s[0], tail[j]) {
        assert tail[j] in multiset(tail);
        assert tail[j] == x || tail[j] in multiset(s[1..]);
        if tail[j] != x {
          assert tail[j] in s[1..];
        }
      }
    }
  }

  /** A sorted list stays sorted when an element not before its last one is appended. */
  lemma SortedAppend<T(!new)>(le: (T, T) -> bool, s: seq<T>, i: nat)
    requires TotalPreorder(le) && 0 < i < |s| && Sorted(le, s[..i]) && le(s[i - 1], s[i])
    ensures Sorted(le, s[..i + 1])
  {
    forall j | 0 <= j < i ensures le(s[j], s[i]) {
      assert j < i - 1 ==> le(s[..i][j], s[..i][i - 1]);
    }
  }

  lemma {:induction false} SortSorts<T(!new)>(le: (T, T) -> bool, s: seq<T>)
    requires TotalPreorder(le)
    ensures Sorted(le, Sort(le, s))
  {
    if s == [] {
    } else {
      SortSorts(le, s[1..]);
      InsertSorted(le, s[0], Sort(le, s[1..]));
    }
  }

  /** The elements of `s` that compare equal to `x`, in their order. */
  function Equals<T>(le: (T, T) -> bool, x: T, s: seq<T>): seq<T> {
    if s == [] then []
    else (if le(x, s[0]) && le(s[0], x) then [s[0]] else []) + Equals(le, x, s[1..])
  }

  lemma EqualsCons<T(!new)>(le: (T, T) -> bool, x: T, y: T, s: seq<T>)
    ensures Equals(le, x, [y] + s) == (if le(x, y) && le(y, x) then [y] else []) + Equals(le, x, s)
  {
    assert ([y] + s)[1..] == s;
  }

  lemma {:induction false} EqualsConcatStep<T(!new)>(le: (T, T) -> bool, x: T, y: T, rest: seq<T>, b: seq<T>)
    requires Equals(le, x, rest + b) == Equals(le, x, rest) + Equals(le, x, b)
    ensures Equals(le, x, [y] + rest + b) == Equals(le, x, [y] + rest) + Equals(le, x, b)
  {
    EqualsCons(le, x, y, rest);
    EqualsCons(le, x, y, rest + b);
    ConcatAssociative([y], rest, b);
    ConcatAssociative(if le(x, y) && le(y, x) then [y] else [], Equals(le, x, rest), Equals(le, x, b));
  }

  lemma {:induction false} EqualsConcat<T(!new)>(le: (T, T) -> bool, x: T, a: seq<T>, b: seq<T>)
    ensures Equals(le, x, a + b) == Equals(le, x, a) + Equals(le, x, b)
  {
    if a == [] {
      assert a + b == b;
    } else {
      EqualsConcat(le, x, a[1..], b);
      EqualsConcatStep(le, x, a[0], a[1..], b);
      assert a == [a[0]] + a[1..];
    }
  }

  /** Element `i` is the first to compare equal to `x`. */
  ghost predicate IsFirstEqual<T>(le: (T, T) -> bool, x: T, s: seq<T>, i: nat) {
    && i < |s| && le(x, s[i]) && le(s[i], x)
    && forall j :: 0 <= j < i ==> !(le(x, s[j]) && le(s[j], x))
  }

  lemma {:induction false} FirstEqualLeads<T(!new)>(le: (T, T) -> bool, x: T, s: seq<T>, i: nat)
    requires IsFirstEqual(le, x, s, i)
    ensures Equals(le, x, s) != [] && Equals(le, x, s)[0] == s[i]
    decreases i
  {
    if i == 0 {
    } else {
      assert !(le(x, s[0]) && le(s[0], x));
      FirstEqualLeads(le, x, s[1..], i - 1);
    }
  }

  lemma {:induction false} LeadIsFirstEqual<T(!new)>(le: (T, T) -> bool, x: T, s: seq<T>) returns (i: nat)
    requires Equals(le, x, s) != []
    ensures IsFirstEqual(le, x, s, i) && Equals(le, x, s)[0] == s[i]
    decreases |s|
  {
    if le(x, s[0]) && le(s[0], x) {
      i := 0;
    } else {
      i := LeadIsFirstEqual(le, x, s[1..]);
      i := i + 1;
    }
  }

  /** Two neighbours of which at most one compares equal to `x` may change places. */
  lemma EqualsSwap<T(!new)>(le: (T, T) -> bool, x: T, y: T, z: T, s: seq<T>)
    requires !(le(x, y) && le(y, x)) || !(le(x, z) && le(z, x))
    ensures Equals(le, x, [y] + ([z] + s)) == Equals(le, x, [z] + ([y] + s))
  {
    EqualsCons(le, x, y, [z] + s);
    EqualsCons(le, x, z, s);
    EqualsCons(le, x, z, [y] + s);
    EqualsCons(le, x, y, s);
  }

  lemma {:induction false} InsertStable<T(!new)>(le: (T, T) -> bool, x: T, y: T, s: seq<T>)
    requires forall a, b :: le(a, x) && le(x, b) ==> le(a, b)
    ensures Equals(le, x, Insert(le, y, s)) == Equals(le, x, [y] + s)
  {
    if s == [] || le(y, s[0]) {
    } else {
      var z, rest := s[0], s[1..];
      InsertStable(le, x, y, rest);
      EqualsCons(le, x, z, Insert(le, y, rest));
      EqualsCons(le, x, z, [y] + rest);
      EqualsSwap(le, x, y, z, rest);
      assert s == [z] + rest;
    }
  }

  /** Sorting is stable: it never reorders elements that compare equal. */
  lemma {:induction false} SortStable<T(!new)>(le: (T, T) -> bool, x: T, s: seq<T>)
    requires TotalPreorder(le)
    ensures Equals(le, x, Sort(le, s)) == Equals(le, x, s)
  {
    if s == [] {
    } else {
      var y, rest := s[0], s[1..];
      SortStable(le, x, rest);
      InsertStable(le, x, y, Sort(le, rest));
      EqualsCons(le, x, y, Sort(le, rest));
      EqualsCons(le, x, y, rest);
      assert s == [y] + rest;
    }
  }

  /** Two sorted arrangements of one multiset start alike. */
  lemma SortedHeads<T(!new)>(le: (T, T) -> bool, s: seq<T>, t: seq<T>)
    requires Sorted(le, s) && Sorted(le, t) && s != [] && t != []
    requires multiset(s) == multiset(t)
    requires forall x, y :: x in s && y in s && le(x, y) && le(y, x) ==> x == y
    ensures s[0] == t[0]
  {
    assert s[0] in multiset(t) && t[0] in multiset(s);
    var i :| 0 <= i < |t| && t[i] == s[0];
    var j :| 0 <= j < |s| && s[j] == t[0];
    assert i != 0 ==> le(t[0], t[i]);
    assert j != 0 ==> le(s[0], s[j]);
  }

  lemma MultisetOfTail<T>(s: seq<T>)
    requires s != []
    ensures s == [s[0]] + s[1..]
    ensures multiset(s[1..]) == multiset(s) - multiset{s[0]}
  {
    assert s == [s[0]] + s[1..];
  }

  /** A multiset has one sorted arrangement when elements that compare equal are equal. */
  lemma {:induction false} SortedUnique<T(!new)>(le: (T, T) -> bool, s: seq<T>, t: seq<T>)
    requires Sorted(le, s) && Sorted(le, t)
    requires multiset(s) == multiset(t)
    requires forall x, y :: x in s && y in s && le(x, y) && le(y, x) ==> x == y
    ensures s == t
  {
    assert |s| == |multiset(s)| == |multiset(t)| == |t|;
    if s == [] {
    } else {
      SortedHeads(le, s, t);
      var s', t' := s[1..], t[1..];
      MultisetOfTail(s);
      MultisetOfTail(t);
      SortedUnique(le, s', t');
    }
  }

  /** Sorting what is sorted already changes nothing. */
  lemma {:induction false} SortOfSorted<T(!new)>(le: (T, T) -> bool, s: seq<T>)
    requires Sorted(le, s)
    ensures Sort(le, s) == s
  {
    if s == [] {
    } else {
      SortOfSorted(le, s[1..]);
      assert s == [s[0]] + s[1..];
      assert |s| > 1 ==> le(s[0], s[1]);
    }
  }

  function Map<T, U>(f: T -> U, s: seq<T>): (r: seq<U>)
    ensures |r| == |s| && forall i :: 0 <= i < |s| ==> r[i] == f(s[i])
  {
    if s == [] then [] else [f(s[0])] + Map(f, s[1..])
  }

  lemma MapCons<T, U>(f: T -> U, x: T, s: seq<T>)
    ensures Map(f, [x] + s) == [f(x)] + Map(f, s)
  {
    assert ([x] + s)[1..] == s;
  }

  lemma MapAppend<T, U>(f: T -> U, s: seq<T>, x: T)
    ensures Map(f, s + [x]) == Map(f, s) + [f(x)]
  {
  }

  lemma {:induction false} InsertMap<T(!new), U(!new)>(
      le: (T, T) -> bool, le': (U, U) -> bool, f: T -> U, x: T, s: seq<T>)
    requires forall x, y :: le(x, y) == le'(f(x), f(y))
    ensures Map(f, Insert(le, x, s)) == Insert(le', f(x), Map(f, s))
  {
    if s == [] || le(x, s[0]) {
      MapCons(f, x, s);
    } else {
      InsertMap(le, le', f, x, s[1..]);
      MapCons(f, s[0], Insert(le, x, s[1..]));
      assert Map(f, s)[1..] == Map(f, s[1..]);
    }
  }

  /** Sorting commutes with a map that does not change how elements compare. */
  lemma {:induction false} SortMap<T(!new), U(!new)>(le: (T, T) -> bool, le': (U, U) -> bool, f: T -> U, s: seq<T>)
    requires forall x, y :: le(x, y) == le'(f(x), f(y))
    ensures Map(f, Sort(le, s)) == Sort(le', Map(f, s))
  {
    if s == [] {
    } else {
      SortMap(le, le', f, s[1..]);
      InsertMap(le, le', f, s[0], Sort(le, s[1..]));
      assert Map(f, s)[1..] == Map(f, s[1..]);
    }
  }

  // ---------------------------------------------------------- strings as first met

  /** The strings of a list without repetition, each where it is first met: the order of the
      keys of the language's maps. */
  function FirstMet(s: seq<Text>): seq<Text> {
    if s == [] then [] else Met(FirstMet(s[..|s| - 1]), s[|s| - 1])
  }

  function Met(met: seq<Text>, x: Text): seq<Text> {
    if x in met then met else met + [x]
  }

  lemma FirstMetAppend(s: seq<Text>, x: Text)
    ensures FirstMet(s + [x]) == Met(FirstMet(s), x)
  {
    assert (s + [x])[..|s|] == s;
  }

  lemma {:induction false} FirstMetContents(s: seq<Text>)
    ensures Distinct(FirstMet(s))
    ensures forall x :: x in FirstMet(s) <==> x in s
  {
    if s == [] {
    } else {
      FirstMetContents(s[..|s| - 1]);
      assert s == s[..|s| - 1] + [s[|s| - 1]];
    }
  }

  /** Of two strings the one first met earlier comes earlier. */
  lemma {:induction false} FirstMetOrder(s: seq<Text>, i: nat, j: nat) returns (p: nat, q: nat)
    requires i < j < |s| && s[i] !in s[..i] && s[j] !in s[..j]
    ensures p < q < |FirstMet(s)| && FirstMet(s)[p] == s[i] && FirstMet(s)[q] == s[j]
  {
    var front := s[..|s| - 1];
    FirstMetContents(front);
    if j < |s| - 1 {
      assert front[..i] == s[..i] && front[..j] == s[..j];
      p, q := FirstMetOrder(front, i, j);
    } else {
      assert front == s[..j] && front[i] == s[i];
      assert s[i] in front;
      p :| 0 <= p < |FirstMet(front)| && FirstMet(front)[p] == s[i];
      q := |FirstMet(front)|;
    }
  }

  // ------------------------------------------------------------ sets of strings

  ghost predicate Ascending(s: seq<Text>) {
    forall i, j :: 0 <= i < j < |s| ==> Less(s[i], s[j])
  }

  ghost predicate IsEnumeration(r: seq<Text>, s: set<Text>) {
    Ascending(r) && forall k :: k in r <==> k in s
  }

  /** `[...set].sort()` */
  ghost function SortSet(s: set<Text>): (r: seq<Text>)
    ensures forall k :: k in r <==> k in s
  {
    EnumerationExists(s);
    var r :| IsEnumeration(r, s);
    r
  }

  lemma {:induction false} EnumerationExists(s: set<Text>)
    ensures exists r :: IsEnumeration(r, s)
  {
    if s == {} {
      assert IsEnumeration([], s);
    } else {
      var e :| e in s;
      EnumerationExists(s - {e});
      var r :| IsEnumeration(r, s - {e});
      InsertAscending(e, r);
      var grown := Insert(Leq, e, r);
      assert forall k :: k in grown <==> k in multiset(grown);
      assert forall k :: k in r <==> k in multiset(r);
      assert IsEnumeration(grown, s);
    }
  }

  lemma TextPreorder()
    ensures TotalPreorder(Leq)
  {
    LeqIsTotalOrder();
  }

  lemma InsertAscending(e: Text, s: seq<Text>)
    requires Ascending(s) && e !in s
    ensures Ascending(Insert(Leq, e, s))
  {
    TextPreorder();
    InsertSorted(Leq, e, s);
    InsertDistinct(Leq, e, s);
  }

  lemma SortSetAscending(s: set<Text>)
    ensures Ascending(SortSet(s))
    ensures |SortSet(s)| == |s|
  {
    DistinctSize(SortSet(s), s);
  }

  lemma {:induction false} DistinctSize(r: seq<Text>, s: set<Text>)
    requires IsEnumeration(r, s)
    ensures |r| == |s|
  {
    if r == [] {
      assert s == {};
    } else {
      var last := r[|r| - 1];
      var front := r[..|r| - 1];
      assert r == front + [last];
      assert forall i :: 0 <= i < |front| ==> Less(r[i], last);
      assert last !in front;
      DistinctSize(front, s - {last});
    }
  }

  lemma {:induction false} InsertDistinct<T>(le: (T, T) -> bool, e: T, s: seq<T>)
    requires e !in s && Distinct(s)
    ensures Distinct(Insert(le, e, s))
  {
    if s == [] || le(e, s[0]) {
    } else {
      InsertDistinct(le, e, s[1..]);
      var tail := Insert(le, e, s[1..]);
      assert s[0] !in s[1..];
      assert s[0] !in multiset(s[1..]);
      assert s[0] !in multiset(tail);
    }
  }

  lemma {:induction false} SortDistinct<T>(le: (T, T) -> bool, s: seq<T>)
    requires Distinct(s)
    ensures Distinct(Sort(le, s))
  {
    if s == [] {
    } else {
      SortDistinct(le, s[1..]);
      assert s[0] !in s[1..];
      SortMembers(le, s[1..]);
      InsertDistinct(le, s[0], Sort(le, s[1..]));
    }
  }

  lemma {:induction false} DistinctCount<T>(s: seq<T>, x: T)
    requires Distinct(s)
    ensures multiset(s)[x] <= 1
  {
    if s == [] {
    } else {
      DistinctCount(s[1..], x);
      assert s == [s[0]] + s[1..];
      assert s[0] !in s[1..];
      assert s[0] !in multiset(s[1..]);
    }
  }

  lemma TwiceCounted<T>(s: seq<T>, i: nat, j: nat)
    requires i < j < |s| && s[i] == s[j]
    ensures multiset(s)[s[i]] >= 2
  {
    assert s == s[..j] + s[j..] && s[j..] == [s[j]] + s[j + 1..];
    assert s[..j][i] == s[i];
    assert s[i] in multiset(s[..j]);
  }

  /** Rearranging keeps elements distinct. */
  lemma RearrangedDistinct<T>(r: seq<T>, s: seq<T>)
    requires multiset(s) == multiset(r) && Distinct(r)
    ensures Distinct(s)
  {
    forall i, j | 0 <= i < j < |s| ensures s[i] != s[j] {
      DistinctCount(r, s[i]);
      if s[i] == s[j] {
        TwiceCounted(s, i, j);
        assert false;
      }
    }
  }

  /** A set of strings has exactly one ascending enumeration. */
  lemma {:induction false} AscendingUnique(s: seq<Text>, t: seq<Text>)
    requires Ascending(s) && Ascending(t)
    requires forall x :: x in s <==> x in t
    ensures s == t
  {
    LeqIsTotalOrder();
    assert s != [] ==> s[0] in s;
    assert t != [] ==> t[0] in t;
    if s == [] {
    } else {
      assert s[0] == t[0];
      forall x ensures x in s[1..] <==> x in t[1..] {
        assert x in s[1..] ==> x in s && x != s[0];
        assert x in t[1..] ==> x in t && x != t[0];
        assert x in s ==> x == s[0] || x in s[1..];
        assert x in t ==> x == t[0] || x in t[1..];
      }
      AscendingUnique(s[1..], t[1..]);
      assert s == [s[0]] + s[1..] && t == [t[0]] + t[1..];
    }
  }

  lemma AscendingIsSortSet(s: seq<Text>, elements: set<Text>)
    requires Ascending(s) && forall x :: x in s <==> x in elements
    ensures s == SortSet(elements)
  {
    SortSetAscending(elements);
    AscendingUnique(s, SortSet(elements));
  }

  /** Distinct texts, sorted, are the ascending list of their set. */
  lemma SortEnumerates(s: seq<Text>, elements: set<Text>)
    requires Distinct(s)
    requires forall x :: x in s <==> x in elements
    ensures Sort(Leq, s) == SortSet(elements)
  {
    TextPreorder();
    SortSorts(Leq, s);
    SortDistinct(Leq, s);
    SortMembers(Leq, s);
    AscendingIsSortSet(Sort(Leq, s), elements);
  }

  /** `[...set].sort()`, run. */
  method SortedElements(s: set<Text>) returns (r: seq<Text>)
    ensures r == SortSet(s)
  {
    r := [];
    var rest := s;
    TextPreorder();
    LeqIsTotalOrder();
    while rest != {}
      invariant rest <= s
      invariant forall k :: k in r <==> k in s - rest
      invariant Ascending(r)
      decreases rest
    {
      var e :| e in rest;
      InsertAscending(e, r);
      var grown := Insert(Leq, e, r);
      assert forall k :: k in grown <==> k in multiset(grown);
      assert forall k :: k in r <==> k in multiset(r);
      r := grown;
      rest := rest - {e};
    }
    AscendingIsSortSet(r, s);
  }
}
