/** Graph nodes and edges, edge ids, and the hash of a graph's surface with the proof that
    the hashed text determines the graph. The hash function is a parameter. */
module GraphSurface {
  import opened Json
  import opened JsonDecode
  import opened Results
  import opened Sorting
  import opened Texts

  /** A node; its type is always `package`. */
  datatype Node = Node(id: Text)

  datatype Edge = Edge(id: Text, from: Text, to: Text, edgeType: Text)

  datatype RawEdge = RawEdge(from: Text, to: Text, edgeType: Option<Text>)

  datatype Topology = Topology(version: Text, hash: Text, nodes: seq<Node>, edges: seq<Edge>)

  const DEFAULT_EDGE_TYPE: Text := Ascii("workspace_dependency")

  function EdgeId(sha: Hash, from: Text, to: Text, edgeType: Text): Text {
    var digest := sha(from + [BAR] + to + [BAR] + edgeType);
    Ascii("e_") + if |digest| >= 8 then digest[..8] else digest
  }

  // ------------------------------------------------------------------- surface hash

  /** `JSON.stringify` of a list, given the text of one element. */
  function ListText<T>(f: T -> Text, items: seq<T>): Text {
    [LBRACKET] + Join(Map(f, items), [COMMA]) + [RBRACKET]
  }

  function NodeText(n: Node): Text {
    Ascii("{\"id\":") + Quote(n.id) + Ascii(",\"type\":\"package\"}")
  }

  function EdgeText(e: Edge): Text {
    Ascii("{\"id\":") + Quote(e.id) + Ascii(",\"from\":") + Quote(e.from) +
    Ascii(",\"to\":") + Quote(e.to) + Ascii(",\"type\":") + Quote(e.edgeType) + [RBRACE]
  }

  function SurfaceText(nodes: seq<Node>, edges: seq<Edge>): Text {
    ListText(NodeText, nodes) + [NEWLINE] + ListText(EdgeText, edges)
  }

  function GraphSurfaceHash(sha: Hash, nodes: seq<Node>, edges: seq<Edge>): Text {
    sha(SurfaceText(nodes, edges))
  }

  /** The text of one value tells where it ends and which value it is. */
  ghost predicate SelfDelimiting<T(!new)>(f: T -> Text) {
    && (forall p :: f(p) != [] && f(p)[0] == LBRACE)
    && (forall p, q, x, y :: f(p) + x == f(q) + y ==> p == q && x == y)
  }

  lemma {:induction false} EscapedSelfDelimiting(s: Text, t: Text, x: Text, y: Text)
    requires Escape(s) + [QUOTE] + x == Escape(t) + [QUOTE] + y
    ensures s == t && x == y
  {
    StringRoundTrip(s, x);
    StringRoundTrip(t, y);
  }

  lemma AfterOpeningQuote(body: Text, x: Text)
    ensures ([QUOTE] + body + [QUOTE] + x)[1..] == body + [QUOTE] + x
  {
  }

  /** Two string literals that start alike are the same literal. */
  lemma {:induction false} QuoteSelfDelimiting(s: Text, t: Text, x: Text, y: Text)
    requires Quote(s) + x == Quote(t) + y
    ensures s == t && x == y
  {
    AfterOpeningQuote(Escape(s), x);
    AfterOpeningQuote(Escape(t), y);
    EscapedSelfDelimiting(s, t, x, y);
  }

  lemma SamePrefix(p: Text, x: Text, y: Text)
    requires p + x == p + y
    ensures x == y
  {
    assert (p + x)[|p|..] == x;
    assert (p + y)[|p|..] == y;
  }

  lemma NodeTextPieces(n: Node, x: Text)
    ensures NodeText(n) + x == Ascii("{\"id\":") + (Quote(n.id) + (Ascii(",\"type\":\"package\"}") + x))
  {
    ConcatAssociative(Ascii("{\"id\":"), Quote(n.id), Ascii(",\"type\":\"package\"}"));
    ConcatAssociative(Ascii("{\"id\":"), Quote(n.id) + Ascii(",\"type\":\"package\"}"), x);
    ConcatAssociative(Quote(n.id), Ascii(",\"type\":\"package\"}"), x);
  }

  lemma NodeTextSelfDelimiting()
    ensures SelfDelimiting(NodeText)
  {
    forall p, q, x, y | NodeText(p) + x == NodeText(q) + y ensures p == q && x == y {
      NodeTextPieces(p, x);
      NodeTextPieces(q, y);
      var tail := Ascii(",\"type\":\"package\"}");
      SamePrefix(Ascii("{\"id\":"), Quote(p.id) + (tail + x), Quote(q.id) + (tail + y));
      QuoteSelfDelimiting(p.id, q.id, tail + x, tail + y);
      SamePrefix(tail, x, y);
    }
  }

  /** A fixed piece, a string literal, and what follows them. */
  function Field(name: Text, value: Text, rest: Text): Text {
    name + (Quote(value) + rest)
  }

  lemma FieldSelfDelimiting(name: Text, s: Text, t: Text, x: Text, y: Text)
    requires Field(name, s, x) == Field(name, t, y)
    ensures s == t && x == y
  {
    SamePrefix(name, Quote(s) + x, Quote(t) + y);
    QuoteSelfDelimiting(s, t, x, y);
  }

  lemma FieldAfter(front: Text, name: Text, value: Text, rest: Text)
    ensures front + name + Quote(value) + rest == front + Field(name, value, rest)
  {
    ConcatAssociative(front + name, Quote(value), rest);
    ConcatAssociative(front, name, Quote(value) + rest);
  }

  lemma EdgeTextPieces(e: Edge, x: Text)
    ensures EdgeText(e) + x ==
            Field(Ascii("{\"id\":"), e.id,
              Field(Ascii(",\"from\":"), e.from,
                Field(Ascii(",\"to\":"), e.to,
                  Field(Ascii(",\"type\":"), e.edgeType, [RBRACE] + x))))
  {
    var front1 := Ascii("{\"id\":") + Quote(e.id);
    var front2 := front1 + Ascii(",\"from\":") + Quote(e.from);
    var front3 := front2 + Ascii(",\"to\":") + Quote(e.to);
    var x4 := [RBRACE] + x;
    var x3 := Field(Ascii(",\"type\":"), e.edgeType, x4);
    var x2 := Field(Ascii(",\"to\":"), e.to, x3);
    var x1 := Field(Ascii(",\"from\":"), e.from, x2);
    ConcatAssociative(front3 + Ascii(",\"type\":") + Quote(e.edgeType), [RBRACE], x);
    FieldAfter(front3, Ascii(",\"type\":"), e.edgeType, x4);
    FieldAfter(front2, Ascii(",\"to\":"), e.to, x3);
    FieldAfter(front1, Ascii(",\"from\":"), e.from, x2);
    ConcatAssociative(Ascii("{\"id\":"), Quote(e.id), x1);
  }

  lemma EdgeTextSelfDelimiting()
    ensures SelfDelimiting(EdgeText)
  {
    forall p, q, x, y | EdgeText(p) + x == EdgeText(q) + y ensures p == q && x == y {
      EdgeTextPieces(p, x);
      EdgeTextPieces(q, y);
      var (x4, y4) := ([RBRACE] + x, [RBRACE] + y);
      var (x3, y3) := (Field(Ascii(",\"type\":"), p.edgeType, x4), Field(Ascii(",\"type\":"), q.edgeType, y4));
      var (x2, y2) := (Field(Ascii(",\"to\":"), p.to, x3), Field(Ascii(",\"to\":"), q.to, y3));
      var (x1, y1) := (Field(Ascii(",\"from\":"), p.from, x2), Field(Ascii(",\"from\":"), q.from, y2));
      FieldSelfDelimiting(Ascii("{\"id\":"), p.id, q.id, x1, y1);
      FieldSelfDelimiting(Ascii(",\"from\":"), p.from, q.from, x2, y2);
      FieldSelfDelimiting(Ascii(",\"to\":"), p.to, q.to, x3, y3);
      FieldSelfDelimiting(Ascii(",\"type\":"), p.edgeType, q.edgeType, x4, y4);
      SamePrefix([RBRACE], x, y);
    }
  }

  /** A list's text after its opening bracket, and what follows the list. */
  function ItemsText<T>(f: T -> Text, items: seq<T>, x: Text): Text {
    Join(Map(f, items), [COMMA]) + [RBRACKET] + x
  }

  /** What comes after the first item. */
  function AfterFirst<T>(f: T -> Text, items: seq<T>, x: Text): Text
    requires items != []
  {
    if |items| == 1 then [RBRACKET] + x else [COMMA] + ItemsText(f, items[1..], x)
  }

  lemma ItemsTextCons<T(!new)>(f: T -> Text, items: seq<T>, x: Text)
    ensures ItemsText(f, items, x) ==
            if items == [] then [RBRACKET] + x else f(items[0]) + AfterFirst(f, items, x)
  {
    if items == [] {
      assert [] + [RBRACKET] + x == [RBRACKET] + x;
    } else {
      JoinedText(Map(f, items), RBRACKET, x);
      assert Map(f, items)[1..] == Map(f, items[1..]);
    }
  }

  /** Whether there is an item can be told from a list's text. */
  lemma ItemsHead<T(!new)>(f: T -> Text, items: seq<T>, x: Text)
    requires SelfDelimiting(f)
    ensures ItemsText(f, items, x)[0] == if items == [] then RBRACKET else LBRACE
  {
    ItemsTextCons(f, items, x);
    if items != [] {
      assert f(items[0]) != [] && f(items[0])[0] == LBRACE;
    }
  }

  /** The first items of lists that print alike are equal, and so is what comes after them. */
  lemma FirstItems<T(!new)>(f: T -> Text, a: seq<T>, b: seq<T>, x: Text, y: Text)
    requires SelfDelimiting(f) && a != [] && b != [] && ItemsText(f, a, x) == ItemsText(f, b, y)
    ensures a[0] == b[0] && AfterFirst(f, a, x) == AfterFirst(f, b, y)
  {
    ItemsTextCons(f, a, x);
    ItemsTextCons(f, b, y);
    assert f(a[0]) + AfterFirst(f, a, x) == f(b[0]) + AfterFirst(f, b, y);
  }

  /** Whether more items follow can be told from what comes after the first. */
  lemma AfterFirsts<T(!new)>(f: T -> Text, a: seq<T>, b: seq<T>, x: Text, y: Text)
    requires a != [] && b != [] && AfterFirst(f, a, x) == AfterFirst(f, b, y)
    ensures |a| == 1 ==> |b| == 1 && x == y
    ensures |a| > 1 ==> |b| > 1 && ItemsText(f, a[1..], x) == ItemsText(f, b[1..], y)
  {
    assert AfterFirst(f, a, x)[0] == AfterFirst(f, b, y)[0];
    if |a| == 1 {
      SamePrefix([RBRACKET], x, y);
    } else {
      SamePrefix([COMMA], ItemsText(f, a[1..], x), ItemsText(f, b[1..], y));
    }
  }

  lemma NoItems<T(!new)>(f: T -> Text, b: seq<T>, x: Text, y: Text)
    requires SelfDelimiting(f) && ItemsText(f, [], x) == ItemsText(f, b, y)
    ensures b == [] && x == y
  {
    ItemsHead(f, [], x);
    ItemsHead(f, b, y);
    ItemsTextCons(f, [], x);
    ItemsTextCons(f, b, y);
    SamePrefix([RBRACKET], x, y);
  }

  lemma {:induction false} ItemsSelfDelimiting<T(!new)>(f: T -> Text, a: seq<T>, b: seq<T>, x: Text, y: Text)
    requires SelfDelimiting(f) && ItemsText(f, a, x) == ItemsText(f, b, y)
    ensures a == b && x == y
    decreases |a|
  {
    if a == [] {
      NoItems(f, b, x, y);
    } else if b == [] {
      NoItems(f, a, y, x);
    } else {
      FirstItems(f, a, b, x, y);
      AfterFirsts(f, a, b, x, y);
      if |a| > 1 {
        ItemsSelfDelimiting(f, a[1..], b[1..], x, y);
      }
      assert a == [a[0]] + a[1..] && b == [b[0]] + b[1..];
    }
  }

  /** The hashed text determines the node and edge lists. */
  lemma SurfaceTextInjective(nodes: seq<Node>, edges: seq<Edge>, nodes': seq<Node>, edges': seq<Edge>)
    ensures SurfaceText(nodes, edges) == SurfaceText(nodes', edges') <==> nodes == nodes' && edges == edges'
  {
    if SurfaceText(nodes, edges) == SurfaceText(nodes', edges') {
      NodeTextSelfDelimiting();
      EdgeTextSelfDelimiting();
      var x, y := [NEWLINE] + ListText(EdgeText, edges), [NEWLINE] + ListText(EdgeText, edges');
      ListTextPrefix(NodeText, nodes, x);
      ListTextPrefix(NodeText, nodes', y);
      ConcatAssociative(ListText(NodeText, nodes), [NEWLINE], ListText(EdgeText, edges));
      ConcatAssociative(ListText(NodeText, nodes'), [NEWLINE], ListText(EdgeText, edges'));
      ItemsSelfDelimiting(NodeText, nodes, nodes', x, y);
      SamePrefix([NEWLINE], ListText(EdgeText, edges), ListText(EdgeText, edges'));
      ListTextPrefix(EdgeText, edges, []);
      ListTextPrefix(EdgeText, edges', []);
      assert ListText(EdgeText, edges) + [] == ListText(EdgeText, edges);
      assert ListText(EdgeText, edges') + [] == ListText(EdgeText, edges');
      ItemsSelfDelimiting(EdgeText, edges, edges', [], []);
    }
  }

  lemma ListTextPrefix<T>(f: T -> Text, items: seq<T>, x: Text)
    ensures (ListText(f, items) + x)[1..] == ItemsText(f, items, x)
  {
  }
}
