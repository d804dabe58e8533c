/**
 What canonicalization keeps: the walk with the stack equals the reference, a
 namespace-aware reader of the output finds the document again, declares nothing
 twice, and the tags are well nested whatever part of the document is visible.
 */
module C14nTheorems {
  import opened Common
  import opened XmlTree
  import A = Attributes
  import E = Escape
  import opened C14n
  import opened C14nReference

  // ---- the stack-based walk refines the reference ----

  lemma ScopeGrows(up: seq<Node>, n: Node)
    requires n.Element?
    ensures Scope(up + [n]) == Bind(Scope(up), n.nsDef)
  {
    assert (up + [n])[..|up|] == up;
  }

  lemma PathGrows(up: seq<Node>, n: Node)
    requires IsPath(up) && PointersInScope(up) && n.Element? && PointerInScope(up + [n])
    ensures IsPath(up + [n]) && PointersInScope(up + [n]) && (up + [n])[..|up|] == up
    ensures Scope(up + [n]) == Bind(Scope(up), n.nsDef)
  {
    ScopeGrows(up, n);
    PointersGrow(up, n);
  }

  lemma PointersGrow(up: seq<Node>, n: Node)
    requires PointersInScope(up) && PointerInScope(up + [n])
    ensures PointersInScope(up + [n])
  {
    hide PointerInScope;
    var path := up + [n];
    forall k | 0 < k <= |path| ensures PointerInScope(path[..k]) {
      if k <= |up| { assert path[..k] == up[..k]; } else { assert path[..k] == path; }
    }
  }

  ghost predicate Ready(c: Config, st: State, up: seq<Node>, out: Bindings)
  {
    && AllVisible(c) && IsPath(up) && PointersInScope(up)
    && Valid(st.stack) && Knows(c, st.stack, Scope(up), out) && (st.parentIsDoc <==> !st.pos.Inside?)
  }

  lemma StartRefines(c: Config, st: State, up: seq<Node>, n: Node, out: Bindings)
    requires Ready(c, st, up, out) && n.Element? && Sound(up, n, c.exclusive)
    ensures var st1 := StartElement(c, st, up, n, true);
            var decls := Decls(c, out, Scope(up + [n]), n);
            && Ready(c, st1, up + [n], out + decls) && st1.pos.Inside?
            && st1.out == st.out + Head(c, up, n, decls)
  {
    hide Knows, Scope, PointersInScope, Sound, Decls, NamespaceAxis, AttrEvents, DeclEvents, SortedOf;
    AxisIsCorrect(c, st.stack, up, n, out);
    var decls := Decls(c, out, Scope(up + [n]), n);
    var tag, attrs := [Open(PrefixOf(n), n.name)], AttrEvents(A.AttrAxis(c.vis, c.exclusive, up, n, true));
    HeadAssoc(st.out, tag, DeclEvents(SortedOf(decls)), attrs, [EndOpen]);
  }

  lemma AxisIsCorrect(c: Config, s: Stack, up: seq<Node>, n: Node, out: Bindings)
    requires AllVisible(c) && IsPath(up) && PointersInScope(up) && n.Element? && Sound(up, n, c.exclusive)
    requires Valid(s) && Knows(c, s, Scope(up), out)
    ensures IsPath(up + [n]) && PointersInScope(up + [n])
    ensures AxisCorrect(c, up + [n], out, NamespaceAxis(c, s, up + [n], true))
  {
    assert (up + [n])[|up|] == n && (up + [n])[..|up|] == up;
    hide Knows, Scope, PointersInScope, PointerInScope, Consistent, ExclusiveAxis, InclusiveAxis, AxisCorrect;
    PathGrows(up, n);
    if c.exclusive {
      ExclusiveAxisCorrect(c, s, up + [n], out);
    } else {
      InclusiveAxisCorrect(c, s, up + [n], out);
    }
  }

  lemma HeadAssoc(out: seq<Event>, a: seq<Event>, b: seq<Event>, d: seq<Event>, e: seq<Event>)
    ensures out + a + b + d + e == out + (a + b + d + e)
  {
  }

  lemma {:induction false} RefinesNode(c: Config, st: State, up: seq<Node>, n: Node, out: Bindings)
    requires Ready(c, st, up, out) && Sound(up, n, c.exclusive)
    ensures var r, e := ProcessNode(c, st, up, n), RefNode(c, Scope(up), out, up, n, st.pos);
            if e.Ok? then r == Ok(State(st.stack, NextPosition(st.pos, n), st.parentIsDoc, st.out + e.value)) else r.Err?
    decreases n, 1
  {
    hide Knows, StartElement, Head, Decls, PointerInScope, PointersInScope, Consistent, Scope, Bind, HasRelative;
    if n.Element? {
      if !HasRelative(c, n) {
        var st1 := StartElement(c, st, up, n, true);
        var inner := Scope(up + [n]);
        var decls := Decls(c, out, inner, n);
        ScopeGrows(up, n);
        StartRefines(c, st, up, n, out);
        RefinesNodes(c, st1, up + [n], n.children, out + decls);
        var kids := RefNodes(c, inner, out + decls, up + [n], n.children, Inside);
        if kids.Ok? {
          var head, tail := Head(c, up, n, decls), [Close(PrefixOf(n), n.name)];
          assert st.out + head + kids.value + tail == st.out + (head + kids.value + tail);
        }
      }
    } else {
      assert st.out + [] == st.out;
    }
  }

  lemma {:induction false} RefinesNodes(c: Config, st: State, up: seq<Node>, nodes: seq<Node>, out: Bindings)
    requires Ready(c, st, up, out) && forall i :: 0 <= i < |nodes| ==> Sound(up, nodes[i], c.exclusive)
    ensures var r, e := ProcessNodes(c, st, up, nodes), RefNodes(c, Scope(up), out, up, nodes, st.pos);
            if e.Ok? then r.Ok? && r.value.stack == st.stack && r.value.out == st.out + e.value
                          && r.value.parentIsDoc == st.parentIsDoc && (st.pos.Inside? ==> r.value.pos.Inside?)
            else r.Err?
    decreases nodes, 0
  {
    hide Knows, Sound, ProcessNode, RefNode, PointersInScope, AllVisible;
    if nodes == [] {
      assert st.out + [] == st.out;
    } else {
      RefinesNode(c, st, up, nodes[0], out);
      var r := ProcessNode(c, st, up, nodes[0]);
      if r.Ok? {
        RefinesNodes(c, r.value, up, nodes[1..], out);
        var a := RefNode(c, Scope(up), out, up, nodes[0], st.pos);
        var b := RefNodes(c, Scope(up), out, up, nodes[1..], r.value.pos);
        if b.Ok? { assert st.out + a.value + b.value == st.out + (a.value + b.value); }
      }
    }
  }

  ghost predicate SoundDocument(doc: Node, strict: bool)
  {
    doc.Document? && forall i :: 0 <= i < |doc.children| ==> Sound([doc], doc.children[i], strict)
  }

  lemma ReadyAtRoot(c: Config, doc: Node)
    requires AllVisible(c) && doc.Document?
    ensures Scope([doc]) == map[] && Ready(c, EMPTY_STATE, [doc], map[])
  {
    assert Scope([doc]) == map[] by { assert [doc][..0] == []; }
    assert PointersInScope([doc]) by {
      forall k | 0 < k <= 1 ensures PointerInScope([doc][..k]) { assert [doc][..k] == [doc]; }
    }
    assert EMPTY_STATE.stack.entries[EMPTY_STATE.stack.prevStart..] == [];
  }

  /** With every node visible, both modes produce exactly the reference output, and
      fail exactly when it does. */
  lemma ExecuteIsReference(c: Config, doc: Node)
    requires AllVisible(c) && SoundDocument(doc, c.exclusive)
    ensures Execute(c, doc) == RefNodes(c, map[], map[], [doc], doc.children, Before)
  {
    hide Knows, Sound, AllVisible, ProcessNodes, RefNodes;
    ReadyAtRoot(c, doc);
    hide Ready;
    RefinesNodes(c, EMPTY_STATE, [doc], doc.children, map[]);
    assert forall x: seq<Event> :: [] + x == x;
  }

  // ---- a namespace-aware reader of the output ----

  datatype Expanded = Expanded(uri: Option<string>, name: string, value: Option<string>)

  datatype Item =
    | Start(uri: Option<string>, name: string, attrs: multiset<Expanded>, scope: Bindings)
    | End
    | TextItem(text: Option<string>)
    | PIItem(name: string, data: string)
    | CommentItem(data: string)

  /** scopes is the stack of bindings in scope; attrs the attributes of the start tag
      being read; redundant records a declaration that repeats its parent's binding; kept are
      the prefixes whose bindings the reader reports, None for all of them. */
  datatype Reader = Reader(scopes: seq<Bindings>, prefix: string, name: string, attrs: seq<Event>,
                           items: seq<Item>, redundant: bool, kept: Option<set<string>>)

  /** xmlns="" means the same as no default namespace. */
  function Norm(scope: Bindings): Bindings
  {
    if "" in scope && scope[""] == "" then scope - {""} else scope
  }

  function Restrict(scope: Bindings, kept: Option<set<string>>): Bindings
  {
    if kept.None? then scope else map p | p in scope && p in kept.value :: scope[p]
  }

  /** The prefixes whose bindings are kept whether used or not: all of them, in exclusive
      mode those of the InclusiveNamespaces PrefixList. */
  function KeptBy(c: Config): Option<set<string>>
  {
    if c.exclusive then Some(Listed(c.inclusivePrefixes)) else None
  }

  function Resolve(scope: Bindings, prefix: string): Option<string>
  {
    if prefix == "xml" then Some(XML_URI) else Lookup(scope, prefix)
  }

  function ReadAttr(scope: Bindings, e: Event): Expanded
    requires e.AttrOut?
  {
    Expanded(if e.prefix == "" then Some("") else Resolve(scope, e.prefix), e.name, E.Decode(e.value))
  }

  function ReadAttrs(scope: Bindings, es: seq<Event>): (r: seq<Expanded>)
    ensures |r| <= |es|
  {
    if es == [] then []
    else if es[0].AttrOut? then [ReadAttr(scope, es[0])] + ReadAttrs(scope, es[1..])
    else ReadAttrs(scope, es[1..])
  }

  function TopScope(r: Reader): Bindings { if r.scopes == [] then map[] else r.scopes[|r.scopes| - 1] }

  function ParentScope(r: Reader): Bindings { if |r.scopes| < 2 then map[] else r.scopes[|r.scopes| - 2] }

  function Read1(r: Reader, e: Event): Reader
  {
    match e
    case Open(p, n) => r.(scopes := r.scopes + [TopScope(r)], prefix := p, name := n, attrs := [])
    case Decl(p, u) =>
      if r.scopes == [] then r
      else r.(scopes := r.scopes[|r.scopes| - 1 := TopScope(r)[p := u]],
              redundant := r.redundant || Lookup(ParentScope(r), p) == Some(u))
    case AttrOut(_, _, _) => r.(attrs := r.attrs + [e])
    case EndOpen =>
      r.(items := r.items + [Start(Resolve(TopScope(r), r.prefix), r.name, multiset(ReadAttrs(TopScope(r), r.attrs)),
                                   Restrict(Norm(TopScope(r)), r.kept))])
    case Close(_, _) =>
      if r.scopes == [] then r else r.(scopes := r.scopes[..|r.scopes| - 1], items := r.items + [End])
    case Chars(t) => r.(items := r.items + [TextItem(E.Decode(t))])
    case PIOut(_, n, d, _) => r.(items := r.items + [PIItem(n, d)])
    case CommentOut(_, d, _) => r.(items := r.items + [CommentItem(d)])
  }

  function Read(r: Reader, es: seq<Event>): Reader
    decreases |es|
  {
    if es == [] then r else Read(Read1(r, es[0]), es[1..])
  }

  lemma {:induction false} ReadConcat(r: Reader, a: seq<Event>, b: seq<Event>)
    ensures Read(r, a + b) == Read(Read(r, a), b)
    decreases |a|
  {
    if a == [] {
      assert a + b == b;
    } else {
      assert (a + b)[1..] == a[1..] + b;
      ReadConcat(Read1(r, a[0]), a[1..], b);
    }
  }

  // ---- the same document as the tree describes it ----

  function ExpandAttr(a: Attr): Expanded
  {
    Expanded(Some(if a.ns.Some? then Uri(a.ns.value) else ""), a.name, Some(Text0(a.value)))
  }

  function ExpandAttrs(attrs: seq<Attr>): (r: seq<Expanded>)
    ensures |r| == |attrs|
  {
    if attrs == [] then [] else [ExpandAttr(attrs[0])] + ExpandAttrs(attrs[1..])
  }

  /** An element as an application sees it: expanded name, expanded attributes and
      the kept bindings in scope. */
  function StartItem(c: Config, up: seq<Node>, n: Node): Item
    requires n.Element?
  {
    Start(Some(if n.ns.Some? then Uri(n.ns.value) else ""), n.name, multiset(ExpandAttrs(n.attrs)),
          Restrict(Norm(Scope(up + [n])), KeptBy(c)))
  }

  function Infoset(c: Config, up: seq<Node>, n: Node): seq<Item>
    decreases n, 1
  {
    match n
    case Element(_, _, _, _, _, children) =>
      [StartItem(c, up, n)] + Infosets(c, up + [n], children) + [End]
    case Text(_, content) => if content.Some? then [TextItem(content)] else []
    case PI(_, name, content) => [PIItem(name, E.EscapeString(E.PIText, Text0(content)))]
    case Comment(_, content) =>
      if c.withComments then [CommentItem(E.EscapeString(E.CommentText, Text0(content)))] else []
    case Document(_, _) => []
    case Ignored(_) => []
    case Invalid(_) => []
  }

  function Infosets(c: Config, up: seq<Node>, nodes: seq<Node>): seq<Item>
    decreases nodes, 0
  {
    if nodes == [] then [] else Infoset(c, up, nodes[0]) + Infosets(c, up, nodes[1..])
  }

  // ---- reading the declarations of one element ----

  lemma {:induction false} ReadDecls(r: Reader, list: seq<(string, string)>)
    requires r.scopes != [] && Sorted(list)
    requires forall p :: p in MapOf(list) ==> Lookup(ParentScope(r), p) != Some(MapOf(list)[p])
    ensures Read(r, DeclEvents(list)) == r.(scopes := r.scopes[|r.scopes| - 1 := TopScope(r) + MapOf(list)])
    decreases |list|
  {
    hide Read, DeclEvents, MapOf, Sorted;
    DeclEventsCons(list);
    if list == [] {
      ReadNothing(r);
      MapOfEmpty(list);
      assert TopScope(r) + MapOf(list) == TopScope(r);
      assert r.scopes[|r.scopes| - 1 := TopScope(r)] == r.scopes;
    } else {
      var (p, u) := list[0];
      MapOfCons(list);
      ReadOneDecl(r, p, u);
      var r1 := r.(scopes := r.scopes[|r.scopes| - 1 := TopScope(r)[p := u]]);
      ReadConcat(r, [Decl(p, u)], DeclEvents(list[1..]));
      ReadDecls(r1, list[1..]);
      assert TopScope(r)[p := u] + MapOf(list[1..]) == TopScope(r) + MapOf(list);
      assert r1.scopes[|r.scopes| - 1 := TopScope(r1) + MapOf(list[1..])]
          == r.scopes[|r.scopes| - 1 := TopScope(r) + MapOf(list)];
    }
  }

  lemma DeclEventsCons(list: seq<(string, string)>)
    ensures list == [] ==> DeclEvents(list) == []
    ensures list != [] ==> DeclEvents(list) == [Decl(list[0].0, list[0].1)] + DeclEvents(list[1..])
  {
  }

  lemma MapOfCons(list: seq<(string, string)>)
    requires list != [] && Sorted(list)
    ensures Sorted(list[1..]) && list[0].0 !in MapOf(list[1..])
    ensures MapOf(list) == MapOf(list[1..])[list[0].0 := list[0].1]
  {
    ListsTail(list);
    assert list[0].0 in MapOf(list);
  }

  lemma ReadOneDecl(r: Reader, p: string, u: string)
    requires r.scopes != [] && Lookup(ParentScope(r), p) != Some(u)
    ensures Read(r, [Decl(p, u)]) == r.(scopes := r.scopes[|r.scopes| - 1 := TopScope(r)[p := u]])
  {
  }

  lemma AttrEventsCons(list: seq<Attr>)
    ensures list == [] ==> AttrEvents(list) == []
    ensures list != [] ==> AttrEvents(list) == [AttrEvent(list[0])] + AttrEvents(list[1..])
  {
  }

  lemma ReadNothing(r: Reader)
    ensures Read(r, []) == r
  {
  }

  lemma ReadOneAttr(r: Reader, a: Attr)
    ensures Read(r, [AttrEvent(a)]) == r.(attrs := r.attrs + [AttrEvent(a)])
  {
  }

  lemma {:induction false} ReadAttrEvents(r: Reader, list: seq<Attr>)
    ensures Read(r, AttrEvents(list)) == r.(attrs := r.attrs + AttrEvents(list))
    decreases |list|
  {
    hide Read, AttrEvents, AttrEvent;
    AttrEventsCons(list);
    if list == [] {
      ReadNothing(r);
      assert r.attrs + [] == r.attrs;
    } else {
      var e, rest := AttrEvent(list[0]), AttrEvents(list[1..]);
      ReadOneAttr(r, list[0]);
      ReadConcat(r, [e], rest);
      ReadAttrEvents(r.(attrs := r.attrs + [e]), list[1..]);
      assert r.attrs + [e] + rest == r.attrs + ([e] + rest);
    }
  }

  /** Every attribute of the list reads back as itself in the given scope. */
  ghost predicate Readable(scope: Bindings, a: Attr)
  {
    a.ns.Some? ==> a.ns.value.prefix != "" && Resolve(scope, a.ns.value.prefix) == Some(Uri(a.ns.value))
  }

  lemma {:induction false} AttrsReadBack(scope: Bindings, list: seq<Attr>)
    requires forall i :: 0 <= i < |list| ==> Readable(scope, list[i])
    ensures ReadAttrs(scope, AttrEvents(list)) == ExpandAttrs(list)
    decreases |list|
  {
    if list != [] {
      var a := list[0];
      assert AttrEvents(list) == [AttrEvent(a)] + AttrEvents(list[1..]);
      E.RoundTrip(E.Attribute, Text0(a.value));
      assert E.EscapeString(E.Attribute, "") == "";
      AttrsReadBack(scope, list[1..]);
    }
  }

  lemma {:induction false} ExpandPermutes(s: seq<Attr>, t: seq<Attr>)
    requires multiset(s) == multiset(t)
    ensures multiset(ExpandAttrs(s)) == multiset(ExpandAttrs(t))
    decreases |s|
  {
    if s == [] {
      assert |multiset(t)| == 0;
    } else {
      var a, b := SplitAtHead(s, t);
      ExpandPermutes(s[1..], a + b);
      ExpandMiddle(a, s[0], b);
    }
  }

  lemma SplitAtHead<T>(s: seq<T>, t: seq<T>) returns (a: seq<T>, b: seq<T>)
    requires s != [] && multiset(s) == multiset(t)
    ensures t == a + [s[0]] + b && multiset(a + b) == multiset(s[1..])
  {
    HeadCounts(s);
    a, b := SplitAt(t, s[0]);
    MiddleCounts(a, s[0], b);
    CancelOne(multiset(a + b), multiset(s[1..]), s[0]);
  }

  lemma HeadCounts<T>(s: seq<T>)
    requires s != []
    ensures s[0] in multiset(s) && multiset(s) == multiset(s[1..]) + multiset{s[0]}
  {
    assert s == [s[0]] + s[1..];
  }

  lemma SplitAt<T>(t: seq<T>, x: T) returns (a: seq<T>, b: seq<T>)
    requires x in multiset(t)
    ensures t == a + [x] + b
  {
    var k :| 0 <= k < |t| && t[k] == x;
    a, b := t[..k], t[k + 1..];
  }

  lemma MiddleCounts<T>(a: seq<T>, x: T, b: seq<T>)
    ensures multiset(a + [x] + b) == multiset(a + b) + multiset{x}
  {
  }

  lemma CancelOne<T>(m: multiset<T>, n: multiset<T>, x: T)
    requires m + multiset{x} == n + multiset{x}
    ensures m == n
  {
    assert m == (m + multiset{x}) - multiset{x};
    assert n == (n + multiset{x}) - multiset{x};
  }

  lemma ExpandMiddle(a: seq<Attr>, x: Attr, b: seq<Attr>)
    ensures multiset(ExpandAttrs(a + [x] + b)) == multiset{ExpandAttr(x)} + multiset(ExpandAttrs(a + b))
  {
    ExpandConcat(a, b);
    ExpandConcat(a, [x]);
    ExpandConcat(a + [x], b);
    assert ExpandAttrs([x]) == [ExpandAttr(x)];
  }

  lemma {:induction false} ExpandConcat(s: seq<Attr>, t: seq<Attr>)
    ensures ExpandAttrs(s + t) == ExpandAttrs(s) + ExpandAttrs(t)
  {
    if s == [] {
      assert s + t == t;
    } else {
      assert (s + t)[1..] == s[1..] + t;
      ExpandConcat(s[1..], t);
    }
  }

  // ---- the output resolves like the input ----

  /** Inclusive mode, any element below a point where output and input agree: they agree
      inside it again, and it declares exactly what differs from its parent. */
  lemma DeclaresTheDifference(c: Config, outer: Bindings, out: Bindings, n: Node)
    requires !c.exclusive && n.Element? && forall p :: Lookup(out, p) == Lookup(outer, p)
    ensures var inner := Bind(outer, n.nsDef);
            var decls := Decls(c, out, inner, n);
            && (forall p :: Lookup(out + decls, p) == Lookup(inner, p))
            && (forall p :: p in decls <==> Lookup(outer, p) != Lookup(inner, p))
  {
    BindKeys(outer, n.nsDef);
    var inner := Bind(outer, n.nsDef);
    forall p ensures p in Decls(c, out, inner, n) <==> Lookup(outer, p) != Lookup(inner, p) {
      assert Lookup(out, p) == Lookup(outer, p);
    }
  }

  lemma NormEqual(a: Bindings, b: Bindings, kept: Option<set<string>>)
    requires forall p :: kept.None? || p in kept.value ==> Lookup(a, p) == Lookup(b, p)
    ensures Restrict(Norm(a), kept) == Restrict(Norm(b), kept)
  {
    forall p ensures p in Restrict(Norm(a), kept) <==> p in Restrict(Norm(b), kept) {
      if kept.None? || p in kept.value { assert Lookup(a, p) == Lookup(b, p); }
    }
    forall p | p in Restrict(Norm(a), kept) ensures Restrict(Norm(a), kept)[p] == Restrict(Norm(b), kept)[p] {
      assert Lookup(a, p) == Lookup(b, p);
    }
  }

  /** Input and output agree on the bindings that are kept. */
  ghost predicate SameScope(c: Config, outer: Bindings, out: Bindings)
  {
    forall p :: KeptBy(c).None? || p in KeptBy(c).value ==> Lookup(out, p) == Lookup(outer, p)
  }

  lemma NamesResolve(c: Config, up: seq<Node>, n: Node, out: Bindings)
    requires IsPath(up) && PointersInScope(up) && n.Element? && Sound(up, n, true)
    requires SameScope(c, Scope(up), out)
    ensures var inner := Scope(up + [n]);
            var out' := out + Decls(c, out, inner, n);
            && SameScope(c, inner, out')
            && Resolve(out', PrefixOf(n)) == Some(if n.ns.Some? then Uri(n.ns.value) else "")
            && forall i :: 0 <= i < |n.attrs| ==> Readable(out', n.attrs[i])
  {
    var path, inner := up + [n], Scope(up + [n]);
    PathGrows(up, n);
    var out' := out + Decls(c, out, inner, n);
    BindKeys(Scope(up), n.nsDef);
    forall p | KeptBy(c).None? || p in KeptBy(c).value ensures Lookup(out', p) == Lookup(inner, p) {
      assert Lookup(out, p) == Lookup(Scope(up), p);
    }
    PrefixResolves(c, path, n.ns, out);
    forall i | 0 <= i < |n.attrs| ensures Readable(out', n.attrs[i]) {
      if n.attrs[i].ns.Some? { PrefixResolves(c, path, n.attrs[i].ns, out); }
    }
  }

  /** A namespace pointer that is in scope in the input resolves to its URI in the
      output scope, if its prefix is wanted or the scopes agree. */
  lemma PrefixResolves(c: Config, path: seq<Node>, ns: Option<Ns>, out: Bindings)
    requires IsPath(path) && path != [] && PointersInScope(path[..|path| - 1]) && path[|path| - 1].Element?
    requires if ns.Some? then SearchNs(path, ns.value.prefix) == ns else Lookup(Scope(path), "") == Some("")
    requires SameScope(c, Scope(path), out + Decls(c, out, Scope(path), path[|path| - 1]))
    requires c.exclusive ==> (if ns.Some? then ns.value.prefix else "") in Utilized(path[|path| - 1]) + {"xml"}
    ensures Resolve(out + Decls(c, out, Scope(path), path[|path| - 1]), if ns.Some? then ns.value.prefix else "")
            == Some(if ns.Some? then Uri(ns.value) else "")
  {
    var p := if ns.Some? then ns.value.prefix else "";
    if p != "xml" {
      hide Decls, SameScope, Utilized, PointersInScope;
      SearchIsScope(path, p, true);
      BoundResolves(c, Scope(path), out, path[|path| - 1], p);
    }
  }

  lemma BoundResolves(c: Config, inner: Bindings, out: Bindings, n: Node, p: string)
    requires p != "xml" && Lookup(inner, p).Some? && SameScope(c, inner, out + Decls(c, out, inner, n))
    requires c.exclusive ==> p in Utilized(n)
    ensures Resolve(out + Decls(c, out, inner, n), p) == Lookup(inner, p)
  {
  }

  // ---- reading a whole subtree ----

  ghost predicate ReadyToRead(c: Config, r: Reader, up: seq<Node>, out: Bindings)
  {
    && AllVisible(c) && IsPath(up) && PointersInScope(up) && SameScope(c, Scope(up), out)
    && TopScope(r) == out && r.kept == KeptBy(c) && !r.redundant
  }

  /** Reading a start tag leaves the new scope on the stack and one item behind. */
  lemma ReadHead(c: Config, r: Reader, up: seq<Node>, n: Node, decls: Bindings)
    requires n.Element? && forall p :: p in decls ==> Lookup(TopScope(r), p) != Some(decls[p])
    ensures var r1 := Read(r, Head(c, up, n, decls));
            var scope := TopScope(r) + decls;
            var list := A.AttrAxis(c.vis, c.exclusive, up, n, true);
            && r1.scopes == r.scopes + [scope] && r1.redundant == r.redundant && r1.kept == r.kept
            && r1.items == r.items + [Start(Resolve(scope, PrefixOf(n)), n.name,
                                            multiset(ReadAttrs(scope, AttrEvents(list))),
                                            Restrict(Norm(scope), r.kept))]
  {
    hide ReadAttrs, Norm, Resolve, A.AttrAxis;
    var list := A.AttrAxis(c.vis, c.exclusive, up, n, true);
    var a, b, d, z := [Open(PrefixOf(n), n.name)], DeclEvents(SortedOf(decls)), AttrEvents(list), [EndOpen];
    ReadConcat(r, a + b + d, z);
    ReadConcat(r, a + b, d);
    ReadConcat(r, a, b);
    var r0 := Read1(r, a[0]);
    assert Read(r, a) == r0;
    assert ParentScope(r0) == TopScope(r);
    ReadDecls(r0, SortedOf(decls));
    var r2 := Read(r0, b);
    ReadAttrEvents(r2, list);
    var r3 := Read(r2, d);
    assert [] + AttrEvents(list) == AttrEvents(list);
    assert Read(r3, z) == Read1(r3, EndOpen);
  }

  lemma ReadStart(c: Config, r: Reader, up: seq<Node>, n: Node, out: Bindings)
    requires ReadyToRead(c, r, up, out) && n.Element? && Sound(up, n, true)
    ensures var decls := Decls(c, out, Scope(up + [n]), n);
            var r1 := Read(r, Head(c, up, n, decls));
            && r1.scopes == r.scopes + [out + decls] && !r1.redundant && r1.kept == r.kept
            && r1.items == r.items + [StartItem(c, up, n)]
  {
    var inner := Scope(up + [n]);
    WantedAreBound(c, up, n);
    NewDeclsDiffer(out, inner, Wanted(c, n, inner));
    NamesResolve(c, up, n, out);
    hide Decls, Head, Read, Sound, Readable, PointersInScope, ReadAttrs, A.AttrAxis, Norm;
    var decls := Decls(c, out, inner, n);
    ReadHead(c, r, up, n, decls);
    AxisReadsBack(c, up, n, out + decls);
    NormEqual(out + decls, inner, KeptBy(c));
  }

  lemma WantedAreBound(c: Config, up: seq<Node>, n: Node)
    requires IsPath(up) && PointersInScope(up) && n.Element? && Sound(up, n, true)
    ensures forall p :: p in Wanted(c, n, Scope(up + [n])) ==> Lookup(Scope(up + [n]), p).Some?
  {
    var path := up + [n];
    PathGrows(up, n);
    forall p | p in Wanted(c, n, Scope(path)) ensures Lookup(Scope(path), p).Some? {
      if p !in Scope(path) && p != "" { SearchIsScope(path, p, true); }
    }
  }

  lemma NewDeclsDiffer(out: Bindings, inner: Bindings, wanted: set<string>)
    requires forall p :: p in wanted ==> Lookup(inner, p).Some?
    ensures var d := NewDecls(out, inner, wanted); forall p :: p in d ==> Lookup(out, p) != Some(d[p])
  {
  }

  lemma AxisReadsBack(c: Config, up: seq<Node>, n: Node, scope: Bindings)
    requires AllVisible(c) && n.Element? && forall i :: 0 <= i < |n.attrs| ==> Readable(scope, n.attrs[i])
    ensures multiset(ReadAttrs(scope, AttrEvents(A.AttrAxis(c.vis, c.exclusive, up, n, true))))
            == multiset(ExpandAttrs(n.attrs))
  {
    var list := A.AttrAxis(c.vis, c.exclusive, up, n, true);
    A.AxisContents(c.vis, c.exclusive, up, n, true);
    AllAreVisible(c, n.addr, n.attrs);
    assert n.attrs + [] == n.attrs;
    forall i | 0 <= i < |list| ensures Readable(scope, list[i]) {
      assert list[i] in multiset(list);
      assert list[i] in multiset(n.attrs);
    }
    AttrsReadBack(scope, list);
    ExpandPermutes(list, n.attrs);
  }

  lemma {:induction false} AllAreVisible(c: Config, owner: Addr, attrs: seq<Attr>)
    requires AllVisible(c)
    ensures A.VisibleAttrs(c.vis, owner, attrs) == attrs
  {
    if attrs != [] { AllAreVisible(c, owner, attrs[1..]); }
  }

  lemma {:induction false} ReadNode(c: Config, r: Reader, up: seq<Node>, n: Node, out: Bindings, pos: Position)
    requires ReadyToRead(c, r, up, out) && Sound(up, n, true)
    requires RefNode(c, Scope(up), out, up, n, pos).Ok?
    ensures var r' := Read(r, RefNode(c, Scope(up), out, up, n, pos).value);
            && r'.scopes == r.scopes && r'.items == r.items + Infoset(c, up, n)
            && !r'.redundant && r'.kept == r.kept
    decreases n, 1
  {
    hide Decls, Head, PointersInScope, PointerInScope, Consistent, StartItem, AllVisible, SameScope, Readable;
    hide RefNodes, Infosets, Scope, Read;
    if n.Element? {
      var inner := Scope(up + [n]);
      PathGrows(up, n);
      var decls := Decls(c, out, inner, n);
      var head := Head(c, up, n, decls);
      var kids := RefNodes(c, inner, out + decls, up + [n], n.children, Inside).value;
      var tail := [Close(PrefixOf(n), n.name)];
      ReadStart(c, r, up, n, out);
      NamesResolve(c, up, n, out);
      var r1 := Read(r, head);
      ReadNodes(c, r1, up + [n], n.children, out + decls, Inside);
      ReadBracket(r, head, kids, tail[0], out + decls, [StartItem(c, up, n)], Infosets(c, up + [n], n.children));
    } else {
      ReadLeaf(c, r, up, n, out, pos);
    }
  }

  lemma ReadOne(r: Reader, e: Event)
    ensures Read(r, [e]) == Read1(r, e)
  {
  }

  lemma ReadBracket(r: Reader, head: seq<Event>, kids: seq<Event>, close: Event, scope: Bindings,
                    start: seq<Item>, inside: seq<Item>)
    requires close.Close?
    requires var r1, r2 := Read(r, head), Read(Read(r, head), kids);
             && r1.scopes == r.scopes + [scope] && r1.items == r.items + start
             && r2.scopes == r1.scopes && r2.items == r1.items + inside
             && !r2.redundant && r2.kept == r.kept
    ensures var r' := Read(r, head + kids + [close]);
            && r'.scopes == r.scopes && r'.items == r.items + (start + inside + [End])
            && !r'.redundant && r'.kept == r.kept
  {
    hide Read;
    ReadConcat(r, head + kids, [close]);
    ReadConcat(r, head, kids);
    var r2 := Read(Read(r, head), kids);
    ReadOne(r2, close);
    assert r2.scopes[..|r2.scopes| - 1] == r.scopes;
    assert r.items + start + inside + [End] == r.items + (start + inside + [End]);
  }

  lemma ReadLeaf(c: Config, r: Reader, up: seq<Node>, n: Node, out: Bindings, pos: Position)
    requires !n.Element? && RefNode(c, Scope(up), out, up, n, pos).Ok?
    ensures var r' := Read(r, RefNode(c, Scope(up), out, up, n, pos).value);
            && r'.scopes == r.scopes && r'.items == r.items + Infoset(c, up, n)
            && r'.redundant == r.redundant && r'.kept == r.kept
  {
    var es := RefNode(c, Scope(up), out, up, n, pos).value;
    if es == [] {
      assert r.items + [] == r.items;
    } else {
      assert es == [es[0]];
      assert Read(r, es) == Read1(r, es[0]);
      if n.Text? { E.RoundTrip(E.CharData, n.content.value); }
    }
  }

  lemma {:induction false} ReadNodes(c: Config, r: Reader, up: seq<Node>, nodes: seq<Node>, out: Bindings, pos: Position)
    requires ReadyToRead(c, r, up, out) && forall i :: 0 <= i < |nodes| ==> Sound(up, nodes[i], true)
    requires RefNodes(c, Scope(up), out, up, nodes, pos).Ok?
    ensures var r' := Read(r, RefNodes(c, Scope(up), out, up, nodes, pos).value);
            && r'.scopes == r.scopes && r'.items == r.items + Infosets(c, up, nodes)
            && !r'.redundant && r'.kept == r.kept
    decreases nodes, 0
  {
    hide RefNode, Infoset, Sound, PointersInScope, AllVisible, SameScope, Scope, Read1;
    if nodes == [] {
      assert r.items + [] == r.items;
    } else {
      var next := NextPosition(pos, nodes[0]);
      var a := RefNode(c, Scope(up), out, up, nodes[0], pos).value;
      var b := RefNodes(c, Scope(up), out, up, nodes[1..], next).value;
      ReadNode(c, r, up, nodes[0], out, pos);
      ReadNodes(c, Read(r, a), up, nodes[1..], out, next);
      ReadConcat(r, a, b);
      var x, y := Infoset(c, up, nodes[0]), Infosets(c, up, nodes[1..]);
      assert r.items + x + y == r.items + (x + y);
    }
  }

  /** A namespace-aware reader of the canonical form finds the document again: every
      element and attribute with its namespace URI and value, every text, and at every
      element all bindings in scope, in exclusive mode those of the listed prefixes. No
      declaration repeats what its parent element already has in scope. */
  lemma MeaningPreserved(c: Config, doc: Node)
    requires AllVisible(c) && SoundDocument(doc, true) && Execute(c, doc).Ok?
    ensures var r := Read(Reader([], "", "", [], [], false, KeptBy(c)), Execute(c, doc).value);
            r.items == Infosets(c, [doc], doc.children) && r.scopes == [] && !r.redundant
  {
    SoundIsEnough(doc, c.exclusive);
    ExecuteIsReference(c, doc);
    ReadyAtRoot(c, doc);
    hide Sound, AllVisible, PointersInScope, Read, Infosets, Execute, RefNodes;
    ReadNodes(c, Reader([], "", "", [], [], false, KeptBy(c)), [doc], doc.children, map[], Before);
    assert forall x: seq<Item> :: [] + x == x;
  }

  lemma SoundIsEnough(doc: Node, strict: bool)
    requires SoundDocument(doc, true)
    ensures SoundDocument(doc, strict)
  {
    forall i | 0 <= i < |doc.children| ensures Sound([doc], doc.children[i], strict) {
      SoundWeakens([doc], doc.children[i], strict);
    }
  }

  lemma {:induction false} SoundWeakens(up: seq<Node>, n: Node, strict: bool)
    requires Sound(up, n, true)
    ensures Sound(up, n, strict)
    decreases n
  {
    if n.Element? {
      forall i | 0 <= i < |n.children| ensures Sound(up + [n], n.children[i], strict) {
        SoundWeakens(up + [n], n.children[i], strict);
      }
    }
  }

  // ---- any visible part, both modes ----

  /** The tags of the visible elements, in document order. */
  function Tags(c: Config, up: seq<Node>, n: Node): seq<Event>
    decreases n, 1
  {
    if n.Element? then
      var inside := TagsOf(c, up + [n], n.children);
      if c.vis(n.addr, A.AddrOfLast(up))
      then [Open(PrefixOf(n), n.name)] + inside + [Close(PrefixOf(n), n.name)] else inside
    else if n.Document? then TagsOf(c, up + [n], n.children)
    else []
  }

  function TagsOf(c: Config, up: seq<Node>, nodes: seq<Node>): seq<Event>
    decreases nodes, 0
  {
    if nodes == [] then [] else Tags(c, up, nodes[0]) + TagsOf(c, up, nodes[1..])
  }

  function OnlyTags(es: seq<Event>): seq<Event>
  {
    if es == [] then []
    else (if es[0].Open? || es[0].Close? then [es[0]] else []) + OnlyTags(es[1..])
  }

  lemma {:induction false} OnlyTagsConcat(a: seq<Event>, b: seq<Event>)
    ensures OnlyTags(a + b) == OnlyTags(a) + OnlyTags(b)
  {
    if a == [] {
      assert a + b == b;
    } else {
      assert (a + b)[1..] == a[1..] + b;
      OnlyTagsConcat(a[1..], b);
      var first := if a[0].Open? || a[0].Close? then [a[0]] else [];
      assert first + (OnlyTags(a[1..]) + OnlyTags(b)) == first + OnlyTags(a[1..]) + OnlyTags(b);
    }
  }

  lemma {:induction false} NoTags(es: seq<Event>)
    requires forall i :: 0 <= i < |es| ==> !es[i].Open? && !es[i].Close?
    ensures OnlyTags(es) == []
  {
    if es != [] { NoTags(es[1..]); }
  }

  lemma StartTags(c: Config, st: State, up: seq<Node>, n: Node, visible: bool)
    requires n.Element? && Valid(st.stack)
    ensures OnlyTags(StartElement(c, st, up, n, visible).out)
            == OnlyTags(st.out) + if visible then [Open(PrefixOf(n), n.name)] else []
  {
    hide NamespaceAxis, AttrEvents, A.AttrAxis, PrefixOf;
    var axis := NamespaceAxis(c, st.stack, up + [n], visible);
    var attrs := AttrEvents(A.AttrAxis(c.vis, c.exclusive, up, n, visible));
    AxisHasNoTags(c, st.stack, up + [n], visible);
    AttrsHaveNoTags(A.AttrAxis(c.vis, c.exclusive, up, n, visible));
    if visible {
      AfterTag(st.out, [Open(PrefixOf(n), n.name)], axis.out, attrs, [EndOpen]);
    } else {
      AfterTag(st.out, [], axis.out, attrs, []);
      assert st.out + [] + axis.out + attrs + [] == st.out + axis.out + attrs;
    }
  }

  lemma AxisHasNoTags(c: Config, s: Stack, path: seq<Node>, visible: bool)
    requires path != [] && Valid(s)
    ensures OnlyTags(NamespaceAxis(c, s, path, visible).out) == []
  {
    hide InclusiveFold, AttrFold, PrefixFold, ElementStep, Find, FindExclusive, UtilizesEmpty;
    NoTags(NamespaceAxis(c, s, path, visible).out);
  }

  lemma AttrsHaveNoTags(list: seq<Attr>)
    ensures OnlyTags(AttrEvents(list)) == []
  {
    NoTags(AttrEvents(list));
  }

  lemma AfterTag(a: seq<Event>, tag: seq<Event>, b: seq<Event>, d: seq<Event>, z: seq<Event>)
    requires |tag| <= 1 && |z| <= 1 && OnlyTags(tag) == tag && OnlyTags(b) == [] && OnlyTags(d) == [] && OnlyTags(z) == []
    ensures OnlyTags(a + tag + b + d + z) == OnlyTags(a) + tag
  {
    OnlyTagsConcat(a, tag);
    OnlyTagsConcat(a + tag, b);
    OnlyTagsConcat(a + tag + b, d);
    OnlyTagsConcat(a + tag + b + d, z);
  }

  /** Whatever is visible, in both modes and with any prefix list: the output has the
      tags of exactly the visible elements, and the stack is left as it was found. */
  lemma {:induction false} NodeTags(c: Config, st: State, up: seq<Node>, n: Node)
    requires Valid(st.stack) && ProcessNode(c, st, up, n).Ok?
    ensures var r := ProcessNode(c, st, up, n).value;
            OnlyTags(r.out) == OnlyTags(st.out) + Tags(c, up, n) && r.stack == st.stack
    decreases n, 1
  {
    hide StartElement, OnlyTags, ProcessNodes, HasRelative;
    if n.Element? {
      var visible := c.vis(n.addr, A.AddrOfLast(up));
      var st1 := StartElement(c, st, up, n, visible);
      StartTags(c, st, up, n, visible);
      NodesTags(c, st1, up + [n], n.children);
      var st2 := ProcessNodes(c, st1, up + [n], n.children).value;
      OnlyTagsConcat(st2.out, [Close(PrefixOf(n), n.name)]);
      CloseTag(PrefixOf(n), n.name);
    } else if n.Document? && n.children != [] {
      NodesTags(c, st.(pos := Before, parentIsDoc := true), up + [n], n.children);
    } else if !n.Document? {
      LeafTags(c, st, up, n);
    }
  }

  lemma CloseTag(prefix: string, name: string)
    ensures OnlyTags([Close(prefix, name)]) == [Close(prefix, name)]
  {
  }

  lemma LeafTags(c: Config, st: State, up: seq<Node>, n: Node)
    requires Valid(st.stack) && ProcessNode(c, st, up, n).Ok? && !n.Element? && !n.Document?
    ensures OnlyTags(ProcessNode(c, st, up, n).value.out) == OnlyTags(st.out)
  {
    hide OnlyTags;
    var r := ProcessNode(c, st, up, n).value;
    var new_ := r.out[|st.out|..];
    assert r.out == st.out + new_;
    OnlyTagsConcat(st.out, new_);
    NoTags(new_);
  }

  lemma {:induction false} NodesTags(c: Config, st: State, up: seq<Node>, nodes: seq<Node>)
    requires Valid(st.stack) && ProcessNodes(c, st, up, nodes).Ok?
    ensures OnlyTags(ProcessNodes(c, st, up, nodes).value.out) == OnlyTags(st.out) + TagsOf(c, up, nodes)
    decreases nodes, 0
  {
    hide ProcessNode, Tags, OnlyTags;
    if nodes != [] {
      NodeTags(c, st, up, nodes[0]);
      NodesTags(c, ProcessNode(c, st, up, nodes[0]).value, up, nodes[1..]);
    }
  }

  /** Matching tags against a stack of open names; None on a mismatch. */
  function Match(tags: seq<Event>, open: seq<Event>): Option<seq<Event>>
    decreases |tags|
  {
    if tags == [] then Some(open)
    else match tags[0]
      case Open(_, _) => Match(tags[1..], open + [tags[0]])
      case Close(p, n) =>
        if open != [] && open[|open| - 1] == Open(p, n) then Match(tags[1..], open[..|open| - 1]) else None
      case _ => None
  }

  lemma {:induction false} MatchConcat(a: seq<Event>, b: seq<Event>, open: seq<Event>)
    requires Match(a, open).Some?
    ensures Match(a + b, open) == Match(b, Match(a, open).value)
    decreases |a|
  {
    if a == [] {
      assert a + b == b;
    } else {
      assert (a + b)[1..] == a[1..] + b;
      match a[0]
      case Open(_, _) => MatchConcat(a[1..], b, open + [a[0]]);
      case Close(_, _) => MatchConcat(a[1..], b, open[..|open| - 1]);
      case _ =>
    }
  }

  lemma {:induction false} TagsMatch(c: Config, up: seq<Node>, n: Node, open: seq<Event>)
    ensures Match(Tags(c, up, n), open) == Some(open)
    decreases n, 1
  {
    if n.Element? {
      var o, z := Open(PrefixOf(n), n.name), Close(PrefixOf(n), n.name);
      var inside := TagsOf(c, up + [n], n.children);
      TagsOfMatch(c, up + [n], n.children, open);
      TagsOfMatch(c, up + [n], n.children, open + [o]);
      hide TagsOf;
      var all := [o] + inside + [z];
      assert all[1..] == inside + [z];
      MatchConcat(inside, [z], open + [o]);
      assert (open + [o])[..|open|] == open;
      assert Match([z], open + [o]) == Some(open);
    } else if n.Document? {
      TagsOfMatch(c, up + [n], n.children, open);
    }
  }

  lemma {:induction false} TagsOfMatch(c: Config, up: seq<Node>, nodes: seq<Node>, open: seq<Event>)
    ensures Match(TagsOf(c, up, nodes), open) == Some(open)
    decreases nodes, 0
  {
    if nodes != [] {
      TagsMatch(c, up, nodes[0], open);
      TagsOfMatch(c, up, nodes[1..], open);
      MatchConcat(Tags(c, up, nodes[0]), TagsOf(c, up, nodes[1..]), open);
    }
  }

  /** The tags of every successful canonicalization are well nested and are those of
      the visible elements, for every node set, both modes and every prefix list. */
  lemma WellNested(c: Config, doc: Node)
    requires Execute(c, doc).Ok?
    ensures OnlyTags(Execute(c, doc).value) == TagsOf(c, [doc], doc.children)
    ensures Match(OnlyTags(Execute(c, doc).value), []) == Some([])
  {
    hide ProcessNodes, TagsOf, Match;
    NodesTags(c, EMPTY_STATE, [doc], doc.children);
    TagsOfMatch(c, [doc], doc.children, []);
  }
}
