/**
 What canonicalization prints of a document of which any part may be visible: apart from
 the namespace declarations, exactly the visible nodes in document order; and the
 declarations of every element in the order of their prefixes.
 */
module C14nVisible {
  import opened Common
  import opened XmlTree
  import A = Attributes
  import E = Escape
  import opened C14n
  import opened C14nReference
  import opened C14nTheorems

  // ---- the visible nodes, in document order ----

  /** What a subtree prints, declarations apart: the tags of a visible element around its
      contents, the attribute axis of every element, and every visible text, processing
      instruction and, if asked for, comment. Outside all visible elements the last two
      have a line of their own. */
  function Printed(c: Config, up: seq<Node>, n: Node, pos: Position): seq<Event>
    decreases n, 1
  {
    var visible := c.vis(n.addr, A.AddrOfLast(up));
    match n
    case Element(_, name, _, _, _, children) =>
      var attrs := AttrEvents(A.AttrAxis(c.vis, c.exclusive, up, n, visible));
      if visible then
        [Open(PrefixOf(n), name)] + attrs + [EndOpen]
        + PrintedAll(c, up + [n], children, Inside) + [Close(PrefixOf(n), name)]
      else attrs + PrintedAll(c, up + [n], children, pos)
    case Text(_, content) =>
      if visible && content.Some? then [Chars(E.EscapeString(E.CharData, content.value))] else []
    case PI(_, name, content) =>
      if visible then [PIOut(pos == After, name, E.EscapeString(E.PIText, Text0(content)), pos == Before)] else []
    case Comment(_, content) =>
      if visible && c.withComments
      then [CommentOut(pos == After, E.EscapeString(E.CommentText, Text0(content)), pos == Before)] else []
    case Document(_, children) => PrintedAll(c, up + [n], children, Before)
    case Ignored(_) => []
    case Invalid(_) => []
  }

  function PrintedAll(c: Config, up: seq<Node>, nodes: seq<Node>, pos: Position): seq<Event>
    decreases nodes, 0
  {
    if nodes == [] then []
    else Printed(c, up, nodes[0], pos) + PrintedAll(c, up, nodes[1..], Passed(c, up, nodes[0], pos))
  }

  /** The position behind a node: inside stays inside; otherwise a visible element on the
      way makes it "after". */
  function Passed(c: Config, up: seq<Node>, n: Node, pos: Position): Position
    decreases n, 1
  {
    var visible := c.vis(n.addr, A.AddrOfLast(up));
    if n.Element? && visible then
      (if pos == Inside then PassedAll(c, up + [n], n.children, Inside) else After)
    else if n.Element? then PassedAll(c, up + [n], n.children, pos)
    else if n.Document? && n.children != [] then PassedAll(c, up + [n], n.children, Before)
    else pos
  }

  function PassedAll(c: Config, up: seq<Node>, nodes: seq<Node>, pos: Position): Position
    decreases nodes, 0
  {
    if nodes == [] then pos else PassedAll(c, up, nodes[1..], Passed(c, up, nodes[0], pos))
  }

  /** Documents occur only at the root. */
  predicate Rooted(n: Node)
    decreases n
  {
    !n.Document? && (n.Element? ==> forall i :: 0 <= i < |n.children| ==> Rooted(n.children[i]))
  }

  /** So a comment or processing instruction has its own line exactly if no element around
      it is visible, and the line break is before it exactly if a visible element came first. */
  lemma {:induction false} PositionMeans(c: Config, up: seq<Node>, n: Node, pos: Position)
    requires Rooted(n)
    ensures Passed(c, up, n, pos)
            == if pos == Inside then Inside else if Tags(c, up, n) != [] then After else pos
    decreases n, 1
  {
    if n.Element? {
      PositionsMean(c, up + [n], n.children, pos);
      hide PassedAll, TagsOf;
      var inside := TagsOf(c, up + [n], n.children);
      var o, z := Open(PrefixOf(n), n.name), Close(PrefixOf(n), n.name);
      assert [o] + inside + [z] != [];
    }
  }

  lemma {:induction false} PositionsMean(c: Config, up: seq<Node>, nodes: seq<Node>, pos: Position)
    requires forall i :: 0 <= i < |nodes| ==> Rooted(nodes[i])
    ensures PassedAll(c, up, nodes, pos)
            == if pos == Inside then Inside else if TagsOf(c, up, nodes) != [] then After else pos
    decreases nodes, 0
  {
    hide Passed, Tags;
    if nodes != [] {
      PositionMeans(c, up, nodes[0], pos);
      PositionsMean(c, up, nodes[1..], Passed(c, up, nodes[0], pos));
      var a, b := Tags(c, up, nodes[0]), TagsOf(c, up, nodes[1..]);
      assert a + b == [] <==> a == [] && b == [];
    }
  }

  // ---- the walk prints them ----

  function WithoutDecls(es: seq<Event>): seq<Event>
  {
    if es == [] then [] else (if es[0].Decl? then [] else [es[0]]) + WithoutDecls(es[1..])
  }

  lemma {:induction false} WithoutDeclsConcat(a: seq<Event>, b: seq<Event>)
    ensures WithoutDecls(a + b) == WithoutDecls(a) + WithoutDecls(b)
  {
    if a == [] {
      assert a + b == b;
    } else {
      assert (a + b)[1..] == a[1..] + b;
      WithoutDeclsConcat(a[1..], b);
      var first := if a[0].Decl? then [] else [a[0]];
      assert first + (WithoutDecls(a[1..]) + WithoutDecls(b)) == first + WithoutDecls(a[1..]) + WithoutDecls(b);
    }
  }

  lemma {:induction false} AllDecls(es: seq<Event>)
    requires forall i :: 0 <= i < |es| ==> es[i].Decl?
    ensures WithoutDecls(es) == []
  {
    if es != [] { AllDecls(es[1..]); }
  }

  lemma {:induction false} NoDecls(es: seq<Event>)
    requires forall i :: 0 <= i < |es| ==> !es[i].Decl?
    ensures WithoutDecls(es) == es
  {
    if es != [] {
      NoDecls(es[1..]);
      assert es == [es[0]] + es[1..];
    }
  }

  lemma AxisIsDecls(c: Config, s: Stack, path: seq<Node>, visible: bool)
    requires path != [] && Valid(s)
    ensures WithoutDecls(NamespaceAxis(c, s, path, visible).out) == []
  {
    hide InclusiveFold, AttrFold, PrefixFold, ElementStep, Find, FindExclusive, UtilizesEmpty, ListsDefault;
    AllDecls(NamespaceAxis(c, s, path, visible).out);
  }

  lemma AttrsAreKept(list: seq<Attr>)
    ensures WithoutDecls(AttrEvents(list)) == AttrEvents(list)
  {
    NoDecls(AttrEvents(list));
  }

  lemma DropMiddle(a: seq<Event>, tag: seq<Event>, decls: seq<Event>, attrs: seq<Event>, z: seq<Event>)
    requires WithoutDecls(tag) == tag && WithoutDecls(decls) == [] && WithoutDecls(attrs) == attrs && WithoutDecls(z) == z
    ensures WithoutDecls(a + tag + decls + attrs + z) == WithoutDecls(a) + (tag + attrs + z)
  {
    hide WithoutDecls;
    WithoutDeclsConcat(a, tag);
    WithoutDeclsConcat(a + tag, decls);
    WithoutDeclsConcat(a + tag + decls, attrs);
    WithoutDeclsConcat(a + tag + decls + attrs, z);
  }

  lemma StartPrints(c: Config, st: State, up: seq<Node>, n: Node, visible: bool)
    requires n.Element? && Valid(st.stack)
    ensures var attrs := AttrEvents(A.AttrAxis(c.vis, c.exclusive, up, n, visible));
            WithoutDecls(StartElement(c, st, up, n, visible).out)
            == WithoutDecls(st.out) + if visible then [Open(PrefixOf(n), n.name)] + attrs + [EndOpen] else attrs
  {
    hide NamespaceAxis, AttrEvents, A.AttrAxis, PrefixOf;
    var axis := NamespaceAxis(c, st.stack, up + [n], visible);
    var list := A.AttrAxis(c.vis, c.exclusive, up, n, visible);
    AxisIsDecls(c, st.stack, up + [n], visible);
    AttrsAreKept(list);
    NoDecls([Open(PrefixOf(n), n.name)]);
    NoDecls([EndOpen]);
    NoDecls([]);
    hide WithoutDecls;
    if visible {
      DropMiddle(st.out, [Open(PrefixOf(n), n.name)], axis.out, AttrEvents(list), [EndOpen]);
    } else {
      DropMiddle(st.out, [], axis.out, AttrEvents(list), []);
      assert st.out + [] + axis.out + AttrEvents(list) + [] == st.out + axis.out + AttrEvents(list);
      assert [] + AttrEvents(list) + [] == AttrEvents(list);
    }
  }

  /** The flag for "child of the document" and the position say the same. */
  predicate Placed(st: State) { st.parentIsDoc <==> st.pos != Inside }

  /** Whatever is visible, in both modes and with any prefix list: apart from declarations
      the output gains exactly what the visible nodes of the subtree print. */
  lemma {:induction false} NodePrints(c: Config, st: State, up: seq<Node>, n: Node)
    requires Valid(st.stack) && Placed(st) && ProcessNode(c, st, up, n).Ok?
    ensures var r := ProcessNode(c, st, up, n).value;
            && WithoutDecls(r.out) == WithoutDecls(st.out) + Printed(c, up, n, st.pos)
            && r.pos == Passed(c, up, n, st.pos) && Placed(r)
    decreases n, 1
  {
    hide StartElement, WithoutDecls, ProcessNodes, HasRelative, PrintedAll, PassedAll;
    if n.Element? {
      var visible := c.vis(n.addr, A.AddrOfLast(up));
      var st1 := StartElement(c, st, up, n, visible);
      StartPrints(c, st, up, n, visible);
      StartPlaces(c, st, up, n, visible);
      NodesPrint(c, st1, up + [n], n.children);
      var st2 := ProcessNodes(c, st1, up + [n], n.children).value;
      var z := [Close(PrefixOf(n), n.name)];
      NoDecls(z);
      WithoutDeclsConcat(st2.out, z);
      var attrs := AttrEvents(A.AttrAxis(c.vis, c.exclusive, up, n, visible));
      var kids := PrintedAll(c, up + [n], n.children, st1.pos);
      PrintsAssoc(WithoutDecls(st.out), [Open(PrefixOf(n), n.name)] + attrs + [EndOpen], attrs, kids, z);
    } else if n.Document? {
      DocumentPrints(c, st, up, n);
    } else {
      LeafPrints(c, st, up, n);
    }
  }

  lemma StartPlaces(c: Config, st: State, up: seq<Node>, n: Node, visible: bool)
    requires n.Element? && Valid(st.stack) && Placed(st)
    ensures var r := StartElement(c, st, up, n, visible);
            Placed(r) && r.pos == if visible then Inside else st.pos
  {
    hide NamespaceAxis, AttrEvents, A.AttrAxis;
  }

  lemma PrintsAssoc(out: seq<Event>, head: seq<Event>, attrs: seq<Event>, kids: seq<Event>, z: seq<Event>)
    ensures out + head + kids + z == out + (head + kids + z)
    ensures out + attrs + kids == out + (attrs + kids)
  {
  }

  lemma {:induction false} DocumentPrints(c: Config, st: State, up: seq<Node>, n: Node)
    requires n.Document? && Valid(st.stack) && Placed(st) && ProcessNode(c, st, up, n).Ok?
    ensures var r := ProcessNode(c, st, up, n).value;
            && WithoutDecls(r.out) == WithoutDecls(st.out) + Printed(c, up, n, st.pos)
            && r.pos == Passed(c, up, n, st.pos) && Placed(r)
    decreases n, 0
  {
    hide WithoutDecls;
    if n.children == [] {
      assert WithoutDecls(st.out) + [] == WithoutDecls(st.out);
    } else {
      hide PrintedAll, PassedAll, ProcessNodes;
      NodesPrint(c, st.(pos := Before, parentIsDoc := true), up + [n], n.children);
    }
  }

  lemma LeafPrints(c: Config, st: State, up: seq<Node>, n: Node)
    requires !n.Element? && !n.Document? && Valid(st.stack) && Placed(st) && ProcessNode(c, st, up, n).Ok?
    ensures var r := ProcessNode(c, st, up, n).value;
            && WithoutDecls(r.out) == WithoutDecls(st.out) + Printed(c, up, n, st.pos)
            && r.pos == st.pos && Placed(r)
  {
    hide WithoutDecls;
    var new_ := Printed(c, up, n, st.pos);
    assert st.out + [] == st.out;
    assert ProcessNode(c, st, up, n).value.out == st.out + new_;
    WithoutDeclsConcat(st.out, new_);
    NoDecls(new_);
  }

  lemma {:induction false} NodesPrint(c: Config, st: State, up: seq<Node>, nodes: seq<Node>)
    requires Valid(st.stack) && Placed(st) && ProcessNodes(c, st, up, nodes).Ok?
    ensures var r := ProcessNodes(c, st, up, nodes).value;
            && WithoutDecls(r.out) == WithoutDecls(st.out) + PrintedAll(c, up, nodes, st.pos)
            && r.pos == PassedAll(c, up, nodes, st.pos) && Placed(r)
    decreases nodes, 0
  {
    hide ProcessNode, Printed, Passed, WithoutDecls;
    if nodes == [] {
      assert WithoutDecls(st.out) + [] == WithoutDecls(st.out);
    } else {
      NodePrints(c, st, up, nodes[0]);
      var st1 := ProcessNode(c, st, up, nodes[0]).value;
      NodesPrint(c, st1, up, nodes[1..]);
      var a, b := Printed(c, up, nodes[0], st.pos), PrintedAll(c, up, nodes[1..], st1.pos);
      assert WithoutDecls(st.out) + a + b == WithoutDecls(st.out) + (a + b);
    }
  }

  /** The canonical form of any part of any document, in both modes, with any prefix list. */
  lemma PrintsTheVisible(c: Config, doc: Node)
    requires Execute(c, doc).Ok?
    ensures WithoutDecls(Execute(c, doc).value) == PrintedAll(c, [doc], doc.children, Before)
  {
    hide ProcessNodes, PrintedAll, PassedAll;
    NodesPrint(c, EMPTY_STATE, [doc], doc.children);
  }

  // ---- when it succeeds ----

  /** A subtree is refused for an element that declares a relative URI, visible or not, or
      for a node of a kind that cannot be canonicalized. */
  predicate Refused(c: Config, n: Node)
    decreases n
  {
    || n.Invalid?
    || (n.Element? && HasRelative(c, n))
    || ((n.Element? || n.Document?) && exists i :: 0 <= i < |n.children| && Refused(c, n.children[i]))
  }

  lemma {:induction false} NodeFailsIff(c: Config, st: State, up: seq<Node>, n: Node)
    requires Valid(st.stack)
    ensures ProcessNode(c, st, up, n).Err? <==> Refused(c, n)
    decreases n, 1
  {
    hide StartElement, ProcessNodes, HasRelative;
    if n.Element? && !HasRelative(c, n) {
      var visible := c.vis(n.addr, A.AddrOfLast(up));
      NodesFailIff(c, StartElement(c, st, up, n, visible), up + [n], n.children);
    } else if n.Document? && n.children != [] {
      NodesFailIff(c, st.(pos := Before, parentIsDoc := true), up + [n], n.children);
    }
  }

  lemma {:induction false} NodesFailIff(c: Config, st: State, up: seq<Node>, nodes: seq<Node>)
    requires Valid(st.stack)
    ensures ProcessNodes(c, st, up, nodes).Err? <==> exists i :: 0 <= i < |nodes| && Refused(c, nodes[i])
    decreases nodes, 0
  {
    hide ProcessNode, Refused;
    if nodes != [] {
      NodeFailsIff(c, st, up, nodes[0]);
      var r := ProcessNode(c, st, up, nodes[0]);
      if r.Ok? {
        var rest := nodes[1..];
        NodesFailIff(c, r.value, up, rest);
        assert forall i :: 0 <= i < |rest| ==> rest[i] == nodes[i + 1];
        if i :| 0 <= i < |nodes| && Refused(c, nodes[i]) {
          assert rest[i - 1] == nodes[i];
        }
      }
    }
  }

  lemma FailsIff(c: Config, doc: Node)
    ensures Execute(c, doc).Err? <==> !doc.Document? || Refused(c, doc)
  {
    if doc.Document? { NodesFailIff(c, EMPTY_STATE, [doc], doc.children); }
  }

  // ---- the attributes of an element ----

  function OnlyAttrs(es: seq<Event>): seq<Event>
  {
    if es == [] then [] else (if es[0].AttrOut? then [es[0]] else []) + OnlyAttrs(es[1..])
  }

  lemma {:induction false} OnlyAttrsConcat(a: seq<Event>, b: seq<Event>)
    ensures OnlyAttrs(a + b) == OnlyAttrs(a) + OnlyAttrs(b)
  {
    if a == [] {
      assert a + b == b;
    } else {
      assert (a + b)[1..] == a[1..] + b;
      OnlyAttrsConcat(a[1..], b);
      var first := if a[0].AttrOut? then [a[0]] else [];
      assert first + (OnlyAttrs(a[1..]) + OnlyAttrs(b)) == first + OnlyAttrs(a[1..]) + OnlyAttrs(b);
    }
  }

  lemma {:induction false} NoAttrs(es: seq<Event>)
    requires forall i :: 0 <= i < |es| ==> !es[i].AttrOut?
    ensures OnlyAttrs(es) == []
  {
    if es != [] { NoAttrs(es[1..]); }
  }

  lemma {:induction false} AllAttrs(es: seq<Event>)
    requires forall i :: 0 <= i < |es| ==> es[i].AttrOut?
    ensures OnlyAttrs(es) == es
  {
    if es != [] {
      AllAttrs(es[1..]);
      assert es == [es[0]] + es[1..];
    }
  }

  lemma AxisHasNoAttrs(c: Config, s: Stack, path: seq<Node>, visible: bool)
    requires path != [] && Valid(s)
    ensures OnlyAttrs(NamespaceAxis(c, s, path, visible).out) == []
  {
    hide InclusiveFold, AttrFold, PrefixFold, ElementStep, Find, FindExclusive, UtilizesEmpty, ListsDefault;
    NoAttrs(NamespaceAxis(c, s, path, visible).out);
  }

  lemma AroundAttrs(tag: seq<Event>, decls: seq<Event>, attrs: seq<Event>, z: seq<Event>)
    requires OnlyAttrs(tag) == [] && OnlyAttrs(decls) == [] && OnlyAttrs(attrs) == attrs && OnlyAttrs(z) == []
    ensures OnlyAttrs(tag + decls + attrs + z) == attrs
  {
    hide OnlyAttrs;
    OnlyAttrsConcat(tag, decls);
    OnlyAttrsConcat(tag + decls, attrs);
    OnlyAttrsConcat(tag + decls + attrs, z);
  }

  /** In ascending order of key: no namespace first, then by URI, then by local name. */
  ghost predicate InKeyOrder(list: seq<Attr>)
  {
    forall i, j :: 0 <= i < j < |list| ==> !A.KeyPrecedes(A.KeyOf(list[j]), A.KeyOf(list[i]))
  }

  /** The visible attributes of an element and, in inclusive mode for a visible one whose
      parent is not, the xml: attributes it inherits. */
  function AttrsToPrint(c: Config, up: seq<Node>, n: Node, visible: bool): seq<Attr>
    requires n.Element?
  {
    var own := A.VisibleAttrs(c.vis, n.addr, n.attrs);
    if visible && !c.exclusive && up != [] && !c.vis(up[|up| - 1].addr, A.AddrOfLast(up[..|up| - 1]))
    then own + A.FirstPerKey(A.XmlAttrs(up), A.Keys(own)) else own
  }

  lemma AxisPrintsThem(c: Config, up: seq<Node>, n: Node, visible: bool)
    requires n.Element? && A.AllProper(n.attrs)
    ensures var list := A.AttrAxis(c.vis, c.exclusive, up, n, visible);
            InKeyOrder(list) && multiset(list) == multiset(AttrsToPrint(c, up, n, visible))
  {
    hide A.AttrAxis, A.KeyPrecedes, A.FirstPerKey, A.VisibleAttrs, A.XmlAttrs, A.Keys;
    A.AxisContents(c.vis, c.exclusive, up, n, visible);
    var own := A.VisibleAttrs(c.vis, n.addr, n.attrs);
    assert own + [] == own;
  }

  /** A start tag prints exactly those attributes, in key order. */
  lemma AttributesPrinted(c: Config, st: State, up: seq<Node>, n: Node, visible: bool)
    requires n.Element? && Valid(st.stack) && A.AllProper(n.attrs)
    ensures var out := StartElement(c, st, up, n, visible).out;
            && st.out <= out
            && exists list :: OnlyAttrs(out[|st.out|..]) == AttrEvents(list)
                              && InKeyOrder(list) && multiset(list) == multiset(AttrsToPrint(c, up, n, visible))
  {
    hide NamespaceAxis, AttrEvents, A.AttrAxis, InKeyOrder, OnlyAttrs, AttrsToPrint;
    var axis := NamespaceAxis(c, st.stack, up + [n], visible);
    var list := A.AttrAxis(c.vis, c.exclusive, up, n, visible);
    AxisPrintsThem(c, up, n, visible);
    AxisHasNoAttrs(c, st.stack, up + [n], visible);
    AttrEventsAreAttrs(list);
    NoAttrs([Open(PrefixOf(n), n.name)]);
    NoAttrs([EndOpen]);
    NoAttrs([]);
    var tag, z := if visible then [Open(PrefixOf(n), n.name)] else [], if visible then [EndOpen] else [];
    var attrs := AttrEvents(list);
    AroundAttrs(tag, axis.out, attrs, z);
    var out := StartElement(c, st, up, n, visible).out;
    assert out == st.out + (tag + axis.out + attrs + z);
    assert out[|st.out|..] == tag + axis.out + attrs + z;
  }

  lemma AttrEventsAreAttrs(list: seq<Attr>)
    ensures OnlyAttrs(AttrEvents(list)) == AttrEvents(list)
  {
    AllAttrs(AttrEvents(list));
  }

  // ---- the order of the declarations ----

  /** Declarations whose prefixes never descend in lexicographic order. */
  ghost predicate AscendingDecls(es: seq<Event>)
  {
    && (forall i :: 0 <= i < |es| ==> es[i].Decl?)
    && (forall i, j :: 0 <= i < j < |es| ==> !Precedes(es[j].prefix, es[i].prefix))
  }

  lemma VisitAscends(acc: Acc, ns: Ns, node: Addr, push: bool, insert: bool)
    requires Ascending(acc.list)
    ensures Ascending(Visit(acc, ns, node, push, insert).list)
  {
    hide Ascending;
    if insert { InsertPairAscends(acc.list, ns.prefix, Uri(ns)); }
  }

  lemma {:induction false} InclusiveFoldAscends(c: Config, path: seq<Node>, visible: bool, acc: Acc, todo: seq<Ns>)
    requires path != [] && Valid(acc.stack) && Ascending(acc.list)
    ensures Ascending(InclusiveFold(c, path, visible, acc, todo).list)
    decreases |todo|
  {
    hide Ascending, Visit, Find, SearchNs;
    if todo != [] {
      VisitAscends(acc, todo[0], path[|path| - 1].addr, visible, !Find(acc.stack, todo[0]));
      InclusiveFoldAscends(c, path, visible, InclusiveStep(c, path, visible, acc, todo[0]), todo[1..]);
    }
  }

  lemma {:induction false} PrefixFoldAscends(c: Config, path: seq<Node>, visible: bool, acc: Acc, todo: seq<string>)
    requires path != [] && Valid(acc.stack) && Ascending(acc.list)
    ensures Ascending(PrefixFold(c, path, visible, acc, todo).list)
    decreases |todo|
  {
    hide Ascending, Find, SearchNs;
    if todo != [] {
      var cur, found := path[|path| - 1].addr, SearchNs(path, Denoted(todo[0]));
      if found.Some? && !IsXmlNs(found.value) && c.vis(found.value.addr, Some(cur)) {
        var insert := !Find(acc.stack, found.value);
        VisitAscends(acc, found.value, cur, visible, insert);
        PrefixFoldAscends(c, path, visible, Visit(acc, found.value, cur, visible, insert), todo[1..]);
      } else {
        PrefixFoldAscends(c, path, visible, acc, todo[1..]);
      }
    }
  }

  lemma ElementStepAscends(c: Config, path: seq<Node>, visible: bool, acc: Acc)
    requires path != [] && Valid(acc.stack) && Ascending(acc.list)
    ensures Ascending(ElementStep(c, path, visible, acc).list)
  {
    hide Ascending, FindExclusive, SearchNs;
    var n := path[|path| - 1];
    var found := if n.Element? && n.ns.Some? then n.ns else SearchNs(path, "");
    if found.Some? {
      var ns := found.value;
      VisitAscends(acc, ns, n.addr, visible,
                   visible && c.vis(ns.addr, Some(n.addr)) && !FindExclusive(c.vis, acc.stack, ns));
    }
  }

  lemma {:induction false} AttrFoldAscends(c: Config, cur: Addr, visible: bool, acc: Acc, todo: seq<Attr>)
    requires Ascending(acc.list)
    ensures Ascending(AttrFold(c, cur, visible, acc, todo).list)
    decreases |todo|
  {
    hide Ascending, FindExclusive;
    if todo != [] {
      var a := todo[0];
      if UsesNs(c, cur, a) {
        var insert := visible && !FindExclusive(c.vis, acc.stack, a.ns.value);
        VisitAscends(acc, a.ns.value, cur, true, insert);
        AttrFoldAscends(c, cur, visible, Visit(acc, a.ns.value, cur, true, insert), todo[1..]);
      } else {
        AttrFoldAscends(c, cur, visible, acc, todo[1..]);
      }
    }
  }

  lemma ListAscends(first: bool, list: seq<(string, string)>)
    requires Ascending(list)
    ensures AscendingDecls((if first then [Decl("", "")] else []) + DeclEvents(list))
  {
    hide Precedes;
    var es := (if first then [Decl("", "")] else []) + DeclEvents(list);
    forall i, j | 0 <= i < j < |es| ensures !Precedes(es[j].prefix, es[i].prefix) {
      NothingPrecedesEmpty(es[j].prefix);
    }
  }

  lemma NothingPrecedesEmpty(a: string)
    ensures !Precedes(a, "")
  {
  }

  /** Whatever is visible, in both modes: the declarations of an element stand in ascending
      order of prefix. */
  lemma DeclarationsAscend(c: Config, s: Stack, path: seq<Node>, visible: bool)
    requires path != [] && Valid(s)
    ensures AscendingDecls(NamespaceAxis(c, s, path, visible).out)
  {
    hide Ascending, AscendingDecls, InclusiveFold, PrefixFold, AttrFold, ElementStep, Find, FindExclusive;
    hide DeclEvents, UtilizesEmpty, ListsDefault;
    var start := Acc(s, [], false);
    NothingAscends();
    if c.exclusive {
      var n := path[|path| - 1];
      PrefixFoldAscends(c, path, visible, start, c.inclusivePrefixes);
      var a0 := PrefixFold(c, path, visible, start, c.inclusivePrefixes);
      ElementStepAscends(c, path, visible, a0);
      var a1 := ElementStep(c, path, visible, a0);
      AttrFoldAscends(c, n.addr, visible, a1, A.AttrsOf(n));
      var acc := AttrFold(c, n.addr, visible, a1, A.AttrsOf(n));
      ListAscends(true, acc.list);
      ListAscends(false, acc.list);
    } else {
      InclusiveFoldAscends(c, path, visible, start, Candidates(path));
      var acc := InclusiveFold(c, path, visible, start, Candidates(path));
      ListAscends(true, acc.list);
      ListAscends(false, acc.list);
    }
  }

  lemma NothingAscends()
    ensures Ascending<string>([])
  {
  }
}
