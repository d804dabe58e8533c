/**
 Canonicalization of a whole document without a stack: each element carries the
 bindings in scope in the input and the bindings already in scope in the output,
 and declares what differs (section 2.3 of Canonical XML 1.0, section 3 of
 Exclusive XML Canonicalization 1.0). The stack-based walk refines it.
 */
module C14nReference {
  import opened Common
  import opened XmlTree
  import A = Attributes
  import E = Escape
  import opened C14n

  type Bindings = map<string, string>

  function ValueOf(scope: Bindings, p: string): string { if p in scope then scope[p] else "" }

  function AttrPrefixes(attrs: seq<Attr>): set<string>
  {
    set i | 0 <= i < |attrs| && attrs[i].ns.Some? && attrs[i].ns.value.prefix != "xml" :: attrs[i].ns.value.prefix
  }

  /** Prefixes visibly utilized by an element and its attributes. */
  function Utilized(n: Node): set<string>
  {
    ({PrefixOf(n)} - {"xml"}) + AttrPrefixes(A.AttrsOf(n))
  }

  /** The prefixes that an InclusiveNamespaces PrefixList names. */
  function Listed(prefixes: seq<string>): set<string>
  {
    set i | 0 <= i < |prefixes| :: Denoted(prefixes[i])
  }

  function Wanted(c: Config, n: Node, inner: Bindings): set<string>
  {
    if c.exclusive then Utilized(n) + Listed(c.inclusivePrefixes) * inner.Keys else inner.Keys
  }

  /** The wanted bindings that the output does not have yet. */
  function NewDecls(out: Bindings, inner: Bindings, wanted: set<string>): Bindings
  {
    map p | p in wanted && Lookup(out, p) != Lookup(inner, p) :: ValueOf(inner, p)
  }

  function NextPosition(pos: Position, n: Node): Position
  {
    if pos.Inside? then Inside else if n.Element? then After else pos
  }

  /** The declarations of an element: what it wants and its parent does not provide. */
  function Decls(c: Config, out: Bindings, inner: Bindings, n: Node): Bindings
  {
    NewDecls(out, inner, Wanted(c, n, inner))
  }

  /** A start tag: declarations in prefix order, then the attribute axis. */
  ghost function Head(c: Config, up: seq<Node>, n: Node, decls: Bindings): seq<Event>
    requires n.Element?
  {
    [Open(PrefixOf(n), n.name)] + DeclEvents(SortedOf(decls))
    + AttrEvents(A.AttrAxis(c.vis, c.exclusive, up, n, true)) + [EndOpen]
  }

  ghost function RefNode(c: Config, outer: Bindings, out: Bindings, up: seq<Node>, n: Node, pos: Position)
    : Result<seq<Event>>
    decreases n, 1
  {
    match n
    case Element(_, name, _, nsDef, _, children) =>
      if HasRelative(c, n) then Err
      else
        var inner := Bind(outer, nsDef);
        var decls := Decls(c, out, inner, n);
        var kids := RefNodes(c, inner, out + decls, up + [n], children, Inside);
        if kids.Err? then Err
        else Ok(Head(c, up, n, decls) + kids.value + [Close(PrefixOf(n), name)])
    case Text(_, content) =>
      Ok(if content.Some? then [Chars(E.EscapeString(E.CharData, content.value))] else [])
    case PI(_, name, content) =>
      Ok([PIOut(pos.After?, name, E.EscapeString(E.PIText, Text0(content)), pos.Before?)])
    case Comment(_, content) =>
      Ok(if c.withComments
         then [CommentOut(pos.After?, E.EscapeString(E.CommentText, Text0(content)), pos.Before?)] else [])
    case Document(_, _) => Err
    case Ignored(_) => Ok([])
    case Invalid(_) => Err
  }

  ghost function RefNodes(c: Config, outer: Bindings, out: Bindings, up: seq<Node>, nodes: seq<Node>, pos: Position)
    : Result<seq<Event>>
    decreases nodes, 0
  {
    if nodes == [] then Ok([])
    else
      var first := RefNode(c, outer, out, up, nodes[0], pos);
      var rest := RefNodes(c, outer, out, up, nodes[1..], NextPosition(pos, nodes[0]));
      if first.Err? || rest.Err? then Err else Ok(first.value + rest.value)
  }

  // ---- the trees the theorems speak about ----

  ghost predicate AllVisible(c: Config)
  {
    forall a: Addr, p: Option<Addr> :: c.vis(a, p)
  }

  /** The namespace pointers of an element and its attributes are the declarations
      in scope at it, and an element without one is in no namespace. */
  ghost predicate Consistent(path: seq<Node>)
    requires path != [] && path[|path| - 1].Element?
  {
    var n := path[|path| - 1];
    && (if n.ns.Some? then SearchNs(path, n.ns.value.prefix) == n.ns else Lookup(Scope(path), "") == Some(""))
    && forall i :: 0 <= i < |n.attrs| && n.attrs[i].ns.Some? ==>
         n.attrs[i].ns.value.prefix != "" && SearchNs(path, n.attrs[i].ns.value.prefix) == n.attrs[i].ns
  }

  /** Documents occur only at the root; pointers are in scope, and where strict is
      asked for, the tree is consistent as well. */
  ghost predicate Sound(up: seq<Node>, n: Node, strict: bool)
    decreases n
  {
    && !n.Document?
    && (n.Element? ==>
          && PointerInScope(up + [n])
          && (strict ==> Consistent(up + [n]))
          && forall i :: 0 <= i < |n.children| ==> Sound(up + [n], n.children[i], strict))
  }

  // ---- looking up through a concatenation ----

  lemma {:induction false} TopConcat(a: seq<Entry>, b: seq<Entry>, p: string)
    ensures Top(a + b, p) == if Top(b, p).Some? then Top(b, p) else Top(a, p)
  {
    if b == [] {
      assert a + b == a;
    } else {
      assert (a + b)[..|a + b| - 1] == a + b[..|b| - 1];
      TopConcat(a, b[..|b| - 1], p);
    }
  }

  lemma TopSingle(e: Entry, p: string)
    ensures Top([e], p) == if e.ns.prefix == p then Some(e) else None
  {
    assert [e][..0] == [];
  }

  // ---- what the stack knows about the output ----

  /** Inclusive mode: the window holds exactly the bindings of the parent. */
  ghost predicate Windowed(s: Stack, scope: Bindings)
  {
    && Valid(s) && s.prevEnd == |s.entries|
    && (forall p :: Holds(s.entries[s.prevStart..], scope.Keys, scope, p))
    && ("" !in scope ==> Top(s.entries, "").None?)
  }

  /** The given entries have a top entry for p exactly if p is among the keys, and
      then it is the binding of p. */
  ghost predicate Holds(entries: seq<Entry>, keys: set<string>, scope: Bindings, p: string)
  {
    var t := Top(entries, p);
    if p in keys then t.Some? && Uri(t.value.ns) == ValueOf(scope, p) else t.None?
  }

  ghost predicate HoldsAll(entries: seq<Entry>, keys: set<string>, scope: Bindings)
  {
    forall p :: Holds(entries, keys, scope, p)
  }

  /** Exclusive mode: the top entry of a prefix is its binding in the output. */
  ghost predicate Tracks(entries: seq<Entry>, out: Bindings, p: string)
  {
    var t := Top(entries, p);
    if t.Some? then Lookup(out, p) == Some(Uri(t.value.ns)) else p !in out
  }

  /** A listed prefix is treated as in inclusive mode: the window of the parent has its
      binding, and so has the output. */
  ghost predicate Carries(s: Stack, scope: Bindings, out: Bindings, p: string)
    requires Valid(s)
  {
    Holds(s.entries[s.prevStart..], scope.Keys, scope, p) && Lookup(out, p) == Lookup(scope, p)
  }

  ghost predicate Knows(c: Config, s: Stack, scope: Bindings, out: Bindings)
  {
    if c.exclusive then
      && Valid(s) && s.prevEnd == |s.entries|
      && (forall p :: Tracks(s.entries, out, p)) && (Top(s.entries, "").Some? ==> "" in scope)
      && (forall p :: p in Listed(c.inclusivePrefixes) ==> Carries(s, scope, out, p))
    else
      Windowed(s, scope) && forall p :: Lookup(out, p) == Lookup(scope, p)
  }

  /** The question the axis asks before it renders ns. */
  predicate Rendered(c: Config, s: Stack, ns: Ns)
    requires Valid(s)
  {
    if c.exclusive then FindExclusive(c.vis, s, ns) else Find(s, ns)
  }

  /** The axis in progress: added is what it pushed, seen the prefixes it visited. */
  ghost predicate InProgress(s: Stack, out: Bindings, inner: Bindings, seen: set<string>, acc: Acc)
  {
    && Extends(s, acc.stack)
    && seen <= inner.Keys
    && HoldsAll(acc.stack.entries[|s.entries|..], seen, inner)
    && acc.list == SortedOf(NewDecls(out, inner, seen))
    && (acc.hasEmpty <==> "" in seen)
  }

  /** The stack answers "already rendered" exactly for the bindings that are in the
      output, or that this element has just visited. */
  lemma RenderedIsInOutput(c: Config, s: Stack, outer: Bindings, out: Bindings, inner: Bindings,
                           seen: set<string>, acc: Acc, ns: Ns)
    requires AllVisible(c) && Knows(c, s, outer, out) && InProgress(s, out, inner, seen, acc)
    requires Lookup(inner, ns.prefix) == Some(Uri(ns))
    requires ns.prefix in seen ==> ns.prefix in inner
    ensures Rendered(c, acc.stack, ns) <==> ns.prefix in seen || Lookup(out, ns.prefix) == Some(Uri(ns))
  {
    var added := acc.stack.entries[|s.entries|..];
    assert acc.stack.entries == s.entries + added;
    assert Holds(added, seen, inner, ns.prefix);
    hide InProgress, Holds, Top, SortedOf, NewDecls;
    if c.exclusive {
      assert Tracks(s.entries, out, ns.prefix);
      RenderedExclusive(c, s.entries, added, out, inner, seen, acc.stack, ns);
    } else {
      assert Holds(s.entries[s.prevStart..], outer.Keys, outer, ns.prefix);
      assert Lookup(out, ns.prefix) == Lookup(outer, ns.prefix);
      hide Knows, Windowed;
      FindIsInWindow(s, added, outer, inner, seen, acc.stack, ns);
    }
  }

  /** In exclusive mode too, the window answers for a listed prefix. */
  lemma ListedIsInOutput(c: Config, s: Stack, outer: Bindings, out: Bindings, inner: Bindings,
                         seen: set<string>, acc: Acc, ns: Ns)
    requires c.exclusive && Knows(c, s, outer, out) && InProgress(s, out, inner, seen, acc)
    requires ns.prefix in Listed(c.inclusivePrefixes) && Lookup(inner, ns.prefix) == Some(Uri(ns))
    requires ns.prefix in seen ==> ns.prefix in inner
    ensures Valid(acc.stack)
    ensures Find(acc.stack, ns) <==> ns.prefix in seen || Lookup(out, ns.prefix) == Some(Uri(ns))
  {
    var added := acc.stack.entries[|s.entries|..];
    assert acc.stack.entries == s.entries + added;
    assert Holds(added, seen, inner, ns.prefix);
    assert Carries(s, outer, out, ns.prefix);
    hide Knows, InProgress, Holds, Top, SortedOf, NewDecls, Listed;
    FindIsInWindow(s, added, outer, inner, seen, acc.stack, ns);
  }

  lemma RenderedExclusive(c: Config, entries: seq<Entry>, added: seq<Entry>, out: Bindings, inner: Bindings,
                          seen: set<string>, t: Stack, ns: Ns)
    requires AllVisible(c) && c.exclusive && Valid(t) && t.entries == entries + added
    requires Tracks(entries, out, ns.prefix) && Holds(added, seen, inner, ns.prefix)
    requires Lookup(inner, ns.prefix) == Some(Uri(ns))
    requires ns.prefix in seen ==> ns.prefix in inner
    ensures Rendered(c, t, ns) <==> ns.prefix in seen || Lookup(out, ns.prefix) == Some(Uri(ns))
  {
    TopConcat(entries, added, ns.prefix);
    hide Top;
  }

  lemma FindIsInWindow(s: Stack, added: seq<Entry>, outer: Bindings, inner: Bindings,
                       seen: set<string>, t: Stack, ns: Ns)
    requires Valid(s) && Valid(t) && t.entries == s.entries + added
    requires t.prevStart == s.prevStart && t.prevEnd == s.prevEnd == |s.entries|
    requires "" !in outer ==> Top(s.entries, "").None?
    requires Holds(s.entries[s.prevStart..], outer.Keys, outer, ns.prefix) && Holds(added, seen, inner, ns.prefix)
    requires Lookup(inner, ns.prefix) == Some(Uri(ns))
    requires ns.prefix in seen ==> ns.prefix in inner
    ensures Find(t, ns) <==> ns.prefix in seen || Lookup(outer, ns.prefix) == Some(Uri(ns))
  {
    hide Top;
    var p := ns.prefix;
    var window := s.entries[s.prevStart..];
    assert t.entries[s.prevStart..] == window + added;
    TopConcat(window, added, p);
    TopConcat(s.entries, added, p);
    assert t.entries[0..] == t.entries;
    assert s.entries == s.entries[..s.prevStart] + window;
    TopConcat(s.entries[..s.prevStart], window, p);
  }

  lemma NewDeclsGrow(out: Bindings, inner: Bindings, seen: set<string>, p: string)
    requires p !in seen && p in inner
    ensures Lookup(out, p) == Lookup(inner, p) ==> NewDecls(out, inner, seen + {p}) == NewDecls(out, inner, seen)
    ensures Lookup(out, p) != Lookup(inner, p) ==>
              InsertPair(SortedOf(NewDecls(out, inner, seen)), p, inner[p]) == SortedOf(NewDecls(out, inner, seen + {p}))
  {
    var old_, new_ := NewDecls(out, inner, seen), NewDecls(out, inner, seen + {p});
    if Lookup(out, p) != Lookup(inner, p) {
      assert new_ == old_[p := inner[p]];
      SortedOfInsert(old_, p, inner[p]);
    }
  }

  /** One visit pushes the binding and lists it if and only if the output lacks it. */
  lemma VisitStep(c: Config, s: Stack, outer: Bindings, out: Bindings, inner: Bindings,
                  seen: set<string>, acc: Acc, ns: Ns, node: Addr)
    requires AllVisible(c) && Knows(c, s, outer, out) && InProgress(s, out, inner, seen, acc)
    requires ns.prefix in inner && inner[ns.prefix] == Uri(ns)
    ensures InProgress(s, out, inner, seen + {ns.prefix}, Visit(acc, ns, node, true, !Rendered(c, acc.stack, ns)))
  {
    hide InProgress, Visit, Rendered, HoldsAll, SortedOf, NewDecls, Tracks, Holds, Top;
    StillValid(c, s, outer, out, inner, seen, acc);
    RenderedIsInOutput(c, s, outer, out, inner, seen, acc, ns);
    VisitKeeps(s, out, inner, seen, acc, ns, node, Rendered(c, acc.stack, ns));
  }

  lemma StillValid(c: Config, s: Stack, outer: Bindings, out: Bindings, inner: Bindings, seen: set<string>, acc: Acc)
    requires Knows(c, s, outer, out) && InProgress(s, out, inner, seen, acc)
    ensures Valid(acc.stack)
  {
  }

  lemma VisitKeeps(s: Stack, out: Bindings, inner: Bindings, seen: set<string>, acc: Acc, ns: Ns, node: Addr, rendered: bool)
    requires InProgress(s, out, inner, seen, acc) && ns.prefix in inner && inner[ns.prefix] == Uri(ns)
    requires rendered <==> ns.prefix in seen || Lookup(out, ns.prefix) == Some(Uri(ns))
    ensures InProgress(s, out, inner, seen + {ns.prefix}, Visit(acc, ns, node, true, !rendered))
  {
    hide HoldsAll, SortedOf, NewDecls, InsertPair, Lookup;
    VisitLists(out, inner, seen, ns, acc.list);
    var r := Visit(acc, ns, node, true, !rendered);
    var added := acc.stack.entries[|s.entries|..];
    assert r.stack.entries[|s.entries|..] == added + [Entry(ns, node)];
    PushHoldsAll(added, Entry(ns, node), seen, inner);
  }

  lemma VisitLists(out: Bindings, inner: Bindings, seen: set<string>, ns: Ns, list: seq<(string, string)>)
    requires ns.prefix in inner && inner[ns.prefix] == Uri(ns)
    requires list == SortedOf(NewDecls(out, inner, seen))
    ensures SortedOf(NewDecls(out, inner, seen + {ns.prefix}))
            == if ns.prefix in seen || Lookup(out, ns.prefix) == Some(Uri(ns)) then list
               else InsertPair(list, ns.prefix, Uri(ns))
  {
    hide NewDecls, SortedOf, InsertPair;
    if ns.prefix in seen {
      assert seen + {ns.prefix} == seen;
    } else {
      NewDeclsGrow(out, inner, seen, ns.prefix);
    }
  }

  lemma PushHoldsAll(added: seq<Entry>, e: Entry, seen: set<string>, inner: Bindings)
    requires HoldsAll(added, seen, inner)
    requires e.ns.prefix in inner && inner[e.ns.prefix] == Uri(e.ns)
    ensures HoldsAll(added + [e], seen + {e.ns.prefix}, inner)
  {
    forall q ensures Holds(added + [e], seen + {e.ns.prefix}, inner, q) {
      PushHolds(added, e, seen, inner, q);
    }
  }

  lemma PushHolds(added: seq<Entry>, e: Entry, seen: set<string>, inner: Bindings, q: string)
    requires Holds(added, seen, inner, q)
    requires e.ns.prefix in inner && inner[e.ns.prefix] == Uri(e.ns)
    ensures Holds(added + [e], seen + {e.ns.prefix}, inner, q)
  {
    TopConcat(added, [e], q);
    TopSingle(e, q);
  }

  lemma Begin(s: Stack, out: Bindings, inner: Bindings)
    requires Valid(s)
    ensures InProgress(s, out, inner, {}, Acc(s, [], false))
  {
    assert NewDecls(out, inner, {}) == map[];
    MapOfEmpty(SortedOf<string>(map[]));
    assert s.entries[|s.entries|..] == [];
  }

  // ---- inclusive axis ----

  predicate Matches(path: seq<Node>, ns: Ns) { SearchNs(path, ns.prefix) == Some(ns) && !IsXmlNs(ns) }

  function Matched(path: seq<Node>, todo: seq<Ns>): set<string>
  {
    set i | 0 <= i < |todo| && Matches(path, todo[i]) :: todo[i].prefix
  }

  lemma MatchedCons(path: seq<Node>, todo: seq<Ns>)
    requires todo != []
    ensures Matched(path, todo) == (if Matches(path, todo[0]) then {todo[0].prefix} else {}) + Matched(path, todo[1..])
  {
    assert forall i :: 0 <= i < |todo[1..]| ==> todo[1..][i] == todo[i + 1];
    forall p | p in Matched(path, todo)
      ensures p in (if Matches(path, todo[0]) then {todo[0].prefix} else {}) + Matched(path, todo[1..])
    {
      var i :| 0 <= i < |todo| && Matches(path, todo[i]) && todo[i].prefix == p;
      if i > 0 { assert todo[1..][i - 1] == todo[i]; }
    }
  }

  lemma MatchIsBinding(path: seq<Node>, ns: Ns)
    requires IsPath(path) && path != [] && PointersInScope(path[..|path| - 1]) && Matches(path, ns)
    ensures ns.prefix in Scope(path) && Scope(path)[ns.prefix] == Uri(ns)
  {
    SearchIsScope(path, ns.prefix, true);
  }

  lemma {:induction false} MatchedIsScope(path: seq<Node>)
    requires IsPath(path) && path != [] && PointersInScope(path[..|path| - 1])
    ensures Matched(path, Candidates(path)) == Scope(path).Keys
  {
    var all := Candidates(path);
    forall p | p in Scope(path) ensures p in Matched(path, all) {
      ScopeHasNoXml(path);
      SearchIsScope(path, p, true);
      var ns := SearchFrom(path, p, true).value;
      var i :| 0 <= i < |all| && all[i] == ns;
      assert Matches(path, all[i]);
    }
    forall p | p in Matched(path, all) ensures p in Scope(path) {
      var i :| 0 <= i < |all| && Matches(path, all[i]) && all[i].prefix == p;
      MatchIsBinding(path, all[i]);
    }
  }

  lemma {:induction false} ScopeHasNoXml(path: seq<Node>)
    ensures "xml" !in Scope(path)
  {
    if path != [] {
      ScopeHasNoXml(path[..|path| - 1]);
      var n := path[|path| - 1];
      if n.Element? { BindKeys(Scope(path[..|path| - 1]), n.nsDef); }
    }
  }

  lemma {:induction false} FoldInclusive(c: Config, path: seq<Node>, s: Stack, outer: Bindings, out: Bindings,
                                         seen: set<string>, acc: Acc, todo: seq<Ns>)
    requires AllVisible(c) && !c.exclusive && Knows(c, s, outer, out)
    requires InProgress(s, out, Scope(path), seen, acc)
    requires IsPath(path) && path != [] && PointersInScope(path[..|path| - 1])
    ensures InProgress(s, out, Scope(path), seen + Matched(path, todo), InclusiveFold(c, path, true, acc, todo))
    decreases |todo|
  {
    assert Valid(acc.stack);
    hide Knows, Scope, PointersInScope, Find, SearchFrom, SortedOf, NewDecls, HoldsAll;
    if todo == [] {
      assert seen + Matched(path, todo) == seen;
    } else {
      var ns := todo[0];
      MatchedCons(path, todo);
      var next := InclusiveStep(c, path, true, acc, ns);
      var seen' := if Matches(path, ns) then seen + {ns.prefix} else seen;
      if Matches(path, ns) {
        MatchIsBinding(path, ns);
        VisitStep(c, s, outer, out, Scope(path), seen, acc, ns, path[|path| - 1].addr);
      }
      FoldInclusive(c, path, s, outer, out, seen', next, todo[1..]);
      assert seen' + Matched(path, todo[1..]) == seen + Matched(path, todo);
    }
  }

  // ---- exclusive axis ----

  lemma ListedCons(todo: seq<string>)
    requires todo != []
    ensures Listed(todo) == {Denoted(todo[0])} + Listed(todo[1..])
  {
    assert forall i :: 0 <= i < |todo[1..]| ==> todo[1..][i] == todo[i + 1];
    forall p | p in Listed(todo) ensures p in {Denoted(todo[0])} + Listed(todo[1..]) {
      var i :| 0 <= i < |todo| && Denoted(todo[i]) == p;
      if i > 0 { assert todo[1..][i - 1] == todo[i]; }
    }
  }

  lemma ListsDefaultIs(prefixes: seq<string>)
    ensures ListsDefault(prefixes) <==> "" in Listed(prefixes)
  {
    if ListsDefault(prefixes) {
      var i :| 0 <= i < |prefixes| && NamesDefault(prefixes[i]);
      assert Denoted(prefixes[i]) == "";
    }
    if "" in Listed(prefixes) {
      var i :| 0 <= i < |prefixes| && Denoted(prefixes[i]) == "";
      assert NamesDefault(prefixes[i]);
    }
  }

  /** The loop over the prefix list visits the listed prefixes that are in scope. */
  lemma {:induction false} FoldPrefixes(c: Config, path: seq<Node>, s: Stack, outer: Bindings, out: Bindings,
                                        seen: set<string>, acc: Acc, todo: seq<string>)
    requires AllVisible(c) && c.exclusive && Knows(c, s, outer, out) && Valid(acc.stack)
    requires InProgress(s, out, Scope(path), seen, acc) && Listed(todo) <= Listed(c.inclusivePrefixes)
    requires IsPath(path) && path != [] && PointersInScope(path[..|path| - 1])
    ensures InProgress(s, out, Scope(path), seen + Listed(todo) * Scope(path).Keys,
                       PrefixFold(c, path, true, acc, todo))
    decreases |todo|
  {
    hide Knows, InProgress, Scope, PointersInScope, Find, SearchFrom, Listed;
    if todo == [] {
      ListedNothing();
      assert seen + {} * Scope(path).Keys == seen;
    } else {
      var p, cur, inner := Denoted(todo[0]), path[|path| - 1].addr, Scope(path);
      ListedCons(todo);
      ScopeHasNoXml(path);
      var found := SearchNs(path, p);
      var next, seen' := acc, seen;
      if p != "xml" { SearchIsScope(path, p, true); }
      if found.Some? && !IsXmlNs(found.value) {
        var ns := found.value;
        ListedIsInOutput(c, s, outer, out, inner, seen, acc, ns);
        next := Visit(acc, ns, cur, true, !Find(acc.stack, ns));
        seen' := seen + {p};
        VisitKeeps(s, out, inner, seen, acc, ns, cur, Find(acc.stack, ns));
      }
      FoldPrefixes(c, path, s, outer, out, seen', next, todo[1..]);
      assert seen' + Listed(todo[1..]) * inner.Keys == seen + Listed(todo) * inner.Keys;
    }
  }

  lemma ListedNothing()
    ensures Listed([]) == {}
  {
  }

  lemma AttrPrefixesCons(attrs: seq<Attr>)
    requires attrs != []
    ensures AttrPrefixes(attrs)
            == (if attrs[0].ns.Some? && attrs[0].ns.value.prefix != "xml" then {attrs[0].ns.value.prefix} else {})
               + AttrPrefixes(attrs[1..])
  {
    var t := attrs[1..];
    assert forall i :: 0 <= i < |t| ==> t[i] == attrs[i + 1];
    forall p | p in AttrPrefixes(attrs)
      ensures (attrs[0].ns.Some? && attrs[0].ns.value.prefix == p) || p in AttrPrefixes(t)
    {
      var i :| 0 <= i < |attrs| && attrs[i].ns.Some? && attrs[i].ns.value.prefix != "xml"
               && attrs[i].ns.value.prefix == p;
      if i > 0 { assert t[i - 1] == attrs[i]; }
    }
  }

  ghost predicate AttrsInScope(path: seq<Node>, attrs: seq<Attr>)
  {
    forall i :: 0 <= i < |attrs| && attrs[i].ns.Some? ==>
      attrs[i].ns.value.prefix != "" && SearchNs(path, attrs[i].ns.value.prefix) == attrs[i].ns
  }

  lemma {:induction false} FoldAttrs(c: Config, path: seq<Node>, s: Stack, outer: Bindings, out: Bindings,
                                     seen: set<string>, acc: Acc, todo: seq<Attr>)
    requires AllVisible(c) && c.exclusive && Knows(c, s, outer, out)
    requires InProgress(s, out, Scope(path), seen, acc)
    requires IsPath(path) && path != [] && PointersInScope(path[..|path| - 1]) && AttrsInScope(path, todo)
    ensures InProgress(s, out, Scope(path), seen + AttrPrefixes(todo),
                       AttrFold(c, path[|path| - 1].addr, true, acc, todo))
    decreases |todo|
  {
    hide Knows, InProgress, Scope, PointersInScope, FindExclusive, SearchFrom;
    if todo == [] {
      assert seen + AttrPrefixes(todo) == seen;
    } else {
      var a, cur := todo[0], path[|path| - 1].addr;
      AttrPrefixesCons(todo);
      var next, seen' := acc, seen;
      if a.ns.Some? && !IsXmlNs(a.ns.value) {
        MatchIsBinding(path, a.ns.value);
        next := Visit(acc, a.ns.value, cur, true, !FindExclusive(c.vis, acc.stack, a.ns.value));
        seen' := seen + {a.ns.value.prefix};
        VisitStep(c, s, outer, out, Scope(path), seen, acc, a.ns.value, cur);
        ScopeHasNoXml(path);
      }
      FoldAttrs(c, path, s, outer, out, seen', next, todo[1..]);
      assert seen' + AttrPrefixes(todo[1..]) == seen + AttrPrefixes(todo);
    }
  }

  /** The exclusive axis pushes the namespace of the element, except for a default
      namespace that is not declared anywhere. */
  lemma ElementPush(c: Config, path: seq<Node>, s: Stack, outer: Bindings, out: Bindings, before: set<string>, acc: Acc)
    returns (seen: set<string>)
    requires AllVisible(c) && c.exclusive && Knows(c, s, outer, out) && Valid(acc.stack)
    requires IsPath(path) && path != [] && PointersInScope(path[..|path| - 1])
    requires path[|path| - 1].Element? && Consistent(path) && InProgress(s, out, Scope(path), before, acc)
    ensures InProgress(s, out, Scope(path), seen, ElementStep(c, path, true, acc))
    ensures seen == before + ({PrefixOf(path[|path| - 1])} - {"xml"} - (if "" in Scope(path) then {} else {""}))
  {
    hide Knows, InProgress, SearchFrom, PointersInScope, Scope, FindExclusive;
    var n, inner := path[|path| - 1], Scope(path);
    ScopeHasNoXml(path);
    SearchIsScope(path, "", true);
    var found := if n.ns.Some? then n.ns else SearchNs(path, "");
    seen := before;
    if found.Some? && !IsXmlNs(found.value) {
      MatchIsBinding(path, found.value);
      VisitStep(c, s, outer, out, inner, before, acc, found.value, n.addr);
      seen := before + {found.value.prefix};
    }
  }

  // ---- one element ----

  /** What an axis must deliver: the sorted new declarations, and a stack that knows
      the output below this element. */
  ghost predicate AxisCorrect(c: Config, path: seq<Node>, out: Bindings, r: AxisResult)
    requires path != []
  {
    var inner := Scope(path);
    var decls := Decls(c, out, inner, path[|path| - 1]);
    r.out == DeclEvents(SortedOf(decls)) && Knows(c, Shift(r.stack), inner, out + decls)
  }

  /** Declarations only, each prefix lexicographically after the one before. */
  ghost predicate StrictlyAscendingDecls(es: seq<Event>)
  {
    && (forall i :: 0 <= i < |es| ==> es[i].Decl?)
    && (forall i, j :: 0 <= i < j < |es| ==> Precedes(es[i].prefix, es[j].prefix))
  }

  lemma CorrectAxisAscends(c: Config, path: seq<Node>, out: Bindings, r: AxisResult)
    requires path != [] && AxisCorrect(c, path, out, r)
    ensures StrictlyAscendingDecls(r.out)
  {
    hide Precedes, Knows, Scope, Decls;
    var decls := Decls(c, out, Scope(path), path[|path| - 1]);
    SortedAscends(SortedOf(decls));
    hide SortedOf;
  }

  lemma InclusiveAxisCorrect(c: Config, s: Stack, path: seq<Node>, out: Bindings)
    requires AllVisible(c) && !c.exclusive && IsPath(path) && path != [] && path[|path| - 1].Element?
    requires PointersInScope(path[..|path| - 1]) && Knows(c, s, Scope(path[..|path| - 1]), out)
    ensures AxisCorrect(c, path, out, InclusiveAxis(c, s, path, true))
    ensures StrictlyAscendingDecls(InclusiveAxis(c, s, path, true).out)
  {
    hide StrictlyAscendingDecls;
    var outer, inner := Scope(path[..|path| - 1]), Scope(path);
    var acc := InclusiveFold(c, path, true, Acc(s, [], false), Candidates(path));
    Begin(s, out, inner);
    FoldInclusive(c, path, s, outer, out, {}, Acc(s, [], false), Candidates(path));
    MatchedIsScope(path);
    assert {} + Matched(path, Candidates(path)) == inner.Keys;
    BindKeys(outer, path[|path| - 1].nsDef);
    InclusiveAfter(c, s, outer, inner, out, acc);
    assert [] + DeclEvents(acc.list) == DeclEvents(acc.list);
    CorrectAxisAscends(c, path, out, InclusiveAxis(c, s, path, true));
  }

  lemma InclusiveAfter(c: Config, s: Stack, outer: Bindings, inner: Bindings, out: Bindings, acc: Acc)
    requires AllVisible(c) && !c.exclusive && Knows(c, s, outer, out) && outer.Keys <= inner.Keys
    requires InProgress(s, out, inner, inner.Keys, acc)
    ensures Knows(c, Shift(acc.stack), inner, out + NewDecls(out, inner, inner.Keys))
    ensures !acc.hasEmpty ==> Find(acc.stack, DEFAULT_NS)
  {
    var added := acc.stack.entries[|s.entries|..];
    assert acc.stack.entries == s.entries + added;
    TopConcat(s.entries, added, "");
    assert Holds(added, inner.Keys, inner, "");
    assert acc.stack.entries[0..] == acc.stack.entries;
    forall p ensures Lookup(out + NewDecls(out, inner, inner.Keys), p) == Lookup(inner, p) {
      assert Lookup(out, p) == Lookup(outer, p);
    }
  }

  function ExclusivePhases(c: Config, s: Stack, path: seq<Node>): (r: Acc)
    requires path != [] && Valid(s)
    ensures Valid(r.stack)
  {
    var n := path[|path| - 1];
    var a0 := PrefixFold(c, path, true, Acc(s, [], false), c.inclusivePrefixes);
    AttrFold(c, n.addr, true, ElementStep(c, path, true, a0), A.AttrsOf(n))
  }

  /** The three phases of the exclusive axis visit what the element wants. */
  lemma PhasesVisit(c: Config, s: Stack, path: seq<Node>, out: Bindings) returns (seen: set<string>)
    requires AllVisible(c) && c.exclusive && IsPath(path) && path != [] && path[|path| - 1].Element? && Valid(s)
    requires PointersInScope(path[..|path| - 1]) && Knows(c, s, Scope(path[..|path| - 1]), out) && Consistent(path)
    ensures var n, inner := path[|path| - 1], Scope(path);
            && seen == Listed(c.inclusivePrefixes) * inner.Keys
                       + ({PrefixOf(n)} - {"xml"} - (if "" in inner then {} else {""})) + AttrPrefixes(n.attrs)
            && InProgress(s, out, inner, seen, ExclusivePhases(c, s, path))
  {
    hide Knows, InProgress, SearchFrom, AttrFold, PrefixFold, ElementStep, Bind, PointersInScope, Listed, Scope;
    var outer, inner, n := Scope(path[..|path| - 1]), Scope(path), path[|path| - 1];
    Begin(s, out, inner);
    var start := Acc(s, [], false);
    FoldPrefixes(c, path, s, outer, out, {}, start, c.inclusivePrefixes);
    var a0 := PrefixFold(c, path, true, start, c.inclusivePrefixes);
    var before := {} + Listed(c.inclusivePrefixes) * inner.Keys;
    seen := ElementPush(c, path, s, outer, out, before, a0);
    FoldAttrs(c, path, s, outer, out, seen, ElementStep(c, path, true, a0), n.attrs);
    seen := seen + AttrPrefixes(n.attrs);
  }

  lemma ExclusiveAxisCorrect(c: Config, s: Stack, path: seq<Node>, out: Bindings)
    requires AllVisible(c) && c.exclusive && IsPath(path) && path != [] && path[|path| - 1].Element?
    requires PointersInScope(path[..|path| - 1]) && Knows(c, s, Scope(path[..|path| - 1]), out) && Consistent(path)
    ensures AxisCorrect(c, path, out, ExclusiveAxis(c, s, path, true))
    ensures StrictlyAscendingDecls(ExclusiveAxis(c, s, path, true).out)
  {
    hide Knows, InProgress, SearchFrom, AttrFold, PrefixFold, ElementStep, Bind, PointersInScope, Listed, Scope;
    hide Find, FindExclusive, SortedOf, Wanted, AttrPrefixes, NewDecls, StrictlyAscendingDecls;
    var outer, inner, n := Scope(path[..|path| - 1]), Scope(path), path[|path| - 1];
    KnowsIsValid(c, s, outer, out);
    var seen := PhasesVisit(c, s, path, out);
    var acc := ExclusivePhases(c, s, path);
    InnerGrows(path);
    SeenAreWanted(c, n, inner, seen);
    ExclusiveAfter(c, s, outer, inner, out, Wanted(c, n, inner), seen, acc);
    ListsDefaultIs(c.inclusivePrefixes);
    assert forall i :: 0 <= i < |n.attrs| && n.attrs[i].ns.Some? ==> !IsEmptyDefault(n.attrs[i].ns.value);
    assert [] + DeclEvents(acc.list) == DeclEvents(acc.list);
    CorrectAxisAscends(c, path, out, ExclusiveAxis(c, s, path, true));
  }

  lemma KnowsIsValid(c: Config, s: Stack, outer: Bindings, out: Bindings)
    requires Knows(c, s, outer, out)
    ensures Valid(s)
  {
  }

  lemma InnerGrows(path: seq<Node>)
    requires path != [] && path[|path| - 1].Element?
    ensures Scope(path[..|path| - 1]).Keys <= Scope(path).Keys
  {
    BindKeys(Scope(path[..|path| - 1]), path[|path| - 1].nsDef);
  }

  /** What the three phases visit is what the element wants, up to an undeclared default. */
  lemma SeenAreWanted(c: Config, n: Node, inner: Bindings, all: set<string>)
    requires c.exclusive && n.Element?
    requires all == Listed(c.inclusivePrefixes) * inner.Keys
                    + ({PrefixOf(n)} - {"xml"} - (if "" in inner then {} else {""})) + AttrPrefixes(n.attrs)
    ensures var used := Wanted(c, n, inner);
            && used - {""} <= all <= used && ("" in inner ==> all == used)
            && Listed(c.inclusivePrefixes) * inner.Keys <= all && (n.ns.None? ==> "" in used)
  {
    hide Listed;
  }

  lemma ExclusiveAfter(c: Config, s: Stack, outer: Bindings, inner: Bindings, out: Bindings,
                       used: set<string>, seen: set<string>, acc: Acc)
    requires AllVisible(c) && c.exclusive && Knows(c, s, outer, out) && outer.Keys <= inner.Keys
    requires InProgress(s, out, inner, seen, acc) && Valid(acc.stack)
    requires used - {""} <= seen <= used && ("" in inner ==> seen == used)
    requires Listed(c.inclusivePrefixes) * inner.Keys <= seen
    ensures acc.list == SortedOf(NewDecls(out, inner, used))
    ensures Knows(c, Shift(acc.stack), inner, out + NewDecls(out, inner, used))
    ensures !acc.hasEmpty && "" in used ==> FindExclusive(c.vis, acc.stack, DEFAULT_NS)
    ensures !acc.hasEmpty && "" in Listed(c.inclusivePrefixes) ==> Find(acc.stack, DEFAULT_NS)
  {
    var decls := NewDecls(out, inner, used);
    assert Tracks(s.entries, out, "");
    assert NewDecls(out, inner, seen) == decls;
    var added := acc.stack.entries[|s.entries|..];
    assert acc.stack.entries == s.entries + added && acc.stack.entries[0..] == acc.stack.entries;
    TopConcat(s.entries, added, "");
    assert Holds(added, seen, inner, "");
    hide Top, Listed, NewDecls, SortedOf;
    forall p ensures Tracks(s.entries + added, out + decls, p) {
      StillTracks(s.entries, added, inner, out, used, seen, p);
    }
    forall p | p in Listed(c.inclusivePrefixes) ensures Carries(Shift(acc.stack), inner, out + decls, p) {
      assert Carries(s, outer, out, p) && Holds(added, seen, inner, p);
      StillCarries(s, added, outer, inner, out, used, seen, acc.stack, p);
    }
  }

  lemma StillCarries(s: Stack, added: seq<Entry>, outer: Bindings, inner: Bindings, out: Bindings,
                     used: set<string>, seen: set<string>, t: Stack, p: string)
    requires Valid(s) && Valid(t) && t.entries == s.entries + added && t.prevEnd == s.prevEnd == |s.entries|
    requires outer.Keys <= inner.Keys && Carries(s, outer, out, p) && Holds(added, seen, inner, p)
    requires seen <= used && (p in inner ==> p in seen) && seen <= inner.Keys
    ensures Carries(Shift(t), inner, out + NewDecls(out, inner, used), p)
  {
    hide Top;
    assert Shift(t).entries[Shift(t).prevStart..] == added;
  }

  lemma StillTracks(entries: seq<Entry>, added: seq<Entry>, inner: Bindings, out: Bindings,
                    used: set<string>, seen: set<string>, p: string)
    requires Tracks(entries, out, p) && Holds(added, seen, inner, p)
    requires seen <= inner.Keys && seen <= used && NewDecls(out, inner, used) == NewDecls(out, inner, seen)
    ensures Tracks(entries + added, out + NewDecls(out, inner, used), p)
  {
    TopConcat(entries, added, p);
  }
}
