/**
 Inclusive canonicalization of a part of a document: what a reader of the output has in
 scope at each visible element follows from the visible namespace nodes alone. Whether a
 declaration is repeated is not said here.
 */
module C14nSubsets {
  import opened Common
  import opened XmlTree
  import A = Attributes
  import opened C14n
  import opened C14nReference
  import opened C14nTheorems
  import Scopes = C14nScopes

  // ---- the visible namespace nodes ----

  /** The namespace nodes of the element at the end of a path that are visible. */
  function VisibleScope(c: Config, path: seq<Node>): Bindings
    requires path != []
  {
    map p | p in Scope(path) && Found(path, p) && c.vis(SearchNs(path, p).value.addr, Some(path[|path| - 1].addr))
      :: Scope(path)[p]
  }

  predicate Found(path: seq<Node>, p: string) { SearchNs(path, p).Some? }

  /** Namespace nodes are visible only on visible elements. */
  ghost predicate Reasonable(c: Config, up: seq<Node>, n: Node)
    decreases n
  {
    n.Element? ==>
      && (!c.vis(n.addr, A.AddrOfLast(up)) ==> Silent(c, up + [n]))
      && forall i :: 0 <= i < |n.children| ==> Reasonable(c, up + [n], n.children[i])
  }

  ghost predicate Silent(c: Config, path: seq<Node>)
    requires path != []
  {
    forall i :: 0 <= i < |Candidates(path)| ==> !c.vis(Candidates(path)[i].addr, Some(path[|path| - 1].addr))
  }

  /** The scope of a visible element below what its nearest visible ancestor has in scope:
      its visible namespace nodes, its ancestor's prefixes, which cannot be taken back, and
      a default namespace only if it has one itself. */
  function ScopeBelow(c: Config, above: Bindings, path: seq<Node>): Bindings
    requires path != []
  {
    (above - {""}) + VisibleScope(c, path)
  }

  /** The scopes of the visible elements, in document order; an empty default counts as none. */
  function VisibleScopes(c: Config, up: seq<Node>, n: Node, above: Bindings): seq<Bindings>
    decreases n, 1
  {
    if n.Element? && c.vis(n.addr, A.AddrOfLast(up)) then
      var here := ScopeBelow(c, above, up + [n]);
      [Norm(here)] + VisibleScopesOf(c, up + [n], n.children, here)
    else if n.Element? then VisibleScopesOf(c, up + [n], n.children, above)
    else []
  }

  function VisibleScopesOf(c: Config, up: seq<Node>, nodes: seq<Node>, above: Bindings): seq<Bindings>
    decreases nodes, 0
  {
    if nodes == [] then [] else VisibleScopes(c, up, nodes[0], above) + VisibleScopesOf(c, up, nodes[1..], above)
  }

  /** A scope that has these bindings, and a default namespace only if they do. */
  ghost predicate Covers(scope: Bindings, own: Bindings)
  {
    (forall p :: p in own ==> Lookup(scope, p) == Some(own[p])) && Lookup(scope, "") == Lookup(own, "")
  }

  ghost predicate Agree(a: Bindings, b: Bindings)
  {
    forall p :: Lookup(a, p) == Lookup(b, p)
  }

  // ---- what the stack knows ----

  /** The window has the visible namespace nodes of the nearest visible ancestor, and the
      output covers them; a default that is not on the stack is not in the output. */
  ghost predicate Covering(s: Stack, own: Bindings, out: Bindings)
  {
    && Valid(s) && s.prevEnd == |s.entries|
    && HoldsAll(s.entries[s.prevStart..], own.Keys, own)
    && Covers(out, own)
    && (NoDefault(s.entries) ==> Lookup(out, "") == Some(""))
  }

  predicate NoDefault(entries: seq<Entry>)
  {
    var t := Top(entries, "");
    t.None? || Uri(t.value.ns) == ""
  }

  /** The axis in progress: seen are the prefixes visited. What was not listed is in the
      output already. */
  ghost predicate Underway(s: Stack, out: Bindings, own: Bindings, seen: set<string>, acc: Acc)
  {
    && Extends(s, acc.stack) && seen <= own.Keys
    && HoldsAll(acc.stack.entries[|s.entries|..], seen, own)
    && ListedFrom(acc.list, own) && Provided(out, acc.list, own, seen)
    && (acc.hasEmpty <==> "" in seen)
  }

  ghost predicate ListedFrom(list: seq<(string, string)>, own: Bindings)
  {
    forall e :: e in list ==> e.0 in own && e.1 == own[e.0]
  }

  ghost predicate Provided(out: Bindings, list: seq<(string, string)>, own: Bindings, seen: set<string>)
  {
    forall p :: p in seen && p in own ==> (p, own[p]) in list || Lookup(out, p) == Some(own[p])
  }

  lemma {:induction false} InsertPairMembers(s: seq<(string, string)>, k: string, v: string, e: (string, string))
    ensures e in InsertPair(s, k, v) <==> e == (k, v) || e in s
  {
    if s != [] && StrCmp(s[0].0, k) < 0 {
      assert s == [s[0]] + s[1..];
      InsertPairMembers(s[1..], k, v, e);
    }
  }

  lemma FindMeans(s: Stack, added: seq<Entry>, parent: Bindings, own: Bindings, out: Bindings, seen: set<string>, t: Stack, ns: Ns)
    requires Covering(s, parent, out) && Valid(t) && t.entries == s.entries + added && t.prevStart == s.prevStart
    requires HoldsAll(added, seen, own) && ns.prefix !in seen && Find(t, ns)
    ensures Lookup(out, ns.prefix) == Some(Uri(ns))
  {
    var p, window := ns.prefix, s.entries[s.prevStart..];
    assert Holds(added, seen, own, p) && Holds(window, parent.Keys, parent, p);
    hide Top, HoldsAll;
    assert t.entries[s.prevStart..] == window + added && t.entries[0..] == s.entries + added;
    TopConcat(window, added, p);
    TopConcat(s.entries, added, p);
  }

  lemma ShowStep(s: Stack, parent: Bindings, own: Bindings, out: Bindings, seen: set<string>, acc: Acc, ns: Ns, node: Addr)
    requires Covering(s, parent, out) && Underway(s, out, own, seen, acc) && Valid(acc.stack)
    requires ns.prefix in own && own[ns.prefix] == Uri(ns)
    ensures Underway(s, out, own, seen + {ns.prefix}, Visit(acc, ns, node, true, !Find(acc.stack, ns)))
  {
    hide HoldsAll, Covering, Find;
    var found := Find(acc.stack, ns);
    var r := Visit(acc, ns, node, true, !found);
    var added := acc.stack.entries[|s.entries|..];
    assert acc.stack.entries == s.entries + added;
    assert r.stack.entries[|s.entries|..] == added + [Entry(ns, node)];
    PushHoldsAll(added, Entry(ns, node), seen, own);
    if found && ns.prefix !in seen {
      FindMeans(s, added, parent, own, out, seen, acc.stack, ns);
    }
    ListStep(out, own, seen, acc.list, ns, found);
  }

  lemma ListStep(out: Bindings, own: Bindings, seen: set<string>, list: seq<(string, string)>, ns: Ns, found: bool)
    requires ListedFrom(list, own) && Provided(out, list, own, seen) && ns.prefix in own && own[ns.prefix] == Uri(ns)
    requires found && ns.prefix !in seen ==> Lookup(out, ns.prefix) == Some(Uri(ns))
    ensures var l := if found then list else InsertPair(list, ns.prefix, Uri(ns));
            ListedFrom(l, own) && Provided(out, l, own, seen + {ns.prefix})
  {
    hide Lookup;
    var l := if found then list else InsertPair(list, ns.prefix, Uri(ns));
    forall e ensures e in l <==> e in list || (!found && e == (ns.prefix, Uri(ns))) {
      InsertPairMembers(list, ns.prefix, Uri(ns), e);
    }
  }

  // ---- the axis of a visible element ----

  predicate Shown(c: Config, path: seq<Node>, ns: Ns)
    requires path != []
  {
    Matches(path, ns) && c.vis(ns.addr, Some(path[|path| - 1].addr))
  }

  function ShownPrefixes(c: Config, path: seq<Node>, todo: seq<Ns>): set<string>
    requires path != []
  {
    set i | 0 <= i < |todo| && Shown(c, path, todo[i]) :: todo[i].prefix
  }

  lemma ShownCons(c: Config, path: seq<Node>, todo: seq<Ns>)
    requires path != [] && todo != []
    ensures ShownPrefixes(c, path, todo)
            == (if Shown(c, path, todo[0]) then {todo[0].prefix} else {}) + ShownPrefixes(c, path, todo[1..])
  {
    hide Shown;
    assert forall i :: 0 <= i < |todo[1..]| ==> todo[1..][i] == todo[i + 1];
    forall p | p in ShownPrefixes(c, path, todo)
      ensures p in (if Shown(c, path, todo[0]) then {todo[0].prefix} else {}) + ShownPrefixes(c, path, todo[1..])
    {
      var i :| 0 <= i < |todo| && Shown(c, path, todo[i]) && todo[i].prefix == p;
      if i > 0 { assert todo[1..][i - 1] == todo[i]; }
    }
  }

  lemma ShownIsBound(c: Config, path: seq<Node>, ns: Ns)
    requires IsPath(path) && path != [] && PointersInScope(path[..|path| - 1]) && Shown(c, path, ns)
    ensures ns.prefix in VisibleScope(c, path) && VisibleScope(c, path)[ns.prefix] == Uri(ns)
  {
    hide SearchFrom, PointersInScope, Scope;
    MatchIsBinding(path, ns);
  }

  lemma ShownAreAll(c: Config, path: seq<Node>)
    requires IsPath(path) && path != [] && PointersInScope(path[..|path| - 1])
    ensures ShownPrefixes(c, path, Candidates(path)) == VisibleScope(c, path).Keys
  {
    hide SearchFrom, PointersInScope, Scope, Candidates, Shown;
    var all := Candidates(path);
    forall p | p in VisibleScope(c, path) ensures p in ShownPrefixes(c, path, all) {
      VisibleIsShown(c, path, p);
    }
    forall p | p in ShownPrefixes(c, path, all) ensures p in VisibleScope(c, path) {
      var i :| 0 <= i < |all| && Shown(c, path, all[i]) && all[i].prefix == p;
      ShownIsBound(c, path, all[i]);
    }
  }

  lemma VisibleIsShown(c: Config, path: seq<Node>, p: string)
    requires IsPath(path) && path != [] && PointersInScope(path[..|path| - 1]) && p in VisibleScope(c, path)
    ensures p in ShownPrefixes(c, path, Candidates(path))
  {
    hide SearchFrom, PointersInScope, Scope, Candidates;
    ScopeHasNoXml(path);
    SearchIsScope(path, p, true);
    var ns := SearchFrom(path, p, true).value;
    assert Shown(c, path, ns);
    hide Shown;
    var all := Candidates(path);
    var i :| 0 <= i < |all| && all[i] == ns;
  }

  lemma {:induction false} FoldShows(c: Config, path: seq<Node>, s: Stack, parent: Bindings, out: Bindings,
                                     seen: set<string>, acc: Acc, todo: seq<Ns>)
    requires IsPath(path) && path != [] && PointersInScope(path[..|path| - 1]) && Valid(acc.stack)
    requires Covering(s, parent, out) && Underway(s, out, VisibleScope(c, path), seen, acc)
    ensures Underway(s, out, VisibleScope(c, path), seen + ShownPrefixes(c, path, todo),
                     InclusiveFold(c, path, true, acc, todo))
    decreases |todo|
  {
    hide Covering, Underway, VisibleScope, PointersInScope, Find, SearchNs, Shown;
    if todo == [] {
      assert seen + ShownPrefixes(c, path, todo) == seen;
    } else {
      var ns, cur := todo[0], path[|path| - 1].addr;
      ShownCons(c, path, todo);
      StepShows(c, path, acc, ns);
      var next := InclusiveStep(c, path, true, acc, ns);
      var seen' := if Shown(c, path, ns) then seen + {ns.prefix} else seen;
      if Shown(c, path, ns) {
        ShownIsBound(c, path, ns);
        ShowStep(s, parent, VisibleScope(c, path), out, seen, acc, ns, cur);
      }
      FoldShows(c, path, s, parent, out, seen', next, todo[1..]);
      assert seen' + ShownPrefixes(c, path, todo[1..]) == seen + ShownPrefixes(c, path, todo);
    }
  }

  lemma StepShows(c: Config, path: seq<Node>, acc: Acc, ns: Ns)
    requires path != [] && Valid(acc.stack)
    ensures InclusiveStep(c, path, true, acc, ns)
            == if Shown(c, path, ns) then Visit(acc, ns, path[|path| - 1].addr, true, !Find(acc.stack, ns)) else acc
  {
    hide Find, SearchNs, Visit;
  }

  /** Declarations read one after the other. */
  function Overlay(m: Bindings, list: seq<(string, string)>): Bindings
  {
    if list == [] then m else Overlay(m, list[..|list| - 1])[list[|list| - 1].0 := list[|list| - 1].1]
  }

  lemma {:induction false} OverlayAt(m: Bindings, list: seq<(string, string)>, p: string)
    ensures (forall e :: e in list ==> e.0 != p) ==>
              Lookup(Overlay(m, list), p) == Lookup(m, p)
    ensures forall u :: (p, u) in list && (forall e :: e in list && e.0 == p ==> e.1 == u) ==>
              Lookup(Overlay(m, list), p) == Some(u)
  {
    if list != [] {
      var init, last := list[..|list| - 1], list[|list| - 1];
      assert list == init + [last];
      OverlayAt(m, init, p);
    }
  }

  function WithEmpty(first: bool, list: seq<(string, string)>): seq<(string, string)>
  {
    if first then [("", "")] + list else list
  }

  lemma WithEmptyEvents(first: bool, list: seq<(string, string)>)
    ensures (if first then [Decl("", "")] else []) + DeclEvents(list) == DeclEvents(WithEmpty(first, list))
  {
    assert [] + DeclEvents(list) == DeclEvents(list);
    if first {
      DeclEventsCons([("", "")] + list);
      assert ([("", "")] + list)[1..] == list;
    }
  }

  /** What a visible element declares covers its visible namespace nodes. */
  lemma AxisCovers(c: Config, s: Stack, path: seq<Node>, parent: Bindings, out: Bindings)
    returns (list: seq<(string, string)>)
    requires IsPath(path) && path != [] && PointersInScope(path[..|path| - 1]) && Covering(s, parent, out)
    ensures Valid(s)
    ensures var r := InclusiveAxis(c, s, path, true);
            && r.out == DeclEvents(list) && Covering(Shift(r.stack), VisibleScope(c, path), Overlay(out, list))
            && Agree(Overlay(out, list), (out - {""}) + VisibleScope(c, path))
  {
    KnownValid(s, parent, out);
    hide Covering, Underway, VisibleScope, PointersInScope, Find, InclusiveFold, DeclEvents, Overlay, Candidates, Agree;
    var start, own := Acc(s, [], false), VisibleScope(c, path);
    NothingYet(s, parent, out, own);
    FoldShows(c, path, s, parent, out, {}, start, Candidates(path));
    ShownAreAll(c, path);
    assert {} + own.Keys == own.Keys;
    var acc := InclusiveFold(c, path, true, start, Candidates(path));
    var first := !acc.hasEmpty && !Find(acc.stack, DEFAULT_NS);
    WithEmptyEvents(first, acc.list);
    AfterAxis(s, parent, own, out, acc, first);
    CoveringCovers(Shift(acc.stack), own, Overlay(out, WithEmpty(first, acc.list)));
    EmptyIsSeen(s, out, own, acc);
    OnlyVisible(own, out, acc, first, s);
    list := WithEmpty(first, acc.list);
  }

  lemma EmptyIsSeen(s: Stack, out: Bindings, own: Bindings, acc: Acc)
    requires Underway(s, out, own, own.Keys, acc)
    ensures acc.hasEmpty <==> "" in own
  {
  }

  lemma KnownValid(s: Stack, parent: Bindings, out: Bindings)
    requires Covering(s, parent, out)
    ensures Valid(s)
  {
  }

  lemma NothingYet(s: Stack, parent: Bindings, out: Bindings, own: Bindings)
    requires Covering(s, parent, out)
    ensures Underway(s, out, own, {}, Acc(s, [], false))
  {
    assert s.entries[|s.entries|..] == [];
  }

  lemma AfterAxis(s: Stack, parent: Bindings, own: Bindings, out: Bindings, acc: Acc, first: bool)
    requires Covering(s, parent, out) && Underway(s, out, own, own.Keys, acc) && Valid(acc.stack)
    requires first <==> !acc.hasEmpty && !Find(acc.stack, DEFAULT_NS)
    ensures Covering(Shift(acc.stack), own, Overlay(out, WithEmpty(first, acc.list)))
  {
    hide HoldsAll, Overlay, Find;
    var list := WithEmpty(first, acc.list);
    var added := acc.stack.entries[|s.entries|..];
    assert acc.stack.entries == s.entries + added;
    var t := Shift(acc.stack);
    assert t.entries[t.prevStart..] == added;
    forall p | p in own ensures Lookup(Overlay(out, list), p) == Some(own[p]) {
      BoundAfter(own, out, acc, first, p);
    }
    if "" !in own {
      NoDefaultAfter(s, parent, own, out, acc, first);
    }
    assert HoldsAll(added, own.Keys, own);
    DefaultAfter(s.entries, added, own);
  }

  /** Nothing but visible namespace nodes is declared. */
  lemma OnlyVisible(own: Bindings, out: Bindings, acc: Acc, first: bool, s: Stack)
    requires Underway(s, out, own, own.Keys, acc) && (first ==> "" !in own)
    requires Covers(Overlay(out, WithEmpty(first, acc.list)), own)
    ensures Agree(Overlay(out, WithEmpty(first, acc.list)), (out - {""}) + own)
  {
    hide Overlay, HoldsAll;
    var list := WithEmpty(first, acc.list);
    var scope := Overlay(out, list);
    forall p ensures Lookup(scope, p) == Lookup((out - {""}) + own, p) {
      if p !in own && p != "" {
        OverlayAt(out, list, p);
        forall e | e in list ensures e.0 != p {
          assert e in acc.list || (first && e == ("", ""));
        }
      }
    }
  }

  lemma BoundAfter(own: Bindings, out: Bindings, acc: Acc, first: bool, p: string)
    requires ListedFrom(acc.list, own) && Provided(out, acc.list, own, own.Keys) && p in own
    requires first ==> "" !in own
    ensures Lookup(Overlay(out, WithEmpty(first, acc.list)), p) == Some(own[p])
  {
    hide Overlay;
    var list := WithEmpty(first, acc.list);
    OverlayAt(out, list, p);
    if (p, own[p]) in acc.list {
      assert (p, own[p]) in list;
    } else {
      forall e | e in list ensures e.0 != p {
        assert e in acc.list || (first && e == ("", ""));
      }
    }
  }

  lemma NoDefaultAfter(s: Stack, parent: Bindings, own: Bindings, out: Bindings, acc: Acc, first: bool)
    requires Covering(s, parent, out) && Underway(s, out, own, own.Keys, acc) && Valid(acc.stack) && "" !in own
    requires first <==> !acc.hasEmpty && !Find(acc.stack, DEFAULT_NS)
    ensures Lookup(Overlay(out, WithEmpty(first, acc.list)), "") == Some("")
  {
    hide Overlay, Find;
    var list := WithEmpty(first, acc.list);
    OverlayAt(out, list, "");
    if first {
      assert list[0] == ("", "");
      assert ("", "") in list;
    } else {
      var added := acc.stack.entries[|s.entries|..];
      assert acc.stack.entries == s.entries + added;
      FindMeans(s, added, parent, own, out, own.Keys, acc.stack, DEFAULT_NS);
    }
  }

  lemma DefaultAfter(entries: seq<Entry>, added: seq<Entry>, own: Bindings)
    requires HoldsAll(added, own.Keys, own)
    ensures NoDefault(entries + added) ==> Lookup(own, "") == Some("")
  {
    assert Holds(added, own.Keys, own, "");
    TopConcat(entries, added, "");
  }

  // ---- an element that is not visible ----

  lemma {:induction false} FoldSilent(c: Config, path: seq<Node>, acc: Acc, todo: seq<Ns>)
    requires path != [] && Valid(acc.stack)
    requires forall i :: 0 <= i < |todo| ==> !c.vis(todo[i].addr, Some(path[|path| - 1].addr))
    ensures InclusiveFold(c, path, false, acc, todo) == acc
    decreases |todo|
  {
    if todo != [] { FoldSilent(c, path, acc, todo[1..]); }
  }

  /** It leaves no declaration and nothing on the stack. */
  lemma SilentAxis(c: Config, s: Stack, path: seq<Node>)
    requires path != [] && Valid(s) && Silent(c, path)
    ensures InclusiveAxis(c, s, path, false) == AxisResult(s, [])
  {
    hide InclusiveFold, Find;
    FoldSilent(c, path, Acc(s, [], false), Candidates(path));
    DeclEventsCons([]);
  }

  // ---- reading the output ----

  lemma {:induction false} ReadAnyDecls(r: Reader, list: seq<(string, string)>)
    requires r.scopes != []
    ensures var r' := Read(r, DeclEvents(list));
            r'.(redundant := false)
            == r.(scopes := r.scopes[|r.scopes| - 1 := Overlay(TopScope(r), list)], redundant := false)
  {
    hide Read, DeclEvents;
    if list == [] {
      DeclEventsCons(list);
      ReadNothing(r);
      assert r.scopes[|r.scopes| - 1 := TopScope(r)] == r.scopes;
    } else {
      var init, last := list[..|list| - 1], list[|list| - 1];
      DeclEventsSnoc(list);
      ReadAnyDecls(r, init);
      ReadConcat(r, DeclEvents(init), [Decl(last.0, last.1)]);
      ReadOne(Read(r, DeclEvents(init)), Decl(last.0, last.1));
    }
  }

  lemma DeclEventsSnoc(list: seq<(string, string)>)
    requires list != []
    ensures DeclEvents(list)
            == DeclEvents(list[..|list| - 1]) + [Decl(list[|list| - 1].0, list[|list| - 1].1)]
  {
  }

  /** What reading a piece of output does: the same elements are open, and the given scopes
      were seen. */
  ghost predicate Gained(b: Reader, a: Reader, seen: seq<Bindings>)
  {
    a.scopes == b.scopes && a.kept == b.kept && Scopes.ScopesRead(a.items) == Scopes.ScopesRead(b.items) + seen
  }

  lemma GainedTrans(b: Reader, m: Reader, a: Reader, x: seq<Bindings>, y: seq<Bindings>)
    requires Gained(b, m, x) && Gained(m, a, y)
    ensures Gained(b, a, x + y)
  {
    hide Scopes.ScopesRead;
  }

  lemma GainedNothing(b: Reader, a: Reader)
    requires a.scopes == b.scopes && a.kept == b.kept && Scopes.ScopesRead(a.items) == Scopes.ScopesRead(b.items)
    ensures Gained(b, a, [])
  {
    hide Scopes.ScopesRead;
  }

  lemma ReadTag(r: Reader, prefix: string, name: string, list: seq<(string, string)>, attrs: seq<Attr>)
    requires r.kept.None?
    ensures var es := [Open(prefix, name)] + DeclEvents(list) + AttrEvents(attrs) + [EndOpen];
            var a := Read(r, es);
            var scope := Overlay(TopScope(r), list);
            && a.scopes == r.scopes + [scope] && a.kept.None?
            && Scopes.ScopesRead(a.items) == Scopes.ScopesRead(r.items) + [Norm(scope)]
  {
    hide Read, DeclEvents, AttrEvents, Overlay, Norm, Scopes.ScopesRead, ReadAttrs;
    var o, d, t := [Open(prefix, name)], DeclEvents(list), AttrEvents(attrs);
    ReadConcat(r, o + d + t, [EndOpen]);
    ReadConcat(r, o + d, t);
    ReadConcat(r, o, d);
    ReadOne(r, o[0]);
    var r0 := Read(r, o);
    ReadAnyDecls(r0, list);
    var r1 := Read(r0, d);
    assert r1.scopes == r.scopes + [Overlay(TopScope(r), list)];
    ReadAttrEvents(r1, attrs);
    var r2 := Read(r1, t);
    ReadOne(r2, EndOpen);
    var a := Read(r2, [EndOpen]);
    assert a.items == r.items + [a.items[|r.items|]];
    Scopes.ScopesOne(r.items, a.items[|r.items|]);
  }

  // ---- the walk ----

  /** Where the walk is: parent are the visible namespace nodes of the nearest visible
      ancestor, above is what the output has in scope there. */
  ghost predicate Going(c: Config, start: Reader, st: State, up: seq<Node>, parent: Bindings, above: Bindings)
  {
    && !c.exclusive && start.kept.None? && IsPath(up) && PointersInScope(up)
    && Covering(st.stack, parent, TopScope(Read(start, st.out))) && Agree(TopScope(Read(start, st.out)), above)
  }

  lemma {:induction false} KeptStays(r: Reader, es: seq<Event>)
    ensures Read(r, es).kept == r.kept
    decreases |es|
  {
    if es != [] { KeptStays(Read1(r, es[0]), es[1..]); }
  }

  lemma VisibleStart(c: Config, start: Reader, st: State, up: seq<Node>, n: Node, parent: Bindings, above: Bindings)
    requires Going(c, start, st, up, parent, above) && Valid(st.stack) && n.Element? && PointerInScope(up + [n])
    ensures var st1, here := StartElement(c, st, up, n, true), ScopeBelow(c, above, up + [n]);
            var b, a := Read(start, st.out), Read(start, st1.out);
            && Going(c, start, st1, up + [n], VisibleScope(c, up + [n]), here)
            && a.scopes == b.scopes + [TopScope(a)] && a.kept == b.kept
            && Scopes.ScopesRead(a.items) == Scopes.ScopesRead(b.items) + [Norm(here)]
  {
    hide InclusiveAxis, Covering, VisibleScope, PointersInScope, PointerInScope, Read, A.AttrAxis, AttrEvents, DeclEvents;
    hide Overlay, Norm, Scopes.ScopesRead, Agree;
    var path := up + [n];
    assert path[..|up|] == up;
    PathGrows(up, n);
    var b := Read(start, st.out);
    var list := AxisCovers(c, st.stack, path, parent, TopScope(b));
    var attrs := A.AttrAxis(c.vis, c.exclusive, up, n, true);
    var es := [Open(PrefixOf(n), n.name)] + DeclEvents(list) + AttrEvents(attrs) + [EndOpen];
    HeadAssoc(st.out, [Open(PrefixOf(n), n.name)], DeclEvents(list), AttrEvents(attrs), [EndOpen]);
    KeptStays(start, st.out);
    ReadConcat(start, st.out, es);
    ReadTag(b, PrefixOf(n), n.name, list, attrs);
    SameBelow(c, Overlay(TopScope(b), list), TopScope(b), above, path);
  }

  lemma SameBelow(c: Config, scope: Bindings, out: Bindings, above: Bindings, path: seq<Node>)
    requires path != [] && Agree(out, above) && Agree(scope, (out - {""}) + VisibleScope(c, path))
    ensures Agree(scope, ScopeBelow(c, above, path)) && Norm(scope) == Norm(ScopeBelow(c, above, path))
  {
    hide Norm, VisibleScope;
    var here := ScopeBelow(c, above, path);
    forall p ensures Lookup(scope, p) == Lookup(here, p) {
      assert Lookup(scope, p) == Lookup((out - {""}) + VisibleScope(c, path), p);
      assert Lookup(out, p) == Lookup(above, p);
    }
    NormEqual(scope, here, None);
  }

  lemma CoveringCovers(s: Stack, own: Bindings, out: Bindings)
    requires Covering(s, own, out)
    ensures Covers(out, own)
  {
  }

  lemma HiddenStart(c: Config, start: Reader, st: State, up: seq<Node>, n: Node, parent: Bindings, above: Bindings)
    requires Going(c, start, st, up, parent, above) && Valid(st.stack) && n.Element? && PointerInScope(up + [n])
    requires Silent(c, up + [n])
    ensures var st1 := StartElement(c, st, up, n, false);
            && Going(c, start, st1, up + [n], parent, above)
            && Gained(Read(start, st.out), Read(start, st1.out), [])
  {
    hide InclusiveAxis, Covering, PointersInScope, PointerInScope, Read, A.AttrAxis, AttrEvents, Silent, Gained, Agree;
    PathGrows(up, n);
    SilentAxis(c, st.stack, up + [n]);
    var attrs := A.AttrAxis(c.vis, c.exclusive, up, n, false);
    assert st.out + [] + AttrEvents(attrs) == st.out + AttrEvents(attrs);
    ReadConcat(start, st.out, AttrEvents(attrs));
    ReadAttrEvents(Read(start, st.out), attrs);
    GainedNothing(Read(start, st.out), Read(start, StartElement(c, st, up, n, false).out));
  }

  lemma {:induction false} NodeCovers(c: Config, start: Reader, st: State, up: seq<Node>, n: Node,
                                      parent: Bindings, above: Bindings)
    requires Going(c, start, st, up, parent, above) && Valid(st.stack) && Sound(up, n, false) && Reasonable(c, up, n)
    requires ProcessNode(c, st, up, n).Ok?
    ensures Gained(Read(start, st.out), Read(start, ProcessNode(c, st, up, n).value.out), VisibleScopes(c, up, n, above))
    decreases n, 1
  {
    hide Going, StartElement, Covering, PointersInScope, PointerInScope, Read, Gained, ProcessNodes, VisibleScopesOf;
    hide VisibleScope, ScopeBelow, Silent, HasRelative, Consistent, Norm;
    if n.Element? {
      var visible := c.vis(n.addr, A.AddrOfLast(up));
      var st1 := StartElement(c, st, up, n, visible);
      var st2 := ProcessNodes(c, st1, up + [n], n.children).value;
      if visible {
        var here := ScopeBelow(c, above, up + [n]);
        VisibleStart(c, start, st, up, n, parent, above);
        NodesCover(c, start, st1, up + [n], n.children, VisibleScope(c, up + [n]), here);
        CloseCovers(start, st.out, st1.out, st2.out, Close(PrefixOf(n), n.name), Norm(here),
                    VisibleScopesOf(c, up + [n], n.children, here));
      } else {
        HiddenStart(c, start, st, up, n, parent, above);
        NodesCover(c, start, st1, up + [n], n.children, parent, above);
        var inside := VisibleScopesOf(c, up + [n], n.children, above);
        GainedTrans(Read(start, st.out), Read(start, st1.out), Read(start, st2.out), [], inside);
        assert [] + inside == inside;
      }
    } else {
      LeafCovers(c, start, st, up, n);
    }
  }

  lemma CloseCovers(start: Reader, before: seq<Event>, tagged: seq<Event>, inner: seq<Event>, close: Event,
                    here: Bindings, inside: seq<Bindings>)
    requires close.Close?
    requires var b, m, k := Read(start, before), Read(start, tagged), Read(start, inner);
             && m.scopes == b.scopes + [TopScope(m)] && m.kept == b.kept && Gained(m, k, inside)
             && Scopes.ScopesRead(m.items) == Scopes.ScopesRead(b.items) + [here]
    ensures Gained(Read(start, before), Read(start, inner + [close]), [here] + inside)
  {
    hide Read, Scopes.ScopesRead;
    var b, m, k := Read(start, before), Read(start, tagged), Read(start, inner);
    ReadConcat(start, inner, [close]);
    ReadOne(k, close);
    assert k.scopes[..|k.scopes| - 1] == b.scopes;
    Scopes.ScopesOne(k.items, End);
    var s := Scopes.ScopesRead(b.items);
    assert s + [here] + inside + [] == s + ([here] + inside);
  }

  lemma LeafCovers(c: Config, start: Reader, st: State, up: seq<Node>, n: Node)
    requires Valid(st.stack) && !n.Element? && !n.Document? && ProcessNode(c, st, up, n).Ok?
    ensures Gained(Read(start, st.out), Read(start, ProcessNode(c, st, up, n).value.out), [])
  {
    hide Read, Gained, Scopes.ScopesRead;
    var b, out := Read(start, st.out), ProcessNode(c, st, up, n).value.out;
    if out == st.out {
      GainedNothing(b, b);
    } else {
      var e := out[|st.out|];
      assert out == st.out + [e];
      ReadConcat(start, st.out, [e]);
      ReadOne(b, e);
      var a := Read1(b, e);
      assert a.items == b.items + [a.items[|b.items|]];
      Scopes.ScopesOne(b.items, a.items[|b.items|]);
      assert Scopes.ScopesRead(b.items) + [] == Scopes.ScopesRead(b.items);
      GainedNothing(b, a);
    }
  }

  lemma {:induction false} NodesCover(c: Config, start: Reader, st: State, up: seq<Node>, nodes: seq<Node>,
                                      parent: Bindings, above: Bindings)
    requires Going(c, start, st, up, parent, above) && Valid(st.stack) && ProcessNodes(c, st, up, nodes).Ok?
    requires forall i :: 0 <= i < |nodes| ==> Sound(up, nodes[i], false) && Reasonable(c, up, nodes[i])
    ensures Gained(Read(start, st.out), Read(start, ProcessNodes(c, st, up, nodes).value.out),
                   VisibleScopesOf(c, up, nodes, above))
    decreases nodes, 0
  {
    hide Going, Sound, Reasonable, Read, Gained, ProcessNode, VisibleScopes;
    if nodes == [] {
      GainedNothing(Read(start, st.out), Read(start, st.out));
    } else {
      NodeCovers(c, start, st, up, nodes[0], parent, above);
      var st1 := ProcessNode(c, st, up, nodes[0]).value;
      StillGoing(c, start, st, st1, up, parent, above, VisibleScopes(c, up, nodes[0], above));
      NodesCover(c, start, st1, up, nodes[1..], parent, above);
      GainedTrans(Read(start, st.out), Read(start, st1.out), Read(start, ProcessNodes(c, st, up, nodes).value.out),
                  VisibleScopes(c, up, nodes[0], above), VisibleScopesOf(c, up, nodes[1..], above));
    }
  }

  lemma StillGoing(c: Config, start: Reader, st: State, st1: State, up: seq<Node>, parent: Bindings, above: Bindings,
                   seen: seq<Bindings>)
    requires Going(c, start, st, up, parent, above) && st1.stack == st.stack
    requires Gained(Read(start, st.out), Read(start, st1.out), seen)
    ensures Going(c, start, st1, up, parent, above)
  {
    hide Covering, Read, PointersInScope, Scopes.ScopesRead, Agree;
  }

  /** Inclusive mode, every document and every part of it in which only visible elements
      have visible namespace nodes: a reader of the output has exactly the scopes that
      follow from those nodes. */
  lemma VisibleScopesKept(c: Config, doc: Node)
    requires !c.exclusive && SoundDocument(doc, false) && Execute(c, doc).Ok?
    requires forall i :: 0 <= i < |doc.children| ==> Reasonable(c, [doc], doc.children[i])
    ensures var r := Read(Reader([], "", "", [], [], false, None), Execute(c, doc).value);
            r.scopes == [] && Scopes.ScopesRead(r.items) == VisibleScopesOf(c, [doc], doc.children, map[])
  {
    hide Reasonable, Sound, ProcessNodes, VisibleScopesOf, Read;
    var start := Reader([], "", "", [], [], false, None);
    ReadNothing(start);
    RootIsGoing(c, start, doc);
    NodesCover(c, start, EMPTY_STATE, [doc], doc.children, map[], map[]);
    var all := VisibleScopesOf(c, [doc], doc.children, map[]);
    assert Scopes.ScopesRead([]) == [] && [] + all == all;
  }

  lemma RootIsGoing(c: Config, start: Reader, doc: Node)
    requires !c.exclusive && start == Reader([], "", "", [], [], false, None) && doc.Document?
    ensures Going(c, start, EMPTY_STATE, [doc], map[], map[])
  {
    ReadNothing(start);
    assert PointersInScope([doc]) by {
      forall k | 0 < k <= 1 ensures PointerInScope([doc][..k]) { assert [doc][..k] == [doc]; }
    }
    assert EMPTY_STATE.stack.entries[EMPTY_STATE.stack.prevStart..] == [];
  }
}
