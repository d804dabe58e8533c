/**
 Canonicalization in place: the stack as two parallel arrays that grow by doubling,
 and the context whose stack, position and output buffer the walk updates. Every
 method is proved to compute the function of the same name in C14n.
 */
module C14nImpl {
  import opened Common
  import opened XmlTree
  import A = Attributes
  import E = Escape
  import S = C14n

  const NAMESPACES_DEFAULT := 16

  function Zip(a: seq<Ns>, b: seq<Addr>): (r: seq<S.Entry>)
    requires |a| == |b|
    ensures |r| == |a| && forall i :: 0 <= i < |r| ==> r[i] == S.Entry(a[i], b[i])
  {
    seq(|a|, i requires 0 <= i < |a| => S.Entry(a[i], b[i]))
  }

  /** xmlC14NVisibleNsStack. */
  class NsStack {
    var nsTab: array?<Ns>
    var nodeTab: array?<Addr>
    var nsCurEnd: nat
    var nsPrevStart: nat
    var nsPrevEnd: nat
    var nsMax: nat
    ghost var Repr: set<object>

    ghost predicate Valid()
      reads this, Repr
    {
      && this in Repr
      && nsPrevStart <= nsPrevEnd <= nsCurEnd <= nsMax
      && (nsTab == null <==> nodeTab == null)
      && (nsTab == null ==> nsMax == 0)
      && (nsTab != null ==> nsTab in Repr && nodeTab in Repr && nsTab.Length == nodeTab.Length == nsMax > 0)
    }

    ghost function View(): (s: S.Stack)
      requires Valid()
      reads this, Repr
      ensures S.Valid(s) && |s.entries| == nsCurEnd
    {
      S.Stack(if nsTab == null then [] else Zip(nsTab[..nsCurEnd], nodeTab[..nsCurEnd]), nsPrevStart, nsPrevEnd)
    }

    constructor ()
      ensures Valid() && fresh(Repr) && View() == S.Stack([], 0, 0)
    {
      nsTab, nodeTab := null, null;
      nsCurEnd, nsPrevStart, nsPrevEnd, nsMax := 0, 0, 0, 0;
      Repr := {this};
    }

    method Add(ns: Ns, node: Addr)
      requires Valid()
      modifies Repr
      ensures Valid() && fresh(Repr - old(Repr)) && View() == S.Add(old(View()), ns, node)
    {
      ghost var was := View().entries;
      if nsTab == null {
        var ns0, nodes0 := new Ns[NAMESPACES_DEFAULT], new Addr[NAMESPACES_DEFAULT];
        nsTab, nodeTab, nsMax := ns0, nodes0, NAMESPACES_DEFAULT;
        Repr := Repr + {ns0, nodes0};
      } else if nsMax == nsCurEnd {
        Grow();
      }
      assert Zip(nsTab[..nsCurEnd], nodeTab[..nsCurEnd]) == was;
      nsTab[nsCurEnd], nodeTab[nsCurEnd] := ns, node;
      nsCurEnd := nsCurEnd + 1;
      assert Zip(nsTab[..nsCurEnd], nodeTab[..nsCurEnd]) == was + [S.Entry(ns, node)];
    }

    /** Reallocation of both tables to twice the size. */
    method Grow()
      requires Valid() && nsTab != null
      modifies Repr
      ensures Valid() && fresh(Repr - old(Repr)) && View() == old(View())
      ensures nsTab != null && nsMax == 2 * old(nsMax) && nsCurEnd == old(nsCurEnd)
    {
      var size := 2 * nsMax;
      var oldNs, oldNode := nsTab, nodeTab;
      var ns, nodes := new Ns[size], new Addr[size];
      for i := 0 to nsCurEnd
        invariant ns[..i] == oldNs[..i] && nodes[..i] == oldNode[..i]
        invariant Valid() && View() == old(View()) && nsTab == oldNs && nodeTab == oldNode
        invariant unchanged(this) && Repr == old(Repr)
      {
        ns[i], nodes[i] := oldNs[i], oldNode[i];
      }
      nsTab, nodeTab, nsMax := ns, nodes, size;
      Repr := Repr + {ns, nodes};
    }

    method Save() returns (saved: S.Saved)
      requires Valid()
      ensures saved == S.Save(View())
    {
      saved := S.Saved(nsCurEnd, nsPrevStart, nsPrevEnd);
      assert nsTab == null ==> nsCurEnd == 0;
    }

    method Restore(saved: S.Saved)
      requires Valid() && saved.prevStart <= saved.prevEnd <= saved.curEnd <= |View().entries|
      modifies this
      ensures Valid() && Repr == old(Repr) && View() == S.Restore(old(View()), saved)
    {
      ghost var was := View().entries;
      nsCurEnd, nsPrevStart, nsPrevEnd := saved.curEnd, saved.prevStart, saved.prevEnd;
      assert View().entries == was[..saved.curEnd];
    }

    method Shift()
      requires Valid()
      modifies this
      ensures Valid() && Repr == old(Repr) && View() == S.Shift(old(View()))
    {
      ghost var was := View().entries;
      assert |was| == nsCurEnd;
      nsPrevStart, nsPrevEnd := nsPrevEnd, nsCurEnd;
      assert View().entries == was;
    }

    /** The scan both find functions share: the topmost entry at or above start. */
    method Scan(prefix: string, start: nat) returns (r: Option<S.Entry>)
      requires Valid() && start <= nsCurEnd
      ensures r == S.Top(View().entries[start..], prefix)
    {
      ghost var all := View().entries;
      if nsTab != null {
        var i := nsCurEnd;
        assert all[start..i] == all[start..];
        while i > start
          invariant start <= i <= nsCurEnd
          invariant S.Top(all[start..], prefix) == S.Top(all[start..i], prefix)
        {
          i := i - 1;
          assert all[start..i + 1][..i - start] == all[start..i];
          if prefix == nsTab[i].prefix {
            return Some(S.Entry(nsTab[i], nodeTab[i]));
          }
        }
      }
      r := None;
    }

    method Find(ns: Ns) returns (found: bool)
      requires Valid()
      ensures found == S.Find(View(), ns)
    {
      var empty := S.IsEmptyDefault(ns);
      var t := Scan(ns.prefix, if empty then 0 else nsPrevStart);
      found := if t.Some? then Uri(t.value.ns) == Uri(ns) else empty;
    }

    method FindExclusive(vis: A.Visibility, ns: Ns) returns (found: bool)
      requires Valid()
      ensures found == S.FindExclusive(vis, View(), ns)
    {
      var t := Scan(ns.prefix, 0);
      assert View().entries[0..] == View().entries;
      found := if t.Some? then Uri(t.value.ns) == Uri(ns) && vis(t.value.ns.addr, Some(t.value.node))
               else S.IsEmptyDefault(ns);
    }
  }

  lemma ListsDefaultGrows(prefixes: seq<string>, i: nat)
    requires i <= |prefixes|
    ensures i < |prefixes| ==>
              S.ListsDefault(prefixes[..i + 1]) == (S.ListsDefault(prefixes[..i]) || S.NamesDefault(prefixes[i]))
    ensures i == 0 ==> !S.ListsDefault(prefixes[..i])
  {
    if i < |prefixes| {
      var p, q := prefixes[..i], prefixes[..i + 1];
      assert forall k :: 0 <= k < i ==> p[k] == q[k];
      assert q[i] == prefixes[i];
    }
  }

  /** An attribute in the empty default namespace, not otherwise visited. */
  predicate DeclaresEmpty(c: S.Config, cur: Addr, a: Attr)
  {
    !S.UsesNs(c, cur, a) && a.ns.Some? && S.IsEmptyDefault(a.ns.value)
  }

  lemma UtilizesEmptyIs(c: S.Config, n: Node)
    requires n.Element?
    ensures S.UtilizesEmpty(c, n) <==>
            n.ns.None? || exists k :: 0 <= k < |n.attrs| && DeclaresEmpty(c, n.addr, n.attrs[k])
  {
    forall k | 0 <= k < |n.attrs|
      ensures DeclaresEmpty(c, n.addr, n.attrs[k])
              <==> !S.UsesNs(c, n.addr, n.attrs[k]) && n.attrs[k].ns.Some? && S.IsEmptyDefault(n.attrs[k].ns.value)
    {
    }
  }

  /** xmlC14NCtx: the parameters, the stack and what the walk updates. */
  class Canonicalizer {
    const c: S.Config
    const stack: NsStack
    var pos: S.Position
    var parentIsDoc: bool
    var out: seq<S.Event>

    ghost predicate Valid()
      reads this, stack, stack.Repr
    {
      this !in stack.Repr && stack in stack.Repr && stack.Valid()
    }

    ghost function View(): (st: S.State)
      requires Valid()
      reads this, stack, stack.Repr
      ensures S.Valid(st.stack)
    {
      S.State(stack.View(), pos, parentIsDoc, out)
    }

    constructor (config: S.Config)
      ensures Valid() && fresh(stack) && fresh(stack.Repr) && c == config && View() == S.EMPTY_STATE
    {
      c := config;
      stack := new NsStack();
      pos, parentIsDoc, out := S.Before, true, [];
    }

    /** xmlC14NProcessNamespacesAxis. */
    method InclusiveAxis(path: seq<Node>, visible: bool) returns (events: seq<S.Event>)
      requires Valid() && path != []
      modifies stack.Repr
      ensures Valid() && fresh(stack.Repr - old(stack.Repr))
      ensures S.AxisResult(stack.View(), events) == S.InclusiveAxis(c, old(stack.View()), path, visible)
    {
      hide S.InclusiveStep, S.Find, NsStack.View, NsStack.Valid, Defs, S.Valid, S.Extends, S.DeclEvents;
      var list, hasEmpty := [], false;
      ghost var all := S.InclusiveFold(c, path, visible, S.Acc(stack.View(), [], false), Candidates(path));
      var k := |path|;
      assert path[..k] == path;
      while k > 0
        invariant 0 <= k <= |path| && Valid() && fresh(stack.Repr - old(stack.Repr))
        invariant all == S.InclusiveFold(c, path, visible, S.Acc(stack.View(), list, hasEmpty), Candidates(path[..k]))
      {
        k := k - 1;
        var defs := Defs(path[k]);
        assert path[..k + 1][..k] == path[..k];
        assert defs[0..] == defs;
        for j := 0 to |defs|
          invariant Valid() && fresh(stack.Repr - old(stack.Repr))
          invariant all == S.InclusiveFold(c, path, visible, S.Acc(stack.View(), list, hasEmpty),
                                           defs[j..] + Candidates(path[..k]))
        {
          var ns := defs[j];
          assert (defs[j..] + Candidates(path[..k]))[1..] == defs[j + 1..] + Candidates(path[..k]);
          list, hasEmpty := InclusiveStep(path, visible, ns, list, hasEmpty);
        }
        assert defs[|defs|..] + Candidates(path[..k]) == Candidates(path[..k]);
      }
      assert path[..0] == [];
      var first := [];
      if visible && !hasEmpty {
        var found := stack.Find(S.DEFAULT_NS);
        if !found { first := [S.Decl("", "")]; }
      }
      events := first + S.DeclEvents(list);
    }

    method InclusiveStep(path: seq<Node>, visible: bool, ns: Ns, list0: seq<(string, string)>, hasEmpty0: bool)
      returns (list: seq<(string, string)>, hasEmpty: bool)
      requires Valid() && path != []
      modifies stack.Repr
      ensures Valid() && fresh(stack.Repr - old(stack.Repr))
      ensures S.Acc(stack.View(), list, hasEmpty)
              == S.InclusiveStep(c, path, visible, S.Acc(old(stack.View()), list0, hasEmpty0), ns)
    {
      list, hasEmpty := list0, hasEmpty0;
      var cur := path[|path| - 1].addr;
      var tmp := SearchNs(path, ns.prefix);
      if tmp == Some(ns) && !IsXmlNs(ns) && c.vis(ns.addr, Some(cur)) {
        list, hasEmpty := VisitInclusive(ns, cur, visible, list, hasEmpty);
      }
    }

    method VisitInclusive(ns: Ns, cur: Addr, visible: bool, list0: seq<(string, string)>, hasEmpty0: bool)
      returns (list: seq<(string, string)>, hasEmpty: bool)
      requires Valid()
      modifies stack.Repr
      ensures Valid() && fresh(stack.Repr - old(stack.Repr))
      ensures S.Acc(stack.View(), list, hasEmpty)
              == S.Visit(S.Acc(old(stack.View()), list0, hasEmpty0), ns, cur, visible, !S.Find(old(stack.View()), ns))
    {
      list, hasEmpty := list0, hasEmpty0;
      var rendered := stack.Find(ns);
      if visible { stack.Add(ns, cur); }
      if !rendered { list := InsertPair(list, ns.prefix, Uri(ns)); }
      if ns.prefix == "" { hasEmpty := true; }
    }

    /** xmlExcC14NProcessNamespacesAxis. */
    method ExclusiveAxis(path: seq<Node>, visible: bool) returns (events: seq<S.Event>)
      requires Valid() && path != [] && path[|path| - 1].Element?
      modifies stack.Repr
      ensures Valid() && fresh(stack.Repr - old(stack.Repr))
      ensures S.AxisResult(stack.View(), events) == S.ExclusiveAxis(c, old(stack.View()), path, visible)
    {
      hide S.PrefixFold, S.AttrFold, S.Find, S.FindExclusive, NsStack.View, NsStack.Valid, S.Valid, S.Extends, S.UtilizesEmpty, S.ListsDefault, SearchNs, S.DeclEvents;
      hide S.ElementStep;
      var list, hasEmpty, listed := PrefixLoop(path, visible);
      list, hasEmpty := ElementStep(path, visible, list, hasEmpty);
      var utilizesEmpty;
      list, hasEmpty, utilizesEmpty := AttrLoop(path, visible, list, hasEmpty);
      var first := [];
      if visible && utilizesEmpty && !hasEmpty && !listed {
        var rendered := stack.FindExclusive(c.vis, S.DEFAULT_NS);
        if !rendered { first := [S.Decl("", "")]; }
      } else if visible && !hasEmpty && listed {
        var rendered := stack.Find(S.DEFAULT_NS);
        if !rendered { first := [S.Decl("", "")]; }
      }
      events := first + S.DeclEvents(list);
    }

    method VisitExclusive(ns: Ns, cur: Addr, push: bool, wanted: bool, list0: seq<(string, string)>, hasEmpty0: bool)
      returns (list: seq<(string, string)>, hasEmpty: bool)
      requires Valid()
      modifies stack.Repr
      ensures Valid() && fresh(stack.Repr - old(stack.Repr))
      ensures S.Acc(stack.View(), list, hasEmpty)
              == S.Visit(S.Acc(old(stack.View()), list0, hasEmpty0), ns, cur, push,
                         wanted && !S.FindExclusive(c.vis, old(stack.View()), ns))
    {
      hide NsStack.View, NsStack.Valid, S.FindExclusive, S.Extends, S.Valid, InsertPair;
      list, hasEmpty := list0, hasEmpty0;
      if wanted {
        var rendered := stack.FindExclusive(c.vis, ns);
        if !rendered { list := InsertPair(list, ns.prefix, Uri(ns)); }
      }
      if push { stack.Add(ns, cur); }
      if ns.prefix == "" { hasEmpty := true; }
    }

    method ElementStep(path: seq<Node>, visible: bool, list0: seq<(string, string)>, hasEmpty0: bool)
      returns (list: seq<(string, string)>, hasEmpty: bool)
      requires Valid() && path != [] && path[|path| - 1].Element?
      modifies stack.Repr
      ensures Valid() && fresh(stack.Repr - old(stack.Repr))
      ensures S.Acc(stack.View(), list, hasEmpty)
              == S.ElementStep(c, path, visible, S.Acc(old(stack.View()), list0, hasEmpty0))
    {
      hide NsStack.View, NsStack.Valid, S.FindExclusive, S.Extends, S.Valid, S.Visit, SearchNs;
      list, hasEmpty := list0, hasEmpty0;
      var n := path[|path| - 1];
      var found := if n.ns.Some? then n.ns else SearchNs(path, "");
      if found.Some? && !IsXmlNs(found.value) {
        var ns := found.value;
        list, hasEmpty := VisitExclusive(ns, n.addr, visible, visible && c.vis(ns.addr, Some(n.addr)), list, hasEmpty);
      }
    }

    method PrefixLoop(path: seq<Node>, visible: bool)
      returns (list: seq<(string, string)>, hasEmpty: bool, listed: bool)
      requires Valid() && path != []
      modifies stack.Repr
      ensures Valid() && fresh(stack.Repr - old(stack.Repr))
      ensures S.Acc(stack.View(), list, hasEmpty)
              == S.PrefixFold(c, path, visible, S.Acc(old(stack.View()), [], false), c.inclusivePrefixes)
      ensures listed == S.ListsDefault(c.inclusivePrefixes)
    {
      hide S.Find, NsStack.View, NsStack.Valid, S.Valid, S.Extends, SearchNs, S.Visit, S.ListsDefault;
      list, hasEmpty, listed := [], false, false;
      var todo := c.inclusivePrefixes;
      var cur := path[|path| - 1].addr;
      ghost var all := S.PrefixFold(c, path, visible, S.Acc(stack.View(), [], false), todo);
      assert todo[0..] == todo;
      ListsDefaultGrows(todo, 0);
      for i := 0 to |todo|
        invariant Valid() && fresh(stack.Repr - old(stack.Repr))
        invariant all == S.PrefixFold(c, path, visible, S.Acc(stack.View(), list, hasEmpty), todo[i..])
        invariant listed == S.ListsDefault(todo[..i])
      {
        var prefix := todo[i];
        if S.NamesDefault(prefix) {
          prefix := "";
          listed := true;
        }
        ListsDefaultGrows(todo, i);
        assert todo[i..][1..] == todo[i + 1..];
        var found := SearchNs(path, prefix);
        if found.Some? && !IsXmlNs(found.value) && c.vis(found.value.addr, Some(cur)) {
          list, hasEmpty := VisitInclusive(found.value, cur, visible, list, hasEmpty);
        }
      }
      assert todo[..|todo|] == todo;
    }

    method AttrLoop(path: seq<Node>, visible: bool, list0: seq<(string, string)>, hasEmpty0: bool)
      returns (list: seq<(string, string)>, hasEmpty: bool, utilizesEmpty: bool)
      requires Valid() && path != [] && path[|path| - 1].Element?
      modifies stack.Repr
      ensures Valid() && fresh(stack.Repr - old(stack.Repr))
      ensures S.Acc(stack.View(), list, hasEmpty)
              == S.AttrFold(c, path[|path| - 1].addr, visible, S.Acc(old(stack.View()), list0, hasEmpty0),
                            path[|path| - 1].attrs)
      ensures utilizesEmpty == S.UtilizesEmpty(c, path[|path| - 1])
    {
      hide S.Find, NsStack.View, NsStack.Valid, S.Valid, S.Extends, S.FindExclusive, S.Visit, S.UtilizesEmpty;
      var n := path[|path| - 1];
      list, hasEmpty, utilizesEmpty := list0, hasEmpty0, n.ns.None?;
      ghost var all := S.AttrFold(c, n.addr, visible, S.Acc(stack.View(), list, hasEmpty), n.attrs);
      assert n.attrs[0..] == n.attrs;
      for i := 0 to |n.attrs|
        invariant Valid() && fresh(stack.Repr - old(stack.Repr))
        invariant all == S.AttrFold(c, n.addr, visible, S.Acc(stack.View(), list, hasEmpty), n.attrs[i..])
        invariant utilizesEmpty <==> n.ns.None? || exists k :: 0 <= k < i && DeclaresEmpty(c, n.addr, n.attrs[k])
      {
        var a := n.attrs[i];
        assert n.attrs[i..][1..] == n.attrs[i + 1..];
        if S.UsesNs(c, n.addr, a) {
          list, hasEmpty := VisitExclusive(a.ns.value, n.addr, true, visible, list, hasEmpty);
        } else if a.ns.Some? && S.IsEmptyDefault(a.ns.value) {
          utilizesEmpty := true;
        }
      }
      UtilizesEmptyIs(c, n);
    }

    method NamespaceAxis(path: seq<Node>, visible: bool) returns (events: seq<S.Event>)
      requires Valid() && path != [] && path[|path| - 1].Element?
      modifies stack.Repr
      ensures Valid() && fresh(stack.Repr - old(stack.Repr))
      ensures S.AxisResult(stack.View(), events) == S.NamespaceAxis(c, old(stack.View()), path, visible)
    {
      hide NsStack.View, NsStack.Valid, S.InclusiveAxis, S.ExclusiveAxis, S.Extends;
      if c.exclusive {
        events := ExclusiveAxis(path, visible);
      } else {
        events := InclusiveAxis(path, visible);
      }
    }

    /** xmlC14NProcessAttrsAxis. */
    method AttrsAxis(up: seq<Node>, n: Node, visible: bool) returns (list: seq<Attr>)
      requires n.Element?
      ensures list == A.AttrAxis(c.vis, c.exclusive, up, n, visible)
    {
      list := [];
      assert n.attrs[0..] == n.attrs;
      for i := 0 to |n.attrs|
        invariant A.OwnAttrs(c.vis, n.addr, n.attrs, []) == A.OwnAttrs(c.vis, n.addr, n.attrs[i..], list)
      {
        assert n.attrs[i..][1..] == n.attrs[i + 1..];
        if c.vis(n.attrs[i].addr, Some(n.addr)) { list := A.Insert(list, n.attrs[i]); }
      }
      if A.Orphan(c.vis, c.exclusive, up, visible) {
        ghost var own := list;
        var k := |up|;
        assert up[..k] == up;
        while k > 0
          invariant 0 <= k <= |up|
          invariant A.Inherit(up, own) == A.Inherit(up[..k], list)
        {
          k := k - 1;
          var attrs := A.AttrsOf(up[k]);
          ghost var before := list;
          assert up[..k + 1][..k] == up[..k];
          assert attrs[0..] == attrs;
          for j := 0 to |attrs|
            invariant A.InheritFrom(attrs, before) == A.InheritFrom(attrs[j..], list)
          {
            assert attrs[j..][1..] == attrs[j + 1..];
            if A.IsXmlAttr(attrs[j]) {
              if !A.Present(list, attrs[j]) { list := A.Insert(list, attrs[j]); }
            }
          }
        }
        assert up[..0] == [];
      }
    }

    /** xmlC14NCheckForRelativeNamespaces. */
    method HasRelative(n: Node) returns (bad: bool)
      requires n.Element?
      ensures bad == S.HasRelative(c, n)
    {
      bad := false;
      for i := 0 to |n.nsDef|
        invariant forall k :: 0 <= k < i ==> !(Uri(n.nsDef[k]) != "" && c.relative(Uri(n.nsDef[k])))
      {
        if Uri(n.nsDef[i]) != "" && c.relative(Uri(n.nsDef[i])) { return true; }
      }
    }

    /** Everything xmlC14NProcessElementNode does before it visits the children. */
    method StartElement(up: seq<Node>, n: Node, visible: bool)
      requires Valid() && n.Element?
      modifies this, stack.Repr
      ensures Valid() && fresh(stack.Repr - old(stack.Repr))
      ensures View() == S.StartElement(c, old(View()), up, n, visible)
    {
      hide NsStack.View, NsStack.Valid, S.NamespaceAxis, A.AttrAxis, S.AttrEvents, S.Extends;
      if visible {
        if parentIsDoc {
          parentIsDoc := false;
          pos := S.Inside;
        }
        out := out + [S.Open(S.PrefixOf(n), n.name)];
      }
      var events := NamespaceAxis(up + [n], visible);
      out := out + events;
      if visible { stack.Shift(); }
      var attrs := AttrsAxis(up, n, visible);
      out := out + S.AttrEvents(attrs);
      if visible { out := out + [S.EndOpen]; }
    }

    /** xmlC14NProcessElementNode. */
    method ProcessElement(up: seq<Node>, n: Node, visible: bool) returns (ok: bool)
      requires Valid() && n.Element? && visible == c.vis(n.addr, A.AddrOfLast(up))
      modifies this, stack.Repr
      ensures Valid() && fresh(stack.Repr - old(stack.Repr))
      ensures ok == S.ProcessNode(c, old(View()), up, n).Ok?
      ensures ok ==> View() == S.ProcessNode(c, old(View()), up, n).value
      decreases n, 1
    {
      hide NsStack.Valid, S.StartElement, S.ProcessNodes, S.HasRelative, S.EndElement, NsStack.View, S.Extends, A.AddrOfLast;
      var bad := HasRelative(n);
      if bad { return false; }
      var saved := stack.Save();
      var wasDocChild := visible && parentIsDoc;
      StartElement(up, n, visible);
      ok := ProcessNodes(up + [n], n.children);
      if ok { EndElement(old(View()), saved, n, visible, wasDocChild); }
    }

    /** Everything it does after them. */
    method EndElement(ghost st0: S.State, saved: S.Saved, n: Node, visible: bool, wasDocChild: bool)
      requires Valid() && n.Element? && S.Valid(st0.stack) && |st0.stack.entries| <= |View().stack.entries|
      requires saved == S.Save(st0.stack) && wasDocChild == (visible && st0.parentIsDoc)
      modifies this, stack
      ensures Valid() && stack.Repr == old(stack.Repr)
      ensures View() == S.EndElement(st0, old(View()), n, visible)
    {
      hide NsStack.Valid, NsStack.View;
      if visible {
        out := out + [S.Close(S.PrefixOf(n), n.name)];
        if wasDocChild {
          parentIsDoc := true;
          pos := S.After;
        }
      }
      stack.Restore(saved);
    }

    /** xmlC14NProcessNode. */
    method ProcessNode(up: seq<Node>, n: Node) returns (ok: bool)
      requires Valid()
      modifies this, stack.Repr
      ensures Valid() && fresh(stack.Repr - old(stack.Repr))
      ensures ok == S.ProcessNode(c, old(View()), up, n).Ok?
      ensures ok ==> View() == S.ProcessNode(c, old(View()), up, n).value
      decreases n, 2
    {
      ok := true;
      var visible := c.vis(n.addr, A.AddrOfLast(up));
      match n
      case Element(_, _, _, _, _, _) =>
        ok := ProcessElement(up, n, visible);
      case Text(_, content) =>
        if visible && content.Some? { out := out + [S.Chars(E.EscapeString(E.CharData, content.value))]; }
      case PI(_, name, content) =>
        if visible {
          out := out + [S.PIOut(pos.After?, name, E.EscapeString(E.PIText, S.Text0(content)), pos.Before?)];
        }
      case Comment(_, content) =>
        if visible && c.withComments {
          out := out + [S.CommentOut(pos.After?, E.EscapeString(E.CommentText, S.Text0(content)), pos.Before?)];
        }
      case Document(_, children) =>
        if children != [] {
          pos, parentIsDoc := S.Before, true;
          ok := ProcessNodes(up + [n], children);
        }
      case Ignored(_) =>
      case Invalid(_) =>
        ok := false;
    }

    /** xmlC14NProcessNodeList. */
    method ProcessNodes(up: seq<Node>, nodes: seq<Node>) returns (ok: bool)
      requires Valid()
      modifies this, stack.Repr
      ensures Valid() && fresh(stack.Repr - old(stack.Repr))
      ensures ok == S.ProcessNodes(c, old(View()), up, nodes).Ok?
      ensures ok ==> View() == S.ProcessNodes(c, old(View()), up, nodes).value
      decreases nodes, 0
    {
      ok := true;
      var i := 0;
      assert nodes[0..] == nodes;
      while i < |nodes|
        invariant 0 <= i <= |nodes| && Valid() && fresh(stack.Repr - old(stack.Repr))
        invariant S.ProcessNodes(c, old(View()), up, nodes) == S.ProcessNodes(c, View(), up, nodes[i..])
      {
        assert nodes[i..][1..] == nodes[i + 1..];
        ok := ProcessNode(up, nodes[i]);
        if !ok { return; }
        i := i + 1;
      }
    }
  }

  /** xmlC14NExecute. */
  method Execute(c: S.Config, doc: Node) returns (r: Result<seq<S.Event>>)
    requires doc.Document?
    ensures r == S.Execute(c, doc)
  {
    var ctx := new Canonicalizer(c);
    var ok := ctx.ProcessNodes([doc], doc.children);
    r := if ok then Ok(ctx.out) else Err;
  }
}
