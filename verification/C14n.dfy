/**
 Canonicalization as a function of the state: the stack of rendered namespaces
 with its three indices, both namespace axes, and the walk over the document.
 The classes NsStack and Canonicalizer of C14nImpl compute these functions in place.
 */
module C14n {
  import opened Common
  import opened XmlTree
  import A = Attributes
  import E = Escape

  // ---- the stack of rendered namespaces ----

  datatype Entry = Entry(ns: Ns, node: Addr)

  /** entries is nsTab/nodeTab up to nsCurEnd. */
  datatype Stack = Stack(entries: seq<Entry>, prevStart: nat, prevEnd: nat)

  datatype Saved = Saved(curEnd: nat, prevStart: nat, prevEnd: nat)

  predicate Valid(s: Stack) { s.prevStart <= s.prevEnd <= |s.entries| }

  function Add(s: Stack, ns: Ns, node: Addr): Stack { s.(entries := s.entries + [Entry(ns, node)]) }

  function Save(s: Stack): Saved { Saved(|s.entries|, s.prevStart, s.prevEnd) }

  function Restore(s: Stack, saved: Saved): Stack
    requires saved.curEnd <= |s.entries|
  {
    Stack(s.entries[..saved.curEnd], saved.prevStart, saved.prevEnd)
  }

  function Shift(s: Stack): Stack { s.(prevStart := s.prevEnd, prevEnd := |s.entries|) }

  /** The entry nearest to the top that has the given prefix. */
  function Top(entries: seq<Entry>, prefix: string): (r: Option<Entry>)
    ensures r.Some? ==> r.value.ns.prefix == prefix
  {
    if entries == [] then None
    else if entries[|entries| - 1].ns.prefix == prefix then Some(entries[|entries| - 1])
    else Top(entries[..|entries| - 1], prefix)
  }

  predicate IsEmptyDefault(ns: Ns) { ns.prefix == "" && Uri(ns) == "" }

  /** xmlC14NVisibleNsStackFind: only the window of the nearest rendered ancestor
      counts, except for xmlns="". */
  predicate Find(s: Stack, ns: Ns)
    requires Valid(s)
  {
    var t := Top(s.entries[if IsEmptyDefault(ns) then 0 else s.prevStart..], ns.prefix);
    if t.Some? then Uri(t.value.ns) == Uri(ns) else IsEmptyDefault(ns)
  }

  /** xmlExcC14NVisibleNsStackFind. */
  predicate FindExclusive(vis: A.Visibility, s: Stack, ns: Ns)
  {
    var t := Top(s.entries, ns.prefix);
    if t.Some? then Uri(t.value.ns) == Uri(ns) && vis(t.value.ns.addr, Some(t.value.node)) else IsEmptyDefault(ns)
  }

  // ---- parameters, output and context ----

  /** relative tells which namespace URIs xmlC14NCheckForRelativeNamespaces refuses. */
  datatype Config = Config(
    vis: A.Visibility,
    exclusive: bool,
    inclusivePrefixes: seq<string>,
    withComments: bool,
    relative: string -> bool)

  datatype Event =
    | Open(prefix: string, name: string)
    | Decl(prefix: string, uri: string)
    | AttrOut(prefix: string, name: string, value: string)
    | EndOpen
    | Close(prefix: string, name: string)
    | Chars(text: string)
    | PIOut(before: bool, name: string, data: string, after: bool)
    | CommentOut(before: bool, data: string, after: bool)

  datatype Position = Before | Inside | After

  datatype State = State(stack: Stack, pos: Position, parentIsDoc: bool, out: seq<Event>)

  const EMPTY_STATE := State(Stack([], 0, 0), Before, true, [])

  // ---- namespace axes ----

  datatype Acc = Acc(stack: Stack, list: seq<(string, string)>, hasEmpty: bool)

  function Visit(acc: Acc, ns: Ns, node: Addr, push: bool, insert: bool): Acc
  {
    Acc(if push then Add(acc.stack, ns, node) else acc.stack,
        if insert then InsertPair(acc.list, ns.prefix, Uri(ns)) else acc.list,
        acc.hasEmpty || ns.prefix == "")
  }

  function InclusiveStep(c: Config, path: seq<Node>, visible: bool, acc: Acc, ns: Ns): (r: Acc)
    requires path != [] && Valid(acc.stack)
    ensures Extends(acc.stack, r.stack)
  {
    var cur := path[|path| - 1].addr;
    if SearchNs(path, ns.prefix) == Some(ns) && !IsXmlNs(ns) && c.vis(ns.addr, Some(cur))
    then Visit(acc, ns, cur, visible, !Find(acc.stack, ns))
    else acc
  }

  /** What every operation on an axis does to the stack: entries are only pushed. */
  predicate Extends(s: Stack, t: Stack)
  {
    s.prevStart == t.prevStart && s.prevEnd == t.prevEnd && s.entries <= t.entries
  }

  /** The two nested loops over ancestors and their declarations. */
  function InclusiveFold(c: Config, path: seq<Node>, visible: bool, acc: Acc, todo: seq<Ns>): (r: Acc)
    requires path != [] && Valid(acc.stack)
    ensures Extends(acc.stack, r.stack)
    decreases |todo|
  {
    if todo == [] then acc
    else InclusiveFold(c, path, visible, InclusiveStep(c, path, visible, acc, todo[0]), todo[1..])
  }

  function DeclEvents(list: seq<(string, string)>): seq<Event>
  {
    seq(|list|, i requires 0 <= i < |list| => Decl(list[i].0, list[i].1))
  }

  datatype AxisResult = AxisResult(stack: Stack, out: seq<Event>)

  const DEFAULT_NS := Ns(0, "", None)

  /** xmlC14NProcessNamespacesAxis. */
  function InclusiveAxis(c: Config, s: Stack, path: seq<Node>, visible: bool): (r: AxisResult)
    requires path != [] && Valid(s)
    ensures Extends(s, r.stack)
  {
    var acc := InclusiveFold(c, path, visible, Acc(s, [], false), Candidates(path));
    var first := if visible && !acc.hasEmpty && !Find(acc.stack, DEFAULT_NS) then [Decl("", "")] else [];
    AxisResult(acc.stack, first + DeclEvents(acc.list))
  }

  predicate NamesDefault(prefix: string) { prefix == "#default" || prefix == "" }

  /** The prefix that an entry of the InclusiveNamespaces PrefixList stands for. */
  function Denoted(prefix: string): string { if NamesDefault(prefix) then "" else prefix }

  /** The loop over the InclusiveNamespaces PrefixList. */
  function PrefixFold(c: Config, path: seq<Node>, visible: bool, acc: Acc, todo: seq<string>): (r: Acc)
    requires path != [] && Valid(acc.stack)
    ensures Extends(acc.stack, r.stack)
    decreases |todo|
  {
    if todo == [] then acc
    else
      var cur := path[|path| - 1].addr;
      var found := SearchNs(path, Denoted(todo[0]));
      var next :=
        if found.Some? && !IsXmlNs(found.value) && c.vis(found.value.addr, Some(cur))
        then Visit(acc, found.value, cur, visible, !Find(acc.stack, found.value))
        else acc;
      PrefixFold(c, path, visible, next, todo[1..])
  }

  function ElementStep(c: Config, path: seq<Node>, visible: bool, acc: Acc): (r: Acc)
    requires path != [] && Valid(acc.stack)
    ensures Extends(acc.stack, r.stack)
  {
    var n := path[|path| - 1];
    var found := if n.Element? && n.ns.Some? then n.ns else SearchNs(path, "");
    if found.Some? && !IsXmlNs(found.value) then
      var ns := found.value;
      Visit(acc, ns, n.addr, visible,
            visible && c.vis(ns.addr, Some(n.addr)) && !FindExclusive(c.vis, acc.stack, ns))
    else acc
  }

  predicate UsesNs(c: Config, cur: Addr, a: Attr)
  {
    a.ns.Some? && !IsXmlNs(a.ns.value) && c.vis(a.addr, Some(cur))
  }

  function AttrFold(c: Config, cur: Addr, visible: bool, acc: Acc, todo: seq<Attr>): (r: Acc)
    ensures Extends(acc.stack, r.stack)
    decreases |todo|
  {
    if todo == [] then acc
    else
      var a := todo[0];
      var next :=
        if UsesNs(c, cur, a)
        then Visit(acc, a.ns.value, cur, true, visible && !FindExclusive(c.vis, acc.stack, a.ns.value))
        else acc;
      AttrFold(c, cur, visible, next, todo[1..])
  }

  predicate UtilizesEmpty(c: Config, n: Node)
  {
    n.Element? &&
    (n.ns.None? || exists i :: 0 <= i < |n.attrs| && !UsesNs(c, n.addr, n.attrs[i])
                               && n.attrs[i].ns.Some? && IsEmptyDefault(n.attrs[i].ns.value))
  }

  predicate ListsDefault(prefixes: seq<string>)
  {
    exists i :: 0 <= i < |prefixes| && NamesDefault(prefixes[i])
  }

  /** xmlExcC14NProcessNamespacesAxis. */
  function ExclusiveAxis(c: Config, s: Stack, path: seq<Node>, visible: bool): (r: AxisResult)
    requires path != [] && Valid(s)
    ensures Extends(s, r.stack)
  {
    var n := path[|path| - 1];
    var a0 := PrefixFold(c, path, visible, Acc(s, [], false), c.inclusivePrefixes);
    var a1 := ElementStep(c, path, visible, a0);
    var acc := AttrFold(c, n.addr, visible, a1, A.AttrsOf(n));
    var listed := ListsDefault(c.inclusivePrefixes);
    var first :=
      visible && !acc.hasEmpty &&
      (if listed then !Find(acc.stack, DEFAULT_NS)
       else UtilizesEmpty(c, n) && !FindExclusive(c.vis, acc.stack, DEFAULT_NS));
    AxisResult(acc.stack, (if first then [Decl("", "")] else []) + DeclEvents(acc.list))
  }

  function NamespaceAxis(c: Config, s: Stack, path: seq<Node>, visible: bool): (r: AxisResult)
    requires path != [] && Valid(s)
    ensures Extends(s, r.stack)
  {
    if c.exclusive then ExclusiveAxis(c, s, path, visible) else InclusiveAxis(c, s, path, visible)
  }

  // ---- the walk ----

  function AttrEvent(a: Attr): Event
  {
    AttrOut(if a.ns.Some? then a.ns.value.prefix else "", a.name,
            if a.value.Some? then E.EscapeString(E.Attribute, a.value.value) else "")
  }

  function AttrEvents(list: seq<Attr>): seq<Event>
  {
    seq(|list|, i requires 0 <= i < |list| => AttrEvent(list[i]))
  }

  function PrefixOf(n: Node): string
  {
    if n.Element? && n.ns.Some? then n.ns.value.prefix else ""
  }

  predicate HasRelative(c: Config, n: Node)
  {
    n.Element? && exists i :: 0 <= i < |n.nsDef| && Uri(n.nsDef[i]) != "" && c.relative(Uri(n.nsDef[i]))
  }

  function Text0(o: Option<string>): string { if o.Some? then o.value else "" }

  /** Start of xmlC14NProcessElementNode, up to and including the ">" of the start tag. */
  function StartElement(c: Config, st: State, up: seq<Node>, n: Node, visible: bool): (r: State)
    requires n.Element? && Valid(st.stack)
    ensures Valid(r.stack) && st.stack.entries <= r.stack.entries
  {
    var axis := NamespaceAxis(c, st.stack, up + [n], visible);
    var attrs := AttrEvents(A.AttrAxis(c.vis, c.exclusive, up, n, visible));
    if visible then
      State(Shift(axis.stack), if st.parentIsDoc then Inside else st.pos, false,
            st.out + [Open(PrefixOf(n), n.name)] + axis.out + attrs + [EndOpen])
    else st.(stack := axis.stack, out := st.out + axis.out + attrs)
  }

  /** The rest of it, once the children are done. */
  function EndElement(st0: State, st: State, n: Node, visible: bool): State
    requires n.Element? && |st0.stack.entries| <= |st.stack.entries|
  {
    var stack := Restore(st.stack, Save(st0.stack));
    if visible then
      State(stack, if st0.parentIsDoc then After else st.pos, if st0.parentIsDoc then true else st.parentIsDoc,
            st.out + [Close(PrefixOf(n), n.name)])
    else st.(stack := stack)
  }

  function ProcessNode(c: Config, st: State, up: seq<Node>, n: Node): (r: Result<State>)
    requires Valid(st.stack)
    ensures r.Ok? ==> r.value.stack == st.stack
    decreases n, 1
  {
    var visible := c.vis(n.addr, A.AddrOfLast(up));
    match n
    case Element(_, _, _, _, _, children) =>
      if HasRelative(c, n) then Err
      else
        var st1 := StartElement(c, st, up, n, visible);
        var r := ProcessNodes(c, st1, up + [n], children);
        if r.Err? then Err else Ok(EndElement(st, r.value, n, visible))
    case Text(_, content) =>
      if visible && content.Some?
      then Ok(st.(out := st.out + [Chars(E.EscapeString(E.CharData, content.value))]))
      else Ok(st)
    case PI(_, name, content) =>
      if visible
      then Ok(st.(out := st.out + [PIOut(st.pos.After?, name, E.EscapeString(E.PIText, Text0(content)), st.pos.Before?)]))
      else Ok(st)
    case Comment(_, content) =>
      if visible && c.withComments
      then Ok(st.(out := st.out + [CommentOut(st.pos.After?, E.EscapeString(E.CommentText, Text0(content)), st.pos.Before?)]))
      else Ok(st)
    case Document(_, children) =>
      if children == [] then Ok(st)
      else ProcessNodes(c, st.(pos := Before, parentIsDoc := true), up + [n], children)
    case Ignored(_) => Ok(st)
    case Invalid(_) => Err
  }

  function ProcessNodes(c: Config, st: State, up: seq<Node>, nodes: seq<Node>): (r: Result<State>)
    requires Valid(st.stack)
    ensures r.Ok? ==> r.value.stack == st.stack
    decreases nodes, 0
  {
    if nodes == [] then Ok(st)
    else
      var r := ProcessNode(c, st, up, nodes[0]);
      if r.Err? then Err else ProcessNodes(c, r.value, up, nodes[1..])
  }

  /** xmlC14NExecute. */
  function Execute(c: Config, doc: Node): Result<seq<Event>>
  {
    var r := if doc.Document? then ProcessNodes(c, EMPTY_STATE, [doc], doc.children) else Err;
    if r.Err? then Err else Ok(r.value.out)
  }
}
