/**
 The document tree as canonicalization sees it. Node, attribute and namespace
 records carry an address, so that two records are the same object only if they
 are equal as values; a null prefix is written "", a null href is None.
 A path is the chain of ancestors-or-self of a node, document node first.
 */
module XmlTree {
  import opened Common

  type Addr = nat

  datatype Ns = Ns(addr: Addr, prefix: string, href: Option<string>)

  datatype Attr = Attr(addr: Addr, ns: Option<Ns>, name: string, value: Option<string>)

  datatype Node =
    | Element(addr: Addr, name: string, ns: Option<Ns>, nsDef: seq<Ns>, attrs: seq<Attr>, children: seq<Node>)
    | Text(addr: Addr, content: Option<string>)
    | PI(addr: Addr, name: string, content: Option<string>)
    | Comment(addr: Addr, content: Option<string>)
    | Document(addr: Addr, children: seq<Node>)
    | Ignored(addr: Addr)
    | Invalid(addr: Addr)

  const XML_URI := "http://www.w3.org/XML/1998/namespace"

  /** The declaration of the xml prefix, held by the document itself. */
  const XML_NS := Ns(0, "xml", Some(XML_URI))

  function Uri(ns: Ns): string { if ns.href.Some? then ns.href.value else "" }

  predicate IsXmlNs(ns: Ns) { ns.prefix == "xml" && ns.href == Some(XML_URI) }

  ghost predicate IsPath(path: seq<Node>)
  {
    forall i :: 0 <= i < |path| ==> path[i].Element? || path[i].Document?
  }

  /** The nsDef list of a node; on a document that slot holds the xml declaration. */
  function Defs(n: Node): seq<Ns>
  {
    if n.Element? then n.nsDef else if n.Document? then [XML_NS] else []
  }

  predicate Declares(ns: Ns, prefix: string) { ns.prefix == prefix && ns.href.Some? }

  function FirstMatch(defs: seq<Ns>, prefix: string): (r: Option<Ns>)
    ensures r.Some? ==> r.value in defs && Declares(r.value, prefix)
  {
    if defs == [] then None
    else if Declares(defs[0], prefix) then Some(defs[0])
    else FirstMatch(defs[1..], prefix)
  }

  /** The walk of xmlSearchNs: nearest declaration, with the shortcut through the
      namespace pointer of every node but the one the search started from. */
  function SearchFrom(path: seq<Node>, prefix: string, isOrigin: bool): Option<Ns>
  {
    if path == [] then None
    else
      var n := path[|path| - 1];
      var up := path[..|path| - 1];
      if !n.Element? then SearchFrom(up, prefix, false)
      else
        var m := FirstMatch(n.nsDef, prefix);
        if m.Some? then m
        else if !isOrigin && n.ns.Some? && Declares(n.ns.value, prefix) then n.ns
        else SearchFrom(up, prefix, false)
  }

  /** xmlSearchNs. */
  function SearchNs(path: seq<Node>, prefix: string): Option<Ns>
  {
    if prefix == "xml" then Some(XML_NS) else SearchFrom(path, prefix, true)
  }

  /** Reference semantics: the prefix bindings in scope at the end of a path. */
  function Scope(path: seq<Node>): map<string, string>
  {
    if path == [] then map[]
    else
      var n := path[|path| - 1];
      var outer := Scope(path[..|path| - 1]);
      if n.Element? then Bind(outer, n.nsDef) else outer
  }

  /** Bindings after the declarations of one element; its first one per prefix wins. */
  function Bind(scope: map<string, string>, defs: seq<Ns>): map<string, string>
  {
    if defs == [] then scope
    else
      var rest := Bind(scope, defs[1..]);
      var d := defs[0];
      if d.href.Some? && d.prefix != "xml" then rest[d.prefix := d.href.value] else rest
  }

  /** The binding of a prefix, where an absent default namespace counts as "". */
  function Lookup(scope: map<string, string>, prefix: string): Option<string>
  {
    if prefix in scope then Some(scope[prefix])
    else if prefix == "" then Some("")
    else None
  }

  /** Every bound namespace pointer of an element on the path is the declaration that
      is nearest to that element, which is how the parser sets them (SAX2.c:1646-1666). */
  ghost predicate PointersInScope(path: seq<Node>)
  {
    forall k :: 0 < k <= |path| ==> PointerInScope(path[..k])
  }

  ghost predicate PointerInScope(path: seq<Node>)
    requires path != []
  {
    var n := path[|path| - 1];
    n.Element? && n.ns.Some? && n.ns.value.href.Some? ==> SearchNs(path, n.ns.value.prefix) == n.ns
  }

  lemma {:induction false} BindLookup(scope: map<string, string>, defs: seq<Ns>, p: string)
    requires p != "xml"
    ensures var m := FirstMatch(defs, p);
            if m.Some? then p in Bind(scope, defs) && Bind(scope, defs)[p] == Uri(m.value)
            else (p in Bind(scope, defs) <==> p in scope) && (p in scope ==> Bind(scope, defs)[p] == scope[p])
  {
    if defs != [] { BindLookup(scope, defs[1..], p); }
  }

  lemma {:induction false} BindKeys(scope: map<string, string>, defs: seq<Ns>)
    ensures scope.Keys <= Bind(scope, defs).Keys
    ensures "xml" !in scope ==> "xml" !in Bind(scope, defs)
  {
    if defs != [] { BindKeys(scope, defs[1..]); }
  }

  /** Declarations met on the way up from the end of a path, in the order the
      namespace axis visits them. */
  function Candidates(path: seq<Node>): seq<Ns>
  {
    if path == [] then []
    else Defs(path[|path| - 1]) + Candidates(path[..|path| - 1])
  }

  ghost predicate SearchAgrees(path: seq<Node>, p: string, r: Option<Ns>)
  {
    if p in Scope(path) then
      r.Some? && r.value in Candidates(path) && Declares(r.value, p) && Uri(r.value) == Scope(path)[p]
    else r.None?
  }

  /** The pointer walk of xmlSearchNs computes the reference scope. */
  lemma {:induction false} SearchIsScope(path: seq<Node>, p: string, isOrigin: bool)
    requires IsPath(path) && p != "xml"
    requires PointersInScope(if isOrigin && path != [] then path[..|path| - 1] else path)
    ensures SearchAgrees(path, p, SearchFrom(path, p, isOrigin))
    decreases |path|, !isOrigin
  {
    if path != [] {
      var n, up := path[|path| - 1], path[..|path| - 1];
      assert PointersInScope(up) by {
        forall k | 0 < k <= |up| ensures PointerInScope(up[..k]) {
          assert up[..k] == path[..k];
          if !isOrigin { assert PointerInScope(path[..k]); }
        }
      }
      SearchIsScope(up, p, false);
      if n.Element? {
        BindLookup(Scope(up), n.nsDef, p);
        if FirstMatch(n.nsDef, p).None? && !isOrigin && n.ns.Some? && Declares(n.ns.value, p) {
          assert path[..|path|] == path;
          assert PointerInScope(path[..|path|]);
          SearchIsScope(path, p, true);
        }
      }
    }
  }
}
