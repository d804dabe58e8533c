/**
 Inclusive canonicalization keeps the namespace scope of every element, for every
 document, also where a name is in no namespace below a default one.
 */
module C14nScopes {
  import opened Common
  import opened XmlTree
  import opened C14n
  import opened C14nReference
  import opened C14nTheorems

  /** The scopes a reader saw, element by element in document order. */
  function ScopesRead(items: seq<Item>): seq<Bindings>
  {
    if items == [] then []
    else (if items[0].Start? then [items[0].scope] else []) + ScopesRead(items[1..])
  }

  /** The scopes of the document, in the same order; an empty default counts as none. */
  function ScopesOf(up: seq<Node>, n: Node): seq<Bindings>
    decreases n, 1
  {
    if n.Element? then [Norm(Scope(up + [n]))] + ScopesOfAll(up + [n], n.children) else []
  }

  function ScopesOfAll(up: seq<Node>, nodes: seq<Node>): seq<Bindings>
    decreases nodes, 0
  {
    if nodes == [] then [] else ScopesOf(up, nodes[0]) + ScopesOfAll(up, nodes[1..])
  }

  lemma {:induction false} ScopesConcat(a: seq<Item>, b: seq<Item>)
    ensures ScopesRead(a + b) == ScopesRead(a) + ScopesRead(b)
  {
    if a == [] {
      assert a + b == b;
    } else {
      assert (a + b)[1..] == a[1..] + b;
      ScopesConcat(a[1..], b);
      var first := if a[0].Start? then [a[0].scope] else [];
      assert first + (ScopesRead(a[1..]) + ScopesRead(b)) == first + ScopesRead(a[1..]) + ScopesRead(b);
    }
  }

  lemma ScopesOne(items: seq<Item>, i: Item)
    ensures ScopesRead(items + [i]) == ScopesRead(items) + if i.Start? then [i.scope] else []
  {
    ScopesConcat(items, [i]);
    assert ScopesRead([]) == [] && [i][1..] == [];
  }

  /** A reader inside an element whose scope the output has. */
  ghost predicate Inside(r: Reader, scope: Bindings)
  {
    (forall p :: Lookup(TopScope(r), p) == Lookup(scope, p)) && !r.redundant && r.kept.None?
  }

  /** What reading a piece of output does: the same element is open, and the given scopes
      were seen. */
  ghost predicate Saw(r: Reader, r': Reader, scopes: seq<Bindings>)
  {
    && r'.scopes == r.scopes && !r'.redundant && r'.kept.None?
    && ScopesRead(r'.items) == ScopesRead(r.items) + scopes
  }

  /** The start tag: the scope of the element is what the reader has then. */
  lemma SawHead(c: Config, r: Reader, up: seq<Node>, n: Node)
    requires !c.exclusive && n.Element? && Inside(r, Scope(up))
    ensures var decls := Decls(c, TopScope(r), Scope(up + [n]), n);
            var r1 := Read(r, Head(c, up, n, decls));
            && r1.scopes == r.scopes + [TopScope(r) + decls] && Inside(r1, Scope(up + [n]))
            && ScopesRead(r1.items) == ScopesRead(r.items) + [Norm(Scope(up + [n]))]
  {
    hide Head, Read, Norm, ScopesRead, Scope, Bind, Resolve, ReadAttrs;
    var inner, out := Scope(up + [n]), TopScope(r);
    ScopeGrows(up, n);
    DeclaresTheDifference(c, Scope(up), out, n);
    NewDeclsDiffer(out, inner, inner.Keys);
    var decls := Decls(c, out, inner, n);
    ReadHead(c, r, up, n, decls);
    NormEqual(out + decls, inner, None);
    var r1 := Read(r, Head(c, up, n, decls));
    ScopesOne(r.items, r1.items[|r.items|]);
  }

  lemma {:induction false} SawNode(c: Config, r: Reader, up: seq<Node>, n: Node, pos: Position)
    requires !c.exclusive && Inside(r, Scope(up)) && RefNode(c, Scope(up), TopScope(r), up, n, pos).Ok?
    ensures Saw(r, Read(r, RefNode(c, Scope(up), TopScope(r), up, n, pos).value), ScopesOf(up, n))
    decreases n, 1
  {
    hide Head, Decls, Scope, Bind, Norm, Read, ScopesRead, RefNodes, ScopesOfAll;
    if n.Element? {
      ScopeGrows(up, n);
      var inner, out := Scope(up + [n]), TopScope(r);
      var decls := Decls(c, out, inner, n);
      var head := Head(c, up, n, decls);
      SawHead(c, r, up, n);
      var r1 := Read(r, head);
      SawNodes(c, r1, up + [n], n.children, C14n.Inside);
      var kids := RefNodes(c, inner, out + decls, up + [n], n.children, C14n.Inside).value;
      SawBracket(r, head, kids, Close(PrefixOf(n), n.name), out + decls, Norm(inner), ScopesOfAll(up + [n], n.children));
    } else {
      SawLeaf(c, r, up, n, pos);
    }
  }

  lemma SawBracket(r: Reader, head: seq<Event>, kids: seq<Event>, close: Event, scope: Bindings,
                   first: Bindings, inside: seq<Bindings>)
    requires close.Close?
    requires var r1 := Read(r, head);
             && r1.scopes == r.scopes + [scope] && ScopesRead(r1.items) == ScopesRead(r.items) + [first]
             && Saw(r1, Read(r1, kids), inside)
    ensures Saw(r, Read(r, head + kids + [close]), [first] + inside)
  {
    hide Read, ScopesRead;
    ReadConcat(r, head + kids, [close]);
    ReadConcat(r, head, kids);
    var r2 := Read(Read(r, head), kids);
    ReadOne(r2, close);
    assert r2.scopes[..|r2.scopes| - 1] == r.scopes;
    ScopesOne(r2.items, End);
    var s := ScopesRead(r.items);
    assert s + [first] + inside + [] == s + ([first] + inside);
  }

  lemma SawLeaf(c: Config, r: Reader, up: seq<Node>, n: Node, pos: Position)
    requires !n.Element? && Inside(r, Scope(up)) && RefNode(c, Scope(up), TopScope(r), up, n, pos).Ok?
    ensures Saw(r, Read(r, RefNode(c, Scope(up), TopScope(r), up, n, pos).value), [])
  {
    hide Scope, ScopesRead;
    var es := RefNode(c, Scope(up), TopScope(r), up, n, pos).value;
    assert ScopesRead(r.items) + [] == ScopesRead(r.items);
    if es != [] {
      assert es == [es[0]];
      ReadOne(r, es[0]);
      var r' := Read1(r, es[0]);
      assert r'.items == r.items + [r'.items[|r.items|]];
      ScopesOne(r.items, r'.items[|r.items|]);
    }
  }

  lemma {:induction false} SawNodes(c: Config, r: Reader, up: seq<Node>, nodes: seq<Node>, pos: Position)
    requires !c.exclusive && Inside(r, Scope(up)) && RefNodes(c, Scope(up), TopScope(r), up, nodes, pos).Ok?
    ensures Saw(r, Read(r, RefNodes(c, Scope(up), TopScope(r), up, nodes, pos).value), ScopesOfAll(up, nodes))
    decreases nodes, 0
  {
    hide RefNode, ScopesOf, Scope, Read1, ScopesRead;
    var s := ScopesRead(r.items);
    if nodes == [] {
      assert s + [] == s;
    } else {
      var next := NextPosition(pos, nodes[0]);
      var a := RefNode(c, Scope(up), TopScope(r), up, nodes[0], pos).value;
      var b := RefNodes(c, Scope(up), TopScope(r), up, nodes[1..], next).value;
      SawNode(c, r, up, nodes[0], pos);
      SawNodes(c, Read(r, a), up, nodes[1..], next);
      ReadConcat(r, a, b);
      var x, y := ScopesOf(up, nodes[0]), ScopesOfAll(up, nodes[1..]);
      assert s + x + y == s + (x + y);
    }
  }

  /** Inclusive mode, every document: replaying the declarations of the output gives every
      element exactly the scope it had, and no declaration repeats what is in scope. */
  lemma ScopesPreserved(c: Config, doc: Node)
    requires AllVisible(c) && !c.exclusive && SoundDocument(doc, false) && Execute(c, doc).Ok?
    ensures var r := Read(Reader([], "", "", [], [], false, None), Execute(c, doc).value);
            ScopesRead(r.items) == ScopesOfAll([doc], doc.children) && r.scopes == [] && !r.redundant
  {
    hide Sound, AllVisible, Execute, RefNodes, Read, ScopesOfAll;
    ExecuteIsReference(c, doc);
    RootScope(doc);
    var r := Reader([], "", "", [], [], false, None);
    SawNodes(c, r, [doc], doc.children, Before);
    assert ScopesRead([]) == [];
    assert [] + ScopesOfAll([doc], doc.children) == ScopesOfAll([doc], doc.children);
  }

  lemma RootScope(doc: Node)
    requires !doc.Element?
    ensures Scope([doc]) == map[]
  {
    assert [doc][..0] == [];
  }
}
