/**
 The attribute axis of the canonical form: the comparator that orders attributes
 and the ordered list it feeds.
 */
module Attributes {
  import opened Common
  import opened XmlTree

  function OptCmp(a: Option<string>, b: Option<string>): int
  {
    if a == b then 0
    else if a.None? then -1
    else if b.None? then 1
    else StrCmp(a.value, b.value)
  }

  /** xmlC14NAttrsCompare: records are compared as objects first, so that two
      attributes of one namespace object are ordered by name alone. */
  function AttrCmp(a: Attr, b: Attr): int
  {
    if a == b then 0
    else if a.ns == b.ns then StrCmp(a.name, b.name)
    else if a.ns.None? then -1
    else if b.ns.None? then 1
    else if a.ns.value.prefix == "" then -1
    else if b.ns.value.prefix == "" then 1
    else
      var r := OptCmp(a.ns.value.href, b.ns.value.href);
      if r != 0 then r else StrCmp(a.name, b.name)
  }

  /** xmlListInsert: ordered insertion before the first element that is not smaller. */
  function Insert(list: seq<Attr>, a: Attr): (r: seq<Attr>)
    ensures multiset(r) == multiset(list) + multiset{a}
  {
    if list == [] || AttrCmp(list[0], a) >= 0 then [a] + list
    else
      assert list == [list[0]] + list[1..];
      [list[0]] + Insert(list[1..], a)
  }

  /** xmlListSearch: the first element that is not smaller must compare equal. */
  predicate Present(list: seq<Attr>, a: Attr)
  {
    list != [] && (if AttrCmp(list[0], a) >= 0 then AttrCmp(list[0], a) == 0 else Present(list[1..], a))
  }

  /** The document-order key: no namespace first, then URI, then local name. */
  datatype Key = Key(qualified: bool, uri: Option<string>, name: string)

  function KeyOf(a: Attr): Key
  {
    if a.ns.None? then Key(false, None, a.name) else Key(true, a.ns.value.href, a.name)
  }

  function KeyCmp(x: Key, y: Key): int
  {
    if x.qualified != y.qualified then (if y.qualified then -1 else 1)
    else if OptCmp(x.uri, y.uri) != 0 then OptCmp(x.uri, y.uri)
    else StrCmp(x.name, y.name)
  }

  /** The same order spelled out: no namespace before any; then the URI, an absent one
      first; then the local name; both as strings of characters. */
  ghost predicate KeyPrecedes(x: Key, y: Key)
  {
    || (!x.qualified && y.qualified)
    || (x.qualified == y.qualified && x.uri.None? && y.uri.Some?)
    || (x.qualified == y.qualified && x.uri.Some? && y.uri.Some? && Precedes(x.uri.value, y.uri.value))
    || (x.qualified == y.qualified && x.uri == y.uri && Precedes(x.name, y.name))
  }

  lemma KeyCmpIsPrecedes(x: Key, y: Key)
    ensures KeyCmp(x, y) < 0 <==> KeyPrecedes(x, y)
  {
    hide Precedes;
    StrCmpIsLexicographic(x.name, y.name);
    if x.uri.Some? && y.uri.Some? {
      StrCmpIsLexicographic(x.uri.value, y.uri.value);
      PrecedesIsStrict(x.uri.value, y.uri.value);
    }
  }

  lemma PrecedesIsStrict(a: string, b: string)
    ensures Precedes(a, b) ==> a != b
  {
    StrCmpIsLexicographic(a, b);
  }

  predicate Proper(a: Attr) { a.ns.Some? ==> a.ns.value.prefix != "" }

  /** On attributes without a namespace or with a prefixed one, the comparator is
      the lexicographic order of the keys. */
  lemma AttrCmpIsKeyCmp(a: Attr, b: Attr)
    requires Proper(a) && Proper(b)
    ensures AttrCmp(a, b) == KeyCmp(KeyOf(a), KeyOf(b))
    ensures AttrCmp(a, b) < 0 <==> KeyPrecedes(KeyOf(a), KeyOf(b))
  {
    hide KeyPrecedes;
    KeyCmpIsPrecedes(KeyOf(a), KeyOf(b));
  }

  lemma OptCmpOrder(a: Option<string>, b: Option<string>, c: Option<string>)
    ensures OptCmp(a, b) == -OptCmp(b, a)
    ensures OptCmp(a, b) == 0 <==> a == b
    ensures OptCmp(a, b) <= 0 && OptCmp(b, c) <= 0 ==> OptCmp(a, c) <= 0
  {
    if a.Some? && b.Some? { StrCmpFlip(a.value, b.value); }
    if a.Some? && b.Some? && c.Some? && OptCmp(a, b) <= 0 && OptCmp(b, c) <= 0 {
      StrCmpTransitive(a.value, b.value, c.value);
    }
  }

  /** The key order is a total order. */
  lemma KeyCmpOrder(x: Key, y: Key, z: Key)
    ensures KeyCmp(x, y) == -KeyCmp(y, x)
    ensures KeyCmp(x, y) == 0 <==> x == y
    ensures KeyCmp(x, y) <= 0 && KeyCmp(y, z) <= 0 ==> KeyCmp(x, z) <= 0
  {
    OptCmpOrder(x.uri, y.uri, z.uri);
    OptCmpOrder(y.uri, z.uri, x.uri);
    OptCmpOrder(x.uri, z.uri, y.uri);
    StrCmpFlip(x.name, y.name);
    if StrCmp(x.name, y.name) <= 0 && StrCmp(y.name, z.name) <= 0 {
      StrCmpTransitive(x.name, y.name, z.name);
    }
  }

  /** The comparator contradicts itself exactly on two unprefixed attributes of
      different namespace objects: both orders of the call then answer "smaller". */
  lemma AttrCmpAntisymmetric(a: Attr, b: Attr)
    ensures AttrCmp(a, b) == -AttrCmp(b, a)
            <==> !(a.ns.Some? && b.ns.Some? && a.ns != b.ns
                   && a.ns.value.prefix == "" && b.ns.value.prefix == "")
  {
    StrCmpFlip(a.name, b.name);
    if a.ns.Some? && b.ns.Some? {
      OptCmpOrder(a.ns.value.href, b.ns.value.href, None);
    }
  }

  ghost predicate Ordered(list: seq<Attr>)
  {
    |list| < 2 || (KeyCmp(KeyOf(list[0]), KeyOf(list[1])) <= 0 && Ordered(list[1..]))
  }

  ghost predicate AllProper(list: seq<Attr>)
  {
    forall i :: 0 <= i < |list| ==> Proper(list[i])
  }

  function Keys(attrs: seq<Attr>): set<Key>
  {
    if attrs == [] then {} else {KeyOf(attrs[0])} + Keys(attrs[1..])
  }

  lemma {:induction false} InsertKeys(list: seq<Attr>, a: Attr)
    ensures Keys(Insert(list, a)) == Keys(list) + {KeyOf(a)}
    ensures AllProper(list) && Proper(a) ==> AllProper(Insert(list, a))
  {
    var r := Insert(list, a);
    if list == [] || AttrCmp(list[0], a) >= 0 {
      assert r[1..] == list;
    } else {
      InsertKeys(list[1..], a);
      assert r[1..] == Insert(list[1..], a);
    }
  }

  lemma OrderedCons(a: Attr, list: seq<Attr>)
    requires Ordered(list)
    requires list != [] ==> KeyCmp(KeyOf(a), KeyOf(list[0])) <= 0
    ensures Ordered([a] + list)
  {
    assert ([a] + list)[1..] == list;
  }

  lemma {:induction false} InsertKeepsOrder(list: seq<Attr>, a: Attr)
    requires Ordered(list) && AllProper(list) && Proper(a)
    ensures Ordered(Insert(list, a))
  {
    if list == [] {
    } else {
      AttrCmpIsKeyCmp(list[0], a);
      if AttrCmp(list[0], a) >= 0 {
        KeyCmpOrder(KeyOf(list[0]), KeyOf(a), KeyOf(a));
        OrderedCons(a, list);
      } else {
        InsertKeepsOrder(list[1..], a);
        OrderedCons(list[0], Insert(list[1..], a));
      }
    }
  }

  lemma {:induction false} OrderedAscends(list: seq<Attr>)
    requires Ordered(list)
    ensures forall i, j :: 0 <= i < j < |list| ==> !KeyPrecedes(KeyOf(list[j]), KeyOf(list[i]))
  {
    hide KeyPrecedes, KeyCmp;
    forall i, j | 0 <= i < j < |list| ensures !KeyPrecedes(KeyOf(list[j]), KeyOf(list[i])) {
      if i == 0 {
        KeyIsPresent(list, j);
        HeadIsLeast(list, KeyOf(list[j]));
        KeyCmpIsPrecedes(KeyOf(list[j]), KeyOf(list[0]));
        KeyCmpOrder(KeyOf(list[0]), KeyOf(list[j]), KeyOf(list[j]));
      } else {
        OrderedAscends(list[1..]);
        assert list[i] == list[1..][i - 1] && list[j] == list[1..][j - 1];
      }
    }
  }

  lemma {:induction false} KeyIsPresent(list: seq<Attr>, j: nat)
    requires j < |list|
    ensures KeyOf(list[j]) in Keys(list)
  {
    if j > 0 { KeyIsPresent(list[1..], j - 1); }
  }

  lemma {:induction false} HeadIsLeast(list: seq<Attr>, k: Key)
    requires Ordered(list) && k in Keys(list)
    ensures KeyCmp(KeyOf(list[0]), k) <= 0
  {
    KeyCmpOrder(k, k, k);
    if KeyOf(list[0]) != k {
      HeadIsLeast(list[1..], k);
      KeyCmpOrder(KeyOf(list[0]), KeyOf(list[1]), k);
    }
  }

  /** In an ordered list the search finds an attribute iff its key is there. */
  lemma {:induction false} PresentIsMembership(list: seq<Attr>, a: Attr)
    requires Ordered(list) && AllProper(list) && Proper(a)
    ensures Present(list, a) <==> KeyOf(a) in Keys(list)
  {
    if list != [] {
      AttrCmpIsKeyCmp(list[0], a);
      KeyCmpOrder(KeyOf(list[0]), KeyOf(a), KeyOf(a));
      PresentIsMembership(list[1..], a);
      if KeyOf(a) in Keys(list) { HeadIsLeast(list, KeyOf(a)); }
    }
  }

  type Visibility = (Addr, Option<Addr>) -> bool

  /** First loop of xmlC14NProcessAttrsAxis: the element's own visible attributes. */
  function OwnAttrs(vis: Visibility, owner: Addr, attrs: seq<Attr>, list: seq<Attr>): seq<Attr>
  {
    if attrs == [] then list
    else OwnAttrs(vis, owner, attrs[1..],
                  if vis(attrs[0].addr, Some(owner)) then Insert(list, attrs[0]) else list)
  }

  predicate IsXmlAttr(a: Attr) { a.ns.Some? && a.ns.value.prefix == "xml" }

  function InheritFrom(attrs: seq<Attr>, list: seq<Attr>): seq<Attr>
  {
    if attrs == [] then list
    else InheritFrom(attrs[1..],
                     if IsXmlAttr(attrs[0]) && !Present(list, attrs[0]) then Insert(list, attrs[0]) else list)
  }

  function AttrsOf(n: Node): seq<Attr> { if n.Element? then n.attrs else [] }

  /** Second loop: xml: attributes of the ancestors, nearest first. */
  function Inherit(ancestors: seq<Node>, list: seq<Attr>): seq<Attr>
  {
    if ancestors == [] then list
    else
      var up := |ancestors| - 1;
      Inherit(ancestors[..up], InheritFrom(AttrsOf(ancestors[up]), list))
  }

  function AddrOfLast(path: seq<Node>): Option<Addr>
  {
    if path == [] then None else Some(path[|path| - 1].addr)
  }

  /** An orphan: rendered itself while its parent is not. */
  predicate Orphan(vis: Visibility, exclusive: bool, ancestors: seq<Node>, visible: bool)
  {
    visible && !exclusive && ancestors != []
    && !vis(ancestors[|ancestors| - 1].addr, AddrOfLast(ancestors[..|ancestors| - 1]))
  }

  /** xmlC14NProcessAttrsAxis: the attributes printed for an element, in order. */
  function AttrAxis(vis: Visibility, exclusive: bool, ancestors: seq<Node>, n: Node, visible: bool): seq<Attr>
  {
    var own := OwnAttrs(vis, n.addr, AttrsOf(n), []);
    if Orphan(vis, exclusive, ancestors, visible) then Inherit(ancestors, own) else own
  }

  // ---- what the axis prints ----

  function VisibleAttrs(vis: Visibility, owner: Addr, attrs: seq<Attr>): seq<Attr>
  {
    if attrs == [] then []
    else if vis(attrs[0].addr, Some(owner)) then [attrs[0]] + VisibleAttrs(vis, owner, attrs[1..])
    else VisibleAttrs(vis, owner, attrs[1..])
  }

  /** All xml: attributes of the ancestors, nearest element first. */
  function XmlAttrs(ancestors: seq<Node>): seq<Attr>
  {
    if ancestors == [] then []
    else
      var up := |ancestors| - 1;
      XmlOf(AttrsOf(ancestors[up])) + XmlAttrs(ancestors[..up])
  }

  function XmlOf(attrs: seq<Attr>): seq<Attr>
  {
    if attrs == [] then []
    else if IsXmlAttr(attrs[0]) then [attrs[0]] + XmlOf(attrs[1..])
    else XmlOf(attrs[1..])
  }

  /** From each key, the first attribute whose key is not taken yet. */
  function FirstPerKey(attrs: seq<Attr>, taken: set<Key>): seq<Attr>
  {
    if attrs == [] then []
    else if KeyOf(attrs[0]) in taken then FirstPerKey(attrs[1..], taken)
    else [attrs[0]] + FirstPerKey(attrs[1..], taken + {KeyOf(attrs[0])})
  }

  lemma {:induction false} OwnAttrsAre(vis: Visibility, owner: Addr, attrs: seq<Attr>, list: seq<Attr>)
    requires Ordered(list) && AllProper(list) && AllProper(attrs)
    ensures var r := OwnAttrs(vis, owner, attrs, list);
            Ordered(r) && AllProper(r)
            && multiset(r) == multiset(list) + multiset(VisibleAttrs(vis, owner, attrs))
  {
    if attrs != [] {
      var next := if vis(attrs[0].addr, Some(owner)) then Insert(list, attrs[0]) else list;
      InsertKeepsOrder(list, attrs[0]);
      InsertKeys(list, attrs[0]);
      OwnAttrsAre(vis, owner, attrs[1..], next);
    }
  }

  lemma {:induction false} InheritFromAre(attrs: seq<Attr>, list: seq<Attr>, rest: seq<Attr>)
    requires Ordered(list) && AllProper(list)
    ensures var r := InheritFrom(attrs, list);
            && Ordered(r) && AllProper(r)
            && multiset(list) + multiset(FirstPerKey(XmlOf(attrs) + rest, Keys(list)))
               == multiset(r) + multiset(FirstPerKey(rest, Keys(r)))
  {
    if attrs == [] {
      assert XmlOf(attrs) + rest == rest;
    } else {
      var a := attrs[0];
      var all := XmlOf(attrs) + rest;
      if IsXmlAttr(a) {
        PresentIsMembership(list, a);
        assert all[0] == a && all[1..] == XmlOf(attrs[1..]) + rest;
        if !Present(list, a) {
          InsertKeepsOrder(list, a);
          InsertKeys(list, a);
          InheritFromAre(attrs[1..], Insert(list, a), rest);
        } else {
          InheritFromAre(attrs[1..], list, rest);
        }
      } else {
        InheritFromAre(attrs[1..], list, rest);
      }
    }
  }

  lemma {:induction false} InheritAre(ancestors: seq<Node>, list: seq<Attr>)
    requires Ordered(list) && AllProper(list)
    ensures var r := Inherit(ancestors, list);
            && Ordered(r) && AllProper(r)
            && multiset(r) == multiset(list) + multiset(FirstPerKey(XmlAttrs(ancestors), Keys(list)))
  {
    if ancestors != [] {
      var up := |ancestors| - 1;
      var own := AttrsOf(ancestors[up]);
      InheritFromAre(own, list, XmlAttrs(ancestors[..up]));
      InheritAre(ancestors[..up], InheritFrom(own, list));
    }
  }

  /** The axis prints, in key order, exactly the element's visible attributes and,
      for an orphan, the nearest ancestor's value of every xml: attribute the
      element does not print itself, each once. */
  lemma AxisContents(vis: Visibility, exclusive: bool, ancestors: seq<Node>, n: Node, visible: bool)
    requires AllProper(AttrsOf(n))
    ensures var r := AttrAxis(vis, exclusive, ancestors, n, visible);
            var own := VisibleAttrs(vis, n.addr, AttrsOf(n));
            var inherited := if Orphan(vis, exclusive, ancestors, visible)
                             then FirstPerKey(XmlAttrs(ancestors), Keys(own)) else [];
            Ordered(r) && multiset(r) == multiset(own + inherited)
    ensures var r := AttrAxis(vis, exclusive, ancestors, n, visible);
            forall i, j :: 0 <= i < j < |r| ==> !KeyPrecedes(KeyOf(r[j]), KeyOf(r[i]))
  {
    hide KeyPrecedes;
    var own := OwnAttrs(vis, n.addr, AttrsOf(n), []);
    OwnAttrsAre(vis, n.addr, AttrsOf(n), []);
    SameKeys(own, VisibleAttrs(vis, n.addr, AttrsOf(n)));
    if Orphan(vis, exclusive, ancestors, visible) { InheritAre(ancestors, own); }
    OrderedAscends(AttrAxis(vis, exclusive, ancestors, n, visible));
  }

  lemma KeysAre(s: seq<Attr>, k: Key)
    ensures k in Keys(s) <==> exists a :: a in multiset(s) && KeyOf(a) == k
  {
    if s != [] {
      assert s == [s[0]] + s[1..];
      KeysAre(s[1..], k);
      assert s[0] in multiset(s);
    }
  }

  lemma SameKeys(s: seq<Attr>, t: seq<Attr>)
    requires multiset(s) == multiset(t)
    ensures Keys(s) == Keys(t)
  {
    forall k ensures k in Keys(s) <==> k in Keys(t) {
      KeysAre(s, k);
      KeysAre(t, k);
    }
  }

  /** The nearest attribute of a key in a nearest-first listing. */
  function Nearest(attrs: seq<Attr>, k: Key): Option<Attr>
  {
    if attrs == [] then None
    else if KeyOf(attrs[0]) == k then Some(attrs[0])
    else Nearest(attrs[1..], k)
  }

  predicate Distinct(attrs: seq<Attr>)
  {
    attrs == [] || (KeyOf(attrs[0]) !in Keys(attrs[1..]) && Distinct(attrs[1..]))
  }

  /** The inherited part repeats no key, has one attribute for every key the element
      does not print itself, and that attribute is the nearest one. */
  lemma {:induction false} FirstPerKeyIsNearest(attrs: seq<Attr>, taken: set<Key>)
    ensures var r := FirstPerKey(attrs, taken);
            && Distinct(r)
            && Keys(r) == Keys(attrs) - taken
            && (forall i :: 0 <= i < |r| ==> KeyOf(r[i]) in Keys(r) && Nearest(attrs, KeyOf(r[i])) == Some(r[i]))
  {
    if attrs != [] {
      var a, rest := attrs[0], attrs[1..];
      var more := taken + {KeyOf(a)};
      FirstPerKeyIsNearest(rest, more);
      if KeyOf(a) in taken {
        assert more == taken;
      } else {
        assert FirstPerKey(attrs, taken)[1..] == FirstPerKey(rest, more);
      }
    }
  }
}
