/**
 Catalog files to entry lists and back: nested groups are flattened to one list in
 which every entry points to its group, and dumping that list rebuilds the nesting.
 */
module CatalogGroups {
  import opened Common
  import R = CatalogNames

  datatype Prefer = NoPrefer | PreferPublic | PreferSystem | PreferInvalid

  datatype LeafKind = Public | System | RewriteSystem | DelegatePublic | DelegateSystem
                    | Uri | RewriteUri | DelegateUri | NextCatalog | Unknown

  /** An element of a catalog file; an attribute that is absent is None. Elements of
      another namespace are Unknown leaves. */
  datatype CNode =
    | Group(id: Option<string>, base: Option<string>, prefer: Prefer, kids: seq<CNode>)
    | Leaf(kind: LeafKind, name: Option<string>, value: Option<string>)

  datatype LEntry =
    | GroupEntry(name: Option<string>, base: Option<string>, prefer: Prefer, group: Option<nat>)
    | LeafEntry(kind: LeafKind, name: Option<string>, value: string, inherited: Prefer, group: Option<nat>)

  // ---- parsing ----

  /** xmlNewCatalogEntry normalizes the names of public entries. */
  function StoredName(kind: LeafKind, name: Option<string>): Option<string>
  {
    if kind.Public? || kind.DelegatePublic? then R.NormalizePublic(name)
    else if kind.NextCatalog? then None
    else name
  }

  /** xmlParseXMLCatalogOneNode: an entry needs its attributes. */
  predicate Accepted(n: CNode)
    requires n.Leaf?
  {
    !n.kind.Unknown? && n.value.Some? && (n.kind.NextCatalog? || n.name.Some?)
  }

  /** The preference handed to the members, and the one stored with the group. */
  function Passed(attr: Prefer, inherited: Prefer): Prefer
  {
    if attr.PreferPublic? || attr.PreferSystem? then attr else inherited
  }

  function StoredPrefer(attr: Prefer, inherited: Prefer): Prefer
  {
    if attr.NoPrefer? then NoPrefer else Passed(attr, inherited)
  }

  function FlattenNode(n: CNode, at: nat, g: Option<nat>, p: Prefer): seq<LEntry>
    decreases n, 1
  {
    match n
    case Group(id, base, prefer, kids) =>
      [GroupEntry(id, base, StoredPrefer(prefer, p), g)] + Flatten(kids, at + 1, Some(at), Passed(prefer, p))
    case Leaf(kind, name, value) =>
      if Accepted(n) then [LeafEntry(kind, StoredName(kind, name), value.value, p, g)] else []
  }

  /** xmlParseXMLCatalogNodeList; at is the position the next entry gets. */
  function Flatten(nodes: seq<CNode>, at: nat, g: Option<nat>, p: Prefer): seq<LEntry>
    decreases nodes, 0
  {
    if nodes == [] then []
    else
      var first := FlattenNode(nodes[0], at, g, p);
      first + Flatten(nodes[1..], at + |first|, g, p)
  }

  // ---- dumping ----

  function Text(o: Option<string>): Option<string> { if o.Some? then o else Some("") }

  /** xmlDumpXMLCatalogNode from position i, for the members of one group. */
  function Dump(list: seq<LEntry>, i: nat, g: Option<nat>): seq<CNode>
    requires i <= |list|
    decreases |list| - i
  {
    if i == |list| then []
    else
      var head :=
        if list[i].group != g then []
        else match list[i]
          case GroupEntry(name, base, prefer, _) => [Group(Text(name), base, prefer, Dump(list, i + 1, Some(i)))]
          case LeafEntry(kind, name, value, _, _) =>
            [Leaf(kind, if kind.NextCatalog? then None else Text(name), Some(value))];
      head + Dump(list, i + 1, g)
  }

  // ---- what comes back ----

  /** What parsing and dumping make of a file: unusable elements vanish, a missing group
      id becomes empty, an invalid preference the inherited one, public names normal. */
  function Cleaned(nodes: seq<CNode>, p: Prefer): seq<CNode>
  {
    if nodes == [] then [] else CleanedNode(nodes[0], p) + Cleaned(nodes[1..], p)
  }

  function CleanedNode(n: CNode, p: Prefer): seq<CNode>
  {
    match n
    case Group(id, base, prefer, kids) =>
      [Group(Text(id), base, StoredPrefer(prefer, p), Cleaned(kids, Passed(prefer, p)))]
    case Leaf(kind, name, value) =>
      if Accepted(n) then [Leaf(kind, if kind.NextCatalog? then None else Text(StoredName(kind, name)), value)] else []
  }

  predicate Within(e: LEntry, g: Option<nat>, lo: nat, hi: nat)
  {
    e.group == g || (e.group.Some? && lo <= e.group.value < hi)
  }

  ghost predicate AllWithin(l: seq<LEntry>, g: Option<nat>, lo: nat)
  {
    forall k :: 0 <= k < |l| ==> Within(l[k], g, lo, lo + |l|)
  }

  /** Every entry of a flattened forest belongs to the given group or to one inside. */
  lemma {:induction false} FlattenGroups(nodes: seq<CNode>, at: nat, g: Option<nat>, p: Prefer)
    ensures AllWithin(Flatten(nodes, at, g, p), g, at)
    decreases nodes, 0
  {
    if nodes != [] {
      var first := FlattenNode(nodes[0], at, g, p);
      var rest := Flatten(nodes[1..], at + |first|, g, p);
      NodeGroups(nodes[0], at, g, p);
      FlattenGroups(nodes[1..], at + |first|, g, p);
      var l := Flatten(nodes, at, g, p);
      forall k | 0 <= k < |l| ensures Within(l[k], g, at, at + |l|) {
        if k < |first| {
          assert l[k] == first[k] && Within(first[k], g, at, at + |first|);
        } else {
          assert l[k] == rest[k - |first|] && Within(rest[k - |first|], g, at + |first|, at + |l|);
        }
      }
    }
  }

  lemma {:induction false} NodeGroups(n: CNode, at: nat, g: Option<nat>, p: Prefer)
    ensures AllWithin(FlattenNode(n, at, g, p), g, at)
    decreases n, 1
  {
    if n.Group? {
      var kids := Flatten(n.kids, at + 1, Some(at), Passed(n.prefer, p));
      FlattenGroups(n.kids, at + 1, Some(at), Passed(n.prefer, p));
      var l := FlattenNode(n, at, g, p);
      forall k | 0 <= k < |l| ensures Within(l[k], g, at, at + |l|) {
        if k > 0 { assert l[k] == kids[k - 1] && Within(kids[k - 1], Some(at), at + 1, at + |l|); }
      }
    }
  }

  lemma {:induction false} SkipsOthers(list: seq<LEntry>, i: nat, j: nat, g: Option<nat>)
    requires i <= j <= |list| && forall k :: i <= k < j ==> list[k].group != g
    ensures Dump(list, i, g) == Dump(list, j, g)
    decreases j - i
  {
    if i < j {
      SkipsOthers(list, i + 1, j, g);
      assert [] + Dump(list, i + 1, g) == Dump(list, i + 1, g);
    }
  }

  /** The list from i on holds the flattened nodes, and what follows them points to no
      group among them. */
  ghost predicate Region(list: seq<LEntry>, i: nat, nodes: seq<CNode>, g: Option<nat>, p: Prefer)
  {
    var n := |Flatten(nodes, i, g, p)|;
    && i + n <= |list| && list[i..i + n] == Flatten(nodes, i, g, p)
    && (g.Some? ==> g.value < i)
    && AllOutside(list, i + n, i, i + n)
  }

  predicate Outside(g: Option<nat>, lo: nat, hi: nat) { g.Some? ==> g.value < lo || hi <= g.value }

  /** From the given position on, no entry belongs to a group between lo and hi. */
  ghost predicate AllOutside(list: seq<LEntry>, from: nat, lo: nat, hi: nat)
  {
    forall k :: from <= k < |list| ==> Outside(list[k].group, lo, hi)
  }

  /** The list from i on holds one flattened node. */
  ghost predicate NodeRegion(list: seq<LEntry>, i: nat, n: CNode, g: Option<nat>, p: Prefer)
  {
    var l := FlattenNode(n, i, g, p);
    && i + |l| <= |list| && list[i..i + |l|] == l
    && (g.Some? ==> g.value < i)
    && AllOutside(list, i + |l|, i, i + |l|)
  }

  /** Splitting a region into its first node and the rest. */
  lemma RegionSplit(list: seq<LEntry>, i: nat, nodes: seq<CNode>, g: Option<nat>, p: Prefer)
    requires Region(list, i, nodes, g, p) && nodes != []
    ensures NodeRegion(list, i, nodes[0], g, p)
    ensures Region(list, i + |FlattenNode(nodes[0], i, g, p)|, nodes[1..], g, p)
  {
    hide Flatten, FlattenNode, AllOutside, AllWithin;
    var first := FlattenNode(nodes[0], i, g, p);
    var j := i + |first|;
    var rest := Flatten(nodes[1..], j, g, p);
    FlattenGroups(nodes[1..], j, g, p);
    FlattenCons(nodes, i, g, p);
    SliceSplit(list, i, first, rest);
    OutsideSplit(list, i, j, rest, g);
  }

  lemma FlattenCons(nodes: seq<CNode>, at: nat, g: Option<nat>, p: Prefer)
    requires nodes != []
    ensures var first := FlattenNode(nodes[0], at, g, p);
            Flatten(nodes, at, g, p) == first + Flatten(nodes[1..], at + |first|, g, p)
  {
  }

  lemma SliceSplit(list: seq<LEntry>, i: nat, first: seq<LEntry>, rest: seq<LEntry>)
    requires i + |first| + |rest| <= |list| && list[i..i + |first| + |rest|] == first + rest
    ensures var j := i + |first|; list[i..j] == first && list[j..j + |rest|] == rest
  {
    var all, j := list[i..i + |first| + |rest|], i + |first|;
    assert list[i..j] == all[..|first|] && list[j..j + |rest|] == all[|first|..];
  }

  /** The entries of the later nodes belong to the enclosing group or to one of theirs. */
  lemma OutsideSplit(list: seq<LEntry>, i: nat, j: nat, rest: seq<LEntry>, g: Option<nat>)
    requires i <= j && j + |rest| <= |list| && list[j..j + |rest|] == rest
    requires AllWithin(rest, g, j) && (g.Some? ==> g.value < i)
    requires AllOutside(list, j + |rest|, i, j + |rest|)
    ensures AllOutside(list, j, i, j) && AllOutside(list, j + |rest|, j, j + |rest|)
  {
    forall k | j <= k < |list| ensures Outside(list[k].group, i, j) {
      if k < j + |rest| {
        assert list[k] == list[j..j + |rest|][k - j] == rest[k - j];
        assert Within(rest[k - j], g, j, j + |rest|);
      } else {
        assert Outside(list[k].group, i, j + |rest|);
      }
    }
    forall k | j + |rest| <= k < |list| ensures Outside(list[k].group, j, j + |rest|) {
      assert Outside(list[k].group, i, j + |rest|);
    }
  }

  lemma GroupRegion(list: seq<LEntry>, i: nat, n: CNode, g: Option<nat>, p: Prefer)
    requires n.Group? && NodeRegion(list, i, n, g, p)
    ensures Region(list, i + 1, n.kids, Some(i), Passed(n.prefer, p))
    ensures i < |list| && list[i] == GroupEntry(n.id, n.base, StoredPrefer(n.prefer, p), g)
  {
    var l := FlattenNode(n, i, g, p);
    var kids := Flatten(n.kids, i + 1, Some(i), Passed(n.prefer, p));
    assert list[i..i + |l|][1..] == list[i + 1..i + |l|] && l[1..] == kids;
    assert list[i..i + |l|][0] == list[i];
    forall k | i + |l| <= k < |list| ensures Outside(list[k].group, i + 1, i + |l|) {
      assert Outside(list[k].group, i, i + |l|);
    }
  }

  lemma {:induction false} DumpRegion(list: seq<LEntry>, i: nat, nodes: seq<CNode>, g: Option<nat>, p: Prefer)
    requires Region(list, i, nodes, g, p)
    ensures var n := |Flatten(nodes, i, g, p)|;
            i + n <= |list| && Dump(list, i, g) == Cleaned(nodes, p) + Dump(list, i + n, g)
    decreases nodes, 1
  {
    hide Dump, FlattenNode, CleanedNode, AllOutside;
    if nodes == [] {
      assert [] + Dump(list, i, g) == Dump(list, i, g);
    } else {
      var n, j := |Flatten(nodes, i, g, p)|, i + |FlattenNode(nodes[0], i, g, p)|;
      RegionSplit(list, i, nodes, g, p);
      DumpRegion(list, j, nodes[1..], g, p);
      DumpNode(list, i, nodes[0], g, p);
      var a, b, z := CleanedNode(nodes[0], p), Cleaned(nodes[1..], p), Dump(list, i + n, g);
      assert a + (b + z) == (a + b) + z;
    }
  }

  lemma {:induction false} DumpNode(list: seq<LEntry>, i: nat, n: CNode, g: Option<nat>, p: Prefer)
    requires NodeRegion(list, i, n, g, p)
    ensures var l := FlattenNode(n, i, g, p);
            i + |l| <= |list| && Dump(list, i, g) == CleanedNode(n, p) + Dump(list, i + |l|, g)
    decreases n, 0
  {
    hide Flatten, FlattenNode, Cleaned, CleanedNode, AllOutside, Dump, Region, NodeRegion;
    if n.Leaf? {
      DumpLeaf(list, i, n, g, p);
    } else {
      var p', j := Passed(n.prefer, p), i + |FlattenNode(n, i, g, p)|;
      GroupRegion(list, i, n, g, p);
      GroupMembers(list, i, n, g, p);
      DumpRegion(list, i + 1, n.kids, Some(i), p');
      // after the members, nothing belongs to this group
      SkipsOthers(list, j, |list|, Some(i));
      DumpEnd(list, Some(i));
      // the members do not belong to the enclosing group
      SkipsOthers(list, i + 1, j, g);
      DumpStep(list, i, g);
      Assoc(Cleaned(n.kids, p'), [], []);
      CleanedGroup(n, p);
    }
  }

  lemma CleanedGroup(n: CNode, p: Prefer)
    requires n.Group?
    ensures CleanedNode(n, p)
            == [Group(Text(n.id), n.base, StoredPrefer(n.prefer, p), Cleaned(n.kids, Passed(n.prefer, p)))]
  {
  }

  lemma DumpLeaf(list: seq<LEntry>, i: nat, n: CNode, g: Option<nat>, p: Prefer)
    requires n.Leaf? && NodeRegion(list, i, n, g, p)
    ensures i + |FlattenNode(n, i, g, p)| <= |list|
    ensures Dump(list, i, g) == CleanedNode(n, p) + Dump(list, i + |FlattenNode(n, i, g, p)|, g)
  {
    hide Dump, AllOutside;
    var j := i + |FlattenNode(n, i, g, p)|;
    if Accepted(n) {
      assert list[i..j][0] == list[i];
      DumpStep(list, i, g);
    } else {
      Assoc(Dump(list, i, g), [], []);
    }
  }

  lemma GroupMembers(list: seq<LEntry>, i: nat, n: CNode, g: Option<nat>, p: Prefer)
    requires n.Group? && NodeRegion(list, i, n, g, p)
    ensures var j := i + |FlattenNode(n, i, g, p)|;
            && i < j <= |list| && j == i + 1 + |Flatten(n.kids, i + 1, Some(i), Passed(n.prefer, p))|
            && (forall k :: j <= k < |list| ==> list[k].group != Some(i))
            && (forall k :: i + 1 <= k < j ==> list[k].group != g)
  {
    hide Flatten;
    var p', l := Passed(n.prefer, p), FlattenNode(n, i, g, p);
    var j, kids := i + |l|, Flatten(n.kids, i + 1, Some(i), p');
    FlattenGroups(n.kids, i + 1, Some(i), p');
    forall k | i + 1 <= k < j ensures list[k].group != g {
      assert list[k] == list[i..j][k - i] == l[k - i] == kids[k - i - 1];
      assert Within(kids[k - i - 1], Some(i), i + 1, j);
    }
    forall k | j <= k < |list| ensures list[k].group != Some(i) { assert Outside(list[k].group, i, j); }
  }

  lemma Assoc(a: seq<CNode>, b: seq<CNode>, c: seq<CNode>)
    ensures a + (b + c) == a + b + c && a + [] == a && [] + a == a
  {
  }

  lemma DumpEnd(list: seq<LEntry>, g: Option<nat>)
    ensures Dump(list, |list|, g) == []
  {
  }

  /** One entry of the list: skipped, a group with what the recursion found, or a leaf. */
  lemma DumpStep(list: seq<LEntry>, i: nat, g: Option<nat>)
    requires i < |list|
    ensures var e, rest := list[i], Dump(list, i + 1, g);
            Dump(list, i, g) ==
              if e.group != g then [] + rest
              else if e.GroupEntry? then [Group(Text(e.name), e.base, e.prefer, Dump(list, i + 1, Some(i)))] + rest
              else [Leaf(e.kind, if e.kind.NextCatalog? then None else Text(e.name), Some(e.value))] + rest
  {
  }

  /** Flattening a file and dumping the list rebuilds the nesting, the order and all
      values of everything the parser accepts. */
  lemma DumpOfFlatten(nodes: seq<CNode>, p: Prefer)
    ensures Dump(Flatten(nodes, 0, None, p), 0, None) == Cleaned(nodes, p)
  {
    var list := Flatten(nodes, 0, None, p);
    assert list[0..|list|] == list;
    DumpRegion(list, 0, nodes, None, p);
    assert Cleaned(nodes, p) + [] == Cleaned(nodes, p);
  }

  /** The files that come back unchanged, element by element. */
  predicate Normal(nodes: seq<CNode>)
  {
    nodes == [] || (NormalNode(nodes[0]) && Normal(nodes[1..]))
  }

  predicate NormalNode(n: CNode)
  {
    match n
    case Group(id, _, prefer, kids) => id.Some? && !prefer.PreferInvalid? && Normal(kids)
    case Leaf(kind, name, value) =>
      && Accepted(n)
      && (kind.NextCatalog? ==> name.None?)
      && (kind.Public? || kind.DelegatePublic? ==> Text(R.NormalizePublic(name)) == name)
  }

  lemma {:induction false} CleanedLength(nodes: seq<CNode>, p: Prefer)
    ensures |Cleaned(nodes, p)| <= |nodes|
  {
    if nodes != [] { CleanedLength(nodes[1..], p); }
  }

  lemma {:induction false} CleanedIsSame(nodes: seq<CNode>, p: Prefer)
    requires !p.PreferInvalid?
    ensures Cleaned(nodes, p) == nodes <==> Normal(nodes)
    decreases nodes, 1
  {
    if nodes != [] {
      var a, b := CleanedNode(nodes[0], p), Cleaned(nodes[1..], p);
      CleanedLength(nodes[1..], p);
      NodeIsSame(nodes[0], p);
      CleanedIsSame(nodes[1..], p);
      assert nodes == [nodes[0]] + nodes[1..];
      if a + b == nodes {
        assert |a| == 1;
        assert a == nodes[..1] && b == nodes[1..];
      }
    }
  }

  lemma {:induction false} NodeIsSame(n: CNode, p: Prefer)
    requires !p.PreferInvalid?
    ensures CleanedNode(n, p) == [n] <==> NormalNode(n)
    decreases n, 0
  {
    if n.Group? { CleanedIsSame(n.kids, Passed(n.prefer, p)); }
  }

  /** A file survives parsing and dumping unchanged exactly if every group has an id and
      no invalid preference, every other element has its attributes, and public names
      are in normal form. */
  lemma RoundTrip(nodes: seq<CNode>, p: Prefer)
    requires !p.PreferInvalid?
    ensures Dump(Flatten(nodes, 0, None, p), 0, None) == nodes <==> Normal(nodes)
  {
    DumpOfFlatten(nodes, p);
    CleanedIsSame(nodes, p);
  }

  /** For instance a group without an id comes back with an empty one. */
  lemma GroupWithoutIdChanges()
    ensures Dump(Flatten([Group(None, None, NoPrefer, [])], 0, None, PreferPublic), 0, None)
            == [Group(Some(""), None, NoPrefer, [])]
  {
    var g := Group(None, None, NoPrefer, []);
    DumpOfFlatten([g], PreferPublic);
    assert Cleaned([g], PreferPublic) == CleanedNode(g, PreferPublic) + Cleaned([], PreferPublic);
  }

  // ---- in place ----

  /** The children list of a catalog entry while its file is parsed. */
  class CatalogFile {
    var list: seq<LEntry>

    constructor ()
      ensures list == []
    {
      list := [];
    }

    /** xmlParseXMLCatalogNode: append the entry, then recurse into a group. */
    method ParseNode(n: CNode, g: Option<nat>, p: Prefer)
      modifies this
      ensures list == old(list) + FlattenNode(n, |old(list)|, g, p)
      decreases n, 1
    {
      match n
      case Group(id, base, prefer, kids) =>
        var at := |list|;
        list := list + [GroupEntry(id, base, StoredPrefer(prefer, p), g)];
        ParseNodes(kids, Some(at), Passed(prefer, p));
      case Leaf(kind, name, value) =>
        if Accepted(n) { list := list + [LeafEntry(kind, StoredName(kind, name), value.value, p, g)]; }
    }

    /** xmlParseXMLCatalogNodeList. */
    method ParseNodes(nodes: seq<CNode>, g: Option<nat>, p: Prefer)
      modifies this
      ensures list == old(list) + Flatten(nodes, |old(list)|, g, p)
      decreases nodes, 0
    {
      hide FlattenNode;
      var i := 0;
      assert nodes[0..] == nodes;
      while i < |nodes|
        invariant 0 <= i <= |nodes| && |old(list)| <= |list|
        invariant old(list) + Flatten(nodes, |old(list)|, g, p) == list + Flatten(nodes[i..], |list|, g, p)
      {
        assert nodes[i..][1..] == nodes[i + 1..];
        ghost var before := list;
        FlattenCons(nodes[i..], |list|, g, p);
        ParseNode(nodes[i], g, p);
        assert list + Flatten(nodes[i + 1..], |list|, g, p) == before + Flatten(nodes[i..], |before|, g, p);
        i := i + 1;
      }
      assert list + [] == list;
    }

    /** xmlDumpXMLCatalogNode: the recursion is on a strictly shorter suffix. */
    method DumpNode(start: nat, g: Option<nat>) returns (nodes: seq<CNode>)
      requires start <= |list|
      ensures nodes == Dump(list, start, g)
      decreases |list| - start
    {
      hide Dump;
      nodes := [];
      var cur := start;
      while cur < |list|
        invariant start <= cur <= |list|
        invariant Dump(list, start, g) == nodes + Dump(list, cur, g)
      {
        var here := [];
        if list[cur].group == g {
          match list[cur]
          case GroupEntry(name, base, prefer, _) =>
            var kids := DumpNode(cur + 1, Some(cur));
            here := [Group(Text(name), base, prefer, kids)];
          case LeafEntry(kind, name, value, _, _) =>
            here := [Leaf(kind, if kind.NextCatalog? then None else Text(name), Some(value))];
        }
        DumpStep(list, cur, g);
        Assoc(nodes, here, Dump(list, cur + 1, g));
        nodes := nodes + here;
        cur := cur + 1;
      }
      DumpEnd(list, g);
      Assoc(nodes, [], []);
    }
  }
}
