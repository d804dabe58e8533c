/**
 Resolution of external identifiers through catalogs that refer to one another. Entries
 live in one growing arena: lists are linked forward by next, children may point
 anywhere, files are loaded when first needed and shared. Resolution is a family of
 mutually recursive functions on this state; the proof that it ends, cycles or not, is
 their decreases clause.
 */
module CatalogResolve {
  import opened Common
  import opened CatalogNames
  import opened CatalogLists

  const MAX_CATAL_DEPTH := 50
  const MAX_DELEGATE := 50

  datatype CEntry = CEntry(t: Template, next: Option<nat>, children: Option<nat>, depth: nat)

  /** The arena, and for every file the catalog loaded from it, if any. */
  datatype State = State(entries: seq<CEntry>, cache: seq<Option<nat>>)

  // ---- the arena ----

  predicate PointsWell(e: CEntry, i: nat, n: nat)
  {
    && (e.next.Some? ==> i < e.next.value < n)
    && (e.children.Some? ==> e.children.value < n)
  }

  ghost predicate Forward(entries: seq<CEntry>)
  {
    forall i :: 0 <= i < |entries| ==> PointsWell(entries[i], i, |entries|)
  }

  ghost predicate AllBelow(ids: seq<nat>, n: nat) { forall k :: 0 <= k < |ids| ==> ids[k] < n }

  /** The positions of the list that starts at entry i. */
  ghost function Indices(entries: seq<CEntry>, i: Option<nat>): (ids: seq<nat>)
    requires Forward(entries) && (i.Some? ==> i.value < |entries|)
    ensures AllBelow(ids, |entries|)
    decreases if i.Some? then |entries| - i.value else 0
  {
    if i.None? then []
    else
      assert PointsWell(entries[i.value], i.value, |entries|);
      [i.value] + Indices(entries, entries[i.value].next)
  }

  ghost function Templates(entries: seq<CEntry>, ids: seq<nat>): (r: seq<Template>)
    requires AllBelow(ids, |entries|)
    ensures |r| == |ids| && forall k :: 0 <= k < |r| ==> r[k] == entries[ids[k]].t
  {
    seq(|ids|, k requires 0 <= k < |ids| => entries[ids[k]].t)
  }

  /** What the list that starts at entry i says. */
  ghost function ListFrom(entries: seq<CEntry>, i: Option<nat>): seq<Template>
    requires Forward(entries) && (i.Some? ==> i.value < |entries|)
  {
    Templates(entries, Indices(entries, i))
  }

  // ---- headroom ----

  function Headroom(entries: seq<CEntry>): int
  {
    if entries == [] then 0
    else Headroom(entries[..|entries| - 1]) + (MAX_CATAL_DEPTH + 1 - entries[|entries| - 1].depth)
  }

  /** What the files not loaded yet would add: one entry for the file, one per entry. */
  function Unloaded(files: seq<File>, cache: seq<Option<nat>>): nat
    requires |files| == |cache|
  {
    if files == [] then 0
    else
      var k := |files| - 1;
      Unloaded(files[..k], cache[..k])
      + if cache[k].None? && files[k].content.Some? then (MAX_CATAL_DEPTH + 1) * (1 + |files[k].content.value|) else 0
  }

  ghost predicate Bounded(entries: seq<CEntry>)
  {
    forall i :: 0 <= i < |entries| ==> entries[i].depth <= MAX_CATAL_DEPTH + 1
  }

  lemma {:induction false} HeadroomNat(entries: seq<CEntry>)
    requires Bounded(entries)
    ensures Headroom(entries) >= 0
  {
    if entries != [] { HeadroomNat(entries[..|entries| - 1]); }
  }

  lemma {:induction false} HeadroomUpdate(entries: seq<CEntry>, i: nat, e: CEntry)
    requires i < |entries|
    ensures Headroom(entries[i := e]) == Headroom(entries) + entries[i].depth - e.depth
  {
    var k := |entries| - 1;
    if i == k {
      assert entries[i := e][..k] == entries[..k];
    } else {
      assert entries[i := e][..k] == entries[..k][i := e];
      HeadroomUpdate(entries[..k], i, e);
    }
  }

  lemma {:induction false} HeadroomConcat(a: seq<CEntry>, b: seq<CEntry>)
    ensures Headroom(a + b) == Headroom(a) + Headroom(b)
  {
    if b == [] {
      assert a + b == a;
    } else {
      assert (a + b)[..|a + b| - 1] == a + b[..|b| - 1];
      HeadroomConcat(a, b[..|b| - 1]);
    }
  }

  lemma {:induction false} UnloadedUpdate(files: seq<File>, cache: seq<Option<nat>>, i: nat, doc: nat)
    requires |files| == |cache| && i < |files| && cache[i].None? && files[i].content.Some?
    ensures Unloaded(files, cache[i := Some(doc)])
            == Unloaded(files, cache) - (MAX_CATAL_DEPTH + 1) * (1 + |files[i].content.value|)
  {
    var k := |files| - 1;
    if i == k {
      assert cache[i := Some(doc)][..k] == cache[..k];
    } else {
      assert cache[i := Some(doc)][..k] == cache[..k][i := Some(doc)];
      UnloadedUpdate(files[..k], cache[..k], i, doc);
    }
  }

  lemma {:induction false} HeadroomFresh(es: seq<CEntry>)
    requires forall i :: 0 <= i < |es| ==> es[i].depth == 0
    ensures Headroom(es) == (MAX_CATAL_DEPTH + 1) * |es|
  {
    if es != [] { HeadroomFresh(es[..|es| - 1]); }
  }

  /** Lists run forward, pointers stay inside the arena, counters within 0..51. */
  ghost predicate Valid(files: seq<File>, st: State)
  {
    && |st.cache| == |files| && Bounded(st.entries) && Forward(st.entries)
    && forall f :: 0 <= f < |st.cache| && st.cache[f].Some? ==> st.cache[f].value < |st.entries|
  }

  /** The measure: headroom of all counters, including those of files still to load. */
  ghost function Measure(files: seq<File>, st: State): nat
    requires Valid(files, st)
  {
    HeadroomNat(st.entries);
    Headroom(st.entries) + Unloaded(files, st.cache)
  }

  // ---- what a call may do to the arena ----

  /** Children are set once, a kind may become broken, a counter may stay raised; exact
      says that it does not. */
  predicate Grows(a: CEntry, b: CEntry, exact: bool)
  {
    && a.next == b.next && (a.children.Some? ==> b.children == a.children)
    && (b.t == a.t || b.t == a.t.(kind := Broken))
    && a.depth <= b.depth && (exact ==> a.depth == b.depth)
  }

  ghost predicate Extends(a: seq<CEntry>, b: seq<CEntry>, exact: bool)
  {
    && |a| <= |b|
    && (forall i :: 0 <= i < |a| ==> Grows(a[i], b[i], exact))
    && (exact ==> forall i :: |a| <= i < |b| ==> b[i].depth == 0)
  }

  /** The counter of an entry, 0 for one that is not there yet. */
  function DepthIn(entries: seq<CEntry>, i: nat): nat { if i < |entries| then entries[i].depth else 0 }

  /** Some counter is left raised. */
  ghost predicate Raised(a: seq<CEntry>, b: seq<CEntry>)
  {
    exists i :: 0 <= i < |b| && b[i].depth > DepthIn(a, i)
  }

  lemma ExtendsSelf(a: seq<CEntry>, exact: bool)
    ensures Extends(a, a, exact)
  {
  }

  lemma ExtendsTrans(a: seq<CEntry>, b: seq<CEntry>, c: seq<CEntry>, x: bool, y: bool)
    requires Extends(a, b, x) && Extends(b, c, y)
    ensures Extends(a, c, x && y)
  {
    forall i | 0 <= i < |a| ensures Grows(a[i], c[i], x && y) {
      assert Grows(a[i], b[i], x) && Grows(b[i], c[i], y);
    }
    if x && y {
      forall i | |a| <= i < |c| ensures c[i].depth == 0 {
        if i < |b| { assert Grows(b[i], c[i], y); }
      }
    }
  }

  lemma RaisedTrans(a: seq<CEntry>, b: seq<CEntry>, c: seq<CEntry>, x: bool, y: bool)
    requires Extends(a, b, x) && Extends(b, c, y)
    ensures Raised(a, b) || Raised(b, c) ==> Raised(a, c)
  {
    if Raised(a, b) {
      var i :| 0 <= i < |b| && b[i].depth > DepthIn(a, i);
      assert Grows(b[i], c[i], y);
      assert c[i].depth > DepthIn(a, i);
    } else if Raised(b, c) {
      var i :| 0 <= i < |c| && c[i].depth > DepthIn(b, i);
      if i < |a| { assert Grows(a[i], b[i], x); }
      assert c[i].depth > DepthIn(a, i);
    }
  }

  /** Restored and raised exclude one another. */
  lemma ExactIsNotRaised(a: seq<CEntry>, b: seq<CEntry>)
    requires Extends(a, b, true)
    ensures !Raised(a, b)
  {
    forall i | 0 <= i < |b| ensures b[i].depth <= DepthIn(a, i) {
      if i < |a| { assert Grows(a[i], b[i], true); }
    }
  }

  /** Links never change, so the list that starts at an entry keeps its positions. */
  lemma {:induction false} SameIndices(a: seq<CEntry>, b: seq<CEntry>, i: Option<nat>, exact: bool)
    requires Forward(a) && Forward(b) && Extends(a, b, exact) && (i.Some? ==> i.value < |a|)
    ensures Indices(b, i) == Indices(a, i)
    decreases if i.Some? then |a| - i.value else 0
  {
    if i.Some? {
      assert Grows(a[i.value], b[i.value], exact) && PointsWell(a[i.value], i.value, |a|);
      SameIndices(a, b, a[i.value].next, exact);
    }
  }

  // ---- loading ----

  function KidsOf(entries: seq<CEntry>, x: nat, doc: nat): Option<nat>
    requires x < |entries| && doc < |entries|
  {
    if entries[x].t.kind.CatalogKind? then entries[doc].children else Some(doc)
  }

  /** catal->children: the list of a catalog, or the catalog itself for a reference. */
  function SetChildren(st: State, x: nat, doc: nat): State
    requires x < |st.entries| && doc < |st.entries|
  {
    st.(entries := st.entries[x := st.entries[x].(children := KidsOf(st.entries, x, doc))])
  }

  function MarkBroken(st: State, x: nat): State
    requires x < |st.entries|
  {
    st.(entries := st.entries[x := st.entries[x].(t := st.entries[x].t.(kind := Broken))])
  }

  /** The entries of a freshly loaded file, linked one to the next. */
  function Linked(ts: seq<Template>, base: nat): (r: seq<CEntry>)
    ensures |r| == |ts|
    ensures forall i :: 0 <= i < |r| ==>
              r[i] == CEntry(ts[i], if i + 1 < |ts| then Some(base + i + 1) else None, None, 0)
  {
    seq(|ts|, i requires 0 <= i < |ts| =>
      CEntry(ts[i], if i + 1 < |ts| then Some(base + i + 1) else None, None, 0))
  }

  /** A catalog and its list, as they are placed from position doc on. */
  function FreshCatalog(url: string, ts: seq<Template>, doc: nat, preferPublic: bool): seq<CEntry>
  {
    [CEntry(Template(CatalogKind, None, Some(url), Some(url), preferPublic), None,
            if ts == [] then None else Some(doc + 1), 0)] + Linked(ts, doc + 1)
  }

  /** xmlParseXMLCatalogFile and the entry in the file hash. */
  function Load(files: seq<File>, st: State, f: nat, preferPublic: bool): State
    requires f < |files| == |st.cache| && files[f].content.Some?
  {
    var doc := |st.entries|;
    State(st.entries + FreshCatalog(files[f].url, ReadEntries(files[f].content.value, preferPublic), doc, preferPublic),
          st.cache[f := Some(doc)])
  }

  /** xmlFetchXMLCatalogFile: from the cache, from the file, or broken. */
  ghost function Fetch(files: seq<File>, st: State, x: nat): State
    requires Valid(files, st) && x < |st.entries|
  {
    var e := st.entries[x];
    if e.t.url.None? || e.children.Some? then st
    else
      var f := FindFile(files, e.t.url.value);
      if f.Some? && st.cache[f.value].Some? then SetChildren(st, x, st.cache[f.value].value)
      else if f.None? || files[f.value].content.None? then MarkBroken(st, x)
      else SetChildren(Load(files, st, f.value, e.t.preferPublic), x, |st.entries|)
  }

  lemma SetChildrenFacts(files: seq<File>, st: State, x: nat, doc: nat)
    requires Valid(files, st) && x < |st.entries| && doc < |st.entries| && st.entries[x].children.None?
    ensures var s := SetChildren(st, x, doc);
            Valid(files, s) && Measure(files, s) == Measure(files, st) && Extends(st.entries, s.entries, true)
  {
    var e := st.entries[x].(children := KidsOf(st.entries, x, doc));
    assert PointsWell(st.entries[doc], doc, |st.entries|) && PointsWell(st.entries[x], x, |st.entries|);
    HeadroomUpdate(st.entries, x, e);
  }

  lemma MarkBrokenFacts(files: seq<File>, st: State, x: nat)
    requires Valid(files, st) && x < |st.entries|
    ensures var s := MarkBroken(st, x);
            Valid(files, s) && Measure(files, s) == Measure(files, st) && Extends(st.entries, s.entries, true)
  {
    assert PointsWell(st.entries[x], x, |st.entries|);
    HeadroomUpdate(st.entries, x, st.entries[x].(t := st.entries[x].t.(kind := Broken)));
  }

  /** Loading is paid for: the headroom of the new entries is what the file counted. */
  lemma LoadFacts(files: seq<File>, st: State, f: nat, pp: bool)
    requires Valid(files, st) && f < |files| && files[f].content.Some? && st.cache[f].None?
    ensures var s := Load(files, st, f, pp);
            && Valid(files, s) && Measure(files, s) == Measure(files, st)
            && Extends(st.entries, s.entries, true) && |st.entries| < |s.entries|
  {
    var doc, ts := |st.entries|, ReadEntries(files[f].content.value, pp);
    var new_ := FreshCatalog(files[f].url, ts, doc, pp);
    HeadroomConcat(st.entries, new_);
    HeadroomFresh(new_);
    UnloadedUpdate(files, st.cache, f, doc);
    LoadForward(st.entries, files[f].url, ts, pp);
  }

  lemma LoadForward(entries: seq<CEntry>, url: string, ts: seq<Template>, pp: bool)
    requires Forward(entries)
    ensures Forward(entries + FreshCatalog(url, ts, |entries|, pp))
  {
    var all := entries + FreshCatalog(url, ts, |entries|, pp);
    forall i | 0 <= i < |all| ensures PointsWell(all[i], i, |all|) {
      if i < |entries| {
        assert PointsWell(entries[i], i, |entries|);
      } else if i > |entries| {
        assert all[i] == Linked(ts, |entries| + 1)[i - |entries| - 1];
      }
    }
  }

  lemma FetchFacts(files: seq<File>, st: State, x: nat)
    requires Valid(files, st) && x < |st.entries|
    ensures var s := Fetch(files, st, x);
            Valid(files, s) && Measure(files, s) == Measure(files, st) && Extends(st.entries, s.entries, true)
  {
    hide Measure, Extends, SetChildren, MarkBroken, Load, Forward, Bounded;
    var e := st.entries[x];
    if e.t.url.None? || e.children.Some? {
      ExtendsSelf(st.entries, true);
    } else {
      var f := FindFile(files, e.t.url.value);
      if f.Some? && st.cache[f.value].Some? {
        SetChildrenFacts(files, st, x, st.cache[f.value].value);
      } else if f.None? || files[f.value].content.None? {
        MarkBrokenFacts(files, st, x);
      } else {
        LoadFacts(files, st, f.value, e.t.preferPublic);
        var s := Load(files, st, f.value, e.t.preferPublic);
        LoadKeepsEntry(files, st, f.value, e.t.preferPublic, x);
        SetChildrenFacts(files, s, x, |st.entries|);
        ExtendsTrans(st.entries, s.entries, SetChildren(s, x, |st.entries|).entries, true, true);
      }
    }
  }

  lemma LoadKeepsEntry(files: seq<File>, st: State, f: nat, pp: bool, x: nat)
    requires f < |files| == |st.cache| && files[f].content.Some? && x < |st.entries|
    ensures var s := Load(files, st, f, pp);
            x < |s.entries| && s.entries[x] == st.entries[x] && |st.entries| < |s.entries|
  {
  }

  // ---- resolution ----

  /** hit says that the exit of the recursion limit was taken (catalog.c:1831). */
  datatype Outcome = Outcome(st: State, a: Answer, hit: bool)

  /** What every call does: the measure never rises, and counters are restored exactly if
      the exit of the recursion limit was not taken in it. */
  ghost predicate Progress(files: seq<File>, st: State, o: Outcome)
    requires Valid(files, st)
  {
    && Valid(files, o.st) && Measure(files, o.st) <= Measure(files, st)
    && Extends(st.entries, o.st.entries, !o.hit)
    && (o.hit ==> Raised(st.entries, o.st.entries))
  }

  lemma ProgressSelf(files: seq<File>, st: State, a: Answer)
    requires Valid(files, st)
    ensures Progress(files, st, Outcome(st, a, false))
  {
    ExtendsSelf(st.entries, true);
  }

  lemma ProgressTrans(files: seq<File>, st: State, o: Outcome, p: Outcome)
    requires Valid(files, st) && Progress(files, st, o) && Progress(files, o.st, p)
    ensures Progress(files, st, p.(hit := o.hit || p.hit))
  {
    hide Extends, Raised, Forward, Bounded, Measure;
    ExtendsTrans(st.entries, o.st.entries, p.st.entries, !o.hit, !p.hit);
    RaisedTrans(st.entries, o.st.entries, p.st.entries, !o.hit, !p.hit);
  }

  function Enter(st: State, i: nat): State
    requires i < |st.entries|
  {
    st.(entries := st.entries[i := st.entries[i].(depth := st.entries[i].depth + 1)])
  }

  function Leave(st: State, i: nat): State
    requires i < |st.entries| && st.entries[i].depth > 0
  {
    st.(entries := st.entries[i := st.entries[i].(depth := st.entries[i].depth - 1)])
  }

  lemma EnterFacts(files: seq<File>, st: State, i: nat)
    requires Valid(files, st) && i < |st.entries| && st.entries[i].depth <= MAX_CATAL_DEPTH
    ensures var s := Enter(st, i);
            && Valid(files, s) && Measure(files, s) == Measure(files, st) - 1
            && Extends(st.entries, s.entries, false) && Indices(s.entries, Some(i)) == Indices(st.entries, Some(i))
  {
    var s := Enter(st, i);
    assert PointsWell(st.entries[i], i, |st.entries|);
    HeadroomUpdate(st.entries, i, s.entries[i]);
    assert Forward(s.entries) by {
      forall k | 0 <= k < |s.entries| ensures PointsWell(s.entries[k], k, |s.entries|) {
        assert PointsWell(st.entries[k], k, |st.entries|);
      }
    }
    SameIndices(st.entries, s.entries, Some(i), false);
  }

  /** Entering changes no list, and leaving undoes it. */
  lemma EnterList(files: seq<File>, st: State, i: nat)
    requires Valid(files, st) && i < |st.entries| && Valid(files, Enter(st, i))
    requires Indices(Enter(st, i).entries, Some(i)) == Indices(st.entries, Some(i))
    ensures ListFrom(Enter(st, i).entries, Some(i)) == ListFrom(st.entries, Some(i))
    ensures Leave(Enter(st, i), i) == st
  {
    assert Leave(Enter(st, i), i).entries == st.entries;
  }

  lemma LeaveValid(files: seq<File>, st: State, i: nat)
    requires Valid(files, st) && i < |st.entries| && st.entries[i].depth > 0
    ensures Valid(files, Leave(st, i)) && Measure(files, Leave(st, i)) == Measure(files, st) + 1
  {
    var s := Leave(st, i);
    HeadroomUpdate(st.entries, i, s.entries[i]);
    forall k | 0 <= k < |s.entries| ensures PointsWell(s.entries[k], k, |s.entries|) {
      assert PointsWell(st.entries[k], k, |st.entries|);
    }
  }

  /** Raising one counter, working, and lowering it again. */
  lemma LeaveFacts(files: seq<File>, st: State, i: nat, o: Outcome)
    requires Valid(files, st) && i < |st.entries| && st.entries[i].depth <= MAX_CATAL_DEPTH
    requires Valid(files, Enter(st, i)) && Measure(files, Enter(st, i)) == Measure(files, st) - 1
    requires Progress(files, Enter(st, i), o)
    ensures i < |o.st.entries| && o.st.entries[i].depth > st.entries[i].depth
    ensures Progress(files, st, o.(st := Leave(o.st, i)))
  {
    hide Measure, Forward, Bounded;
    assert Grows(Enter(st, i).entries[i], o.st.entries[i], !o.hit);
    LeaveValid(files, o.st, i);
    LeaveExtends(st.entries, Enter(st, i).entries, o.st.entries, i, !o.hit);
  }

  lemma LeaveExtends(e0: seq<CEntry>, e1: seq<CEntry>, e2: seq<CEntry>, i: nat, exact: bool)
    requires i < |e0| && e1 == e0[i := e0[i].(depth := e0[i].depth + 1)] && Extends(e1, e2, exact)
    ensures i < |e2| && e2[i].depth > e0[i].depth
    ensures var e3 := e2[i := e2[i].(depth := e2[i].depth - 1)];
            Extends(e0, e3, exact) && (Raised(e1, e2) ==> Raised(e0, e3))
  {
    assert Grows(e1[i], e2[i], exact);
    var e3 := e2[i := e2[i].(depth := e2[i].depth - 1)];
    forall k | 0 <= k < |e0| ensures Grows(e0[k], e3[k], exact) { assert Grows(e1[k], e2[k], exact); }
    if Raised(e1, e2) {
      var k :| 0 <= k < |e2| && e2[k].depth > DepthIn(e1, k);
      assert e3[k].depth > DepthIn(e0, k);
    }
  }

  /** The exit that does not lower it. */
  lemma StuckFacts(files: seq<File>, st: State, i: nat, o: Outcome)
    requires Valid(files, st) && i < |st.entries|
    requires Valid(files, Enter(st, i)) && Measure(files, Enter(st, i)) == Measure(files, st) - 1
    requires Progress(files, Enter(st, i), o)
    ensures Progress(files, st, Outcome(o.st, Null, true))
  {
    hide Measure, Forward, Bounded;
    var e1 := Enter(st, i).entries;
    assert Grows(e1[i], o.st.entries[i], !o.hit);
    assert o.st.entries[i].depth > DepthIn(st.entries, i);
    forall k | 0 <= k < |st.entries| ensures Grows(st.entries[k], o.st.entries[k], false) {
      assert Grows(e1[k], o.st.entries[k], !o.hit);
    }
  }

  /** xmlCatalogXMLResolve. */
  ghost function Resolve(files: seq<File>, st: State, catal: nat, pub: Option<string>, sys: Option<string>): (o: Outcome)
    requires Valid(files, st) && catal < |st.entries|
    ensures Progress(files, st, o)
    decreases Measure(files, st), OptWeight(pub) + OptWeight(sys), 0, 0
  {
    ProgressSelf(files, st, Null);
    if st.entries[catal].depth > MAX_CATAL_DEPTH then Outcome(st, Null, false)
    else
      var list := ListFrom(st.entries, Some(catal));
      match Judge(list, pub, sys)
      case Answered(a) => ProgressSelf(files, st, a); Outcome(st, a, false)
      case Nothing => Outcome(st, Null, false)
      case Cut(p, s) =>
        EnterFacts(files, st, catal);
        var o := TryDelegates(files, Enter(st, catal), Indices(st.entries, Some(catal)), [], p, s);
        LeaveFacts(files, st, catal, o);
        Outcome(Leave(o.st, catal), if o.a.Null? then Break else o.a, o.hit)
      case PassedOn =>
        EnterFacts(files, st, catal);
        var r := TryNext(files, Enter(st, catal), catal, Indices(st.entries, Some(catal)), pub, sys);
        if r.stuck then
          StuckFacts(files, st, catal, r.o);
          Outcome(r.o.st, Null, true)
        else
          LeaveFacts(files, st, catal, r.o);
          r.o.(st := Leave(r.o.st, catal))
  }

  /** The loop over delegate entries; an URL is tried once, as far as the table of 50 can
      remember. */
  ghost function TryDelegates(files: seq<File>, st: State, todo: seq<nat>, tried: seq<Option<string>>,
                              pub: Option<string>, sys: Option<string>): (o: Outcome)
    requires Valid(files, st) && AllBelow(todo, |st.entries|)
    ensures Progress(files, st, o)
    decreases Measure(files, st), OptWeight(pub) + OptWeight(sys), 3, |todo|
  {
    if todo == [] then
      ProgressSelf(files, st, Null);
      Outcome(st, Null, false)
    else
      var t := st.entries[todo[0]].t;
      if !Delegates(t, pub, sys) || t.url in tried then TryDelegates(files, st, todo[1..], tried, pub, sys)
      else
        var o := TryChild(files, st, todo[0], pub, sys);
        if !o.a.Null? then o
        else
          var p := TryDelegates(files, o.st, todo[1..], if |tried| < MAX_DELEGATE then tried + [t.url] else tried, pub, sys);
          ProgressTrans(files, st, o, p);
          p.(hit := o.hit || p.hit)
  }

  datatype Tried = Tried(o: Outcome, stuck: bool)

  /** The loop over nextCatalog entries; stuck is the exit that keeps the counter. */
  ghost function TryNext(files: seq<File>, st: State, catal: nat, todo: seq<nat>,
                         pub: Option<string>, sys: Option<string>): (r: Tried)
    requires Valid(files, st) && AllBelow(todo, |st.entries|) && catal < |st.entries|
    ensures Progress(files, st, r.o)
    decreases Measure(files, st), OptWeight(pub) + OptWeight(sys), 3, |todo|
  {
    if todo == [] then
      ProgressSelf(files, st, Null);
      Tried(Outcome(st, Null, false), false)
    else if !st.entries[todo[0]].t.kind.NextCatalog? then TryNext(files, st, catal, todo[1..], pub, sys)
    else
      var o := TryChild(files, st, todo[0], pub, sys);
      if !o.a.Null? then Tried(o, false)
      else if o.st.entries[todo[0]].children.Some? && o.st.entries[catal].depth > MAX_CATAL_DEPTH then Tried(o, true)
      else
        var r := TryNext(files, o.st, catal, todo[1..], pub, sys);
        ProgressTrans(files, st, o, r.o);
        r.(o := r.o.(hit := o.hit || r.o.hit))
  }

  /** Load the catalog an entry refers to, if need be, and resolve in it. */
  ghost function TryChild(files: seq<File>, st: State, x: nat, pub: Option<string>, sys: Option<string>): (o: Outcome)
    requires Valid(files, st) && x < |st.entries|
    ensures Progress(files, st, o)
    decreases Measure(files, st), OptWeight(pub) + OptWeight(sys), 2, 0
  {
    FetchFacts(files, st, x);
    var s := if st.entries[x].children.None? then Fetch(files, st, x) else st;
    ExtendsSelf(st.entries, true);
    assert PointsWell(s.entries[x], x, |s.entries|);
    var none := Outcome(s, Null, false);
    if s.entries[x].children.None? then none
    else
      var o := ResolveList(files, s, s.entries[x].children, pub, sys);
      ProgressTrans(files, st, none, o);
      o
  }

  /** xmlCatalogListXMLResolve. */
  ghost function ResolveList(files: seq<File>, st: State, catal: Option<nat>, pub0: Option<string>, sys: Option<string>)
    : (o: Outcome)
    requires Valid(files, st) && (catal.Some? ==> catal.value < |st.entries|)
    ensures Progress(files, st, o)
    decreases Measure(files, st), OptWeight(pub0) + OptWeight(sys), 1, 0
  {
    ProgressSelf(files, st, Null);
    if catal.None? || (pub0.None? && sys.None?) then Outcome(st, Null, false)
    else
      var pub := NormalizePublic(pub0);
      NormalizePublicLighter(pub0);
      if IsURN(pub) then
        UnwrapURNLighter(pub.value);
        ResolveList(files, st, catal, Some(UnwrapURN(pub.value)), sys)
      else if IsURN(sys) then
        UnwrapURNLighter(sys.value);
        var urn := UnwrapURN(sys.value);
        if pub.None? then ResolveList(files, st, catal, Some(urn), None)
        else if pub == Some(urn) then ResolveList(files, st, catal, pub, None)
        else ResolveList(files, st, catal, pub, Some(urn))
      else Walk(files, st, Indices(st.entries, catal), pub, sys)
  }

  /** Its loop over the catalogs of a list. */
  ghost function Walk(files: seq<File>, st: State, todo: seq<nat>, pub: Option<string>, sys: Option<string>): (o: Outcome)
    requires Valid(files, st) && AllBelow(todo, |st.entries|)
    ensures Progress(files, st, o)
    decreases Measure(files, st), OptWeight(pub) + OptWeight(sys), 0, 1 + |todo|
  {
    ProgressSelf(files, st, Null);
    if todo == [] then Outcome(st, Null, false)
    else if !st.entries[todo[0]].t.kind.CatalogKind? then Walk(files, st, todo[1..], pub, sys)
    else
      var x := todo[0];
      FetchFacts(files, st, x);
      var s := if st.entries[x].children.None? then Fetch(files, st, x) else st;
      ExtendsSelf(st.entries, true);
      assert PointsWell(s.entries[x], x, |s.entries|);
      var none := Outcome(s, Null, false);
      if s.entries[x].children.None? then
        var o := Walk(files, s, todo[1..], pub, sys);
        ProgressTrans(files, st, none, o);
        o
      else
        var o := Resolve(files, s, s.entries[x].children.value, pub, sys);
        ProgressTrans(files, st, none, o);
        if !o.a.Null? || TooDeep(o.st.entries, x) then o
        else
          var p := Walk(files, o.st, todo[1..], pub, sys);
          ProgressTrans(files, st, o, p);
          p.(hit := o.hit || p.hit)
  }

  /** The list of a catalog has reached the limit. */
  ghost predicate TooDeep(entries: seq<CEntry>, x: nat)
    requires Forward(entries) && x < |entries|
  {
    assert PointsWell(entries[x], x, |entries|);
    entries[x].children.Some? && entries[entries[x].children.value].depth > MAX_CATAL_DEPTH
  }
}
