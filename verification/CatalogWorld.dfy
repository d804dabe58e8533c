/**
 Well-kept states of the catalogs: every reference that has been followed leads to the
 one copy of its file, and every copy says what the file says. All of resolution keeps
 a state well kept.
 */
module CatalogWorld {
  import opened Common
  import opened CatalogNames
  import opened CatalogLists
  import opened CatalogResolve

  /** The files, and the preference each of them is read with. */
  datatype World = World(files: seq<File>, prefs: seq<bool>)

  predicate IsDelegate(k: Kind) { k.DelegateSystem? || k.DelegatePublic? }

  predicate IsReference(k: Kind) { k.NextCatalog? || IsDelegate(k) }

  /** The file an entry refers to, if it can be read. */
  function Target(files: seq<File>, url: Option<string>): (r: Option<nat>)
    ensures r.Some? ==> r.value < |files| && files[r.value].content.Some? && url == Some(files[r.value].url)
  {
    if url.None? then None
    else
      var f := FindFile(files, url.value);
      if f.Some? && files[f.value].content.Some? then f else None
  }

  predicate Missing(files: seq<File>, t: Template) { t.url.Some? && Target(files, t.url).None? }

  predicate Readable(w: World, f: nat) { f < |w.files| == |w.prefs| && w.files[f].content.Some? }

  function ListOf(w: World, f: nat): seq<Template>
    requires Readable(w, f)
  {
    ReadEntries(w.files[f].content.value, w.prefs[f])
  }

  /** References agree about the preference their file is read with, and the files of
      delegates can be read. */
  predicate Agreeable(w: World, t: Template)
    requires |w.prefs| == |w.files|
  {
    var g := Target(w.files, t.url);
    && ((IsReference(t.kind) || t.kind.CatalogKind?) && g.Some? ==> t.preferPublic == w.prefs[g.value])
    && (IsDelegate(t.kind) ==> !Missing(w.files, t))
  }

  ghost predicate AllAgreeable(w: World, list: seq<Template>)
    requires |w.prefs| == |w.files|
  {
    forall k :: 0 <= k < |list| ==> Agreeable(w, list[k])
  }

  ghost predicate Agreed(w: World)
  {
    |w.prefs| == |w.files| && forall f {:trigger Readable(w, f)} :: Readable(w, f) ==> AllAgreeable(w, ListOf(w, f))
  }

  // ---- what time does to a list ----

  /** A reference to a missing file is marked as broken when it is first followed. */
  predicate Weathers(files: seq<File>, a: Template, b: Template)
  {
    a == b || ((a.kind.NextCatalog? || a.kind.CatalogKind?) && Missing(files, a) && b == a.(kind := Broken))
  }

  ghost predicate Weathered(files: seq<File>, a: seq<Template>, b: seq<Template>)
  {
    |a| == |b| && forall k :: 0 <= k < |a| ==> Weathers(files, a[k], b[k])
  }

  // ---- well-kept states ----

  predicate EntryOk(w: World, st: State, x: nat)
    requires |w.prefs| == |w.files| == |st.cache| && x < |st.entries|
  {
    var e := st.entries[x];
    && Agreeable(w, e.t)
    && (IsReference(e.t.kind) && e.children.Some? ==>
          Target(w.files, e.t.url).Some? && st.cache[Target(w.files, e.t.url).value] == e.children)
  }

  /** The copy of file f: a catalog whose list is that of the file, but for weather. */
  ghost predicate CopyOk(w: World, st: State, f: nat)
    requires Valid(w.files, st) && f < |st.cache| && st.cache[f].Some?
  {
    var doc := st.cache[f].value;
    && Readable(w, f) && FindFile(w.files, w.files[f].url) == Some(f)
    && st.entries[doc].t == Template(CatalogKind, None, Some(w.files[f].url), Some(w.files[f].url), w.prefs[f])
    && st.entries[doc].next.None? && PointsWell(st.entries[doc], doc, |st.entries|)
    && st.entries[doc].children == (if ListOf(w, f) == [] then None else Some(doc + 1))
    && Weathered(w.files, ListOf(w, f), ListFrom(st.entries, st.entries[doc].children))
  }

  ghost predicate AllOk(w: World, st: State)
    requires |w.prefs| == |w.files| == |st.cache|
  {
    forall x :: 0 <= x < |st.entries| ==> EntryOk(w, st, x)
  }

  ghost predicate CopiesOk(w: World, st: State)
    requires Valid(w.files, st)
  {
    forall f :: 0 <= f < |st.cache| && st.cache[f].Some? ==> CopyOk(w, st, f)
  }

  ghost predicate Orderly(w: World, st: State)
  {
    Valid(w.files, st) && |w.prefs| == |w.files| && Agreed(w) && AllOk(w, st) && CopiesOk(w, st)
  }

  // ---- what is kept ----

  /** What resolution may do to an entry: set the children of a reference once, mark it
      as broken, change its counter. */
  predicate KeptEntry(files: seq<File>, a: CEntry, b: CEntry)
  {
    && a.next == b.next && Weathers(files, a.t, b.t)
    && (a.children.Some? || a.t.kind.CatalogKind? ==> b.children == a.children)
    && (a.t.kind.CatalogKind? ==> b.t == a.t)
  }

  ghost predicate KeptEntries(files: seq<File>, a: seq<CEntry>, b: seq<CEntry>)
  {
    |a| <= |b| && forall i :: 0 <= i < |a| ==> KeptEntry(files, a[i], b[i])
  }

  /** Copies stay, and new ones lie in the new part of the arena. */
  predicate KeptCopy(a: State, b: State, f: nat)
    requires f < |a.cache| == |b.cache|
  {
    if a.cache[f].Some? then b.cache[f] == a.cache[f]
    else b.cache[f].Some? ==> b.cache[f].value >= |a.entries|
  }

  ghost predicate Kept(files: seq<File>, a: State, b: State)
  {
    && KeptEntries(files, a.entries, b.entries) && |a.cache| == |b.cache|
    && forall f :: 0 <= f < |a.cache| ==> KeptCopy(a, b, f)
  }

  lemma KeptSelf(files: seq<File>, st: State)
    ensures Kept(files, st, st)
  {
  }

  lemma KeptTrans(files: seq<File>, a: State, b: State, c: State)
    requires Kept(files, a, b) && Kept(files, b, c)
    ensures Kept(files, a, c)
  {
    forall i | 0 <= i < |a.entries| ensures KeptEntry(files, a.entries[i], c.entries[i]) {
      assert KeptEntry(files, a.entries[i], b.entries[i]) && KeptEntry(files, b.entries[i], c.entries[i]);
    }
    forall f | 0 <= f < |a.cache| ensures KeptCopy(a, c, f) {
      assert KeptCopy(a, b, f) && KeptCopy(b, c, f);
    }
  }

  lemma ChildrenKept(w: World, a: State, b: State, x: nat)
    requires Kept(w.files, a, b) && x < |a.entries| && a.entries[x].children.Some?
    ensures x < |b.entries| && b.entries[x].children == a.entries[x].children
  {
    assert KeptEntry(w.files, a.entries[x], b.entries[x]);
  }

  /** The links are the same, and the entries but for weather. */
  ghost predicate Likewise(files: seq<File>, a: seq<CEntry>, b: seq<CEntry>)
  {
    |a| <= |b| && forall i :: 0 <= i < |a| ==> a[i].next == b[i].next && Weathers(files, a[i].t, b[i].t)
  }

  lemma KeptLikewise(files: seq<File>, a: seq<CEntry>, b: seq<CEntry>)
    requires KeptEntries(files, a, b)
    ensures Likewise(files, a, b)
  {
    hide Weathers;
    forall i | 0 <= i < |a| ensures a[i].next == b[i].next && Weathers(files, a[i].t, b[i].t) {
      assert KeptEntry(files, a[i], b[i]);
    }
  }

  lemma {:induction false} LikewiseIndices(files: seq<File>, a: seq<CEntry>, b: seq<CEntry>, i: Option<nat>)
    requires Forward(a) && Forward(b) && Likewise(files, a, b) && (i.Some? ==> i.value < |a|)
    ensures Indices(b, i) == Indices(a, i)
    decreases if i.Some? then |a| - i.value else 0
  {
    if i.Some? {
      assert PointsWell(a[i.value], i.value, |a|);
      LikewiseIndices(files, a, b, a[i.value].next);
    }
  }

  lemma LikewiseTemplates(files: seq<File>, a: seq<CEntry>, b: seq<CEntry>, ids: seq<nat>)
    requires Likewise(files, a, b) && AllBelow(ids, |a|)
    ensures Weathered(files, Templates(a, ids), Templates(b, ids))
  {
  }

  /** The list that starts at an entry stays what it is, but for weather. */
  lemma LikewiseList(files: seq<File>, a: seq<CEntry>, b: seq<CEntry>, i: Option<nat>)
    requires Forward(a) && Forward(b) && Likewise(files, a, b) && (i.Some? ==> i.value < |a|)
    ensures Weathered(files, ListFrom(a, i), ListFrom(b, i))
  {
    LikewiseIndices(files, a, b, i);
    LikewiseTemplates(files, a, b, Indices(a, i));
  }

  lemma KeptTemplates(files: seq<File>, a: seq<CEntry>, b: seq<CEntry>, ids: seq<nat>)
    requires KeptEntries(files, a, b) && AllBelow(ids, |a|)
    ensures Weathered(files, Templates(a, ids), Templates(b, ids))
  {
    KeptLikewise(files, a, b);
    LikewiseTemplates(files, a, b, ids);
  }

  lemma WeatheredTrans(files: seq<File>, a: seq<Template>, b: seq<Template>, c: seq<Template>)
    requires Weathered(files, a, b) && Weathered(files, b, c)
    ensures Weathered(files, a, c)
  {
    forall k | 0 <= k < |a| ensures Weathers(files, a[k], c[k]) {
      assert Weathers(files, a[k], b[k]) && Weathers(files, b[k], c[k]);
    }
  }

  /** A copy stays a copy as long as its own entry does. */
  lemma CopyStays(w: World, a: State, b: State, f: nat)
    requires Valid(w.files, a) && Valid(w.files, b) && Likewise(w.files, a.entries, b.entries)
    requires f < |a.cache| && a.cache[f].Some? && CopyOk(w, a, f) && b.cache[f] == a.cache[f]
    requires var doc := a.cache[f].value;
             b.entries[doc].t == a.entries[doc].t && b.entries[doc].children == a.entries[doc].children
    ensures CopyOk(w, b, f)
  {
    var doc := a.cache[f].value;
    assert PointsWell(b.entries[doc], doc, |b.entries|);
    LikewiseList(w.files, a.entries, b.entries, a.entries[doc].children);
    WeatheredTrans(w.files, ListOf(w, f), ListFrom(a.entries, a.entries[doc].children),
                   ListFrom(b.entries, b.entries[doc].children));
  }

  lemma CopyKept(w: World, a: State, b: State, f: nat)
    requires Valid(w.files, a) && Valid(w.files, b) && Kept(w.files, a, b)
    requires f < |a.cache| && a.cache[f].Some? && CopyOk(w, a, f)
    ensures b.cache[f] == a.cache[f] && CopyOk(w, b, f)
  {
    assert KeptCopy(a, b, f);
    assert KeptEntry(w.files, a.entries[a.cache[f].value], b.entries[a.cache[f].value]);
    KeptLikewise(w.files, a.entries, b.entries);
    CopyStays(w, a, b, f);
  }

  /** A step that adds no copy. */
  lemma OrderlyKept(w: World, a: State, b: State)
    requires Orderly(w, a) && Valid(w.files, b) && Kept(w.files, a, b) && b.cache == a.cache && AllOk(w, b)
    ensures Orderly(w, b)
  {
    hide CopyOk, AllOk, Agreed, Kept;
    forall f | 0 <= f < |b.cache| && b.cache[f].Some? ensures CopyOk(w, b, f) {
      assert CopyOk(w, a, f);
      CopyKept(w, a, b, f);
    }
  }

  /** One entry changes, and stays in order. */
  lemma OrderlyUpdate(w: World, a: State, b: State, x: nat)
    requires Orderly(w, a) && Valid(w.files, b) && x < |a.entries| == |b.entries| && b == a.(entries := a.entries[x := b.entries[x]])
    requires KeptEntry(w.files, a.entries[x], b.entries[x]) && EntryOk(w, b, x)
    ensures Orderly(w, b) && Kept(w.files, a, b)
  {
    hide CopyOk, Agreed, CopiesOk;
    assert Kept(w.files, a, b);
    assert AllOk(w, b) by {
      forall k | 0 <= k < |b.entries| ensures EntryOk(w, b, k) { assert EntryOk(w, a, k); }
    }
    OrderlyKept(w, a, b);
  }

  /** Counters do not matter. */
  lemma EnterOrderly(w: World, st: State, i: nat)
    requires Orderly(w, st) && i < |st.entries| && st.entries[i].depth <= MAX_CATAL_DEPTH
    ensures Orderly(w, Enter(st, i)) && Kept(w.files, st, Enter(st, i))
  {
    hide CopiesOk, Agreed, Forward, Bounded, Measure;
    EnterFacts(w.files, st, i);
    assert EntryOk(w, st, i);
    OrderlyUpdate(w, st, Enter(st, i), i);
  }

  lemma LeaveOrderly(w: World, st: State, i: nat)
    requires Orderly(w, st) && i < |st.entries| && st.entries[i].depth > 0
    ensures Orderly(w, Leave(st, i)) && Kept(w.files, st, Leave(st, i))
  {
    hide CopiesOk, Agreed, Forward, Bounded, Measure;
    LeaveValid(w.files, st, i);
    assert EntryOk(w, st, i);
    OrderlyUpdate(w, st, Leave(st, i), i);
  }

  // ---- following a reference ----

  /** The entries from base on are linked one to the next, up to the end. */
  ghost predicate Chained(entries: seq<CEntry>, base: nat)
  {
    forall i :: base <= i < |entries| ==> entries[i].next == if i + 1 < |entries| then Some(i + 1) else None
  }

  lemma {:induction false} ChainedIndices(entries: seq<CEntry>, i: nat)
    requires Forward(entries) && i < |entries| && Chained(entries, i)
    ensures Indices(entries, Some(i)) == seq(|entries| - i, k => i + k)
    decreases |entries| - i
  {
    if i + 1 < |entries| {
      ChainedIndices(entries, i + 1);
    }
    assert Indices(entries, Some(i)) == [i] + Indices(entries, entries[i].next);
  }

  lemma LinkedList(entries: seq<CEntry>, base: nat, ts: seq<Template>)
    requires Forward(entries) && ts != [] && base + |ts| == |entries| && entries[base..] == Linked(ts, base)
    ensures ListFrom(entries, Some(base)) == ts
  {
    hide Forward, Indices;
    assert forall i :: base <= i < |entries| ==> entries[i] == entries[base..][i - base];
    ChainedIndices(entries, base);
  }

  /** A freshly loaded file is a copy of it. */
  lemma LoadedCopy(w: World, st: State, f: nat)
    requires Valid(w.files, st) && Readable(w, f) && st.cache[f].None? && FindFile(w.files, w.files[f].url) == Some(f)
    ensures var s := Load(w.files, st, f, w.prefs[f]); Valid(w.files, s) && CopyOk(w, s, f)
  {
    hide Measure, Extends;
    LoadFacts(w.files, st, f, w.prefs[f]);
    var s, doc, ts := Load(w.files, st, f, w.prefs[f]), |st.entries|, ListOf(w, f);
    assert PointsWell(s.entries[doc], doc, |s.entries|);
    assert s.entries[doc + 1..] == Linked(ts, doc + 1);
    if ts != [] {
      LinkedList(s.entries, doc + 1, ts);
    }
  }

  lemma LoadedEntries(w: World, st: State, f: nat)
    requires Orderly(w, st) && Readable(w, f) && st.cache[f].None? && FindFile(w.files, w.files[f].url) == Some(f)
    ensures var s := Load(w.files, st, f, w.prefs[f]); |s.cache| == |w.files| && AllOk(w, s)
  {
    hide CopiesOk;
    var s, n, ts := Load(w.files, st, f, w.prefs[f]), |st.entries|, ListOf(w, f);
    assert AllAgreeable(w, ts);
    forall x | 0 <= x < |s.entries| ensures EntryOk(w, s, x) {
      if x < n {
        assert EntryOk(w, st, x);
      } else if x > n {
        assert s.entries[x] == Linked(ts, n + 1)[x - n - 1];
        assert Agreeable(w, ts[x - n - 1]);
      }
    }
  }

  lemma LoadOrderly(w: World, st: State, f: nat)
    requires Orderly(w, st) && Readable(w, f) && st.cache[f].None? && FindFile(w.files, w.files[f].url) == Some(f)
    ensures var s := Load(w.files, st, f, w.prefs[f]); Orderly(w, s) && Kept(w.files, st, s)
  {
    hide CopyOk, AllOk, Measure, Extends, Bounded;
    LoadFacts(w.files, st, f, w.prefs[f]);
    LoadedCopy(w, st, f);
    LoadedEntries(w, st, f);
    var s := Load(w.files, st, f, w.prefs[f]);
    assert Kept(w.files, st, s);
    forall g | 0 <= g < |s.cache| && s.cache[g].Some? ensures CopyOk(w, s, g) {
      if g != f {
        assert CopyOk(w, st, g);
        CopyKept(w, st, s, g);
      }
    }
  }

  /** Setting the children of a reference to the copy of its file. */
  lemma SetOrderly(w: World, st: State, x: nat, f: nat)
    requires Orderly(w, st) && x < |st.entries| && st.entries[x].children.None?
    requires f < |w.files| && st.cache[f].Some? && Target(w.files, st.entries[x].t.url) == Some(f)
    requires IsReference(st.entries[x].t.kind)
    ensures var s := SetChildren(st, x, st.cache[f].value); Orderly(w, s) && Kept(w.files, st, s)
  {
    hide CopiesOk, Agreed, Forward, Bounded, Measure, Extends;
    SetChildrenFacts(w.files, st, x, st.cache[f].value);
    assert EntryOk(w, st, x);
    OrderlyUpdate(w, st, SetChildren(st, x, st.cache[f].value), x);
  }

  lemma BreakOrderly(w: World, st: State, x: nat)
    requires Orderly(w, st) && x < |st.entries| && st.entries[x].children.None?
    requires st.entries[x].t.kind.NextCatalog? && Missing(w.files, st.entries[x].t)
    ensures var s := MarkBroken(st, x); Orderly(w, s) && Kept(w.files, st, s)
  {
    hide CopiesOk, Agreed, Forward, Bounded, Measure, Extends;
    MarkBrokenFacts(w.files, st, x);
    assert EntryOk(w, st, x);
    OrderlyUpdate(w, st, MarkBroken(st, x), x);
  }

  /** Fetching the catalog of a reference: afterwards it has children exactly if its file
      can be read, and they are the copy of that file. */
  lemma FetchOrderly(w: World, st: State, x: nat)
    requires Orderly(w, st) && x < |st.entries| && IsReference(st.entries[x].t.kind) && st.entries[x].children.None?
    ensures var s := Fetch(w.files, st, x);
            && Orderly(w, s) && Kept(w.files, st, s)
            && var g := Target(w.files, st.entries[x].t.url);
               if g.Some? then s.cache[g.value].Some? && s.entries[x].children == s.cache[g.value]
               else s.entries[x].children.None?
  {
    hide CopiesOk, Agreed, Bounded, Measure, Extends, Kept, AllOk;
    var e := st.entries[x];
    assert EntryOk(w, st, x) by { AllOkAt(w, st, x); }
    var g := Target(w.files, e.t.url);
    if e.t.url.None? {
      KeptSelf(w.files, st);
    } else if g.None? {
      CopyIsReadable(w, st, e.t.url.value);
      BreakOrderly(w, st, x);
    } else if st.cache[g.value].Some? {
      SetOrderly(w, st, x, g.value);
    } else {
      LoadOrderly(w, st, g.value);
      var s := Load(w.files, st, g.value, w.prefs[g.value]);
      LoadKeepsEntry(w.files, st, g.value, w.prefs[g.value], x);
      SetOrderly(w, s, x, g.value);
      KeptTrans(w.files, st, s, SetChildren(s, x, |st.entries|));
    }
  }

  lemma AllOkAt(w: World, st: State, x: nat)
    requires |w.prefs| == |w.files| == |st.cache| && AllOk(w, st) && x < |st.entries|
    ensures EntryOk(w, st, x)
  {
  }

  lemma CopyIsReadable(w: World, st: State, url: string)
    requires Orderly(w, st) && Target(w.files, Some(url)).None?
    ensures var f := FindFile(w.files, url); f.Some? ==> st.cache[f.value].None? && w.files[f.value].content.None?
  {
    forall g | 0 <= g < |st.cache| && st.cache[g].Some? ensures Readable(w, g) { assert CopyOk(w, st, g); }
  }

  // ---- the catalogs at the top ----

  /** Only entry x changes, and new entries are appended. */
  ghost predicate OnlyAt(a: State, b: State, x: nat)
  {
    && |a.entries| <= |b.entries|
    && forall y :: 0 <= y < |a.entries| && y != x ==> b.entries[y] == a.entries[y]
  }

  /** Loading the list of a catalog: afterwards it has one exactly if its file can be read
      and is not empty, and it is that of the copy. */
  lemma FetchRoot(w: World, st: State, x: nat)
    requires Orderly(w, st) && x < |st.entries| && st.entries[x].t.kind.CatalogKind? && st.entries[x].children.None?
    ensures var s := Fetch(w.files, st, x);
            && Orderly(w, s) && Likewise(w.files, st.entries, s.entries) && OnlyAt(st, s, x)
            && var g := Target(w.files, st.entries[x].t.url);
               if g.None? then s.entries[x].children.None?
               else s.cache[g.value].Some? && s.entries[x].children == s.entries[s.cache[g.value].value].children
  {
    hide Bounded, Measure, Extends, CopyOk, Agreed, Forward, Kept;
    FetchFacts(w.files, st, x);
    AllOkAt(w, st, x);
    var e := st.entries[x];
    var g := Target(w.files, e.t.url);
    if e.t.url.Some? {
      if g.None? {
        CopyIsReadable(w, st, e.t.url.value);
        CopyTargets(w, st);
        RootOrderly(w, st, MarkBroken(st, x), x);
      } else if st.cache[g.value].Some? {
        RootSet(w, st, x, g.value);
      } else {
        LoadOrderly(w, st, g.value);
        var s := Load(w.files, st, g.value, w.prefs[g.value]);
        LoadKeepsEntry(w.files, st, g.value, w.prefs[g.value], x);
        RootSet(w, s, x, g.value);
      }
    }
  }

  lemma RootSet(w: World, st: State, x: nat, g: nat)
    requires Orderly(w, st) && x < |st.entries| && st.entries[x].t.kind.CatalogKind? && st.entries[x].children.None?
    requires g < |w.files| && st.cache[g].Some? && Target(w.files, st.entries[x].t.url) == Some(g)
    ensures var s := SetChildren(st, x, st.cache[g].value);
            && Orderly(w, s) && Likewise(w.files, st.entries, s.entries) && OnlyAt(st, s, x)
            && s.entries[x].children == s.entries[st.cache[g].value].children
  {
    hide Bounded, Measure, Extends, CopyOk, Agreed, Forward;
    var doc := st.cache[g].value;
    SetChildrenFacts(w.files, st, x, doc);
    AllOkAt(w, st, x);
    CopyTargets(w, st);
    if doc == x {
      assert SetChildren(st, x, doc).entries == st.entries;
    } else {
      RootOrderly(w, st, SetChildren(st, x, doc), x);
    }
  }

  /** A copy names its file. */
  lemma CopyTargets(w: World, st: State)
    requires Orderly(w, st)
    ensures forall f :: 0 <= f < |st.cache| && st.cache[f].Some? ==>
              Target(w.files, st.entries[st.cache[f].value].t.url) == Some(f)
  {
    forall f | 0 <= f < |st.cache| && st.cache[f].Some?
      ensures Target(w.files, st.entries[st.cache[f].value].t.url) == Some(f)
    {
      assert CopyOk(w, st, f);
    }
  }

  /** A catalog that is not a copy may change its children, or become broken. */
  lemma RootOrderly(w: World, a: State, b: State, x: nat)
    requires Orderly(w, a) && Valid(w.files, b) && x < |a.entries| == |b.entries|
    requires b == a.(entries := a.entries[x := b.entries[x]]) && a.entries[x].t.kind.CatalogKind?
    requires a.entries[x].children.None? && a.entries[x].next == b.entries[x].next
    requires b.entries[x].t == a.entries[x].t || (b.entries[x] == a.entries[x].(t := b.entries[x].t)
             && Missing(w.files, a.entries[x].t) && b.entries[x].t == a.entries[x].t.(kind := Broken))
    requires forall f :: 0 <= f < |a.cache| && a.cache[f] == Some(x) ==> b.entries[x] == a.entries[x]
    ensures Orderly(w, b) && Likewise(w.files, a.entries, b.entries) && OnlyAt(a, b, x)
  {
    hide Bounded, CopyOk, Agreed, Forward;
    assert EntryOk(w, a, x);
    assert AllOk(w, b) by {
      forall k | 0 <= k < |b.entries| ensures EntryOk(w, b, k) { assert EntryOk(w, a, k); }
    }
    forall f | 0 <= f < |b.cache| && b.cache[f].Some? ensures CopyOk(w, b, f) {
      assert CopyOk(w, a, f);
      CopyStays(w, a, b, f);
    }
  }

  // ---- resolution keeps the order ----

  /** Identifiers that need no unwrapping, at least one of them. */
  predicate Asks(pub: Option<string>, sys: Option<string>) { Plain(pub, sys) && (pub.Some? || sys.Some?) }

  /** The state after following a reference. */
  ghost function Followed(w: World, st: State, x: nat): (s: State)
    requires Orderly(w, st) && x < |st.entries| && IsReference(st.entries[x].t.kind)
    ensures Orderly(w, s) && Kept(w.files, st, s) && Measure(w.files, s) == Measure(w.files, st)
    ensures Extends(st.entries, s.entries, true)
    ensures var g := Target(w.files, st.entries[x].t.url);
            if g.Some? then s.cache[g.value].Some? && s.entries[x].children == s.cache[g.value]
            else s.entries[x].children.None?
  {
    hide CopiesOk, Agreed, Kept, Extends, Measure, AllOk, Fetch;
    FetchFacts(w.files, st, x);
    AllOkAt(w, st, x);
    KeptSelf(w.files, st);
    ExtendsSelf(st.entries, true);
    if st.entries[x].children.None? then
      FetchOrderly(w, st, x);
      Fetch(w.files, st, x)
    else st
  }

  /** Where the list of file g starts, once it is loaded. */
  ghost function Start(w: World, st: State, g: nat): (h: Option<nat>)
    requires Orderly(w, st) && g < |w.files| && st.cache[g].Some?
    ensures h.Some? ==> h.value < |st.entries|
    ensures h.None? <==> ListOf(w, g) == []
    ensures Weathered(w.files, ListOf(w, g), ListFrom(st.entries, h))
  {
    assert CopyOk(w, st, g);
    st.entries[st.cache[g].value].children
  }

  /** Resolving through the copy of a file is resolving in its list. */
  lemma CopyResolves(w: World, st: State, g: nat, pub: Option<string>, sys: Option<string>)
    requires Orderly(w, st) && g < |w.files| && st.cache[g].Some? && Asks(pub, sys)
    ensures ResolveList(w.files, st, st.cache[g], pub, sys)
            == if Start(w, st, g).None? then Outcome(st, Null, false)
               else Resolve(w.files, st, Start(w, st, g).value, pub, sys)
  {
    hide Resolve, Progress, AllOk, Agreed, CopiesOk, Weathered, Walk;
    var doc := st.cache[g].value;
    CopyAt(w, st, g);
    assert Indices(st.entries, Some(doc)) == [doc];
    assert ResolveList(w.files, st, st.cache[g], pub, sys) == Walk(w.files, st, [doc], pub, sys);
    if st.entries[doc].children.None? {
      assert st.entries[doc := st.entries[doc]] == st.entries;
      assert Fetch(w.files, st, doc) == st;
    }
    WalkOne(w.files, st, doc, pub, sys);
  }

  lemma WalkOne(files: seq<File>, st: State, x: nat, pub: Option<string>, sys: Option<string>)
    requires Valid(files, st) && x < |st.entries| && st.entries[x].t.kind.CatalogKind? && PointsWell(st.entries[x], x, |st.entries|)
    requires st.entries[x].children.Some? || Fetch(files, st, x) == st
    ensures Walk(files, st, [x], pub, sys)
            == if st.entries[x].children.None? then Outcome(st, Null, false)
               else Resolve(files, st, st.entries[x].children.value, pub, sys)
  {
    hide Resolve, Fetch, Extends, Raised, Measure, Forward, Bounded;
    assert [x][1..] == [];
    if st.entries[x].children.Some? {
      var o := Resolve(files, st, st.entries[x].children.value, pub, sys);
      assert Walk(files, o.st, [], pub, sys) == Outcome(o.st, Null, false);
    } else {
      assert Walk(files, st, [], pub, sys) == Outcome(st, Null, false);
    }
  }

  lemma CopyAt(w: World, st: State, g: nat)
    requires Orderly(w, st) && g < |w.files| && st.cache[g].Some?
    ensures CopyOk(w, st, g)
  {
  }

  /** Following a reference is resolving in the list of its file. */
  lemma ChildResolves(w: World, st: State, x: nat, pub: Option<string>, sys: Option<string>)
    requires Orderly(w, st) && x < |st.entries| && IsReference(st.entries[x].t.kind) && Asks(pub, sys)
    ensures var g, s := Target(w.files, st.entries[x].t.url), Followed(w, st, x);
            TryChild(w.files, st, x, pub, sys)
            == if g.None? || Start(w, s, g.value).None? then Outcome(s, Null, false)
               else Resolve(w.files, s, Start(w, s, g.value).value, pub, sys)
  {
    hide Resolve, ResolveList, Fetch, AllOk, CopiesOk, Agreed, Bounded, Start, Kept, Extends, Measure, Progress;
    var g, s := Target(w.files, st.entries[x].t.url), Followed(w, st, x);
    if g.Some? { CopyResolves(w, s, g.value, pub, sys); }
  }

  lemma {:induction false} ResolveKeeps(w: World, st: State, catal: nat, pub: Option<string>, sys: Option<string>)
    requires Orderly(w, st) && catal < |st.entries| && Asks(pub, sys)
    ensures var o := Resolve(w.files, st, catal, pub, sys); Orderly(w, o.st) && Kept(w.files, st, o.st)
    decreases Measure(w.files, st), OptWeight(pub) + OptWeight(sys), 0, 0
  {
    hide AllOk, CopiesOk, Agreed, Kept, Judge, TryDelegates, TryNext, Progress, OptWeight, ListFrom;
    KeptSelf(w.files, st);
    if st.entries[catal].depth <= MAX_CATAL_DEPTH {
      var list, ids, s := ListFrom(st.entries, Some(catal)), Indices(st.entries, Some(catal)), Enter(st, catal);
      EnterFacts(w.files, st, catal);
      EnterOrderly(w, st, catal);
      match Judge(list, pub, sys) {
        case Cut(p, q) =>
          CutAsks(list, pub, sys);
          DelegatesKeep(w, s, ids, [], p, q);
          var o := TryDelegates(w.files, s, ids, [], p, q);
          LeaveFacts(w.files, st, catal, o);
          LeaveOrderly(w, o.st, catal);
          KeptTrans(w.files, st, s, o.st);
          KeptTrans(w.files, st, o.st, Leave(o.st, catal));
        case PassedOn =>
          NextKeeps(w, s, catal, ids, pub, sys);
          var r := TryNext(w.files, s, catal, ids, pub, sys);
          KeptTrans(w.files, st, s, r.o.st);
          if !r.stuck {
            LeaveFacts(w.files, st, catal, r.o);
            LeaveOrderly(w, r.o.st, catal);
            KeptTrans(w.files, st, r.o.st, Leave(r.o.st, catal));
          }
        case _ =>
      }
    }
  }

  lemma CutAsks(list: seq<Template>, pub: Option<string>, sys: Option<string>)
    requires Asks(pub, sys) && Judge(list, pub, sys).Cut?
    ensures var v := Judge(list, pub, sys);
            && Asks(v.pub, v.sys) && OptWeight(v.pub) + OptWeight(v.sys) <= OptWeight(pub) + OptWeight(sys)
            && AnyDelegate(list, v.pub, v.sys) && (v.pub.None? || v.sys.None?)
            && (v.pub.None? || v.pub == pub) && (v.sys.None? || v.sys == sys)
  {
  }

  lemma {:induction false} DelegatesKeep(w: World, st: State, todo: seq<nat>, tried: seq<Option<string>>,
                                         pub: Option<string>, sys: Option<string>)
    requires Orderly(w, st) && AllBelow(todo, |st.entries|) && Asks(pub, sys)
    ensures var o := TryDelegates(w.files, st, todo, tried, pub, sys); Orderly(w, o.st) && Kept(w.files, st, o.st)
    decreases Measure(w.files, st), OptWeight(pub) + OptWeight(sys), 3, |todo|
  {
    hide AllOk, CopiesOk, Agreed, Forward, Bounded, Kept, TryChild, OptWeight, Asks, Grows, Measure, Raised;
    KeptSelf(w.files, st);
    if todo != [] {
      var t := st.entries[todo[0]].t;
      if !Delegates(t, pub, sys) || t.url in tried {
        DelegatesKeep(w, st, todo[1..], tried, pub, sys);
      } else {
        ChildKeeps(w, st, todo[0], pub, sys);
        var o := TryChild(w.files, st, todo[0], pub, sys);
        if o.a.Null? {
          var more := if |tried| < MAX_DELEGATE then tried + [t.url] else tried;
          DelegatesKeep(w, o.st, todo[1..], more, pub, sys);
          KeptTrans(w.files, st, o.st, TryDelegates(w.files, o.st, todo[1..], more, pub, sys).st);
        }
      }
    }
  }

  lemma {:induction false} NextKeeps(w: World, st: State, catal: nat, todo: seq<nat>, pub: Option<string>, sys: Option<string>)
    requires Orderly(w, st) && AllBelow(todo, |st.entries|) && catal < |st.entries| && Asks(pub, sys)
    ensures var r := TryNext(w.files, st, catal, todo, pub, sys); Orderly(w, r.o.st) && Kept(w.files, st, r.o.st)
    decreases Measure(w.files, st), OptWeight(pub) + OptWeight(sys), 3, |todo|
  {
    hide AllOk, CopiesOk, Agreed, Forward, Bounded, Kept, TryChild, OptWeight, Asks, Grows, Measure, Raised;
    KeptSelf(w.files, st);
    if todo != [] {
      if !st.entries[todo[0]].t.kind.NextCatalog? {
        NextKeeps(w, st, catal, todo[1..], pub, sys);
      } else {
        ChildKeeps(w, st, todo[0], pub, sys);
        var o := TryChild(w.files, st, todo[0], pub, sys);
        if o.a.Null? {
          NextKeeps(w, o.st, catal, todo[1..], pub, sys);
          KeptTrans(w.files, st, o.st, TryNext(w.files, o.st, catal, todo[1..], pub, sys).o.st);
        }
      }
    }
  }

  lemma {:induction false} ChildKeeps(w: World, st: State, x: nat, pub: Option<string>, sys: Option<string>)
    requires Orderly(w, st) && x < |st.entries| && IsReference(st.entries[x].t.kind) && Asks(pub, sys)
    ensures var o := TryChild(w.files, st, x, pub, sys); Orderly(w, o.st) && Kept(w.files, st, o.st)
    decreases Measure(w.files, st), OptWeight(pub) + OptWeight(sys), 2, 0
  {
    hide AllOk, CopiesOk, Agreed, Forward, Bounded, Kept, Followed, Start, Resolve, TryChild, OptWeight, Asks, Extends, Measure;
    ChildResolves(w, st, x, pub, sys);
    var g, s := Target(w.files, st.entries[x].t.url), Followed(w, st, x);
    if g.Some? && Start(w, s, g.value).Some? {
      var h := Start(w, s, g.value).value;
      ResolveKeeps(w, s, h, pub, sys);
      KeptTrans(w.files, st, s, Resolve(w.files, s, h, pub, sys).st);
    }
  }
}
