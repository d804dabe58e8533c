/**
 Where the references consulted for an identifier do not run in a circle, resolution
 answers as the recursion over the files does and puts every counter back.
 */
module CatalogAnswers {
  import opened Common
  import opened CatalogNames
  import opened CatalogLists
  import opened CatalogResolve
  import opened CatalogWorld
  import opened CatalogSpec

  // ---- counters with room ----

  /** The list of file f is loaded, starts at h, and is within n. */
  ghost predicate StartsAt(w: World, st: State, f: nat, h: nat, n: nat, pub: Option<string>, sys: Option<string>)
    requires Orderly(w, st) && f < |w.files|
  {
    st.cache[f].Some? && Start(w, st, f) == Some(h) && (CopyAt(w, st, f); FileWithin(w, f, n, pub, sys))
  }

  /** The counters of all lists within n leave room for one activation and the test that
      follows it. */
  ghost predicate Low(w: World, st: State, n: nat, pub: Option<string>, sys: Option<string>)
    requires Orderly(w, st)
  {
    forall f, h: nat :: 0 <= f < |w.files| && StartsAt(w, st, f, h, n, pub, sys) ==> st.entries[h].depth < MAX_CATAL_DEPTH
  }

  /** The list that starts at h is none of those within n. */
  ghost predicate Apart(w: World, st: State, h: nat, n: nat, pub: Option<string>, sys: Option<string>)
    requires Orderly(w, st)
  {
    forall f :: 0 <= f < |w.files| ==> !StartsAt(w, st, f, h, n, pub, sys)
  }

  /** Copies keep their place, and distinct files have distinct lists. */
  lemma StartKept(w: World, a: State, b: State, f: nat)
    requires Orderly(w, a) && Orderly(w, b) && Kept(w.files, a, b) && f < |w.files| && a.cache[f].Some?
    ensures b.cache[f] == a.cache[f] && Start(w, b, f) == Start(w, a, f)
  {
    hide AllOk, Agreed, CopiesOk;
    CopyAt(w, a, f);
    CopyKept(w, a, b, f);
  }

  lemma StartIsNew(w: World, a: State, b: State, f: nat)
    requires Orderly(w, a) && Orderly(w, b) && Kept(w.files, a, b) && f < |w.files| && a.cache[f].None? && b.cache[f].Some?
    ensures Start(w, b, f).Some? ==> Start(w, b, f).value > |a.entries|
  {
    hide AllOk, Agreed, CopiesOk, KeptEntries, Weathered;
    assert KeptCopy(a, b, f);
    CopyAt(w, b, f);
  }

  lemma StartIsUnique(w: World, st: State, f: nat, g: nat)
    requires Orderly(w, st) && f < |w.files| && g < |w.files| && st.cache[f].Some? && st.cache[g].Some?
    requires Start(w, st, f).Some? && Start(w, st, f) == Start(w, st, g)
    ensures f == g
  {
    hide AllOk, Agreed, CopiesOk, Weathered;
    CopyAt(w, st, f);
    CopyAt(w, st, g);
  }

  /** A call that puts the counters back keeps the room. */
  lemma LowKept(w: World, a: State, b: State, n: nat, pub: Option<string>, sys: Option<string>)
    requires Orderly(w, a) && Orderly(w, b) && Kept(w.files, a, b) && Extends(a.entries, b.entries, true)
    requires Low(w, a, n, pub, sys)
    ensures Low(w, b, n, pub, sys)
  {
    hide Orderly, Kept, FileWithin, Start;
    forall f, h: nat | 0 <= f < |w.files| && StartsAt(w, b, f, h, n, pub, sys) ensures b.entries[h].depth < MAX_CATAL_DEPTH {
      CacheSizes(w, a);
      if a.cache[f].Some? {
        StartKept(w, a, b, f);
        assert StartsAt(w, a, f, h, n, pub, sys);
        assert Grows(a.entries[h], b.entries[h], true);
      } else {
        StartIsNew(w, a, b, f);
      }
    }
  }

  lemma CacheSizes(w: World, st: State)
    requires Orderly(w, st)
    ensures |st.cache| == |w.files| == |w.prefs|
  {
  }

  lemma LowLess(w: World, st: State, n: nat, m: nat, pub: Option<string>, sys: Option<string>)
    requires Orderly(w, st) && m <= n && Low(w, st, n, pub, sys)
    ensures Low(w, st, m, pub, sys)
  {
    hide Orderly, FileWithin, Start;
    forall f, h: nat | 0 <= f < |w.files| && StartsAt(w, st, f, h, m, pub, sys) ensures st.entries[h].depth < MAX_CATAL_DEPTH {
      CopyAt(w, st, f);
      FileWithinMore(w, f, m, n, pub, sys);
      assert StartsAt(w, st, f, h, n, pub, sys);
    }
  }

  /** Entering a list apart from those within n takes none of their room. */
  lemma LowEntered(w: World, st: State, i: nat, n: nat, pub: Option<string>, sys: Option<string>)
    requires Orderly(w, st) && i < |st.entries| && st.entries[i].depth <= MAX_CATAL_DEPTH
    requires Orderly(w, Enter(st, i)) && Kept(w.files, st, Enter(st, i))
    requires Low(w, st, n, pub, sys) && Apart(w, st, i, n, pub, sys)
    ensures Low(w, Enter(st, i), n, pub, sys)
  {
    hide Orderly, Kept, FileWithin, Start;
    var s := Enter(st, i);
    forall f, h: nat | 0 <= f < |w.files| && StartsAt(w, s, f, h, n, pub, sys) ensures s.entries[h].depth < MAX_CATAL_DEPTH {
      CacheSizes(w, st);
      assert st.cache[f].Some?;
      StartKept(w, st, s, f);
      assert StartsAt(w, st, f, h, n, pub, sys);
    }
  }

  /** The least bound of a file. */
  ghost function Least(w: World, f: nat, n: nat, pub: Option<string>, sys: Option<string>): (k: nat)
    requires Readable(w, f) && FileWithin(w, f, n, pub, sys)
    ensures 0 < k <= n && FileWithin(w, f, k, pub, sys) && !FileWithin(w, f, k - 1, pub, sys)
  {
    if FileWithin(w, f, n - 1, pub, sys) then Least(w, f, n - 1, pub, sys) else n
  }

  lemma LeastIsApart(w: World, st: State, g: nat, h: nat, n: nat, pub: Option<string>, sys: Option<string>)
    requires Orderly(w, st) && g < |w.files| && StartsAt(w, st, g, h, n, pub, sys)
    ensures Readable(w, g) && Apart(w, st, h, Least(w, g, n, pub, sys) - 1, pub, sys)
  {
    hide Orderly, FileWithin, Start;
    CopyAt(w, st, g);
    var k := Least(w, g, n, pub, sys) - 1;
    forall f | 0 <= f < |w.files| ensures !StartsAt(w, st, f, h, k, pub, sys) {
      CacheSizes(w, st);
      if st.cache[f].Some? && Start(w, st, f) == Some(h) { StartIsUnique(w, st, f, g); }
    }
  }

  // ---- without circles: the answer, and every counter put back ----

  /** What a call delivers when nothing it consults runs in a circle. */
  ghost predicate Delivers(w: World, st: State, o: Outcome, a: Answer)
  {
    o.a == a && !o.hit && Orderly(w, o.st) && Kept(w.files, st, o.st) && Extends(st.entries, o.st.entries, true)
  }

  ghost predicate Roomy(w: World, st: State, list: seq<Template>, n: nat, pub: Option<string>, sys: Option<string>)
  {
    Orderly(w, st) && ListWithin(w, list, n, pub, sys) && Low(w, st, n, pub, sys)
  }

  lemma {:induction false} ResolveAnswers(w: World, st: State, catal: nat, n: nat, pub: Option<string>, sys: Option<string>,
                                          p: Option<string>, s: Option<string>)
    requires Orderly(w, st) && catal < |st.entries| && Asks(p, s) && FewerIds(p, s, pub, sys)
    requires Roomy(w, st, ListFrom(st.entries, Some(catal)), n, pub, sys)
    requires Apart(w, st, catal, n, pub, sys) && st.entries[catal].depth < MAX_CATAL_DEPTH
    ensures var list := ListFrom(st.entries, Some(catal));
            && ListWithin(w, list, n, p, s)
            && Delivers(w, st, Resolve(w.files, st, catal, p, s), AskList(w, list, n, p, s))
    decreases Measure(w.files, st), OptWeight(p) + OptWeight(s), 0, 0
  {
    hide AllOk, CopiesOk, Agreed, Bounded, Kept, Low, ListWithin, Apart, FirstOf, TryNext, TryDelegates, Judge;
    hide OptWeight, Measure, Templates, Indices, Extends, Raised;
    var list, ids, t := ListFrom(st.entries, Some(catal)), Indices(st.entries, Some(catal)), Enter(st, catal);
    WithinFewer(w, list, n, pub, sys, p, s);
    ResolveKeeps(w, st, catal, p, s);
    EnterFacts(w.files, st, catal);
    EnterOrderly(w, st, catal);
    LowEntered(w, st, catal, n, pub, sys);
    EnterTemplates(st, catal, ids);
    match Judge(list, p, s) {
      case Cut(q, r) =>
        CutAsks(list, p, s);
        WithinFewer(w, list, n, p, s, q, r);
        DelegatesAnswer(w, t, ids, [], n, pub, sys, q, r);
        LeaveFacts(w.files, st, catal, TryDelegates(w.files, t, ids, [], q, r));
      case PassedOn =>
        NextAnswers(w, t, catal, ids, n, pub, sys, p, s);
        LeaveFacts(w.files, st, catal, TryNext(w.files, t, catal, ids, p, s).o);
      case _ =>
    }
  }

  lemma EnterTemplates(st: State, i: nat, ids: seq<nat>)
    requires i < |st.entries| && AllBelow(ids, |st.entries|)
    ensures AllBelow(ids, |Enter(st, i).entries|) && Templates(Enter(st, i).entries, ids) == Templates(st.entries, ids)
  {
  }

  /** Of the URLs tried, none has an answer. */
  ghost predicate TriedInVain(w: World, tried: seq<Option<string>>, n: nat, p: Option<string>, s: Option<string>)
    requires |w.prefs| == |w.files|
  {
    forall k :: 0 <= k < |tried| && Target(w.files, tried[k]).Some? ==>
      var g := Target(w.files, tried[k]).value; FileWithin(w, g, n, p, s) && AskFile(w, g, n, p, s) == Null
  }

  lemma TriedAt(w: World, tried: seq<Option<string>>, url: Option<string>, n: nat, p: Option<string>, s: Option<string>)
    requires |w.prefs| == |w.files| && TriedInVain(w, tried, n, p, s) && url in tried
    ensures var g := Target(w.files, url); g.Some? ==> FileWithin(w, g.value, n, p, s) && AskFile(w, g.value, n, p, s) == Null
  {
    hide FileWithin, AskFile;
  }

  lemma TriedMore(w: World, tried: seq<Option<string>>, url: Option<string>, n: nat, p: Option<string>, s: Option<string>)
    requires |w.prefs| == |w.files| && TriedInVain(w, tried, n, p, s)
    requires var g := Target(w.files, url); g.Some? ==> FileWithin(w, g.value, n, p, s) && AskFile(w, g.value, n, p, s) == Null
    ensures TriedInVain(w, tried + [url], n, p, s)
  {
    hide FileWithin, AskFile;
  }

  lemma FewerConsulted(t: Template, p: Option<string>, s: Option<string>, pub: Option<string>, sys: Option<string>)
    requires FewerIds(p, s, pub, sys) && Consulted(t, p, s)
    ensures Consulted(t, pub, sys)
  {
  }

  lemma {:induction false} DelegatesAnswer(w: World, st: State, todo: seq<nat>, tried: seq<Option<string>>, n: nat,
                                           pub: Option<string>, sys: Option<string>, p: Option<string>, s: Option<string>)
    requires Orderly(w, st) && AllBelow(todo, |st.entries|) && Asks(p, s) && FewerIds(p, s, pub, sys) && (p.None? || s.None?)
    requires Roomy(w, st, Templates(st.entries, todo), n, pub, sys) && TriedInVain(w, tried, n, p, s)
    ensures var list := Templates(st.entries, todo);
            && ListWithin(w, list, n, p, s)
            && Delivers(w, st, TryDelegates(w.files, st, todo, tried, p, s), FirstOf(w, list, n, true, p, s))
    decreases Measure(w.files, st), OptWeight(p) + OptWeight(s), 3, |todo|
  {
    hide AllOk, CopiesOk, Agreed, Bounded, Forward, Kept, Low, ListWithin, FileWithin, TryChild, Delegates, AskFile;
    hide OptWeight, Measure, Grows, Raised, Asks, TriedInVain, Consulted;
    var list := Templates(st.entries, todo);
    WithinFewer(w, list, n, pub, sys, p, s);
    KeptSelf(w.files, st);
    ExtendsSelf(st.entries, true);
    if todo != [] {
      var t, rest := list[0], todo[1..];
      assert Templates(st.entries, rest) == list[1..];
      WithinRest(w, list, n, pub, sys);
      WithinRest(w, list, n, p, s);
      if !Delegates(t, p, s) || t.url in tried {
        if t.url in tried { TriedAt(w, tried, t.url, n, p, s); }
        DelegatesAnswer(w, st, rest, tried, n, pub, sys, p, s);
      } else {
        PickedIsConsulted(t, true, p, s);
        FewerConsulted(t, p, s, pub, sys);
        ChildAnswers(w, st, todo[0], n, pub, sys, p, s);
        var o := TryChild(w.files, st, todo[0], p, s);
        if o.a.Null? {
          var more := if |tried| < MAX_DELEGATE then tried + [t.url] else tried;
          TriedMore(w, tried, t.url, n, p, s);
          RoomyAfter(w, st, o.st, rest, n, pub, sys, p, s, true);
          DelegatesAnswer(w, o.st, rest, more, n, pub, sys, p, s);
          DeliversThen(w, st, o, TryDelegates(w.files, o.st, rest, more, p, s));
        }
      }
    }
  }

  lemma {:induction false} NextAnswers(w: World, st: State, catal: nat, todo: seq<nat>, n: nat,
                                       pub: Option<string>, sys: Option<string>, p: Option<string>, s: Option<string>)
    requires Orderly(w, st) && AllBelow(todo, |st.entries|) && Asks(p, s) && FewerIds(p, s, pub, sys)
    requires Roomy(w, st, Templates(st.entries, todo), n, pub, sys)
    requires catal < |st.entries| && st.entries[catal].depth <= MAX_CATAL_DEPTH
    ensures var list, r := Templates(st.entries, todo), TryNext(w.files, st, catal, todo, p, s);
            ListWithin(w, list, n, p, s) && !r.stuck && Delivers(w, st, r.o, FirstOf(w, list, n, false, p, s))
    decreases Measure(w.files, st), OptWeight(p) + OptWeight(s), 3, |todo|
  {
    hide AllOk, CopiesOk, Agreed, Bounded, Forward, Kept, Low, ListWithin, FileWithin, TryChild, AskFile, Delegates;
    hide OptWeight, Measure, Raised, Asks;
    var list := Templates(st.entries, todo);
    WithinFewer(w, list, n, pub, sys, p, s);
    KeptSelf(w.files, st);
    ExtendsSelf(st.entries, true);
    if todo != [] {
      var rest := todo[1..];
      assert Templates(st.entries, rest) == list[1..];
      WithinRest(w, list, n, pub, sys);
      WithinRest(w, list, n, p, s);
      if !list[0].kind.NextCatalog? {
        NextAnswers(w, st, catal, rest, n, pub, sys, p, s);
      } else {
        ChildAnswers(w, st, todo[0], n, pub, sys, p, s);
        var o := TryChild(w.files, st, todo[0], p, s);
        assert Grows(st.entries[catal], o.st.entries[catal], true);
        if o.a.Null? {
          RoomyAfter(w, st, o.st, rest, n, pub, sys, p, s, false);
          NextAnswers(w, o.st, catal, rest, n, pub, sys, p, s);
          DeliversThen(w, st, o, TryNext(w.files, o.st, catal, rest, p, s).o);
        }
      }
    }
  }

  /** After one reference in vain the rest is as it was. */
  lemma RoomyAfter(w: World, a: State, b: State, ids: seq<nat>, n: nat, pub: Option<string>, sys: Option<string>,
                   p: Option<string>, s: Option<string>, cut: bool)
    requires Orderly(w, a) && Orderly(w, b) && Kept(w.files, a, b) && Extends(a.entries, b.entries, true)
    requires AllBelow(ids, |a.entries|) && Roomy(w, a, Templates(a.entries, ids), n, pub, sys)
    requires FewerIds(p, s, pub, sys) && (cut ==> p.None? || s.None?)
    ensures AllBelow(ids, |b.entries|) && Roomy(w, b, Templates(b.entries, ids), n, pub, sys)
    ensures var x, y := Templates(a.entries, ids), Templates(b.entries, ids);
            && ListWithin(w, x, n, p, s) && ListWithin(w, y, n, p, s)
            && FirstOf(w, x, n, cut, p, s) == FirstOf(w, y, n, cut, p, s)
  {
    hide AllOk, CopiesOk, Agreed, Bounded, Forward, Low, ListWithin, FileWithin, FirstOf, Weathered;
    var x, y := Templates(a.entries, ids), Templates(b.entries, ids);
    LowKept(w, a, b, n, pub, sys);
    KeptTemplates(w.files, a.entries, b.entries, ids);
    WithinWeathered(w, x, y, n, pub, sys);
    WithinFewer(w, x, n, pub, sys, p, s);
    WithinFewer(w, y, n, pub, sys, p, s);
    FirstWeathered(w, x, y, n, cut, p, s);
  }

  lemma DeliversThen(w: World, st: State, o: Outcome, q: Outcome)
    requires Delivers(w, st, o, Null) && Delivers(w, o.st, q, q.a)
    ensures Delivers(w, st, q.(hit := o.hit || q.hit), q.a)
  {
    hide Kept, Extends, Orderly;
    KeptTrans(w.files, st, o.st, q.st);
    ExtendsTrans(st.entries, o.st.entries, q.st.entries, true, true);
  }

  lemma {:induction false} ChildAnswers(w: World, st: State, x: nat, n: nat, pub: Option<string>, sys: Option<string>,
                                        p: Option<string>, s: Option<string>)
    requires Orderly(w, st) && x < |st.entries| && IsReference(st.entries[x].t.kind) && Asks(p, s) && FewerIds(p, s, pub, sys)
    requires Low(w, st, n, pub, sys)
    requires var g := Target(w.files, st.entries[x].t.url); g.Some? ==> FileWithin(w, g.value, n, pub, sys)
    ensures var g, o := Target(w.files, st.entries[x].t.url), TryChild(w.files, st, x, p, s);
            if g.None? then Delivers(w, st, o, Null)
            else FileWithin(w, g.value, n, p, s) && Delivers(w, st, o, AskFile(w, g.value, n, p, s))
    decreases Measure(w.files, st), OptWeight(p) + OptWeight(s), 2, 0
  {
    hide AllOk, CopiesOk, Agreed, Bounded, Forward, Kept, Low, ListWithin, FileWithin, TryChild, Resolve, Followed, Start;
    hide OptWeight, Measure, Raised, Asks, Extends, AskList, Weathered, StartsAt, Apart;
    ChildResolves(w, st, x, p, s);
    var g, t := Target(w.files, st.entries[x].t.url), Followed(w, st, x);
    if g.Some? {
      LowKept(w, st, t, n, pub, sys);
      FileAnswers(w, t, g.value, n, pub, sys, p, s);
      if Start(w, t, g.value).Some? {
        var h := Start(w, t, g.value).value;
        var k := Least(w, g.value, n, pub, sys) - 1;
        ResolveAnswers(w, t, h, k, pub, sys, p, s);
        FileAnswered(w, t, g.value, n, pub, sys, p, s);
        var o := Resolve(w.files, t, h, p, s);
        KeptTrans(w.files, st, t, o.st);
        ExtendsTrans(st.entries, t.entries, o.st.entries, true, true);
      }
    }
  }

  /** The list of a loaded file can be entered with its own least bound. */
  lemma FileAnswers(w: World, st: State, g: nat, n: nat, pub: Option<string>, sys: Option<string>,
                    p: Option<string>, s: Option<string>)
    requires Orderly(w, st) && g < |w.files| && st.cache[g].Some? && FewerIds(p, s, pub, sys)
    requires Readable(w, g) && FileWithin(w, g, n, pub, sys) && Low(w, st, n, pub, sys)
    ensures FileWithin(w, g, n, p, s)
    ensures Start(w, st, g).None? ==> AskFile(w, g, n, p, s) == Null
    ensures Start(w, st, g).Some? ==>
              var h, k := Start(w, st, g).value, Least(w, g, n, pub, sys) - 1;
              && Roomy(w, st, ListFrom(st.entries, Some(h)), k, pub, sys)
              && Apart(w, st, h, k, pub, sys) && st.entries[h].depth < MAX_CATAL_DEPTH
  {
    hide AllOk, CopiesOk, Agreed, Bounded, Forward, Low, ListWithin, Weathered, Start, Apart;
    var list, k := ListOf(w, g), Least(w, g, n, pub, sys) - 1;
    WithinFewer(w, list, n - 1, pub, sys, p, s);
    if Start(w, st, g).Some? {
      var h := Start(w, st, g).value;
      assert StartsAt(w, st, g, h, n, pub, sys);
      assert st.entries[h].depth < MAX_CATAL_DEPTH by { LowAt(w, st, g, h, n, pub, sys); }
      LeastIsApart(w, st, g, h, n, pub, sys);
      LowLess(w, st, n, k, pub, sys);
      WithinWeathered(w, list, ListFrom(st.entries, Some(h)), k, pub, sys);
    }
  }

  lemma LowAt(w: World, st: State, g: nat, h: nat, n: nat, pub: Option<string>, sys: Option<string>)
    requires Orderly(w, st) && Low(w, st, n, pub, sys) && g < |w.files| && StartsAt(w, st, g, h, n, pub, sys)
    ensures st.entries[h].depth < MAX_CATAL_DEPTH
  {
  }

  /** What that list answers is what the file answers. */
  lemma FileAnswered(w: World, st: State, g: nat, n: nat, pub: Option<string>, sys: Option<string>,
                     p: Option<string>, s: Option<string>)
    requires Orderly(w, st) && g < |w.files| && st.cache[g].Some? && FewerIds(p, s, pub, sys)
    requires Readable(w, g) && FileWithin(w, g, n, pub, sys) && FileWithin(w, g, n, p, s) && Start(w, st, g).Some?
    requires ListWithin(w, ListFrom(st.entries, Start(w, st, g)), Least(w, g, n, pub, sys) - 1, p, s)
    ensures AskList(w, ListFrom(st.entries, Start(w, st, g)), Least(w, g, n, pub, sys) - 1, p, s) == AskFile(w, g, n, p, s)
  {
    hide AllOk, CopiesOk, Agreed, Bounded, Forward, ListWithin, Weathered, Start, AskList;
    var k, list := Least(w, g, n, pub, sys) - 1, ListOf(w, g);
    WithinFewer(w, list, k, pub, sys, p, s);
    AskWeathered(w, list, ListFrom(st.entries, Start(w, st, g)), k, p, s);
    AskListStable(w, list, k, n - 1, p, s);
  }

  // ---- the theorems ----

  /** All counters leave room for one activation and the test that follows it; they are
      0 when nothing is being resolved and no exit was taken before. */
  ghost predicate AllLow(entries: seq<CEntry>)
  {
    forall i :: 0 <= i < |entries| ==> entries[i].depth < MAX_CATAL_DEPTH
  }

  lemma LowEverywhere(w: World, st: State, n: nat, pub: Option<string>, sys: Option<string>)
    requires Orderly(w, st) && AllLow(st.entries)
    ensures Low(w, st, n, pub, sys)
  {
    hide Orderly, FileWithin, Start;
  }

  lemma LowRestored(a: seq<CEntry>, b: seq<CEntry>)
    requires AllLow(a)
    ensures Extends(a, b, true) ==> AllLow(b)
  {
    if Extends(a, b, true) {
      forall i | 0 <= i < |b| ensures b[i].depth < MAX_CATAL_DEPTH {
        if i < |a| { assert Grows(a[i], b[i], true); }
      }
    }
  }

  /** If the references consulted from a list do not run in a circle, resolution in it
      answers as the recursion over the files does and puts every counter back. */
  lemma ResolveIsSpecified(w: World, st: State, catal: nat, n: nat, pub: Option<string>, sys: Option<string>)
    requires Orderly(w, st) && AllLow(st.entries) && catal < |st.entries| && Asks(pub, sys)
    requires ListWithin(w, ListFrom(st.entries, Some(catal)), n, pub, sys)
    ensures Delivers(w, st, Resolve(w.files, st, catal, pub, sys),
                     AskList(w, ListFrom(st.entries, Some(catal)), n, pub, sys))
  {
    hide AllOk, CopiesOk, Agreed, Bounded, Forward, ListWithin, Start, Low, Resolve, AskList, Delivers;
    var list := ListFrom(st.entries, Some(catal));
    if Apart(w, st, catal, n, pub, sys) {
      LowEverywhere(w, st, n, pub, sys);
      ResolveAnswers(w, st, catal, n, pub, sys, pub, sys);
    } else {
      var f :| 0 <= f < |w.files| && StartsAt(w, st, f, catal, n, pub, sys);
      CopyAt(w, st, f);
      var k := Least(w, f, n, pub, sys) - 1;
      LeastIsApart(w, st, f, catal, n, pub, sys);
      LowEverywhere(w, st, k, pub, sys);
      WithinWeathered(w, ListOf(w, f), list, k, pub, sys);
      ResolveAnswers(w, st, catal, k, pub, sys, pub, sys);
      AskListStable(w, list, k, n, pub, sys);
    }
  }

  // ---- a list of catalogs ----

  /** What a catalog of the list says: the list it has, or that of its file. */
  ghost function RootList(w: World, st: State, x: nat): Option<seq<Template>>
    requires Orderly(w, st) && x < |st.entries|
  {
    var e := st.entries[x];
    assert PointsWell(e, x, |st.entries|);
    if !e.t.kind.CatalogKind? then None
    else if e.children.Some? then Some(ListFrom(st.entries, e.children))
    else
      var g := Target(w.files, e.t.url);
      if g.Some? then Some(ListOf(w, g.value)) else None
  }

  ghost predicate RootsWithin(w: World, st: State, ids: seq<nat>, n: nat, pub: Option<string>, sys: Option<string>)
    requires Orderly(w, st) && AllBelow(ids, |st.entries|)
  {
    ids == []
    || ((RootList(w, st, ids[0]).Some? ==> ListWithin(w, RootList(w, st, ids[0]).value, n, pub, sys))
        && RootsWithin(w, st, ids[1..], n, pub, sys))
  }

  /** The first answer that is not null, over the catalogs of a list. */
  ghost function AskRoots(w: World, st: State, ids: seq<nat>, n: nat, pub: Option<string>, sys: Option<string>): Answer
    requires Orderly(w, st) && AllBelow(ids, |st.entries|) && RootsWithin(w, st, ids, n, pub, sys)
  {
    if ids == [] then Null
    else
      var list := RootList(w, st, ids[0]);
      var a := if list.Some? then AskList(w, list.value, n, pub, sys) else Null;
      if !a.Null? then a else AskRoots(w, st, ids[1..], n, pub, sys)
  }

  /** Catalogs other than x keep what they say, but for weather. */
  ghost predicate RootsKept(w: World, a: State, b: State, x: nat)
  {
    && Orderly(w, a) && Orderly(w, b) && Likewise(w.files, a.entries, b.entries)
    && forall y :: 0 <= y < |a.entries| && y != x ==>
         (a.entries[y].t.kind.CatalogKind? ==> b.entries[y].t == a.entries[y].t && b.entries[y].children == a.entries[y].children)
  }

  lemma RootListKept(w: World, a: State, b: State, x: nat, y: nat)
    requires RootsKept(w, a, b, x) && y < |a.entries| && y != x
    ensures RootList(w, a, y).Some? <==> RootList(w, b, y).Some?
    ensures RootList(w, a, y).Some? ==> Weathered(w.files, RootList(w, a, y).value, RootList(w, b, y).value)
  {
    hide AllOk, CopiesOk, Agreed, Bounded;
    assert PointsWell(a.entries[y], y, |a.entries|);
    assert Weathers(w.files, a.entries[y].t, b.entries[y].t);
    if a.entries[y].t.kind.CatalogKind? && a.entries[y].children.Some? {
      LikewiseList(w.files, a.entries, b.entries, a.entries[y].children);
    }
  }

  lemma {:induction false} RootsSame(w: World, a: State, b: State, x: nat, ids: seq<nat>, n: nat,
                                     pub: Option<string>, sys: Option<string>)
    requires RootsKept(w, a, b, x) && AllBelow(ids, |a.entries|) && x !in ids && RootsWithin(w, a, ids, n, pub, sys)
    ensures AllBelow(ids, |b.entries|) && RootsWithin(w, b, ids, n, pub, sys)
    ensures AskRoots(w, a, ids, n, pub, sys) == AskRoots(w, b, ids, n, pub, sys)
  {
    hide AllOk, CopiesOk, Agreed, Bounded, Forward, ListWithin, AskList, RootList, Weathered, Weathers;
    if ids != [] {
      RootListKept(w, a, b, x, ids[0]);
      RootsSame(w, a, b, x, ids[1..], n, pub, sys);
      if RootList(w, a, ids[0]).Some? {
        AskWeathered(w, RootList(w, a, ids[0]).value, RootList(w, b, ids[0]).value, n, pub, sys);
      }
    }
  }

  lemma KeptRoots(w: World, a: State, b: State, c: State, x: nat)
    requires Orderly(w, a) && Orderly(w, b) && Likewise(w.files, a.entries, b.entries) && OnlyAt(a, b, x)
    requires Orderly(w, c) && Kept(w.files, b, c)
    ensures RootsKept(w, a, c, x)
  {
    hide Orderly;
    KeptLikewise(w.files, b.entries, c.entries);
    forall i | 0 <= i < |a.entries| ensures Weathers(w.files, a.entries[i].t, c.entries[i].t) {
      assert Weathers(w.files, a.entries[i].t, b.entries[i].t) && Weathers(w.files, b.entries[i].t, c.entries[i].t);
    }
    forall y | 0 <= y < |a.entries| && y != x && a.entries[y].t.kind.CatalogKind?
      ensures c.entries[y].t == a.entries[y].t && c.entries[y].children == a.entries[y].children
    {
      assert KeptEntry(w.files, b.entries[y], c.entries[y]);
    }
  }

  ghost predicate Distinct(ids: seq<nat>) { forall i, j :: 0 <= i < j < |ids| ==> ids[i] != ids[j] }

  /** The state in which a catalog of the list is resolved, and what its list says. */
  lemma RootReady(w: World, st: State, x: nat, n: nat, pub: Option<string>, sys: Option<string>) returns (s: State)
    requires Orderly(w, st) && AllLow(st.entries) && x < |st.entries| && st.entries[x].t.kind.CatalogKind?
    ensures s == if st.entries[x].children.None? then Fetch(w.files, st, x) else st
    ensures Orderly(w, s) && AllLow(s.entries) && Likewise(w.files, st.entries, s.entries) && OnlyAt(st, s, x)
    ensures Extends(st.entries, s.entries, true)
    ensures s.entries[x].children.Some? ==>
              && RootList(w, st, x).Some?
              && Weathered(w.files, RootList(w, st, x).value, ListFrom(s.entries, s.entries[x].children))
    ensures s.entries[x].children.None? && RootList(w, st, x).Some? ==> RootList(w, st, x).value == []
  {
    hide AllOk, CopiesOk, Agreed, Bounded, Measure, Fetch;
    assert PointsWell(st.entries[x], x, |st.entries|);
    FetchFacts(w.files, st, x);
    if st.entries[x].children.None? {
      FetchRoot(w, st, x);
      s := Fetch(w.files, st, x);
      var g := Target(w.files, st.entries[x].t.url);
      if g.Some? { assert s.entries[x].children == Start(w, s, g.value); }
    } else {
      s := st;
      ExtendsSelf(st.entries, true);
      LikewiseList(w.files, st.entries, s.entries, s.entries[x].children);
    }
    LowRestored(st.entries, s.entries);
  }

  /** The walk over a list of catalogs, loading them on the way. */
  lemma {:induction false} WalkAnswers(w: World, st: State, todo: seq<nat>, n: nat, pub: Option<string>, sys: Option<string>)
    requires Orderly(w, st) && AllLow(st.entries) && AllBelow(todo, |st.entries|) && Distinct(todo) && Asks(pub, sys)
    requires RootsWithin(w, st, todo, n, pub, sys)
    ensures var o := Walk(w.files, st, todo, pub, sys);
            && o.a == AskRoots(w, st, todo, n, pub, sys) && !o.hit
            && Orderly(w, o.st) && Extends(st.entries, o.st.entries, true)
    decreases |todo|
  {
    hide AllOk, CopiesOk, Agreed, Bounded, Forward, ListWithin, AskList, Weathered, Weathers, Resolve, Fetch, Kept, Likewise;
    hide OnlyAt, Measure, Raised, RootList, Start, Grows;
    ExtendsSelf(st.entries, true);
    if todo != [] {
      var x, rest := todo[0], todo[1..];
      if !st.entries[x].t.kind.CatalogKind? {
        assert RootList(w, st, x).None? by { NoRoot(w, st, x); }
        WalkAnswers(w, st, rest, n, pub, sys);
      } else {
        var s := RootReady(w, st, x, n, pub, sys);
        if s.entries[x].children.None? {
          SilentRoot(w, st, x, n, pub, sys);
          KeptSelf(w.files, s);
          KeptRoots(w, st, s, s, x);
          RootsSame(w, st, s, x, rest, n, pub, sys);
          WalkAnswers(w, s, rest, n, pub, sys);
          ExtendsTrans(st.entries, s.entries, Walk(w.files, s, rest, pub, sys).st.entries, true, true);
        } else {
          WalkRoot(w, st, s, x, rest, n, pub, sys);
        }
      }
    }
  }

  lemma NoRoot(w: World, st: State, x: nat)
    requires Orderly(w, st) && x < |st.entries| && !st.entries[x].t.kind.CatalogKind?
    ensures RootList(w, st, x).None?
  {
  }

  lemma SilentRoot(w: World, st: State, x: nat, n: nat, pub: Option<string>, sys: Option<string>)
    requires Orderly(w, st) && x < |st.entries|
    requires RootList(w, st, x).Some? ==> RootList(w, st, x).value == []
    ensures RootList(w, st, x).Some? ==>
              ListWithin(w, RootList(w, st, x).value, n, pub, sys) && AskList(w, RootList(w, st, x).value, n, pub, sys) == Null
  {
    hide Orderly, RootList;
  }

  /** One catalog that has a list, then the rest. */
  lemma {:induction false} WalkRoot(w: World, st: State, s: State, x: nat, rest: seq<nat>, n: nat,
                                    pub: Option<string>, sys: Option<string>)
    requires Orderly(w, st) && AllLow(st.entries) && AllBelow([x] + rest, |st.entries|) && Distinct([x] + rest) && Asks(pub, sys)
    requires RootsWithin(w, st, [x] + rest, n, pub, sys) && x < |st.entries| && st.entries[x].t.kind.CatalogKind?
    requires s == if st.entries[x].children.None? then Fetch(w.files, st, x) else st
    requires Orderly(w, s) && AllLow(s.entries) && Likewise(w.files, st.entries, s.entries) && OnlyAt(st, s, x)
    requires Extends(st.entries, s.entries, true) && x < |s.entries| && s.entries[x].children.Some?
    requires RootList(w, st, x).Some?
    requires Weathered(w.files, RootList(w, st, x).value, ListFrom(s.entries, s.entries[x].children))
    ensures var o := Walk(w.files, st, [x] + rest, pub, sys);
            && o.a == AskRoots(w, st, [x] + rest, n, pub, sys) && !o.hit
            && Orderly(w, o.st) && Extends(st.entries, o.st.entries, true)
    decreases |rest| + 1, 0
  {
    hide AllOk, CopiesOk, Agreed, Bounded, ListWithin, AskList, Weathered, Weathers, Resolve, Fetch, Kept, Likewise;
    hide OnlyAt, Measure, Raised, RootList, Start;
    var list, k := RootList(w, st, x).value, s.entries[x].children.value;
    assert ([x] + rest)[1..] == rest;
    assert PointsWell(s.entries[x], x, |s.entries|);
    AskWeathered(w, list, ListFrom(s.entries, Some(k)), n, pub, sys);
    ResolveIsSpecified(w, s, k, n, pub, sys);
    var o := Resolve(w.files, s, k, pub, sys);
    ExtendsTrans(st.entries, s.entries, o.st.entries, true, true);
    if o.a.Null? {
      LowRestored(s.entries, o.st.entries);
      assert o.st.entries[x].children == Some(k) by { ChildrenKept(w, s, o.st, x); }
      KeptRoots(w, st, s, o.st, x);
      RootsSame(w, st, o.st, x, rest, n, pub, sys);
      WalkAnswers(w, o.st, rest, n, pub, sys);
      ExtendsTrans(st.entries, o.st.entries, Walk(w.files, o.st, rest, pub, sys).st.entries, true, true);
    }
  }

  /** Unwrapping first and walking then is all that xmlCatalogListXMLResolve does. */
  lemma {:induction false} ResolveListWalks(files: seq<File>, st: State, catal: nat, pub0: Option<string>, sys: Option<string>)
    requires Valid(files, st) && catal < |st.entries|
    ensures var o, ids := ResolveList(files, st, Some(catal), pub0, sys), Identify(pub0, sys);
            if ids.None? then o == Outcome(st, Null, false)
            else o == Walk(files, st, Indices(st.entries, Some(catal)), ids.value.0, ids.value.1)
    decreases OptWeight(pub0) + OptWeight(sys)
  {
    hide Weight, Unwrap, Normalize, HasPrefix, Walk, Progress, Forward, Bounded, Indices;
    if pub0.Some? || sys.Some? {
      var pub := NormalizePublic(pub0);
      NormalizePublicLighter(pub0);
      if IsURN(pub) {
        UnwrapURNLighter(pub.value);
        ResolveListWalks(files, st, catal, Some(UnwrapURN(pub.value)), sys);
      } else if IsURN(sys) {
        UnwrapURNLighter(sys.value);
        var urn := UnwrapURN(sys.value);
        if pub.None? {
          ResolveListWalks(files, st, catal, Some(urn), None);
        } else if pub == Some(urn) {
          ResolveListWalks(files, st, catal, pub, None);
        } else {
          ResolveListWalks(files, st, catal, pub, Some(urn));
        }
      }
    }
  }

  lemma {:induction false} IndicesRise(entries: seq<CEntry>, i: Option<nat>)
    requires Forward(entries) && (i.Some? ==> i.value < |entries|)
    ensures var ids := Indices(entries, i); Distinct(ids) && (i.Some? ==> forall k :: 0 <= k < |ids| ==> ids[k] >= i.value)
    decreases if i.Some? then |entries| - i.value else 0
  {
    if i.Some? {
      assert PointsWell(entries[i.value], i.value, |entries|);
      var rest := Indices(entries, entries[i.value].next);
      IndicesRise(entries, entries[i.value].next);
      assert Indices(entries, i) == [i.value] + rest;
    }
  }

  /** Lazy, shared loading and counters do not show: if the references consulted for the
      unwrapped identifiers do not run in a circle, a list of catalogs answers as the
      recursion over the files does, and every counter is put back. */
  lemma ResolveListIsSpecified(w: World, st: State, catal: nat, n: nat, pub0: Option<string>, sys: Option<string>)
    requires Orderly(w, st) && AllLow(st.entries) && catal < |st.entries| && Identify(pub0, sys).Some?
    requires var (p, s) := Identify(pub0, sys).value;
             (p.Some? || s.Some?) && RootsWithin(w, st, Indices(st.entries, Some(catal)), n, p, s)
    ensures var (p, s) := Identify(pub0, sys).value;
            var o := ResolveList(w.files, st, Some(catal), pub0, sys);
            && o.a == AskRoots(w, st, Indices(st.entries, Some(catal)), n, p, s) && !o.hit
            && Orderly(w, o.st) && Extends(st.entries, o.st.entries, true)
  {
    hide AllOk, CopiesOk, Agreed, Bounded, Forward, ResolveList, Walk, Identify, Plain, RootsWithin, AskRoots, Extends, Indices;
    var (p, s) := Identify(pub0, sys).value;
    ResolveListWalks(w.files, st, catal, pub0, sys);
    IdentifyIsPlain(pub0, sys);
    IndicesRise(st.entries, Some(catal));
    WalkAnswers(w, st, Indices(st.entries, Some(catal)), n, p, s);
  }
}
