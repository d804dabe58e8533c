/**
 Where they do run in a circle, a counter stays at the limit: the exact condition, and
 the smallest example.
 */
module CatalogCircles {
  import opened Common
  import opened CatalogNames
  import opened CatalogLists
  import opened CatalogResolve
  import opened CatalogWorld
  import opened CatalogSpec
  import opened CatalogAnswers

  // ---- in a circle: a counter that stays at the limit ----

  /** Nobody answers, and nobody delegates. */
  predicate QuietList(list: seq<Template>, pub: Option<string>, sys: Option<string>)
  {
    Judge(list, pub, sys).PassedOn? || Judge(list, pub, sys).Nothing?
  }

  ghost predicate Quiet(w: World, pub: Option<string>, sys: Option<string>)
  {
    forall f {:trigger Readable(w, f)} :: Readable(w, f) ==> QuietList(ListOf(w, f), pub, sys)
  }

  lemma QuietWeathered(files: seq<File>, a: seq<Template>, b: seq<Template>, pub: Option<string>, sys: Option<string>)
    requires Weathered(files, a, b) && QuietList(a, pub, sys)
    ensures QuietList(b, pub, sys)
  {
    hide Weathered, SystemAnswer, PublicAnswer, AnyDelegate, AnyNext;
    if sys.Some? { SystemWeathered(files, a, b, sys.value, None); }
    if pub.Some? { PublicWeathered(files, a, b, pub.value); }
    DelegatesWeathered(files, a, b, None, sys);
    DelegatesWeathered(files, a, b, pub, None);
  }

  /** Chains of references that never end. */
  ghost predicate ListEndless(w: World, list: seq<Template>, pub: Option<string>, sys: Option<string>)
    requires |w.prefs| == |w.files|
  {
    forall n: nat :: !ListWithin(w, list, n, pub, sys)
  }

  ghost predicate FileEndless(w: World, f: nat, pub: Option<string>, sys: Option<string>)
    requires Readable(w, f)
  {
    forall n: nat :: !FileWithin(w, f, n, pub, sys)
  }

  lemma EndlessFile(w: World, f: nat, pub: Option<string>, sys: Option<string>)
    requires Readable(w, f) && FileEndless(w, f, pub, sys)
    ensures ListEndless(w, ListOf(w, f), pub, sys) && ListOf(w, f) != []
  {
    forall n: nat ensures !ListWithin(w, ListOf(w, f), n, pub, sys) {
      assert !FileWithin(w, f, n + 1, pub, sys);
    }
    assert !ListWithin(w, ListOf(w, f), 0, pub, sys);
  }

  lemma EndlessWeathered(w: World, a: seq<Template>, b: seq<Template>, pub: Option<string>, sys: Option<string>)
    requires |w.prefs| == |w.files| && Weathered(w.files, a, b) && ListEndless(w, a, pub, sys)
    ensures ListEndless(w, b, pub, sys)
  {
    hide ListWithin, Weathered;
    forall n: nat ensures !ListWithin(w, b, n, pub, sys) { WithinWeathered(w, a, b, n, pub, sys); }
  }

  /** If a list is endless, its first entry leads on forever or the rest does. */
  lemma EndlessSplit(w: World, list: seq<Template>, pub: Option<string>, sys: Option<string>)
    requires |w.prefs| == |w.files| && ListEndless(w, list, pub, sys)
    ensures list != []
    ensures || ListEndless(w, list[1..], pub, sys)
            || (Consulted(list[0], pub, sys) && Target(w.files, list[0].url).Some?
                && FileEndless(w, Target(w.files, list[0].url).value, pub, sys))
  {
    hide Consulted, FileWithin;
    assert !ListWithin(w, list, 0, pub, sys);
    var g := Target(w.files, list[0].url);
    if !ListEndless(w, list[1..], pub, sys) {
      var n: nat :| ListWithin(w, list[1..], n, pub, sys);
      if Consulted(list[0], pub, sys) && g.Some? {
        forall m: nat ensures !FileWithin(w, g.value, m, pub, sys) {
          SplitBound(w, list, n, m, pub, sys);
        }
      } else {
        WithinRest(w, list, n, pub, sys);
      }
    }
  }

  lemma SplitBound(w: World, list: seq<Template>, n: nat, m: nat, pub: Option<string>, sys: Option<string>)
    requires |w.prefs| == |w.files| && list != [] && ListWithin(w, list[1..], n, pub, sys)
    requires Target(w.files, list[0].url).Some? && ListEndless(w, list, pub, sys)
    ensures !FileWithin(w, Target(w.files, list[0].url).value, m, pub, sys)
  {
    hide ListWithin, FileWithin;
    var g, k := Target(w.files, list[0].url).value, if n < m then m else n;
    WithinMore(w, list[1..], n, k, pub, sys);
    WithinRest(w, list, k, pub, sys);
    if FileWithin(w, g, m, pub, sys) { FileWithinMore(w, g, m, k, pub, sys); }
  }

  ghost predicate FullFile(w: World, st: State, f: nat)
    requires Orderly(w, st) && f < |w.files|
  {
    st.cache[f].Some? && Start(w, st, f).Some? && st.entries[Start(w, st, f).value].depth > MAX_CATAL_DEPTH
  }

  /** The counter of the list of some file is at the limit. */
  ghost predicate SomeFull(w: World, st: State)
    requires Orderly(w, st)
  {
    exists f :: 0 <= f < |w.files| && FullFile(w, st, f)
  }

  lemma FullKept(w: World, a: State, b: State, exact: bool)
    requires Orderly(w, a) && Orderly(w, b) && Kept(w.files, a, b) && Extends(a.entries, b.entries, exact)
    requires SomeFull(w, a)
    ensures SomeFull(w, b)
  {
    hide Orderly, Kept, Start;
    var f :| 0 <= f < |w.files| && FullFile(w, a, f);
    StartKept(w, a, b, f);
    assert Grows(a.entries[Start(w, a, f).value], b.entries[Start(w, a, f).value], exact);
    assert FullFile(w, b, f);
  }

  /** Lowering a counter that is not at the limit. */
  lemma FullLeft(w: World, st: State, i: nat)
    requires Orderly(w, st) && i < |st.entries| && 0 < st.entries[i].depth <= MAX_CATAL_DEPTH && SomeFull(w, st)
    requires Orderly(w, Leave(st, i)) && Kept(w.files, st, Leave(st, i))
    ensures SomeFull(w, Leave(st, i))
  {
    hide Orderly, Kept, Start;
    var f :| 0 <= f < |w.files| && FullFile(w, st, f);
    StartKept(w, st, Leave(st, i), f);
    assert FullFile(w, Leave(st, i), f);
  }

  /** Every list is silent, and nobody delegates to anybody. */
  ghost predicate Silent(w: World, list: seq<Template>, pub: Option<string>, sys: Option<string>)
  {
    forall k :: 0 <= k < |list| ==> (Consulted(list[k], pub, sys) <==> list[k].kind.NextCatalog?)
  }

  lemma {:induction false} NoDelegate(list: seq<Template>, pub: Option<string>, sys: Option<string>)
    requires !AnyDelegate(list, pub, sys)
    ensures forall k :: 0 <= k < |list| ==> !Delegates(list[k], pub, sys)
  {
    if list != [] {
      NoDelegate(list[1..], pub, sys);
      forall k | 0 < k < |list| ensures !Delegates(list[k], pub, sys) { assert list[k] == list[1..][k - 1]; }
    }
  }

  lemma QuietIsSilent(w: World, list: seq<Template>, pub: Option<string>, sys: Option<string>)
    requires QuietList(list, pub, sys)
    ensures Silent(w, list, pub, sys)
  {
    hide SystemAnswer, PublicAnswer, AnyNext;
    if sys.Some? { NoDelegate(list, None, sys); }
    if pub.Some? { NoDelegate(list, pub, None); }
  }

  /** For identifiers nobody answers: the answer is null, and if a chain of references
      never ends, some counter ends up at the limit, here or in the list of a file. */
  lemma {:induction false} ResolveSticks(w: World, st: State, catal: nat, pub: Option<string>, sys: Option<string>)
    requires Orderly(w, st) && catal < |st.entries| && Asks(pub, sys) && Quiet(w, pub, sys)
    requires QuietList(ListFrom(st.entries, Some(catal)), pub, sys)
    ensures var o, list := Resolve(w.files, st, catal, pub, sys), ListFrom(st.entries, Some(catal));
            && Orderly(w, o.st) && Kept(w.files, st, o.st) && o.a.Null?
            && (ListEndless(w, list, pub, sys) ==> SomeFull(w, o.st) || o.st.entries[catal].depth > MAX_CATAL_DEPTH)
    decreases Measure(w.files, st), OptWeight(pub) + OptWeight(sys), 0, 0
  {
    hide AllOk, CopiesOk, Agreed, Bounded, Kept, ListEndless, TryNext, TryDelegates, Judge, SomeFull, Silent, Quiet;
    hide OptWeight, Measure, Templates, Indices, Extends, Raised;
    ResolveKeeps(w, st, catal, pub, sys);
    if st.entries[catal].depth <= MAX_CATAL_DEPTH {
      var list, ids, t := ListFrom(st.entries, Some(catal)), Indices(st.entries, Some(catal)), Enter(st, catal);
      EnterFacts(w.files, st, catal);
      EnterOrderly(w, st, catal);
      EnterTemplates(st, catal, ids);
      QuietIsSilent(w, list, pub, sys);
      if Judge(list, pub, sys).PassedOn? {
        NextSticks(w, t, catal, ids, pub, sys);
        var r := TryNext(w.files, t, catal, ids, pub, sys);
        if !r.stuck {
          LeaveFacts(w.files, st, catal, r.o);
          LeaveOrderly(w, r.o.st, catal);
          if ListEndless(w, list, pub, sys) { FullLeft(w, r.o.st, catal); }
        }
      } else {
        NothingEnds(w, list, pub, sys);
      }
    }
  }

  /** A silent list without next catalogs refers to nobody. */
  lemma NothingEnds(w: World, list: seq<Template>, pub: Option<string>, sys: Option<string>)
    requires |w.prefs| == |w.files| && Judge(list, pub, sys).Nothing? && (pub.Some? || sys.Some?)
    ensures !ListEndless(w, list, pub, sys)
  {
    hide SystemAnswer, PublicAnswer;
    NoNext(list);
    QuietIsSilent(w, list, pub, sys);
    assert ListWithin(w, list, 0, pub, sys);
  }

  lemma {:induction false} NoNext(list: seq<Template>)
    requires !AnyNext(list)
    ensures forall k :: 0 <= k < |list| ==> !list[k].kind.NextCatalog?
  {
    if list != [] {
      NoNext(list[1..]);
      forall k | 0 < k < |list| ensures !list[k].kind.NextCatalog? { assert list[k] == list[1..][k - 1]; }
    }
  }

  /** The loop over next catalogs: unless it takes the exit, the counter of the list is
      below the limit afterwards, and in a circle that of some file is at it. */
  ghost predicate Sticks(w: World, st: State, catal: nat, r: Tried, endless: bool)
    requires catal < |st.entries|
  {
    && Orderly(w, r.o.st) && Kept(w.files, st, r.o.st) && r.o.a.Null? && catal < |r.o.st.entries|
    && (r.stuck ==> r.o.st.entries[catal].depth > MAX_CATAL_DEPTH)
    && (!r.stuck && st.entries[catal].depth <= MAX_CATAL_DEPTH ==> r.o.st.entries[catal].depth <= MAX_CATAL_DEPTH)
    && (!r.stuck && endless ==> r.o.st.entries[catal].depth <= MAX_CATAL_DEPTH && SomeFull(w, r.o.st))
  }

  lemma {:induction false} NextSticks(w: World, st: State, catal: nat, todo: seq<nat>, pub: Option<string>, sys: Option<string>)
    requires Orderly(w, st) && AllBelow(todo, |st.entries|) && catal < |st.entries| && Asks(pub, sys) && Quiet(w, pub, sys)
    requires Silent(w, Templates(st.entries, todo), pub, sys)
    ensures Sticks(w, st, catal, TryNext(w.files, st, catal, todo, pub, sys),
                   ListEndless(w, Templates(st.entries, todo), pub, sys))
    decreases Measure(w.files, st), OptWeight(pub) + OptWeight(sys), 3, |todo|
  {
    hide AllOk, CopiesOk, Agreed, Bounded, Forward, Kept, ListEndless, FileEndless, TryChild, SomeFull, Quiet;
    hide OptWeight, Measure, Raised, Asks, Consulted;
    var list := Templates(st.entries, todo);
    KeptSelf(w.files, st);
    if ListEndless(w, list, pub, sys) { EndlessSplit(w, list, pub, sys); }
    if todo != [] {
      var rest := todo[1..];
      assert Templates(st.entries, rest) == list[1..];
      if !list[0].kind.NextCatalog? {
        NextSticks(w, st, catal, rest, pub, sys);
      } else {
        ChildSticks(w, st, todo[0], pub, sys);
        var o := TryChild(w.files, st, todo[0], pub, sys);
        if !(o.st.entries[todo[0]].children.Some? && o.st.entries[catal].depth > MAX_CATAL_DEPTH) {
          SilentAfter(w, st, o.st, rest, pub, sys);
          NextSticks(w, o.st, catal, rest, pub, sys);
          NextSticksThen(w, st, catal, o, TryNext(w.files, o.st, catal, rest, pub, sys),
                         ListEndless(w, list, pub, sys), ListEndless(w, Templates(o.st.entries, rest), pub, sys), todo[0]);
        }
      }
    }
  }

  lemma SilentAfter(w: World, a: State, b: State, ids: seq<nat>, pub: Option<string>, sys: Option<string>)
    requires Orderly(w, a) && Orderly(w, b) && Kept(w.files, a, b) && AllBelow(ids, |a.entries|)
    requires Silent(w, Templates(a.entries, ids), pub, sys)
    ensures AllBelow(ids, |b.entries|) && Silent(w, Templates(b.entries, ids), pub, sys)
    ensures ListEndless(w, Templates(a.entries, ids), pub, sys) ==> ListEndless(w, Templates(b.entries, ids), pub, sys)
  {
    hide AllOk, CopiesOk, Agreed, Bounded, Forward, ListEndless;
    var x, y := Templates(a.entries, ids), Templates(b.entries, ids);
    KeptTemplates(w.files, a.entries, b.entries, ids);
    if ListEndless(w, x, pub, sys) { EndlessWeathered(w, x, y, pub, sys); }
    forall k | 0 <= k < |y| ensures Consulted(y[k], pub, sys) <==> y[k].kind.NextCatalog? {
      assert Weathers(w.files, x[k], y[k]);
    }
  }

  /** One child in vain, then the rest. */
  lemma NextSticksThen(w: World, st: State, catal: nat, o: Outcome, r: Tried, endless: bool, restEndless: bool, x: nat)
    requires Orderly(w, st) && catal < |st.entries| && x < |st.entries|
    requires Orderly(w, o.st) && Kept(w.files, st, o.st) && catal < |o.st.entries| && x < |o.st.entries|
    requires Valid(w.files, o.st) && Progress(w.files, o.st, r.o)
    requires Sticks(w, o.st, catal, r, restEndless)
    requires st.entries[catal].depth <= MAX_CATAL_DEPTH ==>
               o.st.entries[catal].depth <= MAX_CATAL_DEPTH || o.st.entries[x].children.Some?
    requires !(o.st.entries[x].children.Some? && o.st.entries[catal].depth > MAX_CATAL_DEPTH)
    requires endless ==> restEndless || (o.st.entries[x].children.Some? && SomeFull(w, o.st))
    ensures Sticks(w, st, catal, r.(o := r.o.(hit := o.hit || r.o.hit)), endless)
  {
    hide AllOk, CopiesOk, Agreed, Bounded, Forward, Kept, SomeFull, Raised, Measure;
    KeptTrans(w.files, st, o.st, r.o.st);
    if SomeFull(w, o.st) { FullKept(w, o.st, r.o.st, !r.o.hit); }
  }

  /** A child whose file has an endless list leaves a counter at the limit; one without
      children leaves all counters alone. */
  lemma {:induction false} ChildSticks(w: World, st: State, x: nat, pub: Option<string>, sys: Option<string>)
    requires Orderly(w, st) && x < |st.entries| && IsReference(st.entries[x].t.kind) && Asks(pub, sys) && Quiet(w, pub, sys)
    ensures var o, g := TryChild(w.files, st, x, pub, sys), Target(w.files, st.entries[x].t.url);
            && Orderly(w, o.st) && Kept(w.files, st, o.st) && o.a.Null? && |st.entries| <= |o.st.entries|
            && (o.st.entries[x].children.None? ==> !o.hit)
            && (g.Some? && FileEndless(w, g.value, pub, sys) ==> o.st.entries[x].children.Some? && SomeFull(w, o.st))
    decreases Measure(w.files, st), OptWeight(pub) + OptWeight(sys), 2, 0
  {
    hide AllOk, CopiesOk, Agreed, Bounded, Forward, Kept, TryChild, Resolve, Followed, Start, FileEndless, ListEndless;
    hide OptWeight, Measure, Raised, Asks, Weathered, SomeFull, Grows, QuietList;
    ChildKeeps(w, st, x, pub, sys);
    ChildResolves(w, st, x, pub, sys);
    var g, t := Target(w.files, st.entries[x].t.url), Followed(w, st, x);
    if g.Some? {
      CopyAt(w, t, g.value);
      if FileEndless(w, g.value, pub, sys) { EndlessFile(w, g.value, pub, sys); }
      if Start(w, t, g.value).Some? {
        var h := Start(w, t, g.value).value;
        var o := Resolve(w.files, t, h, pub, sys);
        QuietWeathered(w.files, ListOf(w, g.value), ListFrom(t.entries, Some(h)), pub, sys);
        ResolveSticks(w, t, h, pub, sys);
        ChildrenKept(w, t, o.st, x);
        if FileEndless(w, g.value, pub, sys) {
          EndlessWeathered(w, ListOf(w, g.value), ListFrom(t.entries, Some(h)), pub, sys);
          StartKept(w, t, o.st, g.value);
          FullHere(w, o.st, g.value);
        }
      }
    }
  }

  lemma FullHere(w: World, st: State, f: nat)
    requires Orderly(w, st) && f < |w.files|
    ensures FullFile(w, st, f) ==> SomeFull(w, st)
  {
  }

  lemma FullIsNotLow(w: World, st: State, catal: nat)
    requires Orderly(w, st) && catal < |st.entries| && (SomeFull(w, st) || st.entries[catal].depth > MAX_CATAL_DEPTH)
    ensures !AllLow(st.entries)
  {
  }

  /** For identifiers nobody answers, the exact condition: the exit of the recursion limit
      is not taken, and every counter is put back, if and only if the references
      consulted do not run in a circle. */
  lemma RestoredIffNoCircle(w: World, st: State, catal: nat, pub: Option<string>, sys: Option<string>)
    requires Orderly(w, st) && AllLow(st.entries) && catal < |st.entries| && Asks(pub, sys)
    requires Quiet(w, pub, sys) && QuietList(ListFrom(st.entries, Some(catal)), pub, sys)
    ensures var o := Resolve(w.files, st, catal, pub, sys);
            && (!o.hit <==> exists n: nat :: ListWithin(w, ListFrom(st.entries, Some(catal)), n, pub, sys))
            && (!o.hit <==> Extends(st.entries, o.st.entries, true))
            && (o.hit <==> Raised(st.entries, o.st.entries))
  {
    hide AllOk, CopiesOk, Agreed, Bounded, Forward, ListWithin, Resolve, AskList, Quiet, QuietList, Kept, Start, Measure;
    var list, o := ListFrom(st.entries, Some(catal)), Resolve(w.files, st, catal, pub, sys);
    if Extends(st.entries, o.st.entries, true) { ExactIsNotRaised(st.entries, o.st.entries); }
    if n: nat :| ListWithin(w, list, n, pub, sys) {
      ResolveIsSpecified(w, st, catal, n, pub, sys);
    } else {
      assert ListEndless(w, list, pub, sys);
      ResolveSticks(w, st, catal, pub, sys);
      FullIsNotLow(w, o.st, catal);
      LowRestored(st.entries, o.st.entries);
    }
  }

  // ---- the smallest circle ----

  lemma {:induction false} SelfNeverEnds(w: World, f: nat, k: nat, n: nat, pub: Option<string>, sys: Option<string>)
    requires Readable(w, f) && k < |ListOf(w, f)|
    requires ListOf(w, f)[k].kind.NextCatalog? && Target(w.files, ListOf(w, f)[k].url) == Some(f)
    ensures !FileWithin(w, f, n, pub, sys)
  {
    if FileWithin(w, f, n, pub, sys) {
      assert Consulted(ListOf(w, f)[k], pub, sys);
      SelfNeverEnds(w, f, k, n - 1, pub, sys);
    }
  }

  /** A single catalog file that names itself as its next catalog: one identifier nobody
      answers leaves its counter at the limit, and from then on it answers nothing. */
  lemma SelfReferenceSilences(w: World, st: State, x: nat, k: nat, pub: Option<string>, sys: Option<string>,
                              p: Option<string>, s: Option<string>)
    requires Orderly(w, st) && AllLow(st.entries) && |w.files| == 1 && Readable(w, 0)
    requires x < |st.entries| && st.entries[x].t.kind.CatalogKind? && Target(w.files, st.entries[x].t.url) == Some(0)
    requires st.entries[x].children.None?
    requires k < |ListOf(w, 0)| && ListOf(w, 0)[k].kind.NextCatalog? && Target(w.files, ListOf(w, 0)[k].url) == Some(0)
    requires Asks(pub, sys) && Quiet(w, pub, sys)
    ensures var o := Walk(w.files, st, [x], pub, sys);
            && o.hit && o.a.Null? && Orderly(w, o.st) && o.st.cache[0].Some? && Start(w, o.st, 0).Some?
            && o.st.entries[Start(w, o.st, 0).value].depth == MAX_CATAL_DEPTH + 1
            && x < |o.st.entries| && Walk(w.files, o.st, [x], p, s).a.Null?
  {
    hide AllOk, CopiesOk, Agreed, Forward, ListWithin, FileWithin, Weathered, Resolve, Fetch, Kept, Likewise, Judge;
    hide Measure, Raised, RootList, Walk, Extends, Start;
    FetchFacts(w.files, st, x);
    FetchRoot(w, st, x);
    var t := Fetch(w.files, st, x);
    LowRestored(st.entries, t.entries);
    StartIsChildren(w, t, 0);
    var h := Start(w, t, 0).value;
    SelfSticks(w, t, h, k, pub, sys);
    var o := Resolve(w.files, t, h, pub, sys);
    StartKept(w, t, o.st, 0);
    ChildrenKept(w, t, o.st, x);
    WalkFetched(w.files, st, x, pub, sys);
    FullRefuses(w, o.st, x, h, p, s);
  }

  lemma StartIsChildren(w: World, st: State, f: nat)
    requires Orderly(w, st) && f < |w.files| && st.cache[f].Some?
    ensures Start(w, st, f) == st.entries[st.cache[f].value].children
  {
  }

  lemma SelfSticks(w: World, st: State, h: nat, k: nat, pub: Option<string>, sys: Option<string>)
    requires Orderly(w, st) && AllLow(st.entries) && |w.files| == 1 && Readable(w, 0) && st.cache[0].Some?
    requires Start(w, st, 0) == Some(h) && Asks(pub, sys) && Quiet(w, pub, sys)
    requires k < |ListOf(w, 0)| && ListOf(w, 0)[k].kind.NextCatalog? && Target(w.files, ListOf(w, 0)[k].url) == Some(0)
    ensures var o := Resolve(w.files, st, h, pub, sys);
            && o.hit && o.a.Null? && Orderly(w, o.st) && Kept(w.files, st, o.st) && h < |o.st.entries|
            && o.st.entries[h].depth == MAX_CATAL_DEPTH + 1
  {
    hide AllOk, CopiesOk, Agreed, Forward, ListWithin, FileWithin, Weathered, Resolve, Kept, Judge, Measure, Raised, Start;
    assert FileEndless(w, 0, pub, sys) by {
      forall n: nat ensures !FileWithin(w, 0, n, pub, sys) { SelfNeverEnds(w, 0, k, n, pub, sys); }
    }
    EndlessFile(w, 0, pub, sys);
    var list := ListFrom(st.entries, Some(h));
    EndlessWeathered(w, ListOf(w, 0), list, pub, sys);
    QuietWeathered(w.files, ListOf(w, 0), list, pub, sys);
    ResolveSticks(w, st, h, pub, sys);
    var o := Resolve(w.files, st, h, pub, sys);
    StartKept(w, st, o.st, 0);
    FullIsNotLow(w, o.st, h);
    LowRestored(st.entries, o.st.entries);
  }

  lemma WalkFetched(files: seq<File>, st: State, x: nat, pub: Option<string>, sys: Option<string>)
    requires Valid(files, st) && x < |st.entries| && st.entries[x].t.kind.CatalogKind? && st.entries[x].children.None?
    requires var t := Fetch(files, st, x); Valid(files, t) && x < |t.entries| && t.entries[x].children.Some?
    requires var t := Fetch(files, st, x); t.entries[x].children.value < |t.entries|
    ensures var t := Fetch(files, st, x);
            Walk(files, st, [x], pub, sys) == Resolve(files, t, t.entries[x].children.value, pub, sys)
  {
    hide Resolve, Fetch, Extends, Raised, Measure, Forward, Bounded;
    assert [x][1..] == [];
    var t := Fetch(files, st, x);
    var o := Resolve(files, t, t.entries[x].children.value, pub, sys);
    assert Walk(files, o.st, [], pub, sys) == Outcome(o.st, Null, false);
  }

  lemma FullRefuses(w: World, st: State, x: nat, h: nat, p: Option<string>, s: Option<string>)
    requires Orderly(w, st) && x < |st.entries| && h < |st.entries| && st.entries[x].children == Some(h)
    requires st.entries[h].depth > MAX_CATAL_DEPTH
    ensures Walk(w.files, st, [x], p, s).a.Null?
  {
    hide AllOk, CopiesOk, Agreed, Bounded, Extends, Raised, Measure, Fetch;
    assert [x][1..] == [];
    assert Walk(w.files, st, [], p, s) == Outcome(st, Null, false);
    assert Resolve(w.files, st, h, p, s) == Outcome(st, Null, false);
  }

  /** One file with an answer for "x" that also names itself as its next catalog. */
  const CIRCLE := World([File("u", Some([Raw(System, Some("x"), Some("v"), Some("v"), None),
                                         Raw(NextCatalog, None, Some("u"), Some("u"), None)]))], [false])

  const UNREAD := State([CEntry(Template(CatalogKind, None, Some("u"), Some("u"), false), None, None, 0)], [None])

  lemma CircleIsOrderly()
    ensures Orderly(CIRCLE, UNREAD) && AllLow(UNREAD.entries) && Readable(CIRCLE, 0) && |CIRCLE.files| == 1
    ensures Target(CIRCLE.files, Some("u")) == Some(0)
    ensures ListOf(CIRCLE, 0) == [Template(System, Some("x"), Some("v"), Some("v"), false),
                                  Template(NextCatalog, None, Some("u"), Some("u"), false)]
    ensures Indices(UNREAD.entries, Some(0)) == [0]
  {
    assert FindFile(CIRCLE.files, "u") == Some(0);
    assert PointsWell(UNREAD.entries[0], 0, 1);
    assert forall f: nat :: Readable(CIRCLE, f) ==> f == 0;
    assert FindFile(CIRCLE.files, "v").None?;
  }

  lemma CircleAnswers(list: seq<Template>)
    requires Weathered(CIRCLE.files, ListOf(CIRCLE, 0), list)
    ensures Judge(list, None, Some("x")) == Answered(Found("v"))
    ensures QuietList(ListOf(CIRCLE, 0), None, Some("y"))
  {
    CircleIsOrderly();
    var all := ListOf(CIRCLE, 0);
    SystemWeathered(CIRCLE.files, all, list, "x", None);
    assert SystemAnswer(all, "x", None) == Some(Found("v"));
    assert all[1..] == [all[1]] && all[1..][1..] == [];
    assert SystemAnswer([], "y", None) == None && !AnyDelegate([], None, Some("y"));
    assert SystemAnswer(all[1..], "y", None) == None && !AnyDelegate(all[1..], None, Some("y")) && AnyNext(all[1..]);
    assert SystemAnswer(all, "y", None) == None && !AnyDelegate(all, None, Some("y")) && AnyNext(all);
  }

  /** Before "y" is asked for, "x" is found; afterwards it is not. */
  lemma CircleLosesAnswers()
    ensures Valid(CIRCLE.files, UNREAD)
    ensures ResolveList(CIRCLE.files, UNREAD, Some(0), None, Some("x")).a == Found("v")
    ensures var o := ResolveList(CIRCLE.files, UNREAD, Some(0), None, Some("y"));
            && o.hit && 0 < |o.st.entries| && Valid(CIRCLE.files, o.st)
            && ResolveList(CIRCLE.files, o.st, Some(0), None, Some("x")).a == Null
  {
    hide AllOk, CopiesOk, Agreed, Forward, ListWithin, FileWithin, Weathered, Resolve, Fetch, Kept, Likewise, Judge, QuietList;
    hide Measure, Raised, RootList, Walk, Extends, Start, ResolveList, Indices, ListOf, FindFile;
    CircleIsOrderly();
    var files := CIRCLE.files;
    var all := ListOf(CIRCLE, 0);
    WeatheredSelf(files, all);
    CircleAnswers(all);
    assert Identify(None, Some("y")) == Some((None, Some("y"))) && Identify(None, Some("x")) == Some((None, Some("x")));
    ResolveListWalks(files, UNREAD, 0, None, Some("y"));
    ResolveListWalks(files, UNREAD, 0, None, Some("x"));
    assert Quiet(CIRCLE, None, Some("y")) by {
      forall f: nat | Readable(CIRCLE, f) ensures QuietList(ListOf(CIRCLE, f), None, Some("y")) { assert f == 0; }
    }
    SelfReferenceSilences(CIRCLE, UNREAD, 0, 1, None, Some("y"), None, Some("x"));
    CircleFirst();
    var o := Walk(files, UNREAD, [0], None, Some("y"));
    ResolveListWalks(files, o.st, 0, None, Some("x"));
    SameIndices(UNREAD.entries, o.st.entries, Some(0), !o.hit);
  }

  lemma WeatheredSelf(files: seq<File>, a: seq<Template>)
    ensures Weathered(files, a, a)
  {
  }

  lemma CircleFirst()
    ensures Valid(CIRCLE.files, UNREAD) && Walk(CIRCLE.files, UNREAD, [0], None, Some("x")).a == Found("v")
  {
    hide AllOk, CopiesOk, Agreed, Forward, Weathered, Fetch, Kept, Likewise, Judge, QuietList;
    hide Measure, Raised, Walk, Start, ListOf, FindFile, Indices;
    CircleIsOrderly();
    FetchFacts(CIRCLE.files, UNREAD, 0);
    FetchRoot(CIRCLE, UNREAD, 0);
    var t := Fetch(CIRCLE.files, UNREAD, 0);
    LowRestored(UNREAD.entries, t.entries);
    StartIsChildren(CIRCLE, t, 0);
    var h := Start(CIRCLE, t, 0).value;
    CircleAnswers(ListFrom(t.entries, Some(h)));
    WalkFetched(CIRCLE.files, UNREAD, 0, None, Some("x"));
    assert Resolve(CIRCLE.files, t, h, None, Some("x")).a == Found("v");
  }

  // ---- asking twice ----

  /** A delegate whose file is missing, and nothing else. */
  const UNREADABLE :=
    State([CEntry(Template(DelegateSystem, Some("a"), Some("m"), Some("m"), false), None, None, 0)], [])

  lemma MissingDelegateCuts()
    ensures Valid([], UNREADABLE)
    ensures Resolve([], UNREADABLE, 0, None, Some("ab")) == Outcome(MarkBroken(UNREADABLE, 0), Break, false)
  {
    hide Progress, Measure;
    var t := UNREADABLE.entries[0].t;
    assert PointsWell(UNREADABLE.entries[0], 0, 1);
    assert Indices(UNREADABLE.entries, Some(0)) == [0] && ListFrom(UNREADABLE.entries, Some(0)) == [t];
    assert [t][1..] == [] && [0][1..] == [] && HasPrefix("ab", "a");
    assert Judge([t], None, Some("ab")) == Cut(None, Some("ab"));
    EnterFacts([], UNREADABLE, 0);
    var s := Enter(UNREADABLE, 0);
    MarkBrokenFacts([], s, 0);
    var b := MarkBroken(s, 0);
    assert TryChild([], s, 0, None, Some("ab")) == Outcome(b, Null, false);
    assert TryDelegates([], b, [], [t.url], None, Some("ab")) == Outcome(b, Null, false);
    assert TryDelegates([], s, [0], [], None, Some("ab")) == Outcome(b, Null, false);
    assert Leave(b, 0) == MarkBroken(UNREADABLE, 0);
  }

  lemma BrokenDelegatePasses()
    ensures var st := MarkBroken(UNREADABLE, 0); Valid([], st) && Resolve([], st, 0, None, Some("ab")).a == Null
  {
    hide Progress, Measure;
    var st := MarkBroken(UNREADABLE, 0);
    var t := st.entries[0].t;
    assert PointsWell(st.entries[0], 0, 1);
    assert Indices(st.entries, Some(0)) == [0] && ListFrom(st.entries, Some(0)) == [t];
    assert [t][1..] == [] && t.kind == Broken;
    assert SystemAnswer([], "ab", None) == None && !AnyDelegate([], None, Some("ab")) && !AnyNext([]);
    assert SystemAnswer([t], "ab", None) == None && !AnyDelegate([t], None, Some("ab")) && !AnyNext([t]);
    assert Judge([t], None, Some("ab")) == Nothing;
  }

  /** Delegates must be readable for an answer to depend on the files alone: the first time
      the search ends here, the second time the entry is broken and the search goes on. */
  lemma MissingDelegateIsForgotten()
    ensures Valid([], UNREADABLE)
    ensures var o := Resolve([], UNREADABLE, 0, None, Some("ab"));
            && o.a == Break && Valid([], o.st) && 0 < |o.st.entries| && Resolve([], o.st, 0, None, Some("ab")).a == Null
  {
    hide Resolve, Valid, MarkBroken;
    MissingDelegateCuts();
    BrokenDelegatePasses();
  }
}
