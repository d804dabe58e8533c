/**
 Catalogs in place: one arena whose counters, children and kinds are updated while lists
 are walked by their links. Every method is proved to compute the function of the same
 name in CatalogResolve; the result hit is that function's.
 */
module CatalogImpl {
  import opened Common
  import opened CatalogNames
  import opened CatalogLists
  import R = CatalogResolve

  lemma ListStep(entries: seq<R.CEntry>, i: nat)
    requires R.Forward(entries) && i < |entries|
    ensures R.PointsWell(entries[i], i, |entries|)
    ensures R.Indices(entries, Some(i)) == [i] + R.Indices(entries, entries[i].next)
    ensures R.ListFrom(entries, Some(i)) == [entries[i].t] + R.ListFrom(entries, entries[i].next)
    ensures R.Indices(entries, None) == [] && R.ListFrom(entries, None) == []
  {
  }

  lemma JudgeStep(t: Template, rest: seq<Template>, sys: string, best: Option<Template>, pub: string)
    requires best.Some? ==> HasPrefix(sys, Name(best.value))
    ensures var list := [t] + rest;
            && SystemAnswer(list, sys, best)
               == (if SystemHit(t, sys) then Some(AnswerOf(t.url)) else SystemAnswer(rest, sys, Better(best, t, sys)))
            && PublicAnswer(list, pub)
               == (if t.kind.Public? && t.name == Some(pub) then Some(AnswerOf(t.url)) else PublicAnswer(rest, pub))
            && AnyNext(list) == (t.kind.NextCatalog? || AnyNext(rest))
            && AnyDelegate(list, None, Some(sys)) == (Delegates(t, None, Some(sys)) || AnyDelegate(rest, None, Some(sys)))
            && AnyDelegate(list, Some(pub), None) == (Delegates(t, Some(pub), None) || AnyDelegate(rest, Some(pub), None))
  {
    assert ([t] + rest)[1..] == rest;
  }

  lemma ListEnd(entries: seq<R.CEntry>, sys: string, best: Option<Template>, pub: string)
    requires R.Forward(entries) && (best.Some? ==> HasPrefix(sys, Name(best.value)))
    ensures var list := R.ListFrom(entries, None);
            && SystemAnswer(list, sys, best) == (if best.Some? then Some(Rewritten(best.value, sys)) else None)
            && PublicAnswer(list, pub) == None && !AnyNext(list)
            && !AnyDelegate(list, None, Some(sys)) && !AnyDelegate(list, Some(pub), None)
  {
  }

  lemma CutIsLighter(list: seq<Template>, pub: Option<string>, sys: Option<string>)
    requires Judge(list, pub, sys).Cut?
    ensures var v := Judge(list, pub, sys); OptWeight(v.pub) + OptWeight(v.sys) <= OptWeight(pub) + OptWeight(sys)
  {
  }

  lemma LinkKept(a: seq<R.CEntry>, b: seq<R.CEntry>, i: nat, exact: bool)
    requires R.Extends(a, b, exact) && i < |a|
    ensures i < |b| && b[i].next == a[i].next && (a[i].children.Some? ==> b[i].children == a[i].children)
  {
    assert R.Grows(a[i], b[i], exact);
  }

  lemma DelegatesStep(files: seq<File>, st: R.State, todo: seq<nat>, tried: seq<Option<string>>,
                      pub: Option<string>, sys: Option<string>)
    requires R.Valid(files, st) && R.AllBelow(todo, |st.entries|)
    ensures R.TryDelegates(files, st, [], tried, pub, sys) == R.Outcome(st, Null, false)
    ensures todo != [] ==>
              var t, whole := st.entries[todo[0]].t, R.TryDelegates(files, st, todo, tried, pub, sys);
              if !Delegates(t, pub, sys) || t.url in tried then
                whole == R.TryDelegates(files, st, todo[1..], tried, pub, sys)
              else
                var o := R.TryChild(files, st, todo[0], pub, sys);
                if !o.a.Null? then whole == o
                else
                  var more := if |tried| < R.MAX_DELEGATE then tried + [t.url] else tried;
                  && |st.entries| <= |o.st.entries|
                  && var p := R.TryDelegates(files, o.st, todo[1..], more, pub, sys);
                     whole == p.(hit := o.hit || p.hit)
  {
    hide Delegates, R.TryChild, R.Measure, R.Bounded, R.Raised, R.Forward, R.Grows;
  }

  lemma NextStep(files: seq<File>, st: R.State, catal: nat, todo: seq<nat>, pub: Option<string>, sys: Option<string>)
    requires R.Valid(files, st) && R.AllBelow(todo, |st.entries|) && catal < |st.entries|
    ensures R.TryNext(files, st, catal, [], pub, sys) == R.Tried(R.Outcome(st, Null, false), false)
    ensures todo != [] ==>
              var whole := R.TryNext(files, st, catal, todo, pub, sys);
              if !st.entries[todo[0]].t.kind.NextCatalog? then whole == R.TryNext(files, st, catal, todo[1..], pub, sys)
              else
                var o := R.TryChild(files, st, todo[0], pub, sys);
                && |st.entries| <= |o.st.entries|
                && if !o.a.Null? then whole == R.Tried(o, false)
                   else if o.st.entries[todo[0]].children.Some? && o.st.entries[catal].depth > R.MAX_CATAL_DEPTH
                   then whole == R.Tried(o, true)
                   else
                     var n := R.TryNext(files, o.st, catal, todo[1..], pub, sys);
                     whole == n.(o := n.o.(hit := o.hit || n.o.hit))
  {
    hide R.TryChild, R.Measure, R.Bounded, R.Raised, R.Forward, R.Grows;
  }

  datatype One = One(o: R.Outcome, stop: bool)

  /** What the walk does with one catalog. */
  ghost function WalkedOne(files: seq<File>, st: R.State, x: nat, pub: Option<string>, sys: Option<string>): (r: One)
    requires R.Valid(files, st) && x < |st.entries|
    ensures R.Progress(files, st, r.o)
  {
    R.ProgressSelf(files, st, Null);
    if !st.entries[x].t.kind.CatalogKind? then One(R.Outcome(st, Null, false), false)
    else
      R.FetchFacts(files, st, x);
      R.ExtendsSelf(st.entries, true);
      var s := if st.entries[x].children.None? then R.Fetch(files, st, x) else st;
      assert R.PointsWell(s.entries[x], x, |s.entries|);
      if s.entries[x].children.None? then One(R.Outcome(s, Null, false), false)
      else
        var o := R.Resolve(files, s, s.entries[x].children.value, pub, sys);
        R.ProgressTrans(files, st, R.Outcome(s, Null, false), o);
        One(o, !o.a.Null? || R.TooDeep(o.st.entries, x))
  }

  lemma WalkStep(files: seq<File>, st: R.State, todo: seq<nat>, pub: Option<string>, sys: Option<string>)
    requires R.Valid(files, st) && R.AllBelow(todo, |st.entries|) && todo != []
    ensures var one, whole := WalkedOne(files, st, todo[0], pub, sys), R.Walk(files, st, todo, pub, sys);
            && |st.entries| <= |one.o.st.entries|
            && if one.stop then whole == one.o
               else
                 var rest := R.Walk(files, one.o.st, todo[1..], pub, sys);
                 one.o.a.Null? && whole == rest.(hit := one.o.hit || rest.hit)
  {
    hide R.Fetch, R.Resolve, R.Measure, R.Bounded, R.Raised, R.Forward, R.Grows, R.TooDeep;
  }

  lemma WalkEnd(files: seq<File>, st: R.State, pub: Option<string>, sys: Option<string>)
    requires R.Valid(files, st)
    ensures R.Walk(files, st, [], pub, sys) == R.Outcome(st, Null, false) && R.Indices(st.entries, None) == []
  {
    hide R.Measure, R.Extends, R.Bounded;
  }

  class Catalogs {
    const files: seq<File>
    var entries: seq<R.CEntry>
    var cache: seq<Option<nat>>

    ghost function View(): R.State
      reads this
    {
      R.State(entries, cache)
    }

    ghost predicate Valid()
      reads this
    {
      R.Valid(files, View())
    }

    constructor (files: seq<File>, entries: seq<R.CEntry>)
      requires R.Bounded(entries) && R.Forward(entries)
      ensures Valid() && this.files == files && this.entries == entries && forall f :: 0 <= f < |cache| ==> cache[f].None?
    {
      this.files, this.entries := files, entries;
      this.cache := seq(|files|, _ => None);
    }

    /** xmlFetchXMLCatalogFile. */
    method Fetch(x: nat)
      requires Valid() && x < |entries|
      modifies this`entries, this`cache
      ensures Valid() && View() == R.Fetch(files, old(View()), x)
      ensures R.Measure(files, View()) == R.Measure(files, old(View())) && R.Extends(old(entries), entries, true)
    {
      hide R.Measure, R.Forward, R.Bounded;
      R.FetchFacts(files, View(), x);
      var e := entries[x];
      if e.t.url.None? || e.children.Some? { return; }
      var f := FindFile(files, e.t.url.value);
      var doc := |entries|;
      if f.Some? && cache[f.value].Some? {
        doc := cache[f.value].value;
      } else if f.None? || files[f.value].content.None? {
        entries := entries[x := e.(t := e.t.(kind := Broken))];
        return;
      } else {
        var list := ReadEntries(files[f.value].content.value, e.t.preferPublic);
        entries := entries + R.FreshCatalog(files[f.value].url, list, doc, e.t.preferPublic);
        cache := cache[f.value := Some(doc)];
      }
      var kids := if e.t.kind.CatalogKind? then entries[doc].children else Some(doc);
      entries := entries[x := e.(children := kids)];
    }

    /** The first loop of xmlCatalogXMLResolve. */
    method ScanSystem(catal: nat, sys: string)
      returns (answer: Option<Answer>, haveDelegate: bool, haveNext: bool)
      requires Valid() && catal < |entries|
      ensures var list := R.ListFrom(entries, Some(catal));
              && answer == SystemAnswer(list, sys, None)
              && (answer.None? ==> haveDelegate == AnyDelegate(list, None, Some(sys)) && haveNext == AnyNext(list))
    {
      hide SystemAnswer, AnyDelegate, AnyNext, Delegates, R.ListFrom, R.Bounded;
      ghost var list := R.ListFrom(entries, Some(catal));
      var rewrite: Option<Template> := None;
      haveDelegate, haveNext := false, false;
      var cur: Option<nat> := Some(catal);
      while cur.Some?
        invariant cur.Some? ==> cur.value < |entries|
        invariant rewrite.Some? ==> HasPrefix(sys, Name(rewrite.value))
        invariant SystemAnswer(list, sys, None) == SystemAnswer(R.ListFrom(entries, cur), sys, rewrite)
        invariant AnyDelegate(list, None, Some(sys)) == (haveDelegate || AnyDelegate(R.ListFrom(entries, cur), None, Some(sys)))
        invariant AnyNext(list) == (haveNext || AnyNext(R.ListFrom(entries, cur)))
        decreases if cur.Some? then |entries| - cur.value else 0
      {
        var t := entries[cur.value].t;
        ListStep(entries, cur.value);
        JudgeStep(t, R.ListFrom(entries, entries[cur.value].next), sys, rewrite, "");
        if SystemHit(t, sys) { return Some(AnswerOf(t.url)), haveDelegate, haveNext; }
        rewrite := Better(rewrite, t, sys);
        if Delegates(t, None, Some(sys)) { haveDelegate := true; }
        if t.kind.NextCatalog? { haveNext := true; }
        cur := entries[cur.value].next;
      }
      answer := if rewrite.Some? then Some(Rewritten(rewrite.value, sys)) else None;
      ListEnd(entries, sys, rewrite, "");
    }

    /** The second loop, over public identifiers. */
    method ScanPublic(catal: nat, pub: string)
      returns (answer: Option<Answer>, haveDelegate: bool, haveNext: bool)
      requires Valid() && catal < |entries|
      ensures var list := R.ListFrom(entries, Some(catal));
              && answer == PublicAnswer(list, pub)
              && (answer.None? ==> haveDelegate == AnyDelegate(list, Some(pub), None) && haveNext == AnyNext(list))
    {
      hide PublicAnswer, AnyDelegate, AnyNext, Delegates, R.ListFrom, R.Bounded;
      ghost var list := R.ListFrom(entries, Some(catal));
      haveDelegate, haveNext := false, false;
      var cur: Option<nat> := Some(catal);
      while cur.Some?
        invariant cur.Some? ==> cur.value < |entries|
        invariant PublicAnswer(list, pub) == PublicAnswer(R.ListFrom(entries, cur), pub)
        invariant AnyDelegate(list, Some(pub), None) == (haveDelegate || AnyDelegate(R.ListFrom(entries, cur), Some(pub), None))
        invariant AnyNext(list) == (haveNext || AnyNext(R.ListFrom(entries, cur)))
        decreases if cur.Some? then |entries| - cur.value else 0
      {
        var t := entries[cur.value].t;
        ListStep(entries, cur.value);
        JudgeStep(t, R.ListFrom(entries, entries[cur.value].next), "", None, pub);
        if t.kind.Public? && t.name == Some(pub) { return Some(AnswerOf(t.url)), haveDelegate, haveNext; }
        if Delegates(t, Some(pub), None) { haveDelegate := true; }
        if t.kind.NextCatalog? { haveNext := true; }
        cur := entries[cur.value].next;
      }
      answer := None;
      ListEnd(entries, "", None, pub);
    }

    /** Both scans together: what the list does with its identifiers. */
    method Scan(catal: nat, pub: Option<string>, sys: Option<string>) returns (v: Verdict)
      requires Valid() && catal < |entries|
      ensures v == Judge(R.ListFrom(entries, Some(catal)), pub, sys)
    {
      hide SystemAnswer, PublicAnswer, AnyDelegate, AnyNext, R.ListFrom, R.Bounded;
      var haveNext := false;
      if sys.Some? {
        var answer, haveDelegate, next := ScanSystem(catal, sys.value);
        haveNext := next;
        if answer.Some? { return Answered(answer.value); }
        if haveDelegate { return Cut(None, sys); }
      }
      if pub.Some? {
        var answer, haveDelegate, next := ScanPublic(catal, pub.value);
        if sys.None? { haveNext := next; }
        if answer.Some? { return Answered(answer.value); }
        if haveDelegate { return Cut(pub, None); }
      }
      v := if haveNext then PassedOn else Nothing;
    }

    /** xmlCatalogXMLResolve. */
    method Resolve(catal: nat, pub: Option<string>, sys: Option<string>) returns (r: Answer, ghost hit: bool)
      requires Valid() && catal < |entries|
      modifies this`entries, this`cache
      ensures R.Outcome(View(), r, hit) == R.Resolve(files, old(View()), catal, pub, sys)
      ensures Valid() && R.Measure(files, View()) <= R.Measure(files, old(View()))
      decreases R.Measure(files, View()), OptWeight(pub) + OptWeight(sys), 0, 0
    {
      hide Judge, R.ListFrom, R.Indices, R.TryNext, R.TryDelegates, R.Measure, R.Forward, R.Bounded, R.Extends, R.Raised, OptWeight;
      ghost var st := View();
      if entries[catal].depth > R.MAX_CATAL_DEPTH { return Null, false; }
      R.EnterFacts(files, st, catal);
      entries := entries[catal := entries[catal].(depth := entries[catal].depth + 1)];
      R.EnterList(files, st, catal);
      var v := Scan(catal, pub, sys);
      hit := false;
      match v {
        case Answered(a) => r := a;
        case Nothing => r := Null;
        case Cut(p, s) =>
          CutIsLighter(R.ListFrom(st.entries, Some(catal)), pub, sys);
          r, hit := TryDelegates(catal, p, s);
          R.LeaveFacts(files, st, catal, R.Outcome(View(), r, hit));
          if r.Null? { r := Break; }
        case PassedOn =>
          var stuck;
          r, hit, stuck := TryNext(catal, pub, sys);
          if stuck { return Null, true; }
          R.LeaveFacts(files, st, catal, R.Outcome(View(), r, hit));
      }
      entries := entries[catal := entries[catal].(depth := entries[catal].depth - 1)];
    }

    /** The loop over delegate entries of one kind. */
    method TryDelegates(catal: nat, pub: Option<string>, sys: Option<string>) returns (r: Answer, ghost hit: bool)
      requires Valid() && catal < |entries|
      modifies this`entries, this`cache
      ensures R.Outcome(View(), r, hit)
              == R.TryDelegates(files, old(View()), R.Indices(old(entries), Some(catal)), [], pub, sys)
      ensures Valid() && R.Measure(files, View()) <= R.Measure(files, old(View()))
      decreases R.Measure(files, View()), OptWeight(pub) + OptWeight(sys), 3
    {
      hide Delegates, R.TryDelegates, R.TryChild, R.Measure, R.Bounded, R.Raised, OptWeight, R.Extends, R.Forward, R.Indices;
      ghost var todo := R.Indices(entries, Some(catal));
      ghost var goal := R.TryDelegates(files, View(), todo, [], pub, sys);
      var tried: seq<Option<string>> := [];
      var cur: Option<nat> := Some(catal);
      hit := false;
      while cur.Some?
        invariant Valid() && R.Measure(files, View()) <= R.Measure(files, old(View()))
        invariant (cur.Some? ==> cur.value < |entries|) && todo == R.Indices(entries, cur)
        invariant var o := R.TryDelegates(files, View(), todo, tried, pub, sys); goal == o.(hit := hit || o.hit)
        decreases |todo|
      {
        ListStep(entries, cur.value);
        DelegatesStep(files, View(), todo, tried, pub, sys);
        todo := todo[1..];
        assert todo == R.Indices(entries, entries[cur.value].next);
        var t := entries[cur.value].t;
        if Delegates(t, pub, sys) && t.url !in tried {
          ghost var before := entries;
          ghost var h;
          r, h := TryChild(cur.value, pub, sys);
          hit := hit || h;
          if !r.Null? { return; }
          if |tried| < R.MAX_DELEGATE { tried := tried + [t.url]; }
          R.SameIndices(before, entries, before[cur.value].next, !h);
          LinkKept(before, entries, cur.value, !h);
        }
        cur := entries[cur.value].next;
      }
      r := Null;
      DelegatesStep(files, View(), [], tried, pub, sys);
      WalkEnd(files, View(), pub, sys);
    }

    /** The loop over nextCatalog entries; stuck is the exit that keeps the counter. */
    method TryNext(catal: nat, pub: Option<string>, sys: Option<string>) returns (r: Answer, ghost hit: bool, stuck: bool)
      requires Valid() && catal < |entries|
      modifies this`entries, this`cache
      ensures R.Tried(R.Outcome(View(), r, hit), stuck)
              == R.TryNext(files, old(View()), catal, R.Indices(old(entries), Some(catal)), pub, sys)
      ensures Valid() && R.Measure(files, View()) <= R.Measure(files, old(View()))
      decreases R.Measure(files, View()), OptWeight(pub) + OptWeight(sys), 3
    {
      hide R.TryNext, R.TryChild, R.Measure, R.Bounded, R.Raised, OptWeight, R.Extends, R.Forward, R.Indices;
      ghost var todo := R.Indices(entries, Some(catal));
      ghost var goal := R.TryNext(files, View(), catal, todo, pub, sys);
      var cur: Option<nat> := Some(catal);
      hit, stuck := false, false;
      while cur.Some?
        invariant Valid() && R.Measure(files, View()) <= R.Measure(files, old(View())) && catal < |entries|
        invariant (cur.Some? ==> cur.value < |entries|) && todo == R.Indices(entries, cur)
        invariant var n := R.TryNext(files, View(), catal, todo, pub, sys); goal == n.(o := n.o.(hit := hit || n.o.hit))
        decreases |todo|
      {
        ListStep(entries, cur.value);
        NextStep(files, View(), catal, todo, pub, sys);
        todo := todo[1..];
        assert todo == R.Indices(entries, entries[cur.value].next);
        if entries[cur.value].t.kind.NextCatalog? {
          ghost var before, h := entries, false;
          r, h := TryChild(cur.value, pub, sys);
          hit := hit || h;
          if !r.Null? { return; }
          if entries[cur.value].children.Some? && entries[catal].depth > R.MAX_CATAL_DEPTH {
            stuck := true;
            return;
          }
          R.SameIndices(before, entries, before[cur.value].next, !h);
          LinkKept(before, entries, cur.value, !h);
        }
        cur := entries[cur.value].next;
      }
      r := Null;
      NextStep(files, View(), catal, [], pub, sys);
      WalkEnd(files, View(), pub, sys);
    }

    /** Load the catalog an entry refers to, if need be, and resolve in it. */
    method TryChild(x: nat, pub: Option<string>, sys: Option<string>) returns (r: Answer, ghost hit: bool)
      requires Valid() && x < |entries|
      modifies this`entries, this`cache
      ensures R.Outcome(View(), r, hit) == R.TryChild(files, old(View()), x, pub, sys)
      ensures Valid() && R.Measure(files, View()) <= R.Measure(files, old(View())) && R.Extends(old(entries), entries, !hit)
      decreases R.Measure(files, View()), OptWeight(pub) + OptWeight(sys), 2, 0
    {
      hide R.Fetch, R.ResolveList, R.Measure, R.Bounded, R.Raised, OptWeight;
      if entries[x].children.None? { Fetch(x); }
      r, hit := Null, false;
      ListStep(entries, x);
      if entries[x].children.Some? { r, hit := ResolveList(entries[x].children, pub, sys); }
    }

    /** xmlCatalogListXMLResolve. */
    method ResolveList(catal: Option<nat>, pub0: Option<string>, sys: Option<string>) returns (r: Answer, ghost hit: bool)
      requires Valid() && (catal.Some? ==> catal.value < |entries|)
      modifies this`entries, this`cache
      ensures R.Outcome(View(), r, hit) == R.ResolveList(files, old(View()), catal, pub0, sys)
      ensures Valid() && R.Measure(files, View()) <= R.Measure(files, old(View()))
      decreases R.Measure(files, View()), OptWeight(pub0) + OptWeight(sys), 1
    {
      hide R.Walk, R.Measure, R.Bounded, R.Forward, R.Raised, R.Extends, R.Indices, Weight, Normalize, Unwrap, HasPrefix;
      if catal.None? || (pub0.None? && sys.None?) { return Null, false; }
      var pub := NormalizePublic(pub0);
      NormalizePublicLighter(pub0);
      if IsURN(pub) {
        UnwrapURNLighter(pub.value);
        r, hit := ResolveList(catal, Some(UnwrapURN(pub.value)), sys);
      } else if IsURN(sys) {
        var urn := UnwrapURN(sys.value);
        UnwrapURNLighter(sys.value);
        if pub.None? {
          r, hit := ResolveList(catal, Some(urn), None);
        } else if pub == Some(urn) {
          r, hit := ResolveList(catal, pub, None);
        } else {
          r, hit := ResolveList(catal, pub, Some(urn));
        }
      } else {
        r, hit := Walk(catal.value, pub, sys);
      }
    }

    /** Its loop over the catalogs of a list. */
    method Walk(catal: nat, pub: Option<string>, sys: Option<string>) returns (r: Answer, ghost hit: bool)
      requires Valid() && catal < |entries|
      modifies this`entries, this`cache
      ensures R.Outcome(View(), r, hit) == R.Walk(files, old(View()), R.Indices(old(entries), Some(catal)), pub, sys)
      ensures Valid() && R.Measure(files, View()) <= R.Measure(files, old(View()))
      decreases R.Measure(files, View()), OptWeight(pub) + OptWeight(sys), 0, 2
    {
      hide R.Walk, R.Resolve, R.Measure, R.Bounded, R.Raised, OptWeight, R.Grows, R.Indices, R.TooDeep;
      ghost var todo := R.Indices(entries, Some(catal));
      ghost var goal := R.Walk(files, View(), todo, pub, sys);
      var cur: Option<nat> := Some(catal);
      hit := false;
      while cur.Some?
        invariant Valid() && R.Measure(files, View()) <= R.Measure(files, old(View()))
        invariant (cur.Some? ==> cur.value < |entries|) && todo == R.Indices(entries, cur)
        invariant var o := R.Walk(files, View(), todo, pub, sys); goal == o.(hit := hit || o.hit)
        decreases |todo|
      {
        ListStep(entries, cur.value);
        WalkStep(files, View(), todo, pub, sys);
        ghost var before := entries;
        var stop;
        ghost var h;
        r, h, stop := WalkOne(cur.value, pub, sys);
        hit := hit || h;
        R.SameIndices(before, entries, before[cur.value].next, !h);
        LinkKept(before, entries, cur.value, !h);
        todo := todo[1..];
        assert todo == R.Indices(entries, entries[cur.value].next);
        if stop { return; }
        cur := entries[cur.value].next;
      }
      r := Null;
      WalkEnd(files, View(), pub, sys);
    }

    /** One catalog of the list; stop tells that the walk ends here. */
    method WalkOne(x: nat, pub: Option<string>, sys: Option<string>) returns (r: Answer, ghost hit: bool, stop: bool)
      requires Valid() && x < |entries|
      modifies this`entries, this`cache
      ensures One(R.Outcome(View(), r, hit), stop) == WalkedOne(files, old(View()), x, pub, sys)
      ensures Valid() && R.Measure(files, View()) <= R.Measure(files, old(View())) && R.Extends(old(entries), entries, !hit)
      decreases R.Measure(files, View()), OptWeight(pub) + OptWeight(sys), 0, 1
    {
      hide R.Resolve, R.Fetch, R.Measure, R.Bounded, R.Raised, OptWeight, R.Extends;
      R.ExtendsSelf(entries, true);
      r, hit, stop := Null, false, false;
      if entries[x].t.kind.CatalogKind? {
        if entries[x].children.None? { Fetch(x); }
        ghost var fetched := entries;
        LinkKept(old(entries), fetched, x, true);
        ListStep(entries, x);
        if entries[x].children.Some? {
          r, hit := Resolve(entries[x].children.value, pub, sys);
          R.ExtendsTrans(old(entries), fetched, entries, true, !hit);
          LinkKept(fetched, entries, x, !hit);
          ListStep(entries, x);
          stop := !r.Null? || entries[entries[x].children.value].depth > R.MAX_CATAL_DEPTH;
        }
      }
    }
  }
}
