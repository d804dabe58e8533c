/**
 The answer of a catalog as a simple recursion over the files, without counters, copies
 or loading, and which references it consults.
 */
module CatalogSpec {
  import opened Common
  import opened CatalogNames
  import opened CatalogLists
  import opened CatalogResolve
  import opened CatalogWorld

  // ---- the references consulted for an identifier ----

  predicate Consulted(t: Template, pub: Option<string>, sys: Option<string>)
  {
    t.kind.NextCatalog? || Delegates(t, None, sys) || Delegates(t, pub, None)
  }

  /** Every chain of references consulted from this list ends after at most n files. */
  ghost predicate ListWithin(w: World, list: seq<Template>, n: nat, pub: Option<string>, sys: Option<string>)
    requires |w.prefs| == |w.files|
    decreases n, 1
  {
    forall k :: 0 <= k < |list| && Consulted(list[k], pub, sys) && Target(w.files, list[k].url).Some? ==>
      FileWithin(w, Target(w.files, list[k].url).value, n, pub, sys)
  }

  ghost predicate FileWithin(w: World, f: nat, n: nat, pub: Option<string>, sys: Option<string>)
    requires Readable(w, f)
    decreases n, 0
  {
    n > 0 && ListWithin(w, ListOf(w, f), n - 1, pub, sys)
  }

  lemma {:induction false} WithinMore(w: World, list: seq<Template>, n: nat, m: nat, pub: Option<string>, sys: Option<string>)
    requires |w.prefs| == |w.files| && n <= m && ListWithin(w, list, n, pub, sys)
    ensures ListWithin(w, list, m, pub, sys)
    decreases n
  {
    forall k | 0 <= k < |list| && Consulted(list[k], pub, sys) && Target(w.files, list[k].url).Some?
      ensures FileWithin(w, Target(w.files, list[k].url).value, m, pub, sys)
    {
      FileWithinMore(w, Target(w.files, list[k].url).value, n, m, pub, sys);
    }
  }

  lemma {:induction false} FileWithinMore(w: World, f: nat, n: nat, m: nat, pub: Option<string>, sys: Option<string>)
    requires Readable(w, f) && n <= m && FileWithin(w, f, n, pub, sys)
    ensures FileWithin(w, f, m, pub, sys)
    decreases n, 0
  {
    WithinMore(w, ListOf(w, f), n - 1, m - 1, pub, sys);
  }

  /** With fewer identifiers no more is consulted. */
  predicate FewerIds(p: Option<string>, s: Option<string>, pub: Option<string>, sys: Option<string>)
  {
    (p.None? || p == pub) && (s.None? || s == sys)
  }

  lemma {:induction false} WithinFewer(w: World, list: seq<Template>, n: nat, pub: Option<string>, sys: Option<string>,
                                       p: Option<string>, s: Option<string>)
    requires |w.prefs| == |w.files| && FewerIds(p, s, pub, sys) && ListWithin(w, list, n, pub, sys)
    ensures ListWithin(w, list, n, p, s)
    decreases n
  {
    forall k | 0 <= k < |list| && Consulted(list[k], p, s) && Target(w.files, list[k].url).Some?
      ensures FileWithin(w, Target(w.files, list[k].url).value, n, p, s)
    {
      var f := Target(w.files, list[k].url).value;
      assert Consulted(list[k], pub, sys);
      assert FileWithin(w, f, n, pub, sys);
      WithinFewer(w, ListOf(w, f), n - 1, pub, sys, p, s);
    }
  }

  lemma WithinWeathered(w: World, a: seq<Template>, b: seq<Template>, n: nat, pub: Option<string>, sys: Option<string>)
    requires |w.prefs| == |w.files| && Weathered(w.files, a, b)
    ensures ListWithin(w, a, n, pub, sys) <==> ListWithin(w, b, n, pub, sys)
  {
    hide FileWithin;
    forall k | 0 <= k < |a|
      ensures Consulted(a[k], pub, sys) && Target(w.files, a[k].url).Some?
              <==> Consulted(b[k], pub, sys) && Target(w.files, b[k].url).Some?
      ensures a[k].url == b[k].url
    {
      assert Weathers(w.files, a[k], b[k]);
    }
  }

  lemma WithinRest(w: World, list: seq<Template>, n: nat, pub: Option<string>, sys: Option<string>)
    requires |w.prefs| == |w.files| && list != []
    ensures ListWithin(w, list, n, pub, sys) <==>
            && ListWithin(w, list[1..], n, pub, sys)
            && (Consulted(list[0], pub, sys) && Target(w.files, list[0].url).Some? ==>
                  FileWithin(w, Target(w.files, list[0].url).value, n, pub, sys))
  {
    hide FileWithin, Consulted;
    assert forall k :: 0 <= k < |list[1..]| ==> list[1..][k] == list[k + 1];
    assert forall k :: 0 < k < |list| ==> list[k] == list[1..][k - 1];
  }

  // ---- the answer, over the files ----

  predicate Picked(t: Template, cut: bool, pub: Option<string>, sys: Option<string>)
  {
    if cut then Delegates(t, pub, sys) else t.kind.NextCatalog?
  }

  lemma PickedIsConsulted(t: Template, cut: bool, pub: Option<string>, sys: Option<string>)
    requires Picked(t, cut, pub, sys) && (cut ==> pub.None? || sys.None?)
    ensures Consulted(t, pub, sys) && IsReference(t.kind)
  {
  }

  /** The first answer that is not null among the catalogs a list refers to. */
  ghost function FirstOf(w: World, list: seq<Template>, n: nat, cut: bool, pub: Option<string>, sys: Option<string>): Answer
    requires |w.prefs| == |w.files| && ListWithin(w, list, n, pub, sys) && (cut ==> pub.None? || sys.None?)
    decreases n, 1, |list|
  {
    if list == [] then Null
    else
      WithinRest(w, list, n, pub, sys);
      var g := Target(w.files, list[0].url);
      var a :=
        if Picked(list[0], cut, pub, sys) && g.Some? then
          PickedIsConsulted(list[0], cut, pub, sys);
          AskFile(w, g.value, n, pub, sys)
        else Null;
      if !a.Null? then a else FirstOf(w, list[1..], n, cut, pub, sys)
  }

  /** A list answers itself; or its delegates do, or nobody; or its next catalogs. */
  ghost function AskList(w: World, list: seq<Template>, n: nat, pub: Option<string>, sys: Option<string>): Answer
    requires |w.prefs| == |w.files| && ListWithin(w, list, n, pub, sys)
    decreases n, 2, 0
  {
    match Judge(list, pub, sys)
    case Answered(a) => a
    case Cut(p, s) =>
      WithinFewer(w, list, n, pub, sys, p, s);
      var a := FirstOf(w, list, n, true, p, s);
      if a.Null? then Break else a
    case PassedOn => FirstOf(w, list, n, false, pub, sys)
    case Nothing => Null
  }

  ghost function AskFile(w: World, f: nat, n: nat, pub: Option<string>, sys: Option<string>): Answer
    requires Readable(w, f) && FileWithin(w, f, n, pub, sys)
    decreases n, 0, 0
  {
    AskList(w, ListOf(w, f), n - 1, pub, sys)
  }

  /** The bound does not matter to the answer. */
  lemma {:induction false} AskFirstStable(w: World, list: seq<Template>, n: nat, m: nat, cut: bool,
                                          pub: Option<string>, sys: Option<string>)
    requires |w.prefs| == |w.files| && (cut ==> pub.None? || sys.None?)
    requires ListWithin(w, list, n, pub, sys) && ListWithin(w, list, m, pub, sys)
    ensures FirstOf(w, list, n, cut, pub, sys) == FirstOf(w, list, m, cut, pub, sys)
    decreases n, 1, |list|
  {
    hide Delegates, ListWithin, FileWithin, AskFile;
    if list != [] {
      WithinRest(w, list, n, pub, sys);
      WithinRest(w, list, m, pub, sys);
      AskFirstStable(w, list[1..], n, m, cut, pub, sys);
      var g := Target(w.files, list[0].url);
      if Picked(list[0], cut, pub, sys) && g.Some? {
        PickedIsConsulted(list[0], cut, pub, sys);
        AskFileStable(w, g.value, n, m, pub, sys);
      }
    }
  }

  lemma {:induction false} AskListStable(w: World, list: seq<Template>, n: nat, m: nat, pub: Option<string>, sys: Option<string>)
    requires |w.prefs| == |w.files| && ListWithin(w, list, n, pub, sys) && ListWithin(w, list, m, pub, sys)
    ensures AskList(w, list, n, pub, sys) == AskList(w, list, m, pub, sys)
    decreases n, 2, 0
  {
    hide ListWithin, FileWithin, FirstOf, SystemAnswer, PublicAnswer, AnyDelegate, AnyNext;
    match Judge(list, pub, sys)
    case Cut(p, s) =>
      WithinFewer(w, list, n, pub, sys, p, s);
      WithinFewer(w, list, m, pub, sys, p, s);
      AskFirstStable(w, list, n, m, true, p, s);
    case PassedOn => AskFirstStable(w, list, n, m, false, pub, sys);
    case _ =>
  }

  lemma {:induction false} AskFileStable(w: World, f: nat, n: nat, m: nat, pub: Option<string>, sys: Option<string>)
    requires Readable(w, f) && FileWithin(w, f, n, pub, sys) && FileWithin(w, f, m, pub, sys)
    ensures AskFile(w, f, n, pub, sys) == AskFile(w, f, m, pub, sys)
    decreases n, 0, 0
  {
    hide ListWithin;
    AskListStable(w, ListOf(w, f), n - 1, m - 1, pub, sys);
  }

  // ---- weather does not matter to the answer ----

  lemma {:induction false} SystemWeathered(files: seq<File>, a: seq<Template>, b: seq<Template>, sys: string, best: Option<Template>)
    requires Weathered(files, a, b) && (best.Some? ==> HasPrefix(sys, Name(best.value)))
    ensures SystemAnswer(a, sys, best) == SystemAnswer(b, sys, best)
  {
    hide HasPrefix, Missing;
    if a != [] {
      assert Weathers(files, a[0], b[0]);
      WeatheredRest(files, a, b);
      SystemWeathered(files, a[1..], b[1..], sys, Better(best, a[0], sys));
    }
  }

  lemma WeatheredRest(files: seq<File>, a: seq<Template>, b: seq<Template>)
    requires Weathered(files, a, b) && a != []
    ensures b != [] && Weathered(files, a[1..], b[1..]) && Weathers(files, a[0], b[0])
  {
    hide Weathers;
    forall k | 0 <= k < |a[1..]| ensures Weathers(files, a[1..][k], b[1..][k]) {
      assert Weathers(files, a[k + 1], b[k + 1]);
    }
  }

  lemma {:induction false} PublicWeathered(files: seq<File>, a: seq<Template>, b: seq<Template>, pub: string)
    requires Weathered(files, a, b)
    ensures PublicAnswer(a, pub) == PublicAnswer(b, pub)
  {
    if a != [] {
      WeatheredRest(files, a, b);
      PublicWeathered(files, a[1..], b[1..], pub);
    }
  }

  lemma {:induction false} DelegatesWeathered(files: seq<File>, a: seq<Template>, b: seq<Template>,
                                              pub: Option<string>, sys: Option<string>)
    requires Weathered(files, a, b)
    ensures AnyDelegate(a, pub, sys) == AnyDelegate(b, pub, sys)
  {
    if a != [] {
      WeatheredRest(files, a, b);
      DelegatesWeathered(files, a[1..], b[1..], pub, sys);
    }
  }

  lemma {:induction false} FirstWeathered(w: World, a: seq<Template>, b: seq<Template>, n: nat, cut: bool,
                                          pub: Option<string>, sys: Option<string>)
    requires |w.prefs| == |w.files| && Weathered(w.files, a, b) && (cut ==> pub.None? || sys.None?)
    requires ListWithin(w, a, n, pub, sys) && ListWithin(w, b, n, pub, sys)
    ensures FirstOf(w, a, n, cut, pub, sys) == FirstOf(w, b, n, cut, pub, sys)
    decreases |a|
  {
    hide ListWithin, FileWithin, AskFile, HasPrefix;
    if a != [] {
      WeatheredRest(w.files, a, b);
      WithinRest(w, a, n, pub, sys);
      WithinRest(w, b, n, pub, sys);
      FirstWeathered(w, a[1..], b[1..], n, cut, pub, sys);
    }
  }

  lemma {:induction false} NoNextNoAnswer(w: World, a: seq<Template>, b: seq<Template>, n: nat,
                                          pub: Option<string>, sys: Option<string>)
    requires |w.prefs| == |w.files| && Weathered(w.files, a, b) && ListWithin(w, a, n, pub, sys)
    ensures AnyNext(b) ==> AnyNext(a)
    ensures !AnyNext(b) ==> FirstOf(w, a, n, false, pub, sys) == Null
    decreases |a|
  {
    hide ListWithin, FileWithin, AskFile, Consulted;
    if a != [] {
      WeatheredRest(w.files, a, b);
      WithinRest(w, a, n, pub, sys);
      NoNextNoAnswer(w, a[1..], b[1..], n, pub, sys);
    }
  }

  lemma AskWeathered(w: World, a: seq<Template>, b: seq<Template>, n: nat, pub: Option<string>, sys: Option<string>)
    requires |w.prefs| == |w.files| && Weathered(w.files, a, b) && ListWithin(w, a, n, pub, sys)
    ensures ListWithin(w, b, n, pub, sys) && AskList(w, a, n, pub, sys) == AskList(w, b, n, pub, sys)
  {
    hide ListWithin, FirstOf, SystemAnswer, PublicAnswer, AnyDelegate, AnyNext, Weathered;
    WithinWeathered(w, a, b, n, pub, sys);
    if sys.Some? { SystemWeathered(w.files, a, b, sys.value, None); }
    if pub.Some? { PublicWeathered(w.files, a, b, pub.value); }
    DelegatesWeathered(w.files, a, b, None, sys);
    DelegatesWeathered(w.files, a, b, pub, None);
    NoNextNoAnswer(w, a, b, n, pub, sys);
    match Judge(a, pub, sys)
    case Cut(p, s) =>
      WithinFewer(w, a, n, pub, sys, p, s);
      WithinFewer(w, b, n, pub, sys, p, s);
      FirstWeathered(w, a, b, n, true, p, s);
    case PassedOn => FirstWeathered(w, a, b, n, false, pub, sys);
    case _ =>
  }
}
