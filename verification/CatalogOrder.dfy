/**
 The order in which a list of catalog entries decides (section 7.1.2 of the OASIS XML
 Catalogs draft of 2001-08-06), stated on the entries themselves: the system identifier
 by name or longest prefix, its delegates, the public identifier, its delegates, and
 last the next catalogs.
 */
module CatalogOrder {
  import opened Common
  import opened CatalogNames
  import opened CatalogLists
  import opened CatalogResolve
  import opened CatalogWorld
  import opened CatalogSpec
  import Answers = CatalogAnswers
  import Edit = CatalogEdit

  // ---- what the entries of a list say ----

  /** The answer to a system identifier from the maps of names and of prefixes. */
  function BySystem(list: seq<Template>, sys: Option<string>): Option<Answer>
  {
    if sys.None? then None
    else Edit.Spec(Edit.RulesOf(list, System), Edit.RulesOf(list, RewriteSystem), sys.value)
  }

  ghost predicate SystemDelegate(list: seq<Template>, sys: Option<string>)
  {
    sys.Some? && exists k :: 0 <= k < |list| && list[k].kind == DelegateSystem && HasPrefix(sys.value, Name(list[k]))
  }

  predicate NamesPublic(t: Template, pub: string) { t.kind == Public && t.name == Some(pub) }

  ghost predicate FirstPublic(list: seq<Template>, pub: Option<string>, k: nat)
  {
    pub.Some? && k < |list| && NamesPublic(list[k], pub.value) && forall j :: 0 <= j < k ==> !NamesPublic(list[j], pub.value)
  }

  ghost predicate AnyPublic(list: seq<Template>, pub: Option<string>)
  {
    pub.Some? && exists k :: 0 <= k < |list| && NamesPublic(list[k], pub.value)
  }

  ghost predicate PublicDelegate(list: seq<Template>, pub: Option<string>)
  {
    pub.Some? && exists k :: 0 <= k < |list| && list[k].kind == DelegatePublic && list[k].preferPublic
                             && HasPrefix(pub.value, Name(list[k]))
  }

  ghost predicate RefersOn(list: seq<Template>)
  {
    exists k :: 0 <= k < |list| && list[k].kind == NextCatalog
  }

  /** Nothing in the list is about the system identifier, or there is none. */
  ghost predicate SystemSilent(list: seq<Template>, sys: Option<string>)
  {
    BySystem(list, sys).None? && !SystemDelegate(list, sys)
  }

  ghost predicate PublicSilent(list: seq<Template>, pub: Option<string>)
  {
    !AnyPublic(list, pub) && !PublicDelegate(list, pub)
  }

  // ---- the scans find it ----

  lemma {:induction false} AnySystemDelegate(list: seq<Template>, sys: Option<string>)
    requires sys.Some?
    ensures AnyDelegate(list, None, sys) <==> SystemDelegate(list, sys)
  {
    hide HasPrefix;
    if list != [] {
      AnySystemDelegate(list[1..], sys);
      ExistsCons(list, (t: Template) => t.kind == DelegateSystem && HasPrefix(sys.value, Name(t)));
    }
  }

  lemma {:induction false} AnyPublicDelegate(list: seq<Template>, pub: Option<string>)
    requires pub.Some?
    ensures AnyDelegate(list, pub, None) <==> PublicDelegate(list, pub)
  {
    hide HasPrefix;
    if list != [] {
      AnyPublicDelegate(list[1..], pub);
      ExistsCons(list, (t: Template) => t.kind == DelegatePublic && t.preferPublic && HasPrefix(pub.value, Name(t)));
    }
  }

  lemma {:induction false} AnyNextIs(list: seq<Template>)
    ensures AnyNext(list) <==> RefersOn(list)
  {
    if list != [] {
      AnyNextIs(list[1..]);
      ExistsCons(list, (t: Template) => t.kind == NextCatalog);
    }
  }

  lemma ExistsCons(list: seq<Template>, p: Template -> bool)
    requires list != []
    ensures (exists k :: 0 <= k < |list| && p(list[k])) <==>
            p(list[0]) || exists k :: 0 <= k < |list[1..]| && p(list[1..][k])
  {
    var rest := list[1..];
    if k :| 0 <= k < |list| && p(list[k]) {
      if k > 0 { assert rest[k - 1] == list[k]; }
    }
    if k :| 0 <= k < |rest| && p(rest[k]) { assert list[k + 1] == rest[k]; }
  }

  lemma {:induction false} PublicScan(list: seq<Template>, pub: Option<string>)
    requires pub.Some?
    ensures PublicAnswer(list, pub.value).Some? <==> AnyPublic(list, pub)
    ensures forall k: nat :: FirstPublic(list, pub, k) ==> PublicAnswer(list, pub.value) == Some(AnswerOf(list[k].url))
  {
    if list != [] {
      var rest := list[1..];
      PublicScan(rest, pub);
      ExistsCons(list, (t: Template) => NamesPublic(t, pub.value));
      forall k: nat | FirstPublic(list, pub, k)
        ensures PublicAnswer(list, pub.value) == Some(AnswerOf(list[k].url))
      {
        if k > 0 {
          assert !NamesPublic(list[0], pub.value);
          assert rest[k - 1] == list[k];
          assert forall j :: 0 <= j < k - 1 ==> rest[j] == list[j + 1];
          assert FirstPublic(rest, pub, k - 1);
        }
      }
    }
  }

  lemma SystemScan(list: seq<Template>, sys: Option<string>)
    requires sys.Some?
    ensures SystemAnswer(list, sys.value, None) == BySystem(list, sys)
  {
    Edit.ResolutionIsSpec(list, sys.value);
  }

  /** Which of the five decides. */
  lemma Decides(list: seq<Template>, pub: Option<string>, sys: Option<string>)
    ensures var v := Judge(list, pub, sys);
            && (forall a :: BySystem(list, sys) == Some(a) ==> v == Answered(a))
            && (BySystem(list, sys).None? && SystemDelegate(list, sys) ==> v == Cut(None, sys))
            && (SystemSilent(list, sys) ==> forall k: nat :: FirstPublic(list, pub, k) ==> v == Answered(AnswerOf(list[k].url)))
            && (SystemSilent(list, sys) && !AnyPublic(list, pub) && PublicDelegate(list, pub) ==> v == Cut(pub, None))
            && (SystemSilent(list, sys) && PublicSilent(list, pub) ==>
                  v == if (pub.Some? || sys.Some?) && RefersOn(list) then PassedOn else Nothing)
  {
    hide SystemAnswer, PublicAnswer, AnyDelegate, AnyNext, SystemDelegate, PublicDelegate, AnyPublic, FirstPublic, RefersOn;
    hide Edit.Spec, Edit.RulesOf;
    if sys.Some? {
      SystemScan(list, sys);
      AnySystemDelegate(list, sys);
    } else {
      NoSystem(list, sys);
    }
    if pub.Some? {
      PublicScan(list, pub);
      AnyPublicDelegate(list, pub);
      FirstIsAny(list, pub);
    } else {
      NoPublic(list, pub);
    }
    AnyNextIs(list);
  }

  lemma NoSystem(list: seq<Template>, sys: Option<string>)
    requires sys.None?
    ensures BySystem(list, sys).None? && !SystemDelegate(list, sys)
  {
  }

  lemma NoPublic(list: seq<Template>, pub: Option<string>)
    requires pub.None?
    ensures !AnyPublic(list, pub) && !PublicDelegate(list, pub) && forall k: nat :: !FirstPublic(list, pub, k)
  {
  }

  lemma FirstIsAny(list: seq<Template>, pub: Option<string>)
    ensures forall k: nat :: FirstPublic(list, pub, k) ==> AnyPublic(list, pub)
  {
  }

  // ---- resolution in one list ----

  /** What comes of asking the delegates of a list; if none answers, the search is over. */
  ghost function FromDelegates(files: seq<File>, st: State, catal: nat, pub: Option<string>, sys: Option<string>): (a: Answer)
    requires Valid(files, st) && catal < |st.entries| && st.entries[catal].depth <= MAX_CATAL_DEPTH
    ensures a != Null
  {
    EnterFacts(files, st, catal);
    var o := TryDelegates(files, Enter(st, catal), Indices(st.entries, Some(catal)), [], pub, sys);
    if o.a == Null then Break else o.a
  }

  ghost function FromNext(files: seq<File>, st: State, catal: nat, pub: Option<string>, sys: Option<string>): Answer
    requires Valid(files, st) && catal < |st.entries| && st.entries[catal].depth <= MAX_CATAL_DEPTH
  {
    EnterFacts(files, st, catal);
    var r := TryNext(files, Enter(st, catal), catal, Indices(st.entries, Some(catal)), pub, sys);
    if r.stuck then Null else r.o.a
  }

  /** For every list below the depth limit and any two identifiers: a name or prefix of the
      system identifier decides, whatever the list says about the public one; else its
      delegates do, and are final; else the first entry of the public identifier; else its
      delegates; and only then the next catalogs. */
  lemma OrderOfResolution(files: seq<File>, st: State, catal: nat, pub: Option<string>, sys: Option<string>)
    requires Valid(files, st) && catal < |st.entries| && st.entries[catal].depth <= MAX_CATAL_DEPTH
    ensures var list, o := ListFrom(st.entries, Some(catal)), Resolve(files, st, catal, pub, sys);
            && (forall a :: BySystem(list, sys) == Some(a) ==> o == Outcome(st, a, false))
            && (BySystem(list, sys).None? && SystemDelegate(list, sys) ==>
                  o.a == FromDelegates(files, st, catal, None, sys))
            && (SystemSilent(list, sys) ==>
                  forall k: nat :: FirstPublic(list, pub, k) ==> o == Outcome(st, AnswerOf(list[k].url), false))
            && (SystemSilent(list, sys) && !AnyPublic(list, pub) && PublicDelegate(list, pub) ==>
                  o.a == FromDelegates(files, st, catal, pub, None))
            && (SystemSilent(list, sys) && PublicSilent(list, pub) ==>
                  if (pub.Some? || sys.Some?) && RefersOn(list) then o.a == FromNext(files, st, catal, pub, sys)
                  else o == Outcome(st, Null, false))
  {
    hide Judge, BySystem, SystemDelegate, AnyPublic, PublicDelegate, FirstPublic, RefersOn, TryDelegates, TryNext;
    hide SystemSilent, PublicSilent, Forward, Bounded, Indices, Templates;
    Decides(ListFrom(st.entries, Some(catal)), pub, sys);
  }

  // ---- the answer over the files ----

  ghost function DelegatesSay(w: World, list: seq<Template>, n: nat, pub: Option<string>, sys: Option<string>): (a: Answer)
    requires |w.prefs| == |w.files| && ListWithin(w, list, n, pub, sys) && (pub.None? || sys.None?)
    ensures a != Null
  {
    if FirstOf(w, list, n, true, pub, sys) == Null then Break else FirstOf(w, list, n, true, pub, sys)
  }

  /** The recursion over the files keeps the same order. */
  lemma OrderOfAnswers(w: World, list: seq<Template>, n: nat, pub: Option<string>, sys: Option<string>)
    requires |w.prefs| == |w.files| && ListWithin(w, list, n, pub, sys)
    ensures ListWithin(w, list, n, None, sys) && ListWithin(w, list, n, pub, None)
    ensures var a := AskList(w, list, n, pub, sys);
            && (BySystem(list, sys).Some? ==> a == BySystem(list, sys).value)
            && (BySystem(list, sys).None? && SystemDelegate(list, sys) ==> a == DelegatesSay(w, list, n, None, sys))
            && (SystemSilent(list, sys) ==> forall k: nat :: FirstPublic(list, pub, k) ==> a == AnswerOf(list[k].url))
            && (SystemSilent(list, sys) && !AnyPublic(list, pub) && PublicDelegate(list, pub) ==>
                  a == DelegatesSay(w, list, n, pub, None))
            && (SystemSilent(list, sys) && PublicSilent(list, pub) ==>
                  a == if (pub.Some? || sys.Some?) && RefersOn(list) then FirstOf(w, list, n, false, pub, sys) else Null)
  {
    hide Judge, BySystem, SystemDelegate, AnyPublic, PublicDelegate, FirstPublic, RefersOn, FirstOf, ListWithin;
    hide SystemSilent, PublicSilent;
    WithinFewer(w, list, n, pub, sys, None, sys);
    WithinFewer(w, list, n, pub, sys, pub, None);
    Decides(list, pub, sys);
  }

  // ---- a list of catalogs ----

  /** The first catalog of a list, once loaded, has the first word. So if it knows the
      system identifier by name or prefix, that is the answer, and if it is silent about it
      but has an entry for the public identifier, that one is, whatever else is said. */
  lemma FirstCatalogDecides(files: seq<File>, st: State, catal: nat, pub0: Option<string>, sys0: Option<string>)
    requires Valid(files, st) && catal < |st.entries| && st.entries[catal].t.kind == CatalogKind
    requires st.entries[catal].children.Some? && st.entries[catal].children.value < |st.entries|
    requires st.entries[st.entries[catal].children.value].depth <= MAX_CATAL_DEPTH && Identify(pub0, sys0).Some?
    ensures var list := ListFrom(st.entries, st.entries[catal].children);
            var (pub, sys) := Identify(pub0, sys0).value;
            var one, all := Resolve(files, st, st.entries[catal].children.value, pub, sys),
                            ResolveList(files, st, Some(catal), pub0, sys0);
            && (one.a != Null ==> all == one)
            && (forall a :: BySystem(list, sys) == Some(a) && a != Null ==> all == Outcome(st, a, false))
            && (SystemSilent(list, sys) ==>
                  forall k: nat :: FirstPublic(list, pub, k) && list[k].url.Some? ==>
                    all == Outcome(st, Found(list[k].url.value), false))
  {
    hide BySystem, Identify, Indices, Templates, Forward, Bounded, Resolve, ResolveList, SystemSilent, FirstPublic;
    var (pub, sys) := Identify(pub0, sys0).value;
    Answers.ResolveListWalks(files, st, catal, pub0, sys0);
    OrderOfResolution(files, st, st.entries[catal].children.value, pub, sys);
    StartsHere(st.entries, catal);
  }

  lemma StartsHere(entries: seq<CEntry>, catal: nat)
    requires Forward(entries) && catal < |entries|
    ensures Indices(entries, Some(catal)) != [] && Indices(entries, Some(catal))[0] == catal
  {
  }
}
