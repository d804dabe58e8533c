/**
 Editing a catalog: entries are updated in place, appended at the end, or marked as
 removed where they stand. Resolution of a system identifier depends only on two
 maps, one of exact names and one of prefixes.
 */
module CatalogEdit {
  import opened Common
  import opened CatalogNames
  import opened CatalogLists
  import opened CatalogResolve
  import W = CatalogWorld
  import A = CatalogAnswers

  /** What a name stands for: as written, and made absolute. */
  datatype Rule = Rule(value: Option<string>, url: Option<string>)

  type Rules = map<string, Rule>

  function RuleOf(t: Template): Rule { Rule(t.value, t.url) }

  // ---- the two maps a list stands for ----

  predicate Has(t: Template, kind: Kind) { t.kind == kind && t.name.Some? }

  /** Names of one kind and their targets; of equal names the first counts. */
  function RulesOf(list: seq<Template>, kind: Kind): Rules
  {
    if list == [] then map[]
    else
      var rest := RulesOf(list[1..], kind);
      if Has(list[0], kind) then rest[list[0].name.value := RuleOf(list[0])] else rest
  }

  /** The longest non-empty prefix of sys, of at most k characters, that is a rule. */
  function LongestPrefix(rules: Rules, sys: string, k: nat): (r: Option<string>)
    requires k <= |sys|
    ensures r.Some? ==> r.value in rules && HasPrefix(sys, r.value) && 0 < |r.value| <= k
  {
    if k == 0 then None else if sys[..k] in rules then Some(sys[..k]) else LongestPrefix(rules, sys, k - 1)
  }

  /** The simple form of resolution: an exact name, else the longest prefix replaced. */
  function Spec(exact: Rules, prefixes: Rules, sys: string): Option<Answer>
  {
    if sys in exact then Some(AnswerOf(exact[sys].url))
    else
      var p := LongestPrefix(prefixes, sys, |sys|);
      if p.None? then None
      else if prefixes[p.value].url.Some? then Some(Found(prefixes[p.value].url.value + sys[|p.value|..]))
      else Some(Null)
  }

  // ---- one pass over the list computes it ----

  lemma {:induction false} LongestIsMax(rules: Rules, sys: string, k: nat, p: string)
    requires k <= |sys| && p in rules && HasPrefix(sys, p) && 0 < |p| <= k
    ensures var r := LongestPrefix(rules, sys, k); r.Some? && |p| <= |r.value|
  {
    if sys[..k] !in rules { LongestIsMax(rules, sys, k - 1, p); }
  }

  /** The prefix the scan would choose from what it kept and what is left. */
  function Chosen(best: Option<Template>, prefixes: Rules, sys: string): Option<Answer>
    requires best.Some? ==> HasPrefix(sys, Name(best.value))
  {
    var p := LongestPrefix(prefixes, sys, |sys|);
    if p.Some? && |p.value| > (if best.Some? then |Name(best.value)| else 0)
    then (if prefixes[p.value].url.Some? then Some(Found(prefixes[p.value].url.value + sys[|p.value|..])) else Some(Null))
    else if best.Some? then Some(Rewritten(best.value, sys)) else None
  }

  lemma PrefixesOfOne(sys: string, p: string, q: string)
    requires HasPrefix(sys, p) && HasPrefix(sys, q) && |p| == |q|
    ensures p == q
  {
  }

  /** Adding one rule in front of the others. */
  lemma LongestWithRule(rules: Rules, sys: string, name: string, rule: Rule)
    ensures var with := LongestPrefix(rules[name := rule], sys, |sys|);
            var without := LongestPrefix(rules, sys, |sys|);
            if HasPrefix(sys, name) && |name| > 0 && (without.None? || |without.value| <= |name|)
            then with == Some(name) else with == without
  {
    var with := LongestPrefix(rules[name := rule], sys, |sys|);
    var without := LongestPrefix(rules, sys, |sys|);
    if without.Some? { LongestIsMax(rules[name := rule], sys, |sys|, without.value); }
    if HasPrefix(sys, name) && |name| > 0 { LongestIsMax(rules[name := rule], sys, |sys|, name); }
    if with.Some? {
      if with.value != name { LongestIsMax(rules, sys, |sys|, with.value); }
      if without.Some? && |with.value| == |without.value| { PrefixesOfOne(sys, with.value, without.value); }
      if HasPrefix(sys, name) && |with.value| == |name| { PrefixesOfOne(sys, with.value, name); }
    }
  }

  lemma ChosenStep(best: Option<Template>, t: Template, rest: Rules, sys: string)
    requires best.Some? ==> HasPrefix(sys, Name(best.value)) && |Name(best.value)| > 0
    requires t.kind.RewriteSystem? && t.name.Some?
    ensures Chosen(Better(best, t, sys), rest, sys) == Chosen(best, rest[t.name.value := RuleOf(t)], sys)
  {
    LongestWithRule(rest, sys, t.name.value, RuleOf(t));
    var p := LongestPrefix(rest, sys, |sys|);
    if p.Some? && HasPrefix(sys, t.name.value) && |p.value| == |t.name.value| {
      PrefixesOfOne(sys, p.value, t.name.value);
    }
  }

  lemma {:induction false} ScanIsSpec(list: seq<Template>, sys: string, best: Option<Template>)
    requires best.Some? ==> HasPrefix(sys, Name(best.value)) && |Name(best.value)| > 0
    ensures SystemAnswer(list, sys, best)
            == var exact := RulesOf(list, System);
               if sys in exact then Some(AnswerOf(exact[sys].url)) else Chosen(best, RulesOf(list, RewriteSystem), sys)
  {
    if list != [] {
      var t, rest := list[0], list[1..];
      if !SystemHit(t, sys) {
        ScanIsSpec(rest, sys, Better(best, t, sys));
        if Has(t, RewriteSystem) { ChosenStep(best, t, RulesOf(rest, RewriteSystem), sys); }
      }
    }
  }

  /** For every list of entries, in any order and with removed ones in between, the scan
      answers as the simple form does. */
  lemma ResolutionIsSpec(list: seq<Template>, sys: string)
    ensures SystemAnswer(list, sys, None) == Spec(RulesOf(list, System), RulesOf(list, RewriteSystem), sys)
  {
    ScanIsSpec(list, sys, None);
  }

  // ---- editing ----

  predicate Same(t: Template, kind: Kind, name: string) { t.kind == kind && t.name == Some(name) }

  /** xmlAddXMLCatalog: update the first entry of this kind and name, else append. */
  function Added(list: seq<Template>, kind: Kind, name: string, url: string, preferPublic: bool): seq<Template>
  {
    if list == [] then [Template(kind, Some(name), Some(url), Some(url), preferPublic)]
    else if Same(list[0], kind, name) then [list[0].(value := Some(url), url := Some(url))] + list[1..]
    else [list[0]] + Added(list[1..], kind, name, url, preferPublic)
  }

  predicate Hit(t: Template, value: string) { t.name == Some(value) || t.value == Some(value) }

  function Mark(t: Template, value: string): Template { if Hit(t, value) then t.(kind := Removed) else t }

  /** xmlDelXMLCatalog: every entry with this name or target is marked as removed. */
  function Deleted(list: seq<Template>, value: string): seq<Template>
  {
    if list == [] then [] else [Mark(list[0], value)] + Deleted(list[1..], value)
  }

  /** No live name occurs twice for one kind. */
  predicate Distinct(list: seq<Template>, kind: Kind)
  {
    list == [] ||
    ((Has(list[0], kind) ==> list[0].name.value !in RulesOf(list[1..], kind)) && Distinct(list[1..], kind))
  }

  function Without(rules: Rules, value: string): Rules
  {
    map k | k in rules && k != value && rules[k].value != Some(value) :: rules[k]
  }

  lemma {:induction false} AddedRules(list: seq<Template>, kind: Kind, name: string, url: string, pp: bool, k: Kind)
    requires Distinct(list, k) && kind != Removed && k != Removed
    ensures var r := Added(list, kind, name, url, pp);
            && RulesOf(r, k) == (if k == kind then RulesOf(list, k)[name := Rule(Some(url), Some(url))] else RulesOf(list, k))
            && Distinct(r, k)
  {
    hide RulesOf, Distinct;
    RulesCons(list, k);
    RulesCons(Added(list, kind, name, url, pp), k);
    RulesCons([], k);
    if list == [] {
      assert Added(list, kind, name, url, pp)[1..] == [];
    } else if Same(list[0], kind, name) {
      assert Added(list, kind, name, url, pp)[1..] == list[1..];
    } else {
      AddedRules(list[1..], kind, name, url, pp, k);
      assert Added(list, kind, name, url, pp)[1..] == Added(list[1..], kind, name, url, pp);
      if k == kind && Has(list[0], k) {
        UpdatesCommute(RulesOf(list[1..], k), name, Rule(Some(url), Some(url)), list[0].name.value, RuleOf(list[0]));
      }
    }
  }

  lemma UpdatesCommute(rules: Rules, a: string, x: Rule, b: string, y: Rule)
    requires a != b
    ensures rules[a := x][b := y] == rules[b := y][a := x]
  {
  }

  lemma RulesCons(list: seq<Template>, k: Kind)
    ensures list == [] ==> RulesOf(list, k) == map[] && Distinct(list, k)
    ensures list != [] ==>
              var t, rest := list[0], RulesOf(list[1..], k);
              && RulesOf(list, k) == (if Has(t, k) then rest[t.name.value := RuleOf(t)] else rest)
              && (Distinct(list, k) <==> (Has(t, k) ==> t.name.value !in rest) && Distinct(list[1..], k))
  {
  }

  lemma {:induction false} DeletedRules(list: seq<Template>, value: string, k: Kind)
    requires Distinct(list, k) && k != Removed
    ensures var r := Deleted(list, value);
            RulesOf(r, k) == Without(RulesOf(list, k), value) && Distinct(r, k)
  {
    if list != [] {
      var r := Deleted(list, value);
      assert r[1..] == Deleted(list[1..], value) && r[0] == Mark(list[0], value);
      DeletedRules(list[1..], value, k);
      assert RulesOf(r, k) == Without(RulesOf(list, k), value);
    }
  }

  datatype Edit =
    | AddSystem(name: string, url: string)
    | AddRewrite(name: string, url: string)
    | Remove(value: string)

  function Apply(list: seq<Template>, e: Edit): seq<Template>
  {
    match e
    case AddSystem(n, u) => Added(list, System, n, u, false)
    case AddRewrite(n, u) => Added(list, RewriteSystem, n, u, false)
    case Remove(v) => Deleted(list, v)
  }

  function ApplyAll(list: seq<Template>, es: seq<Edit>): seq<Template>
  {
    if es == [] then list else Apply(ApplyAll(list, es[..|es| - 1]), es[|es| - 1])
  }

  /** The same edits on the two maps. */
  function ExactAfter(es: seq<Edit>): Rules
  {
    if es == [] then map[]
    else
      var before := ExactAfter(es[..|es| - 1]);
      match es[|es| - 1]
      case AddSystem(n, u) => before[n := Rule(Some(u), Some(u))]
      case AddRewrite(_, _) => before
      case Remove(v) => Without(before, v)
  }

  function PrefixesAfter(es: seq<Edit>): Rules
  {
    if es == [] then map[]
    else
      var before := PrefixesAfter(es[..|es| - 1]);
      match es[|es| - 1]
      case AddSystem(_, _) => before
      case AddRewrite(n, u) => before[n := Rule(Some(u), Some(u))]
      case Remove(v) => Without(before, v)
  }

  lemma {:induction false} EditsAreMaps(es: seq<Edit>)
    ensures var list := ApplyAll([], es);
            && RulesOf(list, System) == ExactAfter(es) && Distinct(list, System)
            && RulesOf(list, RewriteSystem) == PrefixesAfter(es) && Distinct(list, RewriteSystem)
  {
    if es != [] {
      EditsAreMaps(es[..|es| - 1]);
      var before := ApplyAll([], es[..|es| - 1]);
      match es[|es| - 1]
      case AddSystem(n, u) =>
        AddedRules(before, System, n, u, false, System);
        AddedRules(before, System, n, u, false, RewriteSystem);
      case AddRewrite(n, u) =>
        AddedRules(before, RewriteSystem, n, u, false, System);
        AddedRules(before, RewriteSystem, n, u, false, RewriteSystem);
      case Remove(v) =>
        DeletedRules(before, v, System);
        DeletedRules(before, v, RewriteSystem);
    }
  }

  /** A catalog built from nothing by any sequence of adds and removals resolves every
      system identifier as the two maps with the same edits say. */
  lemma EditedCatalogResolves(es: seq<Edit>, sys: string)
    ensures SystemAnswer(ApplyAll([], es), sys, None) == Spec(ExactAfter(es), PrefixesAfter(es), sys)
  {
    EditsAreMaps(es);
    ResolutionIsSpec(ApplyAll([], es), sys);
  }

  /** Only the kinds the edits deal in. */
  predicate OnlyRules(list: seq<Template>)
  {
    list == [] || ((list[0].kind.System? || list[0].kind.RewriteSystem? || list[0].kind.Removed?) && OnlyRules(list[1..]))
  }

  lemma {:induction false} AddedOnlyRules(list: seq<Template>, kind: Kind, name: string, url: string, pp: bool)
    requires OnlyRules(list) && (kind.System? || kind.RewriteSystem?)
    ensures OnlyRules(Added(list, kind, name, url, pp))
  {
    var r := Added(list, kind, name, url, pp);
    if list == [] {
      assert r[1..] == [];
    } else if Same(list[0], kind, name) {
      assert r[1..] == list[1..];
    } else {
      AddedOnlyRules(list[1..], kind, name, url, pp);
      assert r[1..] == Added(list[1..], kind, name, url, pp);
    }
  }

  lemma {:induction false} DeletedOnlyRules(list: seq<Template>, value: string)
    requires OnlyRules(list)
    ensures OnlyRules(Deleted(list, value))
  {
    if list != [] {
      DeletedOnlyRules(list[1..], value);
      assert Deleted(list, value)[1..] == Deleted(list[1..], value);
    }
  }

  lemma {:induction false} EditsAreOnlyRules(es: seq<Edit>)
    ensures OnlyRules(ApplyAll([], es))
  {
    if es != [] {
      EditsAreOnlyRules(es[..|es| - 1]);
      var before := ApplyAll([], es[..|es| - 1]);
      match es[|es| - 1]
      case AddSystem(n, u) => AddedOnlyRules(before, System, n, u, false);
      case AddRewrite(n, u) => AddedOnlyRules(before, RewriteSystem, n, u, false);
      case Remove(v) => DeletedOnlyRules(before, v);
    }
  }

  /** Such a list never refers a question to other catalogs. */
  lemma {:induction false} RulesReferToNobody(list: seq<Template>, sys: string)
    requires OnlyRules(list)
    ensures !AnyDelegate(list, None, Some(sys)) && !AnyNext(list)
  {
    if list != [] { RulesReferToNobody(list[1..], sys); }
  }

  /** From the top: a catalog whose list is the result of any edits answers every system
      identifier as the maps say, and null where they say nothing, and nothing changes. */
  lemma EditedCatalogAnswers(files: seq<File>, st: State, x: nat, es: seq<Edit>, sys: string)
    requires Valid(files, st) && x < |st.entries| && st.entries[x].t.kind.CatalogKind? && st.entries[x].next.None?
    requires st.entries[x].children.Some? && st.entries[x].children.value < |st.entries|
    requires st.entries[st.entries[x].children.value].depth <= MAX_CATAL_DEPTH
    requires ListFrom(st.entries, st.entries[x].children) == ApplyAll([], es) && !HasPrefix(sys, URN_PUBID)
    ensures var a := Spec(ExactAfter(es), PrefixesAfter(es), sys);
            ResolveList(files, st, Some(x), None, Some(sys)) == Outcome(st, if a.Some? then a.value else Null, false)
  {
    hide SystemAnswer, AnyDelegate, AnyNext, Spec, ExactAfter, PrefixesAfter, ApplyAll, Walk, ListFrom, HasPrefix, Progress;
    EditedCatalogResolves(es, sys);
    EditsAreOnlyRules(es);
    RulesReferToNobody(ApplyAll([], es), sys);
    assert Indices(st.entries, Some(x)) == [x];
    A.ResolveListWalks(files, st, x, None, Some(sys));
    W.WalkOne(files, st, x, None, Some(sys));
  }

  // ---- in place ----

  lemma {:induction false} AddedUpdates(list: seq<Template>, i: nat, kind: Kind, name: string, url: string, pp: bool)
    requires i < |list| && Same(list[i], kind, name) && forall k :: 0 <= k < i ==> !Same(list[k], kind, name)
    ensures Added(list, kind, name, url, pp) == list[i := list[i].(value := Some(url), url := Some(url))]
    decreases i
  {
    if i > 0 {
      AddedUpdates(list[1..], i - 1, kind, name, url, pp);
    }
  }

  lemma {:induction false} AddedAppends(list: seq<Template>, kind: Kind, name: string, url: string, pp: bool)
    requires forall k :: 0 <= k < |list| ==> !Same(list[k], kind, name)
    ensures Added(list, kind, name, url, pp) == list + [Template(kind, Some(name), Some(url), Some(url), pp)]
  {
    if list != [] { AddedAppends(list[1..], kind, name, url, pp); }
  }

  lemma {:induction false} DeletedMarks(list: seq<Template>, value: string)
    ensures |Deleted(list, value)| == |list|
    ensures forall k :: 0 <= k < |list| ==> Deleted(list, value)[k] == Mark(list[k], value)
  {
    if list != [] { DeletedMarks(list[1..], value); }
  }

  class Catalog {
    var list: seq<Template>

    constructor ()
      ensures list == []
    {
      list := [];
    }

    method Add(kind: Kind, name: string, url: string, preferPublic: bool)
      modifies this
      ensures list == Added(old(list), kind, name, url, preferPublic)
    {
      hide Added;
      var i := 0;
      while i < |list|
        invariant 0 <= i <= |list| && list == old(list)
        invariant forall k :: 0 <= k < i ==> !Same(list[k], kind, name)
      {
        if Same(list[i], kind, name) {
          AddedUpdates(list, i, kind, name, url, preferPublic);
          list := list[i := list[i].(value := Some(url), url := Some(url))];
          return;
        }
        i := i + 1;
      }
      AddedAppends(list, kind, name, url, preferPublic);
      list := list + [Template(kind, Some(name), Some(url), Some(url), preferPublic)];
    }

    method Delete(value: string)
      modifies this
      ensures list == Deleted(old(list), value)
    {
      ghost var was := list;
      for i := 0 to |list|
        invariant |list| == |was|
        invariant forall k :: 0 <= k < i ==> list[k] == Mark(was[k], value)
        invariant forall k :: i <= k < |was| ==> list[k] == was[k]
      {
        list := list[i := Mark(list[i], value)];
      }
      DeletedMarks(was, value);
    }
  }
}
