/**
 Shared dictionaries: reference counting by several threads. A step is one critical
 section of the dictionary mutex, or work a thread does on a dictionary only it can
 reach. Holders is bookkeeping that the program does not have: who owns which
 reference. A thread that is inside xmlDictCreateSub or xmlDictFree starts nothing
 else; its own pending work may be done in any order here, which allows more runs
 than the program has.
 */
module DictSharing {
  import opened Common

  type Id = nat
  type Thread = nat

  datatype Holder = ByThread(thread: Thread, token: nat) | ByDict(child: Id)

  /** Linking: created by xmlDictCreateSub, the reference to the sub-dictionary not yet
      taken. Tearing: the counter was seen at zero. Releasing: the reference to the
      sub-dictionary is given up, memory not yet freed. */
  datatype Phase =
    | Linking(t: Thread, via: nat, own: nat)
    | Live
    | Tearing(t: Thread)
    | Releasing(t: Thread)
    | Gone

  datatype Info = Info(refs: int, sub: Option<Id>, phase: Phase)

  datatype Sys = Sys(dicts: map<Id, Info>, holders: map<Id, set<Holder>>, released: seq<Id>)

  const EMPTY := Sys(map[], map[], [])

  datatype Step =
    | Create(t: Thread, d: Id, token: nat)
    | CreateSub(t: Thread, d: Id, sub: Id, via: nat, token: nat)
    | DoLink(t: Thread, d: Id)
    | Reference(t: Thread, d: Id, via: nat, token: nat)
    | Give(t: Thread, d: Id, token: nat, to: Thread, newToken: nat)
    | Free(t: Thread, d: Id, token: nat)
    | DoTeardown(t: Thread, d: Id)
    | DoRelease(t: Thread, d: Id)

  predicate WorksOn(p: Phase, t: Thread)
  {
    match p
    case Linking(u, _, _) => t == u
    case Tearing(u) => t == u
    case Releasing(u) => t == u
    case _ => false
  }

  predicate Idle(s: Sys, t: Thread) { forall d :: d in s.dicts ==> !WorksOn(s.dicts[d].phase, t) }

  function HoldersOf(s: Sys, d: Id): set<Holder> { if d in s.holders then s.holders[d] else {} }

  predicate Owns(s: Sys, h: Holder, d: Id) { h in HoldersOf(s, d) }

  predicate InPhase(s: Sys, d: Id, t: Thread)
  {
    d in s.dicts && WorksOn(s.dicts[d].phase, t)
  }

  /** A thread acts on a dictionary only with a reference of its own. */
  predicate Enabled(s: Sys, a: Step)
  {
    match a
    case Create(t, d, _) => Idle(s, t) && d !in s.dicts
    case CreateSub(t, d, sub, via, _) => Idle(s, t) && d !in s.dicts && sub in s.dicts && Owns(s, ByThread(t, via), sub)
    case DoLink(t, d) => InPhase(s, d, t) && s.dicts[d].phase.Linking?
    case Reference(t, d, via, token) =>
      Idle(s, t) && d in s.dicts && Owns(s, ByThread(t, via), d) && !Owns(s, ByThread(t, token), d)
    case Give(t, d, token, to, newToken) =>
      Idle(s, t) && d in s.dicts && Owns(s, ByThread(t, token), d) && !Owns(s, ByThread(to, newToken), d)
    case Free(t, d, token) => Idle(s, t) && d in s.dicts && Owns(s, ByThread(t, token), d)
    case DoTeardown(t, d) => InPhase(s, d, t) && s.dicts[d].phase.Tearing?
    case DoRelease(t, d) => InPhase(s, d, t) && s.dicts[d].phase.Releasing?
  }

  function SetPhase(s: Sys, d: Id, p: Phase): Sys
    requires d in s.dicts
  {
    s.(dicts := s.dicts[d := s.dicts[d].(phase := p)])
  }

  /** ref_counter++ under the mutex. */
  function Take(s: Sys, d: Id, h: Holder): Sys
  {
    if d !in s.dicts then s
    else s.(dicts := s.dicts[d := s.dicts[d].(refs := s.dicts[d].refs + 1)], holders := s.holders[d := HoldersOf(s, d) + {h}])
  }

  /** ref_counter-- under the mutex; the thread that sees zero takes d apart. */
  function Drop(s: Sys, t: Thread, d: Id, h: Holder): Sys
  {
    if d !in s.dicts then s
    else
      var info := s.dicts[d];
      s.(dicts := s.dicts[d := Info(info.refs - 1, info.sub, if info.refs - 1 > 0 then info.phase else Tearing(t))],
         holders := s.holders[d := HoldersOf(s, d) - {h}])
  }

  function NewDict(s: Sys, t: Thread, d: Id, info: Info, token: nat): Sys
  {
    s.(dicts := s.dicts[d := info], holders := s.holders[d := {ByThread(t, token)}])
  }

  function Apply(s: Sys, a: Step): Sys
    requires Enabled(s, a)
  {
    match a
    case Create(t, d, token) => NewDict(s, t, d, Info(1, None, Live), token)
    case CreateSub(t, d, sub, via, token) => NewDict(s, t, d, Info(1, Some(sub), Linking(t, via, token)), token)
    case DoLink(t, d) =>
      var s1 := SetPhase(s, d, Live);
      if s.dicts[d].sub.Some? then Take(s1, s.dicts[d].sub.value, ByDict(d)) else s1
    case Reference(t, d, _, token) => Take(s, d, ByThread(t, token))
    case Give(t, d, token, to, newToken) =>
      s.(holders := s.holders[d := HoldersOf(s, d) - {ByThread(t, token)} + {ByThread(to, newToken)}])
    case Free(t, d, token) => Drop(s, t, d, ByThread(t, token))
    case DoTeardown(t, d) =>
      var s1 := SetPhase(s, d, Releasing(t));
      if s.dicts[d].sub.Some? then Drop(s1, t, s.dicts[d].sub.value, ByDict(d)) else s1
    case DoRelease(t, d) => SetPhase(s, d, Gone).(released := s.released + [d])
  }

  // ---- what every reachable state satisfies ----

  predicate Dying(p: Phase) { p.Tearing? || p.Releasing? || p.Gone? }

  /** A dictionary holds its sub-dictionary while it is live or not yet taken apart. */
  predicate HoldsSub(info: Info) { info.sub.Some? && (info.phase.Live? || info.phase.Tearing?) }

  /** The counter counts the owned references; it is zero exactly once teardown began. */
  ghost predicate Counted(s: Sys, d: Id)
    requires d in s.dicts
  {
    && s.dicts[d].refs == |HoldersOf(s, d)|
    && (HoldersOf(s, d) == {} <==> Dying(s.dicts[d].phase))
  }

  ghost predicate SubHeld(s: Sys, c: Id)
    requires c in s.dicts
  {
    && (HoldsSub(s.dicts[c]) ==> s.dicts[c].sub.value in s.dicts && Owns(s, ByDict(c), s.dicts[c].sub.value))
    && (s.dicts[c].phase.Linking? ==> s.dicts[c].sub.Some? && LinkHeld(s, c, s.dicts[c].sub.value))
  }

  /** A thread that is still linking holds both dictionaries itself. */
  ghost predicate LinkHeld(s: Sys, c: Id, sub: Id)
    requires c in s.dicts && s.dicts[c].phase.Linking?
  {
    var p := s.dicts[c].phase;
    sub in s.dicts && Owns(s, ByThread(p.t, p.via), sub) && Owns(s, ByThread(p.t, p.own), c)
  }

  ghost predicate HeldBy(s: Sys, d: Id, c: Id)
  {
    Owns(s, ByDict(c), d) ==> c in s.dicts && HoldsSub(s.dicts[c]) && s.dicts[c].sub == Some(d)
  }

  predicate NoRepeats(ids: seq<Id>) { forall i, j :: 0 <= i < j < |ids| ==> ids[i] != ids[j] }

  /** Memory is given back once, and exactly for the dictionaries that are gone. */
  ghost predicate ReleasedOnce(s: Sys)
  {
    NoRepeats(s.released) && forall d :: d in s.released <==> d in s.dicts && s.dicts[d].phase.Gone?
  }

  ghost predicate Inv(s: Sys)
  {
    && s.holders.Keys == s.dicts.Keys
    && (forall d :: d in s.dicts ==> Counted(s, d))
    && (forall c :: c in s.dicts ==> SubHeld(s, c))
    && (forall d, c :: d in s.dicts ==> HeldBy(s, d, c))
    && ReleasedOnce(s)
  }

  lemma NewKeeps(s: Sys, a: Step)
    requires Inv(s) && Enabled(s, a) && (a.Create? || a.CreateSub?)
    ensures Inv(Apply(s, a))
  {
    var s' := Apply(s, a);
    forall c | c in s'.dicts ensures Counted(s', c) && SubHeld(s', c) {
      if c in s.dicts { assert Counted(s, c) && SubHeld(s, c); }
    }
    forall d, c | d in s'.dicts ensures HeldBy(s', d, c) {
      if d in s.dicts { assert HeldBy(s, d, c); }
    }
    assert a.d !in s.released;
  }

  lemma ReferenceKeeps(s: Sys, a: Step)
    requires Inv(s) && Enabled(s, a) && a.Reference?
    ensures Inv(Apply(s, a))
  {
    TakeKeeps(s, a.d, ByThread(a.t, a.token));
  }

  /** One more reference of a thread to a dictionary that has some. */
  lemma TakeKeeps(s: Sys, d: Id, h: Holder)
    requires Inv(s) && d in s.dicts && h.ByThread? && !Owns(s, h, d) && HoldersOf(s, d) != {}
    ensures Inv(Take(s, d, h))
  {
    var s' := Take(s, d, h);
    assert Counted(s, d);
    assert Counted(s', d);
    forall c | c in s'.dicts ensures Counted(s', c) && SubHeld(s', c) {
      assert Counted(s, c) && SubHeld(s, c);
    }
    forall e, c | e in s'.dicts ensures HeldBy(s', e, c) { assert HeldBy(s, e, c); }
  }

  lemma GiveKeeps(s: Sys, a: Step)
    requires Inv(s) && Enabled(s, a) && a.Give?
    ensures Inv(Apply(s, a))
  {
    var s' := Apply(s, a);
    assert Counted(s, a.d);
    GiveCounts(HoldersOf(s, a.d), ByThread(a.t, a.token), ByThread(a.to, a.newToken));
    forall c | c in s'.dicts ensures Counted(s', c) && SubHeld(s', c) {
      assert Counted(s, c) && SubHeld(s, c);
    }
    forall d, c | d in s'.dicts ensures HeldBy(s', d, c) { assert HeldBy(s, d, c); }
  }

  lemma GiveCounts(hs: set<Holder>, x: Holder, y: Holder)
    requires x in hs && y !in hs
    ensures |hs - {x} + {y}| == |hs|
  {
  }

  lemma FreeKeeps(s: Sys, a: Step)
    requires Inv(s) && Enabled(s, a) && a.Free?
    ensures Inv(Apply(s, a))
  {
    var s' := Apply(s, a);
    assert Counted(s, a.d) && SubHeld(s, a.d);
    forall c | c in s'.dicts ensures Counted(s', c) && SubHeld(s', c) {
      assert Counted(s, c) && SubHeld(s, c);
    }
    forall d, c | d in s'.dicts ensures HeldBy(s', d, c) { assert HeldBy(s, d, c); }
  }

  lemma LinkKeeps(s: Sys, a: Step)
    requires Inv(s) && Enabled(s, a) && a.DoLink?
    ensures Inv(Apply(s, a))
  {
    LinkFacts(s, a);
    var s', sub := Apply(s, a), s.dicts[a.d].sub.value;
    assert s' == Take(SetPhase(s, a.d, Live), sub, ByDict(a.d));
    hide Counted, SubHeld, HeldBy, LinkHeld, Owns, Apply, Enabled, ReleasedOnce;
    forall c | c in s'.dicts ensures Counted(s', c) && SubHeld(s', c) { LinkKeepsOne(s, s', a.d, sub, c); }
    forall d, c | d in s'.dicts ensures HeldBy(s', d, c) { LinkKeepsHeldBy(s, s', a.d, sub, d, c); }
    LinkKeepsReleased(s, s', a.d, sub);
  }

  lemma LinkFacts(s: Sys, a: Step)
    requires Inv(s) && Enabled(s, a) && a.DoLink?
    ensures s.dicts[a.d].sub.Some?
    ensures var sub := s.dicts[a.d].sub.value; sub in s.dicts && LinkHeld(s, a.d, sub) && !Owns(s, ByDict(a.d), sub)
  {
    assert SubHeld(s, a.d);
    assert HeldBy(s, s.dicts[a.d].sub.value, a.d);
  }

  lemma LinkKeepsHeldBy(s: Sys, s': Sys, d: Id, sub: Id, e: Id, c: Id)
    requires d in s.dicts && sub in s.dicts && s.dicts[d].sub == Some(sub) && s.dicts[d].phase.Linking?
    requires s' == Take(SetPhase(s, d, Live), sub, ByDict(d)) && HeldBy(s, e, c)
    ensures HeldBy(s', e, c)
  {
  }

  lemma LinkKeepsReleased(s: Sys, s': Sys, d: Id, sub: Id)
    requires ReleasedOnce(s) && d in s.dicts && sub in s.dicts && s.dicts[d].phase.Linking?
    requires s' == Take(SetPhase(s, d, Live), sub, ByDict(d))
    ensures ReleasedOnce(s')
  {
  }

  lemma LinkKeepsOne(s: Sys, s': Sys, d: Id, sub: Id, c: Id)
    requires d in s.dicts && sub in s.dicts && c in s.dicts && s.dicts[d].sub == Some(sub)
    requires Counted(s, c) && SubHeld(s, c) && Counted(s, sub) && Counted(s, d)
    requires s.dicts[d].phase.Linking? && LinkHeld(s, d, sub) && !Owns(s, ByDict(d), sub)
    requires s' == Take(SetPhase(s, d, Live), sub, ByDict(d))
    ensures c in s'.dicts && Counted(s', c) && SubHeld(s', c)
  {
  }

  lemma TeardownKeeps(s: Sys, a: Step)
    requires Inv(s) && Enabled(s, a) && a.DoTeardown?
    ensures Inv(Apply(s, a))
  {
    var s' := Apply(s, a);
    TeardownFacts(s, a);
    hide Counted, SubHeld, HeldBy, Apply, Enabled, ReleasedOnce;
    forall c | c in s.dicts ensures Counted(s', c) && SubHeld(s', c) { TeardownKeepsOne(s, s', a, c); }
    forall d, c | d in s.dicts ensures HeldBy(s', d, c) { TeardownKeepsHeldBy(s, s', a, d, c); }
    TeardownKeepsReleased(s, s', a);
  }

  /** The sub-dictionary of one being taken apart is there, and held by it. */
  ghost predicate Tearable(s: Sys, a: Step)
  {
    && Enabled(s, a) && a.DoTeardown? && Counted(s, a.d)
    && (s.dicts[a.d].sub.Some? ==>
          var sub := s.dicts[a.d].sub.value;
          sub in s.dicts && sub != a.d && Counted(s, sub) && Owns(s, ByDict(a.d), sub))
  }

  lemma TeardownFacts(s: Sys, a: Step)
    requires Inv(s) && Enabled(s, a) && a.DoTeardown?
    ensures Tearable(s, a) && Apply(s, a).dicts.Keys == s.dicts.Keys == Apply(s, a).holders.Keys
  {
    assert Counted(s, a.d) && SubHeld(s, a.d);
  }

  lemma TeardownKeepsOne(s: Sys, s': Sys, a: Step, c: Id)
    requires Tearable(s, a) && s' == Apply(s, a) && c in s.dicts && Counted(s, c) && SubHeld(s, c)
    ensures c in s'.dicts && Counted(s', c) && SubHeld(s', c)
  {
  }

  lemma TeardownKeepsHeldBy(s: Sys, s': Sys, a: Step, d: Id, c: Id)
    requires Tearable(s, a) && s' == Apply(s, a) && d in s.dicts && HeldBy(s, d, c)
    ensures HeldBy(s', d, c)
  {
  }

  lemma TeardownKeepsReleased(s: Sys, s': Sys, a: Step)
    requires Tearable(s, a) && s' == Apply(s, a) && ReleasedOnce(s)
    ensures ReleasedOnce(s')
  {
  }

  lemma ReleaseKeeps(s: Sys, a: Step)
    requires Inv(s) && Enabled(s, a) && a.DoRelease?
    ensures Inv(Apply(s, a))
  {
    var s' := Apply(s, a);
    assert Counted(s, a.d) && SubHeld(s, a.d);
    forall c | c in s'.dicts ensures Counted(s', c) && SubHeld(s', c) {
      assert Counted(s, c) && SubHeld(s, c);
    }
    forall d, c | d in s'.dicts ensures HeldBy(s', d, c) { assert HeldBy(s, d, c); }
    assert a.d !in s.released;
  }

  lemma StepKeeps(s: Sys, a: Step)
    requires Inv(s) && Enabled(s, a)
    ensures Inv(Apply(s, a))
  {
    hide Inv, Apply;
    match a
    case Create(_, _, _) => NewKeeps(s, a);
    case CreateSub(_, _, _, _, _) => NewKeeps(s, a);
    case DoLink(_, _) => LinkKeeps(s, a);
    case Reference(_, _, _, _) => ReferenceKeeps(s, a);
    case Give(_, _, _, _, _) => GiveKeeps(s, a);
    case Free(_, _, _) => FreeKeeps(s, a);
    case DoTeardown(_, _) => TeardownKeeps(s, a);
    case DoRelease(_, _) => ReleaseKeeps(s, a);
  }

  ghost predicate Reachable(states: seq<Sys>, steps: seq<Step>)
  {
    && |states| == |steps| + 1 && states[0] == EMPTY
    && forall i :: 0 <= i < |steps| ==> Enabled(states[i], steps[i]) && states[i + 1] == Apply(states[i], steps[i])
  }

  lemma {:induction false} ReachableKeeps(states: seq<Sys>, steps: seq<Step>, i: nat)
    requires Reachable(states, steps) && i <= |steps|
    ensures Inv(states[i])
  {
    if i > 0 {
      ReachableKeeps(states, steps, i - 1);
      assert states[i - 1 + 1] == Apply(states[i - 1], steps[i - 1]);
      StepKeeps(states[i - 1], steps[i - 1]);
    }
  }

  /** In every interleaving: a dictionary somebody holds is intact; a dictionary that
      is not gone finds its sub-dictionary intact; the counter is zero exactly for
      those in teardown or gone; memory is released at most once each. */
  lemma SharingIsSafe(states: seq<Sys>, steps: seq<Step>, i: nat, d: Id)
    requires Reachable(states, steps) && i <= |steps| && d in states[i].dicts
    ensures var s := states[i];
            && (HoldersOf(s, d) != {} ==> !Dying(s.dicts[d].phase) && s.dicts[d].refs > 0)
            && (s.dicts[d].refs == 0 <==> Dying(s.dicts[d].phase))
            && (s.dicts[d].sub.Some? && !s.dicts[d].phase.Releasing? && !s.dicts[d].phase.Gone? ==>
                  s.dicts[d].sub.value in s.dicts && !Dying(s.dicts[s.dicts[d].sub.value].phase))
            && NoRepeats(s.released) && (d in s.released <==> s.dicts[d].phase.Gone?)
  {
    ReachableKeeps(states, steps, i);
    var s := states[i];
    assert Counted(s, d) && SubHeld(s, d);
    if s.dicts[d].sub.Some? && s.dicts[d].sub.value in s.dicts { assert Counted(s, s.dicts[d].sub.value); }
  }

  lemma DyingIsLast(s: Sys, a: Step, d: Id)
    requires Inv(s) && Enabled(s, a) && d in s.dicts && !Dying(s.dicts[d].phase)
    ensures var s' := Apply(s, a);
            d in s'.dicts && (Dying(s'.dicts[d].phase) ==>
              (a.Free? || a.DoTeardown?) && s'.dicts[d].phase == Tearing(a.t) && |HoldersOf(s, d)| == 1)
  {
    assert Counted(s, d);
    hide Inv, Idle, Counted, HoldersOf;
  }

  /** A dictionary enters teardown in the one step that gives up its last reference, and
      the thread that took that step is the one that takes it apart. */
  lemma LastReferenceTearsDown(states: seq<Sys>, steps: seq<Step>, i: nat, d: Id)
    requires Reachable(states, steps) && i < |steps| && d in states[i].dicts && !Dying(states[i].dicts[d].phase)
    ensures var (s, s') := (states[i], states[i + 1]);
            && d in s'.dicts
            && (Dying(s'.dicts[d].phase) <==> HoldersOf(s', d) == {})
            && (Dying(s'.dicts[d].phase) ==>
                  (steps[i].Free? || steps[i].DoTeardown?) && s'.dicts[d].phase == Tearing(steps[i].t)
                  && |HoldersOf(s, d)| == 1)
  {
    ReachableKeeps(states, steps, i);
    ReachableKeeps(states, steps, i + 1);
    DyingIsLast(states[i], steps[i], d);
    assert Counted(states[i + 1], d);
    hide Apply, Enabled;
  }
}
