/**
 What every run of the HTML recovery machine keeps: the shape of the name stack, its
 agreement with the callbacks made and with the node stack, and what one tag does.
 */
module HtmlTheorems {
  import opened Common
  import opened Html

  // ---- the shape of the name stack ----

  /** html at the bottom and nowhere else, head only right above it, body at most once. */
  predicate Shape(names: seq<string>)
  {
    && (forall i :: 0 <= i < |names| ==> (names[i] == "html" <==> i == 0))
    && (forall i :: 0 <= i < |names| && names[i] == "head" ==> i == 1)
    && (forall i, j :: 0 <= i < j < |names| ==> !(names[i] == "body" && names[j] == "body"))
  }

  /** The auto-close table never closes html or body. */
  ghost predicate TableKeepsRoots(c: Config)
  {
    forall x: string :: !c.closes(x, "html") && !c.closes(x, "body")
  }

  lemma {:induction false} AutoCloseIsPrefix(c: Config, st: State, newtag: string)
    ensures var r := AutoClose(c, st, newtag);
            && r.names <= st.names
            && (forall i :: |r.names| <= i < |st.names| ==> c.closes(newtag, st.names[i]))
            && (r.names != [] ==> !c.closes(newtag, Last(r.names)))
    decreases |st.names|
  {
    if st.names != [] && c.closes(newtag, Last(st.names)) { AutoCloseIsPrefix(c, Pop(st, true), newtag); }
  }

  /** A start tag's auto-close removes exactly the maximal run at the top that its table
      entry closes. */
  lemma AutoCloseIsMaximalRun(c: Config, st: State, newtag: string, k: nat)
    requires k <= |st.names|
    requires forall i :: k <= i < |st.names| ==> c.closes(newtag, st.names[i])
    requires k > 0 ==> !c.closes(newtag, st.names[k - 1])
    ensures AutoClose(c, st, newtag).names == st.names[..k]
  {
    AutoCloseIsPrefix(c, st, newtag);
  }

  lemma ShapePrefix(names: seq<string>, p: seq<string>)
    requires Shape(names) && p <= names
    ensures Shape(p)
  {
  }

  lemma PreparedShape(c: Config, st: State, name: string)
    requires Shape(st.names) && c.omitted && TableKeepsRoots(c)
    ensures var r := Prepare(c, st, name).names;
            Shape(r) && (name != "html" ==> r != []) && (st.names != [] ==> r != [])
  {
    AutoCloseIsPrefix(c, st, name);
    var st1 := AutoClose(c, st, name);
    ShapePrefix(st.names, st1.names);
    assert st.names != [] ==> !c.closes(name, st.names[0]);
  }

  lemma PushShape(names: seq<string>, name: string)
    requires Shape(names) && !Misplaced(names, name) && (name != "html" ==> names != [])
    ensures Shape(names + [name])
  {
  }

  lemma {:induction false} PopToIsPrefix(st: State, newtag: string)
    ensures PopTo(st, newtag).names <= st.names
    decreases |st.names|
  {
    if st.names != [] && Last(st.names) != newtag { PopToIsPrefix(Pop(st, true), newtag); }
  }

  lemma {:induction false} EofIsEmpty(st: State)
    ensures AutoCloseOnEnd(st).names == []
    decreases |st.names|
  {
    if st.names != [] { EofIsEmpty(Pop(st, true)); }
  }

  lemma StepShape(c: Config, st: State, t: Token)
    requires Shape(st.names) && c.omitted && TableKeepsRoots(c)
    ensures Shape(Step(c, st, t).names)
  {
    hide Shape, Misplaced, CheckImplied, AutoClose, Prepare, PopTo, AutoCloseOnEnd, MayClose, OpenParagraph;
    match t
    case Peek(name) =>
      AutoCloseIsPrefix(c, st, name);
      ShapePrefix(st.names, AutoClose(c, st, name).names);
    case Start(name, end) =>
      PreparedShape(c, st, name);
      var st1 := StartTag(c, st, name);
      if !Misplaced(Prepare(c, st, name).names, name) { PushShape(Prepare(c, st, name).names, name); }
      ShapePrefix(st1.names, DropLast(st1.names));
    case End(name) =>
      PopToIsPrefix(st, name);
      var st1 := AutoCloseOnClose(st, name);
      ShapePrefix(st.names, st1.names);
      ShapePrefix(st.names, DropLast(st1.names));
    case Text =>
      PreparedShape(c, st, "p");
      PreparedParagraph(c, st);
      PIsNeverMisplaced(Prepare(c, st, "p").names);
      PushShape(Prepare(c, st, "p").names, "p");
    case Eof =>
      EofIsEmpty(st);
      ShapePrefix(st.names, []);
  }

  lemma PIsNeverMisplaced(names: seq<string>)
    ensures !Misplaced(names, "p")
  {
  }

  /** Over every run from an empty stack with omitted-tag handling on. */
  lemma {:induction false} RunShape(c: Config, st: State, tokens: seq<Token>)
    requires Shape(st.names) && c.omitted && TableKeepsRoots(c)
    ensures Shape(Run(c, st, tokens).names)
    decreases |tokens|
  {
    if tokens != [] {
      StepShape(c, st, tokens[0]);
      RunShape(c, Step(c, st, tokens[0]), tokens[1..]);
    }
  }

  // ---- the end tag ----

  /** Index of the topmost occurrence of a name. */
  function Topmost(names: seq<string>, name: string): (k: nat)
    requires name in names
    ensures k < |names| && names[k] == name && forall i :: k < i < |names| ==> names[i] != name
  {
    if Last(names) == name then |names| - 1
    else
      assert names == names[..|names| - 1] + [Last(names)];
      Topmost(names[..|names| - 1], name)
  }

  lemma {:induction false} MayCloseIs(names: seq<string>, name: string)
    ensures MayClose(names, name) <==>
            name in names && forall i :: Topmost(names, name) < i < |names| ==> Priority(names[i]) <= Priority(name)
    decreases |names|
  {
    if names != [] && Last(names) != name {
      var p := names[..|names| - 1];
      assert names == p + [Last(names)];
      MayCloseIs(p, name);
      if name in names {
        assert Topmost(names, name) == Topmost(p, name);
        forall i | Topmost(p, name) < i < |names| ensures i < |p| ==> names[i] == p[i] {}
      }
    }
  }

  lemma {:induction false} PopToIs(st: State, name: string)
    requires name in st.names
    ensures PopTo(st, name).names == st.names[..Topmost(st.names, name) + 1]
    decreases |st.names|
  {
    if Last(st.names) != name {
      var p := st.names[..|st.names| - 1];
      assert st.names == p + [Last(st.names)];
      PopToIs(Pop(st, true), name);
      assert p[..Topmost(p, name) + 1] == st.names[..Topmost(p, name) + 1];
    } else {
      assert st.names[..|st.names|] == st.names;
    }
  }

  /** An end tag truncates the stack just below its topmost match if no element above
      the match has a higher priority, and otherwise changes nothing at all. */
  lemma EndTagTruncates(st: State, name: string)
    ensures var r := EndTag(st, name);
            if name in st.names
               && (forall i :: Topmost(st.names, name) < i < |st.names| ==> Priority(st.names[i]) <= Priority(name))
            then r.names == st.names[..Topmost(st.names, name)]
            else r == st
  {
    MayCloseIs(st.names, name);
    if name in st.names {
      var k := Topmost(st.names, name);
      if MayClose(st.names, name) {
        PopToIs(st, name);
        assert Last(st.names[..k + 1]) == name;
        assert DropLast(st.names[..k + 1]) == st.names[..k];
      }
    }
  }

  /** The classes of elements by how hard an end tag finds it to close them. */
  const CLASSES: seq<set<string>> :=
    [{"div"}, {"td", "th"}, {"tr"}, {"thead", "tbody", "tfoot"}, {"table"}, {"head", "body"}, {"html"}]

  /** Position of the class of a name, counted from 1; 0 for every name in none of them. */
  function Rank(name: string, k: nat): (r: nat)
    requires k <= |CLASSES|
    ensures r <= k
  {
    if k == 0 then 0 else if name in CLASSES[k - 1] then k else Rank(name, k - 1)
  }

  lemma PriorityIsRank(a: string, b: string)
    ensures Priority(a) <= Priority(b) <==> Rank(a, 7) <= Rank(b, 7)
  {
    RankOf(a);
    RankOf(b);
  }

  lemma RankOf(a: string)
    ensures Priority(a) == [100, 150, 160, 170, 180, 190, 200, 220][Rank(a, 7)]
  {
    assert Rank(a, 7) == if a in CLASSES[6] then 7 else Rank(a, 6);
    assert Rank(a, 6) == if a in CLASSES[5] then 6 else Rank(a, 5);
    assert Rank(a, 5) == if a in CLASSES[4] then 5 else Rank(a, 4);
    assert Rank(a, 4) == if a in CLASSES[3] then 4 else Rank(a, 3);
    assert Rank(a, 3) == if a in CLASSES[2] then 3 else Rank(a, 2);
    assert Rank(a, 2) == if a in CLASSES[1] then 2 else Rank(a, 1);
    assert Rank(a, 1) == if a in CLASSES[0] then 1 else Rank(a, 0);
  }

  /** The same with the classes written out: an end tag closes what is open above its
      match exactly if none of that is in a later class than the tag itself. */
  lemma EndTagByClass(st: State, name: string)
    ensures var r := EndTag(st, name);
            if name in st.names
               && (forall i :: Topmost(st.names, name) < i < |st.names| ==> Rank(st.names[i], 7) <= Rank(name, 7))
            then r.names == st.names[..Topmost(st.names, name)]
            else r == st
  {
    hide Priority, Rank;
    EndTagTruncates(st, name);
    if name in st.names {
      forall i | Topmost(st.names, name) < i < |st.names|
        ensures Priority(st.names[i]) <= Priority(name) <==> Rank(st.names[i], 7) <= Rank(name, 7)
      {
        PriorityIsRank(st.names[i], name);
      }
    }
  }

  // ---- implied elements ----

  /** A stack that is not empty: head is implied exactly below a lone element, for the elements of a
      head; body exactly where neither head nor body is open, for every name but those that
      imply a head there, html, head, body and the frame elements; otherwise nothing is. */
  lemma ImpliedElements(c: Config, st: State, name: string)
    requires c.omitted && st.names != []
    ensures var s, r := st.names, CheckImplied(c, st, name).names;
            var head := |s| == 1 && name in {"script", "style", "meta", "link", "title", "base"};
            var body := "head" !in s && "body" !in s && !head
                        && name !in {"html", "head", "body", "noframes", "frame", "frameset"};
            r == s + if head then ["head"] else if body then ["body"] else []
  {
  }

  /** The first start tag of a document, with the names written out. Where omitted tags
      are not implied, a head is refused, since it has to be below exactly one element. */
  lemma FirstTag(c: Config, name: string)
    requires !c.isEmpty(name)
    ensures var r := Step(c, EMPTY, Start(name, Gt)).names;
            if !c.omitted then r == if name == "head" then [] else [name]
            else if name in {"script", "style", "meta", "link", "title", "base"} then r == ["html", "head", name]
            else if name in {"head", "body", "noframes", "frame", "frameset"} then r == ["html", name]
            else if name == "html" then r == ["html"]
            else r == ["html", "body", name]
  {
    hide Element, Prepare;
    FirstPrepared(c, name);
    ElementOpens(c, EMPTY, name, Gt);
    var p := Prepare(c, EMPTY, name).names;
    assert Step(c, EMPTY, Start(name, Gt)) == Element(c, EMPTY, name, Gt);
    assert "body" !in ["html"];
    assert Misplaced(p, name) <==> !c.omitted && name == "head";
    assert [] + [name] == [name] && ["html"] + [name] == ["html", name];
    assert ["html", "head"] + [name] == ["html", "head", name] && ["html", "body"] + [name] == ["html", "body", name];
  }

  lemma FirstPrepared(c: Config, name: string)
    ensures var p := Prepare(c, EMPTY, name).names;
            if !c.omitted || name == "html" then p == []
            else if name in {"script", "style", "meta", "link", "title", "base"} then p == ["html", "head"]
            else if name in {"head", "body", "noframes", "frame", "frameset"} then p == ["html"]
            else p == ["html", "body"]
  {
    hide CheckImplied;
    NothingImplied(c, name);
    assert AutoClose(c, EMPTY, name) == EMPTY;
    if c.omitted && name != "html" {
      var st := Push(c, EMPTY, "html");
      assert st.names == ["html"];
      HtmlFirst(c, name);
      ImpliedElements(c, st, name);
    }
  }

  lemma NothingImplied(c: Config, name: string)
    ensures !c.omitted || name == "html" ==> CheckImplied(c, EMPTY, name) == EMPTY
  {
  }

  lemma HtmlFirst(c: Config, name: string)
    requires c.omitted && name != "html"
    ensures CheckImplied(c, EMPTY, name) == CheckImplied(c, Push(c, EMPTY, "html"), name)
  {
  }

  // ---- the callbacks ----

  /** The open elements according to a log; None if an end does not match. */
  function Replay(events: seq<Event>): Option<seq<string>>
  {
    if events == [] then Some([])
    else
      var before := Replay(events[..|events| - 1]);
      if before.None? then None
      else match events[|events| - 1]
        case StartElement(n) => Some(before.value + [n])
        case EndElement(n) => if before.value != [] && Last(before.value) == n then Some(DropLast(before.value)) else None
        case Abandon(n) => if before.value != [] && Last(before.value) == n then Some(DropLast(before.value)) else None
  }

  ghost predicate Told(st: State) { Replay(st.events) == Some(st.names) }

  lemma PushTold(c: Config, st: State, name: string)
    requires Told(st)
    ensures Told(Push(c, st, name))
  {
    var e := st.events + [StartElement(name)];
    assert e[..|e| - 1] == st.events;
  }

  lemma PopTold(st: State, callback: bool)
    requires Told(st) && st.names != []
    ensures Told(Pop(st, callback))
  {
    var e := Pop(st, callback).events;
    assert e[..|e| - 1] == st.events;
  }

  lemma {:induction false} AutoCloseTold(c: Config, st: State, newtag: string)
    requires Told(st)
    ensures Told(AutoClose(c, st, newtag))
    decreases |st.names|
  {
    if st.names != [] && c.closes(newtag, Last(st.names)) {
      PopTold(st, true);
      AutoCloseTold(c, Pop(st, true), newtag);
    }
  }

  lemma {:induction false} PopToTold(st: State, newtag: string)
    requires Told(st)
    ensures Told(PopTo(st, newtag))
    decreases |st.names|
  {
    if st.names != [] && Last(st.names) != newtag {
      PopTold(st, true);
      PopToTold(Pop(st, true), newtag);
    }
  }

  lemma {:induction false} EofTold(st: State)
    requires Told(st)
    ensures Told(AutoCloseOnEnd(st))
    decreases |st.names|
  {
    if st.names != [] {
      PopTold(st, true);
      EofTold(Pop(st, true));
    }
  }

  lemma PrepareTold(c: Config, st: State, name: string)
    requires Told(st)
    ensures Told(Prepare(c, st, name))
  {
    hide Told;
    AutoCloseTold(c, st, name);
    var st1 := AutoClose(c, st, name);
    PushTold(c, st1, "html");
    var st2 := if st1.names == [] then Push(c, st1, "html") else st1;
    PushTold(c, st2, "head");
    PushTold(c, st2, "body");
  }

  lemma StepTold(c: Config, st: State, t: Token)
    requires Told(st)
    ensures Told(Step(c, st, t))
  {
    hide Told, Prepare;
    match t
    case Peek(name) => AutoCloseTold(c, st, name);
    case Start(name, end) =>
      PrepareTold(c, st, name);
      PushTold(c, Prepare(c, st, name), name);
      var st1 := StartTag(c, st, name);
      if st1.names != [] { PopTold(st1, true); PopTold(st1, false); }
    case End(name) =>
      PopToTold(st, name);
      var st1 := AutoCloseOnClose(st, name);
      if st1.names != [] { PopTold(st1, true); }
    case Text =>
      PrepareTold(c, st, "p");
      PushTold(c, Prepare(c, st, "p"), "p");
      PreparedParagraph(c, st);
    case Eof => EofTold(st);
  }

  lemma PreparedParagraph(c: Config, st: State)
    ensures OpenParagraph(c, st) == Push(c, Prepare(c, st, "p"), "p")
  {
  }

  /** What the application is told: the log without the pops nobody announces. */
  function Callbacks(events: seq<Event>): (r: seq<Event>)
  {
    if events == [] then []
    else
      var before := Callbacks(events[..|events| - 1]);
      if events[|events| - 1].Abandon? then before else before + [events[|events| - 1]]
  }

  function Abandoned(events: seq<Event>): nat
  {
    if events == [] then 0
    else Abandoned(events[..|events| - 1]) + if events[|events| - 1].Abandon? then 1 else 0
  }

  /** Starts minus ends. */
  function Balance(events: seq<Event>): int
  {
    if events == [] then 0
    else Balance(events[..|events| - 1]) + if events[|events| - 1].StartElement? then 1 else -1
  }

  lemma {:induction false} ReplayBalance(events: seq<Event>)
    ensures Replay(events).Some? ==> |Replay(events).value| == Balance(events)
  {
    if events != [] { ReplayBalance(events[..|events| - 1]); }
  }

  lemma BalanceSnoc(events: seq<Event>, e: Event)
    ensures Balance(events + [e]) == Balance(events) + if e.StartElement? then 1 else -1
  {
    assert (events + [e])[..|events|] == events;
  }

  lemma {:induction false} CallbacksBalance(events: seq<Event>)
    ensures Balance(Callbacks(events)) == Balance(events) + Abandoned(events)
    ensures Abandoned(events) == 0 ==> Callbacks(events) == events
  {
    if events != [] {
      var before, last := events[..|events| - 1], events[|events| - 1];
      CallbacksBalance(before);
      assert events == before + [last];
      BalanceSnoc(Callbacks(before), last);
    }
  }

  /** The callbacks alone leave open what the name stack holds exactly if no start tag was
      abandoned. */
  lemma ToldIffNoneAbandoned(st: State)
    requires Told(st)
    ensures Replay(Callbacks(st.events)) == Some(st.names) <==> Abandoned(st.events) == 0
  {
    CallbacksBalance(st.events);
    ReplayBalance(st.events);
    ReplayBalance(Callbacks(st.events));
  }

  /** The token abandons an element: its start tag lacks the '>', and after it some element
      is open. */
  predicate Abandons(c: Config, st: State, t: Token)
  {
    t.Start? && t.end.Missing? && StartTag(c, st, t.name).names != []
  }

  lemma Appended(events: seq<Event>, e: Event)
    ensures Abandoned(events + [e]) == Abandoned(events) + if e.Abandon? then 1 else 0
  {
    assert (events + [e])[..|events|] == events;
  }

  lemma {:induction false} AutoCloseAbandons(c: Config, st: State, newtag: string)
    ensures Abandoned(AutoClose(c, st, newtag).events) == Abandoned(st.events)
    decreases |st.names|
  {
    if st.names != [] && c.closes(newtag, Last(st.names)) {
      Appended(st.events, EndElement(Last(st.names)));
      AutoCloseAbandons(c, Pop(st, true), newtag);
    }
  }

  lemma {:induction false} PopToAbandons(st: State, newtag: string)
    ensures Abandoned(PopTo(st, newtag).events) == Abandoned(st.events)
    decreases |st.names|
  {
    if st.names != [] && Last(st.names) != newtag {
      Appended(st.events, EndElement(Last(st.names)));
      PopToAbandons(Pop(st, true), newtag);
    }
  }

  lemma {:induction false} EofAbandons(st: State)
    ensures Abandoned(AutoCloseOnEnd(st).events) == Abandoned(st.events)
    decreases |st.names|
  {
    if st.names != [] {
      Appended(st.events, EndElement(Last(st.names)));
      EofAbandons(Pop(st, true));
    }
  }

  lemma PushAbandons(c: Config, st: State, name: string)
    ensures Abandoned(Push(c, st, name).events) == Abandoned(st.events)
  {
    Appended(st.events, StartElement(name));
  }

  lemma PrepareAbandons(c: Config, st: State, name: string)
    ensures Abandoned(Prepare(c, st, name).events) == Abandoned(st.events)
  {
    hide Abandoned, Push;
    AutoCloseAbandons(c, st, name);
    var st1 := AutoClose(c, st, name);
    PushAbandons(c, st1, "html");
    var st2 := if st1.names == [] then Push(c, st1, "html") else st1;
    PushAbandons(c, st2, "head");
    PushAbandons(c, st2, "body");
  }

  lemma StepAbandons(c: Config, st: State, t: Token)
    ensures Abandoned(Step(c, st, t).events) == Abandoned(st.events) + if Abandons(c, st, t) then 1 else 0
  {
    hide Abandoned, Prepare, AutoClose, PopTo, AutoCloseOnEnd, MayClose, Misplaced;
    match t
    case Peek(name) => AutoCloseAbandons(c, st, name);
    case Start(name, end) =>
      PrepareAbandons(c, st, name);
      PushAbandons(c, Prepare(c, st, name), name);
      var st1 := StartTag(c, st, name);
      if st1.names != [] {
        Appended(st1.events, EndElement(Last(st1.names)));
        Appended(st1.events, Abandon(Last(st1.names)));
      }
    case End(name) =>
      PopToAbandons(st, name);
      var st1 := AutoCloseOnClose(st, name);
      if st1.names != [] { Appended(st1.events, EndElement(Last(st1.names))); }
    case Text =>
      PrepareAbandons(c, st, "p");
      PushAbandons(c, Prepare(c, st, "p"), "p");
      PreparedParagraph(c, st);
    case Eof => EofAbandons(st);
  }

  /** In every run: the callbacks are well nested and leave open exactly the name stack if
      and only if no token before abandons an element. */
  lemma {:induction false} RunIsTold(c: Config, states: seq<State>, tokens: seq<Token>, n: nat)
    requires IsRun(c, states, tokens) && n <= |tokens|
    ensures Told(states[n])
    ensures Replay(Callbacks(states[n].events)) == Some(states[n].names)
            <==> forall i :: 0 <= i < n ==> !Abandons(c, states[i], tokens[i])
    ensures Abandoned(states[n].events) == 0 <==> forall i :: 0 <= i < n ==> !Abandons(c, states[i], tokens[i])
  {
    hide Step, Abandons, Callbacks, Replay;
    if n == 0 {
      assert Told(EMPTY) by { EmptyIsTold(); }
    } else {
      RunIsTold(c, states, tokens, n - 1);
      assert states[n - 1 + 1] == Step(c, states[n - 1], tokens[n - 1]);
      StepTold(c, states[n - 1], tokens[n - 1]);
      StepAbandons(c, states[n - 1], tokens[n - 1]);
    }
    ToldIffNoneAbandoned(states[n]);
  }

  lemma EmptyIsTold()
    ensures Told(EMPTY)
  {
  }

  lemma LoneTag(c: Config)
    requires !c.omitted
    ensures var st := Step(c, EMPTY, Start("b", Missing));
            st.names == [] && st.events == [StartElement("b"), Abandon("b")]
  {
    assert AutoClose(c, EMPTY, "b") == EMPTY;
    assert StartTag(c, EMPTY, "b") == Push(c, EMPTY, "b");
  }

  /** For instance: a lone start tag without its '>' is announced and never taken back. */
  lemma AbandonedIsNotTold(c: Config)
    requires !c.omitted
    ensures var st := Step(c, EMPTY, Start("b", Missing));
            st.names == [] && Replay(Callbacks(st.events)) == Some(["b"])
  {
    hide Step, StartTag, Prepare;
    var e := [StartElement("b"), Abandon("b")];
    LoneTag(c);
    assert e[..1] == [StartElement("b")] && e[..1][..0] == [];
    assert Callbacks([]) == [] && Callbacks([StartElement("b")]) == [StartElement("b")];
    assert Callbacks(e) == [StartElement("b")];
    assert Replay([]) == Some([]) && [StartElement("b")][..0] == [];
    assert Replay([StartElement("b")]) == Some([] + ["b"]) && [] + ["b"] == ["b"];
  }

  // ---- the node stack ----

  predicate Corresponds(st: State) { st.nodes == st.names }

  /** The deepest the name stack gets during a step. */
  function Peak(c: Config, st: State, t: Token): nat
  {
    match t
    case Start(name, _) => |StartTag(c, st, name).names|
    case Text => |CheckParagraph(c, st).names|
    case _ => 0
  }

  predicate Bounded(c: Config, st: State) { |st.nodes| <= c.maxDepth + 1 }

  /** While elements are being opened the stacks agree exactly up to the depth limit. */
  predicate Opening(c: Config, st: State)
  {
    Bounded(c, st) && if |st.names| <= c.maxDepth + 1 then Corresponds(st) else 0 < |st.nodes| < |st.names|
  }

  lemma PushOpening(c: Config, st: State, name: string)
    requires Opening(c, st)
    ensures Opening(c, Push(c, st, name))
  {
  }

  lemma {:induction false} AutoCloseCorresponds(c: Config, st: State, newtag: string)
    requires Corresponds(st) && Bounded(c, st)
    ensures var r := AutoClose(c, st, newtag); Corresponds(r) && Bounded(c, r)
    decreases |st.names|
  {
    if st.names != [] && c.closes(newtag, Last(st.names)) { AutoCloseCorresponds(c, Pop(st, true), newtag); }
  }

  lemma {:induction false} PopToCorresponds(c: Config, st: State, newtag: string)
    requires Corresponds(st) && Bounded(c, st)
    ensures var r := PopTo(st, newtag); Corresponds(r) && Bounded(c, r)
    decreases |st.names|
  {
    if st.names != [] && Last(st.names) != newtag { PopToCorresponds(c, Pop(st, true), newtag); }
  }

  lemma {:induction false} EofCorresponds(c: Config, st: State)
    requires Corresponds(st) && Bounded(c, st)
    ensures var r := AutoCloseOnEnd(st); Corresponds(r) && Bounded(c, r)
    decreases |st.names|
  {
    if st.names != [] { EofCorresponds(c, Pop(st, true)); }
  }

  lemma PreparedOpening(c: Config, st: State, name: string)
    requires Corresponds(st) && Bounded(c, st)
    ensures Opening(c, Prepare(c, st, name))
  {
    AutoCloseCorresponds(c, st, name);
    var st1 := AutoClose(c, st, name);
    assert Opening(c, st1);
    hide Opening;
    PushOpening(c, st1, "html");
    var st2 := if st1.names == [] then Push(c, st1, "html") else st1;
    PushOpening(c, st2, "head");
    PushOpening(c, st2, "body");
  }

  /** One step keeps the stacks in agreement exactly if it does not nest deeper than
      the limit; the pop without a callback keeps them in agreement as well. */
  lemma StepCorresponds(c: Config, st: State, t: Token)
    requires Corresponds(st) && Bounded(c, st)
    ensures var r := Step(c, st, t);
            Bounded(c, r) && (Corresponds(r) <==> Peak(c, st, t) <= c.maxDepth + 1)
  {
    hide Prepare, AutoClose, PopTo, AutoCloseOnEnd, Element, EndTag, CheckParagraph, StartTag;
    match t
    case Peek(name) => AutoCloseCorresponds(c, st, name);
    case Start(name, end) => ElementCorresponds(c, st, name, end);
    case End(name) => EndTagCorresponds(c, st, name);
    case Text => ParagraphCorresponds(c, st);
    case Eof => EofCorresponds(c, st);
  }

  lemma ElementCorresponds(c: Config, st: State, name: string, end: TagEnd)
    requires Corresponds(st) && Bounded(c, st)
    ensures var r := Element(c, st, name, end);
            Bounded(c, r) && (Corresponds(r) <==> |StartTag(c, st, name).names| <= c.maxDepth + 1)
  {
    hide StartTag, Pop;
    StartTagOpening(c, st, name);
    var st1 := StartTag(c, st, name);
    if st1.names != [] {
      PopOpening(c, st1, true);
      PopOpening(c, st1, false);
    }
  }

  lemma StartTagOpening(c: Config, st: State, name: string)
    requires Corresponds(st) && Bounded(c, st)
    ensures Opening(c, StartTag(c, st, name))
  {
    hide Prepare, Misplaced, Opening;
    PreparedOpening(c, st, name);
    PushOpening(c, Prepare(c, st, name), name);
  }

  lemma PopOpening(c: Config, st: State, callback: bool)
    requires Opening(c, st) && st.names != []
    ensures var r := Pop(st, callback);
            Bounded(c, r) && (Corresponds(r) <==> |st.names| <= c.maxDepth + 1)
  {
  }

  lemma EndTagCorresponds(c: Config, st: State, name: string)
    requires Corresponds(st) && Bounded(c, st)
    ensures var r := EndTag(st, name); Corresponds(r) && Bounded(c, r)
  {
    hide PopTo, MayClose;
    PopToCorresponds(c, st, name);
  }

  lemma ParagraphCorresponds(c: Config, st: State)
    requires Corresponds(st) && Bounded(c, st)
    ensures var r := CheckParagraph(c, st);
            Bounded(c, r) && (Corresponds(r) <==> |r.names| <= c.maxDepth + 1)
  {
    hide Prepare, OpenParagraph;
    PreparedOpening(c, st, "p");
    PushOpening(c, Prepare(c, st, "p"), "p");
    PreparedParagraph(c, st);
  }

  ghost predicate IsRun(c: Config, states: seq<State>, tokens: seq<Token>)
  {
    && |states| == |tokens| + 1 && states[0] == EMPTY
    && forall i :: 0 <= i < |tokens| ==> states[i + 1] == Step(c, states[i], tokens[i])
  }

  /** In every run the open names and the open nodes agree, entry by entry, in all
      states up to a point exactly if no token before it nests deeper than the limit. */
  lemma {:induction false} RunCorresponds(c: Config, states: seq<State>, tokens: seq<Token>, n: nat)
    requires IsRun(c, states, tokens) && n <= |tokens|
    ensures (forall i :: 0 <= i <= n ==> Corresponds(states[i]))
            <==> (forall i :: 0 <= i < n ==> Peak(c, states[i], tokens[i]) <= c.maxDepth + 1)
    ensures (forall i :: 0 <= i <= n ==> Corresponds(states[i])) ==> Bounded(c, states[n])
  {
    hide Step, Peak;
    if n > 0 {
      RunCorresponds(c, states, tokens, n - 1);
      assert states[n - 1 + 1] == Step(c, states[n - 1], tokens[n - 1]);
      if forall i :: 0 <= i <= n - 1 ==> Corresponds(states[i]) {
        StepCorresponds(c, states[n - 1], tokens[n - 1]);
      }
    }
  }

  lemma {:induction false} NestRun(c: Config, name: string, n: nat) returns (st: State)
    requires !c.closes(name, name) && !c.isEmpty(name) && name != "html" && name != "head" && name != "body"
    ensures st == Run(c, EMPTY, seq(n, _ => Start(name, Gt)))
    ensures Bounded(c, st) && |st.names| >= n && (n > 0 ==> Last(st.names) == name)
  {
    var tokens := seq(n, _ => Start(name, Gt));
    if n == 0 {
      st := EMPTY;
    } else {
      var before := NestRun(c, name, n - 1);
      assert tokens == seq(n - 1, _ => Start(name, Gt)) + [Start(name, Gt)];
      RunSnoc(c, EMPTY, seq(n - 1, _ => Start(name, Gt)), Start(name, Gt));
      st := Step(c, before, Start(name, Gt));
      NestStep(c, before, name);
    }
  }

  lemma {:induction false} RunSnoc(c: Config, st: State, tokens: seq<Token>, t: Token)
    ensures Run(c, st, tokens + [t]) == Step(c, Run(c, st, tokens), t)
    decreases |tokens|
  {
    hide Step;
    if tokens == [] {
      assert (tokens + [t])[1..] == [];
    } else {
      assert (tokens + [t])[1..] == tokens[1..] + [t];
      RunSnoc(c, Step(c, st, tokens[0]), tokens[1..], t);
    }
  }

  lemma NestStep(c: Config, st: State, name: string)
    requires !c.closes(name, name) && !c.isEmpty(name) && name != "html" && name != "head" && name != "body"
    requires Bounded(c, st) && (st.names != [] ==> Last(st.names) == name)
    ensures var r := Step(c, st, Start(name, Gt));
            Bounded(c, r) && |r.names| >= |st.names| + 1 && Last(r.names) == name
  {
    hide Prepare, Bounded, Misplaced, DropLast;
    NestPrepared(c, st, name);
    NotMisplaced(Prepare(c, st, name).names, name);
    NestPushed(c, Prepare(c, st, name), name);
  }

  lemma NestPrepared(c: Config, st: State, name: string)
    requires !c.closes(name, name) && Bounded(c, st) && (st.names != [] ==> Last(st.names) == name)
    ensures var p := Prepare(c, st, name); Bounded(c, p) && |p.names| >= |st.names|
  {
    assert AutoClose(c, st, name) == st;
  }

  lemma NotMisplaced(names: seq<string>, name: string)
    requires name != "html" && name != "head" && name != "body"
    ensures !Misplaced(names, name)
  {
  }

  lemma NestPushed(c: Config, st: State, name: string)
    requires Bounded(c, st)
    ensures var r := Push(c, st, name); Bounded(c, r) && |r.names| == |st.names| + 1 && Last(r.names) == name
  {
  }

  /** The claim without the limit is false, whatever the limit: an element nested in itself
      once too often, and the stacks disagree. */
  lemma DepthLimitSeparatesStacks(c: Config, name: string)
    requires !c.closes(name, name) && !c.isEmpty(name) && name != "html" && name != "head" && name != "body"
    ensures !Corresponds(Run(c, EMPTY, seq(c.maxDepth + 2, _ => Start(name, Gt))))
  {
    var st := NestRun(c, name, c.maxDepth + 2);
  }

  // ---- what a paragraph and an element leave behind ----

  /** Character data never ends up directly inside html or head, nor outside everything:
      there it opens a paragraph; where it is elsewhere already, nothing changes. */
  lemma TextIsInContent(c: Config, st: State)
    requires c.omitted
    ensures var r := CheckParagraph(c, st);
            if st.names == [] || Last(st.names) in {"html", "head"}
            then r.names == Prepare(c, st, "p").names + ["p"] else r == st
    ensures CheckParagraph(c, EMPTY).names == ["html", "body", "p"]
  {
    hide Prepare;
    ParagraphPrepared(c, st);
    ParagraphPrepared(c, EMPTY);
    FirstPrepared(c, "p");
    assert ["html", "body"] + ["p"] == ["html", "body", "p"];
  }

  lemma ParagraphPrepared(c: Config, st: State)
    ensures OpenParagraph(c, st).names == Prepare(c, st, "p").names + ["p"]
  {
  }

  /** An element that is not refused is open afterwards, on top of what was prepared for it,
      if and only if its tag ends in '>' and it is not empty; otherwise exactly what was
      prepared is open. A refused one that does not stay open closes its surroundings. */
  lemma ElementOpens(c: Config, st: State, name: string, end: TagEnd)
    ensures var p, r := Prepare(c, st, name).names, Element(c, st, name, end).names;
            if (p != [] && name == "html") || (|p| != 1 && name == "head") || ("body" in p && name == "body") then
              r == if p != [] && (end.Gt? ==> c.isEmpty(Last(p))) then DropLast(p) else p
            else r == if end.Gt? && !c.isEmpty(name) then p + [name] else p
  {
    hide Prepare;
    var p := Prepare(c, st, name).names;
    assert DropLast(p + [name]) == p && Last(p + [name]) == name;
  }
}
