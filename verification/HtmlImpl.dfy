/**
 The HTML parser context in place: the two stacks are tables that double when full, with
 the top entry kept beside them, and the loops of the recovery functions read that copy.
 Every method of the parser is proved to compute the function of the same name in Html.
 */
module HtmlImpl {
  import opened Common
  import H = Html

  const INITIAL_SIZE := 10

  /** nameTab, nameNr and name, or nodeTab, nodeNr and node; nameMax is the length of the
      table. */
  class TagStack {
    var nameTab: array<string>
    var nameNr: nat
    var name: Option<string>
    ghost var Repr: set<object>

    /** name is the top entry, and None exactly for the empty stack. */
    ghost predicate Valid()
      reads this, Repr
    {
      && Repr == {this, nameTab} && 0 < nameTab.Length && nameNr <= nameTab.Length
      && name == (if nameNr == 0 then None else Some(nameTab[nameNr - 1]))
    }

    ghost function View(): (s: seq<string>)
      requires Valid()
      reads this, Repr
      ensures |s| == nameNr && (s == [] <==> name.None?) && (s != [] ==> name == Some(H.Last(s)))
    {
      nameTab[..nameNr]
    }

    constructor ()
      ensures Valid() && fresh(Repr) && View() == []
    {
      nameTab := new string[INITIAL_SIZE](_ => "");
      nameNr, name := 0, None;
      new;
      Repr := {this, nameTab};
    }

    /** The table doubles; entries, count and top stay. */
    method Grow()
      requires Valid()
      modifies this
      ensures Valid() && fresh(Repr - old(Repr)) && View() == old(View()) && nameTab.Length == 2 * old(nameTab.Length)
    {
      var old_, tab := nameTab, new string[2 * nameTab.Length](_ => "");
      for i := 0 to nameNr
        invariant tab[..i] == old_[..i] && unchanged(this)
      {
        tab[i] := old_[i];
      }
      nameTab := tab;
      Repr := {this, nameTab};
    }

    /** htmlnamePush, and nodePush within its limit. */
    method Push(value: string)
      requires Valid()
      modifies Repr
      ensures Valid() && fresh(Repr - old(Repr)) && View() == old(View()) + [value]
    {
      if nameNr >= nameTab.Length { Grow(); }
      nameTab[nameNr] := value;
      name := Some(value);
      nameNr := nameNr + 1;
    }

    /** htmlnamePop and nodePop. */
    method Pop()
      requires Valid()
      modifies Repr
      ensures Valid() && Repr == old(Repr) && View() == H.DropLast(old(View()))
    {
      if nameNr == 0 { return; }
      nameNr := nameNr - 1;
      name := if nameNr > 0 then Some(nameTab[nameNr - 1]) else None;
      nameTab[nameNr] := "";
    }
  }

  class Parser {
    const c: H.Config
    const names: TagStack
    const nodes: TagStack
    var events: seq<H.Event>

    ghost predicate Valid()
      reads this, names, names.Repr, nodes, nodes.Repr
    {
      names.Valid() && nodes.Valid() && names.Repr !! nodes.Repr && this !in names.Repr && this !in nodes.Repr
    }

    ghost function View(): H.State
      requires Valid()
      reads this, names, names.Repr, nodes, nodes.Repr
    {
      H.State(names.View(), nodes.View(), events)
    }

    constructor (config: H.Config)
      ensures Valid() && c == config && View() == H.EMPTY && fresh(names.Repr) && fresh(nodes.Repr)
    {
      c := config;
      names := new TagStack();
      nodes := new TagStack();
      events := [];
    }

    /** htmlnamePush followed by the startElement callback, which pushes the node. */
    method Push(name: string)
      requires Valid()
      modifies this, names.Repr, nodes.Repr
      ensures Valid() && fresh(names.Repr - old(names.Repr)) && fresh(nodes.Repr - old(nodes.Repr))
      ensures View() == H.Push(c, old(View()), name)
    {
      names.Push(name);
      events := events + [H.StartElement(name)];
      if nodes.nameNr <= c.maxDepth { nodes.Push(name); }
    }

    /** The endElement callback, which pops the node, followed by htmlnamePop. */
    method Pop(callback: bool)
      requires Valid() && names.name.Some?
      modifies this, names.Repr, nodes.Repr
      ensures Valid() && fresh(names.Repr - old(names.Repr)) && fresh(nodes.Repr - old(nodes.Repr))
      ensures old(names.View()) != [] && View() == H.Pop(old(View()), callback)
    {
      var name := names.name.value;
      events := events + [if callback then H.EndElement(name) else H.Abandon(name)];
      nodes.Pop();
      names.Pop();
    }

    method AutoClose(newtag: string)
      requires Valid()
      modifies this, names.Repr, nodes.Repr
      ensures Valid() && fresh(names.Repr - old(names.Repr)) && fresh(nodes.Repr - old(nodes.Repr))
      ensures View() == H.AutoClose(c, old(View()), newtag)
    {
      hide TagStack.Valid, TagStack.View;
      while names.name.Some? && c.closes(newtag, names.name.value)
        invariant Valid() && fresh(names.Repr - old(names.Repr)) && fresh(nodes.Repr - old(nodes.Repr))
        invariant H.AutoClose(c, old(View()), newtag) == H.AutoClose(c, View(), newtag)
        decreases |names.View()|
      {
        Pop(true);
      }
    }

    method AutoCloseOnEnd()
      requires Valid()
      modifies this, names.Repr, nodes.Repr
      ensures Valid() && fresh(names.Repr - old(names.Repr)) && fresh(nodes.Repr - old(nodes.Repr))
      ensures View() == H.AutoCloseOnEnd(old(View()))
    {
      hide TagStack.Valid, TagStack.View;
      var i := names.nameNr;
      while i > 0
        invariant Valid() && fresh(names.Repr - old(names.Repr)) && fresh(nodes.Repr - old(nodes.Repr))
        invariant i == |names.View()| && H.AutoCloseOnEnd(old(View())) == H.AutoCloseOnEnd(View())
      {
        Pop(true);
        i := i - 1;
      }
    }

    /** The downward scan of htmlAutoCloseOnClose, stopped by the match or a priority. */
    method MayClose(newtag: string) returns (b: bool)
      requires Valid()
      ensures b == H.MayClose(names.View(), newtag)
    {
      var priority := H.Priority(newtag);
      var i := names.nameNr;
      ghost var s := names.View();
      assert s[..i] == s;
      while i > 0 && names.nameTab[i - 1] != newtag
        invariant 0 <= i <= names.nameNr && H.MayClose(s, newtag) == H.MayClose(s[..i], newtag)
      {
        assert H.DropLast(s[..i]) == s[..i - 1] && H.Last(s[..i]) == names.nameTab[i - 1];
        if H.Priority(names.nameTab[i - 1]) > priority { return false; }
        i := i - 1;
      }
      b := i > 0;
      assert i > 0 ==> H.Last(s[..i]) == newtag;
    }

    method AutoCloseOnClose(newtag: string)
      requires Valid()
      modifies this, names.Repr, nodes.Repr
      ensures Valid() && fresh(names.Repr - old(names.Repr)) && fresh(nodes.Repr - old(nodes.Repr))
      ensures View() == H.AutoCloseOnClose(old(View()), newtag)
    {
      hide TagStack.Valid, TagStack.View, H.MayClose;
      var found := MayClose(newtag);
      if !found { return; }
      while names.name.Some? && names.name.value != newtag
        invariant Valid() && fresh(names.Repr - old(names.Repr)) && fresh(nodes.Repr - old(nodes.Repr))
        invariant H.PopTo(old(View()), newtag) == H.PopTo(View(), newtag)
        decreases |names.View()|
      {
        Pop(true);
      }
    }

    /** Whether a name is open, searched from the bottom or from the top alike. */
    method IsOpen(name: string) returns (b: bool)
      requires Valid()
      ensures b == (name in names.View())
    {
      ghost var s := names.View();
      var i := names.nameNr;
      while i > 0
        invariant 0 <= i <= names.nameNr && name !in s[i..]
      {
        i := i - 1;
        if names.nameTab[i] == name {
          assert s[i] == name;
          return true;
        }
      }
      assert s[0..] == s;
      b := false;
    }

    method CheckImplied(newtag: string)
      requires Valid()
      modifies this, names.Repr, nodes.Repr
      ensures Valid() && fresh(names.Repr - old(names.Repr)) && fresh(nodes.Repr - old(nodes.Repr))
      ensures View() == H.CheckImplied(c, old(View()), newtag)
    {
      hide TagStack.Valid, TagStack.View;
      if !c.omitted || newtag == "html" { return; }
      if names.nameNr <= 0 { Push("html"); }
      if newtag == "body" || newtag == "head" { return; }
      if names.nameNr <= 1 && H.HeadOnly(newtag) {
        Push("head");
      } else if !H.Frames(newtag) {
        var body := IsOpen("body");
        var head := IsOpen("head");
        if body || head { return; }
        Push("body");
      }
    }

    method CheckParagraph()
      requires Valid()
      modifies this, names.Repr, nodes.Repr
      ensures Valid() && fresh(names.Repr - old(names.Repr)) && fresh(nodes.Repr - old(nodes.Repr))
      ensures View() == H.CheckParagraph(c, old(View()))
    {
      hide TagStack.Valid, TagStack.View, H.AutoClose, H.CheckImplied;
      var tag := names.name;
      if tag.Some? {
        if !c.omitted { return; }
        if tag.value != "html" && tag.value != "head" { return; }
      }
      AutoClose("p");
      CheckImplied("p");
      Push("p");
    }

    method StartTag(name: string)
      requires Valid()
      modifies this, names.Repr, nodes.Repr
      ensures Valid() && fresh(names.Repr - old(names.Repr)) && fresh(nodes.Repr - old(nodes.Repr))
      ensures View() == H.StartTag(c, old(View()), name)
    {
      hide TagStack.Valid, TagStack.View, H.AutoClose, H.CheckImplied;
      AutoClose(name);
      CheckImplied(name);
      if names.nameNr > 0 && name == "html" { return; }
      if names.nameNr != 1 && name == "head" { return; }
      if name == "body" {
        var open := IsOpen("body");
        if open { return; }
      }
      Push(name);
    }

    /** htmlParseElement up to its content. */
    method Element(name: string, end: H.TagEnd)
      requires Valid()
      modifies this, names.Repr, nodes.Repr
      ensures Valid() && fresh(names.Repr - old(names.Repr)) && fresh(nodes.Repr - old(nodes.Repr))
      ensures View() == H.Element(c, old(View()), name, end)
    {
      hide TagStack.Valid, TagStack.View, H.StartTag;
      StartTag(name);
      if names.name.None? { return; }
      match end
      case SlashGt => Pop(true);
      case Missing => Pop(false);
      case Gt => if c.isEmpty(names.name.value) { Pop(true); }
    }

    method EndTag(name: string)
      requires Valid()
      modifies this, names.Repr, nodes.Repr
      ensures Valid() && fresh(names.Repr - old(names.Repr)) && fresh(nodes.Repr - old(nodes.Repr))
      ensures View() == H.EndTag(old(View()), name)
    {
      hide TagStack.Valid, TagStack.View, H.AutoCloseOnClose;
      var open := IsOpen(name);
      if !open { return; }
      AutoCloseOnClose(name);
      if names.name == Some(name) { Pop(true); }
    }
  }
}
