/**
 The tree builder in place. TextBlock is a text node with the block its content lies in.
 TreeBuilder is the parser context: the text being added to is such a node, and strings
 of the dictionary are blocks that several nodes share. Its callbacks are proved to
 compute Sax2.Step and never to write to a string of the dictionary.
 */
module Sax2Impl {
  import opened Sax2

  /** A text node: content in the node itself, in the dictionary, or in a block of its own. */
  class TextBlock {
    var store: Store
    var content: array<char>

    ghost function View(): Child
      reads this, content
    {
      Text(store, content[..])
    }

    constructor (s: Store, block: array<char>)
      ensures store == s && content == block
    {
      store, content := s, block;
    }

    /** xmlStrdup of what the node holds. */
    method Duplicate(nodelen: nat)
      requires nodelen < content.Length && content[nodelen] == NUL && NUL !in content[..nodelen]
      modifies this
      ensures store == Heap && fresh(content) && content[..] == Dup(CStr(old(content[..])))
    {
      CStrIs(content[..], nodelen);
      assert content[..][..nodelen] == content[..nodelen];
      var block := new char[nodelen + 1];
      Copy(block, 0, content[..nodelen]);
      block[nodelen] := NUL;
      assert block[..] == block[..nodelen] + [NUL];
      assert block[..nodelen] == content[..nodelen];
      store, content := Heap, block;
    }

    /** xmlRealloc: the old bytes move to the new block, whose rest is arbitrary. */
    method Reallocate(size: nat)
      requires content.Length <= size
      modifies this
      ensures store == old(store) && fresh(content) && content[..] == Resize(old(content[..]), size)
    {
      var block := new char[size](_ => '?');
      Copy(block, 0, content[..]);
      assert block[..] == block[0..content.Length] + block[content.Length..];
      content := block;
    }

    /** The bytes and the terminator, into a block of the node's own. */
    method Write(nodelen: nat, ch: string)
      requires nodelen + |ch| < content.Length
      modifies content
      ensures content[..] == Put(old(content[..]), nodelen, ch)
    {
      ghost var was := content[..];
      Copy(content, nodelen, ch);
      content[nodelen + |ch|] := NUL;
      assert content[..] == content[..nodelen] + content[nodelen..nodelen + |ch|] + [NUL] + content[nodelen + |ch| + 1..];
      assert content[nodelen + |ch| + 1..] == was[nodelen + |ch| + 1..];
    }

    /** Copy on write, then room for n more characters: afterwards the content lies in a
        block of the node's own, and its old place is as it was. */
    method MakeRoom(nodelen: nat, nodemem: nat, n: nat) returns (size: nat)
      requires TextOk(View(), nodelen, nodemem)
      modifies this
      ensures size == (if nodelen + n < nodemem then nodemem else (nodemem + n) * 2)
      ensures store.Heap? && content.Length == size
      ensures var own := Own(old(View()), nodelen, nodemem).mem;
              |own| == nodemem && content[..] == if nodelen + n < nodemem then own else Resize(own, size)
      ensures fresh(content) || (content == old(content) && old(store.Heap?))
    {
      ghost var before := content[..];
      CStrIs(before, nodelen);
      assert before[..nodelen] == content[..nodelen];
      if store.Inline? {
        Duplicate(nodelen);
      } else if nodemem == nodelen + 1 && store.Interned? {
        Duplicate(nodelen);
      }
      size := nodemem;
      if nodelen + n >= nodemem {
        size := (nodemem + n) * 2;
        Reallocate(size);
      }
    }

    /** The fast path of xmlSAX2Characters. Only a block of the node's own is ever written:
        content that lies in the node or in the dictionary is not in the frame. */
    method Append(nodelen: int, nodemem: int, ch: string) returns (length: nat, size: nat)
      requires TextOk(View(), nodelen, nodemem) && NUL !in ch
      modifies this, if store.Heap? then {content} else {}
      ensures Appended(View(), length, size) == Sax2.Append(old(View()), nodelen, nodemem, ch)
      ensures TextOk(View(), length, size) && store.Heap? && CStr(content[..]) == CStr(old(content[..])) + ch
      ensures fresh(content) || (content == old(content) && old(store.Heap?))
    {
      hide Sax2.Append, CStr, Own, Resize, Put;
      AppendIs(View(), nodelen, nodemem, ch);
      size := MakeRoom(nodelen, nodemem, |ch|);
      Write(nodelen, ch);
      length := nodelen + |ch|;
    }
  }

  /** Appending is making room and writing. */
  lemma AppendIs(t: Child, nodelen: int, nodemem: int, ch: string)
    requires TextOk(t, nodelen, nodemem) && NUL !in ch
    ensures var own := Own(t, nodelen, nodemem).mem;
            var grown := nodelen + |ch| >= nodemem;
            var size := if grown then (nodemem + |ch|) * 2 else nodemem;
            && |own| == nodemem
            && var mem := if grown then Resize(own, size) else own;
               Sax2.Append(t, nodelen, nodemem, ch) == Appended(Text(Heap, Put(mem, nodelen, ch)), nodelen + |ch|, size)
  {
    hide CStr, Resize, Put;
    CStrIs(t.mem, nodelen);
  }

  /** memcpy */
  method Copy(block: array<char>, at: nat, ch: string)
    requires at + |ch| <= block.Length
    modifies block
    ensures block[..at] == old(block[..at])
    ensures block[at..at + |ch|] == ch
    ensures block[at + |ch|..] == old(block[at + |ch|..])
  {
    for i := 0 to |ch|
      invariant block[..at] == old(block[..at])
      invariant block[at..at + i] == ch[..i]
      invariant block[at + |ch|..] == old(block[at + |ch|..])
    {
      block[at + i] := ch[i];
      assert block[at..at + i + 1] == block[at..at + i] + [ch[i]];
    }
  }

  /** xmlStrndup */
  method Allocate(ch: string) returns (block: array<char>)
    ensures fresh(block) && block[..] == Dup(ch)
  {
    block := new char[|ch| + 1];
    Copy(block, 0, ch);
    block[|ch|] := NUL;
    assert block[..] == block[0..|ch|] + [NUL];
  }

  lemma NewTextStep(st: State, ch: string, ctx: Context)
    requires Sax2.Valid(st) && NUL !in ch
    ensures st.stack == [] ==> Step(st, Characters(ch, ctx)) == st
    ensures st.stack != [] && !LastIsText(st) ==>
              && Step(st, Characters(ch, ctx)) == AddChild(st, NewText(ch, ctx)).(nodelen := |ch|, nodemem := |ch| + 1)
              && TextOk(NewText(ch, ctx), |ch|, |ch| + 1)
  {
    assert Dup(ch)[..|ch|] == ch;
  }

  /** Appending to the last text is appending to its block. */
  lemma AppendStep(st: State, t: Child, ch: string, ctx: Context)
    requires st.stack != [] && TextOk(t, st.nodelen, st.nodemem) && NUL !in ch
    ensures var v, a := AddChild(st, t), Sax2.Append(t, st.nodelen, st.nodemem, ch);
            && Sax2.Valid(v)
            && Step(v, Characters(ch, ctx)) == AddChild(st.(nodelen := a.nodelen, nodemem := a.nodemem), a.t)
  {
    hide Sax2.Append;
    var v, a := AddChild(st, t), Sax2.Append(t, st.nodelen, st.nodemem, ch);
    var kids := Current(st).children;
    assert Current(v).children == kids + [t];
    assert (kids + [t])[|kids| := a.t] == kids + [a.t];
    assert Step(v, Characters(ch, ctx)).stack
        == AddChild(st.(nodelen := a.nodelen, nodemem := a.nodemem), a.t).stack;
  }

  /** The parser context: the open nodes with the children that are finished, the text
      being added to, if there is one, and the cache that describes it. */
  class TreeBuilder {
    var top: seq<Child>
    var stack: seq<Frame>
    var last: TextBlock?
    var nodelen: int
    var nodemem: int
    var interned: map<string, array<char>>

    /** The cache describes the text being added to; every string of the dictionary is what
        it was interned as, and is not the block of a node. */
    ghost predicate Valid()
      reads this, last, if last == null then {} else {last.content}, interned.Values
    {
      && (forall s :: s in interned ==> interned[s][..] == Dup(s))
      && (last == null ==> !LastIsText(State(top, stack, nodelen, nodemem)))
      && (last != null ==>
            && stack != [] && TextOk(last.View(), nodelen, nodemem)
            && (!last.store.Interned? ==> last.content !in interned.Values))
    }

    ghost function View(): State
      reads this, last, if last == null then {} else {last.content}
    {
      var st := State(top, stack, nodelen, nodemem);
      if last == null then st else AddChild(st, last.View())
    }

    constructor ()
      ensures Valid() && View() == EMPTY && interned == map[]
    {
      top, stack, last, nodelen, nodemem, interned := [], [], null, 0, 0, map[];
    }

    /** The children of the current node, the text being added to included. */
    method Children() returns (kids: seq<Child>)
      requires Valid() && stack != []
      ensures kids == Current(View()).children
    {
      kids := stack[|stack| - 1].children;
      if last != null { kids := kids + [Text(last.store, last.content[..])]; }
    }

    /** xmlAddChild to the current node, or to the document; the text before is finished. */
    method Add(c: Child)
      requires Valid() && !c.Text?
      modifies this
      ensures Valid() && interned == old(interned) && View() == AddChild(old(View()), c)
    {
      if stack == [] {
        top := top + [c];
      } else {
        var kids := Children();
        stack := stack[|stack| - 1 := stack[|stack| - 1].(children := kids + [c])];
        last := null;
      }
    }

    method StartElementNode(name: string)
      requires Valid()
      modifies this
      ensures Valid() && interned == old(interned) && Sax2.Valid(old(View()))
      ensures View() == Step(old(View()), StartElement(name))
    {
      ViewIsValid();
      if stack != [] {
        var kids := Children();
        stack := stack[|stack| - 1 := stack[|stack| - 1].(children := kids)];
      }
      stack := stack + [Frame(name, [])];
      last, nodemem := null, -1;
    }

    method EndElementNode()
      requires Valid()
      modifies this
      ensures Valid() && interned == old(interned) && Sax2.Valid(old(View()))
      ensures View() == Step(old(View()), EndElement)
    {
      ViewIsValid();
      if stack != [] {
        var name := stack[|stack| - 1].name;
        var kids := Children();
        ghost var was := View();
        stack := stack[..|stack| - 1];
        assert stack == was.stack[..|was.stack| - 1];
        var c := Element(name, kids);
        if stack == [] {
          top := top + [c];
        } else {
          stack := stack[|stack| - 1 := stack[|stack| - 1].(children := stack[|stack| - 1].children + [c])];
        }
      }
      last, nodemem := null, -1;
    }

    /** xmlSAX2TextNode: the block of a new text node, shared if it is interned. */
    method NewBlock(ch: string, ctx: Context) returns (t: TextBlock)
      requires Valid() && stack != [] && last == null
      modifies `interned
      ensures fresh(t) && t.View() == NewText(ch, ctx)
      ensures (forall s :: s in old(interned) ==> s in interned && interned[s] == old(interned)[s])
      ensures (forall s :: s in interned ==> interned[s][..] == Dup(s)) && unchanged(interned.Values * old(interned.Values))
      ensures !t.store.Interned? ==> t.content !in interned.Values
    {
      var store := StoreFor(ch, ctx);
      if !store.Interned? {
        var block := Allocate(ch);
        t := new TextBlock(store, block);
      } else {
        if ch !in interned {
          var block := Allocate(ch);
          interned := interned[ch := block];
        }
        t := new TextBlock(store, interned[ch]);
      }
    }

    /** xmlSAX2Characters. No string of the dictionary is in the frame. */
    method CharacterData(ch: string, ctx: Context)
      requires Valid() && NUL !in ch
      modifies this, if last == null then {} else {last} + if last.store.Heap? then {last.content} else {}
      ensures Valid() && Sax2.Valid(old(View())) && View() == Step(old(View()), Characters(ch, ctx))
      ensures forall s :: s in old(interned) ==> s in interned && interned[s] == old(interned)[s]
    {
      hide Step, TextOk, Sax2.Append, CStr, StoreFor;
      ViewIsValid();
      NewTextStep(View(), ch, ctx);
      if stack == [] { return; }
      if last != null {
        AppendStep(State(top, stack, nodelen, nodemem), last.View(), ch, ctx);
        nodelen, nodemem := last.Append(nodelen, nodemem, ch);
      } else {
        last := NewBlock(ch, ctx);
        nodelen, nodemem := |ch|, |ch| + 1;
      }
    }

    method CDataNode(text: string)
      requires Valid()
      modifies this
      ensures Valid() && interned == old(interned) && Sax2.Valid(old(View()))
      ensures View() == Step(old(View()), CDataBlock(text))
    {
      ViewIsValid();
      if stack == [] { return; }
      var kids := stack[|stack| - 1].children;
      if last == null && kids != [] && kids[|kids| - 1].CData? {
        var c := CData(kids[|kids| - 1].text + text);
        stack := stack[|stack| - 1 := stack[|stack| - 1].(children := kids[|kids| - 1 := c])];
      } else {
        Add(CData(text));
      }
    }

    /** The callbacks that only add a node: comments, processing instructions, references. */
    method OtherNode(e: Event)
      requires Valid() && (e.CommentEvent? || e.PIEvent? || e.ReferenceEvent?)
      modifies this
      ensures Valid() && interned == old(interned) && Sax2.Valid(old(View()))
      ensures View() == Step(old(View()), e)
    {
      ViewIsValid();
      match e
      case CommentEvent(text) => Add(Comment(text));
      case PIEvent(target, data) => Add(PI(target, data));
      case ReferenceEvent(name) => if stack != [] { Add(Reference(name)); }
    }

    lemma ViewIsValid()
      requires Valid()
      ensures Sax2.Valid(View())
    {
    }
  }
}
