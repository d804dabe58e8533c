/**
 The tree builder: callbacks extend the tree below the current node, and adjacent
 character data is appended in place to one text node. A text node's content lies in
 the node itself, in the dictionary, or in a block of its own; nodelen and nodemem
 cache its length and the size of the block.
 */
module Sax2 {
  const NUL := '\0'

  /** Size of the two pointers of a node that short text may overlay. */
  const INLINE_SIZE := 16

  datatype Store = Inline | Interned | Heap

  /** mem is the block the content lies in, terminator included. */
  datatype Child =
    | Text(store: Store, mem: string)
    | Element(name: string, children: seq<Child>)
    | Comment(text: string)
    | PI(target: string, data: string)
    | CData(text: string)
    | Reference(name: string)

  datatype Frame = Frame(name: string, children: seq<Child>)

  /** top holds what is added outside any element. */
  datatype State = State(top: seq<Child>, stack: seq<Frame>, nodelen: int, nodemem: int)

  const EMPTY := State([], [], 0, 0)

  /** options of the parser, and the two characters that follow the text in the input. */
  datatype Context = Context(dictNames: bool, compact: bool, next: char, afterNext: char)

  datatype Event =
    | StartElement(name: string)
    | EndElement
    | Characters(ch: string, ctx: Context)
    | CommentEvent(text: string)
    | PIEvent(target: string, data: string)
    | CDataBlock(text: string)
    | ReferenceEvent(name: string)

  // ---- memory ----

  /** The C string at the start of a block. */
  function CStr(mem: string): string
  {
    if mem == [] || mem[0] == NUL then [] else [mem[0]] + CStr(mem[1..])
  }

  /** xmlStrdup and xmlStrndup allocate exactly what is needed. */
  function Dup(s: string): string { s + [NUL] }

  /** xmlRealloc keeps what is there; the new part is arbitrary. */
  function Resize(mem: string, size: nat): (r: string)
    requires |mem| <= size
    ensures |r| == size && r[..|mem|] == mem
  {
    mem + seq(size - |mem|, _ => '?')
  }

  /** memcpy of ch to a position of the block, followed by the terminator. */
  function Put(mem: string, at: nat, ch: string): (r: string)
    requires at + |ch| < |mem|
    ensures |r| == |mem| && r[..at + |ch| + 1] == mem[..at] + ch + [NUL]
  {
    mem[..at] + ch + [NUL] + mem[at + |ch| + 1..]
  }

  // ---- text nodes ----

  predicate IsBlank(c: char) { c == ' ' || c == '\t' || c == '\n' || c == '\r' }

  /** Where xmlSAX2TextNode puts the content of a new text node. */
  function StoreFor(ch: string, ctx: Context): Store
  {
    if !ctx.dictNames then Heap
    else if |ch| < INLINE_SIZE && ctx.compact then Inline
    else if |ch| <= 3 && (ctx.next == '"' || ctx.next == '\'' || (ctx.next == '<' && ctx.afterNext != '!')) then Interned
    else if ch != [] && |ch| < 60 && ctx.next == '<' && ctx.afterNext != '!' && (forall i :: 0 <= i < |ch| ==> IsBlank(ch[i]))
    then Interned
    else Heap
  }

  function NewText(ch: string, ctx: Context): Child { Text(StoreFor(ch, ctx), Dup(ch)) }

  /** What the cached length and size promise about the text they describe. */
  predicate TextOk(t: Child, nodelen: int, nodemem: int)
  {
    && t.Text? && 0 <= nodelen < |t.mem|
    && t.mem[nodelen] == NUL && NUL !in t.mem[..nodelen]
    && nodelen < nodemem
    && (if t.store.Heap? then |t.mem| == nodemem else nodemem == nodelen + 1)
  }

  /** Copy on write: content that lies in the node or in the dictionary is duplicated. */
  function Own(t: Child, nodelen: int, nodemem: int): (r: Child)
    requires t.Text?
  {
    if t.store.Inline? then Text(Heap, Dup(CStr(t.mem)))
    else if nodemem == nodelen + 1 && t.store.Interned? then Text(Heap, Dup(CStr(t.mem)))
    else t
  }

  datatype Appended = Appended(t: Child, nodelen: int, nodemem: int)

  lemma {:induction false} CStrIs(mem: string, n: nat)
    requires n < |mem| && mem[n] == NUL && NUL !in mem[..n]
    ensures CStr(mem) == mem[..n]
  {
    if n > 0 {
      assert mem[0] == mem[..n][0];
      assert mem[1..][..n - 1] == mem[..n][1..];
      CStrIs(mem[1..], n - 1);
    }
  }

  /** Appending in place: the block written to is always one of the node's own, and
      every byte and the terminator fall inside it. */
  function Append(t: Child, nodelen: int, nodemem: int, ch: string): (r: Appended)
    requires TextOk(t, nodelen, nodemem) && NUL !in ch
    ensures TextOk(r.t, r.nodelen, r.nodemem) && r.t.store.Heap?
    ensures CStr(r.t.mem) == CStr(t.mem) + ch
  {
    CStrIs(t.mem, nodelen);
    var own := Own(t, nodelen, nodemem);
    assert own.store.Heap? && |own.mem| == nodemem && own.mem[..nodelen + 1] == t.mem[..nodelen] + [NUL];
    var size := if nodelen + |ch| >= nodemem then (nodemem + |ch|) * 2 else nodemem;
    var mem := if nodelen + |ch| >= nodemem then Resize(own.mem, size) else own.mem;
    assert mem[..nodelen] == mem[..nodelen + 1][..nodelen] == t.mem[..nodelen];
    var put := Put(mem, nodelen, ch);
    assert put[..nodelen + |ch|] == put[..nodelen + |ch| + 1][..nodelen + |ch|] == t.mem[..nodelen] + ch;
    assert put[nodelen + |ch|] == put[..nodelen + |ch| + 1][nodelen + |ch|];
    CStrIs(put, nodelen + |ch|);
    Appended(Text(Heap, put), nodelen + |ch|, size)
  }

  // ---- the callbacks ----

  function Current(st: State): Frame
    requires st.stack != []
  {
    st.stack[|st.stack| - 1]
  }

  predicate LastIsText(st: State)
  {
    st.stack != [] && Current(st).children != [] && Current(st).children[|Current(st).children| - 1].Text?
  }

  function LastText(st: State): Child
    requires LastIsText(st)
  {
    Current(st).children[|Current(st).children| - 1]
  }

  function SetChildren(st: State, children: seq<Child>): State
    requires st.stack != []
  {
    st.(stack := st.stack[|st.stack| - 1 := Current(st).(children := children)])
  }

  /** The node with a new last child, or the document outside any element. */
  function AddChild(st: State, c: Child): State
  {
    if st.stack == [] then st.(top := st.top + [c]) else SetChildren(st, Current(st).children + [c])
  }

  /** Whenever the last child of the current node is text, the cache describes it. */
  ghost predicate Valid(st: State) { LastIsText(st) ==> TextOk(LastText(st), st.nodelen, st.nodemem) }

  /** xmlSAX2Characters; nodemem is never 0 where it is tested, so the slow path through
      xmlTextConcat is not taken. */
  function CharactersStep(st: State, ch: string, ctx: Context): State
    requires Valid(st) && NUL !in ch
  {
    if st.stack == [] then st
    else if LastIsText(st) then
      var a := Append(LastText(st), st.nodelen, st.nodemem, ch);
      var kids := Current(st).children;
      SetChildren(st, kids[|kids| - 1 := a.t]).(nodelen := a.nodelen, nodemem := a.nodemem)
    else AddChild(st, NewText(ch, ctx)).(nodelen := |ch|, nodemem := |ch| + 1)
  }

  function CDataStep(st: State, text: string): State
  {
    if st.stack == [] then st
    else
      var kids := Current(st).children;
      if kids != [] && kids[|kids| - 1].CData?
      then SetChildren(st, kids[|kids| - 1 := CData(kids[|kids| - 1].text + text)])
      else AddChild(st, CData(text))
  }

  function EndStep(st: State): State
  {
    if st.stack == [] then st.(nodemem := -1)
    else
      var f := Current(st);
      AddChild(st.(stack := st.stack[..|st.stack| - 1], nodemem := -1), Element(f.name, f.children))
  }

  /** No text may contain the terminator. */
  predicate Clean(e: Event) { e.Characters? ==> NUL !in e.ch }

  function Step(st: State, e: Event): State
    requires Valid(st) && Clean(e)
  {
    match e
    case StartElement(name) => st.(stack := st.stack + [Frame(name, [])], nodemem := -1)
    case EndElement => EndStep(st)
    case Characters(ch, ctx) => CharactersStep(st, ch, ctx)
    case CommentEvent(text) => AddChild(st, Comment(text))
    case PIEvent(target, data) => AddChild(st, PI(target, data))
    case CDataBlock(text) => CDataStep(st, text)
    case ReferenceEvent(name) => if st.stack == [] then st else AddChild(st, Reference(name))
  }

  /** Every callback keeps the cache right. */
  lemma StepKeeps(st: State, e: Event)
    requires Valid(st) && Clean(e)
    ensures Valid(Step(st, e))
  {
    if e.Characters? && st.stack != [] && !LastIsText(st) {
      assert Dup(e.ch)[..|e.ch|] == e.ch;
    }
  }

  ghost predicate AllClean(events: seq<Event>) { forall i :: 0 <= i < |events| ==> Clean(events[i]) }

  /** A whole run of callbacks. */
  ghost function Run(st: State, events: seq<Event>): (r: State)
    requires Valid(st) && AllClean(events)
    ensures Valid(r)
    decreases |events|
  {
    if events == [] then st
    else
      StepKeeps(st, events[0]);
      Run(Step(st, events[0]), events[1..])
  }

  /** After every sequence of callbacks: if the current node's last child is text, then
      nodelen is its length, and nodemem the size of its block if it has one of its own
      and just enough for its length if it has not. */
  lemma RunKeeps(events: seq<Event>)
    requires AllClean(events)
    ensures var st := Run(EMPTY, events);
            LastIsText(st) ==>
              var t := LastText(st);
              && st.nodelen == |CStr(t.mem)|
              && st.nodemem == (if t.store.Heap? then |t.mem| else |CStr(t.mem)| + 1)
  {
    var st := Run(EMPTY, events);
    if LastIsText(st) { CStrIs(LastText(st).mem, st.nodelen); }
  }

  // ---- the tree that comes out ----

  /** Element content as the document has it: character data arrives in pieces. */
  datatype Item =
    | Piece(ch: string, ctx: Context)
    | Elem(name: string, content: seq<Item>)
    | CommentItem(text: string)
    | PIItem(target: string, data: string)
    | CDataItem(text: string)
    | RefItem(name: string)

  function EventsOf(items: seq<Item>): seq<Event>
    decreases items, 0
  {
    if items == [] then [] else EventsOfItem(items[0]) + EventsOf(items[1..])
  }

  function EventsOfItem(item: Item): seq<Event>
    decreases item, 1
  {
    match item
    case Piece(ch, ctx) => [Characters(ch, ctx)]
    case Elem(name, content) => [StartElement(name)] + EventsOf(content) + [EndElement]
    case CommentItem(text) => [CommentEvent(text)]
    case PIItem(target, data) => [PIEvent(target, data)]
    case CDataItem(text) => [CDataBlock(text)]
    case RefItem(name) => [ReferenceEvent(name)]
  }

  /** A tree without memory: what a reader of it sees. */
  datatype Tree =
    | TText(text: string)
    | TElement(name: string, children: seq<Tree>)
    | TComment(text: string)
    | TPI(target: string, data: string)
    | TCData(text: string)
    | TRef(name: string)

  function TreeOf(c: Child): Tree
  {
    match c
    case Text(_, mem) => TText(CStr(mem))
    case Element(name, children) => TElement(name, TreesOf(children))
    case Comment(text) => TComment(text)
    case PI(target, data) => TPI(target, data)
    case CData(text) => TCData(text)
    case Reference(name) => TRef(name)
  }

  function TreesOf(cs: seq<Child>): (r: seq<Tree>)
    ensures |r| == |cs|
  {
    if cs == [] then [] else TreesOf(cs[..|cs| - 1]) + [TreeOf(cs[|cs| - 1])]
  }

  /** Number of leading pieces of character data, or of CDATA. */
  function TextRun(items: seq<Item>): (k: nat)
    ensures k <= |items| && (forall i :: 0 <= i < k ==> items[i].Piece?) && (k < |items| ==> !items[k].Piece?)
  {
    if items == [] || !items[0].Piece? then 0 else 1 + TextRun(items[1..])
  }

  function CDataRun(items: seq<Item>): (k: nat)
    ensures k <= |items| && (forall i :: 0 <= i < k ==> items[i].CDataItem?) && (k < |items| ==> !items[k].CDataItem?)
  {
    if items == [] || !items[0].CDataItem? then 0 else 1 + CDataRun(items[1..])
  }

  function Joined(items: seq<Item>): string
    requires forall i :: 0 <= i < |items| ==> items[i].Piece? || items[i].CDataItem?
  {
    if items == [] then []
    else (if items[0].Piece? then items[0].ch else items[0].text) + Joined(items[1..])
  }

  /** The expected children: each maximal run of character data is one text node, each
      maximal run of CDATA one CDATA node. */
  function Expected(items: seq<Item>): seq<Tree>
    decreases items, 1
  {
    if items == [] then []
    else if items[0].Piece? then [TText(Joined(items[..TextRun(items)]))] + Expected(items[TextRun(items)..])
    else if items[0].CDataItem? then [TCData(Joined(items[..CDataRun(items)]))] + Expected(items[CDataRun(items)..])
    else [ExpectedItem(items[0])] + Expected(items[1..])
  }

  function ExpectedItem(item: Item): Tree
    decreases item, 0
  {
    match item
    case Elem(name, content) => TElement(name, Expected(content))
    case CommentItem(text) => TComment(text)
    case PIItem(target, data) => TPI(target, data)
    case RefItem(name) => TRef(name)
    case Piece(ch, _) => TText(ch)
    case CDataItem(text) => TCData(text)
  }

  // ---- adding items one after the other ----

  predicate EndsWithText(cs: seq<Tree>) { cs != [] && cs[|cs| - 1].TText? }

  predicate EndsWithCData(cs: seq<Tree>) { cs != [] && cs[|cs| - 1].TCData? }

  /** How one more item changes the children of a node. */
  function AddItem(cs: seq<Tree>, item: Item): seq<Tree>
  {
    if item.Piece? && EndsWithText(cs) then cs[|cs| - 1 := TText(cs[|cs| - 1].text + item.ch)]
    else if item.CDataItem? && EndsWithCData(cs) then cs[|cs| - 1 := TCData(cs[|cs| - 1].text + item.text)]
    else cs + [ExpectedItem(item)]
  }

  function AddItems(cs: seq<Tree>, items: seq<Item>): seq<Tree>
    decreases |items|
  {
    if items == [] then cs else AddItems(AddItem(cs, items[0]), items[1..])
  }

  lemma {:induction false} AddTextRun(cs: seq<Tree>, text: string, items: seq<Item>, k: nat)
    requires k <= |items| && forall i :: 0 <= i < k ==> items[i].Piece?
    ensures AddItems(cs + [TText(text)], items) == AddItems(cs + [TText(text + Joined(items[..k]))], items[k..])
    decreases k
  {
    if k == 0 {
      assert items[0..] == items && items[..0] == [] && text + [] == text;
    } else {
      var now := cs + [TText(text)];
      assert AddItem(now, items[0]) == cs + [TText(text + items[0].ch)];
      AddTextRun(cs, text + items[0].ch, items[1..], k - 1);
      assert items[1..][..k - 1] == items[..k][1..] && items[1..][k - 1..] == items[k..];
      assert text + items[0].ch + Joined(items[..k][1..]) == text + Joined(items[..k]);
    }
  }

  lemma {:induction false} AddCDataRun(cs: seq<Tree>, text: string, items: seq<Item>, k: nat)
    requires k <= |items| && forall i :: 0 <= i < k ==> items[i].CDataItem?
    ensures AddItems(cs + [TCData(text)], items) == AddItems(cs + [TCData(text + Joined(items[..k]))], items[k..])
    decreases k
  {
    if k == 0 {
      assert items[0..] == items && items[..0] == [] && text + [] == text;
    } else {
      var now := cs + [TCData(text)];
      assert AddItem(now, items[0]) == cs + [TCData(text + items[0].text)];
      AddCDataRun(cs, text + items[0].text, items[1..], k - 1);
      assert items[1..][..k - 1] == items[..k][1..] && items[1..][k - 1..] == items[k..];
      assert text + items[0].text + Joined(items[..k][1..]) == text + Joined(items[..k]);
    }
  }

  /** The next item starts a node of its own. */
  predicate StartsFresh(cs: seq<Tree>, items: seq<Item>)
  {
    items == [] || (!(items[0].Piece? && EndsWithText(cs)) && !(items[0].CDataItem? && EndsWithCData(cs)))
  }

  lemma FirstTextRun(cs: seq<Tree>, items: seq<Item>)
    requires items != [] && items[0].Piece? && !EndsWithText(cs)
    ensures TextRun(items) > 0
    ensures var k := TextRun(items); AddItems(cs, items) == AddItems(cs + [TText(Joined(items[..k]))], items[k..])
  {
    var k := TextRun(items);
    AddTextRun(cs, items[0].ch, items[1..], k - 1);
    assert items[1..][..k - 1] == items[..k][1..] && items[1..][k - 1..] == items[k..];
  }

  lemma FirstCDataRun(cs: seq<Tree>, items: seq<Item>)
    requires items != [] && items[0].CDataItem? && !EndsWithCData(cs)
    ensures CDataRun(items) > 0
    ensures var k := CDataRun(items); AddItems(cs, items) == AddItems(cs + [TCData(Joined(items[..k]))], items[k..])
  {
    var k := CDataRun(items);
    AddCDataRun(cs, items[0].text, items[1..], k - 1);
    assert items[1..][..k - 1] == items[..k][1..] && items[1..][k - 1..] == items[k..];
  }

  lemma OtherItem(cs: seq<Tree>, items: seq<Item>)
    requires items != [] && !items[0].Piece? && !items[0].CDataItem?
    ensures AddItems(cs, items) == AddItems(cs + [ExpectedItem(items[0])], items[1..])
    ensures Expected(items) == [ExpectedItem(items[0])] + Expected(items[1..])
    ensures !ExpectedItem(items[0]).TText? && !ExpectedItem(items[0]).TCData?
  {
  }

  /** Adding one at a time and joining maximal runs come to the same. */
  lemma {:induction false} AddItemsIsExpected(cs: seq<Tree>, items: seq<Item>)
    requires StartsFresh(cs, items)
    ensures AddItems(cs, items) == cs + Expected(items)
    decreases |items|, 1
  {
    hide Joined, ExpectedItem, AddItem;
    if items == [] {
    } else if items[0].Piece? {
      FirstTextRun(cs, items);
      var k := TextRun(items);
      AddRest(cs, TText(Joined(items[..k])), items, k);
    } else if items[0].CDataItem? {
      FirstCDataRun(cs, items);
      var k := CDataRun(items);
      AddRest(cs, TCData(Joined(items[..k])), items, k);
    } else {
      OtherItem(cs, items);
      AddRest(cs, ExpectedItem(items[0]), items, 1);
    }
  }

  lemma {:induction false} AddRest(cs: seq<Tree>, e: Tree, items: seq<Item>, k: nat)
    requires 0 < k <= |items| && StartsFresh(cs + [e], items[k..])
    ensures AddItems(cs + [e], items[k..]) == cs + ([e] + Expected(items[k..]))
    decreases |items|, 0
  {
    hide Joined, ExpectedItem, AddItem, Expected, AddItems;
    AddItemsIsExpected(cs + [e], items[k..]);
    assert cs + [e] + Expected(items[k..]) == cs + ([e] + Expected(items[k..]));
  }

  // ---- the callbacks do just that ----

  lemma {:induction false} RunConcat(st: State, a: seq<Event>, b: seq<Event>)
    requires Valid(st) && AllClean(a) && AllClean(b)
    ensures AllClean(a + b) && Run(st, a + b) == Run(Run(st, a), b)
    decreases |a|
  {
    if a == [] {
      assert a + b == b;
    } else {
      assert (a + b)[1..] == a[1..] + b;
      StepKeeps(st, a[0]);
      RunConcat(Step(st, a[0]), a[1..], b);
    }
  }

  lemma TreesSnoc(cs: seq<Child>, c: Child)
    ensures TreesOf(cs + [c]) == TreesOf(cs) + [TreeOf(c)]
  {
    assert (cs + [c])[..|cs|] == cs;
  }

  lemma TreesReplaceLast(cs: seq<Child>, c: Child)
    requires cs != []
    ensures TreesOf(cs[|cs| - 1 := c]) == TreesOf(cs)[|cs| - 1 := TreeOf(c)]
    ensures TreesOf(cs)[|cs| - 1] == TreeOf(cs[|cs| - 1])
  {
    assert cs[|cs| - 1 := c][..|cs| - 1] == cs[..|cs| - 1];
  }

  /** Same open elements below, and the current node's children as given. */
  ghost predicate Grown(st: State, st': State, children: seq<Tree>)
  {
    && st.stack != [] && st'.stack != [] && |st'.stack| == |st.stack|
    && st'.stack[..|st.stack| - 1] == st.stack[..|st.stack| - 1]
    && Current(st').name == Current(st).name && st'.top == st.top
    && TreesOf(Current(st').children) == children
  }

  lemma AddGrown(st: State, c: Child)
    requires st.stack != []
    ensures Grown(st, AddChild(st, c), TreesOf(Current(st).children) + [TreeOf(c)])
  {
    TreesSnoc(Current(st).children, c);
    assert AddChild(st, c).stack[..|st.stack| - 1] == st.stack[..|st.stack| - 1];
  }

  lemma ReplaceGrown(st: State, c: Child)
    requires st.stack != [] && Current(st).children != []
    ensures var kids := Current(st).children;
            && Grown(st, SetChildren(st, kids[|kids| - 1 := c]), TreesOf(kids)[|kids| - 1 := TreeOf(c)])
            && TreesOf(kids)[|kids| - 1] == TreeOf(kids[|kids| - 1])
  {
    var kids := Current(st).children;
    TreesReplaceLast(kids, c);
    assert SetChildren(st, kids[|kids| - 1 := c]).stack[..|st.stack| - 1] == st.stack[..|st.stack| - 1];
  }

  lemma CharactersGrown(st: State, ch: string, ctx: Context)
    requires Valid(st) && st.stack != [] && NUL !in ch
    ensures Grown(st, CharactersStep(st, ch, ctx), AddItem(TreesOf(Current(st).children), Piece(ch, ctx)))
  {
    hide Append, CStr, TextOk, StoreFor, AddChild, SetChildren;
    if LastIsText(st) {
      AppendGrown(st, ch);
    } else {
      NewTextGrown(st, ch, ctx);
    }
  }

  lemma AppendGrown(st: State, ch: string)
    requires Valid(st) && LastIsText(st) && NUL !in ch
    ensures var a, kids := Append(LastText(st), st.nodelen, st.nodemem, ch), Current(st).children;
            var st' := SetChildren(st, kids[|kids| - 1 := a.t]).(nodelen := a.nodelen, nodemem := a.nodemem);
            && EndsWithText(TreesOf(kids))
            && Grown(st, st', TreesOf(kids)[|kids| - 1 := TText(TreesOf(kids)[|kids| - 1].text + ch)])
  {
    hide CStr, TextOk;
    var a, kids := Append(LastText(st), st.nodelen, st.nodemem, ch), Current(st).children;
    ReplaceGrown(st, a.t);
  }

  lemma NewTextGrown(st: State, ch: string, ctx: Context)
    requires st.stack != [] && !LastIsText(st) && NUL !in ch
    ensures !EndsWithText(TreesOf(Current(st).children))
    ensures Grown(st, AddChild(st, NewText(ch, ctx)).(nodelen := |ch|, nodemem := |ch| + 1),
                  TreesOf(Current(st).children) + [TText(ch)])
  {
    hide CStr, StoreFor;
    var kids := Current(st).children;
    AddGrown(st, NewText(ch, ctx));
    assert Dup(ch)[..|ch|] == ch;
    CStrIs(Dup(ch), |ch|);
    if kids != [] { TreesReplaceLast(kids, kids[|kids| - 1]); }
  }

  lemma CDataGrown(st: State, text: string)
    requires st.stack != []
    ensures Grown(st, CDataStep(st, text), AddItem(TreesOf(Current(st).children), CDataItem(text)))
  {
    var kids := Current(st).children;
    if kids != [] {
      TreesReplaceLast(kids, kids[|kids| - 1]);
      if kids[|kids| - 1].CData? { ReplaceGrown(st, CData(kids[|kids| - 1].text + text)); }
    }
    AddGrown(st, CData(text));
  }

  lemma LeafStep(st: State, item: Item)
    requires Valid(st) && st.stack != [] && !item.Elem? && AllClean(EventsOfItem(item))
    ensures Grown(st, Run(st, EventsOfItem(item)), AddItem(TreesOf(Current(st).children), item))
  {
    hide Grown, CharactersStep, CDataStep, AddChild;
    var e := EventsOfItem(item)[0];
    assert Run(st, EventsOfItem(item)) == Step(st, e);
    match item
    case Piece(ch, ctx) => assert Clean(e); CharactersGrown(st, ch, ctx);
    case CDataItem(text) => CDataGrown(st, text);
    case CommentItem(text) => AddGrown(st, Comment(text));
    case PIItem(target, data) => AddGrown(st, PI(target, data));
    case RefItem(name) => AddGrown(st, Reference(name));
  }

  lemma {:induction false} ItemStep(st: State, item: Item)
    requires Valid(st) && st.stack != [] && AllClean(EventsOfItem(item))
    ensures Grown(st, Run(st, EventsOfItem(item)), AddItem(TreesOf(Current(st).children), item))
    decreases item, 1
  {
    if item.Elem? {
      var open, inner := [StartElement(item.name)], EventsOf(item.content);
      var all := EventsOfItem(item);
      assert all == open + inner + [EndElement];
      SubClean(all, open, inner, [EndElement]);
      RunConcat(st, open + inner, [EndElement]);
      RunConcat(st, open, inner);
      var st1 := Run(st, open);
      assert st1 == Step(st, open[0]);
      ItemsStep(st1, item.content);
      var st2 := Run(st1, inner);
      AddItemsIsExpected([], item.content);
      assert [] + Expected(item.content) == Expected(item.content);
      assert st1.stack[..|st1.stack| - 1] == st.stack;
      EndGrown(st, st2, item.name);
      assert Run(st2, [EndElement]) == Step(st2, EndElement);
    } else {
      LeafStep(st, item);
    }
  }

  lemma SubClean(all: seq<Event>, a: seq<Event>, b: seq<Event>, c: seq<Event>)
    requires AllClean(all) && all == a + b + c
    ensures AllClean(a) && AllClean(b) && AllClean(c) && AllClean(a + b)
  {
    forall i | 0 <= i < |a| ensures Clean(a[i]) { assert a[i] == all[i]; }
    forall i | 0 <= i < |b| ensures Clean(b[i]) { assert b[i] == all[|a| + i]; }
    forall i | 0 <= i < |c| ensures Clean(c[i]) { assert c[i] == all[|a| + |b| + i]; }
  }

  /** Closing an element adds it, with its children, to the node it was opened in. */
  lemma EndGrown(st: State, st2: State, name: string)
    requires st.stack != [] && |st2.stack| == |st.stack| + 1 && st2.stack[..|st.stack|] == st.stack
    requires Current(st2).name == name && st2.top == st.top
    ensures Grown(st, EndStep(st2), TreesOf(Current(st).children) + [TElement(name, TreesOf(Current(st2).children))])
  {
    TreesSnoc(Current(st).children, Element(name, Current(st2).children));
    var st3 := EndStep(st2);
    assert st3.stack[..|st.stack| - 1] == st.stack[..|st.stack| - 1];
  }

  lemma {:induction false} ItemsStep(st: State, items: seq<Item>)
    requires Valid(st) && st.stack != [] && AllClean(EventsOf(items))
    ensures Grown(st, Run(st, EventsOf(items)), AddItems(TreesOf(Current(st).children), items))
    decreases items, 0
  {
    if items != [] {
      var a, b := EventsOfItem(items[0]), EventsOf(items[1..]);
      assert EventsOf(items) == a + b + [];
      SubClean(EventsOf(items), a, b, []);
      RunConcat(st, a, b);
      ItemStep(st, items[0]);
      ItemsStep(Run(st, a), items[1..]);
    }
  }

  lemma ContentIsExpected(st: State, items: seq<Item>)
    requires Valid(st) && st.stack != [] && Current(st).children == [] && AllClean(EventsOf(items))
    ensures Grown(st, Run(st, EventsOf(items)), Expected(items))
  {
    hide AddItems, Expected, Run, Grown;
    ItemsStep(st, items);
    AddItemsIsExpected([], items);
    assert [] + Expected(items) == Expected(items);
  }

  lemma RootCloses(st: State, name: string, children: seq<Tree>)
    requires |st.stack| == 1 && Current(st).name == name && TreesOf(Current(st).children) == children
    ensures EndStep(st).stack == [] && TreesOf(EndStep(st).top) == TreesOf(st.top) + [TElement(name, children)]
  {
    TreesSnoc(st.top, Element(name, Current(st).children));
  }

  /** An element outside all others becomes the next child of the document. */
  lemma ElementAtTop(st: State, name: string, items: seq<Item>)
    requires Valid(st) && st.stack == [] && AllClean(EventsOfItem(Elem(name, items)))
    ensures var r := Run(st, EventsOfItem(Elem(name, items)));
            r.stack == [] && TreesOf(r.top) == TreesOf(st.top) + [TElement(name, Expected(items))]
  {
    hide TreesOf, Expected, EventsOf;
    var all, open, inner := EventsOfItem(Elem(name, items)), [StartElement(name)], EventsOf(items);
    assert all == open + inner + [EndElement];
    SubClean(all, open, inner, [EndElement]);
    RunConcat(st, open + inner, [EndElement]);
    RunConcat(st, open, inner);
    var st1 := Run(st, open);
    assert st1 == Step(st, open[0]);
    var st2 := Run(st1, inner);
    assert Run(st2, [EndElement]) == Step(st2, EndElement);
    ContentIsExpected(st1, items);
    RootCloses(st2, name, Expected(items));
  }

  /** For every element content, however its character data is split into pieces: the
      callbacks build the element whose text nodes are the maximal runs of character
      data, joined, with everything else in its place. */
  lemma ElementIsExpected(name: string, items: seq<Item>)
    requires AllClean(EventsOfItem(Elem(name, items)))
    ensures var st := Run(EMPTY, EventsOfItem(Elem(name, items)));
            st.stack == [] && TreesOf(st.top) == [TElement(name, Expected(items))]
  {
    hide Run, Expected;
    ElementAtTop(EMPTY, name, items);
    assert TreesOf(EMPTY.top) == [];
  }

  /** The children of a document: its elements, comments and processing instructions.
      Character data, CDATA and references outside all elements leave nothing behind. */
  function ExpectedTop(items: seq<Item>): seq<Tree>
  {
    if items == [] then []
    else
      (if items[0].Elem? || items[0].CommentItem? || items[0].PIItem? then [ExpectedItem(items[0])] else [])
      + ExpectedTop(items[1..])
  }

  lemma ItemAtTop(st: State, item: Item)
    requires Valid(st) && st.stack == [] && AllClean(EventsOfItem(item))
    ensures var r := Run(st, EventsOfItem(item));
            && r.stack == []
            && TreesOf(r.top) == TreesOf(st.top)
                 + if item.Elem? || item.CommentItem? || item.PIItem? then [ExpectedItem(item)] else []
  {
    hide TreesOf, Expected;
    if item.Elem? {
      ElementAtTop(st, item.name, item.content);
    } else {
      var e := EventsOfItem(item)[0];
      assert Clean(e);
      assert Run(st, EventsOfItem(item)) == Step(st, e);
      match item
      case CommentItem(text) => TreesSnoc(st.top, Comment(text));
      case PIItem(target, data) => TreesSnoc(st.top, PI(target, data));
      case _ =>
    }
  }

  lemma RunNothing(st: State)
    requires Valid(st)
    ensures EventsOf([]) == [] && AllClean([]) && Run(st, []) == st
  {
  }

  lemma FirstItem(items: seq<Item>)
    requires items != [] && AllClean(EventsOf(items))
    ensures var a, b := EventsOfItem(items[0]), EventsOf(items[1..]);
            EventsOf(items) == a + b && AllClean(a) && AllClean(b)
  {
    hide EventsOfItem;
    var a, b := EventsOfItem(items[0]), EventsOf(items[1..]);
    assert EventsOf(items) == a + b + [];
    SubClean(EventsOf(items), a, b, []);
  }

  lemma {:induction false} ItemsAtTop(st: State, items: seq<Item>)
    requires Valid(st) && st.stack == [] && AllClean(EventsOf(items))
    ensures var r := Run(st, EventsOf(items));
            r.stack == [] && TreesOf(r.top) == TreesOf(st.top) + ExpectedTop(items)
    decreases |items|
  {
    hide TreesOf, ExpectedItem, EventsOfItem, EventsOf, Run, AllClean, Valid;
    if items == [] {
      RunNothing(st);
      assert TreesOf(st.top) + [] == TreesOf(st.top);
    } else {
      var a, b := EventsOfItem(items[0]), EventsOf(items[1..]);
      FirstItem(items);
      RunConcat(st, a, b);
      ItemAtTop(st, items[0]);
      ItemsAtTop(Run(st, a), items[1..]);
      var kept := if items[0].Elem? || items[0].CommentItem? || items[0].PIItem? then [ExpectedItem(items[0])] else [];
      assert TreesOf(st.top) + kept + ExpectedTop(items[1..]) == TreesOf(st.top) + (kept + ExpectedTop(items[1..]));
    }
  }

  /** For every document, with anything before, between and after its elements: the
      callbacks build its elements, comments and processing instructions in order. */
  lemma DocumentIsExpected(items: seq<Item>)
    requires AllClean(EventsOf(items))
    ensures var st := Run(EMPTY, EventsOf(items));
            st.stack == [] && TreesOf(st.top) == ExpectedTop(items)
  {
    hide Run, ExpectedTop;
    ItemsAtTop(EMPTY, items);
    assert TreesOf(EMPTY.top) == [];
    assert [] + ExpectedTop(items) == ExpectedTop(items);
  }
}
