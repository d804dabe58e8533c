/**
 The recovery machine of the HTML parser over abstract tokens: the stack of open
 names, the stack of open nodes the tree builder keeps, and the callbacks made.
 */
module Html {
  /** closes is the auto-close table, isEmpty the element table; omitted says whether
      omitted tags are implied; maxDepth is xmlParserMaxDepth. */
  datatype Config = Config(
    closes: (string, string) -> bool,
    isEmpty: string -> bool,
    omitted: bool,
    maxDepth: nat)

  /** Abandon is the pop of a start tag whose '>' is missing: no callback is made. */
  datatype Event = StartElement(name: string) | EndElement(name: string) | Abandon(name: string)

  datatype State = State(names: seq<string>, nodes: seq<string>, events: seq<Event>)

  const EMPTY := State([], [], [])

  // ---- the two stacks ----

  /** htmlnamePush and startElement; nodePush refuses beyond the depth limit. */
  function Push(c: Config, st: State, name: string): State
  {
    State(st.names + [name],
          if |st.nodes| > c.maxDepth then st.nodes else st.nodes + [name],
          st.events + [StartElement(name)])
  }

  function DropLast(s: seq<string>): seq<string> { if s == [] then [] else s[..|s| - 1] }

  function Last(s: seq<string>): string
    requires s != []
  {
    s[|s| - 1]
  }

  /** htmlnamePop and nodePop, with the callback in between or without one. */
  function Pop(st: State, callback: bool): State
    requires st.names != []
  {
    State(DropLast(st.names), DropLast(st.nodes),
          st.events + [if callback then EndElement(Last(st.names)) else Abandon(Last(st.names))])
  }

  // ---- implied ends ----

  /** htmlAutoClose for a new tag. */
  function AutoClose(c: Config, st: State, newtag: string): (r: State)
    ensures |r.names| <= |st.names|
    decreases |st.names|
  {
    if st.names != [] && c.closes(newtag, Last(st.names)) then AutoClose(c, Pop(st, true), newtag) else st
  }

  /** htmlAutoCloseOnEnd. */
  function AutoCloseOnEnd(st: State): State
    decreases |st.names|
  {
    if st.names == [] then st else AutoCloseOnEnd(Pop(st, true))
  }

  /** htmlGetEndPriority. */
  function Priority(name: string): int
  {
    if name == "div" then 150
    else if name == "td" || name == "th" then 160
    else if name == "tr" then 170
    else if name == "thead" || name == "tbody" || name == "tfoot" then 180
    else if name == "table" then 190
    else if name == "head" || name == "body" then 200
    else if name == "html" then 220
    else 100
  }

  /** The scan of htmlAutoCloseOnClose: down to the topmost match, stopped by an
      element of higher priority. */
  predicate MayClose(names: seq<string>, newtag: string)
  {
    names != [] &&
    (Last(names) == newtag
     || (Priority(Last(names)) <= Priority(newtag) && MayClose(DropLast(names), newtag)))
  }

  function PopTo(st: State, newtag: string): (r: State)
    decreases |st.names|
  {
    if st.names == [] || Last(st.names) == newtag then st else PopTo(Pop(st, true), newtag)
  }

  function AutoCloseOnClose(st: State, newtag: string): State
  {
    if MayClose(st.names, newtag) then PopTo(st, newtag) else st
  }

  // ---- implied starts ----

  predicate HeadOnly(name: string)
  {
    name == "script" || name == "style" || name == "meta" || name == "link" || name == "title" || name == "base"
  }

  predicate Frames(name: string) { name == "noframes" || name == "frame" || name == "frameset" }

  /** htmlCheckImplied. */
  function CheckImplied(c: Config, st: State, newtag: string): State
  {
    if !c.omitted || newtag == "html" then st
    else
      var st1 := if st.names == [] then Push(c, st, "html") else st;
      if newtag == "body" || newtag == "head" then st1
      else if |st1.names| <= 1 && HeadOnly(newtag) then Push(c, st1, "head")
      else if !Frames(newtag) && "body" !in st1.names && "head" !in st1.names then Push(c, st1, "body")
      else st1
  }

  /** The three steps htmlCheckParagraph takes to open a paragraph. */
  function OpenParagraph(c: Config, st: State): State
  {
    Push(c, CheckImplied(c, AutoClose(c, st, "p"), "p"), "p")
  }

  /** htmlCheckParagraph, before character data is reported. */
  function CheckParagraph(c: Config, st: State): State
  {
    if st.names == [] then OpenParagraph(c, st)
    else if c.omitted && (Last(st.names) == "html" || Last(st.names) == "head") then OpenParagraph(c, st)
    else st
  }

  // ---- tags ----

  predicate Misplaced(names: seq<string>, name: string)
  {
    || (|names| > 0 && name == "html")
    || (|names| != 1 && name == "head")
    || (name == "body" && "body" in names)
  }

  /** What htmlParseStartTag does before it decides whether to open the element. */
  function Prepare(c: Config, st: State, name: string): State
  {
    CheckImplied(c, AutoClose(c, st, name), name)
  }

  /** htmlParseStartTag. */
  function StartTag(c: Config, st: State, name: string): State
  {
    var st1 := Prepare(c, st, name);
    if Misplaced(st1.names, name) then st1 else Push(c, st1, name)
  }

  datatype TagEnd = SlashGt | Gt | Missing

  /** htmlParseElement up to its content. It acts on the innermost open element, also
      when the start tag itself was refused. */
  function Element(c: Config, st: State, name: string, end: TagEnd): State
  {
    var st1 := StartTag(c, st, name);
    if st1.names == [] then st1
    else match end
      case SlashGt => Pop(st1, true)
      case Missing => Pop(st1, false)
      case Gt => if c.isEmpty(Last(st1.names)) then Pop(st1, true) else st1
  }

  /** htmlParseEndTag. */
  function EndTag(st: State, name: string): State
  {
    if name !in st.names then st
    else
      var st1 := AutoCloseOnClose(st, name);
      if st1.names != [] && Last(st1.names) == name then Pop(st1, true) else st1
  }

  // ---- runs ----

  datatype Token =
    | Peek(name: string)
    | Start(name: string, end: TagEnd)
    | End(name: string)
    | Text
    | Eof

  function Step(c: Config, st: State, t: Token): State
  {
    match t
    case Peek(name) => AutoClose(c, st, name)
    case Start(name, end) => Element(c, st, name, end)
    case End(name) => EndTag(st, name)
    case Text => CheckParagraph(c, st)
    case Eof => AutoCloseOnEnd(st)
  }

  function Run(c: Config, st: State, tokens: seq<Token>): State
    decreases |tokens|
  {
    if tokens == [] then st else Run(c, Step(c, st, tokens[0]), tokens[1..])
  }
}
