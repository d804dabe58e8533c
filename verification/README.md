# A model of the stateful core of libxml2

This project models five components of libxml2 in Dafny and proves what they are for.

- **Canonical XML** (`c14n.c`). A tree walk prints a document while a stack of "namespaces
  already rendered", with three moving indices, decides which declarations to print. The
  walk is proved equal to a form without a stack that threads two scope maps. A
  namespace-aware reader of its output finds the document again. If only a part of the
  document is visible, exactly the visible nodes are printed, and in inclusive mode the
  scopes a reader finds follow from the visible namespace nodes.
- **String dictionary** (`dict.c`). A hash table with embedded heads, overflow chains,
  two-pass growth and append-only pools. It is proved to be a map from byte strings to
  pointers, over every run of lookups with growth and a sub-dictionary. Reference counting
  is a state machine over every interleaving of its steps.
- **HTML recovery parser** (`HTMLparser.c`). Start tags, end tags, text and end of input act
  on a name stack and a node stack through auto-close, implied elements and priorities. What
  every run keeps is proved, and so is the resumable entity encoder.
- **Catalogs** (`catalog.c`). Mutually recursive resolution over catalogs that may refer to
  one another in circles, with files loaded when needed and shared. It always ends, and
  without circles it answers as a plain recursion over the files. The order in which the
  entries of a list decide is proved on the entries themselves. Editing with updates in
  place and tombstones, and the pair that flattens nested groups into a list and rebuilds
  them.
- **Tree builder** (`SAX2.c`). Callbacks append character data in place, with a cached length
  and capacity and copy on write.

Each component has a module of pure functions that say what a step computes, modules of
theorems about those functions, and a module (`…Impl`, or a class in the same file) with
classes, arrays and loops in the form of the C code. Every method of the latter is proved
against the function it implements, so the theorems hold of it.

Conventions. Allocation succeeds. A null prefix is the empty string. Linked lists and growable
pointer arrays are sequences unless their layout is the point. The visibility callback,
the relative-URI test, the HTML tables and the contents of catalog files are parameters.
The standards followed are Canonical XML 1.0 (sections 2.2 and 2.3), Exclusive XML
Canonicalization 1.0 (section 3) and the OASIS XML Catalogs draft of 2001-08-06 (section
7.1).

Where a natural claim is false of the code, the code is kept and the exact condition is
proved, where it helps with an input that shows the failure: `Escape.RoundTrip` (comments and processing instructions
leave `&` alone), `Attributes.AttrCmpAntisymmetric` (unprefixed namespaces),
`DictTheorems.UnterminatedEmpty` (empty names that are not terminated),
`HtmlTheorems.RunIsTold` (start tags that lose their element without a callback),
`HtmlTheorems.RunCorresponds` (the depth limit of the node stack), `CatalogGroups.RoundTrip`
(groups without an id), and `CatalogCircles.RestoredIffNoCircle` (the exit of the recursion
limit leaves a counter raised; `CatalogCircles.CircleLosesAnswers` is the input).

Check everything with `dafny verify dfyconfig.toml`.

## Model

| member | source | states |
|---|---|---|
| XmlTree.SearchIsScope | libxml2/tree.c:5583-5653 | walking up through declarations and namespace pointers finds the binding that a plain scope map of the path has, and nothing exactly when the map has none |
| C14n.StartElement | libxml2/c14n.c:1116-1184 | in both modes and for any visibility the axis only pushes entries and leaves prevStart <= prevEnd <= end |
| C14n.ProcessNode | libxml2/c14n.c:1116-1213 | processing any subtree successfully gives back the stack as it was: entries and all three indices, whatever is visible |
| C14n.ProcessNodes | libxml2/c14n.c:1415-1429 | the same for a list of siblings |
| C14nReference.RenderedIsInOutput | libxml2/c14n.c:405-474 | the stack answers "already rendered" exactly for bindings that are in scope in the output or that this element has just visited, in both modes |
| C14nReference.VisitStep | libxml2/c14n.c:623-634 | one visited declaration is listed for printing if and only if the output scope lacks it, and the list stays the sorted set of new bindings |
| C14nReference.MatchedIsScope | libxml2/c14n.c:618-623 | the declarations that pass the "is this the nearest one" test are exactly one per prefix in scope |
| C14nReference.ListedIsInOutput | libxml2/c14n.c:731-764 | in exclusive mode the window, asked for a listed prefix, answers exactly whether the output has the binding or this element has just visited it |
| C14nReference.FoldPrefixes | libxml2/c14n.c:731-764 | the loop over the prefix list visits exactly the listed prefixes in scope, "#default" and "" meaning the default namespace |
| C14nReference.InclusiveAxisCorrect | libxml2/c14n.c:595-667 | with all nodes visible the inclusive axis prints exactly the bindings that differ from the output scope, each prefix lexicographically after the one before, and the window then holds exactly the bindings of this element |
| C14nReference.ExclusiveAxisCorrect | libxml2/c14n.c:700-844 | with all nodes visible and a consistent tree the exclusive axis prints, in lexicographic order of prefix, exactly the bindings the output lacks among those utilized and those of listed prefixes in scope; the top entry of each prefix is again its binding in the output |
| C14nTheorems.StartRefines | libxml2/c14n.c:1116-1184 | a start tag printed through the stack is the reference start tag, and the stack knows the output scope below it |
| C14nTheorems.RefinesNode | libxml2/c14n.c:1224-1404 | the stack-based walk over any subtree appends exactly the reference output, and fails exactly when the reference does |
| C14nTheorems.RefinesNodes | libxml2/c14n.c:1415-1429 | the same for a list of siblings |
| C14nTheorems.ExecuteIsReference | libxml2/c14n.c:1568-1633 | with every node visible, canonicalization in both modes equals the form without a stack, for every document whose namespace pointers are in scope (in exclusive mode: consistent) |
| C14nTheorems.DeclaresTheDifference | libxml2/c14n.c:595-667 | inclusive mode: an element declares a prefix if and only if its binding differs from the parent's, and output and input scopes agree inside it |
| C14nTheorems.MeaningPreserved | libxml2/c14n.c:1116-1429 | for every namespace-consistent document, all of it visible, in both modes and with any prefix list: a namespace-aware reader of the output finds every element and attribute with its URI and value, every text, and at every element all bindings in scope, in exclusive mode those of the listed prefixes; it meets no redundant declaration |
| C14nScopes.ScopesPreserved | libxml2/c14n.c:595-667 | inclusive mode, every document, consistent or not: replaying the declarations of the output gives every element exactly the scope it had in the input, and no declaration repeats what is in scope |
| C14nTheorems.NodeTags | libxml2/c14n.c:1116-1404 | for every visibility, mode and prefix list the output gains the tags of exactly the visible elements of the subtree, and the stack is restored |
| C14nTheorems.WellNested | libxml2/c14n.c:1568-1633 | the tags of every successful canonicalization match as brackets |
| C14nVisible.NodePrints | libxml2/c14n.c:1224-1404 | for every visibility, mode and prefix list: declarations apart, the output gains exactly what the visible nodes print, in document order: tags around contents, the attributes of each element, visible texts with content, processing instructions, and comments if asked for |
| C14nVisible.NodesPrint | libxml2/c14n.c:1415-1429 | the same for a list of siblings |
| C14nVisible.PrintsTheVisible | libxml2/c14n.c:1568-1633 | the same for the canonical form of a whole document |
| C14nVisible.PositionMeans | libxml2/c14n.c:1174-1209 | a comment or instruction has a line of its own exactly if no element around it is visible, and the break comes before it exactly if a visible element came earlier |
| C14nVisible.FailsIff | libxml2/c14n.c:1056-1093 | canonicalization fails exactly for a document with an element, visible or not, that declares a relative URI, or with a node of a kind it refuses |
| C14nVisible.AttributesPrinted | libxml2/c14n.c:977-1045 | a start tag prints, in the order no namespace, URI, local name, exactly the visible attributes and, in inclusive mode below a parent that is not visible, the inherited xml: ones |
| C14nVisible.DeclarationsAscend | libxml2/c14n.c:510-521 | whatever is visible, in both modes, the declarations of an element stand in lexicographic order of prefix |
| C14nSubsets.FindMeans | libxml2/c14n.c:405-437 | whatever is visible, a declaration is skipped as already rendered only if the output has this binding in scope |
| C14nSubsets.AxisCovers | libxml2/c14n.c:595-667 | a visible element declares its visible namespace nodes that the output lacks and nothing else, and takes back a default namespace it does not have |
| C14nSubsets.VisibleScopesKept | libxml2/c14n.c:595-667 | inclusive mode, every document and every part of it in which only visible elements have visible namespace nodes: at every visible element a reader has in scope exactly its visible namespace nodes, the prefixes of its visible ancestors, and a default namespace only if one of its own nodes is |
| C14nImpl.NsStack.constructor | libxml2/c14n.c:275-285 | a new stack stands for the empty one |
| C14nImpl.NsStack.Add | libxml2/c14n.c:307-350 | the arrays then stand for the old entries plus one, whether or not they had to grow |
| C14nImpl.NsStack.Grow | libxml2/c14n.c:312-345 | reallocation makes room and keeps every entry and index |
| C14nImpl.NsStack.Save | libxml2/c14n.c:353-362 | the three indices are remembered |
| C14nImpl.NsStack.Restore | libxml2/c14n.c:365-373 | going back drops everything above the saved end and moves the window back |
| C14nImpl.NsStack.Shift | libxml2/c14n.c:376-383 | the window becomes what this element pushed |
| C14nImpl.NsStack.Find | libxml2/c14n.c:405-437 | the downward loop answers as the top entry of the prefix in the window does |
| C14nImpl.NsStack.FindExclusive | libxml2/c14n.c:439-474 | the downward loop answers as the top entry of the prefix does, and that it is visible |
| C14nImpl.Canonicalizer.InclusiveAxis | libxml2/c14n.c:595-667 | the nested loops over ancestors and declarations push and print what the axis function says |
| C14nImpl.Canonicalizer.ExclusiveAxis | libxml2/c14n.c:700-844 | the three phases (prefix list, element, attributes) and the xmlns="" decision do what the axis function says |
| C14nImpl.Canonicalizer.PrefixLoop | libxml2/c14n.c:731-764 | every listed prefix is looked up, pushed and listed unless rendered, and the result says whether the default prefix is listed |
| C14nImpl.Canonicalizer.ElementStep | libxml2/c14n.c:766-785 | the element's own namespace, or the default in scope, is pushed if visible and listed unless rendered |
| C14nImpl.Canonicalizer.AttrLoop | libxml2/c14n.c:787-808 | every namespace of a visible attribute is pushed and listed unless rendered, and the result says whether the empty default is utilized |
| C14nImpl.Canonicalizer.AttrsAxis | libxml2/c14n.c:977-1045 | the loops over own and inherited attributes build the attribute axis |
| C14nImpl.Canonicalizer.HasRelative | libxml2/c14n.c:1056-1093 | true exactly if some declaration has a non-empty relative URI |
| C14nImpl.Canonicalizer.StartElement | libxml2/c14n.c:1116-1184 | position, output and stack are those of the function proved to print the reference start tag |
| C14nImpl.Canonicalizer.EndElement | libxml2/c14n.c:1192-1213 | the closing tag, the document position, and the stack of before the element |
| C14nImpl.Canonicalizer.ProcessElement | libxml2/c14n.c:1116-1213 | the whole element as the recursive function has it, failing exactly when it fails |
| C14nImpl.Canonicalizer.ProcessNode | libxml2/c14n.c:1224-1404 | every node type as the recursive function has it, so that exactly the visible nodes are printed (`C14nVisible.NodePrints`) |
| C14nImpl.Canonicalizer.ProcessNodes | libxml2/c14n.c:1415-1429 | the loop over siblings |
| C14nImpl.Execute | libxml2/c14n.c:1568-1633 | the whole run, from a new context, computes the canonical form |
| Common.StrCmpIsLexicographic | libxml2/xmlstring.c:131-143 | the comparison of strings decides the lexicographic order: a proper prefix first, else the smaller character at the first difference |
| Common.InsertPairAscends | libxml2/list.c:273-301 | ordered insertion keeps the lexicographic order of prefixes, whether or not the prefix is there already |
| Common.SortedAscends | libxml2/c14n.c:510-521 | in a sorted list of declarations every prefix strictly precedes all later ones |
| Attributes.AttrCmpIsKeyCmp | libxml2/c14n.c:856-893 | on attributes without a namespace or with a prefixed one the comparator decides the order no namespace first, then URI, then local name, the latter two as strings of characters |
| Attributes.KeyCmpIsPrecedes | libxml2/c14n.c:856-893 | one key is smaller than another exactly if it comes first in that order |
| Attributes.KeyCmpOrder | libxml2/c14n.c:856-893 | that order is total: antisymmetric, transitive, and equal only on equal keys |
| Attributes.AttrCmpAntisymmetric | libxml2/c14n.c:856-893 | the comparator contradicts itself exactly on two unprefixed attributes of different namespace objects |
| Attributes.InsertKeepsOrder | libxml2/list.c:273-301 | insertion keeps the list sorted |
| Attributes.PresentIsMembership | libxml2/list.c:231-243 | searching a sorted list finds an attribute if and only if its key is there |
| Attributes.AxisContents | libxml2/c14n.c:977-1045 | the axis is a permutation, in ascending order of no namespace, URI and local name, of the visible attributes and, for an orphan, of the nearest xml: attributes of its ancestors that it does not print itself |
| Attributes.FirstPerKeyIsNearest | libxml2/c14n.c:1013-1033 | the inherited attributes repeat no key, miss none, and each is the nearest ancestor's |
| Escape.RoundTrip | libxml2/c14n.c:1836-1924 | decoding the escaped string gives the original for every string in the text and attribute modes, and in the other two modes exactly for strings without an ampersand |
| Escape.OutputIsSafe | libxml2/c14n.c:1867-1912 | no raw "<" in text or attributes, no ">" in text, no quote, tab or newline in attributes, no carriage return anywhere |
| Escape.UnchangedIff | libxml2/c14n.c:1913-1919 | exactly the strings without such a character, and in text and attributes without an ampersand, are printed as they are |
| Escape.SpecialForms | libxml2/c14n.c:1867-1912 | each of those characters becomes its reference, letter by letter, and the rest of the string is escaped as before |
| Escape.Injective | libxml2/c14n.c:1836-1924 | different strings have different escaped forms |
| Escape.NormalizeString | libxml2/c14n.c:1836-1924 | growing when within ten bytes of the end keeps every write and the terminator inside the buffer, whose contents are the escaped string, free of the characters that must not appear raw |
| Escape.Grow | libxml2/c14n.c:1814-1822 | the buffer doubles and keeps what it held |
| DictTheorems.KeyIsOfName | libxml2/dict.c:230-254 | a terminated name hashes by its own bytes only, so its stored copy hashes alike |
| DictTheorems.ProbeIsGet | libxml2/dict.c:575-607 | walking one bucket is looking up the map |
| DictTheorems.AddStringStores | libxml2/dict.c:127-164 | the returned range holds the name and a terminator, inside a pool |
| DictTheorems.AddStringKeeps | libxml2/dict.c:127-164 | every earlier range keeps its bytes and does not overlap the new one |
| DictTheorems.HeadsMove | libxml2/dict.c:439-448 | the first pass of growth never overwrites a head, and the new table holds exactly the heads |
| DictTheorems.ChainsMove | libxml2/dict.c:450-476 | the second pass adds every chained entry to the bucket of its key |
| DictTheorems.GrowKeeps | libxml2/dict.c:403-486 | growth keeps the map, the entry count and the bucket invariant, and multiplies the size by eight within 128, 1024, 8192 |
| DictTheorems.AppendExtends | libxml2/dict.c:641-663 | appending a new entry extends the map by one name |
| DictTheorems.InsertExtends | libxml2/dict.c:641-669 | the same with the growth that may follow: the growth call always passes the range check |
| DictTheorems.ExistsIsGet | libxml2/dict.c:681-761 | existence answers from the map, then from the sub-dictionary's map |
| DictTheorems.LookupRefines | libxml2/dict.c:562-669 | lookup returns the known pointer and changes nothing, or extends the map by exactly this name |
| DictTheorems.CreateIsEmpty | libxml2/dict.c:322-349 | a new dictionary stands for the empty map |
| DictTheorems.RunKeeps | libxml2/dict.c:562-761 | at the end of every run each answer it gave is still the answer, and lookups always answer |
| DictTheorems.RunInterns | libxml2/dict.c:562-669 | over every run with growth and a sub-dictionary two answers are the same pointer if and only if the names are equal; every answer still points to its bytes, is owned, and overlaps no other |
| DictTheorems.RunAgrees | libxml2/dict.c:562-761 | once a name has been answered, every later lookup or existence test gives the same pointer |
| DictTheorems.UnterminatedEmpty | libxml2/dict.c:230-254 | an empty name that is not terminated is found correctly exactly if it is not interned yet or the next byte happens to select bucket 0 |
| DictTheorems.UnterminatedEmptyTwice | libxml2/dict.c:230-254 | hence the same empty name followed by different bytes is interned twice |
| DictImpl.PoolBuf.Store | libxml2/dict.c:155-161 | the name and its terminator are copied behind what is there |
| DictImpl.StringDict.constructor | libxml2/dict.c:322-373 | a new object stands for the empty dictionary with the given sub-dictionary |
| DictImpl.StringDict.Search | libxml2/dict.c:575-592 | the loop over a bucket finds what the recursive search finds |
| DictImpl.StringDict.Exists | libxml2/dict.c:681-761 | own table first, then the sub-dictionary's, and nothing changes |
| DictImpl.StringDict.FindPool | libxml2/dict.c:135-140 | the last pool with room, and the largest size met if there is none |
| DictImpl.StringDict.AddString | libxml2/dict.c:127-164 | pools and pointer as specified, the table untouched |
| DictImpl.StringDict.Grow | libxml2/dict.c:403-486 | the new table is what the two passes produce from the old one, and the strings are not touched |
| DictImpl.StringDict.MoveHeads | libxml2/dict.c:439-448 | the loop builds the table proved to hold exactly the heads, in fresh memory, leaving the old table alone |
| DictImpl.StringDict.MoveChains | libxml2/dict.c:450-476 | the nested loops link every chained entry in behind the head of its new bucket, and write to the new table only |
| DictImpl.StringDict.Append | libxml2/dict.c:641-663 | the table gains one entry at the end of its bucket and the count rises by one |
| DictImpl.StringDict.Lookup | libxml2/dict.c:562-669 | the whole lookup, with the sub-dictionary left alone |
| DictImpl.StringDict.FreeEntries | libxml2/dict.c:524-541 | the loop bounded by the entry count frees every overflow entry exactly once, in order |
| DictSharing.StepKeeps | libxml2/dict.c:322-392 | every step of create, create-sub, reference and free keeps the counters equal to the references held, and sub-dictionaries held by their users |
| DictSharing.ReachableKeeps | libxml2/dict.c:322-392 | so does every interleaving of steps |
| DictSharing.SharingIsSafe | libxml2/dict.c:495-550 | in every interleaving a held dictionary is intact, a sub-dictionary outlives its users, and memory is released at most once and exactly for dictionaries that are gone |
| DictSharing.LastReferenceTearsDown | libxml2/dict.c:495-522 | teardown begins exactly in the step that gives up the last reference, and belongs to the thread that took it |
| HtmlTheorems.AutoCloseIsPrefix | libxml2/HTMLparser.c:1220-1241 | auto-close removes only closable names from the top and stops at the first that is not |
| HtmlTheorems.AutoCloseIsMaximalRun | libxml2/HTMLparser.c:1220-1241 | a start tag removes exactly the maximal top run its table entry closes |
| HtmlTheorems.StepShape | libxml2/HTMLparser.c:3463-3499 | every token keeps html at the bottom and nowhere else, head only at index 1, body at most once |
| HtmlTheorems.RunShape | libxml2/HTMLparser.c:1304-1390 | so does every run with omitted-tag handling on |
| HtmlTheorems.EndTagTruncates | libxml2/HTMLparser.c:3669-3712 | an end tag truncates the stack just below its topmost match if nothing above it has a higher priority, and otherwise changes nothing at all |
| HtmlTheorems.EndTagByClass | libxml2/HTMLparser.c:1018-1031 | with the names written out: an end tag closes what is above its match exactly if nothing there is in a later class, the classes being all other elements, div, cells, rows, row groups, tables, head and body, html |
| HtmlTheorems.ImpliedElements | libxml2/HTMLparser.c:1304-1350 | with the names written out: head is implied exactly below a lone element for script, style, meta, link, title and base; body exactly where neither head nor body is open, for every other name but html, head, body and the frame elements |
| HtmlTheorems.FirstTag | libxml2/HTMLparser.c:1304-1350 | the first start tag of a document leaves html, head and itself, html and itself, html alone, or html, body and itself, by its name |
| HtmlTheorems.ToldIffNoneAbandoned | libxml2/HTMLparser.c:4015-4028 | the callbacks alone leave open exactly the names on the stack if and only if no start tag lost its element without a callback |
| HtmlTheorems.RunIsTold | libxml2/HTMLparser.c:3966-4050 | in every run, at every point: the callbacks are well nested and leave open the name stack if and only if no start tag without its ">" was handled with an element open before that point |
| HtmlTheorems.AbandonedIsNotTold | libxml2/HTMLparser.c:4015-4028 | a lone start tag without its ">" is announced and never taken back |
| HtmlTheorems.TextIsInContent | libxml2/HTMLparser.c:1361-1390 | with omitted tags implied, text outside everything or directly inside html or head opens a paragraph, the first one below html and body, and elsewhere nothing changes |
| HtmlTheorems.ElementOpens | libxml2/HTMLparser.c:3966-4050 | an accepted element stays open on top of what was prepared for it exactly if its tag ends in ">" and it is not empty; refused are html inside anything, head anywhere but below one element, and a second body; a refused one that does not stay open closes its surroundings |
| HtmlTheorems.StepCorresponds | libxml2/HTMLparser.c:3966-4050 | a step keeps open names and open nodes equal, entry by entry, exactly if it nests no deeper than the limit, also on the pop without a callback |
| HtmlTheorems.RunCorresponds | libxml2/HTMLparser.c:3987-4050 | in every run all states agree up to a point exactly if no token before it nests deeper than the limit |
| HtmlTheorems.DepthLimitSeparatesStacks | libxml2/parser.c:1245-1275 | whatever the limit, an element that does not close itself, nested in itself once too often, makes the two stacks disagree |
| HtmlImpl.TagStack.Grow | libxml2/HTMLparser.c:166-175 | a full table doubles, and entries, count and cached top stay |
| HtmlImpl.TagStack.Push | libxml2/HTMLparser.c:164-180 | one more entry whether or not the table had room, and the cached top is that entry |
| HtmlImpl.TagStack.Pop | libxml2/HTMLparser.c:189-206 | one entry less, nothing on the empty stack, and the cached top is the new top or none |
| HtmlImpl.Parser.AutoClose | libxml2/HTMLparser.c:1220-1241 | the loop on the cached top removes the maximal closable run, in both tables and with its callbacks |
| HtmlImpl.Parser.AutoCloseOnEnd | libxml2/HTMLparser.c:1194-1206 | the counting loop closes everything, with a callback each |
| HtmlImpl.Parser.AutoCloseOnClose | libxml2/HTMLparser.c:1151-1186 | the two loops pop down to the topmost match or not at all |
| HtmlImpl.Parser.CheckImplied | libxml2/HTMLparser.c:1304-1350 | implies html, then head or body, exactly where the machine of the run theorems does, whose names `HtmlTheorems.ImpliedElements` writes out |
| HtmlImpl.Parser.StartTag | libxml2/HTMLparser.c:3424-3601 | the tables after a start tag are those of the machine of the run theorems, refused tags included |
| HtmlImpl.Parser.EndTag | libxml2/HTMLparser.c:3628-3713 | the tables after an end tag are truncated below its topmost match or untouched |
| AutoCloseTable.SkipGroup | libxml2/HTMLparser.c:1059-1060 | the inner loop stops at the null that ends the group |
| AutoCloseTable.InitAutoClose | libxml2/HTMLparser.c:1049-1063 | for every flat table the index holds the starts of its first 99 groups and then nulls |
| AutoCloseTable.CheckAutoClose | libxml2/HTMLparser.c:1114-1141 | looking up through the index equals scanning the table directly, for every well-formed table of fewer than 100 groups; of a longer one the first 99 count |
| AutoCloseTable.NeverListedNeverClosed | libxml2/HTMLparser.c:908-964 | a tag on no group's closed side, as html and body, is never closed |
| AutoCloseTable.TableKeepsShape | libxml2/HTMLparser.c:908-964 | a parser over a table that lists neither html nor body on a closed side keeps the shape of the stack over every run |
| HtmlEncode.OutputIsInput | libxml2/HTMLparser.c:1898-1979 | whatever the call returns, the bytes it wrote read back as exactly the code points of the bytes it reports as consumed |
| HtmlEncode.OutputIsSafe | libxml2/HTMLparser.c:1898-1979 | the output is ASCII without a raw "<", ">" or the quote, and within the capacity |
| HtmlEncode.Resume | libxml2/HTMLparser.c:1898-1979 | stopping and resuming on the remainder concatenates to the one-shot output, consumption and verdict |
| HtmlEncode.LookupIsComplete | libxml2/HTMLparser.c:1764-1777 | in a table in order of value the scan that stops early finds every value |
| HtmlEncode.ReadChar | libxml2/HTMLparser.c:1914-1944 | the continuation-byte loop decodes the character that starts at the cursor |
| HtmlEncode.EncodeEntities | libxml2/HTMLparser.c:1898-1979 | the cursor loop computes the encoding, and nothing at or beyond the capacity is written |
| CatalogNames.UnwrapURNLighter | libxml2/catalog.c:817-868 | unwrapping a URN strictly decreases a weight although the text may get longer, so repeated unwrapping ends |
| CatalogNames.UnwrapUndoesWrap | libxml2/catalog.c:817-868 | unwrapping gives back a public identifier from its transcription by RFC 3151, or as much of its beginning as the buffer takes |
| CatalogNames.UnwrapURNUndoesWrap | libxml2/catalog.c:817-868 | so the URN of every public identifier of up to 1997 characters stands for it |
| CatalogNames.NormalizeLighter | libxml2/catalog.c:1029-1070 | normalizing a public identifier never increases that weight |
| CatalogNames.NormalizeTwice | libxml2/catalog.c:1029-1070 | a normal form is its own normal form |
| CatalogNames.NormalizeIsWords | libxml2/catalog.c:1029-1070 | the normal form is the words of the identifier with one space between them, and there is none if it has no word |
| CatalogNames.IdentifyIsPlain | libxml2/catalog.c:2013-2056 | what is looked for after unwrapping is normal and no URN, so nothing changes it on the way down |
| CatalogResolve.LoadFacts | libxml2/catalog.c:1445-1476 | loading a file never raises the measure: the headroom of its new entries is paid by the file leaving the unloaded ones |
| CatalogResolve.FetchFacts | libxml2/catalog.c:1405-1476 | fetching from the cache, from the file, or marking as broken keeps the measure, all links, all counters and all children already set |
| CatalogResolve.Resolve | libxml2/catalog.c:1625-1842 | ends for every finite set of files, circles or not; counters stay within 0..51; in each call they are all put back if the exit of the recursion limit is not taken in it, and one is left raised if it is |
| CatalogResolve.TryDelegates | libxml2/catalog.c:1694-1738 | the same for the loop over delegates, on lists whose links cannot change under it |
| CatalogResolve.TryNext | libxml2/catalog.c:1819-1838 | the same for the loop over next catalogs |
| CatalogResolve.ResolveList | libxml2/catalog.c:2001-2078 | the same for a list of catalogs, through any URNs |
| CatalogResolve.Walk | libxml2/catalog.c:2057-2074 | the same for its loop |
| CatalogWorld.LoadedCopy | libxml2/catalog.c:1337-1394 | a freshly loaded file is a catalog whose list says what the file says, read with the preference of the reference |
| CatalogWorld.FetchOrderly | libxml2/catalog.c:1405-1476 | after following a reference it has children exactly if its file can be read, and they are the one shared copy of that file |
| CatalogWorld.ResolveKeeps | libxml2/catalog.c:1625-1842 | resolution keeps every copy what its file says, whatever is loaded, broken or left raised on the way |
| CatalogWorld.ChildResolves | libxml2/catalog.c:1819-1836 | following a reference is resolving in the list of its file |
| CatalogSpec.AskWeathered | libxml2/catalog.c:1452-1457 | marking next catalogs with missing files as broken does not change any answer |
| CatalogAnswers.DelegatesAnswer | libxml2/catalog.c:1694-1738 | without circles the loop over delegates returns the first answer of their files that is not null, although it skips URLs already tried |
| CatalogAnswers.NextAnswers | libxml2/catalog.c:1819-1838 | without circles the loop over next catalogs returns the first answer of their files that is not null, and does not take the exit |
| CatalogAnswers.ResolveIsSpecified | libxml2/catalog.c:1625-1842 | if the references consulted for the identifiers do not run in a circle: a list answers itself, else its matching delegates do or nobody, else its next catalogs, as a recursion over the files without counters, copies or loading says; every counter is put back |
| CatalogAnswers.ResolveListWalks | libxml2/catalog.c:2001-2056 | unwrapping all URNs first and walking the list then is all that happens |
| CatalogAnswers.WalkAnswers | libxml2/catalog.c:2057-2074 | the walk over a list of catalogs, loaded on the way, returns the first answer that is not null |
| CatalogAnswers.ResolveListIsSpecified | libxml2/catalog.c:2001-2078 | lazy, shared loading does not show: without circles the entry point answers every identifier as the recursion over the files does and puts every counter back |
| CatalogOrder.OrderOfResolution | libxml2/catalog.c:1625-1842 | for every list and any two identifiers: an exact name or longest prefix of the system identifier decides, whatever is said about the public one; else its delegates, finally; else the first entry of the public identifier; else its delegates, finally; only then the next catalogs; else nothing |
| CatalogOrder.OrderOfAnswers | libxml2/catalog.c:1625-1842 | the recursion over the files decides in that order |
| CatalogOrder.FirstCatalogDecides | libxml2/catalog.c:2057-2074 | the answer of the first catalog of a list stands, so a name or prefix of the system identifier in it decides before all else |
| CatalogCircles.ResolveSticks | libxml2/catalog.c:1819-1838 | for identifiers nobody answers: null, and if a chain of references never ends, some counter is at the limit afterwards, from any state |
| CatalogCircles.RestoredIffNoCircle | libxml2/catalog.c:1813-1842 | for identifiers nobody answers, the exact condition: every counter is put back if and only if the references consulted do not run in a circle; otherwise one is left raised |
| CatalogCircles.SelfReferenceSilences | libxml2/catalog.c:1829-1833 | a catalog file that names itself as next catalog: one identifier nobody answers leaves its counter at 51, and from then on it answers nothing |
| CatalogCircles.CircleLosesAnswers | libxml2/catalog.c:1829-1833 | a concrete such file that finds "x", is asked for "y", and then does not find "x" |
| CatalogCircles.MissingDelegateIsForgotten | libxml2/catalog.c:1452-1457 | a delegate with a missing file ends the search the first time and not the second, so answers depend on the files alone only if delegates can be read |
| CatalogImpl.Catalogs.Fetch | libxml2/catalog.c:1405-1476 | the arena and the cache are updated in place as the fetch of the theorems |
| CatalogImpl.Catalogs.ScanSystem | libxml2/catalog.c:1647-1693 | one pass along the links finds the first exact match, else the longest rewrite, else whether there are matching delegates and next catalogs |
| CatalogImpl.Catalogs.ScanPublic | libxml2/catalog.c:1743-1770 | the same for public identifiers |
| CatalogImpl.Catalogs.Resolve | libxml2/catalog.c:1625-1842 | scanning before deciding, with the counter raised meanwhile, computes the resolution of the theorems, in the order of `CatalogOrder.OrderOfResolution` |
| CatalogImpl.Catalogs.TryDelegates | libxml2/catalog.c:1694-1738 | following live links while entries are loaded visits the positions the list had at the start |
| CatalogImpl.Catalogs.TryNext | libxml2/catalog.c:1819-1838 | the same, with the exit of the recursion limit |
| CatalogImpl.Catalogs.ResolveList | libxml2/catalog.c:2001-2078 | the entry point of the theorems |
| CatalogImpl.Catalogs.Walk | libxml2/catalog.c:2057-2074 | the loop over catalogs by their live links |
| CatalogEdit.ResolutionIsSpec | libxml2/catalog.c:1647-1693 | for every list, in any order and with removed entries in between, the scan answers as two maps do: exact name, else the longest matching non-empty prefix replaced, else nothing |
| CatalogEdit.AddedRules | libxml2/catalog.c:1496-1562 | adding, in place or at the end, is updating one key of one map |
| CatalogEdit.DeletedRules | libxml2/catalog.c:1574-1609 | removing by name or by value is deleting exactly those rules from every map |
| CatalogEdit.EditsAreMaps | libxml2/catalog.c:1496-1609 | after any sequence of edits the list stands for the two maps with the same edits |
| CatalogEdit.EditedCatalogResolves | libxml2/catalog.c:1496-1693 | hence a catalog built by any sequence of adds and removals resolves every system identifier as those maps say |
| CatalogEdit.EditedCatalogAnswers | libxml2/catalog.c:2001-2078 | from the top: a catalog built by any sequence of edits answers every system identifier with the answer of the two maps, or null, and nothing changes |
| CatalogEdit.Catalog.Add | libxml2/catalog.c:1496-1562 | the loop updates the first entry of the same type and name, or appends |
| CatalogEdit.Catalog.Delete | libxml2/catalog.c:1574-1609 | the loop marks every hit as removed |
| CatalogGroups.FlattenGroups | libxml2/catalog.c:1211-1325 | every entry of a flattened forest belongs to the enclosing group or to a group inside the forest |
| CatalogGroups.DumpOfFlatten | libxml2/catalog.c:535-650 | parsing and dumping any forest rebuilds nesting, order, types, names and values of everything the parser accepts |
| CatalogGroups.RoundTrip | libxml2/catalog.c:535-650 | a file survives unchanged exactly if every group has an id and no invalid preference, every entry its attributes, and public names are normal |
| CatalogGroups.GroupWithoutIdChanges | libxml2/catalog.c:562-564 | a group without an id comes back with an empty one |
| CatalogGroups.CatalogFile.ParseNode | libxml2/catalog.c:1211-1300 | one element appends its flattened form to the list |
| CatalogGroups.CatalogFile.ParseNodes | libxml2/catalog.c:1314-1325 | the loop appends the flattened forms of all elements |
| CatalogGroups.CatalogFile.DumpNode | libxml2/catalog.c:535-650 | the loop with recursion on a strictly shorter suffix rebuilds the members of one group |
| Sax2.Append | libxml2/SAX2.c:2431-2462 | appending keeps length and capacity true, ends with a block of the node's own, and the text is the old text followed by the new |
| Sax2.StepKeeps | libxml2/SAX2.c:1519-2660 | every callback keeps the cache right whenever the last child is text |
| Sax2.RunKeeps | libxml2/SAX2.c:2380-2483 | after every sequence of callbacks nodelen is the length of the last text child and nodemem its true capacity |
| Sax2.AddItemsIsExpected | libxml2/SAX2.c:2380-2483 | adding pieces one after the other and joining maximal runs come to the same children |
| Sax2.ItemsStep | libxml2/SAX2.c:2380-2660 | the callbacks of any content add exactly that content to the current node and disturb nothing below it |
| Sax2.ElementIsExpected | libxml2/SAX2.c:1519-1766 | for every content, however its character data is split, the callbacks build the element whose text nodes are its maximal runs of character data, joined |
| Sax2.DocumentIsExpected | libxml2/SAX2.c:1519-2660 | for every document the callbacks build its elements, comments and processing instructions in order; character data, CDATA and references outside all elements leave nothing behind |
| Sax2Impl.TextBlock.Duplicate | libxml2/SAX2.c:2439-2445 | the content moves to a fresh block of exactly its size |
| Sax2Impl.TextBlock.MakeRoom | libxml2/SAX2.c:2439-2459 | afterwards there is room in a block of the node's own, and inline or interned content is as it was |
| Sax2Impl.TextBlock.Append | libxml2/SAX2.c:2431-2462 | only a block of the node's own is ever in the frame, and text, length and capacity come out as specified |
| Sax2Impl.TreeBuilder.NewBlock | libxml2/SAX2.c:1779-1843 | the content of a new text node lies where the length, the options and the next characters say, and equal interned strings share one block |
| Sax2Impl.TreeBuilder.StartElementNode | libxml2/SAX2.c:1519-1600 | the text block being added to is finished as a child of its node, a new node is current, and the dictionary is untouched |
| Sax2Impl.TreeBuilder.EndElementNode | libxml2/SAX2.c:1726-1766 | the node, its unfinished text included, becomes a child of its parent |
| Sax2Impl.TreeBuilder.CharacterData | libxml2/SAX2.c:2380-2483 | appends through the live text block or makes a new one, inline, shared with the dictionary or of its own; strings of the dictionary are not in the frame and keep their bytes, so over every run none is ever written |
| Sax2Impl.TreeBuilder.CDataNode | libxml2/SAX2.c:2639-2660 | joins the last CDATA node, or finishes the text being added to and adds one |

## Left out

- The Kerberos and LDAP wrapper (`btkrb5`): calls into libraries that are not here, and string formatting.
- The interactive shell and dumper (`debugXML.c`), HTML serialization (`HTMLtree.c`), the SAX handler tables (`SAX.c`, `DOCBparser.c`) and the generated character classes (`chvalid.c`).
- `xmlDictQLookup` and its key function: it weights the first byte differently from `xmlDictComputeKey`, so qualified names are not part of the interning theorem.
- `xmlDictSize`, which adds the two entry counts, and `xmlDictCleanup`, which frees the global mutex.
- `xmlCatalogXMLResolveURI`, SGML catalogs, and the order of delegates: the code neither counts depth nor sorts there.
- The mutex around the catalog file cache: resolution is modelled in one thread.
- Namespace minimality of canonicalization for node sets: a printed `xmlns=""` is not pushed, so a declaration may be repeated.
- Which declarations exclusive canonicalization prints for node sets: for arbitrary visibility their order, the stack discipline and everything else that is printed is proved in both modes, the scopes in inclusive mode.
- C14nSubsets.VisibleScopesKept: not for node sets with visible namespace nodes on invisible elements, whose declarations are printed outside any tag.
- Characters printed around names and values in canonical output: the output is a sequence of events, except for escaping, which is on characters. The reader keeps comments and processing instructions in escaped form.
- `UTF8ToHtml`, push-mode HTML parsing, encoding switches, input handling, URI building, error reporting and out-of-memory paths.
- The contents of the HTML element, auto-close and entity tables: they are parameters with the facts used (html and body are never closed, entity names are distinct and alphanumeric, values sorted).
- Beyond the depth limit the tree builder also stops the parser; the model only lets the stacks differ.
- 32-bit wrap-around of sizes and counts: integers are unbounded.
- Chains of the dictionary, sorted lists, catalog entries and sibling links are sequences, so their pointer surgery is not modelled; the namespace stack, the name and node tables, the pools, the bucket table, the auto-close index, the escape and encode buffers and text blocks are arrays.
- A sub-dictionary's own sub-dictionary in the interning theorem; ownership and sharing cover chains of them.
- Attributes, DTD nodes, entity contents and the namespace-aware callbacks of the tree builder; text is free of NUL, and the document has been started.
- DictTheorems.KeyIsOfName: for names that are terminated or not empty; the other case has its own exact condition in `DictTheorems.UnterminatedEmpty`.
- DictImpl.StringDict.FreeEntries: the entry count is that of lookups only, because qualified lookups are left out.
- CatalogGroups.CatalogFile.DumpNode: the preference stored with a leaf is not written by the code and so not part of the result.
- Sax2.RunKeeps: does not model the path through `xmlTextConcat`, which is taken only when nodemem is 0 and is unreachable here.
- CatalogCircles.RestoredIffNoCircle: the converse is for identifiers nobody answers or delegates. Otherwise a circle need not show: an answer may come before it closes, and a circle that passes through a matching delegate ends in a break, which is not null, so that the exit may not be taken although counters reached the limit.
- CatalogAnswers.ResolveIsSpecified: for states in which references to one file agree about the preference it is read with, because the first of them decides for all, and in which the files of delegates can be read; `CatalogCircles.MissingDelegateIsForgotten` shows why.
- Sax2Impl.TextBlock.Append: the part of a reallocated block that is not written is a fixed filler instead of arbitrary bytes.
