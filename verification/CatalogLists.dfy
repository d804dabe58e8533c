/**
 Catalog entries, the lists they form, and what one list says about an identifier by
 itself (section 7.1.2 of the OASIS XML Catalogs draft of 2001-08-06).
 */
module CatalogLists {
  import opened Common
  import opened CatalogNames

  datatype Kind = Removed | CatalogKind | Broken | NextCatalog | System | RewriteSystem
                | DelegateSystem | Public | DelegatePublic | Other

  /** An entry: value is the target as written, url the target made absolute. */
  datatype Template = Template(kind: Kind, name: Option<string>, value: Option<string>, url: Option<string>,
                               preferPublic: bool)

  datatype Answer = Null | Found(uri: string) | Break

  // ---- files ----

  /** An entry as written; prefer is None where it inherits the preference of the reader. */
  datatype Raw = Raw(kind: Kind, name: Option<string>, value: Option<string>, url: Option<string>, prefer: Option<bool>)

  /** A catalog file: its URL and, if it parses, its entries. */
  datatype File = File(url: string, content: Option<seq<Raw>>)

  function ReadEntry(r: Raw, preferPublic: bool): Template
  {
    Template(r.kind, r.name, r.value, r.url, if r.prefer.Some? then r.prefer.value else preferPublic)
  }

  /** xmlParseXMLCatalogFile with the preference of the entry that refers to the file. */
  function ReadEntries(raws: seq<Raw>, preferPublic: bool): (r: seq<Template>)
    ensures |r| == |raws| && forall i :: 0 <= i < |r| ==> r[i] == ReadEntry(raws[i], preferPublic)
  {
    seq(|raws|, i requires 0 <= i < |raws| => ReadEntry(raws[i], preferPublic))
  }

  function FindFile(files: seq<File>, url: string): (r: Option<nat>)
    ensures r.Some? ==> r.value < |files| && files[r.value].url == url
  {
    if files == [] then None
    else if files[|files| - 1].url == url then Some(|files| - 1)
    else FindFile(files[..|files| - 1], url)
  }

  // ---- what one list answers by itself ----

  function Name(t: Template): string { if t.name.Some? then t.name.value else "" }

  function AnswerOf(url: Option<string>): Answer { if url.Some? then Found(url.value) else Null }

  predicate SystemHit(t: Template, sys: string) { t.kind.System? && t.name == Some(sys) }

  /** The rewrite rule kept so far, and the one found next: only a longer prefix wins. */
  function Better(best: Option<Template>, t: Template, sys: string): Option<Template>
  {
    if t.kind.RewriteSystem? && HasPrefix(sys, Name(t)) && |Name(t)| > (if best.Some? then |Name(best.value)| else 0)
    then Some(t) else best
  }

  function Rewritten(t: Template, sys: string): Answer
    requires HasPrefix(sys, Name(t))
  {
    if t.url.Some? then Found(t.url.value + sys[|Name(t)|..]) else Null
  }

  /** The first exact match at once, else the best rewrite rule; None if neither applies. */
  function SystemAnswer(list: seq<Template>, sys: string, best: Option<Template>): Option<Answer>
    requires best.Some? ==> HasPrefix(sys, Name(best.value))
  {
    if list == [] then (if best.Some? then Some(Rewritten(best.value, sys)) else None)
    else if SystemHit(list[0], sys) then Some(AnswerOf(list[0].url))
    else SystemAnswer(list[1..], sys, Better(best, list[0], sys))
  }

  function PublicAnswer(list: seq<Template>, pub: string): Option<Answer>
  {
    if list == [] then None
    else if list[0].kind.Public? && list[0].name == Some(pub) then Some(AnswerOf(list[0].url))
    else PublicAnswer(list[1..], pub)
  }

  // ---- what it refers to others ----

  /** The entry refers to another catalog for this identifier; at most one is given. */
  predicate Delegates(t: Template, pub: Option<string>, sys: Option<string>)
  {
    || (sys.Some? && t.kind.DelegateSystem? && HasPrefix(sys.value, Name(t)))
    || (sys.None? && pub.Some? && t.kind.DelegatePublic? && t.preferPublic && HasPrefix(pub.value, Name(t)))
  }

  predicate AnyDelegate(list: seq<Template>, pub: Option<string>, sys: Option<string>)
  {
    list != [] && (Delegates(list[0], pub, sys) || AnyDelegate(list[1..], pub, sys))
  }

  predicate AnyNext(list: seq<Template>) { list != [] && (list[0].kind.NextCatalog? || AnyNext(list[1..])) }

  /** What a list does with its identifiers: answer, cut to its delegates with one of
      them, pass them on to the next catalogs, or nothing. */
  datatype Verdict = Answered(a: Answer) | Cut(pub: Option<string>, sys: Option<string>) | PassedOn | Nothing

  /** The system identifier goes first, and a matching delegate ends the search in this
      list. */
  function Judge(list: seq<Template>, pub: Option<string>, sys: Option<string>): (v: Verdict)
  {
    if sys.Some? && SystemAnswer(list, sys.value, None).Some? then Answered(SystemAnswer(list, sys.value, None).value)
    else if sys.Some? && AnyDelegate(list, None, sys) then Cut(None, sys)
    else if pub.Some? && PublicAnswer(list, pub.value).Some? then Answered(PublicAnswer(list, pub.value).value)
    else if pub.Some? && AnyDelegate(list, pub, None) then Cut(pub, None)
    else if (pub.Some? || sys.Some?) && AnyNext(list) then PassedOn
    else Nothing
  }
}
