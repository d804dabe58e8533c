/**
 Identifiers of catalog entries: prefixes, URNs, and the normal form of public names.
 Unwrapping a URN may make a name longer, but always lighter.
 */
module CatalogNames {
  import opened Common

  // ---- identifiers ----

  predicate HasPrefix(s: string, p: string) { |p| <= |s| && s[..|p|] == p }

  const URN_PUBID := "urn:publicid:"

  function Escaped(a: char, b: char): Option<char>
  {
    if a == '2' && b == 'B' then Some('+')
    else if a == '3' && b == 'A' then Some(':')
    else if a == '2' && b == 'F' then Some('/')
    else if a == '3' && b == 'B' then Some(';')
    else if a == '2' && b == '7' then Some('\'')
    else if a == '3' && b == 'F' then Some('?')
    else if a == '2' && b == '3' then Some('#')
    else if a == '2' && b == '5' then Some('%')
    else None
  }

  /** The loop of xmlCatalogUnWrapURN; room is what the result buffer still takes. */
  function Unwrap(s: string, room: nat): string
    decreases |s|
  {
    if s == [] || room < 4 then []
    else if s[0] == '+' then [' '] + Unwrap(s[1..], room - 1)
    else if s[0] == ':' then ['/', '/'] + Unwrap(s[1..], room - 2)
    else if s[0] == ';' then [':', ':'] + Unwrap(s[1..], room - 2)
    else if s[0] == '%' && |s| > 2 && Escaped(s[1], s[2]).Some?
    then [Escaped(s[1], s[2]).value] + Unwrap(s[3..], room - 1)
    else [s[0]] + Unwrap(s[1..], room - 1)
  }

  function UnwrapURN(urn: string): string
    requires HasPrefix(urn, URN_PUBID)
  {
    Unwrap(urn[|URN_PUBID|..], 2000)
  }

  /** The two digits a character of a public identifier is written with (RFC 3151). */
  function Digits(c: char): Option<string>
  {
    match c
    case '+' => Some("2B")
    case ':' => Some("3A")
    case '/' => Some("2F")
    case ';' => Some("3B")
    case '\'' => Some("27")
    case '?' => Some("3F")
    case '#' => Some("23")
    case '%' => Some("25")
    case _ => None
  }

  /** The transcription of a public identifier into a URN, as RFC 3151 defines it. */
  function Wrap(s: string): string
    decreases |s|
  {
    if s == [] then []
    else if HasPrefix(s, "//") then [':'] + Wrap(s[2..])
    else if HasPrefix(s, "::") then [';'] + Wrap(s[2..])
    else if s[0] == ' ' then ['+'] + Wrap(s[1..])
    else if Digits(s[0]).Some? then ['%'] + Digits(s[0]).value + Wrap(s[1..])
    else [s[0]] + Wrap(s[1..])
  }

  lemma UnwrapStep(c: char, s: string, room: nat)
    requires room >= 4 && c != '%'
    ensures Unwrap([c] + s, room)
            == if c == '+' then [' '] + Unwrap(s, room - 1)
               else if c == ':' then ['/', '/'] + Unwrap(s, room - 2)
               else if c == ';' then [':', ':'] + Unwrap(s, room - 2)
               else [c] + Unwrap(s, room - 1)
  {
    assert ([c] + s)[1..] == s;
  }

  lemma UnwrapDigits(c: char, s: string, room: nat)
    requires room >= 4 && Digits(c).Some?
    ensures Unwrap(['%'] + Digits(c).value + s, room) == [c] + Unwrap(s, room - 1)
  {
    var t := ['%'] + Digits(c).value + s;
    assert t[1] == Digits(c).value[0] && t[2] == Digits(c).value[1] && t[3..] == s;
    assert Escaped(t[1], t[2]) == Some(c);
  }

  lemma UnwrapFull(s: string, room: nat)
    ensures room < 4 || s == [] ==> Unwrap(s, room) == []
  {
  }

  /** Unwrapping undoes the transcription, up to what the buffer takes. */
  lemma {:induction false} UnwrapUndoesWrap(s: string, room: nat)
    ensures Unwrap(Wrap(s), room) <= s
    ensures |s| + 3 <= room ==> Unwrap(Wrap(s), room) == s
    decreases |s|
  {
    hide Unwrap;
    UnwrapFull(Wrap(s), room);
    if s != [] && room >= 4 {
      if HasPrefix(s, "//") || HasPrefix(s, "::") {
        UnwrapUndoesWrap(s[2..], room - 2);
        UnwrapStep(if s[0] == '/' then ':' else ';', Wrap(s[2..]), room);
        assert s == [s[0], s[0]] + s[2..];
      } else {
        UnwrapUndoesWrap(s[1..], room - 1);
        assert s == [s[0]] + s[1..];
        if s[0] != ' ' && Digits(s[0]).Some? {
          UnwrapDigits(s[0], Wrap(s[1..]), room);
        } else {
          UnwrapStep(if s[0] == ' ' then '+' else s[0], Wrap(s[1..]), room);
        }
      }
    }
  }

  lemma UnwrapURNUndoesWrap(s: string)
    requires |s| + 3 <= 2000
    ensures UnwrapURN(URN_PUBID + Wrap(s)) == s
  {
    hide Unwrap, Wrap;
    assert (URN_PUBID + Wrap(s))[|URN_PUBID|..] == Wrap(s);
    UnwrapUndoesWrap(s, 2000);
  }

  predicate Blank(c: char) { c == ' ' || c == '\t' || c == '\n' || c == '\r' }

  /** xmlCatalogNormalizePublic: inner blanks become one space, outer ones vanish. */
  function Normalize(s: string, pending: bool, started: bool): string
  {
    if s == [] then []
    else if Blank(s[0]) then Normalize(s[1..], started, started)
    else (if pending then [' '] else []) + [s[0]] + Normalize(s[1..], false, true)
  }

  function NormalizePublic(p: Option<string>): Option<string>
  {
    if p.None? then None
    else
      var n := Normalize(p.value, false, false);
      if n == [] then None else Some(n)
  }

  function CharWeight(c: char): nat
  {
    if c == '%' then 8 else if c == ';' then 7 else if c == ':' then 3 else 1
  }

  /** A weight that every unwrapping of a URN lowers. */
  function Weight(s: string): nat { if s == [] then 0 else CharWeight(s[0]) + Weight(s[1..]) }

  function OptWeight(o: Option<string>): nat { if o.Some? then Weight(o.value) else 0 }

  lemma {:induction false} WeightConcat(a: string, b: string)
    ensures Weight(a + b) == Weight(a) + Weight(b)
  {
    if a == [] {
      assert a + b == b;
    } else {
      assert (a + b)[1..] == a[1..] + b;
      WeightConcat(a[1..], b);
    }
  }

  lemma WeightCons(c: char, s: string)
    ensures Weight([c] + s) == CharWeight(c) + Weight(s)
  {
    assert ([c] + s)[1..] == s;
  }

  lemma WeightThree(s: string)
    requires |s| > 2
    ensures Weight(s) == CharWeight(s[0]) + CharWeight(s[1]) + CharWeight(s[2]) + Weight(s[3..])
  {
    assert s[1..][1..] == s[2..] && s[2..][1..] == s[3..];
    assert Weight(s) == CharWeight(s[0]) + Weight(s[1..]);
    assert Weight(s[1..]) == CharWeight(s[1]) + Weight(s[2..]);
    assert Weight(s[2..]) == CharWeight(s[2]) + Weight(s[3..]);
  }

  lemma {:induction false} UnwrapLighter(s: string, room: nat)
    ensures Weight(Unwrap(s, room)) <= Weight(s)
    decreases |s|
  {
    if s != [] && room >= 4 {
      if s[0] == ':' || s[0] == ';' {
        UnwrapLighter(s[1..], room - 2);
        var c := if s[0] == ':' then '/' else ':';
        WeightConcat([c, c], Unwrap(s[1..], room - 2));
        assert [c, c][1..] == [c] && [c][1..] == [];
        assert Weight([c, c]) == 2 * CharWeight(c);
      } else if s[0] == '%' && |s| > 2 && Escaped(s[1], s[2]).Some? {
        UnwrapLighter(s[3..], room - 1);
        WeightCons(Escaped(s[1], s[2]).value, Unwrap(s[3..], room - 1));
        WeightThree(s);
      } else {
        UnwrapLighter(s[1..], room - 1);
        WeightCons(if s[0] == '+' then ' ' else s[0], Unwrap(s[1..], room - 1));
      }
    }
  }

  /** Unwrapping a URN gives something lighter, so it cannot go on forever, although
      the text itself may get longer. */
  lemma UnwrapURNLighter(urn: string)
    requires HasPrefix(urn, URN_PUBID)
    ensures Weight(UnwrapURN(urn)) < Weight(urn)
  {
    hide Weight, Unwrap;
    var rest := urn[|URN_PUBID|..];
    SplitPrefix(urn, URN_PUBID);
    WeightConcat(URN_PUBID, rest);
    UnwrapLighter(rest, 2000);
    WeightPositive(URN_PUBID);
  }

  lemma SplitPrefix(s: string, p: string)
    requires HasPrefix(s, p)
    ensures s == p + s[|p|..]
  {
  }

  lemma WeightPositive(s: string)
    ensures s != [] ==> Weight(s) > 0
  {
  }

  lemma {:induction false} NormalizeLighter(s: string, pending: bool, started: bool)
    ensures Weight(Normalize(s, pending, started)) <= Weight(s) + if pending then 1 else 0
  {
    if s != [] {
      if Blank(s[0]) {
        NormalizeLighter(s[1..], started, started);
      } else {
        NormalizeLighter(s[1..], false, true);
        var rest := Normalize(s[1..], false, true);
        WeightCons(s[0], rest);
        if pending {
          WeightCons(' ', [s[0]] + rest);
          assert [' '] + [s[0]] + rest == [' '] + ([s[0]] + rest);
        } else {
          assert [] + [s[0]] + rest == [s[0]] + rest;
        }
      }
    }
  }

  lemma NormalizePublicLighter(p: Option<string>)
    ensures OptWeight(NormalizePublic(p)) <= OptWeight(p)
  {
    if p.Some? { NormalizeLighter(p.value, false, false); }
  }

  // ---- the identifiers a resolution is about ----

  predicate IsURN(o: Option<string>) { o.Some? && HasPrefix(o.value, URN_PUBID) }

  /** The identifiers that are looked for once all URNs are unwrapped; None if there are
      none. */
  ghost function Identify(pub0: Option<string>, sys: Option<string>): Option<(Option<string>, Option<string>)>
    decreases OptWeight(pub0) + OptWeight(sys)
  {
    if pub0.None? && sys.None? then None
    else
      var pub := NormalizePublic(pub0);
      NormalizePublicLighter(pub0);
      if IsURN(pub) then
        UnwrapURNLighter(pub.value);
        Identify(Some(UnwrapURN(pub.value)), sys)
      else if IsURN(sys) then
        UnwrapURNLighter(sys.value);
        var urn := UnwrapURN(sys.value);
        if pub.None? then Identify(Some(urn), None)
        else if pub == Some(urn) then Identify(pub, None)
        else Identify(pub, Some(urn))
      else Some((pub, sys))
  }

  /** Identifiers that are looked for as they are. */
  predicate Plain(pub: Option<string>, sys: Option<string>)
  {
    NormalizePublic(pub) == pub && !IsURN(pub) && !IsURN(sys)
  }

  lemma NormalizeStep(c: char, s: string, pending: bool, started: bool)
    ensures Normalize([], pending, started) == []
    ensures Normalize([c] + s, pending, started)
            == if Blank(c) then Normalize(s, started, started)
               else if pending then [' '] + ([c] + Normalize(s, false, true))
               else [c] + Normalize(s, false, true)
  {
    assert ([c] + s)[1..] == s;
  }

  lemma {:induction false} NormalizeTwice(s: string, pending: bool, started: bool)
    requires pending ==> started
    ensures var n := Normalize(s, pending, started); Normalize(n, false, started) == n
  {
    hide Normalize;
    if s == [] {
      NormalizeStep(' ', [], pending, started);
      NormalizeStep(' ', [], false, started);
    } else {
      assert s == [s[0]] + s[1..];
      NormalizeStep(s[0], s[1..], pending, started);
      if Blank(s[0]) {
        NormalizeTwice(s[1..], started, started);
      } else {
        NormalizeTwice(s[1..], false, true);
        var rest := Normalize(s[1..], false, true);
        NormalizeStep(s[0], rest, pending, started);
        NormalizeStep(s[0], rest, false, started);
        NormalizeStep(' ', [s[0]] + rest, false, started);
      }
    }
  }

  /** The length of the word a string starts with. */
  function WordLength(s: string): (k: nat)
    ensures k <= |s|
  {
    if s == [] || Blank(s[0]) then 0 else 1 + WordLength(s[1..])
  }

  /** The words of a string, whatever blanks are between them. */
  function Words(s: string): seq<string>
    decreases |s|
  {
    if s == [] then []
    else if Blank(s[0]) then Words(s[1..])
    else [s[..WordLength(s)]] + Words(s[WordLength(s)..])
  }

  function Spaced(words: seq<string>): string
  {
    if words == [] then [] else [' '] + words[0] + Spaced(words[1..])
  }

  function Joined(words: seq<string>): string
  {
    if words == [] then [] else words[0] + Spaced(words[1..])
  }

  lemma WordsBlank(c: char, s: string)
    requires Blank(c)
    ensures WordLength([c] + s) == 0 && Words([c] + s) == Words(s)
  {
    assert ([c] + s)[1..] == s;
  }

  lemma WordsCons(c: char, s: string)
    requires !Blank(c)
    ensures WordLength([c] + s) == 1 + WordLength(s)
    ensures Words([c] + s) == [[c] + s[..WordLength(s)]] + Words(s[WordLength(s)..])
  {
    var t := [c] + s;
    assert t[1..] == s;
    assert t[..1 + WordLength(s)] == [c] + s[..WordLength(s)] && t[1 + WordLength(s)..] == s[WordLength(s)..];
  }

  lemma SpacedCons(word: string, rest: seq<string>)
    ensures Spaced([word] + rest) == [' '] + word + Spaced(rest) && Joined([word] + rest) == word + Spaced(rest)
    ensures Words([]) == [] && Spaced([]) == [] && Joined([]) == []
  {
    assert ([word] + rest)[1..] == rest;
  }

  /** What the normal form is from each of the three places the scan can be in: behind a
      blank, within a word, or before everything. */
  function NormalFrom(s: string, pending: bool, started: bool): string
  {
    if pending then Spaced(Words(s))
    else if started then s[..WordLength(s)] + Spaced(Words(s[WordLength(s)..]))
    else Joined(Words(s))
  }

  lemma {:induction false} NormalizeFrom(s: string, pending: bool, started: bool)
    requires pending ==> started
    ensures Normalize(s, pending, started) == NormalFrom(s, pending, started)
  {
    hide Normalize, Words, Spaced, Joined, WordLength;
    SpacedCons([], []);
    if s == [] {
      NormalizeStep(' ', [], pending, started);
      assert s[..WordLength(s)] == [] && s[WordLength(s)..] == [];
    } else {
      var c, t := s[0], s[1..];
      assert s == [c] + t;
      NormalizeStep(c, t, pending, started);
      if Blank(c) {
        WordsBlank(c, t);
        NormalizeFrom(t, started, started);
        assert s[..0] == [] && s[0..] == s && [] + Spaced(Words(s)) == Spaced(Words(s));
      } else {
        NormalizeFrom(t, false, true);
        WordsCons(c, t);
        WordFrom(c, t, pending, started);
      }
    }
  }

  lemma WordFrom(c: char, t: string, pending: bool, started: bool)
    requires !Blank(c) && (pending ==> started)
    requires WordLength([c] + t) == 1 + WordLength(t)
    requires Words([c] + t) == [[c] + t[..WordLength(t)]] + Words(t[WordLength(t)..])
    ensures NormalFrom([c] + t, pending, started)
            == if pending then [' '] + ([c] + NormalFrom(t, false, true)) else [c] + NormalFrom(t, false, true)
  {
    hide Words, Spaced, Joined, WordLength;
    var k := WordLength(t);
    var word, rest := t[..k], Words(t[k..]);
    SpacedCons([c] + word, rest);
    assert ([c] + t)[..1 + k] == [c] + word && ([c] + t)[1 + k..] == t[k..];
    assert [' '] + ([c] + word) + Spaced(rest) == [' '] + ([c] + (word + Spaced(rest)));
    assert [c] + word + Spaced(rest) == [c] + (word + Spaced(rest));
  }

  /** A public identifier is normalized to its words with one space between them. */
  lemma NormalizeIsWords(p: string)
    ensures NormalizePublic(Some(p)) == if Words(p) == [] then None else Some(Joined(Words(p)))
  {
    hide Normalize, Words;
    NormalizeFrom(p, false, false);
    if Words(p) != [] { FirstWord(p); }
  }

  lemma {:induction false} FirstWord(s: string)
    requires Words(s) != []
    ensures Words(s)[0] != []
  {
    if Blank(s[0]) { FirstWord(s[1..]); }
  }

  /** What a resolution is about needs no further unwrapping. */
  lemma {:induction false} IdentifyIsPlain(pub0: Option<string>, sys: Option<string>)
    requires Identify(pub0, sys).Some?
    ensures var ids := Identify(pub0, sys).value; Plain(ids.0, ids.1)
    decreases OptWeight(pub0) + OptWeight(sys)
  {
    hide Weight, Unwrap, Normalize, HasPrefix;
    var pub := NormalizePublic(pub0);
    NormalizePublicLighter(pub0);
    NormalPublic(pub0);
    if IsURN(pub) {
      UnwrapURNLighter(pub.value);
      IdentifyIsPlain(Some(UnwrapURN(pub.value)), sys);
    } else if IsURN(sys) {
      UnwrapURNLighter(sys.value);
      var urn := UnwrapURN(sys.value);
      if pub.None? {
        IdentifyIsPlain(Some(urn), None);
      } else if pub == Some(urn) {
        IdentifyIsPlain(pub, None);
      } else {
        IdentifyIsPlain(pub, Some(urn));
      }
    }
  }

  lemma NormalPublic(p: Option<string>)
    ensures NormalizePublic(NormalizePublic(p)) == NormalizePublic(p)
  {
    if p.Some? { NormalizeTwice(p.value, false, false); }
  }
}
