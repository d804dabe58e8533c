/**
 Escaping of character data for the canonical form (xmlC11NNormalizeString) and
 its inverse, reference decoding.
 */
module Escape {
  import opened Common

  datatype Mode = Attribute | CommentText | PIText | CharData

  /** The reference name a character is replaced by, if it is replaced. */
  function RefName(mode: Mode, c: char): (r: Option<string>)
    ensures r.Some? ==> 2 <= |r.value| <= 4 && ';' !in r.value
  {
    if c == '<' && (mode.Attribute? || mode.CharData?) then Some("lt")
    else if c == '>' && mode.CharData? then Some("gt")
    else if c == '&' && (mode.Attribute? || mode.CharData?) then Some("amp")
    else if c == '"' && mode.Attribute? then Some("quot")
    else if c == '\t' && mode.Attribute? then Some("#x9")
    else if c == '\n' && mode.Attribute? then Some("#xA")
    else if c == '\r' then Some("#xD")
    else None
  }

  /** What one input character becomes. */
  function EscapeChar(mode: Mode, c: char): (r: string)
    ensures 1 <= |r| <= 6
  {
    if RefName(mode, c).Some? then ['&'] + RefName(mode, c).value + [';'] else [c]
  }

  function EscapeString(mode: Mode, s: string): string
  {
    if s == [] then [] else EscapeChar(mode, s[0]) + EscapeString(mode, s[1..])
  }

  // ---- reference decoding, as an XML reader does it ----

  function HexDigit(c: char): Option<nat>
  {
    if '0' <= c <= '9' then Some((c - '0') as nat)
    else if 'A' <= c <= 'F' then Some((c - 'A') as nat + 10)
    else if 'a' <= c <= 'f' then Some((c - 'a') as nat + 10)
    else None
  }

  function HexValue(s: string): Option<nat>
  {
    if s == [] then Some(0)
    else
      var high, low := HexValue(s[..|s| - 1]), HexDigit(s[|s| - 1]);
      if high.Some? && low.Some? then Some(16 * high.value + low.value) else None
  }

  /** The character a reference name stands for. */
  function RefChar(name: string): Option<char>
  {
    if name == "lt" then Some('<')
    else if name == "gt" then Some('>')
    else if name == "amp" then Some('&')
    else if name == "quot" then Some('"')
    else if name == "apos" then Some('\'')
    else if |name| > 2 && name[..2] == "#x" then
      var v := HexValue(name[2..]);
      if v.Some? && v.value < 0xD800 then Some(v.value as char) else None
    else None
  }

  /** Position of the first ';', or the length if there is none. */
  function Semicolon(s: string): (k: nat)
    ensures k <= |s|
    ensures k < |s| ==> s[k] == ';'
    ensures ';' !in s[..k]
  {
    if s == [] || s[0] == ';' then 0
    else
      assert s[..1 + Semicolon(s[1..])] == [s[0]] + s[1..][..Semicolon(s[1..])];
      1 + Semicolon(s[1..])
  }

  function Prepend(s: string, o: Option<string>): Option<string>
  {
    if o.Some? then Some(s + o.value) else None
  }

  lemma PrependTwice(a: string, b: string, o: Option<string>)
    ensures Prepend(a, Prepend(b, o)) == Prepend(a + b, o)
  {
    if o.Some? { assert a + (b + o.value) == (a + b) + o.value; }
  }

  function Decode(s: string): Option<string>
    decreases |s|
  {
    if s == [] then Some([])
    else if s[0] != '&' then Prepend([s[0]], Decode(s[1..]))
    else
      var k := Semicolon(s);
      if k == |s| || RefChar(s[1..k]).None? then None
      else Prepend([RefChar(s[1..k]).value], Decode(s[k + 1..]))
  }

  lemma {:induction false} SemicolonAt(name: string, tail: string)
    requires ';' !in name
    ensures Semicolon(name + [';'] + tail) == |name|
  {
    if name != [] {
      assert (name + [';'] + tail)[1..] == name[1..] + [';'] + tail;
      SemicolonAt(name[1..], tail);
    }
  }

  lemma DecodeReference(name: string, tail: string)
    requires ';' !in name && RefChar(name).Some?
    ensures Decode(['&'] + name + [';'] + tail) == Prepend([RefChar(name).value], Decode(tail))
  {
    hide RefChar, Semicolon, Decode;
    var s := ['&'] + name + [';'] + tail;
    SemicolonAt(['&'] + name, tail);
    DecodeAmp(s);
    assert s[1..|name| + 1] == name;
    assert s[|name| + 2..] == tail;
  }

  lemma DecodeAmp(s: string)
    requires s != [] && s[0] == '&'
    ensures var k := Semicolon(s);
            if k == |s| || k == 0 || RefChar(s[1..k]).None? then Decode(s) == None
            else Decode(s) == Prepend([RefChar(s[1..k]).value], Decode(s[k + 1..]))
  {
    hide RefChar;
  }

  lemma HexNames()
    ensures RefChar("#x9") == Some('\t') && RefChar("#xA") == Some('\n') && RefChar("#xD") == Some('\r')
  {
    forall c: char ensures ("#x" + [c])[2..] == [c] && ("#x" + [c])[..2] == "#x" && [c][..0] == [] {}
    assert "#x9" == "#x" + ['9'] && "#xA" == "#x" + ['A'] && "#xD" == "#x" + ['D'];
    assert HexValue([]) == Some(0);
    assert HexValue(['9']) == Some(9) && HexValue(['A']) == Some(10) && HexValue(['D']) == Some(13);
  }

  predicate Faithful(mode: Mode, c: char) { mode.Attribute? || mode.CharData? || c != '&' }

  /** One escaped character decodes to itself, whatever follows it. */
  lemma DecodeEscapedChar(mode: Mode, c: char, tail: string)
    requires Faithful(mode, c)
    ensures Decode(EscapeChar(mode, c) + tail) == Prepend([c], Decode(tail))
  {
    var name := RefName(mode, c);
    if name.None? {
      assert ([c] + tail)[1..] == tail;
    } else {
      HexNames();
      assert RefChar(name.value) == Some(c);
      DecodeReference(name.value, tail);
    }
  }

  lemma PrependNothing(o: Option<string>)
    ensures Prepend([], o) == o
  {
    if o.Some? { assert [] + o.value == o.value; }
  }

  lemma EscapeHead(mode: Mode, s: string)
    requires s != []
    ensures EscapeString(mode, s) == EscapeChar(mode, s[0]) + EscapeString(mode, s[1..])
  {
  }

  lemma {:induction false} DecodeEscapedPrefix(mode: Mode, s: string, t: string)
    requires forall i :: 0 <= i < |s| ==> Faithful(mode, s[i])
    ensures Decode(EscapeString(mode, s + t)) == Prepend(s, Decode(EscapeString(mode, t)))
  {
    hide Decode, EscapeChar, EscapeString, Prepend;
    if s == [] {
      assert s + t == t;
      PrependNothing(Decode(EscapeString(mode, t)));
    } else {
      assert (s + t)[1..] == s[1..] + t;
      EscapeHead(mode, s + t);
      DecodeEscapedPrefix(mode, s[1..], t);
      DecodeEscapedChar(mode, s[0], EscapeString(mode, s[1..] + t));
      PrependTwice([s[0]], s[1..], Decode(EscapeString(mode, t)));
      assert [s[0]] + s[1..] == s;
    }
  }

  // ---- the modes that leave '&' alone ----

  /** A reference name that starts the escaped text was already in the text. */
  lemma {:induction false} RawName(mode: Mode, s: string, name: string)
    requires mode.CommentText? || mode.PIText?
    requires '&' !in name
    requires name + [';'] <= EscapeString(mode, s)
    ensures name + [';'] <= s
    ensures EscapeString(mode, s)[|name| + 1..] == EscapeString(mode, s[|name| + 1..])
  {
    hide EscapeString;
    var e, wanted := EscapeString(mode, s), name + [';'];
    assert wanted[0] != '&' && e[0] == wanted[0];
    RawHead(mode, s);
    if name != [] {
      assert wanted[1..] == name[1..] + [';'] && wanted[1..] <= e[1..];
      RawName(mode, s[1..], name[1..]);
      assert s == [s[0]] + s[1..] && wanted == [wanted[0]] + wanted[1..];
      assert s[1..][|name|..] == s[|name| + 1..] && e[1..][|name|..] == e[|name| + 1..];
    }
  }

  lemma RawHead(mode: Mode, s: string)
    requires mode.CommentText? || mode.PIText?
    requires EscapeString(mode, s) != [] && EscapeString(mode, s)[0] != '&'
    ensures s != [] && s[0] == EscapeString(mode, s)[0]
    ensures EscapeString(mode, s)[1..] == EscapeString(mode, s[1..])
  {
    assert EscapeChar(mode, s[0]) == [s[0]];
  }

  lemma RefNameHasNoAmp(name: string)
    requires RefChar(name).Some?
    ensures '&' !in name && name != []
  {
    if |name| > 2 && name[..2] == "#x" && name != "amp" && name != "quot" && name != "apos" {
      HexNoAmp(name[2..]);
      assert name == name[..2] + name[2..];
    }
  }

  lemma {:induction false} HexNoAmp(s: string)
    requires HexValue(s).Some?
    ensures '&' !in s
  {
    if s != [] {
      HexNoAmp(s[..|s| - 1]);
      assert s == s[..|s| - 1] + [s[|s| - 1]];
    }
  }

  /** Decoding never lengthens the text that was escaped. */
  lemma {:induction false} DecodeNoLonger(mode: Mode, s: string)
    requires mode.CommentText? || mode.PIText?
    ensures var d := Decode(EscapeString(mode, s)); d.Some? ==> |d.value| <= |s|
    decreases |s|
  {
    if s != [] {
      var e := EscapeString(mode, s);
      if s[0] != '&' {
        DecodeNoLonger(mode, s[1..]);
        DecodeEscapedChar(mode, s[0], EscapeString(mode, s[1..]));
      } else if Decode(e).Some? {
        var k := AmpStarts(mode, s);
        DecodeNoLonger(mode, s[k + 1..]);
      }
    }
  }

  lemma AmpStarts(mode: Mode, s: string) returns (k: nat)
    requires mode.CommentText? || mode.PIText?
    requires s != [] && s[0] == '&' && Decode(EscapeString(mode, s)).Some?
    ensures 1 < k < |s| && RefChar(s[1..k]).Some?
    ensures Decode(EscapeString(mode, s)) == Prepend([RefChar(s[1..k]).value], Decode(EscapeString(mode, s[k + 1..])))
  {
    hide Decode, Semicolon, RefChar, EscapeString;
    var e := EscapeString(mode, s);
    EscapeHead(mode, s);
    DecodeAmp(e);
    k := Semicolon(e);
    var name, body := e[1..k], EscapeString(mode, s[1..]);
    RefNameHasNoAmp(name);
    assert e == ['&'] + body;
    assert name + [';'] == e[1..k + 1] == body[..k];
    RawName(mode, s[1..], name);
    assert s[1..][k..] == s[k + 1..];
    assert body[k..] == e[k + 1..];
    assert s[1..k] == s[1..][..|name|] == name;
  }

  lemma AmpSpoils(mode: Mode, s: string)
    requires mode.CommentText? || mode.PIText?
    requires s != [] && s[0] == '&'
    ensures Decode(EscapeString(mode, s)) != Some(s)
  {
    if Decode(EscapeString(mode, s)).Some? {
      var k := AmpStarts(mode, s);
      DecodeNoLonger(mode, s[k + 1..]);
    }
  }

  function FirstAmp(s: string): (k: nat)
    ensures k <= |s|
    ensures '&' in s <==> k < |s|
    ensures k < |s| ==> s[k] == '&'
    ensures forall i :: 0 <= i < k ==> s[i] != '&'
  {
    if s == [] || s[0] == '&' then 0 else 1 + FirstAmp(s[1..])
  }

  /** Escaping loses nothing: the escaped string decodes to the original for every
      string in the attribute and text modes, and in the comment and PI modes
      exactly for the strings without an ampersand. */
  lemma RoundTrip(mode: Mode, s: string)
    ensures Decode(EscapeString(mode, s)) == Some(s) <==> mode.Attribute? || mode.CharData? || '&' !in s
  {
    var k := if mode.Attribute? || mode.CharData? then |s| else FirstAmp(s);
    var a, b := s[..k], s[k..];
    assert s == a + b;
    DecodeEscapedPrefix(mode, a, b);
    if b != [] {
      AmpSpoils(mode, b);
      if Decode(EscapeString(mode, b)).Some? {
        assert (a + Decode(EscapeString(mode, b)).value)[k..] == Decode(EscapeString(mode, b)).value;
      }
    }
  }

  /** Hence two different strings never have the same escaped form. */
  lemma Injective(mode: Mode, s: string, t: string)
    requires mode.Attribute? || mode.CharData?
    requires EscapeString(mode, s) == EscapeString(mode, t)
    ensures s == t
  {
    RoundTrip(mode, s);
    RoundTrip(mode, t);
  }

  /** The characters that never appear raw in the output, as section 2.3 of Canonical
      XML 1.0 lists them for each kind of node; '&' apart, which starts references. */
  function Forbidden(mode: Mode): set<char>
  {
    match mode
    case Attribute => {'<', '"', '\t', '\n', '\r'}
    case CharData => {'<', '>', '\r'}
    case CommentText => {'\r'}
    case PIText => {'\r'}
  }

  predicate Free(t: string, chars: set<char>)
  {
    forall i :: 0 <= i < |t| ==> t[i] !in chars
  }

  lemma CharIsSafe(mode: Mode, c: char)
    ensures Free(EscapeChar(mode, c), Forbidden(mode))
  {
  }

  lemma {:induction false} OutputIsSafe(mode: Mode, s: string)
    ensures Free(EscapeString(mode, s), Forbidden(mode))
  {
    hide EscapeChar, Forbidden;
    if s != [] {
      OutputIsSafe(mode, s[1..]);
      CharIsSafe(mode, s[0]);
      var a, b := EscapeChar(mode, s[0]), EscapeString(mode, s[1..]);
      assert forall i :: 0 <= i < |a + b| ==> (a + b)[i] == if i < |a| then a[i] else b[i - |a|];
    }
  }

  lemma SafeWithTerminator(mode: Mode, s: string)
    ensures Free(EscapeString(mode, s) + ['\0'], Forbidden(mode))
  {
    hide EscapeString;
    OutputIsSafe(mode, s);
  }

  lemma EscapeNothing(mode: Mode)
    ensures EscapeString(mode, "") == ""
  {
  }

  /** Exactly the strings without a character that has to go are printed as they are. */
  lemma {:induction false} UnchangedIff(mode: Mode, s: string)
    ensures |s| <= |EscapeString(mode, s)|
    ensures EscapeString(mode, s) == s
            <==> Free(s, Forbidden(mode)) && (mode.Attribute? || mode.CharData? ==> '&' !in s)
  {
    if s != [] {
      UnchangedIff(mode, s[1..]);
      assert s == [s[0]] + s[1..];
      var head, tail := EscapeChar(mode, s[0]), EscapeString(mode, s[1..]);
      if RefName(mode, s[0]).Some? {
        assert |head + tail| > |s|;
      } else {
        assert ([s[0]] + tail)[1..] == tail;
        assert '&' in s <==> s[0] == '&' || '&' in s[1..];
      }
    }
  }

  /** The references themselves, letter by letter. */
  lemma SpecialForms(mode: Mode, s: string)
    ensures mode.Attribute? || mode.CharData? ==> EscapeString(mode, "<" + s) == "&lt;" + EscapeString(mode, s)
    ensures mode.Attribute? || mode.CharData? ==> EscapeString(mode, "&" + s) == "&amp;" + EscapeString(mode, s)
    ensures mode.CharData? ==> EscapeString(mode, ">" + s) == "&gt;" + EscapeString(mode, s)
    ensures mode.Attribute? ==> EscapeString(mode, "\"" + s) == "&quot;" + EscapeString(mode, s)
    ensures mode.Attribute? ==> EscapeString(mode, "\t" + s) == "&#x9;" + EscapeString(mode, s)
    ensures mode.Attribute? ==> EscapeString(mode, "\n" + s) == "&#xA;" + EscapeString(mode, s)
    ensures EscapeString(mode, "\r" + s) == "&#xD;" + EscapeString(mode, s)
  {
    hide EscapeString;
    EscapeFirst(mode, '<', s);
    EscapeFirst(mode, '&', s);
    EscapeFirst(mode, '>', s);
    EscapeFirst(mode, '"', s);
    EscapeFirst(mode, '\t', s);
    EscapeFirst(mode, '\n', s);
    EscapeFirst(mode, '\r', s);
  }

  lemma EscapeFirst(mode: Mode, c: char, s: string)
    ensures EscapeString(mode, [c] + s) == EscapeChar(mode, c) + EscapeString(mode, s)
  {
    assert ([c] + s)[1..] == s;
  }

  lemma {:induction false} EscapeSnoc(mode: Mode, s: string, c: char)
    ensures EscapeString(mode, s + [c]) == EscapeString(mode, s) + EscapeChar(mode, c)
  {
    if s == [] {
      assert s + [c] == [c];
      assert EscapeString(mode, [c]) == EscapeChar(mode, c) + EscapeString(mode, []);
    } else {
      assert (s + [c])[1..] == s[1..] + [c];
      EscapeSnoc(mode, s[1..], c);
    }
  }

  /** growBufferReentrant: reallocation to twice the size. */
  method Grow(buffer: array<char>, used: nat) returns (grown: array<char>)
    requires used <= buffer.Length
    ensures fresh(grown) && grown.Length == 2 * buffer.Length
    ensures grown[..used] == buffer[..used]
  {
    grown := new char[2 * buffer.Length];
    for i := 0 to used
      invariant grown[..i] == buffer[..i]
    {
      grown[i] := buffer[i];
    }
  }

  method Write(buffer: array<char>, at: nat, piece: string)
    requires at + |piece| <= buffer.Length
    modifies buffer
    ensures buffer[..at + |piece|] == old(buffer[..at]) + piece
  {
    for i := 0 to |piece|
      invariant buffer[..at + i] == old(buffer[..at]) + piece[..i]
    {
      buffer[at + i] := piece[i];
      assert buffer[..at + i + 1] == buffer[..at + i] + [piece[i]];
    }
  }

  /** The loop over a translation buffer that is doubled whenever the cursor is
      within ten bytes of its end; n counts the bytes used, terminator included. */
  method NormalizeString(input: string, mode: Mode) returns (buffer: array<char>, n: nat)
    ensures n <= buffer.Length
    ensures buffer[..n] == EscapeString(mode, input) + ['\0']
    ensures Free(buffer[..n], Forbidden(mode))
  {
    hide EscapeString, EscapeChar, Free, Forbidden;
    EscapeNothing(mode);
    buffer := new char[1000];
    var out, cur := 0, 0;
    while cur < |input|
      invariant 0 <= cur <= |input|
      invariant 1000 <= buffer.Length && 0 <= out <= buffer.Length - 4
      invariant fresh(buffer)
      invariant buffer[..out] == EscapeString(mode, input[..cur])
    {
      if out > buffer.Length - 10 {
        buffer := Grow(buffer, out);
      }
      var piece := EscapeChar(mode, input[cur]);
      Write(buffer, out, piece);
      EscapeSnoc(mode, input[..cur], input[cur]);
      assert input[..cur + 1] == input[..cur] + [input[cur]];
      out := out + |piece|;
      cur := cur + 1;
    }
    assert input[..cur] == input;
    Write(buffer, out, ['\0']);
    n := out + 1;
    SafeWithTerminator(mode, input);
  }
}
