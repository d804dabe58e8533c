/**
 htmlEncodeEntities: UTF-8 bytes to ASCII with HTML references, into a buffer of
 limited capacity, resumable at the first character that did not fit.
 */
module HtmlEncode {
  import opened Common

  type Byte = x: int | 0 <= x < 256
  type Bytes = seq<Byte>

  const AMP: Byte := 38
  const SEMI: Byte := 59
  const LT: Byte := 60
  const GT: Byte := 62
  const HASH: Byte := 35

  /** The entity table: code point and name. */
  type Entities = seq<(nat, Bytes)>

  predicate NameByte(b: Byte) { 48 <= b <= 57 || 65 <= b <= 90 || 97 <= b <= 122 }

  /** Names are letters and digits, and no name is listed twice. */
  ghost predicate TableOk(t: Entities)
  {
    && (forall i :: 0 <= i < |t| ==> |t[i].1| > 0 && forall k :: 0 <= k < |t[i].1| ==> NameByte(t[i].1[k]))
    && (forall i, j :: 0 <= i < j < |t| ==> t[i].1 != t[j].1)
  }

  predicate SortedByValue(t: Entities) { forall i, j :: 0 <= i < j < |t| ==> t[i].0 < t[j].0 }

  // ---- reading one character ----

  datatype Decoded = Char(c: nat, len: nat) | Short | Bad

  predicate Continues(b: Byte) { 128 <= b < 192 }

  /** Fold the continuation bytes into the code point. */
  function Fold(c: nat, tail: Bytes): Option<nat>
    decreases |tail|
  {
    if tail == [] then Some(c)
    else if Continues(tail[0]) then Fold(c * 64 + (tail[0] - 128), tail[1..])
    else None
  }

  function Trailing(d: Byte): Option<nat>
  {
    if d < 128 then Some(0)
    else if d < 192 then None
    else if d < 224 then Some(1)
    else if d < 240 then Some(2)
    else if d < 248 then Some(3)
    else None
  }

  function LeadBits(d: Byte): nat
  {
    if d < 128 then d else if d < 192 then 0 else if d < 224 then d - 192 else if d < 240 then d - 224
    else if d < 248 then d - 240 else 0
  }

  function Decode1(input: Bytes): (r: Decoded)
    requires input != []
    ensures r.Char? ==> 1 <= r.len <= |input|
  {
    var n := Trailing(input[0]);
    if n.None? then Bad
    else if |input| - 1 < n.value then Short
    else
      var c := Fold(LeadBits(input[0]), input[1..n.value + 1]);
      if c.None? then Bad else Char(c.value, n.value + 1)
  }

  /** The code points of a byte string that splits into whole characters. */
  function CodePoints(input: Bytes): Option<seq<nat>>
    decreases |input|
  {
    if input == [] then Some([])
    else match Decode1(input)
      case Char(c, n) =>
        var rest := CodePoints(input[n..]);
        if rest.Some? then Some([c] + rest.value) else None
      case _ => None
  }

  // ---- writing one character ----

  /** htmlEntityValueLookup: the scan stops at the first larger value. */
  function ValueLookup(t: Entities, value: nat): (r: Option<Bytes>)
    ensures r.Some? ==> exists i :: 0 <= i < |t| && t[i] == (value, r.value)
  {
    if t == [] then None
    else if t[0].0 > value then None
    else if t[0].0 == value then
      assert t[0] == (value, t[0].1);
      Some(t[0].1)
    else
      var r := ValueLookup(t[1..], value);
      assert r.Some? ==> exists i :: 0 <= i < |t| && t[i] == (value, r.value) by {
        if r.Some? {
          var i :| 0 <= i < |t[1..]| && t[1..][i] == (value, r.value);
          assert t[i + 1] == (value, r.value);
        }
      }
      r
  }

  /** The decimal digits of a number, as printf writes them. */
  function Digits(n: nat): (s: Bytes)
    ensures s != [] && forall i :: 0 <= i < |s| ==> 48 <= s[i] <= 57
  {
    if n < 10 then [48 + n] else Digits(n / 10) + [48 + n % 10]
  }

  function RefName(t: Entities, c: nat): Bytes
  {
    var e := ValueLookup(t, c);
    if e.Some? then e.value else [HASH] + Digits(c)
  }

  predicate Plain(c: nat, quote: nat) { c < 128 && c != quote && c != AMP && c != LT && c != GT }

  function Piece(t: Entities, c: nat, quote: nat): (s: Bytes)
  {
    if Plain(c, quote) then [c] else [AMP] + RefName(t, c) + [SEMI]
  }

  // ---- the whole run ----

  /** ret is 0, or -2 where the input is not UTF-8. */
  datatype Outcome = Outcome(ret: int, consumed: nat, out: Bytes)

  function Encode(t: Entities, quote: nat, input: Bytes, capacity: nat): (r: Outcome)
    ensures r.consumed <= |input| && |r.out| <= capacity
    decreases |input|
  {
    if input == [] then Outcome(0, 0, [])
    else match Decode1(input)
      case Bad => Outcome(-2, 0, [])
      case Short => Outcome(0, 0, [])
      case Char(c, n) =>
        var piece := Piece(t, c, quote);
        if |piece| > capacity then Outcome(0, 0, [])
        else
          var r := Encode(t, quote, input[n..], capacity - |piece|);
          Outcome(r.ret, n + r.consumed, piece + r.out)
  }

  // ---- reading the output back ----

  function ParseDigits(s: Bytes): Option<nat>
  {
    if s == [] then Some(0)
    else
      var high, d := ParseDigits(s[..|s| - 1]), s[|s| - 1];
      if high.Some? && 48 <= d <= 57 then Some(10 * high.value + (d - 48)) else None
  }

  function NameLookup(t: Entities, name: Bytes): Option<nat>
  {
    if t == [] then None else if t[0].1 == name then Some(t[0].0) else NameLookup(t[1..], name)
  }

  function RefValue(t: Entities, name: Bytes): Option<nat>
  {
    if name != [] && name[0] == HASH then ParseDigits(name[1..]) else NameLookup(t, name)
  }

  function Semicolon(s: Bytes): (k: nat)
    ensures k <= |s| && (k < |s| ==> s[k] == SEMI)
  {
    if s == [] || s[0] == SEMI then 0 else 1 + Semicolon(s[1..])
  }

  function Prepend(c: nat, o: Option<seq<nat>>): Option<seq<nat>>
  {
    if o.Some? then Some([c] + o.value) else None
  }

  /** The code points a reader of HTML text gets from the output. */
  function ReadText(t: Entities, s: Bytes): Option<seq<nat>>
    decreases |s|
  {
    if s == [] then Some([])
    else if s[0] != AMP then Prepend(s[0], ReadText(t, s[1..]))
    else
      var k := Semicolon(s);
      if k == |s| || RefValue(t, s[1..k]).None? then None
      else Prepend(RefValue(t, s[1..k]).value, ReadText(t, s[k + 1..]))
  }

  lemma {:induction false} DigitsParse(n: nat)
    ensures ParseDigits(Digits(n)) == Some(n)
  {
    var s := Digits(n);
    if n < 10 {
      assert s[..0] == [];
    } else {
      DigitsParse(n / 10);
      assert s[..|s| - 1] == Digits(n / 10);
    }
  }

  lemma {:induction false} NameFinds(t: Entities, i: nat)
    requires i < |t| && forall k :: 0 <= k < i ==> t[k].1 != t[i].1
    ensures NameLookup(t, t[i].1) == Some(t[i].0)
  {
    if i > 0 {
      assert t[0].1 != t[i].1;
      assert forall k :: 0 <= k < i - 1 ==> t[1..][k] == t[k + 1];
      NameFinds(t[1..], i - 1);
    }
  }

  lemma RefNameIs(t: Entities, c: nat)
    requires TableOk(t)
    ensures RefValue(t, RefName(t, c)) == Some(c)
    ensures forall k :: 0 <= k < |RefName(t, c)| ==> NameByte(RefName(t, c)[k]) || RefName(t, c)[k] == HASH
  {
    var e := ValueLookup(t, c);
    if e.Some? {
      var i :| 0 <= i < |t| && t[i] == (c, e.value);
      assert NameByte(t[i].1[0]);
      NameFinds(t, i);
    } else {
      DigitsParse(c);
      assert ([HASH] + Digits(c))[1..] == Digits(c);
    }
  }

  lemma {:induction false} SemicolonAt(name: Bytes, tail: Bytes)
    requires SEMI !in name
    ensures Semicolon(name + [SEMI] + tail) == |name|
  {
    if name != [] {
      assert (name + [SEMI] + tail)[1..] == name[1..] + [SEMI] + tail;
      SemicolonAt(name[1..], tail);
    }
  }

  lemma PieceReads(t: Entities, quote: nat, c: nat, tail: Bytes)
    requires TableOk(t)
    ensures ReadText(t, Piece(t, c, quote) + tail) == Prepend(c, ReadText(t, tail))
  {
    if Plain(c, quote) {
      assert ([c] + tail)[1..] == tail;
    } else {
      var name := RefName(t, c);
      RefNameIs(t, c);
      ReferenceReads(t, name, c, tail);
    }
  }

  lemma ReferenceReads(t: Entities, name: Bytes, c: nat, tail: Bytes)
    requires SEMI !in name && RefValue(t, name) == Some(c)
    ensures ReadText(t, [AMP] + name + [SEMI] + tail) == Prepend(c, ReadText(t, tail))
  {
    var s := [AMP] + name + [SEMI] + tail;
    SemicolonAt([AMP] + name, tail);
    assert s == ([AMP] + name) + [SEMI] + tail;
    assert s[1..|name| + 1] == name;
    assert s[|name| + 2..] == tail;
  }

  lemma Decode1Prefix(a: Bytes, b: Bytes)
    requires a != [] && Decode1(a).Char?
    ensures Decode1(a + b) == Decode1(a)
  {
    var n := Trailing(a[0]).value;
    assert (a + b)[1..n + 1] == a[1..n + 1];
  }

  lemma Decode1Exact(a: Bytes)
    requires a != [] && Decode1(a).Char?
    ensures Decode1(a[..Decode1(a).len]) == Decode1(a)
  {
    var n := Trailing(a[0]).value;
    assert a[..n + 1][1..n + 1] == a[1..n + 1];
  }

  /** Whatever it returns, what it wrote reads back as exactly the code points of the
      bytes it reports as consumed. */
  lemma {:induction false} OutputIsInput(t: Entities, quote: nat, input: Bytes, capacity: nat)
    requires TableOk(t)
    ensures var r := Encode(t, quote, input, capacity);
            CodePoints(input[..r.consumed]).Some? && ReadText(t, r.out) == CodePoints(input[..r.consumed])
    decreases |input|
  {
    var r := Encode(t, quote, input, capacity);
    if input != [] && r.consumed > 0 {
      var Char(c, n) := Decode1(input);
      var piece := Piece(t, c, quote);
      OutputIsInput(t, quote, input[n..], capacity - |piece|);
      var rest := Encode(t, quote, input[n..], capacity - |piece|);
      PieceReads(t, quote, c, rest.out);
      var done := input[..r.consumed];
      Decode1Exact(input);
      Decode1Prefix(input[..n], input[n..r.consumed]);
      assert done == input[..n] + input[n..r.consumed];
      assert done[n..] == input[n..][..rest.consumed];
    } else {
      assert input[..0] == [];
    }
  }

  predicate SafeByte(b: Byte, quote: nat) { b < 128 && b != LT && b != GT && (b as int != quote || quote == 0) }

  lemma PieceIsSafe(t: Entities, quote: nat, c: nat)
    requires TableOk(t) && quote in {0, 34, 39}
    ensures forall k :: 0 <= k < |Piece(t, c, quote)| ==> SafeByte(Piece(t, c, quote)[k], quote)
  {
    RefNameIs(t, c);
  }

  /** The output is ASCII without '<', '>' or the quote, within the capacity. */
  lemma {:induction false} OutputIsSafe(t: Entities, quote: nat, input: Bytes, capacity: nat)
    requires TableOk(t) && quote in {0, 34, 39}
    ensures var r := Encode(t, quote, input, capacity);
            |r.out| <= capacity && forall k :: 0 <= k < |r.out| ==> SafeByte(r.out[k], quote)
    decreases |input|
  {
    hide Decode1, Piece, SafeByte;
    if input != [] && Decode1(input).Char? {
      var Char(c, n) := Decode1(input);
      var piece := Piece(t, c, quote);
      if |piece| <= capacity {
        PieceIsSafe(t, quote, c);
        OutputIsSafe(t, quote, input[n..], capacity - |piece|);
      }
    }
  }

  /** Resuming where a call stopped gives together the output, the consumption and the
      verdict of one call whose buffer takes what the first wrote and the second buffer. */
  lemma {:induction false} Resume(t: Entities, quote: nat, input: Bytes, first: nat, second: nat)
    ensures var a := Encode(t, quote, input, first);
            var b := Encode(t, quote, input[a.consumed..], second);
            var whole := Encode(t, quote, input, |a.out| + second);
            whole == Outcome(b.ret, a.consumed + b.consumed, a.out + b.out)
    decreases |input|
  {
    hide Decode1, Piece, Encode;
    var a := Encode(t, quote, input, first);
    EncodeCons(t, quote, input, first);
    EncodeCons(t, quote, input, |a.out| + second);
    if a.consumed == 0 {
      assert input[0..] == input;
      ConsumesOrWritesNothing(t, quote, input, first);
      var b := Encode(t, quote, input, second);
      assert [] + b.out == b.out;
    } else {
      var Char(c, n) := Decode1(input);
      var piece := Piece(t, c, quote);
      var rest := input[n..];
      Resume(t, quote, rest, first - |piece|, second);
      var a' := Encode(t, quote, rest, first - |piece|);
      assert rest[a'.consumed..] == input[a.consumed..];
      var b := Encode(t, quote, input[a.consumed..], second);
      assert piece + (a'.out + b.out) == a.out + b.out;
    }
  }

  /** A call that consumes something writes the first character and goes on. */
  lemma EncodeCons(t: Entities, quote: nat, input: Bytes, capacity: nat)
    ensures var r := Encode(t, quote, input, capacity);
            r.consumed > 0 ==> input != [] && Decode1(input).Char? && |Piece(t, Decode1(input).c, quote)| <= capacity
    ensures input != [] && Decode1(input).Char? && |Piece(t, Decode1(input).c, quote)| <= capacity ==>
              var Char(c, n) := Decode1(input);
              var piece := Piece(t, c, quote);
              && 0 < n <= |input|
              && var r := Encode(t, quote, input[n..], capacity - |piece|);
                 Encode(t, quote, input, capacity) == Outcome(r.ret, n + r.consumed, piece + r.out)
  {
    hide Piece;
  }

  lemma ConsumesOrWritesNothing(t: Entities, quote: nat, input: Bytes, capacity: nat)
    ensures var r := Encode(t, quote, input, capacity); r.consumed == 0 ==> r.out == []
  {
  }

  /** With the table in order of value the scan finds every value that is in it. */
  lemma {:induction false} LookupIsComplete(t: Entities, i: nat)
    requires SortedByValue(t) && i < |t|
    ensures ValueLookup(t, t[i].0) == Some(t[i].1)
  {
    if i > 0 {
      var u := t[1..];
      assert forall k :: 0 <= k < |u| ==> u[k] == t[k + 1];
      LookupIsComplete(u, i - 1);
    }
  }

  // ---- in place ----

  /** Reading one character with the cursor. */
  method ReadChar(input: Bytes, at: nat) returns (r: Decoded)
    requires at < |input|
    ensures r == Decode1(input[at..])
  {
    var d := input[at];
    var n := Trailing(d);
    if n.None? { return Bad; }
    if |input| - at - 1 < n.value { return Short; }
    var c: nat := LeadBits(d);
    var i := at + 1;
    ghost var tail := input[at..][1..n.value + 1];
    assert tail == input[i..at + n.value + 1];
    while i < at + n.value + 1
      invariant at + 1 <= i <= at + n.value + 1 <= |input|
      invariant Fold(LeadBits(d), tail) == Fold(c, input[i..at + n.value + 1])
    {
      assert input[i..at + n.value + 1][1..] == input[i + 1..at + n.value + 1];
      if !Continues(input[i]) { return Bad; }
      c := c * 64 + (input[i] as int - 128);
      i := i + 1;
    }
    r := Char(c, n.value + 1);
  }

  method Write(out: array<Byte>, at: nat, piece: Bytes)
    requires at + |piece| <= out.Length
    modifies out
    ensures out[..at + |piece|] == old(out[..at]) + piece
    ensures out[at + |piece|..] == old(out[at + |piece|..])
  {
    for i := 0 to |piece|
      invariant out[..at + i] == old(out[..at]) + piece[..i]
      invariant out[at + |piece|..] == old(out[at + |piece|..])
    {
      out[at + i] := piece[i];
      assert out[..at + i + 1] == out[..at + i] + [piece[i]];
    }
  }

  function After(consumed: nat, out: Bytes, r: Outcome): Outcome
  {
    Outcome(r.ret, consumed + r.consumed, out + r.out)
  }

  lemma EncodeStep(t: Entities, quote: nat, input: Bytes, at: nat, out: Bytes, capacity: nat)
    requires at < |input| && |out| <= capacity && Decode1(input[at..]).Char?
    requires |Piece(t, Decode1(input[at..]).c, quote)| <= capacity - |out|
    ensures var Char(c, n) := Decode1(input[at..]);
            var piece := Piece(t, c, quote);
            After(at, out, Encode(t, quote, input[at..], capacity - |out|))
            == After(at + n, out + piece, Encode(t, quote, input[at + n..], capacity - |out + piece|))
  {
    hide Decode1, Piece;
    var Char(c, n) := Decode1(input[at..]);
    assert input[at..][n..] == input[at + n..];
    var piece := Piece(t, c, quote);
    var r := Encode(t, quote, input[at + n..], capacity - |out| - |piece|);
    assert out + (piece + r.out) == (out + piece) + r.out;
  }

  /** htmlEncodeEntities: nothing is written at or beyond outlen. */
  method EncodeEntities(t: Entities, out: array<Byte>, outlen: nat, input: Bytes, quote: nat)
    returns (ret: int, written: nat, consumed: nat)
    requires outlen <= out.Length
    modifies out
    ensures written <= outlen && Outcome(ret, consumed, out[..written]) == Encode(t, quote, input, outlen)
    ensures out[outlen..] == old(out[outlen..])
  {
    hide Decode1, Piece, Encode;
    written, consumed := 0, 0;
    assert input[0..] == input && out[..0] == [];
    assert forall x: Bytes :: [] + x == x;
    while consumed < |input|
      invariant 0 <= consumed <= |input| && 0 <= written <= outlen
      invariant Encode(t, quote, input, outlen)
                == After(consumed, out[..written], Encode(t, quote, input[consumed..], outlen - written))
      invariant out[outlen..] == old(out[outlen..])
      decreases |input| - consumed
    {
      var d := ReadChar(input, consumed);
      if !d.Char? || |Piece(t, d.c, quote)| > outlen - written {
        StopsHere(t, quote, input[consumed..], outlen - written);
        return if d.Bad? then -2 else 0, written, consumed;
      }
      var piece := Piece(t, d.c, quote);
      EncodeStep(t, quote, input, consumed, out[..written], outlen);
      Write(out, written, piece);
      assert out[outlen..] == out[written + |piece|..][outlen - written - |piece|..];
      written := written + |piece|;
      consumed := consumed + d.len;
    }
    assert input[consumed..] == [];
    StopsAtEnd(t, quote, outlen - written);
    ret := 0;
  }

  lemma StopsHere(t: Entities, quote: nat, input: Bytes, capacity: nat)
    requires input != []
    ensures var d := Decode1(input);
            !d.Char? || |Piece(t, d.c, quote)| > capacity
            ==> Encode(t, quote, input, capacity) == Outcome(if d.Bad? then -2 else 0, 0, [])
  {
  }

  lemma StopsAtEnd(t: Entities, quote: nat, capacity: nat)
    ensures Encode(t, quote, [], capacity) == Outcome(0, 0, [])
  {
  }
}
