/**
 The auto-close table as the parser stores it: one flat array of names in which null
 ends a group and a second null ends the table, with an index of 100 group starts
 that is filled once.
 */
module AutoCloseTable {
  import opened Common
  import H = Html
  import T = HtmlTheorems

  type Flat = seq<Option<string>>

  const INDEX_SIZE := 100

  /** A group is the new tag followed by the tags it closes. */
  type Group = g: seq<string> | |g| > 0 witness [""]

  function FlattenGroup(g: seq<string>): Flat
  {
    if g == [] then [None] else [Some(g[0])] + FlattenGroup(g[1..])
  }

  function Flatten(groups: seq<Group>): Flat
  {
    if groups == [] then [None] else FlattenGroup(groups[0]) + Flatten(groups[1..])
  }

  /** The table read directly: the first group of the new tag decides. */
  predicate Scan(groups: seq<Group>, newtag: string, oldtag: string)
  {
    groups != [] &&
    (if groups[0][0] == newtag then oldtag in groups[0][1..] else Scan(groups[1..], newtag, oldtag))
  }

  /** Where the groups of a table start. */
  function Starts(groups: seq<Group>, at: nat): (s: seq<nat>)
    ensures |s| == |groups|
  {
    if groups == [] then [] else [at] + Starts(groups[1..], at + |groups[0]| + 1)
  }

  lemma {:induction false} FlattenGroupIs(g: seq<string>)
    ensures |FlattenGroup(g)| == |g| + 1
    ensures forall i :: 0 <= i < |g| ==> FlattenGroup(g)[i] == Some(g[i])
    ensures FlattenGroup(g)[|g|] == None
  {
    if g != [] { FlattenGroupIs(g[1..]); }
  }

  /** The flat text starting at position at is the given groups. */
  predicate Reads(flat: Flat, at: nat, groups: seq<Group>)
  {
    at <= |flat| && flat[at..] == Flatten(groups)
  }

  lemma ReadsGroup(flat: Flat, at: nat, groups: seq<Group>)
    requires Reads(flat, at, groups)
    ensures at < |flat| && (groups == [] <==> flat[at] == None)
    ensures groups != [] ==>
              var g := groups[0];
              && at + |g| + 1 <= |flat| && Reads(flat, at + |g| + 1, groups[1..])
              && (forall j :: at <= j < at + |g| ==> flat[j] == Some(g[j - at])) && flat[at + |g|] == None
  {
    assert flat[at..][0] == flat[at];
    if groups != [] {
      var g := groups[0];
      FlattenGroupIs(g);
      var rest := flat[at..];
      assert rest[|g| + 1..] == Flatten(groups[1..]);
      assert rest[|g| + 1..] == flat[at + |g| + 1..];
      forall j | at <= j <= at + |g| ensures flat[j] == FlattenGroup(g)[j - at] { assert rest[j - at] == flat[j]; }
    }
  }

  /** The inner loop: from the start of a group to the null that ends it. */
  method SkipGroup(flat: Flat, start: nat, ghost n: nat) returns (i: nat)
    requires start + n < |flat| && flat[start + n] == None
    requires forall j :: start <= j < start + n ==> flat[j] != None
    ensures i == start + n
  {
    i := start;
    while flat[i] != None
      invariant start <= i <= start + n
      decreases start + n - i
    {
      i := i + 1;
    }
  }

  /** What the index holds after indx groups, and what is left to do. */
  ghost predicate Filled(index: seq<Option<nat>>, groups: seq<Group>, indx: nat, at: nat)
  {
    && |index| == INDEX_SIZE && indx <= |groups| && indx <= INDEX_SIZE - 1
    && (forall k :: indx <= k < |groups| ==> Starts(groups, 0)[k] == Starts(groups[indx..], at)[k - indx])
    && (forall k :: 0 <= k < INDEX_SIZE ==> index[k] == if k < indx then Some(Starts(groups, 0)[k]) else None)
  }

  lemma FillOne(index: seq<Option<nat>>, groups: seq<Group>, indx: nat, at: nat)
    requires Filled(index, groups, indx, at) && indx < |groups| && indx < INDEX_SIZE - 1
    ensures Filled(index[indx := Some(at)], groups, indx + 1, at + |groups[indx]| + 1)
  {
    assert groups[indx..][1..] == groups[indx + 1..];
    assert Starts(groups, 0)[indx] == Starts(groups[indx..], at)[0] == at;
    forall k | indx + 1 <= k < |groups|
      ensures Starts(groups, 0)[k] == Starts(groups[indx + 1..], at + |groups[indx]| + 1)[k - indx - 1]
    {
      assert Starts(groups, 0)[k] == Starts(groups[indx..], at)[k - indx];
    }
  }

  /** htmlInitAutoClose: the index holds the starts of the first 99 groups, then nulls. */
  method InitAutoClose(flat: Flat, ghost groups: seq<Group>) returns (index: array<Option<nat>>)
    requires flat == Flatten(groups)
    ensures fresh(index) && Indexed(index[..], groups)
  {
    hide Flatten, Starts;
    index := new Option<nat>[INDEX_SIZE](_ => None);
    var i, indx := 0, 0;
    assert flat[0..] == flat && groups[0..] == groups;
    while true
      invariant 0 <= indx && 0 <= i && fresh(index) && index.Length == INDEX_SIZE
      invariant Filled(index[..], groups, indx, i) && Reads(flat, i, groups[indx..])
      decreases INDEX_SIZE - indx
    {
      hide Filled, Reads;
      ReadsGroup(flat, i, groups[indx..]);
      if flat[i] == None || indx >= INDEX_SIZE - 1 { break; }
      FillOne(index[..], groups, indx, i);
      ghost var filled := index[..][indx := Some(i)];
      index[indx] := Some(i);
      assert index[..] == filled;
      assert groups[indx..][1..] == groups[indx + 1..];
      i := SkipGroup(flat, i, |groups[indx]|);
      i := i + 1;
      indx := indx + 1;
    }
  }

  ghost predicate Indexed(index: seq<Option<nat>>, groups: seq<Group>)
  {
    && |index| == INDEX_SIZE
    && forall k :: 0 <= k < INDEX_SIZE ==>
         index[k] == if k < INDEX_SIZE - 1 && k < |groups| then Some(Starts(groups, 0)[k]) else None
  }

  lemma {:induction false} StartReads(flat: Flat, at: nat, groups: seq<Group>, k: nat)
    requires Reads(flat, at, groups) && k < |groups|
    ensures Reads(flat, Starts(groups, at)[k], groups[k..])
    decreases k
  {
    if k == 0 {
      assert groups[0..] == groups;
    } else {
      ReadsGroup(flat, at, groups);
      StartReads(flat, at + |groups[0]| + 1, groups[1..], k - 1);
      assert groups[1..][k - 1..] == groups[k..];
    }
  }

  function Indexable(groups: seq<Group>): seq<Group>
  {
    if |groups| < INDEX_SIZE then groups else groups[..INDEX_SIZE - 1]
  }

  lemma GroupAt(flat: Flat, groups: seq<Group>, k: nat, at: nat)
    requires flat == Flatten(groups) && k < |groups| && at == Starts(groups, 0)[k]
    ensures var g := groups[k];
            && at + |g| < |flat| && flat[at + |g|] == None
            && forall j :: at <= j < at + |g| ==> flat[j] == Some(g[j - at])
  {
    hide Flatten;
    assert flat[0..] == flat;
    StartReads(flat, 0, groups, k);
    ReadsGroup(flat, at, groups[k..]);
  }

  /** htmlCheckAutoClose through the index equals reading the table directly, for every
      table of fewer than 100 groups; of a longer one only the first 99 count. */
  method CheckAutoClose(flat: Flat, index: seq<Option<nat>>, newtag: string, oldtag: string, ghost groups: seq<Group>)
    returns (closes: bool)
    requires flat == Flatten(groups) && Indexed(index, groups)
    ensures closes == Scan(Indexable(groups), newtag, oldtag)
  {
    hide Flatten, Reads;
    ghost var known := Indexable(groups);
    var indx := 0;
    var at := 0;
    assert known[0..] == known;
    while true
      invariant 0 <= indx <= |known| <= INDEX_SIZE - 1
      invariant Scan(known, newtag, oldtag) == Scan(known[indx..], newtag, oldtag)
      decreases INDEX_SIZE - indx
    {
      if index[indx].None? { return false; }
      at := index[indx].value;
      GroupAt(flat, groups, indx, at);
      assert known[indx] == groups[indx];
      assert known[indx..][1..] == known[indx + 1..];
      if flat[at] == Some(newtag) { break; }
      indx := indx + 1;
    }
    closes := Lists(flat, at, oldtag, groups[indx]);
  }

  /** The second loop: the tags of a group behind its first, up to the null. */
  method Lists(flat: Flat, at: nat, oldtag: string, ghost g: Group) returns (b: bool)
    requires at + |g| < |flat| && flat[at + |g|] == None
    requires forall j :: at <= j < at + |g| ==> flat[j] == Some(g[j - at])
    ensures b == (oldtag in g[1..])
  {
    var i := at + 1;
    while flat[i] != None
      invariant at + 1 <= i <= at + |g|
      invariant forall k :: 1 <= k < i - at ==> g[k] != oldtag
      decreases at + |g| - i
    {
      assert flat[i] == Some(g[i - at]);
      if flat[i] == Some(oldtag) {
        assert g[1..][i - at - 1] == oldtag;
        return true;
      }
      i := i + 1;
    }
    forall k | 0 <= k < |g[1..]| ensures g[1..][k] != oldtag { assert g[1..][k] == g[k + 1]; }
    b := false;
  }

  /** A table none of whose groups lists a tag never closes it. */
  lemma {:induction false} NeverListedNeverClosed(groups: seq<Group>, newtag: string, tag: string)
    requires forall i :: 0 <= i < |groups| ==> tag !in groups[i][1..]
    ensures !Scan(groups, newtag, tag)
  {
    if groups != [] { NeverListedNeverClosed(groups[1..], newtag, tag); }
  }

  /** The table as the parser uses it. */
  function Parser(groups: seq<Group>, isEmpty: string -> bool, omitted: bool, maxDepth: nat): H.Config
  {
    H.Config((newtag, oldtag) => Scan(Indexable(groups), newtag, oldtag), isEmpty, omitted, maxDepth)
  }

  /** A table that lists neither html nor body on a closed side gives a parser whose runs
      keep the shape of the stack. */
  lemma TableKeepsShape(groups: seq<Group>, isEmpty: string -> bool, maxDepth: nat, tokens: seq<H.Token>)
    requires forall i :: 0 <= i < |groups| ==> "html" !in groups[i][1..] && "body" !in groups[i][1..]
    ensures var c := Parser(groups, isEmpty, true, maxDepth);
            T.TableKeepsRoots(c) && T.Shape(H.Run(c, H.EMPTY, tokens).names)
  {
    hide H.Run, Scan;
    var c := Parser(groups, isEmpty, true, maxDepth);
    forall x: string ensures !c.closes(x, "html") && !c.closes(x, "body") {
      NeverListedNeverClosed(Indexable(groups), x, "html");
      NeverListedNeverClosed(Indexable(groups), x, "body");
    }
    T.RunShape(c, H.EMPTY, tokens);
  }
}
