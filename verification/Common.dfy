/**
 Definitions shared by every component: optional values (a pointer that may be
 null), three-way string comparison and strictly sorted listings of finite maps.
 */
module Common {

  datatype Option<+T> = None | Some(value: T)

  datatype Result<+T> = Ok(value: T) | Err

  /** xmlStrcmp, reduced to its sign: the first differing character decides. */
  function StrCmp(a: string, b: string): (r: int)
    ensures -1 <= r <= 1
    ensures r == 0 <==> a == b
  {
    if a == [] then (if b == [] then 0 else -1)
    else if b == [] then 1
    else if a[0] < b[0] then -1
    else if a[0] > b[0] then 1
    else
      assert a == [a[0]] + a[1..] && b == [b[0]] + b[1..];
      StrCmp(a[1..], b[1..])
  }

  lemma {:induction false} StrCmpFlip(a: string, b: string)
    ensures StrCmp(a, b) == -StrCmp(b, a)
  {
    if a != [] && b != [] && a[0] == b[0] {
      StrCmpFlip(a[1..], b[1..]);
    }
  }

  lemma {:induction false} StrCmpTransitive(a: string, b: string, c: string)
    requires StrCmp(a, b) <= 0 && StrCmp(b, c) <= 0
    ensures StrCmp(a, c) <= 0
    ensures StrCmp(a, b) < 0 || StrCmp(b, c) < 0 ==> StrCmp(a, c) < 0
  {
    if a != [] && b != [] && c != [] && a[0] == b[0] == c[0] {
      StrCmpTransitive(a[1..], b[1..], c[1..]);
    }
  }

  /** The lexicographic order of strings: b goes on where a ends, or has the larger
      character where they first differ. */
  ghost predicate Precedes(a: string, b: string)
  {
    (a <= b && a != b) || exists k :: 0 <= k < |a| && k < |b| && a[..k] == b[..k] && a[k] < b[k]
  }

  /** The comparison decides the lexicographic order. */
  lemma {:induction false} StrCmpIsLexicographic(a: string, b: string)
    ensures StrCmp(a, b) < 0 <==> Precedes(a, b)
    ensures StrCmp(a, b) > 0 <==> Precedes(b, a)
  {
    StrCmpFlip(a, b);
    SmallerPrecedes(a, b);
    SmallerPrecedes(b, a);
  }

  lemma {:induction false} SmallerPrecedes(a: string, b: string)
    ensures StrCmp(a, b) < 0 <==> Precedes(a, b)
  {
    if a != [] && b != [] && a[0] == b[0] {
      SmallerPrecedes(a[1..], b[1..]);
      PrecedesTail(a, b);
    } else if a != [] && b != [] {
      assert a[..0] == b[..0];
    }
  }

  lemma PrecedesTail(a: string, b: string)
    requires a != [] && b != [] && a[0] == b[0]
    ensures Precedes(a, b) <==> Precedes(a[1..], b[1..])
  {
    var x, y := a[1..], b[1..];
    assert a == [a[0]] + x && b == [b[0]] + y;
    if k :| 0 <= k < |a| && k < |b| && a[..k] == b[..k] && a[k] < b[k] {
      assert x[..k - 1] == a[..k][1..] && y[..k - 1] == b[..k][1..];
      assert x[k - 1] < y[k - 1];
    }
    if k :| 0 <= k < |x| && k < |y| && x[..k] == y[..k] && x[k] < y[k] {
      assert a[..k + 1] == [a[0]] + x[..k] && b[..k + 1] == [b[0]] + y[..k];
      assert a[k + 1] < b[k + 1];
    }
  }

  /** Keys never descend; two equal keys may stand next to each other. */
  ghost predicate Ascending<V>(s: seq<(string, V)>)
  {
    forall i, j :: 0 <= i < j < |s| ==> !Precedes(s[j].0, s[i].0)
  }

  ghost predicate StrictlyAscending<V>(s: seq<(string, V)>)
  {
    forall i, j :: 0 <= i < j < |s| ==> Precedes(s[i].0, s[j].0)
  }

  /** Key/value pairs in strictly increasing key order. */
  ghost predicate Sorted<V>(s: seq<(string, V)>)
  {
    |s| < 2 || (StrCmp(s[0].0, s[1].0) < 0 && Sorted(s[1..]))
  }

  ghost function MapOf<V>(s: seq<(string, V)>): (m: map<string, V>)
  {
    if s == [] then map[] else MapOf(s[1..])[s[0].0 := s[0].1]
  }

  /** s is the listing of m in strictly increasing key order. */
  ghost predicate Lists<V>(s: seq<(string, V)>, m: map<string, V>)
  {
    Sorted(s) && MapOf(s) == m
  }

  lemma {:induction false} SortedHeadIsLeast<V>(s: seq<(string, V)>, q: string)
    requires Sorted(s) && s != [] && q in MapOf(s[1..])
    ensures StrCmp(s[0].0, q) < 0
  {
    var t := s[1..];
    if t[0].0 != q {
      SortedHeadIsLeast(t, q);
      StrCmpTransitive(s[0].0, t[0].0, q);
    }
  }

  lemma {:induction false} SortedAscends<V>(s: seq<(string, V)>)
    requires Sorted(s)
    ensures StrictlyAscending(s)
  {
    hide Precedes;
    forall i, j | 0 <= i < j < |s| ensures Precedes(s[i].0, s[j].0) {
      if i == 0 {
        KeyIsListed(s[1..], j - 1);
        SortedHeadIsLeast(s, s[j].0);
        StrCmpIsLexicographic(s[0].0, s[j].0);
      } else {
        SortedAscends(s[1..]);
        assert s[i] == s[1..][i - 1] && s[j] == s[1..][j - 1];
      }
    }
  }

  lemma {:induction false} KeyIsListed<V>(s: seq<(string, V)>, j: nat)
    requires j < |s|
    ensures s[j].0 in MapOf(s)
  {
    if j > 0 { KeyIsListed(s[1..], j - 1); }
  }

  /** Ordered insertion before the first key that is not smaller (xmlListInsert). */
  function InsertPair<V>(s: seq<(string, V)>, k: string, v: V): (r: seq<(string, V)>)
  {
    if s == [] || StrCmp(s[0].0, k) >= 0 then [(k, v)] + s
    else [s[0]] + InsertPair(s[1..], k, v)
  }

  lemma {:induction false} InsertedFrom<V>(s: seq<(string, V)>, k: string, v: V, j: nat)
    requires j < |InsertPair(s, k, v)|
    ensures InsertPair(s, k, v)[j] == (k, v) || InsertPair(s, k, v)[j] in s
  {
    if !(s == [] || StrCmp(s[0].0, k) >= 0) && j > 0 { InsertedFrom(s[1..], k, v, j - 1); }
  }

  lemma AscendingCons<V>(x: (string, V), s: seq<(string, V)>)
    requires Ascending(s) && forall j :: 0 <= j < |s| ==> !Precedes(s[j].0, x.0)
    ensures Ascending([x] + s)
  {
    hide Precedes;
  }

  lemma AscendingTail<V>(s: seq<(string, V)>)
    requires Ascending(s) && s != []
    ensures Ascending(s[1..])
  {
    hide Precedes;
  }

  /** Insertion keeps the lexicographic order, whether or not the key is there already. */
  lemma {:induction false} InsertPairAscends<V>(s: seq<(string, V)>, k: string, v: V)
    requires Ascending(s)
    ensures Ascending(InsertPair(s, k, v))
  {
    hide Precedes;
    if s == [] || StrCmp(s[0].0, k) >= 0 {
      forall j | 0 <= j < |s| ensures !Precedes(s[j].0, k) { NotBefore(k, s, j); }
      AscendingCons((k, v), s);
    } else {
      var t := InsertPair(s[1..], k, v);
      AscendingTail(s);
      InsertPairAscends(s[1..], k, v);
      forall j | 0 <= j < |t| ensures !Precedes(t[j].0, s[0].0) {
        InsertedFrom(s[1..], k, v, j);
        StrCmpIsLexicographic(s[0].0, k);
      }
      AscendingCons(s[0], t);
    }
  }

  lemma NotBefore<V>(k: string, s: seq<(string, V)>, m: nat)
    requires Ascending(s) && m < |s| && StrCmp(s[0].0, k) >= 0
    ensures !Precedes(s[m].0, k)
  {
    hide Precedes;
    StrCmpIsLexicographic(s[0].0, k);
    StrCmpIsLexicographic(s[m].0, k);
    if m > 0 && StrCmp(s[m].0, k) < 0 {
      assert !Precedes(s[m].0, s[0].0);
      StrCmpIsLexicographic(s[m].0, s[0].0);
      StrCmpFlip(s[0].0, k);
      StrCmpTransitive(s[m].0, k, s[0].0);
    }
  }

  lemma {:induction false} InsertPairLists<V>(s: seq<(string, V)>, k: string, v: V, m: map<string, V>)
    requires Lists(s, m) && k !in m
    ensures Lists(InsertPair(s, k, v), m[k := v])
  {
    var r := InsertPair(s, k, v);
    if s == [] || StrCmp(s[0].0, k) >= 0 {
      assert r[1..] == s;
      if s != [] { StrCmpFlip(s[0].0, k); }
    } else {
      var t := InsertPair(s[1..], k, v);
      assert r[1..] == t;
      InsertPairLists(s[1..], k, v, MapOf(s[1..]));
      assert t[0].0 == k || (|s| > 1 && t[0] == s[1]);
    }
  }

  /** A map has one strictly sorted listing. */
  lemma {:induction false} ListsUnique<V>(s: seq<(string, V)>, t: seq<(string, V)>, m: map<string, V>)
    requires Lists(s, m) && Lists(t, m)
    ensures s == t
  {
    if s != [] && t != [] {
      ListsHead(s, t, m);
      ListsTail(s);
      ListsTail(t);
      ListsUnique(s[1..], t[1..], MapOf(s[1..]));
      assert s == [s[0]] + s[1..] && t == [t[0]] + t[1..];
    } else {
      MapOfEmpty(s);
      MapOfEmpty(t);
    }
  }

  lemma MapOfEmpty<V>(s: seq<(string, V)>)
    ensures MapOf(s) == map[] <==> s == []
  {
    if s != [] { assert s[0].0 in MapOf(s); }
  }

  lemma ListsTail<V>(s: seq<(string, V)>)
    requires Sorted(s) && s != []
    ensures MapOf(s[1..]) == MapOf(s) - {s[0].0}
  {
    if s[0].0 in MapOf(s[1..]) { SortedHeadIsLeast(s, s[0].0); }
  }

  lemma ListsHead<V>(s: seq<(string, V)>, t: seq<(string, V)>, m: map<string, V>)
    requires Lists(s, m) && Lists(t, m) && s != [] && t != []
    ensures s[0] == t[0]
  {
    var a, b := s[0].0, t[0].0;
    assert a in m && b in m;
    if a != b {
      SortedHeadIsLeast(s, b);
      SortedHeadIsLeast(t, a);
      StrCmpFlip(a, b);
    }
  }

  /** The strictly sorted listing of a map. */
  ghost function SortedOf<V>(m: map<string, V>): (s: seq<(string, V)>)
    ensures Lists(s, m)
    decreases m.Keys
  {
    if m == map[] then []
    else
      var k :| k in m;
      var rest := m - {k};
      assert rest[k := m[k]] == m;
      assert k !in rest;
      InsertPairLists(SortedOf(rest), k, m[k], rest);
      InsertPair(SortedOf(rest), k, m[k])
  }

  lemma SortedOfInsert<V>(m: map<string, V>, k: string, v: V)
    requires k !in m
    ensures InsertPair(SortedOf(m), k, v) == SortedOf(m[k := v])
  {
    InsertPairLists(SortedOf(m), k, v, m);
    ListsUnique(InsertPair(SortedOf(m), k, v), SortedOf(m[k := v]), m[k := v]);
  }
}
