/**
 The dictionary refines a map from byte strings to pointers: through lookups, growth
 and a sub-dictionary, over every run.
 */
module DictTheorems {
  import opened Common
  import opened Dict

  type Names = map<Bytes, Ptr>

  // ---- the refinement relation ----

  /** The entry of a known string. */
  function EntryOf(m: Names, s: Bytes): Entry
    requires s in m
  {
    Entry(m[s], |s|)
  }

  predicate InBucket(s: Bytes, i: nat, size: nat)
    requires size > 0
  {
    Key(s) % size == i
  }

  ghost predicate Comes(m: Names, e: Entry, i: nat, size: nat)
    requires size > 0
  {
    exists s :: s in m && e == EntryOf(m, s) && InBucket(s, i, size)
  }

  /** A bucket holds exactly the entries of the strings whose key selects it. */
  ghost predicate BucketHolds(m: Names, bucket: seq<Entry>, i: nat, size: nat)
    requires size > 0
  {
    && (forall e :: e in bucket ==> Comes(m, e, i, size))
    && (forall s :: s in m && InBucket(s, i, size) ==> EntryOf(m, s) in bucket)
  }

  ghost predicate TableHolds(m: Names, table: seq<seq<Entry>>)
  {
    table != [] && forall i :: 0 <= i < |table| ==> BucketHolds(m, table[i], i, |table|)
  }

  /** Every known string is stored, with a terminator, in this dictionary's pools. */
  ghost predicate Stored(m: Names, id: nat, pools: seq<Pool>)
  {
    forall s :: s in m ==> m[s].owner == id && ReadAt(pools, m[s], |s| + 1) == s + [0]
  }

  predicate Apart(p: Ptr, n: nat, q: Ptr, k: nat)
  {
    p.owner != q.owner || p.pool != q.pool || p.off + n <= q.off || q.off + k <= p.off
  }

  /** Different strings, terminators included, occupy disjoint bytes. */
  ghost predicate NoOverlap(m: Names)
  {
    forall s, t :: s in m && t in m && s != t ==> Apart(m[s], |s| + 1, m[t], |t| + 1)
  }

  ghost predicate PoolsFit(pools: seq<Pool>)
  {
    forall k :: 0 <= k < |pools| ==> |pools[k].bytes| <= pools[k].size
  }

  function Total(table: seq<seq<Entry>>): nat
  {
    if table == [] then 0 else |table[0]| + Total(table[1..])
  }

  /** The dictionary state d stands for the map m. */
  ghost predicate Represents(d: State, m: Names)
  {
    && |d.table| in {128, 1024, 8192}
    && TableHolds(m, d.table) && Stored(m, d.id, d.pools) && NoOverlap(m) && PoolsFit(d.pools)
    && d.nbElems == |m| == Total(d.table)
  }

  // ---- keys ----

  /** For a terminated name the key is that of the bytes up to its length, so the copy
      in the pool always hashes like the name the caller passed. */
  lemma KeyIsOfName(buf: Bytes, len: nat)
    requires Terminated(buf, len)
    ensures ComputeKey(buf, len) == Key(buf[..len])
  {
    var s := buf[..len] + [0];
    if len >= 2 { assert s[1..Min(len, 10)] == buf[1..Min(len, 10)]; }
  }

  lemma KeyOfStored(pools: seq<Pool>, e: Entry, s: Bytes)
    requires e.len == |s| && ReadAt(pools, e.name, |s| + 1) == s + [0]
    ensures KeyAt(pools, e) == Key(s) && NameAt(pools, e) == s
  {
    var b := pools[e.name.pool].bytes;
    var mem := b[e.name.off..e.name.off + |s| + 1];
    assert mem[..|s|] == b[e.name.off..e.name.off + |s|];
    assert (s + [0])[..|s|] == s;
  }

  // ---- the chain walk ----

  lemma {:induction false} SearchScans(pools: seq<Pool>, bucket: seq<Entry>, name: Bytes)
    ensures var r := Search(pools, bucket, name);
            if r.Some? then exists e :: e in bucket && e.len == |name| && NameAt(pools, e) == name && r.value == e.name
            else forall e :: e in bucket ==> !(e.len == |name| && NameAt(pools, e) == name)
  {
    if bucket != [] {
      assert bucket == [bucket[0]] + bucket[1..];
      SearchScans(pools, bucket[1..], name);
    }
  }

  function Get(m: Names, s: Bytes): Option<Ptr> { if s in m then Some(m[s]) else None }

  /** Probing the table is looking up the map. */
  lemma ProbeIsGet(d: State, m: Names, buf: Bytes, len: nat)
    requires Represents(d, m) && Terminated(buf, len)
    ensures Probe(d, buf, len) == Get(m, buf[..len])
  {
    hide Search, NameAt, KeyAt, ReadAt, Total, NoOverlap, PoolsFit, TableHolds, ComputeKey;
    var s := buf[..len];
    KeyIsOfName(buf, len);
    var i := Key(s) % |d.table|;
    var bucket := d.table[i];
    BucketOf(m, d.table, i);
    SearchScans(d.pools, bucket, s);
    forall e | e in bucket && NameAt(d.pools, e) == s ensures s in m && m[s] == e.name {
      assert Comes(m, e, i, |d.table|);
      var t :| t in m && e == EntryOf(m, t) && InBucket(t, i, |d.table|);
      KeyOfStored(d.pools, e, t);
    }
    if s in m {
      assert InBucket(s, i, |d.table|);
      KeyOfStored(d.pools, EntryOf(m, s), s);
    }
  }

  // ---- storing a string ----

  lemma AddStringKeeps(id: nat, pools: seq<Pool>, name: Bytes, p: Ptr, n: nat)
    requires n > 0 && ReadAt(pools, p, n) != []
    ensures var a := AddString(id, pools, name);
            ReadAt(a.pools, p, n) == ReadAt(pools, p, n) && (p.owner == id ==> Apart(p, n, a.at, |name| + 1))
  {
    var found := FindPool(pools, |name|);
    var k := if found.Some? then found.value else |pools|;
    if p.pool == k {
      var b := pools[k].bytes;
      assert (b + name + [0])[p.off..p.off + n] == b[p.off..p.off + n];
    }
  }

  lemma AddStringStores(id: nat, pools: seq<Pool>, name: Bytes)
    requires PoolsFit(pools)
    ensures var a := AddString(id, pools, name);
            ReadAt(a.pools, a.at, |name| + 1) == name + [0] && a.at.owner == id && PoolsFit(a.pools)
  {
    var found := FindPool(pools, |name|);
    var all := if found.Some? then pools else pools + [Pool(NewPoolSize(pools, |name|), [])];
    var k := if found.Some? then found.value else |pools|;
    var b := all[k].bytes;
    assert (b + name + [0])[|b|..|b| + |name| + 1] == name + [0];
  }

  // ---- adding one entry to a table ----

  lemma {:induction false} TotalUpdate(table: seq<seq<Entry>>, k: nat, bucket: seq<Entry>)
    requires k < |table|
    ensures Total(table[k := bucket]) == Total(table) - |table[k]| + |bucket|
  {
    var t := table[k := bucket];
    if k == 0 {
      assert t[1..] == table[1..];
    } else {
      assert t[1..] == table[1..][k - 1 := bucket];
      TotalUpdate(table[1..], k - 1, bucket);
    }
  }

  /** Putting the entry of s into its bucket, anywhere, extends the map by s. */
  lemma AddEntry(m: Names, table: seq<seq<Entry>>, s: Bytes, p: Ptr, k: nat, bucket: seq<Entry>)
    requires TableHolds(m, table) && (s in m ==> m[s] == p)
    requires k < |table| && InBucket(s, k, |table|)
    requires forall e :: e in bucket <==> e in table[k] || e == Entry(p, |s|)
    ensures TableHolds(m[s := p], table[k := bucket])
  {
    var m', t, size := m[s := p], table[k := bucket], |table|;
    forall i | 0 <= i < |t| ensures BucketHolds(m', t[i], i, size) {
      assert BucketHolds(m, table[i], i, size);
      forall e | e in t[i] ensures Comes(m', e, i, size) {
        if e in table[i] {
          assert Comes(m, e, i, size);
          var u :| u in m && e == EntryOf(m, u) && InBucket(u, i, size);
          assert u in m' && e == EntryOf(m', u);
        } else {
          assert s in m' && e == EntryOf(m', s);
        }
      }
      forall u | u in m' && InBucket(u, i, size) ensures EntryOf(m', u) in t[i] {
        if u != s { assert EntryOf(m, u) in table[i]; }
      }
    }
  }

  // ---- growth ----

  lemma ModOfMod(x: nat, n: nat)
    requires n == 128 || n == 1024
    ensures (x % (8 * n)) % n == x % n
  {
    if n == 128 { ModOf1024(x); } else { ModOf8192(x); }
  }

  lemma ModOf1024(x: nat)
    ensures (x % 1024) % 128 == x % 128
  {
    var a := x % 1024;
    RestOf128(x, 8 * (x / 1024) + a / 128, a % 128);
  }

  lemma ModOf8192(x: nat)
    ensures (x % 8192) % 1024 == x % 1024
  {
    var a := x % 8192;
    RestOf1024(x, 8 * (x / 8192) + a / 1024, a % 1024);
  }

  lemma RestOf128(x: nat, k: nat, r: nat)
    requires x == 128 * k + r && r < 128
    ensures x % 128 == r
  {
    assert x / 128 == k;
  }

  lemma RestOf1024(x: nat, k: nat, r: nat)
    requires x == 1024 * k + r && r < 1024
    ensures x % 1024 == r
  {
    assert x / 1024 == k;
  }

  /** e is the entry of its own name in m. */
  ghost predicate Known(pools: seq<Pool>, m: Names, e: Entry)
  {
    var s := NameAt(pools, e);
    s in m && e == EntryOf(m, s)
  }

  function Absorb(pools: seq<Pool>, done: Names, es: seq<Entry>): Names
    decreases |es|
  {
    if es == [] then done else Absorb(pools, done[NameAt(pools, es[0]) := es[0].name], es[1..])
  }

  ghost predicate Part(done: Names, m: Names)
  {
    forall s :: s in done ==> s in m && done[s] == m[s]
  }

  lemma {:induction false} AbsorbIs(pools: seq<Pool>, m: Names, done: Names, es: seq<Entry>)
    requires Part(done, m) && forall e :: e in es ==> Known(pools, m, e)
    ensures var r := Absorb(pools, done, es);
            && Part(r, m)
            && forall s :: s in r <==> s in done || (s in m && EntryOf(m, s) in es && NameAt(pools, EntryOf(m, s)) == s)
    decreases |es|
  {
    if es != [] {
      assert Known(pools, m, es[0]);
      assert es == [es[0]] + es[1..];
      AbsorbIs(pools, m, done[NameAt(pools, es[0]) := es[0].name], es[1..]);
    }
  }

  lemma AllKnown(d: State, m: Names, i: nat, e: Entry)
    requires TableHolds(m, d.table) && Stored(m, d.id, d.pools) && i < |d.table| && e in d.table[i]
    ensures Known(d.pools, m, e) && KeyAt(d.pools, e) % |d.table| == i
    ensures KeyAt(d.pools, e) == Key(NameAt(d.pools, e))
  {
    assert BucketHolds(m, d.table[i], i, |d.table|);
    assert Comes(m, e, i, |d.table|);
    var s :| s in m && e == EntryOf(m, s) && InBucket(s, i, |d.table|);
    KeyOfStored(d.pools, e, s);
  }

  /** First pass: no head is overwritten, because a bucket of the new table can only
      be filled from one bucket of the old one. */
  lemma {:induction false} HeadsMove(d: State, m: Names, i: nat, table: seq<seq<Entry>>, done: Names)
    requires TableHolds(m, d.table) && Stored(m, d.id, d.pools) && i <= |d.table|
    requires (|d.table| == 128 || |d.table| == 1024) && |table| == 8 * |d.table|
    requires TableHolds(done, table) && Part(done, m)
    requires forall k :: 0 <= k < |table| && table[k] != [] ==> k % |d.table| < i
    ensures var heads := Heads(d.table[i..]);
            var t := MoveHeads(d.pools, heads, table);
            TableHolds(Absorb(d.pools, done, heads), t) && Total(t) == Total(table) + |heads|
    decreases |d.table| - i
  {
    hide TableHolds, Stored, Part, NameAt, KeyAt, Total;
    if i < |d.table| {
      assert d.table[i..][1..] == d.table[i + 1..];
      if d.table[i] == [] {
        assert [] + Heads(d.table[i + 1..]) == Heads(d.table[i + 1..]);
        HeadsMove(d, m, i + 1, table, done);
      } else {
        var e := d.table[i][0];
        var s, k := NameAt(d.pools, e), KeyAt(d.pools, e) % |table|;
        PlaceHead(d, m, i, table, done);
        assert ([e] + Heads(d.table[i + 1..]))[1..] == Heads(d.table[i + 1..]);
        HeadsMove(d, m, i + 1, table[k := [e]], done[s := e.name]);
      }
    } else {
      assert d.table[i..] == [];
    }
  }

  lemma PlaceHead(d: State, m: Names, i: nat, table: seq<seq<Entry>>, done: Names)
    requires TableHolds(m, d.table) && Stored(m, d.id, d.pools) && i < |d.table| && d.table[i] != []
    requires (|d.table| == 128 || |d.table| == 1024) && |table| == 8 * |d.table|
    requires TableHolds(done, table) && Part(done, m)
    requires forall k :: 0 <= k < |table| && table[k] != [] ==> k % |d.table| < i
    ensures var e := d.table[i][0];
            var s, k := NameAt(d.pools, e), KeyAt(d.pools, e) % |table|;
            && TableHolds(done[s := e.name], table[k := [e]]) && Part(done[s := e.name], m)
            && Total(table[k := [e]]) == Total(table) + 1 && k % |d.table| == i
  {
    hide TableHolds, Stored, Key, ComputeKey, NameAt, KeyAt;
    var e := d.table[i][0];
    AllKnown(d, m, i, e);
    var k := KeyAt(d.pools, e) % |table|;
    ModOfMod(KeyAt(d.pools, e), |d.table|);
    assert table[k] == [];
    AddEntry(done, table, NameAt(d.pools, e), e.name, k, [e]);
    TotalUpdate(table, k, [e]);
  }

  lemma {:induction false} ChainsMove(d: State, m: Names, rest: seq<Entry>, table: seq<seq<Entry>>, done: Names)
    requires Stored(m, d.id, d.pools) && forall e :: e in rest ==> Known(d.pools, m, e)
    requires TableHolds(done, table) && Part(done, m)
    ensures var t := MoveChains(d.pools, rest, table);
            TableHolds(Absorb(d.pools, done, rest), t) && Total(t) == Total(table) + |rest|
    decreases |rest|
  {
    if rest != [] {
      var e := rest[0];
      assert Known(d.pools, m, e);
      var s := NameAt(d.pools, e);
      KeyOfStored(d.pools, e, s);
      var k := KeyAt(d.pools, e) % |table|;
      var bucket := Link(table[k], e);
      assert table[k] != [] ==> table[k] == [table[k][0]] + table[k][1..];
      AddEntry(done, table, s, e.name, k, bucket);
      TotalUpdate(table, k, bucket);
      ChainsMove(d, m, rest[1..], table[k := bucket], done[s := e.name]);
    }
  }

  lemma {:induction false} HeadsAndChains(table: seq<seq<Entry>>)
    ensures forall e :: (exists i :: 0 <= i < |table| && e in table[i]) <==> e in Heads(table) || e in Chains(table)
    ensures |Heads(table)| + |Chains(table)| == Total(table)
  {
    if table != [] {
      var b, rest := table[0], table[1..];
      HeadsAndChains(rest);
      if b != [] { assert b == [b[0]] + b[1..]; }
      forall e ensures (exists i :: 0 <= i < |table| && e in table[i]) <==> e in Heads(table) || e in Chains(table) {
        if i :| 0 <= i < |table| && e in table[i] {
          if i > 0 { assert e in rest[i - 1]; }
        }
        if i :| 0 <= i < |rest| && e in rest[i] { assert e in table[i + 1]; }
        if e in b { assert e in table[0]; }
      }
    }
  }

  lemma {:induction false} EmptyTotal(size: nat)
    ensures Total(EmptyTable(size)) == 0
  {
    if size > 0 {
      assert EmptyTable(size)[1..] == EmptyTable(size - 1);
      EmptyTotal(size - 1);
    }
  }

  lemma {:induction false} AbsorbConcat(pools: seq<Pool>, done: Names, a: seq<Entry>, b: seq<Entry>)
    ensures Absorb(pools, done, a + b) == Absorb(pools, Absorb(pools, done, a), b)
    decreases |a|
  {
    if a == [] {
      assert a + b == b;
    } else {
      assert (a + b)[1..] == a[1..] + b;
      AbsorbConcat(pools, done[NameAt(pools, a[0]) := a[0].name], a[1..], b);
    }
  }

  lemma AbsorbAll(d: State, m: Names)
    requires TableHolds(m, d.table) && Stored(m, d.id, d.pools)
    ensures Absorb(d.pools, map[], Heads(d.table) + Chains(d.table)) == m
    ensures forall e :: e in Heads(d.table) + Chains(d.table) ==> Known(d.pools, m, e)
  {
    hide NameAt, Heads, Chains, TableHolds, Stored, Known, EntryOf;
    var all := Heads(d.table) + Chains(d.table);
    HeadsAndChains(d.table);
    forall e | e in all ensures Known(d.pools, m, e) {
      var i :| 0 <= i < |d.table| && e in d.table[i];
      AllKnown(d, m, i, e);
    }
    forall s | s in m ensures EntryOf(m, s) in all && NameAt(d.pools, EntryOf(m, s)) == s {
      Listed(d, m, s);
    }
    AbsorbIsAll(d.pools, m, all);
  }

  lemma Listed(d: State, m: Names, s: Bytes)
    requires TableHolds(m, d.table) && Stored(m, d.id, d.pools) && s in m
    ensures exists i :: 0 <= i < |d.table| && EntryOf(m, s) in d.table[i]
    ensures NameAt(d.pools, EntryOf(m, s)) == s
  {
    var i := Key(s) % |d.table|;
    assert BucketHolds(m, d.table[i], i, |d.table|);
    assert InBucket(s, i, |d.table|);
    assert EntryOf(m, s) in d.table[i];
    KeyOfStored(d.pools, EntryOf(m, s), s);
  }

  lemma AbsorbIsAll(pools: seq<Pool>, m: Names, all: seq<Entry>)
    requires forall e :: e in all ==> Known(pools, m, e)
    requires forall s :: s in m ==> EntryOf(m, s) in all && NameAt(pools, EntryOf(m, s)) == s
    ensures Absorb(pools, map[], all) == m
  {
    hide NameAt, Absorb;
    AbsorbIs(pools, m, map[], all);
    assert Absorb(pools, map[], all) == m;
  }

  /** Both passes together: the new table holds the same map and as many entries. */
  lemma TableGrows(d: State, m: Names)
    requires TableHolds(m, d.table) && Stored(m, d.id, d.pools) && (|d.table| == 128 || |d.table| == 1024)
    ensures var t := MoveHeads(d.pools, Heads(d.table), EmptyTable(8 * |d.table|));
            var t' := MoveChains(d.pools, Chains(d.table), t);
            TableHolds(m, t') && Total(t') == Total(d.table)
  {
    hide MoveHeads, MoveChains, Heads, Chains, Stored, Known, Total;
    var size := 8 * |d.table|;
    var empty := EmptyTable(size);
    var heads, rest := Heads(d.table), Chains(d.table);
    assert TableHolds(map[], empty);
    assert d.table[0..] == d.table;
    AbsorbAll(d, m);
    hide TableHolds;
    HeadsMove(d, m, 0, empty, map[]);
    EmptyTotal(size);
    AbsorbIs(d.pools, m, map[], heads);
    var t := MoveHeads(d.pools, heads, empty);
    ChainsMove(d, m, rest, t, Absorb(d.pools, map[], heads));
    AbsorbConcat(d.pools, map[], heads, rest);
    HeadsAndChains(d.table);
  }

  /** Growing by the factor the lookup uses changes the table size and nothing of what
      the dictionary stands for, nor the number of entries. */
  lemma GrowKeeps(d: State, m: Names)
    requires Represents(d, m) && |d.table| < 8192
    ensures var d' := Grow(d, MAX_HASH_LEN * 2 * |d.table|);
            && Represents(d', m) && |d'.table| == 8 * |d.table|
            && d'.pools == d.pools && d'.nbElems == d.nbElems && d'.id == d.id
  {
    hide TableHolds, Stored, NoOverlap, PoolsFit, Total;
    TableGrows(d, m);
  }

  // ---- lookup ----

  lemma MemoryExtends(m: Names, id: nat, pools: seq<Pool>, s: Bytes)
    requires Stored(m, id, pools) && NoOverlap(m) && PoolsFit(pools) && s !in m
    ensures var a := AddString(id, pools, s);
            var m' := m[s := a.at];
            Stored(m', id, a.pools) && NoOverlap(m') && PoolsFit(a.pools) && a.at.owner == id
  {
    hide AddString, ReadAt, PoolsFit;
    var a := AddString(id, pools, s);
    AddStringStores(id, pools, s);
    forall t | t in m
      ensures ReadAt(a.pools, m[t], |t| + 1) == t + [0] && Apart(m[t], |t| + 1, a.at, |s| + 1)
    {
      AddStringKeeps(id, pools, s, m[t], |t| + 1);
    }
  }

  lemma AppendExtends(d: State, m: Names, buf: Bytes, len: nat)
    requires Represents(d, m) && Terminated(buf, len) && buf[..len] !in m
    ensures var (d', p) := Append(d, buf, len);
            && Represents(d', m[buf[..len] := p]) && |d'.table| == |d.table| && d'.id == d.id && p.owner == d.id
  {
    hide Stored, NoOverlap, PoolsFit, AddString, Total, TableHolds;
    var s := buf[..len];
    KeyIsOfName(buf, len);
    MemoryExtends(m, d.id, d.pools, s);
    var p := AddString(d.id, d.pools, s).at;
    var k := Key(s) % |d.table|;
    var bucket := d.table[k] + [Entry(p, len)];
    hide Key, ComputeKey;
    AddEntry(m, d.table, s, p, k, bucket);
    TotalUpdate(d.table, k, bucket);
  }

  lemma InsertExtends(d: State, m: Names, buf: Bytes, len: nat, steps: nat)
    requires Represents(d, m) && Terminated(buf, len) && buf[..len] !in m
    ensures var (d', p) := Insert(d, buf, len, steps);
            && Represents(d', m[buf[..len] := p]) && d'.id == d.id && p.owner == d.id
  {
    hide TableHolds, Stored, NoOverlap, PoolsFit, Total, Append, Grow;
    AppendExtends(d, m, buf, len);
    var (d1, p) := Append(d, buf, len);
    if MustGrow(steps, |d.table|) { GrowKeeps(d1, m[buf[..len] := p]); }
  }

  function GetEither(m: Names, sub: Names, s: Bytes): Option<Ptr>
  {
    if s in m then Some(m[s]) else Get(sub, s)
  }

  ghost predicate RepresentsSub(sub: Option<State>, ms: Names)
  {
    if sub.Some? then Represents(sub.value, ms) else ms == map[]
  }

  /** xmlDictExists answers from the map, then from the map of the sub-dictionary. */
  lemma ExistsIsGet(d: State, sub: Option<State>, m: Names, ms: Names, buf: Bytes, len: nat)
    requires Represents(d, m) && RepresentsSub(sub, ms) && Terminated(buf, len)
    ensures Exists(d, sub, buf, len) == GetEither(m, ms, buf[..len])
  {
    ProbeIsGet(d, m, buf, len);
    if sub.Some? { ProbeIsGet(sub.value, ms, buf, len); }
  }

  /** xmlDictLookup returns what is known, and otherwise extends the map by the name. */
  lemma LookupRefines(d: State, sub: Option<State>, m: Names, ms: Names, buf: Bytes, len: nat)
    requires Represents(d, m) && RepresentsSub(sub, ms) && Terminated(buf, len)
    ensures var (d', p) := Lookup(d, sub, buf, len);
            var known := GetEither(m, ms, buf[..len]);
            && d'.id == d.id
            && if known.Some? then d' == d && p == known.value
               else Represents(d', m[buf[..len] := p]) && p.owner == d.id
  {
    hide TableHolds, Stored, NoOverlap, PoolsFit, Total, Insert, Exists, Steps;
    ExistsIsGet(d, sub, m, ms, buf, len);
    if GetEither(m, ms, buf[..len]).None? {
      InsertExtends(d, m, buf, len, Steps(d, buf, len) + if sub.Some? then Steps(sub.value, buf, len) else 0);
    }
  }

  lemma CreateIsEmpty(id: nat)
    ensures Represents(Create(id), map[])
  {
    EmptyTotal(MIN_DICT_SIZE);
  }

  // ---- every run ----

  /** A step of a run: on the dictionary, or on the sub-dictionary behind its back. */
  datatype Op =
    | LookupOp(buf: Bytes, len: nat)
    | ExistsOp(buf: Bytes, len: nat)
    | SubLookupOp(buf: Bytes, len: nat)

  datatype World = World(d: State, sub: Option<State>)

  predicate Runnable(w: World)
  {
    w.d.table != [] && (w.sub.Some? ==> w.sub.value.table != [])
  }

  function Step(w: World, op: Op): (World, Option<Ptr>)
    requires Runnable(w) && Terminated(op.buf, op.len)
  {
    match op
    case LookupOp(buf, len) => var (d', p) := Lookup(w.d, w.sub, buf, len); (w.(d := d'), Some(p))
    case ExistsOp(buf, len) => (w, Exists(w.d, w.sub, buf, len))
    case SubLookupOp(buf, len) =>
      if w.sub.None? then (w, None)
      else var (s', p) := Lookup(w.sub.value, None, buf, len); (w.(sub := Some(s')), Some(p))
  }

  function NameOf(op: Op): Bytes
    requires op.len <= |op.buf|
  {
    op.buf[..op.len]
  }

  ghost predicate Stands(w: World, m: Names, ms: Names)
  {
    Represents(w.d, m) && RepresentsSub(w.sub, ms) && (w.sub.Some? ==> w.sub.value.id != w.d.id)
  }

  /** Answers once available never change. */
  ghost predicate Later(m: Names, ms: Names, m': Names, ms': Names)
  {
    forall s :: GetEither(m, ms, s).Some? ==> GetEither(m', ms', s) == GetEither(m, ms, s)
  }

  lemma StepKeeps(w: World, m: Names, ms: Names, op: Op) returns (m': Names, ms': Names)
    requires Stands(w, m, ms) && Terminated(op.buf, op.len)
    ensures var (w', r) := Step(w, op);
            && Stands(w', m', ms') && Later(m, ms, m', ms')
            && (!op.SubLookupOp? ==> r == (if op.LookupOp? then GetEither(m', ms', NameOf(op)) else GetEither(m, ms, NameOf(op))))
            && (op.LookupOp? ==> r.Some?)
  {
    hide Represents, Lookup, Exists;
    m', ms' := m, ms;
    assert Runnable(w) by { RunnableIfStands(w, m, ms); }
    match op
    case LookupOp(buf, len) =>
      LookupRefines(w.d, w.sub, m, ms, buf, len);
      if GetEither(m, ms, buf[..len]).None? { m' := m[buf[..len] := Lookup(w.d, w.sub, buf, len).1]; }
    case ExistsOp(buf, len) =>
      ExistsIsGet(w.d, w.sub, m, ms, buf, len);
    case SubLookupOp(buf, len) =>
      if w.sub.Some? {
        LookupRefines(w.sub.value, None, ms, map[], buf, len);
        if buf[..len] !in ms { ms' := ms[buf[..len] := Lookup(w.sub.value, None, buf, len).1]; }
      }
  }

  lemma RunnableIfStands(w: World, m: Names, ms: Names)
    requires Stands(w, m, ms)
    ensures Runnable(w)
  {
  }

  ghost predicate AllTerminated(ops: seq<Op>)
  {
    forall i :: 0 <= i < |ops| ==> Terminated(ops[i].buf, ops[i].len)
  }

  /** The runs of the model: worlds[i] is the world before step i. */
  ghost predicate IsRun(worlds: seq<World>, ops: seq<Op>, results: seq<Option<Ptr>>)
  {
    && |worlds| == |ops| + 1 && |results| == |ops| && AllTerminated(ops)
    && forall i :: 0 <= i < |ops| ==> Runnable(worlds[i]) && Step(worlds[i], ops[i]) == (worlds[i + 1], results[i])
  }

  lemma {:induction false} RunTail(worlds: seq<World>, ops: seq<Op>, results: seq<Option<Ptr>>)
    requires IsRun(worlds, ops, results) && ops != []
    ensures IsRun(worlds[1..], ops[1..], results[1..])
  {
    var w, o, r := worlds[1..], ops[1..], results[1..];
    forall i | 0 <= i < |o| ensures Runnable(w[i]) && Step(w[i], o[i]) == (w[i + 1], r[i]) {
      assert Step(worlds[i + 1], ops[i + 1]) == (worlds[i + 2], results[i + 1]);
    }
  }

  /** At the end of a run every answer it gave is still the answer. */
  lemma {:induction false} RunKeeps(worlds: seq<World>, ops: seq<Op>, results: seq<Option<Ptr>>, m: Names, ms: Names)
    returns (m': Names, ms': Names)
    requires IsRun(worlds, ops, results) && Stands(worlds[0], m, ms)
    ensures Stands(worlds[|ops|], m', ms') && Later(m, ms, m', ms')
    ensures forall i :: 0 <= i < |ops| && !ops[i].SubLookupOp? && results[i].Some? ==>
              GetEither(m', ms', NameOf(ops[i])) == results[i]
    ensures forall i :: 0 <= i < |ops| && ops[i].LookupOp? ==> results[i].Some?
    ensures forall i :: 0 <= i < |ops| && !ops[i].SubLookupOp? && GetEither(m, ms, NameOf(ops[i])).Some? ==>
              results[i] == GetEither(m, ms, NameOf(ops[i]))
    decreases |ops|
  {
    hide Stands, Step;
    if ops == [] {
      m', ms' := m, ms;
    } else {
      var m1, ms1 := StepKeeps(worlds[0], m, ms, ops[0]);
      assert Step(worlds[0], ops[0]) == (worlds[1], results[0]);
      RunTail(worlds, ops, results);
      m', ms' := RunKeeps(worlds[1..], ops[1..], results[1..], m1, ms1);
      forall i | 0 <= i < |ops|
        ensures !ops[i].SubLookupOp? && results[i].Some? ==> GetEither(m', ms', NameOf(ops[i])) == results[i]
        ensures ops[i].LookupOp? ==> results[i].Some?
        ensures !ops[i].SubLookupOp? && GetEither(m, ms, NameOf(ops[i])).Some? ==>
                  results[i] == GetEither(m, ms, NameOf(ops[i]))
      {
        if i > 0 { assert ops[i] == ops[1..][i - 1] && results[i] == results[1..][i - 1]; }
      }
    }
  }

  lemma InjectiveNames(m: Names, s: Bytes, t: Bytes)
    requires NoOverlap(m) && s in m && t in m && m[s] == m[t]
    ensures s == t
  {
    assert s != t ==> Apart(m[s], |s| + 1, m[t], |t| + 1);
  }

  lemma AnswersDiffer(w: World, m: Names, ms: Names, s: Bytes, t: Bytes)
    requires Stands(w, m, ms) && GetEither(m, ms, s).Some? && GetEither(m, ms, t).Some?
    ensures GetEither(m, ms, s) == GetEither(m, ms, t) <==> s == t
    ensures s != t ==> Apart(GetEither(m, ms, s).value, |s| + 1, GetEither(m, ms, t).value, |t| + 1)
  {
    hide TableHolds, PoolsFit, Total, ReadAt;
    if s in m && t in m && m[s] == m[t] { InjectiveNames(m, s, t); }
    if s !in m && t !in m && ms[s] == ms[t] { InjectiveNames(ms, s, t); }
  }

  function SubPools(w: World): seq<State> { if w.sub.Some? then [w.sub.value] else [] }

  /** The bytes behind a pointer, wherever it points. */
  function BytesAt(w: World, p: Ptr, n: nat): Bytes
  {
    if p.owner == w.d.id then ReadAt(w.d.pools, p, n)
    else if w.sub.Some? then ReadAt(w.sub.value.pools, p, n) else []
  }

  lemma AnswerIsStored(w: World, m: Names, ms: Names, s: Bytes)
    requires Stands(w, m, ms) && GetEither(m, ms, s).Some?
    ensures var p := GetEither(m, ms, s).value;
            BytesAt(w, p, |s| + 1) == s + [0] && Owns(w.d, SubPools(w), p)
  {
    hide TableHolds, PoolsFit, Total, NoOverlap;
  }

  /** Interning, over every run that starts with an empty dictionary and any
      sub-dictionary, which may itself be used during the run: two answers are the
      same pointer exactly if the names are equal; at the end every answer still
      points to its bytes and a terminator, is owned, and overlaps no other. */
  lemma RunInterns(worlds: seq<World>, ops: seq<Op>, results: seq<Option<Ptr>>, ms: Names, i: nat, j: nat)
    requires IsRun(worlds, ops, results)
    requires worlds[0].d == Create(worlds[0].d.id) && RepresentsSub(worlds[0].sub, ms)
    requires worlds[0].sub.Some? ==> worlds[0].sub.value.id != worlds[0].d.id
    requires i < |ops| && j < |ops| && !ops[i].SubLookupOp? && !ops[j].SubLookupOp?
    requires results[i].Some? && results[j].Some?
    ensures results[i] == results[j] <==> NameOf(ops[i]) == NameOf(ops[j])
    ensures var (end, s, t) := (worlds[|ops|], NameOf(ops[i]), NameOf(ops[j]));
            && BytesAt(end, results[i].value, |s| + 1) == s + [0]
            && Owns(end.d, SubPools(end), results[i].value)
            && (s != t ==> Apart(results[i].value, |s| + 1, results[j].value, |t| + 1))
  {
    hide Represents, RepresentsSub, Create, Owns, BytesAt, Apart, Step, SubPools, Later, GetEither;
    CreateIsEmpty(worlds[0].d.id);
    var m', ms' := RunKeeps(worlds, ops, results, map[], ms);
    AnswersDiffer(worlds[|ops|], m', ms', NameOf(ops[i]), NameOf(ops[j]));
    AnswerIsStored(worlds[|ops|], m', ms', NameOf(ops[i]));
  }

  /** A lookup always answers, and once a name has been answered every later lookup or
      existence test answers the same. */
  lemma RunAgrees(worlds: seq<World>, ops: seq<Op>, results: seq<Option<Ptr>>, m: Names, ms: Names, i: nat, j: nat)
    requires IsRun(worlds, ops, results) && Stands(worlds[0], m, ms)
    requires i < j < |ops| && !ops[i].SubLookupOp? && !ops[j].SubLookupOp?
    requires results[i].Some? && NameOf(ops[i]) == NameOf(ops[j])
    ensures results[j] == results[i]
    decreases |ops|
  {
    hide Stands, Step;
    var m1, ms1 := StepKeeps(worlds[0], m, ms, ops[0]);
    assert Step(worlds[0], ops[0]) == (worlds[1], results[0]);
    RunTail(worlds, ops, results);
    assert ops[1..][j - 1] == ops[j] && results[1..][j - 1] == results[j];
    if i == 0 {
      var m', ms' := RunKeeps(worlds[1..], ops[1..], results[1..], m1, ms1);
    } else {
      assert ops[1..][i - 1] == ops[i] && results[1..][i - 1] == results[i];
      RunAgrees(worlds[1..], ops[1..], results[1..], m1, ms1, i - 1, j - 1);
    }
  }

  // ---- the empty name ----

  /** An empty name that is not terminated is found exactly if it is not interned yet
      or the byte behind it happens to select the first bucket. */
  lemma UnterminatedEmpty(d: State, m: Names, buf: Bytes)
    requires Represents(d, m) && buf != []
    ensures Probe(d, buf, 0) == Get(m, []) <==> [] !in m || (32 * (buf[0] as int)) % |d.table| == 0
  {
    var i := (32 * (buf[0] as int)) % |d.table|;
    assert ComputeKey(buf, 0) == 32 * (buf[0] as int);
    assert buf[..0] == [];
    EmptyInBucket(d, m, i);
  }

  lemma BucketOf(m: Names, table: seq<seq<Entry>>, i: nat)
    requires TableHolds(m, table) && i < |table|
    ensures BucketHolds(m, table[i], i, |table|)
  {
  }

  lemma EmptyInBucket(d: State, m: Names, i: nat)
    requires Represents(d, m) && i < |d.table|
    ensures Search(d.pools, d.table[i], []) == if i == 0 then Get(m, []) else None
  {
    hide Search, Key, Total, NoOverlap, PoolsFit, TableHolds, NameAt, ReadAt, KeyAt, InBucket;
    var size, bucket := |d.table|, d.table[i];
    SearchScans(d.pools, bucket, []);
    BucketOf(m, d.table, i);
    EmptyKey(size);
    forall e | e in bucket && e.len == 0 ensures [] in m && m[[]] == e.name && i == 0 {
      assert Comes(m, e, i, size);
      var t :| t in m && e == EntryOf(m, t) && InBucket(t, i, size);
      assert t == [];
    }
    if [] in m && i == 0 {
      KeyOfStored(d.pools, EntryOf(m, []), []);
      assert EntryOf(m, []) in bucket;
    }
  }

  lemma EmptyKey(size: nat)
    requires size > 0
    ensures Key([]) == 0 && InBucket([], 0, size) && forall i: nat :: InBucket([], i, size) ==> i == 0
  {
  }

  /** So interning fails for it: the same empty name, followed by different bytes, is
      interned twice. */
  lemma UnterminatedEmptyTwice()
    ensures var (d1, p) := Lookup(Create(0), None, [65], 0);
            var (d2, q) := Lookup(d1, None, [66], 0);
            [65][..0] == [66][..0] && p != q
  {
    var d := Create(0);
    LookupMisses(d, [65]);
    var d1 := Append(d, [65], 0).0;
    assert [65][..0] == [] && [66][..0] == [];
    assert AddString(0, [], []) == Added([Pool(1000, [0])], Ptr(0, 0, 0)) by {
      assert [] + [] + [0] == [0];
    }
    assert d1.table[64] == d.table[64] == [];
    LookupMisses(d1, [66]);
    assert FindPool([Pool(1000, [0])], 0) == Some(0);
  }

  lemma LookupMisses(d: State, buf: Bytes)
    requires buf != [] && d.table != [] && d.table[(32 * (buf[0] as int)) % |d.table|] == []
    ensures Lookup(d, None, buf, 0) == Append(d, buf, 0)
  {
    assert ComputeKey(buf, 0) == 32 * (buf[0] as int);
  }
}
