/**
 The interning string dictionary as a function of its state. A bucket is the
 embedded head followed by its overflow chain; a pool is the used part of a block
 of bytes; a pointer names a byte of a pool of one dictionary.
 */
module Dict {
  import opened Common

  type Byte = x: int | 0 <= x < 256
  type Bytes = seq<Byte>

  const MAX_HASH_LEN := 4
  const MIN_DICT_SIZE := 128
  const MAX_DICT_HASH := 8 * 2048

  datatype Ptr = Ptr(owner: nat, pool: nat, off: nat)

  datatype Entry = Entry(name: Ptr, len: nat)

  /** bytes is the block from its start to the free pointer. */
  datatype Pool = Pool(size: nat, bytes: Bytes)

  datatype State = State(id: nat, table: seq<seq<Entry>>, nbElems: nat, pools: seq<Pool>)

  // ---- hashing ----

  function Sum(s: Bytes): nat { if s == [] then 0 else s[0] + Sum(s[1..]) }

  function Min(a: nat, b: nat): nat { if a < b then a else b }

  /** xmlDictComputeKey: the first byte is read whatever the length is. */
  function ComputeKey(buf: Bytes, len: nat): nat
    requires buf != [] && len <= |buf|
  {
    32 * buf[0]
    + (if len > 10 then buf[len - 1] else 0)
    + (if len < 2 then 0 else Sum(buf[1..Min(len, 10)]))
  }

  /** The key of a string as such. */
  function Key(s: Bytes): nat { ComputeKey(s + [0], |s|) }

  /** A name as the caller passes it: a buffer and a length within it. The empty name
      must be a terminated string, or the key depends on what follows it. */
  predicate Terminated(buf: Bytes, len: nat)
  {
    buf != [] && len <= |buf| && (len == 0 ==> buf[0] == 0)
  }

  // ---- memory ----

  function ReadAt(pools: seq<Pool>, p: Ptr, n: nat): Bytes
  {
    if p.pool < |pools| && p.off + n <= |pools[p.pool].bytes|
    then pools[p.pool].bytes[p.off..p.off + n] else []
  }

  function NameAt(pools: seq<Pool>, e: Entry): Bytes { ReadAt(pools, e.name, e.len) }

  function KeyAt(pools: seq<Pool>, e: Entry): nat
  {
    var mem := ReadAt(pools, e.name, e.len + 1);
    if mem == [] then 0 else ComputeKey(mem, e.len)
  }

  /** The newest pool with room, scanning from the newest. */
  function FindPool(pools: seq<Pool>, n: nat): (r: Option<nat>)
    ensures r.Some? ==> r.value < |pools| && pools[r.value].size - |pools[r.value].bytes| > n
  {
    if pools == [] then None
    else
      var last := |pools| - 1;
      if pools[last].size - |pools[last].bytes| > n then Some(last) else FindPool(pools[..last], n)
  }

  function MaxSize(pools: seq<Pool>): nat
  {
    if pools == [] then 0
    else
      var rest := MaxSize(pools[..|pools| - 1]);
      if pools[|pools| - 1].size > rest then pools[|pools| - 1].size else rest
  }

  function NewPoolSize(pools: seq<Pool>, n: nat): (size: nat)
    ensures size > n
  {
    var grown := if MaxSize(pools) == 0 then 1000 else MaxSize(pools) * 4;
    if grown < 4 * n then 4 * n else grown
  }

  datatype Added = Added(pools: seq<Pool>, at: Ptr)

  /** xmlDictAddString: copy the name and a terminator to the end of a pool. */
  function AddString(id: nat, pools: seq<Pool>, name: Bytes): Added
  {
    var found := FindPool(pools, |name|);
    var all := if found.Some? then pools else pools + [Pool(NewPoolSize(pools, |name|), [])];
    var k := if found.Some? then found.value else |pools|;
    Added(all[k := all[k].(bytes := all[k].bytes + name + [0])], Ptr(id, k, |all[k].bytes|))
  }

  // ---- lookup ----

  /** The chain walk: first entry with this length and these bytes. */
  function Search(pools: seq<Pool>, bucket: seq<Entry>, name: Bytes): Option<Ptr>
  {
    if bucket == [] then None
    else if bucket[0].len == |name| && NameAt(pools, bucket[0]) == name then Some(bucket[0].name)
    else Search(pools, bucket[1..], name)
  }

  function Probe(d: State, buf: Bytes, len: nat): Option<Ptr>
    requires buf != [] && len <= |buf| && d.table != []
  {
    Search(d.pools, d.table[ComputeKey(buf, len) % |d.table|], buf[..len])
  }

  /** The number of links a failed walk follows. */
  function Steps(d: State, buf: Bytes, len: nat): nat
    requires buf != [] && len <= |buf| && d.table != []
  {
    var n := |d.table[ComputeKey(buf, len) % |d.table|]|;
    if n == 0 then 0 else n - 1
  }

  /** First pass of xmlDictGrow: heads become heads. */
  function MoveHeads(pools: seq<Pool>, heads: seq<Entry>, table: seq<seq<Entry>>): (r: seq<seq<Entry>>)
    requires table != []
    ensures |r| == |table|
    decreases |heads|
  {
    if heads == [] then table
    else MoveHeads(pools, heads[1..], table[KeyAt(pools, heads[0]) % |table| := [heads[0]]])
  }

  /** Where the second pass puts an entry: as head, or right behind the head. */
  function Link(bucket: seq<Entry>, e: Entry): seq<Entry>
  {
    if bucket == [] then [e] else [bucket[0], e] + bucket[1..]
  }

  function MoveChains(pools: seq<Pool>, rest: seq<Entry>, table: seq<seq<Entry>>): (r: seq<seq<Entry>>)
    requires table != []
    ensures |r| == |table|
    decreases |rest|
  {
    if rest == [] then table
    else
      var k := KeyAt(pools, rest[0]) % |table|;
      MoveChains(pools, rest[1..], table[k := Link(table[k], rest[0])])
  }

  function Heads(table: seq<seq<Entry>>): seq<Entry>
  {
    if table == [] then []
    else (if table[0] == [] then [] else [table[0][0]]) + Heads(table[1..])
  }

  function Chains(table: seq<seq<Entry>>): seq<Entry>
  {
    if table == [] then []
    else (if table[0] == [] then [] else table[0][1..]) + Chains(table[1..])
  }

  function EmptyTable(size: nat): (t: seq<seq<Entry>>)
    ensures |t| == size && forall i :: 0 <= i < size ==> t[i] == []
  {
    seq(size, _ => [])
  }

  /** xmlDictGrow; sizes outside 8..16384 are refused. */
  function Grow(d: State, size: nat): State
  {
    if size < 8 || size > 8 * 2048 then d
    else
      var t := MoveHeads(d.pools, Heads(d.table), EmptyTable(size));
      d.(table := MoveChains(d.pools, Chains(d.table), t))
  }

  predicate MustGrow(steps: nat, size: nat)
  {
    steps > MAX_HASH_LEN && size <= (MAX_DICT_HASH / 2) / MAX_HASH_LEN
  }

  /** A new entry at the end of its chain. */
  function Append(d: State, buf: Bytes, len: nat): (State, Ptr)
    requires buf != [] && len <= |buf| && d.table != []
  {
    var added := AddString(d.id, d.pools, buf[..len]);
    var k := ComputeKey(buf, len) % |d.table|;
    (State(d.id, d.table[k := d.table[k] + [Entry(added.at, len)]], d.nbElems + 1, added.pools), added.at)
  }

  /** The insertion part of xmlDictLookup: append, then grow after a long walk. */
  function Insert(d: State, buf: Bytes, len: nat, steps: nat): (State, Ptr)
    requires buf != [] && len <= |buf| && d.table != []
  {
    var (d', p) := Append(d, buf, len);
    (if MustGrow(steps, |d.table|) then Grow(d', MAX_HASH_LEN * 2 * |d.table|) else d', p)
  }

  function SubProbe(sub: Option<State>, buf: Bytes, len: nat): Option<Ptr>
    requires buf != [] && len <= |buf| && (sub.Some? ==> sub.value.table != [])
  {
    if sub.Some? then Probe(sub.value, buf, len) else None
  }

  /** xmlDictExists. */
  function Exists(d: State, sub: Option<State>, buf: Bytes, len: nat): Option<Ptr>
    requires buf != [] && len <= |buf| && d.table != [] && (sub.Some? ==> sub.value.table != [])
  {
    if Probe(d, buf, len).Some? then Probe(d, buf, len) else SubProbe(sub, buf, len)
  }

  /** xmlDictLookup. */
  function Lookup(d: State, sub: Option<State>, buf: Bytes, len: nat): (State, Ptr)
    requires buf != [] && len <= |buf| && d.table != [] && (sub.Some? ==> sub.value.table != [])
  {
    var found := Exists(d, sub, buf, len);
    if found.Some? then (d, found.value)
    else Insert(d, buf, len, Steps(d, buf, len) + if sub.Some? then Steps(sub.value, buf, len) else 0)
  }

  /** xmlDictOwns: between the start of a pool and its free pointer, inclusive; the
      chain of sub-dictionaries is searched too. */
  predicate Owns(d: State, subs: seq<State>, p: Ptr)
    decreases |subs|
  {
    (p.owner == d.id && p.pool < |d.pools| && p.off <= |d.pools[p.pool].bytes|)
    || (subs != [] && Owns(subs[0], subs[1..], p))
  }

  /** xmlDictCreate. */
  function Create(id: nat): State { State(id, EmptyTable(MIN_DICT_SIZE), 0, []) }
}
