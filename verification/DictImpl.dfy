/**
 The dictionary in place: a table of buckets that is replaced on growth, pools that
 are filled from their start, and the teardown loop. Every method is proved to
 compute the function of the same name in Dict.
 */
module DictImpl {
  import opened Common
  import D = Dict
  import T = DictTheorems

  /** xmlDictStrings: a block of bytes and its free pointer. */
  class PoolBuf {
    const data: array<D.Byte>
    var free: nat

    constructor (size: nat)
      ensures fresh(data) && data.Length == size && free == 0
    {
      data := new D.Byte[size](_ => 0);
      free := 0;
    }

    ghost predicate Valid()
      reads this
    {
      free <= data.Length
    }

    ghost function View(): D.Pool
      requires Valid()
      reads this, data
    {
      D.Pool(data.Length, data[..free])
    }

    /** memcpy of the name, then the terminator. */
    method Store(name: D.Bytes)
      requires Valid() && data.Length - free > |name|
      modifies this, data
      ensures Valid() && View() == old(View()).(bytes := old(View()).bytes + name + [0])
      ensures free == old(free) + |name| + 1
    {
      var at := free;
      for i := 0 to |name|
        invariant free == at && data[..at + i] == old(data[..free]) + name[..i]
      {
        data[at + i] := name[i];
      }
      data[at + |name|] := 0;
      free := at + |name| + 1;
    }
  }

  class StringDict {
    const id: nat
    var table: array<seq<D.Entry>>
    var nbElems: nat
    var strings: seq<PoolBuf>
    const subdict: StringDict?
    ghost var Repr: set<object>

    /** The part of the invariant that does not speak about the sub-dictionary. */
    ghost predicate Own()
      reads this, Repr
    {
      && this in Repr && table in Repr && table.Length > 0
      && (forall k :: 0 <= k < |strings| ==> strings[k] in Repr && strings[k].data in Repr && strings[k].Valid())
      && (forall i, k :: 0 <= i < k < |strings| ==> strings[i] != strings[k] && strings[i].data != strings[k].data)
    }

    ghost predicate Valid()
      reads this, Repr, subdict, if subdict == null then {} else subdict.Repr
    {
      Own() && (subdict != null ==> subdict.Own() && Repr !! subdict.Repr)
    }

    ghost function PoolsView(): (r: seq<D.Pool>)
      requires Own()
      reads this, Repr
      ensures |r| == |strings| && forall k :: 0 <= k < |r| ==> r[k] == strings[k].View()
    {
      seq(|strings|, k requires 0 <= k < |strings| && Own() reads this, Repr => strings[k].View())
    }

    ghost function View(): D.State
      requires Own()
      reads this, Repr
    {
      D.State(id, table[..], nbElems, PoolsView())
    }

    ghost function SubView(): Option<D.State>
      requires Valid()
      reads this, Repr, subdict, if subdict == null then {} else subdict.Repr
    {
      if subdict == null then None else Some(subdict.View())
    }

    /** xmlDictCreate and xmlDictCreateSub. */
    constructor (id: nat, sub: StringDict?)
      requires sub != null ==> sub.Own()
      ensures Valid() && fresh(Repr) && subdict == sub && View() == D.Create(id)
    {
      this.id := id;
      table := new seq<D.Entry>[D.MIN_DICT_SIZE](_ => []);
      nbElems, strings, subdict := 0, [], sub;
      new;
      Repr := {this, table};
      assert table[..] == D.EmptyTable(D.MIN_DICT_SIZE);
    }

    /** The bytes of an entry, as memcmp and the hash see them. */
    method Read(p: D.Ptr, n: nat) returns (r: D.Bytes)
      requires Own()
      ensures r == D.ReadAt(PoolsView(), p, n)
    {
      if p.pool < |strings| && p.off + n <= strings[p.pool].free {
        r := strings[p.pool].data[p.off..p.off + n];
      } else {
        r := [];
      }
    }

    /** The walk along a bucket. */
    method Search(key: nat, name: D.Bytes) returns (r: Option<D.Ptr>)
      requires Own()
      ensures r == D.Search(PoolsView(), table[key % table.Length], name)
    {
      var bucket := table[key % table.Length];
      var i := 0;
      assert bucket[0..] == bucket;
      while i < |bucket|
        invariant 0 <= i <= |bucket|
        invariant D.Search(PoolsView(), bucket, name) == D.Search(PoolsView(), bucket[i..], name)
      {
        if bucket[i].len == |name| {
          var bytes := Read(bucket[i].name, bucket[i].len);
          if bytes == name { return Some(bucket[i].name); }
        }
        i := i + 1;
      }
      r := None;
    }

    /** xmlDictExists. */
    method Exists(buf: D.Bytes, len: nat) returns (r: Option<D.Ptr>)
      requires Valid() && buf != [] && len <= |buf|
      ensures r == D.Exists(View(), SubView(), buf, len)
    {
      var okey := D.ComputeKey(buf, len);
      r := Search(okey, buf[..len]);
      if r.None? && subdict != null { r := subdict.Search(okey, buf[..len]); }
    }

    /** The scan for a pool with room, and the largest size passed on the way. */
    method FindPool(n: nat) returns (found: Option<nat>, size: nat)
      requires Own()
      ensures found == D.FindPool(PoolsView(), n)
      ensures found.None? ==> size == D.MaxSize(PoolsView())
    {
      ghost var pools := PoolsView();
      var k := |strings|;
      size := 0;
      assert pools[..k] == pools;
      while k > 0
        invariant 0 <= k <= |strings|
        invariant D.FindPool(pools, n) == D.FindPool(pools[..k], n)
        invariant D.MaxSize(pools) == if size > D.MaxSize(pools[..k]) then size else D.MaxSize(pools[..k])
      {
        k := k - 1;
        assert pools[..k + 1][..k] == pools[..k];
        if strings[k].data.Length - strings[k].free > n { return Some(k), size; }
        if strings[k].data.Length > size { size := strings[k].data.Length; }
      }
      found := None;
    }

    /** xmlDictAddString. */
    method AddString(name: D.Bytes) returns (p: D.Ptr)
      requires Own()
      modifies Repr
      ensures Own() && fresh(Repr - old(Repr))
      ensures table == old(table) && table[..] == old(table[..]) && nbElems == old(nbElems)
      ensures D.Added(PoolsView(), p) == D.AddString(id, old(PoolsView()), name)
    {
      hide D.FindPool, D.MaxSize, PoolsView;
      var found, size := FindPool(|name|);
      var k;
      if found.Some? {
        k := found.value;
      } else {
        size := if size == 0 then 1000 else size * 4;
        if size < 4 * |name| { size := 4 * |name|; }
        NewPool(size);
        k := |strings| - 1;
      }
      p := StoreIn(k, name);
    }

    method NewPool(size: nat)
      requires Own()
      modifies this
      ensures Own() && fresh(Repr - old(Repr)) && table == old(table) && nbElems == old(nbElems)
      ensures old(Repr) <= Repr && PoolsView() == old(PoolsView()) + [D.Pool(size, [])]
    {
      ghost var pools := PoolsView();
      var pool := new PoolBuf(size);
      strings := strings + [pool];
      Repr := Repr + {pool, pool.data};
      assert PoolsView() == pools + [D.Pool(size, [])];
    }

    method StoreIn(k: nat, name: D.Bytes) returns (p: D.Ptr)
      requires Own() && k < |strings| && strings[k].data.Length - strings[k].free > |name|
      modifies strings[k], strings[k].data
      ensures Own() && unchanged(this) && table[..] == old(table[..])
      ensures var was := old(PoolsView());
              && PoolsView() == was[k := was[k].(bytes := was[k].bytes + name + [0])]
              && p == D.Ptr(id, k, |was[k].bytes|)
    {
      ghost var before := PoolsView();
      p := D.Ptr(id, k, strings[k].free);
      strings[k].Store(name);
      assert PoolsView() == before[k := before[k].(bytes := before[k].bytes + name + [0])];
    }

    /** xmlDictGrow, in two passes over the old table. */
    method Grow(size: nat)
      requires Own() && 8 <= size <= 8 * 2048
      modifies Repr
      ensures Own() && fresh(Repr - old(Repr)) && nbElems == old(nbElems) && strings == old(strings)
      ensures View() == D.Grow(old(View()), size)
    {
      ghost var pools := PoolsView();
      var old_ := table;
      ghost var was := table[..];
      var t := MoveHeads(size);
      MoveChains(t);
      assert old_[..] == was;
      table := t;
      Repr := Repr + {t};
      assert PoolsView() == pools;
    }

    method MoveHeads(size: nat) returns (t: array<seq<D.Entry>>)
      requires Own() && size > 0
      ensures fresh(t) && t[..] == D.MoveHeads(PoolsView(), D.Heads(table[..]), D.EmptyTable(size))
    {
      hide D.MoveHeads, D.Heads, D.KeyAt, PoolsView;
      ghost var pools, was := PoolsView(), table[..];
      t := new seq<D.Entry>[size](_ => []);
      assert t[..] == D.EmptyTable(size);
      assert was[0..] == was;
      for i := 0 to table.Length
        invariant fresh(t) && t.Length == size && Own() && PoolsView() == pools && table[..] == was
        invariant D.MoveHeads(pools, D.Heads(was), D.EmptyTable(size)) == D.MoveHeads(pools, D.Heads(was[i..]), t[..])
      {
        ghost var before := t[..];
        HeadsStep(pools, was, i, before);
        if table[i] != [] {
          var key := KeyOf(table[i][0]);
          t[key % size] := [table[i][0]];
          assert t[..] == before[key % size := [was[i][0]]];
        }
      }
      HeadsDone(pools, was, t[..]);
    }

    /** xmlDictComputeKey of a stored name. */
    method KeyOf(e: D.Entry) returns (key: nat)
      requires Own()
      ensures key == D.KeyAt(PoolsView(), e)
    {
      var mem := Read(e.name, e.len + 1);
      key := if mem == [] then 0 else D.ComputeKey(mem, e.len);
    }

    method MoveChains(t: array<seq<D.Entry>>)
      requires Own() && t !in Repr && t.Length > 0
      modifies t
      ensures t[..] == D.MoveChains(PoolsView(), D.Chains(table[..]), old(t[..]))
    {
      hide D.MoveChains, D.Chains, PoolsView;
      ghost var pools, was := PoolsView(), table[..];
      ghost var goal := D.MoveChains(pools, D.Chains(was), t[..]);
      assert was[0..] == was;
      for i := 0 to table.Length
        invariant Own() && PoolsView() == pools && table[..] == was
        invariant goal == D.MoveChains(pools, D.Chains(was[i..]), t[..])
      {
        var chain := if table[i] == [] then [] else table[i][1..];
        ChainsStep(was, i);
        MoveChain(t, chain, D.Chains(was[i + 1..]));
      }
      ChainsDone(pools, was, t[..]);
    }

    /** The entries of one chain, each linked in behind the head of its new bucket. */
    method MoveChain(t: array<seq<D.Entry>>, chain: seq<D.Entry>, ghost rest: seq<D.Entry>)
      requires Own() && t !in Repr && t.Length > 0
      modifies t
      ensures D.MoveChains(PoolsView(), chain + rest, old(t[..])) == D.MoveChains(PoolsView(), rest, t[..])
    {
      hide PoolsView, D.KeyAt, D.Link;
      ghost var pools := PoolsView();
      ghost var goal := D.MoveChains(pools, chain + rest, t[..]);
      assert chain[0..] == chain;
      for j := 0 to |chain|
        invariant Own() && PoolsView() == pools && goal == D.MoveChains(pools, chain[j..] + rest, t[..])
      {
        ghost var before := t[..];
        assert (chain[j..] + rest)[1..] == chain[j + 1..] + rest;
        var key := KeyOf(chain[j]);
        t[key % t.Length] := D.Link(t[key % t.Length], chain[j]);
        assert t[..] == before[key % t.Length := D.Link(before[key % t.Length], chain[j])];
      }
      assert chain[|chain|..] + rest == rest;
    }

    /** xmlDictLookup. */
    method Lookup(buf: D.Bytes, len: nat) returns (p: D.Ptr)
      requires Valid() && buf != [] && len <= |buf|
      modifies Repr
      ensures Valid() && fresh(Repr - old(Repr)) && SubView() == old(SubView())
      ensures (View(), p) == D.Lookup(old(View()), old(SubView()), buf, len)
    {
      hide PoolsView, D.Exists, D.Append, D.Grow, D.ComputeKey;
      var found := Exists(buf, len);
      if found.Some? { return found.value; }
      var okey := D.ComputeKey(buf, len);
      var key := okey % table.Length;
      var nbi := if |table[key]| == 0 then 0 else |table[key]| - 1;
      if subdict != null {
        var n := |subdict.table[okey % subdict.table.Length]|;
        nbi := nbi + if n == 0 then 0 else n - 1;
      }
      p := Append(buf, len, key);
      if nbi > D.MAX_HASH_LEN && table.Length <= (D.MAX_DICT_HASH / 2) / D.MAX_HASH_LEN {
        GrowIfInRange(D.MAX_HASH_LEN * 2 * table.Length);
      }
    }

    method Append(buf: D.Bytes, len: nat, key: nat) returns (p: D.Ptr)
      requires Own() && buf != [] && len <= |buf| && key == D.ComputeKey(buf, len) % table.Length
      modifies Repr
      ensures Own() && fresh(Repr - old(Repr)) && table == old(table)
      ensures (View(), p) == D.Append(old(View()), buf, len)
    {
      hide PoolsView, D.AddString, D.ComputeKey;
      p := AddString(buf[..len]);
      LinkEntry(key, D.Entry(p, len));
    }

    method LinkEntry(key: nat, e: D.Entry)
      requires Own() && key < table.Length
      modifies table, `nbElems
      ensures Own() && PoolsView() == old(PoolsView()) && nbElems == old(nbElems) + 1
      ensures table[..] == old(table[..])[key := old(table[..])[key] + [e]]
    {
      ghost var pools, was := PoolsView(), table[..];
      table[key] := table[key] + [e];
      nbElems := nbElems + 1;
      assert PoolsView() == pools;
      assert table[..] == was[key := was[key] + [e]];
    }

    /** The range check at the top of xmlDictGrow. */
    method GrowIfInRange(size: nat)
      requires Own()
      modifies Repr
      ensures Own() && fresh(Repr - old(Repr)) && View() == D.Grow(old(View()), size)
    {
      if 8 <= size <= 8 * 2048 { Grow(size); }
    }

    /** The loop of xmlDictFree over the table, bounded by the entry count: every overflow
        entry is freed, in order, exactly once. */
    method FreeEntries() returns (freed: seq<D.Entry>)
      requires Own() && nbElems == T.Total(table[..])
      modifies this
      ensures freed == D.Chains(old(table[..])) && nbElems == 0
    {
      hide D.Chains;
      ghost var was := table[..];
      freed := [];
      var i := 0;
      assert was[0..] == was;
      while i < table.Length && nbElems > 0
        invariant 0 <= i <= table.Length && table == old(table) && table[..] == was
        invariant nbElems == T.Total(was[i..])
        invariant D.Chains(was) == freed + D.Chains(was[i..])
      {
        ChainsStep(was, i);
        TotalStep(was, i);
        var chain := FreeChain(table[i]);
        freed := freed + chain;
        i := i + 1;
      }
      NothingLeft(was[i..]);
    }

    /** One bucket: every entry counts, and the head is part of the table. */
    method FreeChain(iter: seq<D.Entry>) returns (freed: seq<D.Entry>)
      requires |iter| <= nbElems
      modifies `nbElems
      ensures nbElems == old(nbElems) - |iter| && freed == if iter == [] then [] else iter[1..]
    {
      freed := [];
      var j := 0;
      while j < |iter|
        invariant 0 <= j <= |iter| && nbElems == old(nbElems) - j
        invariant freed == if j == 0 then [] else iter[1..j]
      {
        if j > 0 { freed := freed + [iter[j]]; }
        nbElems := nbElems - 1;
        j := j + 1;
      }
    }
  }

  // ---- one bucket more ----

  lemma HeadsStep(pools: seq<D.Pool>, was: seq<seq<D.Entry>>, i: nat, t: seq<seq<D.Entry>>)
    requires i < |was| && t != []
    ensures D.MoveHeads(pools, D.Heads(was[i..]), t)
            == if was[i] == [] then D.MoveHeads(pools, D.Heads(was[i + 1..]), t)
               else D.MoveHeads(pools, D.Heads(was[i + 1..]), t[D.KeyAt(pools, was[i][0]) % |t| := [was[i][0]]])
  {
    hide D.KeyAt;
    assert was[i..][1..] == was[i + 1..];
    assert D.Heads(was[i..]) == (if was[i] == [] then [] else [was[i][0]]) + D.Heads(was[i + 1..]);
    var heads := D.Heads(was[i..]);
    if was[i] == [] {
      assert heads == D.Heads(was[i + 1..]);
    } else {
      assert heads[0] == was[i][0] && heads[1..] == D.Heads(was[i + 1..]);
    }
  }

  lemma HeadsDone(pools: seq<D.Pool>, was: seq<seq<D.Entry>>, t: seq<seq<D.Entry>>)
    requires t != []
    ensures D.MoveHeads(pools, D.Heads(was[|was|..]), t) == t
  {
  }

  lemma ChainsStep(was: seq<seq<D.Entry>>, i: nat)
    requires i < |was|
    ensures D.Chains(was[i..]) == (if was[i] == [] then [] else was[i][1..]) + D.Chains(was[i + 1..])
  {
    assert was[i..][1..] == was[i + 1..];
  }

  lemma ChainsDone(pools: seq<D.Pool>, was: seq<seq<D.Entry>>, t: seq<seq<D.Entry>>)
    requires t != []
    ensures D.MoveChains(pools, D.Chains(was[|was|..]), t) == t
  {
  }

  lemma TotalStep(was: seq<seq<D.Entry>>, i: nat)
    requires i < |was|
    ensures T.Total(was[i..]) == |was[i]| + T.Total(was[i + 1..])
  {
    assert was[i..][1..] == was[i + 1..];
  }

  /** Once the count is exhausted, or the table, no chain is left. */
  lemma {:induction false} NothingLeft(table: seq<seq<D.Entry>>)
    requires T.Total(table) == 0
    ensures D.Chains(table) == []
  {
    if table != [] { NothingLeft(table[1..]); }
  }
}
