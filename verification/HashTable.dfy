/** One chained hash table: an array of chains, the number of entries, and a mask of size - 1. */
module HashTables {
  import opened Words
  import opened Counters
  import opened Options

  type Word = w: seq<bool> | |w| == 32 witness Const(false, 32)

  /** A key together with its hash value, so that nothing is assumed about the hash function. */
  datatype Key = Key(id: int, hash: Word)

  datatype Entry<V> = Entry(key: Key, val: V)

  /** The contents of a table as a value; the class below keeps it in place. */
  datatype Table<V> = Table(buckets: seq<seq<Entry<V>>>, mask: Word, used: nat) {

    ghost predicate WellSized() {
      && 0 < |buckets| <= UINT32
      && Val(mask) == |buckets| - 1
    }

    /** The bucket a hash value belongs to. */
    function Index(h: Word): (i: nat)
      requires WellSized()
      ensures i < |buckets|
    {
      AndBound(h, mask);
      IndexOf(h, mask)
    }

    function Chain(k: Key): seq<Entry<V>>
      requires WellSized()
    {
      buckets[Index(k.hash)]
    }

    function Lookup(k: Key): Option<V>
      requires WellSized()
    {
      var p := Position(Chain(k), k);
      if p < 0 then None else Some(Chain(k)[p].val)
    }

    /** Every entry sits in the bucket of its key, and no key occurs twice. */
    ghost predicate Placed()
      requires WellSized()
    {
      && (forall i, j :: 0 <= i < |buckets| && 0 <= j < |buckets[i]| ==> Index(buckets[i][j].key.hash) == i)
      && (forall i :: 0 <= i < |buckets| ==> DistinctKeys(buckets[i]))
    }

    ghost function Keys(): set<Key> {
      set i, j | 0 <= i < |buckets| && 0 <= j < |buckets[i]| :: buckets[i][j].key
    }

    /** The map the table stands for. */
    ghost function Map(): map<Key, V>
      requires WellSized()
    {
      map k | k in Keys() && Lookup(k).Some? :: Lookup(k).value
    }

    ghost predicate Valid() {
      WellSized() && Placed() && used == |Map()|
    }

    /** The key is put at the head of its chain unless the chain already has it. */
    function Add(k: Key, v: V): Table<V>
      requires WellSized()
    {
      if Lookup(k).Some? then this
      else this.(buckets := buckets[Index(k.hash) := [Entry(k, v)] + Chain(k)], used := used + 1)
    }

    function Delete(k: Key): Table<V>
      requires WellSized()
    {
      var p := Position(Chain(k), k);
      if p < 0 then this
      else this.(buckets := buckets[Index(k.hash) := Chain(k)[..p] + Chain(k)[p + 1..]],
                used := if used == 0 then 0 else used - 1)
    }

    /** Overwrite the value of a key that is present. */
    function Update(k: Key, v: V): Table<V>
      requires WellSized()
    {
      var p := Position(Chain(k), k);
      if p < 0 then this
      else this.(buckets := buckets[Index(k.hash) := Chain(k)[p := Entry(k, v)]])
    }
  }

  function IndexOf(h: Word, mask: Word): nat { Val(And(h, mask)) }

  predicate DistinctKeys<V>(c: seq<Entry<V>>) {
    forall i, j :: 0 <= i < j < |c| ==> c[i].key != c[j].key
  }

  /** Where the key first occurs in a chain, -1 if it does not. */
  function Position<V>(c: seq<Entry<V>>, k: Key): (p: int)
    ensures -1 <= p < |c|
    ensures p >= 0 ==> c[p].key == k && forall j :: 0 <= j < p ==> c[j].key != k
    ensures p < 0 ==> forall j :: 0 <= j < |c| ==> c[j].key != k
  {
    if c == [] then -1
    else if c[0].key == k then 0
    else var p := Position(c[1..], k); if p < 0 then -1 else p + 1
  }

  /** The map holds exactly what a lookup finds. */
  lemma MapIsLookup<V>(t: Table<V>)
    requires t.WellSized()
    ensures forall k :: k in t.Map() <==> t.Lookup(k).Some?
    ensures forall k :: k in t.Map() ==> t.Map()[k] == t.Lookup(k).value
  {
    forall k | t.Lookup(k).Some? ensures k in t.Keys() {
      var p := Position(t.Chain(k), k);
      assert t.buckets[t.Index(k.hash)][p].key == k;
    }
  }

  function EmptyTable<V>(size: nat): (t: Table<V>)
    requires 0 < size <= UINT32
    ensures |t.buckets| == size && forall i :: 0 <= i < size ==> t.buckets[i] == []
  {
    Table(seq(size, i => []), ToBits(size - 1, 32), 0)
  }

  lemma EmptyTableValid<V>(size: nat)
    requires 0 < size <= UINT32
    ensures EmptyTable<V>(size).Valid() && EmptyTable<V>(size).Map() == map[]
  {
    assert Pow2(8) == 256 && Pow2(16) == 256 * Pow2(8) && Pow2(24) == 256 * Pow2(16) && Pow2(32) == 256 * Pow2(24);
    ValToBits(size - 1, 32);
    var t := EmptyTable<V>(size);
    assert t.WellSized();
    MapIsLookup(t);
    forall k ensures t.Lookup(k) == None {
      assert t.Chain(k) == [];
    }
  }

  // --- each table operation is the map operation ---------------------------------------------------

  /** Replacing one chain leaves every lookup in the other chains alone. */
  lemma SetChain<V>(t: Table<V>, k: Key, c: seq<Entry<V>>, n: nat)
    requires t.WellSized() && t.Placed() && DistinctKeys(c)
    requires forall j :: 0 <= j < |c| ==> t.Index(c[j].key.hash) == t.Index(k.hash)
    ensures var u := t.(buckets := t.buckets[t.Index(k.hash) := c], used := n);
            u.WellSized() && u.Placed() && u.Chain(k) == c &&
            forall q :: u.Lookup(q) == if t.Index(q.hash) == t.Index(k.hash) then ChainLookup(c, q) else t.Lookup(q)
  {
    hide IndexOf, Position, Val, And;
    var u := t.(buckets := t.buckets[t.Index(k.hash) := c], used := n);
  }

  function ChainLookup<V>(c: seq<Entry<V>>, k: Key): Option<V> {
    var p := Position(c, k);
    if p < 0 then None else Some(c[p].val)
  }

  lemma MapWith<V>(t: Table<V>, u: Table<V>, k: Key, v: V)
    requires t.WellSized() && t.Placed() && u.WellSized() && u.Placed()
    requires forall q :: u.Lookup(q) == if q == k then Some(v) else t.Lookup(q)
    ensures u.Map() == t.Map()[k := v]
  {
    hide IndexOf, Position, Val, And;
    MapIsLookup(t);
    MapIsLookup(u);
  }

  lemma MapWithout<V>(t: Table<V>, u: Table<V>, k: Key)
    requires t.WellSized() && t.Placed() && u.WellSized() && u.Placed()
    requires forall q :: u.Lookup(q) == if q == k then None else t.Lookup(q)
    ensures u.Map() == t.Map() - {k}
  {
    hide IndexOf, Position, Val, And;
    MapIsLookup(t);
    MapIsLookup(u);
  }

  lemma AddLookups<V>(t: Table<V>, k: Key, v: V)
    requires t.WellSized() && t.Placed() && t.Lookup(k).None?
    ensures var u := t.Add(k, v);
            && u.WellSized() && u.Placed()
            && forall q :: u.Lookup(q) == if q == k then Some(v) else t.Lookup(q)
  {
    hide IndexOf, Position, Val, And;
    var c := [Entry(k, v)] + t.Chain(k);
    SetChain(t, k, c, t.used + 1);
    assert c[1..] == t.Chain(k);
    assert c[0].key == k && Position(c, k) == 0;
    forall q | q != k ensures ChainLookup(c, q) == ChainLookup(t.Chain(k), q) {
      var p := Position(t.Chain(k), q);
      assert p >= 0 ==> c[p + 1].key == q;
    }
  }

  lemma AddIsMapAdd<V>(t: Table<V>, k: Key, v: V)
    requires t.Valid()
    ensures t.Add(k, v).Valid()
    ensures t.Add(k, v).Map() == if k in t.Map() then t.Map() else t.Map()[k := v]
  {
    hide IndexOf, Position, Val, And;
    MapIsLookup(t);
    if k !in t.Map() {
      AddLookups(t, k, v);
      MapWith(t, t.Add(k, v), k, v);
    }
  }

  lemma ChainWithout<V>(c: seq<Entry<V>>, p: nat)
    requires p < |c| && DistinctKeys(c)
    ensures var d := c[..p] + c[p + 1..];
            && DistinctKeys(d)
            && (forall j :: 0 <= j < |d| ==> d[j] in c)
            && forall q :: ChainLookup(d, q) == if q == c[p].key then None else ChainLookup(c, q)
  {
    var d := c[..p] + c[p + 1..];
    assert forall j :: 0 <= j < |d| ==> d[j] == if j < p then c[j] else c[j + 1];
    forall q ensures ChainLookup(d, q) == if q == c[p].key then None else ChainLookup(c, q) {
      var i := Position(c, q);
      if i >= 0 && i != p {
        var i' := if i < p then i else i - 1;
        assert d[i'].key == q;
      }
    }
  }

  lemma ChainOverwritten<V>(c: seq<Entry<V>>, p: nat, v: V)
    requires p < |c| && DistinctKeys(c)
    ensures var d := c[p := Entry(c[p].key, v)];
            && DistinctKeys(d)
            && forall q :: ChainLookup(d, q) == if q == c[p].key then Some(v) else ChainLookup(c, q)
  {
    hide Position;
    var d := c[p := Entry(c[p].key, v)];
    assert forall j :: 0 <= j < |c| ==> d[j].key == c[j].key;
    forall q ensures ChainLookup(d, q) == if q == c[p].key then Some(v) else ChainLookup(c, q) {
      var i, i' := Position(c, q), Position(d, q);
      assert i >= 0 ==> d[i].key == q;
      assert i' >= 0 ==> c[i'].key == q;
    }
  }

  lemma DeleteLookups<V>(t: Table<V>, k: Key)
    requires t.WellSized() && t.Placed() && t.Lookup(k).Some? && t.used > 0
    ensures var u := t.Delete(k);
            && u.WellSized() && u.Placed()
            && forall q :: u.Lookup(q) == if q == k then None else t.Lookup(q)
  {
    hide IndexOf, Position, Val, And;
    var b := t.Chain(k);
    var p := Position(b, k);
    ChainWithout(b, p);
    SetChain(t, k, b[..p] + b[p + 1..], t.used - 1);
  }

  lemma DeleteIsMapRemove<V>(t: Table<V>, k: Key)
    requires t.Valid()
    ensures t.Delete(k).Valid()
    ensures t.Delete(k).Map() == t.Map() - {k}
  {
    hide IndexOf, Position, Val, And;
    MapIsLookup(t);
    if t.Lookup(k).Some? {
      var m := t.Map();
      assert k in m && |m| > 0;
      DeleteLookups(t, k);
      MapWithout(t, t.Delete(k), k);
      assert (m - {k}).Keys == m.Keys - {k};
    } else {
      assert t.Map() - {k} == t.Map();
    }
  }

  lemma UpdateIsMapUpdate<V>(t: Table<V>, k: Key, v: V)
    requires t.Valid()
    ensures t.Update(k, v).Valid()
    ensures t.Update(k, v).Map() == if k in t.Map() then t.Map()[k := v] else t.Map()
  {
    hide IndexOf, Position, Val, And;
    MapIsLookup(t);
    if k in t.Map() {
      var b := t.Chain(k);
      var p := Position(b, k);
      ChainOverwritten(b, p, v);
      SetChain(t, k, b[p := Entry(k, v)], t.used);
      MapWith(t, t.Update(k, v), k, v);
      assert t.Update(k, v).Map().Keys == t.Map().Keys;
    }
  }

  /** The walk along a chain, one entry further. */
  lemma PositionFrom<V>(chain: seq<Entry<V>>, key: Key, p: nat)
    requires p < |chain|
    ensures chain[p].key == key ==> Position(chain[p..], key) == 0
    ensures chain[p].key != key ==>
              Position(chain[p..], key) ==
              if Position(chain[p + 1..], key) < 0 then -1 else 1 + Position(chain[p + 1..], key)
  {
    assert chain[p..][1..] == chain[p + 1..];
  }

  lemma PositionNone<V>(chain: seq<Entry<V>>, key: Key)
    ensures Position(chain[|chain|..], key) == -1 && chain[0..] == chain
  {
  }

  /** What a deletion makes of the buckets. */
  lemma DeleteAt<V>(t: Table<V>, k: Key)
    requires t.Valid() && 0 <= Position(t.Chain(k), k)
    ensures var p, i := Position(t.Chain(k), k), t.Index(k.hash);
            && k in t.Map() && t.used > 0
            && t.Delete(k) == t.(buckets := t.buckets[i := t.buckets[i][..p] + t.buckets[i][p + 1..]],
                              used := t.used - 1)
  {
    hide IndexOf, And, Val, Position, Table.Map, Table.Placed;
    MapIsLookup(t);
  }

  // --- when a table asks to be resized --------------------------------------------------------------

  const NEED_FORCE_REHASH_RATIO: nat := 5
  const HASHTABLE_MIN_FILL: nat := 10

  predicate NeedExpand(size: nat, used: nat, canResize: bool) {
    || (canResize && used > size)
    || (!canResize && used > Wrap(size * NEED_FORCE_REHASH_RATIO))
  }

  predicate NeedShrink(init: nat, size: nat, used: nat, canResize: bool)
    requires size > 0
  {
    canResize && size > init && Wrap(used * 100) / size < HASHTABLE_MIN_FILL
  }

  /** The table in place. */
  class HashTable<V> {
    const size: nat
    const mask: Word
    const table: array<seq<Entry<V>>>
    var used: nat

    ghost function View(): Table<V>
      reads this, table
    {
      Table(table[..], mask, used)
    }

    ghost predicate Valid()
      reads this, table
    {
      size == table.Length && View().Valid()
    }

    constructor (size: nat)
      requires 0 < size <= UINT32
      ensures Valid() && this.size == size && View() == EmptyTable(size) && View().Map() == map[]
      ensures fresh(table)
    {
      this.size := size;
      table := new seq<Entry<V>>[size];
      used := 0;
      mask := ToBits(size - 1, 32);
      new;
      for i := 0 to size
        invariant used == 0 && forall j :: 0 <= j < i ==> table[j] == []
      {
        table[i] := [];
      }
      EmptyTableValid<V>(size);
      assert View().buckets == EmptyTable<V>(size).buckets;
    }

    function Bucket(h: Word): (i: nat)
      reads this, table
      requires Valid()
      ensures i < table.Length && i == View().Index(h)
    {
      AndBound(h, mask);
      IndexOf(h, mask)
    }

    /** Walk the key's chain; the result is the key's place in it, -1 if the key is not there. */
    method FindEntry(key: Key) returns (p: int)
      requires Valid()
      ensures p == Position(View().Chain(key), key)
      ensures p >= 0 <==> key in View().Map()
      ensures p >= 0 ==> View().Chain(key)[p].val == View().Map()[key]
    {
      hide IndexOf, And, Val, Table.Map, Table.Placed, Position;
      MapIsLookup(View());
      var chain := table[Bucket(key.hash)];
      p := 0;
      while p < |chain|
        invariant 0 <= p <= |chain|
        invariant Position(chain, key) == if Position(chain[p..], key) < 0 then -1 else p + Position(chain[p..], key)
      {
        PositionFrom(chain, key, p);
        if chain[p].key == key {
          return;
        }
        p := p + 1;
      }
      PositionNone(chain, key);
      p := -1;
    }

    /** Put a new key at the head of its chain: 1, or -1 when the key is already there. */
    method AddEntry(key: Key, val: V) returns (res: int)
      requires Valid()
      modifies `used, table
      ensures Valid() && View() == old(View()).Add(key, val)
      ensures View().Map() == if key in old(View().Map()) then old(View().Map()) else old(View().Map())[key := val]
      ensures res == if key in old(View().Map()) then -1 else 1
    {
      hide IndexOf, And, Val, Position, Table.Map, Table.Placed;
      AddIsMapAdd(View(), key, val);
      var index := Bucket(key.hash);
      var p := FindEntry(key);
      if p >= 0 {
        return -1;
      }
      table[index] := [Entry(key, val)] + table[index];
      used := used + 1;
      assert View().buckets == old(View()).Add(key, val).buckets;
      return 1;
    }

    /** Link the chain around the entry at place `p`. */
    method Unlink(key: Key, p: nat)
      requires Valid() && p == Position(View().Chain(key), key)
      modifies `used, table
      ensures Valid() && View() == old(View()).Delete(key)
      ensures View().Map() == old(View().Map()) - {key}
    {
      hide IndexOf, And, Val, Position, Table.Map, Table.Placed, Table.Delete;
      ghost var t := View();
      DeleteIsMapRemove(t, key);
      DeleteAt(t, key);
      var index := Bucket(key.hash);
      table[index] := table[index][..p] + table[index][p + 1..];
      used := used - 1;
    }

    /** The walk of a deletion: the head of the chain first, then the successor of each node. */
    method Locate(key: Key) returns (p: int)
      requires Valid()
      ensures p == Position(View().Chain(key), key)
    {
      hide IndexOf, And, Val, Position, Table.Map, Table.Placed;
      var node := table[Bucket(key.hash)];
      if node == [] {
        return -1;
      }
      if node[0].key == key {
        return 0;
      }
      var n := 0;
      while n + 1 < |node|
        invariant 0 <= n < |node|
        invariant forall j :: 0 <= j <= n ==> node[j].key != key
      {
        if node[n + 1].key == key {
          return n + 1;
        }
        n := n + 1;
      }
      return -1;
    }

    /** Take the key out of its chain: 1, or -1 when the key is not there. */
    method DeleteEntry(key: Key) returns (res: int)
      requires Valid()
      modifies `used, table
      ensures Valid() && View() == old(View()).Delete(key)
      ensures View().Map() == old(View().Map()) - {key}
      ensures res == if key in old(View().Map()) then 1 else -1
    {
      hide IndexOf, And, Val, Position;
      MapIsLookup(View());
      var p := Locate(key);
      if p >= 0 {
        Unlink(key, p);
        return 1;
      }
      DeleteIsMapRemove(View(), key);
      return -1;
    }

    /** Overwrite the value of an entry that was found. */
    method SetVal(key: Key, p: nat, val: V)
      requires Valid() && p == Position(View().Chain(key), key)
      modifies table
      ensures Valid() && View() == old(View()).Update(key, val)
      ensures View().Map() == old(View().Map())[key := val]
    {
      hide IndexOf, And, Val, Position, Table.Map, Table.Placed;
      UpdateIsMapUpdate(View(), key, val);
      MapIsLookup(View());
      assert key in View().Map();
      var index := Bucket(key.hash);
      table[index] := table[index][p := Entry(key, val)];
      assert View().buckets == old(View()).Update(key, val).buckets;
    }

    /** Hand every entry of one bucket to the scan callback, in chain order. */
    method ScanEntries(index: nat, seen: seq<Entry<V>>) returns (seen': seq<Entry<V>>)
      requires Valid() && index < table.Length
      ensures seen' == seen + View().buckets[index]
    {
      hide IndexOf, And, Val, Position, Table.Map, Table.Placed;
      var node := table[index];
      var i := 0;
      seen' := seen;
      while i < |node|
        invariant 0 <= i <= |node| && seen' == seen + node[..i]
      {
        seen' := seen' + [node[i]];
        i := i + 1;
      }
    }
  }
}
