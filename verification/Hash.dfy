// The chained hash table of an index (src/murphy-db/mdb/hash.c).
//
// An entry hangs on the chain of its hash and on one list of all entries, along which the
// table is emptied. Both hold exactly the pairs of a finite map, `contents`: the list all
// of them, a chain those whose keys have its hash. The source keeps a pointer to the key
// in an entry; here an entry holds the key.
//
// Adding a pair walks along one chain and appends to both; deleting one takes it off
// both. A second value for a key is refused.

module ChainedHash {
  import opened Common
  import opened Keys
  import opened SortedSequence
  import opened HashFunctions

  /** A chain or entry list holds exactly the pairs of `m`, each once. */
  ghost predicate Lists(s: seq<Entry>, m: map<Key, Ptr>) {
    && (forall i | 0 <= i < |s| :: s[i].key in m && m[s[i].key] == s[i].data)
    && (forall k | k in m :: Entry(k, m[k]) in s)
    && (forall i, j | 0 <= i < j < |s| :: s[i].key != s[j].key)
  }

  class Hash {
    const keyType: KeyType
    const klen: nat
    const z: Size                       // the number of chains and its bits
    ghost const universe: iset<Key>
    ghost var contents: map<Key, Ptr>
    var entries: seq<Entry>             // the list that links all entries
    const chains: array<seq<Entry>>

    ghost predicate Valid()
      reads this, chains
    {
      && TotalOn(keyType, klen, universe) && Defined(keyType, z) && chains.Length == z.nchain
      && (forall k | k in contents :: k in universe)
      && Lists(entries, contents)
      && forall c | 0 <= c < chains.Length :: Lists(chains[c], InChain(contents, c))
    }

    /** The part of the contents that belongs to one chain. */
    ghost function InChain(m: map<Key, Ptr>, c: nat): map<Key, Ptr>
      requires Defined(keyType, z)
    {
      map k | k in m && ChainOf(keyType, z, k) == c :: m[k]
    }

    /** mdb_hash_table_create; beyond 251 entries the string and blob hash are undefined. */
    constructor (maxEntries: nat, keyType: KeyType, klen: nat, ghost universe: iset<Key>)
      requires TotalOn(keyType, klen, universe) && 1 < maxEntries < 65536
      requires keyType.VarcharKey? || keyType.BlobKey? ==> maxEntries <= 251
      ensures Valid() && contents == map[] && fresh(chains)
      ensures this.keyType == keyType && this.klen == klen && this.universe == universe
      ensures maxEntries == 100 ==> z == Size(101, 7)
    {
      hide SIZES, HashFunctions.Fits, Power2, ChainOf, TotalOn;
      var ts := TableSize(maxEntries);
      this.keyType, this.klen, this.z, this.universe := keyType, klen, ts, universe;
      entries, contents := [], map[];
      chains := new seq<Entry>[ts.nchain](_ => []);
    }

    lemma {:induction false} ChainKeys(key: Key)
      requires Valid() && key in universe
      ensures var chain := chains[ChainOf(keyType, z, key)];
              && (forall i | 0 <= i < |chain| :: chain[i].key in universe)
              && (forall i | 0 <= i < |chain| && chain[i].key == key ::
                    key in contents && chain[i].data == contents[key])
              && (key in contents ==> Entry(key, contents[key]) in chain)
    {
      var chain, mine := chains[ChainOf(keyType, z, key)], InChain(contents, ChainOf(keyType, z, key));
      assert Lists(chain, mine) && (key in contents ==> Entry(key, mine[key]) in chain);
    }

    /** A chain holds the entries of the keys that hash to it. */
    lemma {:induction false} ChainEntries(key: Key)
      requires Valid()
      ensures Defined(keyType, z) && ChainOf(keyType, z, key) < chains.Length
      ensures forall e | e in chains[ChainOf(keyType, z, key)] ::
                e.key in contents && contents[e.key] == e.data && ChainOf(keyType, z, e.key) == ChainOf(keyType, z, key)
      ensures key in contents ==> Entry(key, contents[key]) in chains[ChainOf(keyType, z, key)]
    {
      hide ChainOf, TotalOn;
      var mine := InChain(contents, ChainOf(keyType, z, key));
      assert Lists(chains[ChainOf(keyType, z, key)], mine);
      assert key in contents ==> key in mine && mine[key] == contents[key];
    }

    /** The walk along the chain of `key`. */
    method Lookup(key: Key) returns (at: nat)
      requires Valid() && key in universe
      ensures var chain := chains[ChainOf(keyType, z, key)];
              if key in contents then at < |chain| && chain[at] == Entry(key, contents[key]) else at == |chain|
    {
      hide Compare, TotalOn, ChainOf, Defined;
      var index := HashOf(keyType, z, key);
      var chain := chains[index];
      ChainKeys(key);
      at := 0;
      while at < |chain|
        invariant at <= |chain| && forall i | 0 <= i < at :: chain[i].key != key
      {
        EqualIffSame(keyType, klen, universe, key, chain[at].key);
        if Compare(keyType, klen, key, chain[at].key) == 0 {
          return;
        }
        at := at + 1;
      }
    }

    /** 0 when the pair is in the table afterwards, -1 when the key has another value. */
    method Add(key: Key, data: Ptr) returns (status: int)
      requires Valid() && key in universe && data != 0
      modifies this, chains
      ensures Valid()
      ensures status == if key in old(contents) && old(contents)[key] != data then -1 else 0
      ensures contents == if key in old(contents) then old(contents) else old(contents)[key := data]
    {
      hide Compare, TotalOn, Lists, ChainOf, Defined;
      var index := HashOf(keyType, z, key);
      var at := Lookup(key);
      if at < |chains[index]| {
        return if chains[index][at].data == data then 0 else -1;
      }
      var e := Entry(key, data);
      AppendLists(entries, contents, e);
      AppendLists(chains[index], InChain(contents, index), e);
      ghost var before := contents;
      chains[index] := chains[index] + [e];
      entries := entries + [e];
      contents := contents[key := data];
      assert InChain(contents, index) == InChain(before, index)[key := data];
      assert forall c | 0 <= c < chains.Length && c != index :: InChain(contents, c) == InChain(before, c);
      status := 0;
    }

    /** Unlinks the entry of `key` from its chain and from the entry list. */
    method Delete(key: Key) returns (data: Ptr)
      requires Valid() && key in universe
      modifies this, chains
      ensures Valid()
      ensures data == if key in old(contents) then old(contents)[key] else 0
      ensures contents == old(contents) - {key}
      ensures key in old(contents) ==> |entries| < |old(entries)|
    {
      hide Compare, TotalOn, Lists, ChainOf, Defined;
      var index := HashOf(keyType, z, key);
      var at := Lookup(key);
      if at == |chains[index]| {
        return 0;
      }
      data := chains[index][at].data;
      ghost var before := contents;
      var i := EntryLink(key);
      RemoveLists(entries, contents, i);
      RemoveLists(chains[index], InChain(contents, index), at);
      chains[index] := RemoveAt(chains[index], at);
      entries := RemoveAt(entries, i);
      contents := contents - {key};
      assert InChain(contents, index) == InChain(before, index) - {key};
      assert forall c | 0 <= c < chains.Length && c != index :: InChain(contents, c) == InChain(before, c);
    }

    /** The place of an entry in the entry list, which the source finds through
        the entry's own link. */
    method EntryLink(key: Key) returns (i: nat)
      requires Lists(entries, contents) && key in contents
      ensures i < |entries| && entries[i] == Entry(key, contents[key])
    {
      assert Entry(key, contents[key]) in entries;
      i := 0;
      while entries[i].key != key
        invariant i < |entries| && exists j :: i <= j < |entries| && entries[j].key == key
        decreases |entries| - i
      {
        i := i + 1;
      }
    }

    method Get(key: Key) returns (data: Ptr)
      requires Valid() && key in universe
      ensures data == if key in contents then contents[key] else 0
    {
      hide ChainOf, Defined;
      var index := HashOf(keyType, z, key);
      var at := Lookup(key);
      var chain := chains[index];
      data := if at < |chain| then chain[at].data else 0;
    }

    /** htable_reset: unlink entry by entry along the entry list. */
    method Reset()
      requires Valid()
      modifies this, chains
      ensures Valid() && contents == map[]
    {
      while entries != []
        invariant Valid()
        decreases |entries|
      {
        var data := Delete(entries[0].key);
      }
      EmptyList(contents);
    }
  }

  lemma {:induction false} EmptyList(m: map<Key, Ptr>)
    requires Lists([], m)
    ensures m == map[]
  {
    assert forall k | k in m :: Entry(k, m[k]) in [];
  }

  lemma {:induction false} AppendLists(s: seq<Entry>, m: map<Key, Ptr>, e: Entry)
    requires Lists(s, m) && e.key !in m
    ensures Lists(s + [e], m[e.key := e.data])
  {
    forall i, j | 0 <= i < j < |s + [e]| ensures (s + [e])[i].key != (s + [e])[j].key {
      assert s[i] in s;
    }
  }

  lemma {:induction false} RemovedAt(s: seq<Entry>, i: nat, j: int)
    requires i < |s|
    ensures |RemoveAt(s, i)| == |s| - 1
    ensures 0 <= j < |s| - 1 ==> RemoveAt(s, i)[j] == s[if j < i then j else j + 1]
  {
  }

  lemma {:induction false} RemoveLists(s: seq<Entry>, m: map<Key, Ptr>, i: nat)
    requires Lists(s, m) && i < |s|
    ensures Lists(RemoveAt(s, i), m - {s[i].key})
  {
    hide RemoveAt;
    var t := RemoveAt(s, i);
    RemovedAt(s, i, 0);
    forall j | 0 <= j < |t| ensures t[j] == s[if j < i then j else j + 1] {
      RemovedAt(s, i, j);
    }
    forall k | k in m - {s[i].key} ensures Entry(k, m[k]) in t {
      var j :| 0 <= j < |s| && s[j] == Entry(k, m[k]);
      RemovedAt(s, i, if j < i then j else j - 1);
    }
  }

  /** A list without repeated keys is as long as the map it lists. */
  lemma {:induction false} ListsCount(s: seq<Entry>, m: map<Key, Ptr>)
    requires Lists(s, m)
    ensures |s| == |m|
    decreases |s|
  {
    if s == [] {
      EmptyList(m);
    } else {
      var n := |s| - 1;
      RemoveLists(s, m, n);
      RemovedAt(s, n, 0);
      assert s[n].key in m.Keys && (m - {s[n].key}).Keys == m.Keys - {s[n].key};
      hide Lists, RemoveAt;
      ListsCount(RemoveAt(s, n), m - {s[n].key});
      assert |m.Keys| == |m|;
    }
  }
}
