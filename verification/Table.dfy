// One table: its row list, its hash index and its sorted index (src/murphy-db/mdb/row.c,
// index.c, table.c and the undo primitives of transaction.c).

module RowTable {
  import opened Arithmetic
  import opened Common
  import opened LinkedLists
  import opened Keys
  import opened SortedSequence
  import opened HashFunctions
  import opened ChainedHash
  import opened TableStore

  /** The index holds exactly the rows of `linked`, each under its current key. */
  ghost predicate IndexOf(lay: Layout, mem: map<Ptr, Bytes>, linked: set<Ptr>, m: map<Key, Ptr>)
    requires lay.Indexed? && lay.Valid() && linked <= mem.Keys && forall p | p in mem :: lay.Fits(mem[p])
  {
    && (forall p | p in linked :: KeyOf(lay, mem[p]) in m && m[KeyOf(lay, mem[p])] == p)
    && (forall k | k in m :: m[k] in linked && KeyOf(lay, mem[m[k]]) == k)
  }

  lemma {:induction false} InsertLists(s: seq<Entry>, m: map<Key, Ptr>, i: nat, e: Entry)
    requires Lists(s, m) && e.key !in m && i <= |s|
    ensures Lists(InsertAt(s, i, e), m[e.key := e.data])
  {
    var t, m' := InsertAt(s, i, e), m[e.key := e.data];
    forall j | 0 <= j < |t| ensures t[j].key in m' && m'[t[j].key] == t[j].data && (j != i ==> t[j].key in m) {
      InsertedAt(s, i, e, j);
    }
    forall k | k in m' ensures Entry(k, m'[k]) in t {
      if k == e.key {
        assert t[i] == e;
      } else {
        var j :| 0 <= j < |s| && s[j] == Entry(k, m[k]);
        InsertedAt(s, i, e, if j < i then j else j + 1);
      }
    }
    forall j, l | 0 <= j < l < |t| ensures t[j].key != t[l].key {
      InsertedAt(s, i, e, j);
      InsertedAt(s, i, e, l);
    }
  }

  lemma {:induction false} ListsHasKey(s: seq<Entry>, m: map<Key, Ptr>, key: Key)
    requires Lists(s, m) && key in m
    ensures HasKey(s, key)
  {
    assert Entry(key, m[key]) in s;
  }

  lemma {:induction false} ListsRemove(s: seq<Entry>, m: map<Key, Ptr>, i: nat, key: Key)
    requires Lists(s, m) && i < |s| && s[i].key == key
    ensures key in m && s[i].data == m[key] && Lists(RemoveAt(s, i), m - {key})
  {
    RemoveLists(s, m, i);
  }

  lemma {:induction false} LessKeys(m: map<Key, Ptr>, key: Key)
    requires key in m
    ensures |m - {key}| == |m| - 1
  {
    assert (m - {key}).Keys == m.Keys - {key};
    assert |m.Keys| == |m|;
  }

  lemma {:induction false} MoreKeys(m: map<Key, Ptr>, key: Key, p: Ptr)
    requires key !in m
    ensures |m[key := p]| == |m| + 1
  {
    assert m[key := p] - {key} == m;
    LessKeys(m[key := p], key);
  }

  // ----- how index agreement moves

  lemma {:induction false} IndexOfAdd(lay: Layout, mem: map<Ptr, Bytes>, linked: set<Ptr>, m: map<Key, Ptr>, p: Ptr)
    requires lay.Indexed? && lay.Valid() && linked <= mem.Keys && forall q | q in mem :: lay.Fits(mem[q])
    requires p in linked && IndexOf(lay, mem, linked - {p}, m) && KeyOf(lay, mem[p]) !in m
    ensures IndexOf(lay, mem, linked, m[KeyOf(lay, mem[p]) := p])
  {
  }

  lemma {:induction false} IndexOfDelete(lay: Layout, mem: map<Ptr, Bytes>, linked: set<Ptr>, m: map<Key, Ptr>, p: Ptr)
    requires lay.Indexed? && lay.Valid() && linked <= mem.Keys && forall q | q in mem :: lay.Fits(mem[q])
    requires p in linked && IndexOf(lay, mem, linked, m)
    ensures KeyOf(lay, mem[p]) in m && m[KeyOf(lay, mem[p])] == p
    ensures IndexOf(lay, mem, linked - {p}, m - {KeyOf(lay, mem[p])})
  {
  }

  lemma {:induction false} IndexOfAt(lay: Layout, mem: map<Ptr, Bytes>, linked: set<Ptr>, m: map<Key, Ptr>, k: Key)
    requires lay.Indexed? && lay.Valid() && linked <= mem.Keys && forall q | q in mem :: lay.Fits(mem[q])
    requires IndexOf(lay, mem, linked, m) && k in m
    ensures m[k] in linked && KeyOf(lay, mem[m[k]]) == k
  {
  }

  lemma {:induction false} IndexOfWrite(lay: Layout, mem: map<Ptr, Bytes>, linked: set<Ptr>, m: map<Key, Ptr>,
                                        p: Ptr, data: Bytes)
    requires lay.Indexed? && lay.Valid() && linked <= mem.Keys && forall q | q in mem :: lay.Fits(mem[q])
    requires IndexOf(lay, mem, linked, m) && p in linked && lay.Fits(data) && KeyOf(lay, data) == KeyOf(lay, mem[p])
    ensures IndexOf(lay, mem[p := data], linked, m)
  {
  }

  lemma {:induction false} SameKeyFree(lay: Layout, s: Store, p: Ptr, data: Bytes, m: map<Key, Ptr>)
    requires Sane(lay, s) && p in s.live && lay.Fits(data)
    requires lay.Indexed? ==> IndexOf(lay, s.mem, s.live, m) && KeyOf(lay, data) == KeyOf(lay, s.mem[p])
    ensures KeyFree(lay, s, data, {p})
  {
  }

  /** With row `p` out of the index, a key is in the index iff another row has it. */
  lemma {:induction false} IndexOfFreeKey(lay: Layout, mem: map<Ptr, Bytes>, linked: set<Ptr>, m: map<Key, Ptr>,
                                          p: Ptr, data: Bytes)
    requires lay.Indexed? && Sane(lay, Store(mem, linked)) && lay.Fits(data)
    requires IndexOf(lay, mem, linked - {p}, m)
    ensures KeyOf(lay, data) in m <==> !KeyFree(lay, Store(mem, linked), data, {p})
  {
    if KeyOf(lay, data) in m {
      assert m[KeyOf(lay, data)] in linked - {p};
    }
  }

  /** The bytes of rows outside the index do not matter. */
  lemma {:induction false} IndexOfFrame(lay: Layout, mem: map<Ptr, Bytes>, mem': map<Ptr, Bytes>, linked: set<Ptr>,
                                        m: map<Key, Ptr>)
    requires lay.Indexed? && lay.Valid() && linked <= mem.Keys && linked <= mem'.Keys
    requires (forall q | q in mem :: lay.Fits(mem[q])) && forall q | q in mem' :: lay.Fits(mem'[q])
    requires IndexOf(lay, mem, linked, m) && forall p | p in linked :: mem[p] == mem'[p]
    ensures IndexOf(lay, mem', linked, m)
  {
  }

  /** There are as many keys in the index as rows in the list. */
  lemma {:induction false} IndexCount(lay: Layout, mem: map<Ptr, Bytes>, linked: set<Ptr>, m: map<Key, Ptr>)
    requires lay.Indexed? && lay.Valid() && linked <= mem.Keys && forall q | q in mem :: lay.Fits(mem[q])
    requires IndexOf(lay, mem, linked, m)
    ensures |m| == |linked|
    decreases linked
  {
    if linked == {} {
      assert forall k :: k !in m;
    } else {
      var p :| p in linked;
      IndexOfDelete(lay, mem, linked, m, p);
      ghost var key := KeyOf(lay, mem[p]);
      assert (m - {key}).Keys == m.Keys - {key};
      hide IndexOf, KeyOf;
      IndexCount(lay, mem, linked - {p}, m - {key});
      assert |m.Keys| == |m|;
    }
  }

  /** New key bytes without a new place in the index. */
  predicate Unnoticed(lay: Layout, before: Bytes, after: Bytes, indexUpdate: bool)
    requires lay.Valid() && lay.Fits(before) && lay.Fits(after)
  {
    lay.Indexed? && !indexUpdate && KeyOf(lay, after) != KeyOf(lay, before)
  }

  lemma {:induction false} UnnoticedDisagrees(lay: Layout, mem: map<Ptr, Bytes>, linked: set<Ptr>, m: map<Key, Ptr>,
                                              p: Ptr, data: Bytes)
    requires lay.Indexed? && lay.Valid() && linked <= mem.Keys && forall q | q in mem :: lay.Fits(mem[q])
    requires IndexOf(lay, mem, linked, m) && p in linked && lay.Fits(data)
    ensures IndexOf(lay, mem[p := data], linked, m) <==> !Unnoticed(lay, mem[p], data, false)
    ensures KeyOf(lay, mem[p]) in m && m[KeyOf(lay, mem[p])] == p
    ensures forall k | k in m && k != KeyOf(lay, mem[p]) :: m[k] != p && m[k] in mem && KeyOf(lay, mem[m[k]]) == k
  {
    if Unnoticed(lay, mem[p], data, false) {
      assert m[KeyOf(lay, mem[p])] == p;
    } else {
      IndexOfWrite(lay, mem, linked, m, p, data);
    }
  }

  // ----- the rows that survive the creation of an index

  ghost predicate RowsIn(lay: Layout, mem: map<Ptr, Bytes>, rows: seq<Ptr>) {
    lay.Indexed? && lay.Valid() && forall i | 0 <= i < |rows| :: rows[i] in mem && lay.Fits(mem[rows[i]])
  }

  /** Row number `j` is the first with its key. */
  ghost predicate FirstAt(lay: Layout, mem: map<Ptr, Bytes>, rows: seq<Ptr>, j: nat)
    requires RowsIn(lay, mem, rows) && j < |rows|
  {
    forall i | 0 <= i < j :: KeyOf(lay, mem[rows[i]]) != KeyOf(lay, mem[rows[j]])
  }

  ghost function FirstUpTo(lay: Layout, mem: map<Ptr, Bytes>, rows: seq<Ptr>, k: nat): set<Ptr>
    requires RowsIn(lay, mem, rows) && k <= |rows|
  {
    set j | 0 <= j < k && FirstAt(lay, mem, rows, j) :: rows[j]
  }

  lemma {:induction false} FirstStep(lay: Layout, mem: map<Ptr, Bytes>, rows: seq<Ptr>, k: nat)
    requires RowsIn(lay, mem, rows) && k < |rows| && NoDuplicates(rows)
    ensures FirstUpTo(lay, mem, rows, k + 1)
         == if FirstAt(lay, mem, rows, k) then FirstUpTo(lay, mem, rows, k) + {rows[k]}
           else FirstUpTo(lay, mem, rows, k)
    ensures rows[k] !in FirstUpTo(lay, mem, rows, k)
  {
    hide FirstAt;
  }

  lemma {:induction false} FirstByKey(lay: Layout, mem: map<Ptr, Bytes>, rows: seq<Ptr>, k: nat)
    requires RowsIn(lay, mem, rows) && k < |rows|
    ensures FirstAt(lay, mem, rows, k) <==>
              forall q | q in FirstUpTo(lay, mem, rows, k) :: KeyOf(lay, mem[q]) != KeyOf(lay, mem[rows[k]])
  {
    if !FirstAt(lay, mem, rows, k) {
      var i :| 0 <= i < k && KeyOf(lay, mem[rows[i]]) == KeyOf(lay, mem[rows[k]]);
      EarliestWithKey(lay, mem, rows, i, k);
    }
  }

  lemma {:induction false} FirstGrows(lay: Layout, mem: map<Ptr, Bytes>, rows: seq<Ptr>, j: nat, k: nat)
    requires RowsIn(lay, mem, rows) && j <= k <= |rows|
    ensures |FirstUpTo(lay, mem, rows, j)| <= |FirstUpTo(lay, mem, rows, k)|
  {
    var a, b := FirstUpTo(lay, mem, rows, j), FirstUpTo(lay, mem, rows, k);
    assert a <= b;
    assert b == a + (b - a);
  }

  lemma {:induction false} EarliestWithKey(lay: Layout, mem: map<Ptr, Bytes>, rows: seq<Ptr>, i: nat, k: nat)
    requires RowsIn(lay, mem, rows) && i < k <= |rows|
    ensures exists q | q in FirstUpTo(lay, mem, rows, k) :: KeyOf(lay, mem[q]) == KeyOf(lay, mem[rows[i]])
    decreases i
  {
    if FirstAt(lay, mem, rows, i) {
      assert rows[i] in FirstUpTo(lay, mem, rows, k);
    } else {
      var j :| 0 <= j < i && KeyOf(lay, mem[rows[j]]) == KeyOf(lay, mem[rows[i]]);
      EarliestWithKey(lay, mem, rows, j, k);
    }
  }

  lemma {:induction false} TakenByFirst(lay: Layout, mem: map<Ptr, Bytes>, mem0: map<Ptr, Bytes>, linked: set<Ptr>,
                                        m: map<Key, Ptr>, key: Key)
    requires lay.Indexed? && lay.Valid() && linked <= mem.Keys && forall q | q in mem :: lay.Fits(mem[q])
    requires linked <= mem0.Keys && forall q | q in linked :: mem0[q] == mem[q]
    requires IndexOf(lay, mem, linked, m)
    ensures key in m <==> exists q | q in linked :: KeyOf(lay, mem0[q]) == key
    ensures key in m ==> m[key] in linked
  {
    if key in m {
      assert m[key] in linked;
    }
  }

  /** One turn of the indexing loop on values: row `k` joins the index if no earlier row
      has its key, and is freed otherwise. */
  lemma {:induction false} FirstTurn(lay: Layout, mem: map<Ptr, Bytes>, mem0: map<Ptr, Bytes>, rows0: seq<Ptr>, k: nat,
                                     linked: set<Ptr>, m: map<Key, Ptr>)
    requires RowsIn(lay, mem0, rows0) && NoDuplicates(rows0) && k < |rows0|
    requires linked == FirstUpTo(lay, mem0, rows0, k) + Linked(rows0[k..])
    requires mem == mem0 - (Linked(rows0) - linked) && forall q | q in mem :: lay.Fits(mem[q])
    requires FirstUpTo(lay, mem0, rows0, k) <= mem.Keys && IndexOf(lay, mem, FirstUpTo(lay, mem0, rows0, k), m)
    ensures var p := rows0[k];
            var before, after := FirstUpTo(lay, mem0, rows0, k), FirstUpTo(lay, mem0, rows0, k + 1);
            && p in linked && p in mem && p !in before
            && after == (if KeyOf(lay, mem[p]) in m then before else before + {p})
            && (KeyOf(lay, mem[p]) !in m ==>
                  && after <= mem.Keys && IndexOf(lay, mem, after, m[KeyOf(lay, mem[p]) := p])
                  && linked == after + Linked(rows0[k + 1..]))
            && (KeyOf(lay, mem[p]) in m ==>
                  && m[KeyOf(lay, mem[p])] in mem
                  && after <= (mem - {p}).Keys && IndexOf(lay, mem - {p}, after, m)
                  && linked - {p} == after + Linked(rows0[k + 1..])
                  && mem - {p} == mem0 - (Linked(rows0) - (linked - {p})))
  {
    hide IndexOf, FirstAt, FirstUpTo;
    var p, before := rows0[k], FirstUpTo(lay, mem0, rows0, k);
    assert rows0[k..] == [p] + rows0[k + 1..];
    assert p in rows0[k..] && Linked(rows0[k..]) == {p} + Linked(rows0[k + 1..]);
    assert p in rows0 && p in Linked(rows0);
    FirstStep(lay, mem0, rows0, k);
    FirstByKey(lay, mem0, rows0, k);
    TakenByFirst(lay, mem, mem0, before, m, KeyOf(lay, mem[p]));
    if KeyOf(lay, mem[p]) !in m {
      assert (before + {p}) - {p} == before;
      IndexOfAdd(lay, mem, before + {p}, m, p);
    } else {
      assert forall i | k + 1 <= i < |rows0| :: rows0[i] != p;
      assert p !in rows0[k + 1..];
      IndexOfFrame(lay, mem, mem - {p}, before, m);
    }
  }

  /** The keys counted before and after the turn. */
  lemma {:induction false} TurnCount(lay: Layout, mem: map<Ptr, Bytes>, before: set<Ptr>, m: map<Key, Ptr>, p: Ptr,
                                     after: set<Ptr>)
    requires lay.Indexed? && lay.Valid() && before <= mem.Keys && forall q | q in mem :: lay.Fits(mem[q])
    requires p in mem && p !in before && IndexOf(lay, mem, before, m)
    requires after == if KeyOf(lay, mem[p]) in m then before else before + {p}
    ensures |after| == |m| + (if KeyOf(lay, mem[p]) in m then 0 else 1)
  {
    hide IndexOf;
    IndexCount(lay, mem, before, m);
  }

  class Table {
    var lay: Layout
    ghost const universe: iset<Key>     // the keys the index may meet
    var mem: map<Ptr, Bytes>            // the allocated rows
    var rows: seq<Ptr>                  // the row list, from head to tail
    var hash: Hash?
    var order: Sequence?
    ghost var Repr: set<object>

    /** mdb_table_create, the index included. */
    constructor (lay: Layout, ghost universe: iset<Key>)
      requires lay.Valid() && (lay.Indexed? ==> TotalOn(lay.keyType, lay.length, universe))
      ensures Valid() && fresh(Repr) && View() == Store(map[], {})
      ensures this.lay == lay && this.universe == universe
    {
      this.lay, this.universe := lay, universe;
      mem, rows, hash, order, Repr := map[], [], null, null, {};
      new;
      Repr := {this};
      if lay.Indexed? {
        AttachIndex(lay);
      }
      assert Linked<Ptr>([]) == {};
    }

    /** mdb_index_create: an empty hash for 100 entries and an empty sorted array. */
    method AttachIndex(newLay: Layout)
      requires RowsOk() && this in Repr && newLay.Valid() && newLay.Indexed? && newLay.dlgh == lay.dlgh
      requires TotalOn(newLay.keyType, newLay.length, universe)
      requires forall p | p in mem :: KeyOf(newLay, mem[p]) in universe
      modifies this
      ensures Shape() && fresh(Repr - old(Repr)) && lay == newLay && mem == old(mem) && rows == old(rows)
      ensures hash.contents == map[] && hash.z == Size(101, 7) && fresh(hash)
    {
      hide NoDuplicates, TotalOn, IndexOf, Defined, ChainOf, Sequence.Valid, Hash.Valid;
      lay := newLay;
      hash := new Hash(100, newLay.keyType, newLay.length, universe);
      order := new Sequence(INDEX_ROOM, newLay.keyType, newLay.length, universe);
      Repr := Repr + {hash, hash.chains, order, order.entries};
    }

    ghost function View(): Store
      reads this
    {
      Store(mem, Linked(rows))
    }

    ghost predicate RowsOk()
      reads this
    {
      && lay.Valid() && NoDuplicates(rows) && 0 !in mem
      && (forall p | p in rows :: p in mem)
      && forall p | p in mem :: lay.Fits(mem[p]) && (lay.Indexed? ==> KeyOf(lay, mem[p]) in universe)
    }

    ghost predicate IndexOk()
      reads this, Repr
    {
      && this in Repr
      && (lay.Indexed? <==> hash != null) && (lay.Indexed? <==> order != null)
      && (hash != null ==> hash in Repr && hash.chains in Repr && hash.Valid() && hash.universe == universe)
      && (order != null ==> order in Repr && order.entries in Repr && order.Valid() && order.universe == universe)
      && (hash != null && order != null ==>
            && hash.keyType == order.keyType == lay.keyType && hash.klen == order.klen == lay.length
            && hash.z == Size(101, 7) && hash.chains as object != order.entries
            && order.alloc == INDEX_ROOM && order.size <= INDEX_ROOM
            && Lists(order.contents, hash.contents))
    }

    ghost predicate Shape()
      reads this, Repr
    {
      RowsOk() && IndexOk()
    }

    /** Both indexes hold exactly the rows in the list, under their current keys. */
    ghost predicate Agrees()
      reads this, Repr
      requires Shape()
    {
      lay.Indexed? ==> IndexOf(lay, mem, Linked(rows), hash.contents)
    }

    ghost predicate Valid()
      reads this, Repr
    {
      Shape() && Agrees()
    }

    lemma {:induction false} ValidParts()
      requires Valid()
      ensures Shape() && Agrees()
    {
    }

    lemma {:induction false} ShapeParts()
      requires Shape()
      ensures Sane(lay, View()) && this in Repr && (Valid() <==> Agrees())
    {
      hide Lists, Hash.Valid, Sequence.Valid, IndexOf;
    }

    /** Agreement implies that keys are unique and that there are at most 16. */
    lemma {:induction false} ValidIsGood()
      requires Valid()
      ensures Sane(lay, View()) && Good(lay, View())
    {
      if lay.Indexed? {
        CountKeys();
        IndexCount(lay, mem, Linked(rows), hash.contents);
      }
    }

    /** The sorted array never holds more than one allocation step. */
    lemma {:induction false} CountKeys()
      requires Shape() && lay.Indexed?
      ensures order.intact && |hash.contents| <= INDEX_ROOM && (order.HasRoom() <==> |hash.contents| < INDEX_ROOM)
    {
      ListsCount(order.contents, hash.contents);
      order.RoomOfOneStep();
    }

    /** A key is known to the index, or there is room for one more. */
    ghost predicate HasPlace(p: Ptr)
      reads this, Repr
      requires Shape() && p in mem
    {
      KeyTaken(p) || !lay.Indexed? || |hash.contents| < INDEX_ROOM
    }

    // ----- keys are read in the rows

    /** A walk along the chain of `key` that reads the keys where the entries point,
        in the rows, stops at the entry of row `p`. */
    ghost predicate Reaches(key: Key, p: Ptr)
      reads this, Repr
      requires Shape() && lay.Indexed? && p in mem
    {
      && Defined(hash.keyType, hash.z) && ChainOf(hash.keyType, hash.z, key) < hash.chains.Length
      && KeyOf(lay, mem[p]) == key && exists e :: e in hash.chains[ChainOf(hash.keyType, hash.z, key)] && e.data == p
    }

    /** While the index agrees with the rows, the keys of its entries are those in the
        rows, so that the walk finds what the index holds. */
    lemma {:induction false} ReachesIff(key: Key, p: Ptr)
      requires Valid() && lay.Indexed? && p in mem
      ensures Reaches(key, p) <==> key in hash.contents && hash.contents[key] == p
      ensures forall e | e in order.contents :: e.data in mem && KeyOf(lay, mem[e.data]) == e.key
    {
      hide Defined, ChainOf, Hash.Valid, Sequence.Valid, NoDuplicates;
      hash.ChainEntries(key);
      forall e | e in order.contents ensures e.data in mem && KeyOf(lay, mem[e.data]) == e.key {
        var i :| 0 <= i < |order.contents| && order.contents[i] == e;
      }
    }

    /** The index holds row `p` under the key `before`, which is no longer its key, and
        every other row under its own. */
    ghost predicate Missed(p: Ptr, before: Key)
      reads this, Repr
      requires Shape() && lay.Indexed? && p in mem
    {
      && KeyOf(lay, mem[p]) != before && before in hash.contents && hash.contents[before] == p
      && forall k | k in hash.contents && k != before ::
           hash.contents[k] != p && hash.contents[k] in mem && KeyOf(lay, mem[hash.contents[k]]) == k
    }

    /** Once the index has missed the new key of a row, no row is found under the old key,
        and the row is found under the new one exactly if both hash to the same chain. */
    lemma {:induction false} ReachesMissed(p: Ptr, before: Key)
      requires Shape() && lay.Indexed? && p in mem && Missed(p, before)
      ensures !Agrees() && forall q | q in mem :: !Reaches(before, q)
      ensures Reaches(KeyOf(lay, mem[p]), p) <==>
                ChainOf(lay.keyType, hash.z, KeyOf(lay, mem[p])) == ChainOf(lay.keyType, hash.z, before)
    {
      hide Defined, ChainOf, Hash.Valid, Sequence.Valid, NoDuplicates, Lists;
      hash.ChainEntries(before);
      hash.ChainEntries(KeyOf(lay, mem[p]));
    }

    // ----- index.c

    /** mdb_hash_add and mdb_sequence_add of a key that is not in the index. The 17th
        key makes the source write outside the sorted array. */
    method IndexAdd(p: Ptr)
      requires Shape() && lay.Indexed? && p in mem && KeyOf(lay, mem[p]) !in hash.contents
      modifies Repr
      ensures Shape() <==> old(|hash.contents|) < INDEX_ROOM
      ensures order == old(order) && (order.intact <==> old(|hash.contents|) < INDEX_ROOM) && fresh(Repr - old(Repr))
      ensures lay == old(lay) && mem == old(mem) && rows == old(rows) && hash == old(hash)
      ensures hash.contents == old(hash.contents)[KeyOf(lay, mem[p]) := p]
    {
      hide IndexOf, Lists, Hash.Valid, Sequence.Valid, Sequence.HasRoom, TotalOn;
      CountKeys();
      var key := KeyOf(lay, mem[p]);
      ghost var m := hash.contents;
      ghost var room := order.HasRoom();
      var s := hash.Add(key, p);
      ghost var i := order.Add(key, p);
      if room {
        InsertLists(old(order.contents), m, i, Entry(key, p));
      }
      Repr := Repr + {order.entries};
    }

    /** mdb_hash_delete and mdb_sequence_delete; both must yield the row. */
    method IndexDelete(p: Ptr) returns (status: int)
      requires Shape() && p in mem
      requires lay.Indexed? ==> KeyOf(lay, mem[p]) in hash.contents && hash.contents[KeyOf(lay, mem[p])] == p
      modifies Repr
      ensures Shape() && fresh(Repr - old(Repr)) && status == 0
      ensures lay == old(lay) && mem == old(mem) && rows == old(rows) && hash == old(hash)
      ensures lay.Indexed? ==> hash.contents == old(hash.contents) - {KeyOf(lay, mem[p])}
    {
      hide Lists, TotalOn;
      if !lay.Indexed? {
        return 0;
      }

      var key := KeyOf(lay, mem[p]);
      ghost var s0, m0 := order.contents, hash.contents;
      ListsHasKey(s0, m0, key);
      var row := hash.Delete(key);
      var row2, i := order.Delete(key);
      ListsRemove(s0, m0, i, key);
      Repr := Repr + {order.entries};
      status := if row != p || row2 != p then -1 else 0;
    }

    method IndexReset()
      requires Shape()
      modifies Repr
      ensures Shape() && fresh(Repr - old(Repr))
      ensures lay == old(lay) && mem == old(mem) && rows == old(rows) && hash == old(hash)
      ensures lay.Indexed? ==> hash.contents == map[]
    {
      if lay.Indexed? {
        hash.Reset();
        order.Reset();
        Repr := Repr + {order.entries};
      }
    }

    /** The index as it is while row `p` is being put into it. */
    ghost predicate AgreesWithout(p: Ptr)
      reads this, Repr
      requires Shape()
    {
      lay.Indexed? ==> IndexOf(lay, mem, Linked(rows) - {p}, hash.contents)
    }

    ghost predicate KeyTaken(p: Ptr)
      reads this, Repr
      requires Shape() && p in mem
    {
      lay.Indexed? && KeyOf(lay, mem[p]) in hash.contents
    }

    /** mdb_index_insert. A duplicate is replaced by the row with `ignore`, inside a
        transaction only, and otherwise makes the row go away. A new key needs room. */
    method IndexInsert(p: Ptr, ignore: bool, depth: nat) returns (status: int, replaced: Ptr)
      requires Shape() && p in mem && p in rows && AgreesWithout(p)
      modifies Repr
      ensures Shape() <==> old(HasPlace(p))
      ensures fresh(Repr - old(Repr)) && lay == old(lay) && hash == old(hash)
      ensures status == if !old(KeyTaken(p)) then 1 else if ignore && depth > 0 then 0 else -1
      ensures Shape() && !(status == -1 && ignore) ==> Agrees()
      ensures status == 0 ==> replaced == old(hash.contents[KeyOf(lay, mem[p])])
      ensures rows == if status == 0 then Unlink(old(rows), replaced)
                      else if status == -1 && !ignore then Unlink(old(rows), p) else old(rows)
      ensures View() == if status == 0 then Store(old(mem), Linked(old(rows)) - {replaced})
                        else if status == -1 && !ignore then Store(old(mem) - {p}, Linked(old(rows)) - {p})
                        else old(View())
    {
      hide IndexOf, Lists, Hash.Valid, Sequence.Valid;
      replaced := 0;
      if !lay.Indexed? {
        return 1, 0;
      }
      var key := KeyOf(lay, mem[p]);
      var old_ := hash.Get(key);
      if key in hash.contents {
        IndexOfAt(lay, mem, Linked(rows) - {p}, hash.contents, key);
      }
      if old_ == 0 {
        IndexNew(p);
        status := 1;
      } else if ignore {
        if depth < 1 {
          return -1, 0;
        }
        replaced := old_;
        ReplaceInIndex(p, replaced);
        status := 0;
      } else {
        DropDuplicate(p);
        status := -1;
      }
    }

    /** A row with a new key enters the index. */
    method IndexNew(p: Ptr)
      requires Shape() && lay.Indexed? && p in rows && AgreesWithout(p) && !KeyTaken(p)
      modifies Repr
      ensures Shape() <==> old(|hash.contents|) < INDEX_ROOM
      ensures fresh(Repr - old(Repr)) && lay == old(lay) && hash == old(hash) && (Shape() ==> Agrees())
      ensures mem == old(mem) && rows == old(rows)
    {
      hide IndexOf, Lists, Hash.Valid, Sequence.Valid;
      IndexOfAdd(lay, mem, Linked(rows), hash.contents, p);
      IndexAdd(p);
    }

    /** A row whose key is taken is freed. */
    method DropDuplicate(p: Ptr)
      requires Shape() && lay.Indexed? && p in rows && AgreesWithout(p)
      modifies `rows, `mem
      ensures Shape() && Agrees() && rows == Unlink(old(rows), p)
      ensures View() == Store(old(mem) - {p}, Linked(old(rows)) - {p})
    {
      hide IndexOf, Lists, Hash.Valid, Sequence.Valid;
      IndexOfFrame(lay, mem, mem - {p}, Linked(rows) - {p}, hash.contents);
      Unhook(p, true);
    }

    /** The duplicate leaves the index and the row list, but not the memory. */
    method ReplaceInIndex(p: Ptr, replaced: Ptr)
      requires Shape() && lay.Indexed? && p in rows && replaced in rows && p != replaced && AgreesWithout(p)
      requires KeyOf(lay, mem[p]) == KeyOf(lay, mem[replaced])
      modifies Repr
      ensures Shape() && fresh(Repr - old(Repr)) && lay == old(lay) && hash == old(hash) && Agrees()
      ensures View() == Store(old(mem), Linked(old(rows)) - {replaced}) && rows == Unlink(old(rows), replaced)
    {
      hide IndexOf, Lists, Hash.Valid, Sequence.Valid, NoDuplicates;
      ghost var linked := Linked(rows);
      IndexOfDelete(lay, mem, linked - {p}, hash.contents, replaced);
      assert linked - {p} - {replaced} == linked - {replaced} - {p};
      CountKeys();
      LessKeys(hash.contents, KeyOf(lay, mem[replaced]));
      var status := IndexDelete(replaced);
      Unhook(replaced, false);
      IndexOfAdd(lay, mem, linked - {replaced}, hash.contents, p);
      IndexAdd(p);
    }

    // ----- row.c

    /** mdb_row_delete */
    method RowDelete(p: Ptr, indexUpdate: bool, freeIt: bool) returns (status: int)
      requires Shape() && p in mem
      requires indexUpdate && lay.Indexed? ==>
                 KeyOf(lay, mem[p]) in hash.contents && hash.contents[KeyOf(lay, mem[p])] == p
      modifies Repr
      ensures Shape() && fresh(Repr - old(Repr)) && lay == old(lay) && hash == old(hash) && status == 0
      ensures rows == Unlink(old(rows), p)
      ensures View() == Store(if freeIt then old(mem) - {p} else old(mem), Linked(old(rows)) - {p})
      ensures lay.Indexed? ==>
                hash.contents == if indexUpdate then old(hash.contents) - {old(KeyOf(lay, mem[p]))}
                                 else old(hash.contents)
    {
      hide IndexOf, Lists, Hash.Valid, Sequence.Valid, NoDuplicates;
      status := 0;
      if indexUpdate {
        status := IndexDelete(p);
      }
      Unhook(p, freeIt);
    }

    /** The row leaves the list and, perhaps, the memory. */
    method Unhook(p: Ptr, freeIt: bool)
      requires RowsOk() && p in mem
      modifies `rows, `mem
      ensures RowsOk() && rows == Unlink(old(rows), p)
      ensures View() == Store(if freeIt then old(mem) - {p} else old(mem), Linked(old(rows)) - {p})
    {
      UnlinkRemoves(rows, p);
      rows := Unlink(rows, p);
      assert forall q | q in rows :: q in Linked(rows);
      if freeIt {
        mem := mem - {p};
      }
    }

    /** malloc: an address that is not in use. */
    method Allocate() returns (p: Ptr)
      ensures Fresh(View(), p)
    {
      ghost var bound := LargestOf(mem.Keys);
      assert bound + 1 != 0 && bound + 1 !in mem.Keys;
      p :| p != 0 && p !in mem.Keys;
    }

    /** mdb_row_create, and mdb_row_update writing the columns of the new row, which is
        the last of the list. */
    method RowCreate(data: Bytes) returns (p: Ptr)
      requires Valid() && lay.Fits(data) && (lay.Indexed? ==> KeyOf(lay, data) in universe)
      modifies `mem, `rows
      ensures Shape() && Fresh(old(View()), p) && AgreesWithout(p) && p in rows
      ensures View() == Store(old(mem)[p := data], Linked(old(rows)) + {p}) && rows == old(rows) + [p]
    {
      p := Allocate();
      AppendLinks(rows, p);
      rows := rows + [p];
      mem := mem[p := data];
      assert Linked(rows) - {p} == Linked(old(rows));
    }

    /** mdb_row_duplicate */
    method RowDuplicate(p: Ptr) returns (copy: Ptr)
      requires Shape() && p in mem
      modifies `mem
      ensures Shape() && (Agrees() <==> old(Agrees())) && Fresh(old(View()), copy)
      ensures mem == old(mem)[copy := old(mem)[p]] && rows == old(rows)
    {
      hide NoDuplicates, Lists, Hash.Valid, Sequence.Valid;
      copy := Allocate();
      mem := mem[copy := mem[p]];
    }

    /** mdb_row_update on a row in the list. With the index, a key that another row has
        makes the row go away; without, a new key leaves the index behind. */
    method RowUpdate(p: Ptr, data: Bytes, indexUpdate: bool)
      requires Shape() && (indexUpdate ==> Agrees())
      requires p in rows && lay.Fits(data) && (lay.Indexed? ==> KeyOf(lay, data) in universe)
      modifies Repr
      ensures Shape() && fresh(Repr - old(Repr)) && lay == old(lay)
      ensures old(Agrees()) ==> (Agrees() <==> !old(Unnoticed(lay, mem[p], data, indexUpdate)))
      ensures View() == if indexUpdate && !old(KeyFree(lay, View(), data, {p}))
                        then Store(old(mem) - {p}, Linked(old(rows)) - {p})
                        else Store(old(mem)[p := data], old(View().live))
      ensures rows == if indexUpdate && !old(KeyFree(lay, View(), data, {p})) then Unlink(old(rows), p) else old(rows)
      ensures !indexUpdate ==> Repr == old(Repr) && hash == old(hash) && order == old(order) && unchanged(Repr - {this})
      ensures old(Agrees() && Unnoticed(lay, mem[p], data, indexUpdate)) ==> Missed(p, old(KeyOf(lay, mem[p])))
    {
      if indexUpdate && lay.Indexed? {
        var status := Reindex(p, data);
      } else {
        WriteInPlace(p, data);
      }
    }

    /** Out of the index, new bytes, back into the index. */
    method Reindex(p: Ptr, data: Bytes) returns (status: int)
      requires Valid() && lay.Indexed? && p in rows && lay.Fits(data) && KeyOf(lay, data) in universe
      modifies Repr
      ensures Valid() && fresh(Repr - old(Repr)) && lay == old(lay)
      ensures status == if old(KeyFree(lay, View(), data, {p})) then 1 else -1
      ensures View() == if status == 1 then Store(old(mem)[p := data], old(View().live))
                        else Store(old(mem) - {p}, Linked(old(rows)) - {p})
      ensures rows == if status == 1 then old(rows) else Unlink(old(rows), p)
    {
      hide IndexOf, KeyFree, Lists, Hash.Valid, Sequence.Valid;
      Rekey(p, data);
      var replaced;
      status, replaced := IndexInsert(p, false, 0);
      assert old(mem)[p := data] - {p} == old(mem) - {p};
    }

    method Rekey(p: Ptr, data: Bytes)
      requires Valid() && lay.Indexed? && p in rows && lay.Fits(data) && KeyOf(lay, data) in universe
      modifies Repr
      ensures Shape() && fresh(Repr - old(Repr)) && lay == old(lay)
      ensures View() == Store(old(mem)[p := data], old(View().live)) && rows == old(rows)
      ensures AgreesWithout(p) && HasPlace(p) && (KeyTaken(p) <==> !old(KeyFree(lay, View(), data, {p})))
    {
      hide IndexOf, KeyFree, Lists, Hash.Valid, Sequence.Valid, NoDuplicates;
      IndexOfDelete(lay, mem, Linked(rows), hash.contents, p);
      CountKeys();
      LessKeys(hash.contents, KeyOf(lay, mem[p]));
      var status := IndexDelete(p);
      IndexOfFrame(lay, mem, mem[p := data], Linked(rows) - {p}, hash.contents);
      IndexOfFreeKey(lay, mem, Linked(rows), hash.contents, p, data);
      mem := mem[p := data];
    }

    method WriteInPlace(p: Ptr, data: Bytes)
      requires Shape() && p in rows && lay.Fits(data) && (lay.Indexed? ==> KeyOf(lay, data) in universe)
      modifies `mem
      ensures Shape() && mem == old(mem)[p := data] && rows == old(rows)
      ensures old(Agrees()) ==> (Agrees() <==> !old(Unnoticed(lay, mem[p], data, false)))
      ensures old(Agrees() && Unnoticed(lay, mem[p], data, false)) ==> Missed(p, old(KeyOf(lay, mem[p])))
    {
      hide IndexOf, Lists, Hash.Valid, Sequence.Valid;
      if lay.Indexed? && Agrees() {
        UnnoticedDisagrees(lay, mem, Linked(rows), hash.contents, p, data);
      }
      mem := mem[p := data];
    }

    /** mdb_row_copy_over; a key that another row has makes the row go away. */
    method RowCopyOver(dst: Ptr, src: Ptr) returns (status: int)
      requires Valid() && dst in rows && src in mem
      modifies Repr
      ensures Valid() && fresh(Repr - old(Repr)) && lay == old(lay)
      ensures status == if old(KeyFree(lay, View(), mem[src], {dst})) then 0 else -1
      ensures View() == if status == 0 then Store(old(mem)[dst := old(mem)[src]], old(View().live))
                        else Store(old(mem) - {dst}, Linked(old(rows)) - {dst})
      ensures rows == if status == 0 then old(rows) else Unlink(old(rows), dst)
    {
      var data := mem[src];
      if !lay.Indexed? {
        WriteInPlace(dst, data);
        return 0;
      }
      status := Reindex(dst, data);
      status := if status < 0 then -1 else 0;
    }

    lemma {:induction false} NoticedIsFree(p: Ptr, data: Bytes)
      requires Valid() && p in rows && lay.Fits(data) && Sane(lay, View())
      requires !Unnoticed(lay, mem[p], data, false)
      ensures KeyFree(lay, View(), data, {p})
    {
      hide IndexOf, KeyFree, Lists, Hash.Valid, Sequence.Valid;
      SameKeyFree(lay, View(), p, data, if lay.Indexed? then hash.contents else map[]);
    }

    // ----- one row of table.c

    /** One turn of the mdb_table_insert loop; also what is to be logged. Nothing is
        said about the table once a 17th key has come to its index. */
    method Insert(data: Bytes, ignore: bool, depth: nat) returns (status: int, p: Ptr, change: Option<Change>)
      requires Valid() && lay.Fits(data) && (lay.Indexed? ==> KeyOf(lay, data) in universe)
      modifies Repr
      ensures Shape() <==> (status == 1 ==> old(Room(lay, View())))
      ensures Valid() <==> Shape() && !(status == -1 && ignore)
      ensures fresh(Repr - old(Repr)) && lay == old(lay) && Fresh(old(View()), p)
      ensures status == if old(KeyFree(lay, View(), data, {})) then 1 else if ignore && depth > 0 then 0 else -1
      ensures status == 1 ==> change == Some(Inserted(p)) && View() == Step(old(View()), Op.Insert(p, data))
      ensures status == 0 ==>
                && change.Some? && change.value.Updated? && change.value.after == p
                && Applicable(lay, old(View()), Replace(change.value.before, p, data))
                && View() == Step(old(View()), Replace(change.value.before, p, data))
      ensures status == -1 ==> change == None
      ensures status == -1 && !ignore ==> View() == old(View())
      ensures status == -1 && ignore ==>
                Sane(lay, View()) && !Distinct(lay, View()) && View() == Step(old(View()), Op.Insert(p, data))
      ensures rows == if status == 1 || (status == -1 && ignore) then old(rows) + [p]
                      else if status == 0 then Unlink(old(rows), change.value.before) + [p]
                      else old(rows)
      ensures status != -1 || ignore ==> p in mem && mem[p] == data
    {
      hide IndexOf, KeyFree, Distinct, Applicable, Lists, Hash.Valid, Sequence.Valid, NoDuplicates, Unlink, Roomy;
      ghost var s0 := View();
      ValidIsGood();
      p := RowCreate(data);
      ghost var m := if lay.Indexed? then hash.contents else map[];
      assert View().live - {p} == s0.live && View().mem - {p} == s0.mem;
      if lay.Indexed? {
        assert AgreesWithout(p);
        IndexOfFrame(lay, mem, s0.mem, s0.live, m);
        IndexCount(lay, s0.mem, s0.live, m);
      }
      InsertOutcome(lay, s0, m, p, data);
      var replaced;
      status, replaced := IndexInsert(p, ignore, depth);
      LastLeft(old(rows), p, replaced);
      change := if status == 1 then Some(Inserted(p)) else if status == 0 then Some(Updated(replaced, p)) else None;
      if Valid() {
        ValidIsGood();
      }
    }

    lemma {:induction false} LastLeft(before: seq<Ptr>, p: Ptr, replaced: Ptr)
      requires p !in before
      ensures Unlink(before + [p], p) == before
      ensures replaced != p ==> Unlink(before + [p], replaced) == Unlink(before, replaced) + [p]
    {
      UnlinkSplit(before, p, []);
      assert before + [p] + [] == before + [p] && before + [] == before;
      if replaced != p {
        UnlinkBefore(before, p, replaced);
      }
    }

    /** update_single_row; the copy is what is to be logged as before-image. */
    method UpdateRow(p: Ptr, data: Bytes, indexUpdate: bool, depth: nat) returns (copy: Ptr)
      requires Shape() && (indexUpdate ==> Agrees())
      requires p in rows && lay.Fits(data) && (lay.Indexed? ==> KeyOf(lay, data) in universe)
      modifies Repr
      ensures Shape() && fresh(Repr - old(Repr)) && lay == old(lay)
      ensures old(Agrees()) ==> (Agrees() <==> !old(Unnoticed(lay, mem[p], data, indexUpdate)))
      ensures !indexUpdate ==> Repr == old(Repr) && hash == old(hash) && order == old(order) && unchanged(Repr - {this})
      ensures depth > 0 ==> Fresh(old(View()), copy)
      ensures View() == if !indexUpdate || old(KeyFree(lay, View(), data, {p}))
                        then UpdateAt(old(View()), p, copy, data, depth)
                        else Collided(old(View()), p, if depth > 0 then {copy} else {})
      ensures rows == if indexUpdate && !old(KeyFree(lay, View(), data, {p})) then Unlink(old(rows), p) else old(rows)
    {
      hide IndexOf, KeyFree, Lists, Hash.Valid, Sequence.Valid;
      ghost var s0 := View();
      copy := 0;
      if depth > 0 {
        copy := RowDuplicate(p);
        KeyFreeFrame(lay, s0, View(), data, p);
      }
      RowUpdate(p, data, indexUpdate);
    }

    /** delete_single_row */
    method DeleteRow(p: Ptr, depth: nat)
      requires Valid() && p in rows
      modifies Repr
      ensures Valid() && fresh(Repr - old(Repr)) && lay == old(lay)
      ensures View() == DeleteAt(old(View()), p, depth) && rows == Unlink(old(rows), p)
    {
      hide IndexOf, Lists, Hash.Valid, Sequence.Valid;
      ghost var mem', linked := if depth == 0 then mem - {p} else mem, Linked(rows);
      if lay.Indexed? {
        IndexOfDelete(lay, mem, linked, hash.contents, p);
        IndexOfFrame(lay, mem, mem', linked - {p}, hash.contents - {KeyOf(lay, mem[p])});
      }
      var status := RowDelete(p, true, depth == 0);
    }

    /** delete_all: reset the index, then unlink row after row; `deleted` is what is
        to be logged, in this order. The source counts on from whatever `junk` its
        uninitialised counter holds. */
    method Clear(depth: nat, junk: int) returns (deleted: seq<Ptr>, ndelete: int)
      requires Valid()
      modifies Repr
      ensures Valid() && fresh(Repr - old(Repr)) && lay == old(lay)
      ensures deleted == old(rows) && rows == [] && ndelete == if junk < 0 then junk else junk + |old(rows)|
      ensures mem == if depth > 0 then old(mem) else old(mem) - Linked(old(rows))
    {
      hide Lists, Hash.Valid, Sequence.Valid, IndexOf;
      IndexReset();
      deleted, ndelete := [], junk;
      while rows != []
        invariant Shape() && fresh(Repr - old(Repr)) && lay == old(lay)
        invariant lay.Indexed? ==> hash.contents == map[]
        invariant deleted + rows == old(rows) && ndelete == if junk < 0 then junk else junk + |deleted|
        invariant mem == if depth > 0 then old(mem) else old(mem) - Linked(deleted)
        decreases |rows|
      {
        var row := rows[0];
        Unhook(row, depth == 0);
        deleted := deleted + [row];
        ndelete := ndelete + if ndelete >= 0 then 1 else 0;
      }
      EmptyIndex();
    }

    lemma {:induction false} EmptyIndex()
      requires Shape() && rows == [] && (lay.Indexed? ==> hash.contents == map[])
      ensures Valid()
    {
    }

    /** mdb_table_create_index: the rows enter the index in list order; a row whose key
        an earlier row has is freed. With more than 16 different keys the source writes
        outside the sorted array, and nothing is said about the table. */
    method CreateIndex(newLay: Layout) returns (status: int)
      requires Valid() && newLay.Valid() && newLay.Indexed? && newLay.dlgh == lay.dlgh
      requires TotalOn(newLay.keyType, newLay.length, universe)
      requires forall p | p in mem :: KeyOf(newLay, mem[p]) in universe
      modifies Repr
      ensures fresh(Repr - old(Repr))
      ensures old(lay).Indexed? ==> Valid() && status == -1 && View() == old(View()) && lay == old(lay)
      ensures !old(lay).Indexed? ==>
                && lay == newLay && RowsIn(newLay, old(mem), old(rows))
                && (Valid() <==> |FirstUpTo(newLay, old(mem), old(rows), |old(rows)|)| <= INDEX_ROOM)
      ensures !old(lay).Indexed? && Valid() ==>
                && Linked(rows) == FirstUpTo(newLay, old(mem), old(rows), |old(rows)|)
                && rows == Among(old(rows), Linked(rows))
                && mem == old(mem) - (Linked(old(rows)) - Linked(rows))
                && (status == 0 <==> Linked(rows) == Linked(old(rows)))
    {
      if lay.Indexed? {
        return -1;
      }
      AttachIndex(newLay);
      status := IndexRows();
    }

    lemma {:induction false} BrokenIndex()
      requires order != null && !order.intact
      ensures !Valid()
    {
    }

    /** The loop of mdb_table_create_index. */
    method IndexRows() returns (status: int)
      requires Shape() && lay.Indexed? && hash.contents == map[]
      modifies Repr
      ensures fresh(Repr - old(Repr)) && lay == old(lay) && RowsIn(lay, old(mem), old(rows))
      ensures Valid() <==> |FirstUpTo(lay, old(mem), old(rows), |old(rows)|)| <= INDEX_ROOM
      ensures Valid() ==> Linked(rows) == FirstUpTo(lay, old(mem), old(rows), |old(rows)|)
      ensures Valid() ==> rows == Among(old(rows), Linked(rows))
      ensures Valid() ==> mem == old(mem) - (Linked(old(rows)) - Linked(rows))
      ensures Valid() ==> (status == 0 <==> Linked(rows) == Linked(old(rows)))
    {
      hide Indexing, Lists, IndexOf, Sequence.Valid, Hash.Valid, FirstUpTo, FirstAt, Among, NoDuplicates, InOrder;
      ghost var rows0, mem0, k := rows, mem, 0;
      StartIndexing();
      var todo := rows;
      status := 0;
      while todo != []
        invariant Indexing(rows0, mem0, k) && fresh(Repr - old(Repr)) && lay == old(lay)
        invariant k <= |rows0| && todo == rows0[k..]
        invariant InOrder(rows0, mem0, k)
        invariant status == 0 ==> Linked(rows) == Linked(rows0)
        invariant status != 0 ==> exists p :: p in Linked(rows0) && p !in Linked(rows)
      {
        var s := IndexNext(rows0, mem0, todo[0], k);
        if !order.intact {
          FirstGrows(lay, mem0, rows0, k + 1, |rows0|);
          BrokenIndex();
          return;
        }
        if s < 0 {
          status := -1;
        }
        todo := todo[1..];
        k := k + 1;
      }
      DoneIndexing(rows0, mem0);
      ValidIsGood();
    }

    /** Row `k` joins the rows kept so far as the last of them, or leaves the list. */
    lemma {:induction false} KeptInOrder(rows0: seq<Ptr>, mem0: map<Ptr, Bytes>, k: nat)
      requires RowsIn(lay, mem0, rows0) && NoDuplicates(rows0) && k < |rows0|
      ensures var kept, p := Among(rows0[..k], FirstUpTo(lay, mem0, rows0, k)), rows0[k];
              && Among(rows0[..k + 1], FirstUpTo(lay, mem0, rows0, k + 1))
                 == (if p in FirstUpTo(lay, mem0, rows0, k + 1) then kept + [p] else kept)
              && kept + rows0[k..] == kept + [p] + rows0[k + 1..]
              && Unlink(kept + rows0[k..], p) == kept + rows0[k + 1..]
    {
      hide FirstUpTo, FirstAt;
      var p, keep, next := rows0[k], FirstUpTo(lay, mem0, rows0, k), FirstUpTo(lay, mem0, rows0, k + 1);
      FirstStep(lay, mem0, rows0, k);
      assert rows0[..k + 1] == rows0[..k] + [p] && rows0[k..] == [p] + rows0[k + 1..];
      assert p !in rows0[..k];
      AmongAppend(rows0[..k], p, next);
      AmongSame(rows0[..k], keep, next);
      AmongMembers(rows0[..k], keep);
      UnlinkSplit(Among(rows0[..k], keep), p, rows0[k + 1..]);
    }

    /** The first `k` of the rows have been put in the index or freed. */
    ghost predicate Indexing(rows0: seq<Ptr>, mem0: map<Ptr, Bytes>, k: nat)
      reads this, Repr
    {
      && Shape() && lay.Indexed? && RowsIn(lay, mem0, rows0) && NoDuplicates(rows0) && k <= |rows0|
      && Linked(rows) == FirstUpTo(lay, mem0, rows0, k) + Linked(rows0[k..])
      && mem == mem0 - (Linked(rows0) - Linked(rows))
      && FirstUpTo(lay, mem0, rows0, k) <= mem.Keys
      && IndexOf(lay, mem, FirstUpTo(lay, mem0, rows0, k), hash.contents)
    }

    /** The rows kept so far and the rows to come, in the order of the list. */
    ghost predicate InOrder(rows0: seq<Ptr>, mem0: map<Ptr, Bytes>, k: nat)
      reads this, Repr
      requires Indexing(rows0, mem0, k)
    {
      rows == Among(rows0[..k], FirstUpTo(lay, mem0, rows0, k)) + rows0[k..]
    }

    lemma {:induction false} StartIndexing()
      requires Shape() && lay.Indexed? && hash.contents == map[]
      ensures Indexing(rows, mem, 0) && InOrder(rows, mem, 0)
    {
      hide Lists, Hash.Valid, Sequence.Valid;
      assert FirstUpTo(lay, mem, rows, 0) == {};
      assert rows[0..] == rows;
    }

    lemma {:induction false} DoneIndexing(rows0: seq<Ptr>, mem0: map<Ptr, Bytes>)
      requires Indexing(rows0, mem0, |rows0|) && InOrder(rows0, mem0, |rows0|)
      ensures Valid() && RowsIn(lay, mem0, rows0)
      ensures Linked(rows) == FirstUpTo(lay, mem0, rows0, |rows0|) && rows == Among(rows0, Linked(rows))
      ensures mem == mem0 - (Linked(rows0) - Linked(rows))
    {
      hide IndexOf, Lists, Hash.Valid, Sequence.Valid;
      assert rows0[|rows0|..] == [] && Linked(rows0[|rows0|..]) == {};
      assert Linked(rows) == FirstUpTo(lay, mem0, rows0, |rows0|);
      assert rows0[..|rows0|] == rows0;
    }

    /** One turn of the loop; the rows that stay keep their order. */
    method IndexNext(ghost rows0: seq<Ptr>, ghost mem0: map<Ptr, Bytes>, p: Ptr, ghost k: nat) returns (status: int)
      requires k < |rows0| && Indexing(rows0, mem0, k) && InOrder(rows0, mem0, k) && rows0[k] == p
      modifies Repr
      ensures fresh(Repr - old(Repr)) && lay == old(lay) && order != null
      ensures order.intact <==> |FirstUpTo(lay, mem0, rows0, k + 1)| <= INDEX_ROOM
      ensures order.intact ==> Indexing(rows0, mem0, k + 1) && InOrder(rows0, mem0, k + 1)
      ensures status >= 0 ==> Linked(rows) == Linked(old(rows))
      ensures status < 0 ==> p in Linked(rows0) && Linked(rows) == Linked(old(rows)) - {p}
    {
      hide Indexing, FirstUpTo, FirstAt, Among, Unlink, Linked, IndexOf, Lists, Hash.Valid, Sequence.Valid;
      IndexingParts(rows0, mem0, k);
      KeptInOrder(rows0, mem0, k);
      status := IndexFirst(rows0, mem0, p, k);
    }

    lemma {:induction false} IndexingParts(rows0: seq<Ptr>, mem0: map<Ptr, Bytes>, k: nat)
      requires Indexing(rows0, mem0, k)
      ensures lay.Indexed? && lay.Valid() && RowsIn(lay, mem0, rows0) && NoDuplicates(rows0) && k <= |rows0|
    {
    }

    /** One turn of the loop: mdb_index_insert without `ignore`. */
    method IndexFirst(ghost rows0: seq<Ptr>, ghost mem0: map<Ptr, Bytes>, p: Ptr, ghost k: nat) returns (status: int)
      requires k < |rows0| && Indexing(rows0, mem0, k) && rows0[k] == p
      modifies Repr
      ensures fresh(Repr - old(Repr)) && lay == old(lay) && order != null
      ensures order.intact <==> |FirstUpTo(lay, mem0, rows0, k + 1)| <= INDEX_ROOM
      ensures order.intact ==> Indexing(rows0, mem0, k + 1)
      ensures status >= 0 ==> Linked(rows) == Linked(old(rows))
      ensures status < 0 ==> p in Linked(rows0) && Linked(rows) == Linked(old(rows)) - {p}
      ensures rows == if status >= 0 then old(rows) else Unlink(old(rows), p)
      ensures status >= 0 <==> p in FirstUpTo(lay, mem0, rows0, k + 1)
    {
      hide IndexOf, KeyFree, Lists, Hash.Valid, Sequence.Valid, FirstAt, FirstUpTo, RowsIn, NoDuplicates, Linked;
      FirstTurn(lay, mem, mem0, rows0, k, Linked(rows), hash.contents);
      TurnCount(lay, mem, FirstUpTo(lay, mem0, rows0, k), hash.contents, p, FirstUpTo(lay, mem0, rows0, k + 1));
      assert p in Linked(rows);
      CountKeys();
      var row := hash.Get(KeyOf(lay, mem[p]));
      if row == 0 {
        IndexAdd(p);
        status := 1;
      } else {
        Unhook(p, true);
        status := -1;
      }
    }

    // ----- the undo primitives of transaction.c

    method DestroyRow(p: Ptr) returns (status: int)
      requires Valid() && p in mem && p !in rows
      modifies Repr
      ensures Valid() && fresh(Repr - old(Repr)) && lay == old(lay) && status == 0
      ensures View() == Store(old(mem) - {p}, old(View().live)) && rows == old(rows)
    {
      hide IndexOf, Lists, Hash.Valid, Sequence.Valid;
      if lay.Indexed? {
        IndexOfFrame(lay, mem, mem - {p}, Linked(rows), hash.contents);
      }
      assert Linked(rows) - {p} == Linked(rows);
      UnlinkNone(rows, p);
      status := RowDelete(p, false, true);
    }

    method RemoveRow(p: Ptr) returns (status: int)
      requires Valid() && Enabled(View(), Inserted(p))
      modifies Repr
      ensures Valid() && fresh(Repr - old(Repr)) && lay == old(lay) && status == 0
      ensures View() == Undo(old(View()), Inserted(p)) && rows == Unlink(old(rows), p)
    {
      DeleteRow(p, 0);
      status := 0;
    }

    /** MDB_DLIST_APPEND of a deleted row. */
    method Relink(p: Ptr)
      requires Valid() && Enabled(View(), Deleted(p)) && Good(lay, Undo(View(), Deleted(p)))
      modifies `rows
      ensures Shape() && rows == old(rows) + [p] && p in rows && View() == Undo(old(View()), Deleted(p))
      ensures AgreesWithout(p) && HasPlace(p) && !KeyTaken(p)
    {
      hide IndexOf, Distinct, Lists, Hash.Valid, Sequence.Valid;
      AppendLinks(rows, p);
      if lay.Indexed? {
        FreeAgain(lay, Undo(View(), Deleted(p)), p, hash.contents);
        IndexCount(lay, mem, Linked(rows), hash.contents);
        GoodRoom(lay, View(), p);
      }
      rows := rows + [p];
      assert Linked(rows) - {p} == Linked(old(rows));
    }

    /** Returns what mdb_index_insert returns: 1. */
    method AddRow(p: Ptr) returns (status: int)
      requires Valid() && Enabled(View(), Deleted(p)) && Good(lay, Undo(View(), Deleted(p)))
      modifies Repr
      ensures Valid() && fresh(Repr - old(Repr)) && lay == old(lay) && status == 1
      ensures View() == Undo(old(View()), Deleted(p)) && rows == old(rows) + [p]
    {
      hide IndexOf, Good, Lists, Hash.Valid, Sequence.Valid, NoDuplicates;
      Relink(p);
      var replaced;
      status, replaced := IndexInsert(p, false, 0);
    }

    method CopyRow(dst: Ptr, src: Ptr) returns (status: int)
      requires Valid() && Enabled(View(), Updated(src, dst)) && Good(lay, Undo(View(), Updated(src, dst)))
      modifies Repr
      ensures Valid() && fresh(Repr - old(Repr)) && lay == old(lay) && status == 0
      ensures View() == Undo(old(View()), Updated(src, dst)) && rows == old(rows)
    {
      hide IndexOf, Distinct, KeyFree, Lists, Hash.Valid, Sequence.Valid;
      FreeForCopy(lay, View(), dst, src);
      status := RowCopyOver(dst, src);
      status := DestroyRow(src);
    }
  }

  /** Of two rows with one key the later in the list goes when the list is indexed, and the
      earlier stays unless one before it has the key. */
  lemma {:induction false} EarlierStays(lay: Layout, mem: map<Ptr, Bytes>, rows: seq<Ptr>, i: nat, j: nat)
    requires RowsIn(lay, mem, rows) && NoDuplicates(rows) && i < j < |rows|
    requires KeyOf(lay, mem[rows[i]]) == KeyOf(lay, mem[rows[j]])
    ensures rows[j] !in FirstUpTo(lay, mem, rows, |rows|)
    ensures rows[i] in FirstUpTo(lay, mem, rows, |rows|) <==> FirstAt(lay, mem, rows, i)
  {
    assert !FirstAt(lay, mem, rows, j);
  }

  /** Two insertions with one key that no other row has, and then an index on that key: the
      row inserted first survives. */
  method IndexAfterInsertions(t: Table, a: Bytes, b: Bytes, newLay: Layout) returns (p: Ptr, q: Ptr)
    requires t.Valid() && !t.lay.Indexed? && t.lay.Fits(a) && t.lay.Fits(b)
    requires newLay.Valid() && newLay.Indexed? && newLay.dlgh == t.lay.dlgh
    requires TotalOn(newLay.keyType, newLay.length, t.universe)
    requires KeyOf(newLay, a) == KeyOf(newLay, b) && KeyOf(newLay, a) in t.universe
    requires forall r | r in t.mem ::
               KeyOf(newLay, t.mem[r]) in t.universe && KeyOf(newLay, t.mem[r]) != KeyOf(newLay, a)
    modifies t.Repr
    ensures t.Valid() ==> p in t.rows && t.mem[p] == a && q !in t.rows && q !in t.mem
  {
    hide IndexOf, FirstUpTo, FirstAt, Among, KeyOf, Lists, Hash.Valid, Sequence.Valid;
    var status, change;
    ghost var rows0 := t.rows;
    ghost var n := |rows0|;
    status, p, change := t.Insert(a, false, 0);
    status, q, change := t.Insert(b, false, 0);
    ghost var rows, mem := t.rows, t.mem;
    assert rows == rows0 + [p] + [q] && rows[n] == p && rows[n + 1] == q;
    status := t.CreateIndex(newLay);
    KeptIsFirst(newLay, mem, rows, n);
    EarlierStays(newLay, mem, rows, n, n + 1);
  }

  lemma {:induction false} KeptIsFirst(lay: Layout, mem: map<Ptr, Bytes>, rows: seq<Ptr>, i: nat)
    requires RowsIn(lay, mem, rows) && i < |rows|
    requires forall j | 0 <= j < i :: KeyOf(lay, mem[rows[j]]) != KeyOf(lay, mem[rows[i]])
    ensures FirstAt(lay, mem, rows, i)
  {
  }

  /** A colliding update frees the row it was to change. */
  ghost function Collided(s: Store, p: Ptr, copies: set<Ptr>): Store
    requires p in s.mem
  {
    Store((map q | q in s.mem.Keys + copies :: if q in copies then s.mem[p] else s.mem[q]) - {p}, s.live - {p})
  }

  lemma {:induction false} KeyFreeFrame(lay: Layout, s: Store, t: Store, data: Bytes, p: Ptr)
    requires Sane(lay, s) && Sane(lay, t) && lay.Fits(data) && s.live == t.live
    requires forall q | q in s.live :: s.mem[q] == t.mem[q]
    ensures KeyFree(lay, s, data, {p}) <==> KeyFree(lay, t, data, {p})
  {
  }

  /** There is room in the index for a row that may come back. */
  lemma {:induction false} GoodRoom(lay: Layout, s: Store, p: Ptr)
    requires lay.Indexed? && p !in s.live && Good(lay, Undo(s, Deleted(p)))
    ensures |s.live| < INDEX_ROOM
  {
    assert |s.live + {p}| == |s.live| + 1;
  }

  /** The key of a deleted row is free if putting the row back keeps keys unique. */
  lemma {:induction false} FreeAgain(lay: Layout, t: Store, p: Ptr, m: map<Key, Ptr>)
    requires lay.Indexed? && Good(lay, t) && p in t.live && IndexOf(lay, t.mem, t.live - {p}, m)
    ensures KeyOf(lay, t.mem[p]) !in m
  {
  }

  lemma {:induction false} FreeForCopy(lay: Layout, s: Store, dst: Ptr, src: Ptr)
    requires Sane(lay, s) && Enabled(s, Updated(src, dst)) && Good(lay, Undo(s, Updated(src, dst)))
    ensures KeyFree(lay, s, s.mem[src], {dst})
  {
    var t := Undo(s, Updated(src, dst));
    if lay.Indexed? {
      forall p | p in s.live && p != dst ensures KeyOf(lay, s.mem[p]) != KeyOf(lay, s.mem[src]) {
        assert t.mem[p] == s.mem[p] && t.mem[dst] == s.mem[src];
      }
    }
  }

  /** What a new row does to a good store, by the state of the index. */
  lemma {:induction false} InsertOutcome(lay: Layout, s: Store, m: map<Key, Ptr>, p: Ptr, data: Bytes)
    requires Good(lay, s) && lay.Fits(data) && Fresh(s, p) && (lay.Indexed? ==> IndexOf(lay, s.mem, s.live, m))
    ensures (lay.Indexed? && KeyOf(lay, data) in m) <==> !KeyFree(lay, s, data, {})
    ensures lay.Indexed? && KeyOf(lay, data) in m ==>
              var r := m[KeyOf(lay, data)];
              && Applicable(lay, s, Replace(r, p, data))
              && Step(s, Replace(r, p, data)) == Store(s.mem[p := data], s.live + {p} - {r})
              && Sane(lay, Step(s, Op.Insert(p, data))) && !Distinct(lay, Step(s, Op.Insert(p, data)))
  {
    if lay.Indexed? && KeyOf(lay, data) in m {
      var r, t := m[KeyOf(lay, data)], Step(s, Op.Insert(p, data));
      assert s.live - {r} + {p} == s.live + {p} - {r};
      assert KeyOf(lay, t.mem[r]) == KeyOf(lay, t.mem[p]);
    }
  }
}
