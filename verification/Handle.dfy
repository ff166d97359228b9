// The handle map (src/murphy-db/mdb/handle.c).

module HandleMap {
  import opened Common
  import opened Arithmetic
  import opened Masks

  type Handle = nat
  type Ptr = nat

  const INVALID := 0xffff_ffff      // MDB_HANDLE_INVALID
  const USES := 0x1_0000            // HANDLE_USEID_MAX
  const INDEXES := 0x1_0000         // HANDLE_INDEX_MAX
  const BUCKET := 64                // bits_per_bucket

  /** bucket_t, lowest bit first: a bit is set iff the index is free. */
  type Bucket = b: seq<bool> | |b| == BUCKET witness seq(BUCKET, _ => true)

  const EMPTY_BUCKET: Bucket := seq(BUCKET, _ => true)

  /** HANDLE_MAKE, HANDLE_USEID and HANDLE_INDEX */
  function Make(useid: nat, index: nat): (h: Handle)
    ensures h < 0x1_0000_0000
  {
    useid % USES * INDEXES + index % INDEXES
  }

  function UseId(h: Handle): nat { h / INDEXES % USES }

  function SlotOf(h: Handle): (i: nat)
    ensures i < INDEXES
  {
    h % INDEXES
  }

  /** Packing keeps the index and the low bits of the use counter. */
  lemma {:induction false} Unpack(useid: nat, index: nat)
    requires index < INDEXES
    ensures UseId(Make(useid, index)) == useid % USES && SlotOf(Make(useid, index)) == index
    ensures useid < USES ==> UseId(Make(useid, index)) == useid
    ensures useid == USES ==> UseId(Make(useid, index)) == 0
    ensures Make(useid, index) / 0x1_0000 == useid % 0x1_0000 && Make(useid, index) % 0x1_0000 == index
  {
  }

  lemma {:induction false} Repack(h: Handle)
    requires h < 0x1_0000_0000
    ensures Make(UseId(h), SlotOf(h)) == h && (UseId(h) == 0 ==> Make(USES, SlotOf(h)) == h) && UseId(h) < USES
  {
  }

  /** indextbl_entry_t */
  datatype Slot = Slot(useid: nat, data: Ptr)

  predicate IsFree(buckets: seq<Bucket>, i: nat) {
    i < BUCKET * |buckets| && buckets[i / BUCKET][i % BUCKET]
  }

  /** A slot is taken exactly if its free-map bit is clear; a slot whose counter has
      reached its end stays taken. */
  ghost predicate SlotsOk(buckets: seq<Bucket>, entries: seq<Slot>) {
    && |entries| <= INDEXES
    && (forall i: nat | i < |entries| ::
          entries[i].useid <= USES && (entries[i].useid == USES ==> entries[i].data != 0))
    && (forall i: nat | i < |entries| && entries[i].data != 0 :: 0 < entries[i].useid && i < BUCKET * |buckets|)
    && (forall i: nat | i < BUCKET * |buckets| && i < INDEXES ::
          IsFree(buckets, i) <==> !(i < |entries| && entries[i].data != 0))
  }

  /** The handle of the current use of a slot, with its data. */
  ghost predicate LiveAs(entries: seq<Slot>, live: map<Handle, Ptr>) {
    && (forall i: nat | i < |entries| && entries[i].data != 0 ::
          Make(entries[i].useid, i) in live && live[Make(entries[i].useid, i)] == entries[i].data)
    && (forall h | h in live ::
          SlotOf(h) < |entries| && entries[SlotOf(h)].data != 0 && h == Make(entries[SlotOf(h)].useid, SlotOf(h)))
  }

  /** Every handle given out belongs to a use of a slot. */
  ghost predicate IssuedAs(entries: seq<Slot>, issued: set<Handle>) {
    forall h: Handle :: h in issued <==> Given(entries, h)
  }

  /** The use that a handle stands for has begun. */
  predicate Given(entries: seq<Slot>, h: Handle) {
    && h < 0x1_0000_0000 && SlotOf(h) < |entries|
    && (if UseId(h) == 0 then entries[SlotOf(h)].useid == USES else UseId(h) <= entries[SlotOf(h)].useid)
  }

  /** What a lookup with a handle finds. */
  function Find(entries: seq<Slot>, h: Handle): Ptr {
    if h == INVALID || SlotOf(h) >= |entries| || entries[SlotOf(h)].useid != UseId(h) then 0
      else entries[SlotOf(h)].data
  }

  /** A handle resolves exactly if it is live, unless the use counter in it has wrapped
      to 0 or it looks like the invalid handle. */
  predicate Usable(h: Handle) { UseId(h) != 0 && h != INVALID }

  lemma {:induction false} FindIff(buckets: seq<Bucket>, entries: seq<Slot>, live: map<Handle, Ptr>, h: Handle)
    requires SlotsOk(buckets, entries) && LiveAs(entries, live) && h < 0x1_0000_0000
    ensures Find(entries, h) == if h in live && Usable(h) then live[h] else 0
  {
    hide Make, UseId, SlotOf, IsFree;
    var i := SlotOf(h);
    Repack(h);
    if i < |entries| {
      Unpack(entries[i].useid, i);
    }
  }

  /** A live handle can be used as long as its slot was given out fewer than 65536 times,
      but for the last but one use of the last slot. */
  lemma {:induction false} UsableIff(buckets: seq<Bucket>, entries: seq<Slot>, live: map<Handle, Ptr>, h: Handle)
    requires SlotsOk(buckets, entries) && LiveAs(entries, live) && h in live
    ensures SlotOf(h) < |entries|
    ensures var u := entries[SlotOf(h)].useid;
            Usable(h) <==> u < USES && !(u == USES - 1 && SlotOf(h) == INDEXES - 1)
  {
    var i := SlotOf(h);
    var u := entries[i].useid;
    hide SlotsOk, LiveAs, IsFree;
    assert 0 < u <= USES && h == Make(u, i) by { LiveUse(buckets, entries, live, h); }
    Unpack(u, i);
  }

  lemma {:induction false} LiveUse(buckets: seq<Bucket>, entries: seq<Slot>, live: map<Handle, Ptr>, h: Handle)
    requires SlotsOk(buckets, entries) && LiveAs(entries, live) && h in live
    ensures SlotOf(h) < |entries| && 0 < entries[SlotOf(h)].useid <= USES
            && h == Make(entries[SlotOf(h)].useid, SlotOf(h))
  {
    hide IsFree, Make;
  }

  // ----- the free map

  /** The effect of clearing a bit of the free map. */
  lemma {:induction false} Cleared(buckets: seq<Bucket>, b: nat, j: nat, free: bool)
    requires b < |buckets| && j < BUCKET
    ensures forall i: nat :: IsFree(buckets[b := buckets[b][j := free]], i) <==>
                               if i == b * BUCKET + j then free else IsFree(buckets, i)
  {
    var changed := buckets[b := buckets[b][j := free]];
    forall i: nat ensures IsFree(changed, i) <==> if i == b * BUCKET + j then free else IsFree(buckets, i) {
      if i / BUCKET == b {
        assert changed[i / BUCKET] == buckets[b][j := free];
      }
    }
  }

  lemma {:induction false} Extended(buckets: seq<Bucket>)
    ensures forall i: nat :: IsFree(buckets + [EMPTY_BUCKET[0 := false]], i) <==>
                               IsFree(buckets, i) || BUCKET * |buckets| < i < BUCKET * |buckets| + BUCKET
  {
    var more := buckets + [EMPTY_BUCKET[0 := false]];
    forall i: nat
      ensures IsFree(more, i) <==> IsFree(buckets, i) || BUCKET * |buckets| < i < BUCKET * |buckets| + BUCKET
    {
      if BUCKET * |buckets| <= i < BUCKET * |more| {
        assert i / BUCKET == |buckets| && i % BUCKET == i - BUCKET * |buckets|;
      } else if i < BUCKET * |buckets| {
        assert i / BUCKET < |buckets|;
      }
    }
  }

  // ----- how the invariant moves

  function Longer(entries: seq<Slot>, n: nat): (r: seq<Slot>)
    requires |entries| <= n
    ensures |r| == n && forall i: nat | i < n :: r[i] == if i < |entries| then entries[i] else Slot(0, 0)
  {
    entries + seq(n - |entries|, _ => Slot(0, 0))
  }

  lemma {:induction false} LongerOk(buckets: seq<Bucket>, entries: seq<Slot>, n: nat, live: map<Handle, Ptr>,
                                    issued: set<Handle>)
    requires SlotsOk(buckets, entries) && LiveAs(entries, live) && IssuedAs(entries, issued)
             && |entries| <= n <= INDEXES
    ensures SlotsOk(buckets, Longer(entries, n)) && LiveAs(Longer(entries, n), live)
            && IssuedAs(Longer(entries, n), issued)
  {
    hide Make, UseId, SlotOf, IsFree, Longer;
  }

  /** Handing out the next use of a free slot. */
  lemma {:induction false} TakeSlot(buckets: seq<Bucket>, buckets': seq<Bucket>, entries: seq<Slot>,
                                    live: map<Handle, Ptr>, issued: set<Handle>, index: nat, data: Ptr)
    requires SlotsOk(buckets, entries) && LiveAs(entries, live) && IssuedAs(entries, issued)
    requires index < |entries| && entries[index].data == 0 && data != 0
    requires index < BUCKET * |buckets'| && |buckets'| >= |buckets|
    requires forall i: nat :: IsFree(buckets', i) <==>
                                i != index && (IsFree(buckets, i) || BUCKET * |buckets| <= i < BUCKET * |buckets'|)
    ensures var u := entries[index].useid + 1;
            var entries', h := entries[index := Slot(u, data)], Make(u, index);
            && u <= USES && SlotsOk(buckets', entries') && h !in live && h !in issued
            && LiveAs(entries', live[h := data]) && IssuedAs(entries', issued + {h})
  {
    hide IsFree, Make, UseId, SlotOf, SlotsOk, LiveAs, IssuedAs;
    FreeNotWorn(buckets, entries, index);
    TakeSlots(buckets, buckets', entries, index, data);
    TakeLive(buckets, entries, live, index, data);
    TakeIssued(entries, issued, index, data);
  }

  lemma {:induction false} FreeNotWorn(buckets: seq<Bucket>, entries: seq<Slot>, index: nat)
    requires SlotsOk(buckets, entries) && index < |entries| && entries[index].data == 0
    ensures entries[index].useid < USES && |entries| <= INDEXES
  {
  }

  lemma {:induction false} TakeSlots(buckets: seq<Bucket>, buckets': seq<Bucket>, entries: seq<Slot>, index: nat,
                                     data: Ptr)
    requires SlotsOk(buckets, entries) && index < |entries| && entries[index].data == 0 && data != 0
    requires index < BUCKET * |buckets'| && |buckets'| >= |buckets|
    requires forall i: nat :: IsFree(buckets', i) <==>
                                i != index && (IsFree(buckets, i) || BUCKET * |buckets| <= i < BUCKET * |buckets'|)
    ensures SlotsOk(buckets', entries[index := Slot(entries[index].useid + 1, data)])
  {
    hide IsFree;
  }

  lemma {:induction false} TakeLive(buckets: seq<Bucket>, entries: seq<Slot>, live: map<Handle, Ptr>, index: nat,
                                    data: Ptr)
    requires SlotsOk(buckets, entries) && LiveAs(entries, live)
    requires index < |entries| && entries[index].data == 0 && data != 0
    ensures var u := entries[index].useid + 1; var h := Make(u, index);
            h !in live && LiveAs(entries[index := Slot(u, data)], live[h := data])
  {
    hide IsFree, Make, UseId, SlotOf;
    Unpack(entries[index].useid + 1, index);
    forall i: nat | i < |entries| ensures SlotOf(Make(entries[i].useid, i)) == i {
      Unpack(entries[i].useid, i);
    }
  }

  lemma {:induction false} TakeIssued(entries: seq<Slot>, issued: set<Handle>, index: nat, data: Ptr)
    requires IssuedAs(entries, issued) && index < |entries| <= INDEXES && entries[index].useid < USES
    ensures var u := entries[index].useid + 1; var h := Make(u, index);
            h !in issued && IssuedAs(entries[index := Slot(u, data)], issued + {h})
  {
    hide Make, UseId, SlotOf;
    var u := entries[index].useid + 1;
    var entries', h := entries[index := Slot(u, data)], Make(u, index);
    Unpack(u, index);
    forall x: Handle ensures x in issued + {h} <==> Given(entries', x) {
      if x < 0x1_0000_0000 {
        Repack(x);
      }
    }
  }

  /** Taking back the current use of a slot. */
  lemma {:induction false} ReturnSlot(buckets: seq<Bucket>, buckets': seq<Bucket>, entries: seq<Slot>,
                                      live: map<Handle, Ptr>, issued: set<Handle>, h: Handle)
    requires SlotsOk(buckets, entries) && LiveAs(entries, live) && IssuedAs(entries, issued)
    requires h in live && h < 0x1_0000_0000 && Usable(h) && SlotOf(h) < |entries|
    requires FreedIn(buckets, buckets', SlotOf(h))
    ensures var entries' := entries[SlotOf(h) := entries[SlotOf(h)].(data := 0)];
            SlotsOk(buckets', entries') && LiveAs(entries', live - {h}) && IssuedAs(entries', issued)
  {
    hide IsFree, Make, UseId, SlotOf;
    ReturnSlots(buckets, buckets', entries, live, h);
    forall i: nat | i < |entries| ensures SlotOf(Make(entries[i].useid, i)) == i {
      Unpack(entries[i].useid, i);
    }
  }

  lemma {:induction false} ReturnSlots(buckets: seq<Bucket>, buckets': seq<Bucket>, entries: seq<Slot>,
                                       live: map<Handle, Ptr>, h: Handle)
    requires SlotsOk(buckets, entries) && LiveAs(entries, live)
    requires h in live && h < 0x1_0000_0000 && Usable(h) && SlotOf(h) < |entries|
    requires FreedIn(buckets, buckets', SlotOf(h))
    ensures SlotsOk(buckets', entries[SlotOf(h) := entries[SlotOf(h)].(data := 0)])
  {
    var index := SlotOf(h);
    Unpack(entries[index].useid, index);
    NoBuckets();
    hide IsFree, Make, UseId, SlotOf;
  }

  lemma {:induction false} NoBuckets()
    ensures forall i: nat :: !IsFree([], i)
  {
  }

  /** An index is free again, or was the last one taken from a single bucket. */
  ghost predicate FreedIn(buckets: seq<Bucket>, buckets': seq<Bucket>, index: nat) {
    if buckets' == []
    then |buckets| == 1 && forall i: nat | i < BUCKET :: IsFree(buckets, i) || i == index
    else |buckets'| == |buckets| && forall i: nat :: IsFree(buckets', i) <==> IsFree(buckets, i) || i == index
  }

  class Map {
    var buckets: seq<Bucket>               // the free map
    var room: nat                          // not a field of the source: the buckets its memory holds
    var entries: seq<Slot>                 // the index table
    ghost var live: map<Handle, Ptr>       // handles added and not deleted since
    ghost var issued: set<Handle>          // handles ever returned for an addition

    ghost predicate Valid()
      reads this
    {
      && SlotsOk(buckets, entries) && LiveAs(entries, live) && IssuedAs(entries, issued)
      && |entries| % BUCKET == 0 && room == |buckets|
    }

    /** mdb_handle_map_create */
    constructor ()
      ensures Valid() && live == map[] && issued == {}
    {
      buckets, room, entries, live, issued := [], 0, [], map[], {};
    }

    /** freemap_alloc: the lowest free index, or the first one of a new bucket. */
    method FreemapAlloc() returns (index: nat)
      requires room == |buckets|
      modifies `buckets, `room
      ensures room == |buckets|
      ensures |buckets| >= |old(buckets)| && index < BUCKET * |buckets|
      ensures if index < BUCKET * |old(buckets)|
              then IsFree(old(buckets), index) && |buckets| == |old(buckets)|
              else index == BUCKET * |old(buckets)| && |buckets| == |old(buckets)| + 1
      ensures forall i: nat | i < index :: !IsFree(old(buckets), i)
      ensures forall i: nat :: IsFree(buckets, i) <==>
                                 i != index && (IsFree(old(buckets), i)
                                   || BUCKET * |old(buckets)| <= i < BUCKET * |buckets|)
    {
      var b := 0;
      while b < |buckets|
        invariant b <= |buckets| && buckets == old(buckets) && room == |buckets|
        invariant forall i: nat | i < BUCKET * b :: !IsFree(buckets, i)
      {
        var bit := FindFirst(buckets[b]);
        if bit > 0 {
          index := b * BUCKET + (bit - 1);
          Cleared(buckets, b, bit - 1, false);
          QuotientOf(BUCKET, b, bit - 1);
          forall i: nat | i < index ensures !IsFree(buckets, i) {
            if i >= BUCKET * b {
              assert i / BUCKET == b && i % BUCKET < bit - 1;
            }
          }
          buckets := buckets[b := buckets[b][bit - 1 := false]];
          return;
        }
        forall i: nat | i < BUCKET * (b + 1) ensures !IsFree(buckets, i) {
          if i >= BUCKET * b {
            assert i / BUCKET == b && i % BUCKET < BUCKET;
          }
        }
        b := b + 1;
      }
      index := b * BUCKET;
      Extended(buckets);
      buckets := buckets + [EMPTY_BUCKET[0 := false]];
      room := |buckets|;
    }

    /** mdb_handle_add: a handle that was never given out before, unless there is no
        data or no index left. */
    method Add(data: Ptr) returns (h: Handle)
      requires Valid()
      modifies this
      ensures Valid()
      ensures data == 0 ==> h == INVALID && live == old(live) && issued == old(issued) && buckets == old(buckets)
      ensures data != 0 && (forall i: nat | i < INDEXES :: IsTaken(old(entries), i)) ==>
                h == INVALID && live == old(live) && issued == old(issued)
      ensures data != 0 && !(forall i: nat | i < INDEXES :: IsTaken(old(entries), i)) ==>
                && h !in old(issued) && issued == old(issued) + {h} && live == old(live)[h := data]
                && h !in old(live) && h < 0x1_0000_0000
    {
      if data == 0 {
        return INVALID;
      }
      ghost var buckets0 := buckets;
      var index := FreemapAlloc();
      assert !IsTaken(entries, index);
      h := IndexAlloc(index, data, buckets0);
    }

    /** index_alloc, for an index that the free map has just given out. */
    method IndexAlloc(index: nat, data: Ptr, ghost buckets0: seq<Bucket>) returns (h: Handle)
      requires data != 0 && SlotsOk(buckets0, entries) && LiveAs(entries, live) && IssuedAs(entries, issued)
      requires |entries| % BUCKET == 0 && !IsTaken(entries, index) && room == |buckets|
      requires index < BUCKET * |buckets| && |buckets| >= |buckets0|
      requires forall i: nat :: IsFree(buckets, i) <==>
                                  i != index && (IsFree(buckets0, i) || BUCKET * |buckets0| <= i < BUCKET * |buckets|)
      modifies `entries, `live, `issued
      ensures Valid()
      ensures index >= INDEXES ==> h == INVALID && live == old(live) && issued == old(issued)
      ensures index < INDEXES ==>
                && h !in old(issued) && h !in old(live) && h < 0x1_0000_0000
                && issued == old(issued) + {h} && live == old(live)[h := data]
    {
      hide Make, UseId, SlotOf, IsFree, SlotsOk, LiveAs, IssuedAs;
      if index >= INDEXES {
        OutOfRange(buckets0, buckets, entries, index);
        return INVALID;
      }
      if index >= |entries| {
        var nentry := (index + 1 + (BUCKET - 1)) / BUCKET * BUCKET;
        LongerOk(buckets0, entries, nentry, live, issued);
        entries := Longer(entries, nentry);
      }
      TakeSlot(buckets0, buckets, entries, live, issued, index, data);
      var useid := entries[index].useid + 1;
      entries := entries[index := Slot(useid, data)];
      h := Make(useid, index);
      live, issued := live[h := data], issued + {h};
    }

    /** mdb_handle_get_data */
    method GetData(h: Handle) returns (data: Ptr)
      requires Valid() && h < 0x1_0000_0000
      ensures data == if h in live && Usable(h) then live[h] else 0
    {
      FindIff(buckets, entries, live, h);
      var useid, index := UseId(h), SlotOf(h);
      if h == INVALID || index >= |entries| {
        return 0;
      }
      var entry := entries[index];
      if entry.useid != useid {
        return 0;
      }
      data := entry.data;
    }

    /** mdb_handle_delete: what was added with the handle, which is dead from now on. The
        map stays sound exactly if the last of several buckets does not become empty. */
    method Delete(h: Handle) returns (data: Ptr)
      requires Valid() && h < 0x1_0000_0000
      modifies this
      ensures Valid() <==> !(old(h in live) && Usable(h) && old(Loses(buckets, SlotOf(h))))
      ensures data == if old(h in live) && Usable(h) then old(live)[h] else 0
      ensures live == (if Usable(h) then old(live) - {h} else old(live)) && issued == old(issued)
    {
      FindIff(buckets, entries, live, h);
      var useid, index := UseId(h), SlotOf(h);
      if h == INVALID || index >= |entries| || entries[index].useid != useid || entries[index].data == 0 {
        return 0;
      }
      data := entries[index].data;
      ghost var buckets0, entries0 := buckets, entries;
      Unpack(entries[index].useid, index);
      entries := entries[index := entries[index].(data := 0)];
      var ok := FreemapFree(index);
      if !Loses(buckets0, index) {
        ReturnSlot(buckets0, buckets, entries0, live, issued, h);
      }
      live := live - {h};
    }

    /** freemap_free: an empty last bucket is given back, but it is counted off only if it
        is the only one. */
    method FreemapFree(index: nat) returns (status: int)
      requires index < BUCKET * |buckets| && room == |buckets|
      modifies `buckets, `room
      ensures status == 0
      ensures room == |buckets| <==> !old(Loses(buckets, index))
      ensures !old(Loses(buckets, index)) ==> FreedIn(old(buckets), buckets, index)
    {
      var b, bit := index / BUCKET, index % BUCKET;
      Cleared(buckets, b, bit, true);
      EmptiedIff(buckets[b], bit);
      buckets := buckets[b := buckets[b][bit := true]];
      if b + 1 == |buckets| && buckets[b] == EMPTY_BUCKET {
        if |buckets| == 1 {
          assert forall i: nat | i < BUCKET :: IsFree(buckets, i);
          buckets, room := [], 0;
        } else {
          room := b;
        }
      }
      status := 0;
    }
  }

  /** Freeing the index would empty the last of several buckets. */
  predicate Loses(buckets: seq<Bucket>, index: nat) {
    && |buckets| > 1 && index / BUCKET + 1 == |buckets|
    && OnlyTaken(buckets[|buckets| - 1], index % BUCKET)
  }

  predicate OnlyTaken(bucket: Bucket, bit: nat) { forall j | 0 <= j < BUCKET :: bucket[j] || j == bit }

  lemma {:induction false} EmptiedIff(bucket: Bucket, bit: nat)
    requires bit < BUCKET
    ensures bucket[bit := true] == EMPTY_BUCKET <==> OnlyTaken(bucket, bit)
  {
    var freed := bucket[bit := true];
    if freed == EMPTY_BUCKET {
      forall j | 0 <= j < BUCKET ensures bucket[j] || j == bit {
        assert freed[j];
      }
    }
  }

  /** That is, it is the only one taken of the last bucket. */
  lemma {:induction false} LosesIff(buckets: seq<Bucket>, index: nat)
    ensures Loses(buckets, index) <==>
              && |buckets| > 1 && BUCKET * (|buckets| - 1) <= index < BUCKET * |buckets|
              && forall i: nat | BUCKET * (|buckets| - 1) <= i < BUCKET * |buckets| :: IsFree(buckets, i) || i == index
  {
    if |buckets| > 1 && BUCKET * (|buckets| - 1) <= index < BUCKET * |buckets| {
      var n := |buckets| - 1;
      QuotientOf(BUCKET, n, index - BUCKET * n);
      if Loses(buckets, index) {
        forall i: nat | BUCKET * n <= i < BUCKET * |buckets| ensures IsFree(buckets, i) || i == index {
          QuotientOf(BUCKET, n, i - BUCKET * n);
        }
      } else {
        var j :| 0 <= j < BUCKET && !buckets[n][j] && j != index % BUCKET;
        QuotientOf(BUCKET, n, j);
        assert !IsFree(buckets, n * BUCKET + j);
      }
    }
  }

  /** 65 handles, of which the last is deleted. */
  lemma {:induction false} LosingInput()
    ensures Loses([seq(BUCKET, _ => false), EMPTY_BUCKET[0 := false]], BUCKET)
  {
  }

  lemma {:induction false} OutOfRange(buckets: seq<Bucket>, buckets': seq<Bucket>, entries: seq<Slot>, index: nat)
    requires SlotsOk(buckets, entries) && index >= INDEXES && |buckets'| >= |buckets|
    requires forall i: nat :: IsFree(buckets', i) <==>
                                i != index && (IsFree(buckets, i) || BUCKET * |buckets| <= i < BUCKET * |buckets'|)
    ensures SlotsOk(buckets', entries)
  {
    hide IsFree;
  }

  predicate IsTaken(entries: seq<Slot>, i: nat) { i < |entries| && entries[i].data != 0 }
}
