// The sorted array of an index (src/murphy-db/mdb/sequence.c).

module SortedSequence {
  import opened Common
  import opened Keys

  /** The address of a row; 0 is the NULL pointer. */
  type Ptr = nat

  datatype Entry = Entry(key: Key, data: Ptr)

  /** A cell of the array: zero-filled memory holds NULL pointers. */
  datatype Cell = Zeroed | Used(entry: Entry)

  ghost predicate Sorted(t: KeyType, len: nat, s: seq<Entry>) {
    && (forall i | 0 <= i < |s| :: |s[i].key| == len)
    && forall i, j | 0 <= i < j < |s| :: Compare(t, len, s[i].key, s[j].key) <= 0
  }

  ghost predicate KeysIn(s: seq<Entry>, universe: iset<Key>) {
    forall i | 0 <= i < |s| :: s[i].key in universe
  }

  ghost predicate HasKey(s: seq<Entry>, key: Key) {
    exists i :: 0 <= i < |s| && s[i].key == key
  }

  /** No entry among the first `i` is greater than `key`. */
  ghost predicate Below(t: KeyType, len: nat, s: seq<Entry>, key: Key, i: nat)
  {
    |key| == len && i <= |s| && forall j | 0 <= j < i :: |s[j].key| == len && Compare(t, len, s[j].key, key) <= 0
  }

  /** No entry from the `i`th on is less than `key`. */
  ghost predicate Above(t: KeyType, len: nat, s: seq<Entry>, key: Key, i: nat)
  {
    |key| == len && i <= |s| && forall j | i <= j < |s| :: |s[j].key| == len && Compare(t, len, key, s[j].key) <= 0
  }

  function InsertAt(s: seq<Entry>, i: nat, e: Entry): seq<Entry>
    requires i <= |s|
  {
    s[..i] + [e] + s[i..]
  }

  lemma {:induction false} InsertedAt(s: seq<Entry>, i: nat, e: Entry, j: nat)
    requires i <= |s| && j <= |s|
    ensures |InsertAt(s, i, e)| == |s| + 1
    ensures InsertAt(s, i, e)[j] == if j < i then s[j] else if j == i then e else s[j - 1]
  {
  }

  function RemoveAt(s: seq<Entry>, i: nat): seq<Entry>
    requires i < |s|
  {
    s[..i] + s[i + 1..]
  }

  lemma {:induction false} InsertSorted(t: KeyType, len: nat, s: seq<Entry>, i: nat, e: Entry)
    requires Sorted(t, len, s) && Below(t, len, s, e.key, i) && Above(t, len, s, e.key, i)
    ensures Sorted(t, len, InsertAt(s, i, e))
    ensures forall universe :: e.key in universe && KeysIn(s, universe) ==> KeysIn(InsertAt(s, i, e), universe)
  {
    hide Compare;
  }

  lemma {:induction false} RemoveSorted(t: KeyType, len: nat, s: seq<Entry>, i: nat)
    requires i < |s| && Sorted(t, len, s)
    ensures Sorted(t, len, RemoveAt(s, i))
  {
    hide Compare;
  }

  /** In a sorted sequence the sign at one entry bounds the place of a key. */
  lemma {:induction false} SignBounds(t: KeyType, len: nat, universe: iset<Key>, s: seq<Entry>, key: Key, i: nat)
    requires TotalOn(t, len, universe) && Sorted(t, len, s) && KeysIn(s, universe) && key in universe && i < |s|
    ensures Compare(t, len, key, s[i].key) >= 0 ==> Below(t, len, s, key, i) && Below(t, len, s, key, i + 1)
    ensures Compare(t, len, key, s[i].key) <= 0 ==> Above(t, len, s, key, i) && Above(t, len, s, key, i + 1)
  {
    var at := s[i].key;
    assert OrderLaws(t, len, key, at, at) && OrderLaws(t, len, at, key, key);
    if Compare(t, len, key, at) >= 0 {
      forall j | 0 <= j <= i ensures Compare(t, len, s[j].key, key) <= 0 {
        assert OrderLaws(t, len, s[j].key, at, key);
      }
    }
    if Compare(t, len, key, at) <= 0 {
      forall j | i <= j < |s| ensures Compare(t, len, key, s[j].key) <= 0 {
        assert OrderLaws(t, len, key, at, s[j].key);
      }
    }
  }

  lemma {:induction false} EmptyBounds(t: KeyType, len: nat, s: seq<Entry>, key: Key)
    requires |key| == len && Sorted(t, len, s)
    ensures Below(t, len, s, key, 0) && Above(t, len, s, key, |s|)
  {
  }

  /** ...and a key that is present lies on the side the sign points to. */
  lemma {:induction false} SignLocates(t: KeyType, len: nat, universe: iset<Key>, s: seq<Entry>, key: Key, i: nat,
                                       j: nat)
    requires TotalOn(t, len, universe) && Sorted(t, len, s) && KeysIn(s, universe)
    requires key in universe && i < |s| && j < |s| && s[j].key == key
    ensures Compare(t, len, key, s[i].key) > 0 ==> i < j
    ensures Compare(t, len, key, s[i].key) < 0 ==> j < i
    ensures Compare(t, len, key, s[i].key) == 0 ==> s[i].key == key
  {
    hide Compare;
    assert OrderLaws(t, len, key, s[i].key, key) && OrderLaws(t, len, s[i].key, key, key);
  }

  // ----- the zero-fill of a new allocation step

  const ENTRY_SIZE := 16              // sizeof(sequence_entry_t)

  /** The byte offset of `entries + oldLength`, where `oldLength` counts bytes already. */
  function FillStart(oldLength: nat): nat { ENTRY_SIZE * oldLength }

  /** The zero-fill stays inside the enlarged array exactly if there was none before. */
  lemma {:induction false} FillInsideIff(size: nat, alloc: nat)
    requires alloc > 0
    ensures var oldLength, length := ENTRY_SIZE * size, ENTRY_SIZE * (size + alloc);
            FillStart(oldLength) + (length - oldLength) <= length <==> size == 0
  {
  }

  /** The second step of an index: of 512 bytes, those from 4096 on are zeroed. */
  lemma {:induction false} SeventeenthEntry()
    ensures ENTRY_SIZE * (16 + 16) == 512 && FillStart(ENTRY_SIZE * 16) == 4096
  {
  }

  lemma {:induction false} OneStepLess(steps: nat, alloc: nat)
    requires steps * alloc > 0
    ensures steps > 0 && alloc > 0 && (steps - 1) * alloc == steps * alloc - alloc
  {
  }

  /** An array in use is at least one step long. */
  lemma {:induction false} AtLeastOneStep(steps: nat, alloc: nat)
    requires steps > 0
    ensures steps * alloc >= alloc
  {
  }

  class Sequence {
    const alloc: nat
    const keyType: KeyType
    const klen: nat
    ghost const universe: iset<Key>   // the keys the caller may use
    ghost var contents: seq<Entry>
    var size: nat
    var nentry: nat
    var entries: array<Cell>
    var intact: bool                  // not a field of the source, see Grow
    ghost var steps: nat              // how many allocation steps the array is long

    ghost predicate Valid()
      reads this, entries
    {
      && intact && alloc > 0 && TotalOn(keyType, klen, universe)
      && Stored(nentry) && (size == 0 || size - alloc < nentry)
      && (nentry == 0 ==> size == 0) && size == steps * alloc
      && KeysIn(contents, universe) && Sorted(keyType, klen, contents)
    }

    /** The first `n` cells hold the contents. */
    ghost predicate Stored(n: nat)
      reads this, entries
    {
      && entries.Length == size && |contents| == n <= size
      && forall i | 0 <= i < n :: entries[i] == Used(contents[i])
    }

    constructor (alloc: nat, keyType: KeyType, klen: nat, ghost universe: iset<Key>)
      requires alloc > 0 && TotalOn(keyType, klen, universe)
      ensures Valid() && contents == [] && fresh(entries) && size == 0 && this.alloc == alloc
      ensures this.keyType == keyType && this.klen == klen && this.universe == universe
    {
      this.alloc, this.keyType, this.klen, this.universe := alloc, keyType, klen, universe;
      size, nentry, contents, intact, steps := 0, 0, [], true, 0;
      entries := new Cell[0];
    }

    /** The order of `key` relative to a cell; comparators give 0 for NULL. */
    function Order(key: Key, cell: Cell): int
      requires |key| == klen && (cell.Used? ==> |cell.entry.key| == klen)
    {
      match cell
      case Zeroed => 0
      case Used(e) => Compare(keyType, klen, key, e.key)
    }

    /** realloc to a smaller array. */
    method Shrink(newSize: nat)
      requires newSize <= entries.Length
      modifies this`entries, this`size
      ensures fresh(entries) && entries.Length == size == newSize
      ensures forall i | 0 <= i < newSize :: entries[i] == old(entries[i])
    {
      var old_ := entries;
      entries := new Cell[newSize](i requires 0 <= i < old_.Length reads old_ => old_[i]);
      size := newSize;
    }

    /** realloc by one step and zero-fill. The new array holds what the old one held;
        `memset` is given a pointer to entries plus a number of bytes, so it starts
        that many entries behind the array. If that is outside the array, `intact`
        becomes false: the program is undefined from there on. */
    method Grow()
      requires entries.Length == size && alloc > 0
      modifies this`entries, this`size, this`intact
      ensures fresh(entries) && entries.Length == size == old(size) + alloc
      ensures intact == (old(intact) && old(size) == 0)
      ensures forall i | 0 <= i < old(size) :: entries[i] == old(entries[i])
      ensures old(size) == 0 ==> forall i | 0 <= i < size :: entries[i] == Zeroed
    {
      var old_, oldLength := entries, ENTRY_SIZE * size;
      size := size + alloc;
      var length := ENTRY_SIZE * size;
      entries := new Cell[size];
      forall i | 0 <= i < old_.Length {
        entries[i] := old_[i];
      }
      var start := FillStart(oldLength);
      FillInsideIff(old(size), alloc);
      if start + (length - oldLength) <= length {
        forall i | start / ENTRY_SIZE <= i < (start + (length - oldLength)) / ENTRY_SIZE {
          entries[i] := Zeroed;
        }
      } else {
        intact := false;
      }
    }

    /** The search loop of mdb_sequence_add among the `n` entries stored. */
    method InsertionPoint(key: Key, n: nat) returns (i: nat)
      requires TotalOn(keyType, klen, universe) && key in universe
      requires Stored(n) && n < size && (n == 0 ==> entries[0].Zeroed?)
      requires KeysIn(contents, universe) && Sorted(keyType, klen, contents)
      ensures i <= n && Below(keyType, klen, contents, key, i) && Above(keyType, klen, contents, key, i)
    {
      assert |key| == klen && forall j | 0 <= j < n :: |contents[j].key| == klen;
      hide Compare, Sorted, KeysIn, Below, Above;
      var min, max := 0, n;
      i := max / 2;
      EmptyBounds(keyType, klen, contents, key);
      while true
        invariant 0 <= min <= max <= n && i == (min + max) / 2 && (n > 0 ==> min < max)
        invariant Below(keyType, klen, contents, key, min) && Above(keyType, klen, contents, key, max)
        decreases max - min
      {
        var cmp := Order(key, entries[i]);
        if n > 0 {
          SignBounds(keyType, klen, universe, contents, key, i);
        }
        if cmp == 0 {
          break;
        }
        if i == min {
          if cmp > 0 {
            i := max;
          }
          break;
        }
        if cmp < 0 {
          max := i;
        } else {
          min := i;
        }
        i := (min + max) / 2;
      }
    }

    /** memmove the tail up by one and write the new cell. */
    method Place(e: Entry, at: nat, n: nat)
      requires Stored(n) && n < size && at <= n
      modifies `contents, entries
      ensures contents == InsertAt(old(contents), at, e) && Stored(n + 1)
    {
      hide InsertAt;
      InsertedAt(contents, at, e, at);
      forall k | at < k <= n {
        entries[k] := entries[k - 1];
      }
      entries[at] := Used(e);
      forall k | 0 <= k <= n ensures entries[k] == Used(InsertAt(contents, at, e)[k]) {
        InsertedAt(contents, at, e, k);
      }
      contents := InsertAt(contents, at, e);
    }

    lemma {:induction false} RoomOfOneStep()
      requires Valid()
      ensures nentry < alloc ==> HasRoom()
      ensures size <= alloc && nentry >= alloc ==> !HasRoom()
    {
      if steps > 0 {
        AtLeastOneStep(steps, alloc);
      }
    }

    /** Another entry fits without enlarging an array that is in use. */
    predicate HasRoom()
      reads this
    {
      nentry < size || size == 0
    }

    /** One more entry, if there is room; otherwise memory outside the array is zeroed. */
    method Add(key: Key, data: Ptr) returns (ghost i: nat)
      requires Valid() && key in universe && data != 0
      modifies this, entries
      ensures Valid() <==> old(HasRoom())
      ensures intact <==> old(HasRoom())
      ensures entries == old(entries) || fresh(entries)
      ensures old(HasRoom()) ==>
                && i <= |old(contents)| && contents == InsertAt(old(contents), i, Entry(key, data))
                && size == if old(size) == 0 then alloc else old(size)
    {
      hide Compare, TotalOn, Below, Above, Sorted, KeysIn, InsertAt;
      var n := nentry;
      nentry := nentry + 1;
      if n + 1 > size {
        Grow();
        steps := steps + 1;
        if !intact {
          return 0;
        }
      }
      var at := InsertionPoint(key, n);
      InsertSorted(keyType, klen, contents, at, Entry(key, data));
      Place(Entry(key, data), at, n);
      i := at;
    }

    /** The search of mdb_sequence_delete looks at the cell behind the last entry exactly if
        the key is not there and greater than all keys, or fewer than two keys are there. */
    ghost predicate StaysInside(key: Key)
      reads this, entries
      requires Valid() && key in universe
    {
      HasKey(contents, key) || (nentry > 1 && Compare(keyType, klen, key, contents[nentry - 1].key) < 0)
    }

    /** What is known between two turns of the search. */
    ghost predicate Narrowed(key: Key, min: nat, max: nat)
      reads this, entries
      requires Valid() && key in universe
    {
      && min < max <= nentry
      && (min > 0 ==> Compare(keyType, klen, key, contents[min].key) > 0)
      && (max < nentry ==> Compare(keyType, klen, key, contents[max].key) < 0)
      && forall j | 0 <= j < nentry && contents[j].key == key :: min <= j < max
    }

    lemma {:induction false} Narrow(key: Key, min: nat, max: nat, i: nat)
      requires Valid() && key in universe && Narrowed(key, min, max) && i == (min + max) / 2
      ensures |key| == klen == |contents[i].key| && entries[i] == Used(contents[i])
      ensures Order(key, entries[i]) == 0 <==> contents[i].key == key
      ensures Order(key, entries[i]) < 0 && i != min ==> Narrowed(key, min, i)
      ensures Order(key, entries[i]) > 0 && i != min ==> Narrowed(key, i, max)
    {
      EqualIffSame(keyType, klen, universe, key, contents[i].key);
      forall j | 0 <= j < nentry && contents[j].key == key
        ensures Order(key, entries[i]) < 0 ==> j < i
        ensures Order(key, entries[i]) > 0 ==> i < j
      {
        SignLocates(keyType, klen, universe, contents, key, i, j);
      }
    }

    /** If the search ends without a hit, the key is not there, nor is it in the cell that
        is looked at last. */
    lemma {:induction false} NotThere(key: Key, min: nat, max: nat)
      requires Valid() && key in universe && StaysInside(key) && Narrowed(key, min, max) && max == min + 1
      requires contents[min].key != key
      ensures max < nentry && |key| == klen == |contents[max].key| && entries[max] == Used(contents[max])
      ensures !HasKey(contents, key) && Order(key, entries[max]) != 0
    {
      hide Compare;
    }

    /** The search loop of mdb_sequence_delete. */
    method Find(key: Key) returns (i: Option<nat>)
      requires Valid() && key in universe && StaysInside(key)
      ensures i.Some? <==> HasKey(contents, key)
      ensures i.Some? ==> i.value < nentry && contents[i.value].key == key
    {
      hide Compare, TotalOn, Sorted;
      var min: nat, max: nat := 0, nentry;
      var at: nat := max / 2;
      while true
        invariant Narrowed(key, min, max) && at == (min + max) / 2
        decreases max - min
      {
        Narrow(key, min, max, at);
        var cmp := Order(key, entries[at]);
        if cmp == 0 {
          return Some(at);
        }
        if at == min {
          NotThere(key, min, max);
          if at != max && Order(key, entries[max]) == 0 {
            assert false;
          }
          return None;
        }
        if cmp < 0 {
          max := at;
        } else {
          min := at;
        }
        at := (min + max) / 2;
      }
    }

    /** The data of the key, whose entry goes; 0 and no change if there is none. */
    method Delete(key: Key) returns (data: Ptr, ghost i: nat)
      requires Valid() && key in universe && StaysInside(key)
      modifies this, entries
      ensures Valid() && (entries == old(entries) || fresh(entries)) && size <= old(size)
      ensures old(HasKey(contents, key)) ==>
                && i < |old(contents)| && old(contents)[i] == Entry(key, data) && contents == RemoveAt(old(contents), i)
      ensures !old(HasKey(contents, key)) ==> data == 0 && contents == old(contents) && size == old(size)
    {
      hide Compare, TotalOn, Sorted;
      var found := Find(key);
      i := 0;
      if found == None {
        return 0, 0;
      }
      data := RemoveEntry(found.value);
      i := found.value;
    }

    /** The rest of it: the entries behind move up, and an unused step is given back. */
    method RemoveEntry(at: nat) returns (data: Ptr)
      requires Valid() && at < nentry
      modifies this, entries
      ensures Valid() && (entries == old(entries) || fresh(entries))
      ensures data == old(contents)[at].data && contents == RemoveAt(old(contents), at) && size <= old(size)
    {
      hide Compare, TotalOn, Sorted;
      RemoveSorted(keyType, klen, contents, at);
      data := entries[at].entry.data;
      nentry := nentry - 1;
      contents := RemoveAt(contents, at);
      if nentry == 0 {
        steps := 0;
        Shrink(0);
      } else {
        forall k | at <= k < nentry {
          entries[k] := entries[k + 1];
        }
        if nentry <= size - alloc {
          OneStepLess(steps, alloc);
          steps := steps - 1;
          Shrink(size - alloc);
        }
      }
    }

    method Reset()
      requires Valid()
      modifies this, entries
      ensures Valid() && contents == [] && fresh(entries) && size == 0
    {
      nentry, contents, steps := 0, [], 0;
      Shrink(0);
    }

    /** The first call of mdb_sequence_iterate: the cursor copies the data pointers. */
    method Snapshot() returns (rows: seq<Ptr>)
      requires Valid()
      ensures rows == Rows(contents)
    {
      rows := [];
      for i := 0 to nentry
        invariant rows == Rows(contents)[..i]
      {
        rows := rows + [entries[i].entry.data];
      }
    }
  }

  function Rows(s: seq<Entry>): (rows: seq<Ptr>)
    ensures |rows| == |s| && forall i | 0 <= i < |s| :: rows[i] == s[i].data
  {
    seq(|s|, i requires 0 <= i < |s| => s[i].data)
  }
}
