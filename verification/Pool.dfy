// The object pool (src/common/mm.c).

module ObjectPool {
  import opened Arithmetic
  import opened LinkedLists
  import opened Masks
  import opened PoolSizing

  type Ptr = nat

  const MAX_WORDS := 31        // (1 << nword) - 1 must fit an int

  /** The part of a chunk that the allocator reads: the cache word and the status words. */
  datatype Chunk = Chunk(cache: Mask, used: seq<Mask>)

  /** The fields of a pool that never change. */
  datatype Geometry = Geometry(chunkSize: nat, objsize: nat, nperchunk: nat)

  predicate GeometryOk(g: Geometry) {
    && 0 < g.objsize && 0 < g.nperchunk && Words(g.nperchunk) <= MAX_WORDS
    && FirstSlot(g.nperchunk) + g.nperchunk * g.objsize <= g.chunkSize
  }

  // ----- one chunk

  predicate Free(c: Chunk, s: nat)
    requires s / BITS < |c.used|
  {
    c.used[s / BITS][s % BITS]
  }

  /** A cache bit is set exactly if its status word has a free slot, and no status bit
      behind the last slot is set. */
  ghost predicate ChunkOk(c: Chunk, n: nat) {
    && |c.used| == Words(n) <= MAX_WORDS
    && (forall i: Index :: c.cache[i] <==> i < |c.used| && c.used[i] != FULL)
    && (forall s: nat | n <= s < BITS * |c.used| :: !Free(c, s))
  }

  ghost predicate AllFree(c: Chunk, n: nat) { forall s: nat | s < n :: s / BITS < |c.used| && Free(c, s) }

  lemma {:induction false} SlotInWords(s: nat, n: nat)
    requires s < n
    ensures s / BITS < Words(n) && s < BITS * Words(n)
  {
  }

  lemma {:induction false} SlotParts(i: nat, j: Index)
    ensures (i * BITS + j) / BITS == i && (i * BITS + j) % BITS == j
  {
  }

  /** chunk_init */
  method InitChunk(n: nat) returns (c: Chunk)
    requires 0 < n && Words(n) <= MAX_WORDS
    ensures ChunkOk(c, n) && c.cache != FULL && AllFree(c, n)
  {
    var used: seq<Mask>, left: int := [], n;
    while left > 0
      invariant left == n - BITS * |used| && |used| <= Words(n)
      invariant forall i, j: Index | 0 <= i < |used| :: used[i][j] <==> i * BITS + j < n
    {
      used := used + [if left >= BITS then EMPTY else Low(left)];
      left := left - BITS;
    }
    c := Chunk(Low(Words(n)), used);
    forall i: Index ensures c.cache[i] <==> i < |used| && used[i] != FULL {
      if i < |used| {
        assert used[i][0];
      }
    }
    assert c.cache[0];
  }

  /** A chunk has a free slot exactly if its cache word is not all zero. */
  lemma {:induction false} SpaceIff(c: Chunk, n: nat)
    requires ChunkOk(c, n)
    ensures c.cache != FULL <==> exists s: nat :: s < n && s / BITS < |c.used| && Free(c, s)
  {
    if c.cache != FULL {
      var i: Index :| c.cache[i];
      FullIff(c.used[i]);
      var j: Index :| c.used[i][j];
      SlotParts(i, j);
      assert Free(c, i * BITS + j);
    }
  }

  function Claimed(c: Chunk, i: Index, j: Index): Chunk
    requires i < |c.used|
  {
    var word := c.used[i][j := false];
    Chunk(if word == FULL then c.cache[i := false] else c.cache, c.used[i := word])
  }

  function Released(c: Chunk, i: Index, j: Index): Chunk
    requires i < |c.used|
  {
    Chunk(c.cache[i := true], c.used[i := c.used[i][j := true]])
  }

  lemma {:induction false} ClaimedOk(c: Chunk, n: nat, i: Index, j: Index)
    requires ChunkOk(c, n) && i < |c.used| && c.used[i][j]
    ensures i * BITS + j < n && ChunkOk(Claimed(c, i, j), n)
    ensures forall t: nat | t < n ::
              t / BITS < |c.used| && (Free(Claimed(c, i, j), t) <==> Free(c, t) && t != i * BITS + j)
  {
    SlotParts(i, j);
    assert Free(c, i * BITS + j);
    var d := Claimed(c, i, j);
    forall t: nat | t < BITS * |c.used|
      ensures t / BITS < |c.used| && (Free(d, t) <==> Free(c, t) && t != i * BITS + j)
    {
      if t / BITS == i {
        assert d.used[i] == c.used[i][j := false];
      }
    }
  }

  lemma {:induction false} ReleasedOk(c: Chunk, n: nat, i: Index, j: Index)
    requires ChunkOk(c, n) && i < |c.used| && i * BITS + j < n
    ensures ChunkOk(Released(c, i, j), n) && Released(c, i, j).cache != FULL
    ensures forall t: nat | t < n ::
              t / BITS < |c.used| && (Free(Released(c, i, j), t) <==> Free(c, t) || t == i * BITS + j)
  {
    SlotParts(i, j);
    var d := Released(c, i, j);
    assert d.used[i][j] && d.cache[i];
    FullIff(d.used[i]);
    forall t: nat | t < BITS * |c.used|
      ensures t / BITS < |c.used| && (Free(d, t) <==> Free(c, t) || t == i * BITS + j)
    {
      if t / BITS == i {
        assert d.used[i] == c.used[i][j := true];
      }
    }
  }

  /** chunk_empty: recognises an empty chunk exactly if it has 16 status words. */
  method ChunkEmpty(c: Chunk, n: nat) returns (empty: bool)
    requires ChunkOk(c, n)
    ensures empty <==> Words(n) == 16 && AllFree(c, n)
  {
    if c.cache != And(EMPTY, Low(16)) {
      NotSixteen(c, n);
      return false;
    }
    Sixteen(c, n);
    var left: int, i := n, 0;
    while left > 0
      invariant left == n - BITS * i && 0 <= i <= Words(n)
      invariant forall s: nat | s < n && s < BITS * i :: s / BITS < |c.used| && Free(c, s)
    {
      var mask := if left >= BITS then EMPTY else Low(left);
      assert mask == Low(left);
      Covers(c.used[i], left);
      if And(c.used[i], mask) != mask {
        var j: Index :| j < left && !c.used[i][j];
        SlotParts(i, j);
        assert !Free(c, i * BITS + j);
        return false;
      }
      forall s: nat | s < n && s < BITS * (i + 1) ensures s / BITS < |c.used| && Free(c, s) {
        if s >= BITS * i {
          assert s / BITS == i && s % BITS < left;
        }
      }
      left, i := left - BITS, i + 1;
    }
    empty := true;
  }

  lemma {:induction false} NotSixteen(c: Chunk, n: nat)
    requires ChunkOk(c, n) && c.cache != And(EMPTY, Low(16))
    ensures Words(n) == 16 ==> exists s: nat :: s < n && s / BITS < |c.used| && !Free(c, s)
  {
    if Words(n) == 16 {
      var i: Index :| c.cache[i] != And(EMPTY, Low(16))[i];
      FullIff(c.used[i]);
      assert i * BITS < n;
      SlotParts(i, 0);
      assert !Free(c, i * BITS + 0);
    }
  }

  lemma {:induction false} Sixteen(c: Chunk, n: nat)
    requires ChunkOk(c, n) && c.cache == And(EMPTY, Low(16))
    ensures Words(n) >= 16
    ensures Words(n) > 16 ==> 16 * BITS < n && 16 * BITS / BITS < |c.used| && !Free(c, 16 * BITS)
  {
    assert c.cache[15] && !c.cache[16];
    if Words(n) > 16 {
      FullIff(c.used[16]);
    }
  }

  // ----- addresses

  function Address(g: Geometry, c: Ptr, s: nat): (a: Ptr)
    ensures a >= c + FirstSlot(g.nperchunk)
  {
    NotNegative(s, g.objsize);
    c + FirstSlot(g.nperchunk) + s * g.objsize
  }

  lemma {:induction false} InsideChunk(g: Geometry, c: Ptr, s: nat)
    requires GeometryOk(g) && s < g.nperchunk
    ensures c + FirstSlot(g.nperchunk) <= Address(g, c, s) && Address(g, c, s) + g.objsize <= c + g.chunkSize
  {
    var d := g.nperchunk - 1 - s;
    NotNegative(d, g.objsize);
    assert g.nperchunk * g.objsize == s * g.objsize + g.objsize + d * g.objsize;
  }

  /** No byte of an object belongs to the header of its chunk, the cache word included, or to
      a status word. */
  lemma {:induction false} BehindStatusWords(g: Geometry, chunk: Chunk, c: Ptr, s: nat, k: nat, byte: nat)
    requires GeometryOk(g) && ChunkOk(chunk, g.nperchunk) && s < g.nperchunk && k < |chunk.used|
    requires Address(g, c, s) <= byte < Address(g, c, s) + g.objsize
    ensures !(c <= byte < c + USED_AT)
    ensures !(c + USED_AT + W * k <= byte < c + USED_AT + W * (k + 1))
    ensures c + USED_AT + W * |chunk.used| <= byte < c + g.chunkSize
  {
    InsideChunk(g, c, s);
  }

  /** Objects do not overlap. */
  lemma {:induction false} Apart(g: Geometry, c: Ptr, s: nat, t: nat)
    requires GeometryOk(g) && s < t
    ensures Address(g, c, s) + g.objsize <= Address(g, c, t)
  {
    var d := t - s - 1;
    NotNegative(d, g.objsize);
    assert t * g.objsize == s * g.objsize + g.objsize + d * g.objsize;
  }

  /** What mrp_objpool_free computes from an object is the chunk and the slot that
      mrp_objpool_alloc made it from. */
  lemma {:induction false} AddressInverse(g: Geometry, c: Ptr, s: nat)
    requires GeometryOk(g) && s < g.nperchunk && c % g.chunkSize == 0
    ensures var a := Address(g, c, s);
            a - a % g.chunkSize == c && (a - (c + FirstSlot(g.nperchunk))) / g.objsize == s
  {
    hide FirstSlot;
    var first := FirstSlot(g.nperchunk);
    InsideChunk(g, c, s);
    NotNegative(s, g.objsize);
    AlignDown(g.chunkSize, c, first + s * g.objsize);
    QuotientOf(g.objsize, s, 0);
    assert Address(g, c, s) - (c + first) == s * g.objsize;
  }

  /** A limit rounded up to whole chunks. */
  function RoundedUp(limit: nat, n: nat): (r: nat)
    requires n > 0
    ensures limit <= r < limit + n && r % n == 0 && (r == 0 <==> limit == 0)
  {
    if limit % n != 0 then (RoundUp(limit, n); limit + (n - limit % n)) else limit
  }

  // ----- live objects

  ghost predicate ChunksOk(g: Geometry, chunks: map<Ptr, Chunk>) {
    GeometryOk(g) && forall c | c in chunks :: c > 0 && c % g.chunkSize == 0 && ChunkOk(chunks[c], g.nperchunk)
  }

  ghost predicate SlotLive(g: Geometry, chunks: map<Ptr, Chunk>, c: Ptr, s: nat)
    requires ChunksOk(g, chunks)
  {
    c in chunks && s < g.nperchunk && !(SlotInWords(s, g.nperchunk); Free(chunks[c], s))
  }

  ghost function Live(g: Geometry, chunks: map<Ptr, Chunk>): set<Ptr>
    requires ChunksOk(g, chunks)
  {
    set c, s | c in chunks && 0 <= s < g.nperchunk && SlotLive(g, chunks, c, s) :: Address(g, c, s)
  }

  /** The address of a slot of the pool. */
  ghost predicate IsSlot(g: Geometry, chunks: map<Ptr, Chunk>, a: Ptr) {
    exists c: Ptr, s: nat :: c in chunks && s < g.nperchunk && a == Address(g, c, s)
  }

  lemma {:induction false} LiveIff(g: Geometry, chunks: map<Ptr, Chunk>, c: Ptr, s: nat)
    requires ChunksOk(g, chunks) && c in chunks && s < g.nperchunk
    ensures Address(g, c, s) in Live(g, chunks) <==> SlotLive(g, chunks, c, s)
    ensures IsSlot(g, chunks, Address(g, c, s))
  {
    hide ChunkOk, Free, Address, FirstSlot;
    AddressInverse(g, c, s);
    InsideChunk(g, c, s);
    if Address(g, c, s) in Live(g, chunks) {
      var c', s' :| c' in chunks && 0 <= s' < g.nperchunk && SlotLive(g, chunks, c', s')
        && Address(g, c', s') == Address(g, c, s);
      AddressInverse(g, c', s');
    }
  }

  /** Changing the state of one slot changes the live objects by that object. */
  lemma {:induction false} LiveChange(g: Geometry, chunks: map<Ptr, Chunk>, chunks': map<Ptr, Chunk>, c: Ptr, s: nat,
                                      live: bool)
    requires ChunksOk(g, chunks) && ChunksOk(g, chunks') && chunks.Keys == chunks'.Keys
    requires c in chunks && s < g.nperchunk
    requires forall d, t: nat :: SlotLive(g, chunks', d, t) <==>
                                 if d == c && t == s then live else SlotLive(g, chunks, d, t)
    ensures Live(g, chunks') == if live then Live(g, chunks) + {Address(g, c, s)}
            else Live(g, chunks) - {Address(g, c, s)}
  {
    hide ChunkOk, Free, Address, FirstSlot, SlotLive, ChunksOk;
    var a := Address(g, c, s);
    forall b ensures b in Live(g, chunks') <==> if b == a then live else b in Live(g, chunks) {
      LiveIff(g, chunks, c, s);
      LiveIff(g, chunks', c, s);
      if b != a && b in Live(g, chunks') {
        var d, t :| d in chunks' && 0 <= t < g.nperchunk && SlotLive(g, chunks', d, t) && Address(g, d, t) == b;
        LiveIff(g, chunks, d, t);
      }
      if b != a && b in Live(g, chunks) {
        var d, t :| d in chunks && 0 <= t < g.nperchunk && SlotLive(g, chunks, d, t) && Address(g, d, t) == b;
        LiveIff(g, chunks', d, t);
      }
    }
  }

  lemma {:induction false} ClaimSlot(g: Geometry, chunks: map<Ptr, Chunk>, c: Ptr, i: Index, j: Index)
    requires ChunksOk(g, chunks) && c in chunks && i < |chunks[c].used| && chunks[c].used[i][j]
    ensures var a, chunks' := Address(g, c, i * BITS + j), chunks[c := Claimed(chunks[c], i, j)];
            && i * BITS + j < g.nperchunk && ChunksOk(g, chunks')
            && a !in Live(g, chunks) && Live(g, chunks') == Live(g, chunks) + {a}
  {
    hide Claimed, ChunkOk, Address, Live;
    var s := i * BITS + j;
    var chunks' := chunks[c := Claimed(chunks[c], i, j)];
    ClaimedOk(chunks[c], g.nperchunk, i, j);
    SlotParts(i, j);
    forall d, t: nat
      ensures SlotLive(g, chunks', d, t) <==> if d == c && t == s then true else SlotLive(g, chunks, d, t)
    {
    }
    LiveIff(g, chunks, c, s);
    LiveChange(g, chunks, chunks', c, s, true);
  }

  lemma {:induction false} ReleaseSlot(g: Geometry, chunks: map<Ptr, Chunk>, c: Ptr, i: Index, j: Index)
    requires ChunksOk(g, chunks) && c in chunks && i < |chunks[c].used| && i * BITS + j < g.nperchunk
    requires !chunks[c].used[i][j]
    ensures var a, chunks' := Address(g, c, i * BITS + j), chunks[c := Released(chunks[c], i, j)];
            && ChunksOk(g, chunks') && chunks'[c].cache != FULL
            && a in Live(g, chunks) && Live(g, chunks') == Live(g, chunks) - {a}
  {
    hide Released, ChunkOk, Address, Live;
    var s := i * BITS + j;
    var chunks' := chunks[c := Released(chunks[c], i, j)];
    ReleasedOk(chunks[c], g.nperchunk, i, j);
    SlotParts(i, j);
    forall d, t: nat
      ensures SlotLive(g, chunks', d, t) <==> if d == c && t == s then false else SlotLive(g, chunks, d, t)
    {
    }
    LiveIff(g, chunks, c, s);
    LiveChange(g, chunks, chunks', c, s, false);
  }

  /** A chunk all of whose slots are free can come and go. */
  lemma {:induction false} FreeChunk(g: Geometry, chunks: map<Ptr, Chunk>, c: Ptr, chunk: Chunk)
    requires ChunksOk(g, chunks) && c !in chunks && c > 0 && c % g.chunkSize == 0 && ChunkOk(chunk, g.nperchunk)
    requires AllFree(chunk, g.nperchunk)
    ensures ChunksOk(g, chunks[c := chunk]) && Live(g, chunks[c := chunk]) == Live(g, chunks)
  {
    hide ChunkOk, Free, Address;
    var chunks' := chunks[c := chunk];
    forall a ensures a in Live(g, chunks') <==> a in Live(g, chunks) {
      if a in Live(g, chunks') {
        var d, t :| d in chunks' && 0 <= t < g.nperchunk && SlotLive(g, chunks', d, t) && Address(g, d, t) == a;
        assert d != c && SlotLive(g, chunks, d, t);
      }
      if a in Live(g, chunks) {
        var d, t :| d in chunks && 0 <= t < g.nperchunk && SlotLive(g, chunks, d, t) && Address(g, d, t) == a;
        assert d in chunks' && SlotLive(g, chunks', d, t);
      }
    }
  }

  lemma {:induction false} SomeAddress(size: nat, taken: set<Ptr>) returns (c: Ptr)
    requires size > 0
    ensures c > 0 && c % size == 0 && c !in taken
  {
    var b := LargestOf(taken);
    c := (b + 1) * size;
    QuotientOf(size, b + 1, 0);
    NotNegative(b + 1, size - 1);
    assert c == (b + 1) + (b + 1) * (size - 1);
  }

  // ----- the pool

  ghost predicate ListsOk(chunks: map<Ptr, Chunk>, space: seq<Ptr>, full: seq<Ptr>) {
    && NoDuplicates(space) && NoDuplicates(full)
    && (forall c :: c in space <==> c in chunks && chunks[c].cache != FULL)
    && (forall c :: c in full <==> c in chunks && chunks[c].cache == FULL)
  }

  lemma {:induction false} ListsClaim(chunks: map<Ptr, Chunk>, space: seq<Ptr>, full: seq<Ptr>, d: Chunk)
    requires ListsOk(chunks, space, full) && space != []
    ensures var c, chunks' := space[0], chunks[space[0] := d];
            c in chunks &&
            if d.cache == FULL then ListsOk(chunks', space[1..], full + [c]) else ListsOk(chunks', space, full)
  {
    var c := space[0];
    assert c in space && space == [c] + space[1..];
    AppendLinks(full, c);
    assert forall i | 0 <= i < |space[1..]| :: space[1..][i] == space[i + 1];
    assert forall x :: x in space[1..] <==> x in space && x != c;
  }

  lemma {:induction false} ListsRelease(chunks: map<Ptr, Chunk>, space: seq<Ptr>, full: seq<Ptr>, c: Ptr, d: Chunk)
    requires ListsOk(chunks, space, full) && c in chunks && d.cache != FULL
    ensures var chunks' := chunks[c := d];
            if chunks[c].cache == FULL
            then |Unlink(full, c)| == |full| - 1 && ListsOk(chunks', space + [c], Unlink(full, c))
            else ListsOk(chunks', space, full)
  {
    if chunks[c].cache == FULL {
      UnlinkRemoves(full, c);
      AppendLinks(space, c);
      assert forall x :: x in Unlink(full, c) <==> x in Linked(Unlink(full, c));
    }
  }

  lemma {:induction false} SpaceHead(chunks: map<Ptr, Chunk>, space: seq<Ptr>, full: seq<Ptr>)
    requires ListsOk(chunks, space, full) && space != []
    ensures space[0] in chunks && chunks[space[0]].cache != FULL
  {
    assert space[0] in space;
  }

  lemma {:induction false} SlotAt(g: Geometry, chunks: map<Ptr, Chunk>, c: Ptr, s: nat)
    requires c in chunks && s < g.nperchunk
    ensures IsSlot(g, chunks, Address(g, c, s))
  {
  }

  lemma {:induction false} FirstFree(c: Chunk, n: nat)
    requires ChunkOk(c, n) && c.cache != FULL
    ensures var i := FindFirst(c.cache);
            0 < i <= |c.used| && i <= BITS && c.used[i - 1] != FULL && 0 < FindFirst(c.used[i - 1]) <= BITS
  {
    FullIff(c.cache);
    var i := FindFirst(c.cache);
    FullIff(c.used[i - 1]);
  }

  /** The slot that is free, all before it in the chunk being taken. */
  ghost predicate LowestFree(c: Chunk, s: nat) {
    s / BITS < |c.used| && Free(c, s) && forall t: nat | t < s :: t / BITS < |c.used| && !Free(c, t)
  }

  /** The two searches for a set bit find it. */
  lemma {:induction false} FoundLowest(c: Chunk, n: nat)
    requires ChunkOk(c, n) && c.cache != FULL
    ensures var i := FindFirst(c.cache);
            && 0 < i <= |c.used| && 0 < FindFirst(c.used[i - 1])
            && LowestFree(c, (i - 1) * BITS + FindFirst(c.used[i - 1]) - 1)
  {
    hide FindFirst;
    FirstFree(c, n);
    var i := FindFirst(c.cache) - 1;
    var j: Index := FindFirst(c.used[i]) - 1;
    SlotParts(i, j);
    forall t: nat | t < i * BITS + j ensures t / BITS < |c.used| && !Free(c, t) {
      if t / BITS < i {
        var k: Index := t / BITS;
        assert !c.cache[k] && c.used[k] == FULL;
        FullIff(c.used[k]);
      } else {
        assert t / BITS == i && t % BITS < j;
      }
    }
  }

  /** An object lies inside a chunk, behind its header and its status words. */
  ghost predicate ClearOfHeader(g: Geometry, chunks: map<Ptr, Chunk>, obj: Ptr)
    requires g.chunkSize > 0
  {
    var c := obj - obj % g.chunkSize;
    c in chunks && c + USED_AT + W * |chunks[c].used| <= obj && obj + g.objsize <= c + g.chunkSize
  }

  lemma {:induction false} SlotIsClear(g: Geometry, chunks: map<Ptr, Chunk>, a: Ptr)
    requires ChunksOk(g, chunks) && IsSlot(g, chunks, a)
    ensures g.chunkSize > 0 && ClearOfHeader(g, chunks, a)
  {
    hide Free;
    var c: Ptr, s: nat :| c in chunks && s < g.nperchunk && a == Address(g, c, s);
    AddressInverse(g, c, s);
    InsideChunk(g, c, s);
    BehindStatusWords(g, chunks[c], c, s, 0, a);
  }

  lemma {:induction false} SlotFound(g: Geometry, chunks: map<Ptr, Chunk>, a: Ptr) returns (c: Ptr, s: nat)
    requires ChunksOk(g, chunks) && IsSlot(g, chunks, a)
    ensures c in chunks && s < g.nperchunk && a == Address(g, c, s)
    ensures 0 < g.chunkSize && 0 < g.objsize && a - a % g.chunkSize == c
    ensures a >= c + FirstSlot(g.nperchunk) && (a - (c + FirstSlot(g.nperchunk))) / g.objsize == s
    ensures s / BITS < |chunks[c].used| <= MAX_WORDS
    ensures a in Live(g, chunks) <==> !chunks[c].used[s / BITS][s % BITS]
  {
    c, s :| c in chunks && s < g.nperchunk && a == Address(g, c, s);
    AddressInverse(g, c, s);
    InsideChunk(g, c, s);
    SlotInWords(s, g.nperchunk);
    LiveIff(g, chunks, c, s);
  }

  /** What the walk over a chunk sees at a slot. */
  lemma {:induction false} SameWord(s: nat, t: nat)
    requires s <= t < (s + BITS) / BITS * BITS
    ensures t / BITS == s / BITS
  {
  }

  /** One more object released, or none. */
  lemma {:induction false} Collect(objects: set<Ptr>, released: seq<Ptr>, obj: Ptr)
    requires NoDuplicates(released) && Linked(released) <= objects && 0 !in objects
    requires obj != 0 ==> obj in objects - Linked(released)
    ensures var r := if obj == 0 then released else released + [obj];
            && NoDuplicates(r) && Linked(r) <= objects && objects - Linked(r) == objects - Linked(released) - {obj}
  {
    hide NoDuplicates, Linked;
    if obj != 0 {
      FreshLink(released, obj);
    }
  }

  lemma {:induction false} WordStates(g: Geometry, chunks: map<Ptr, Chunk>, c: Ptr, s: nat)
    requires ChunksOk(g, chunks) && c in chunks && s < g.nperchunk
    ensures s / BITS < |chunks[c].used|
    ensures chunks[c].used[s / BITS][s % BITS] <==> Address(g, c, s) !in Live(g, chunks)
    ensures chunks[c].used[s / BITS] == EMPTY ==>
              forall t: nat | s <= t < (s + BITS) / BITS * BITS && t < g.nperchunk ::
                Address(g, c, t) !in Live(g, chunks)
    ensures chunks[c].cache == FULL ==> !chunks[c].used[s / BITS][s % BITS]
  {
    hide Address, Live;
    SlotInWords(s, g.nperchunk);
    LiveIff(g, chunks, c, s);
    forall t: nat | s <= t < (s + BITS) / BITS * BITS && t < g.nperchunk && chunks[c].used[s / BITS] == EMPTY
      ensures Address(g, c, t) !in Live(g, chunks)
    {
      SameWord(s, t);
      LiveIff(g, chunks, c, t);
    }
    if chunks[c].cache == FULL {
      FullIff(chunks[c].used[s / BITS]);
    }
  }

  lemma {:induction false} InSpace(chunks: map<Ptr, Chunk>, space: seq<Ptr>, full: seq<Ptr>, i: nat)
    requires ListsOk(chunks, space, full) && i < |space|
    ensures space[i] in chunks && chunks[space[i]].cache != FULL
  {
  }

  lemma {:induction false} NothingLive(g: Geometry, chunks: map<Ptr, Chunk>, space: seq<Ptr>)
    requires ChunksOk(g, chunks) && forall c | c in chunks :: c in space
    requires forall i, t: nat | 0 <= i < |space| && t < g.nperchunk :: Address(g, space[i], t) !in Live(g, chunks)
    ensures Live(g, chunks) == {}
  {
    hide Address, SlotLive;
  }

  lemma {:induction false} FullNotFree(c: Chunk, n: nat)
    requires ChunkOk(c, n) && c.cache == FULL && n > 0
    ensures !AllFree(c, n)
  {
    SpaceIff(c, n);
    assert !Free(c, 0) by {
      SlotInWords(0, n);
      FullIff(c.used[0]);
    }
  }

  lemma {:induction false} NoneRecognised(g: Geometry, chunks: map<Ptr, Chunk>, space: seq<Ptr>, full: seq<Ptr>)
    requires ChunksOk(g, chunks) && ListsOk(chunks, space, full)
    requires forall k | 0 <= k < |space| ::
               space[k] in chunks && !(Words(g.nperchunk) == 16 && AllFree(chunks[space[k]], g.nperchunk))
    ensures forall c | c in chunks :: !(Words(g.nperchunk) == 16 && AllFree(chunks[c], g.nperchunk))
  {
    hide ChunkOk, AllFree;
    forall c | c in chunks ensures !(Words(g.nperchunk) == 16 && AllFree(chunks[c], g.nperchunk)) {
      if chunks[c].cache == FULL {
        FullNotFree(chunks[c], g.nperchunk);
      } else {
        assert c in space;
      }
    }
  }

  lemma {:induction false} FullEmpty(g: Geometry, chunks: map<Ptr, Chunk>, space: seq<Ptr>, full: seq<Ptr>)
    requires ChunksOk(g, chunks) && ListsOk(chunks, space, full)
    ensures full != [] ==>
              full[0] in chunks && full[0] != 0 && chunks[full[0]].cache == FULL && Unlink(full, full[0]) == full[1..]
    ensures full == [] ==> forall c | c in chunks :: c in space
  {
    if full != [] {
      assert full[0] in full;
    }
  }

  lemma {:induction false} NoChunks(g: Geometry)
    requires GeometryOk(g)
    ensures ChunksOk(g, map[]) && Live(g, map[]) == {} && ListsOk(map[], [], [])
  {
  }

  const SIZE_MAX := 0xffff_ffff_ffff_ffff

  class Pool {
    const g: Geometry
    const limit: nat                 // 0 for none
    var nobj: nat
    var chunks: map<Ptr, Chunk>      // the chunks, by address
    var space: seq<Ptr>
    var nspace: nat
    var full: seq<Ptr>
    var nfull: nat

    ghost predicate Valid()
      reads this
    {
      && ChunksOk(g, chunks) && ListsOk(chunks, space, full)
      && nspace == |space| && nfull == |full| && nobj == |Live(g, chunks)| && (limit == 0 || nobj <= limit)
    }

    /** The objects that are allocated. */
    ghost function Objects(): set<Ptr>
      reads this
      requires Valid()
    {
      Live(g, chunks)
    }

    /** mrp_objpool_create, for chunks of `chunkSize` bytes. */
    constructor (chunkSize: nat, objsize: nat, limit: nat, prealloc: nat)
      requires var s := Align(if objsize > MIN_OBJECT then objsize else MIN_OBJECT);
               && B * chunkSize >= B * HEADER + W * (2 * B - 1) && Estimate(chunkSize, s) >= 1
               && Words(Calculate(chunkSize, s).nperchunk) <= MAX_WORDS
      ensures Valid() && Objects() == {} && full == []
      ensures g.chunkSize == chunkSize && g.objsize >= objsize && g.objsize % 8 == 0
      ensures this.limit >= limit && (limit == 0 <==> this.limit == 0) && this.limit % g.nperchunk == 0
      ensures this.limit < limit + g.nperchunk
      ensures |space| == (prealloc + g.nperchunk - 1) / g.nperchunk
    {
      hide Calculate, Estimate, Words, FirstSlot, Align, RoundedUp, Live, ListsOk, ChunkOk;
      var s := Align(if objsize > MIN_OBJECT then objsize else MIN_OBJECT);
      var n := Calculate(chunkSize, s).nperchunk;
      SizesFit(chunkSize, s);
      this.limit := RoundedUp(limit, n);
      g, nobj, chunks := Geometry(chunkSize, s, n), 0, map[];
      space, nspace, full, nfull := [], 0, [], 0;
      new;
      NoChunks(g);
      var nchunk := (prealloc + n - 1) / n;
      var cnt := Grow(nchunk);
    }

    /** pool_grow; a new chunk lies at any aligned address that no chunk has. */
    method Grow(nchunk: int) returns (cnt: nat)
      requires Valid()
      modifies this
      ensures Valid() && Objects() == old(Objects()) && nobj == old(nobj) && full == old(full)
      ensures cnt == (if nchunk < 0 then 0 else nchunk) && |space| == |old(space)| + cnt
      ensures chunks.Keys >= old(chunks.Keys) && forall c | c in old(chunks) :: chunks[c] == old(chunks)[c]
    {
      cnt := 0;
      while cnt < nchunk
        invariant Valid() && Objects() == old(Objects()) && nobj == old(nobj) && full == old(full)
        invariant (nchunk >= 0 ==> cnt <= nchunk) && (nchunk < 0 ==> cnt == 0) && |space| == |old(space)| + cnt
        invariant chunks.Keys >= old(chunks.Keys) && forall c | c in old(chunks) :: chunks[c] == old(chunks)[c]
      {
        AddChunk();
        cnt := cnt + 1;
      }
    }

    method AddChunk()
      requires Valid()
      modifies this
      ensures Valid() && Objects() == old(Objects()) && nobj == old(nobj) && full == old(full)
      ensures |space| == |old(space)| + 1
      ensures chunks.Keys >= old(chunks.Keys) && forall c | c in old(chunks) :: chunks[c] == old(chunks)[c]
    {
      hide ChunkOk, Live, Free;
      var chunk := InitChunk(g.nperchunk);
      ghost var somewhere := SomeAddress(g.chunkSize, chunks.Keys);
      var c: Ptr :| c > 0 && c % g.chunkSize == 0 && c !in chunks;
      FreeChunk(g, chunks, c, chunk);
      AppendLinks(space, c);
      chunks, space, nspace := chunks[c := chunk], space + [c], nspace + 1;
    }

    /** mrp_list_delete and chunk_free of a chunk without live objects. */
    method RemoveChunk(i: nat)
      requires Valid() && i < |space| && space[i] in chunks && AllFree(chunks[space[i]], g.nperchunk)
      modifies this
      ensures Valid() && Objects() == old(Objects()) && nobj == old(nobj) && full == old(full)
      ensures chunks == old(chunks) - {old(space)[i]} && space == old(space)[..i] + old(space)[i + 1..]
    {
      hide ChunkOk, Live, Free, AllFree;
      var c := space[i];
      ghost var rest := chunks - {c};
      assert rest[c := chunks[c]] == chunks;
      FreeChunk(g, rest, c, chunks[c]);
      assert forall x :: x in space[..i] + space[i + 1..] <==> x in space && x != c;
      chunks, space, nspace := chunks - {c}, space[..i] + space[i + 1..], nspace - 1;
    }

    /** mrp_objpool_alloc; 0 stands for NULL, and `accepts` for the answer of the setup
        callback. The two exits for an inconsistent chunk cannot be taken. An object that
        setup refuses is freed, and counted off although it was never counted. */
    method Alloc(accepts: bool) returns (obj: Ptr)
      requires Valid()
      modifies this
      ensures Valid() <==> accepts || (limit != 0 && old(nobj) >= limit)
      ensures obj == 0 <==> !accepts || (limit != 0 && old(nobj) >= limit)
      ensures limit != 0 && old(nobj) >= limit ==> chunks == old(chunks) && space == old(space) && full == old(full)
      ensures ChunksOk(g, chunks) && Live(g, chunks) == if obj == 0 then old(Objects()) else old(Objects()) + {obj}
      ensures obj !in old(Objects()) && (obj != 0 ==> IsSlot(g, chunks, obj)) && chunks.Keys >= old(chunks.Keys)
      ensures obj != 0 ==> g.chunkSize > 0 && ClearOfHeader(g, chunks, obj)
      ensures obj != 0 && old(space) != [] ==>
                && old(space[0] in chunks)
                && exists s: nat :: obj == Address(g, old(space)[0], s) && LowestFree(old(chunks)[old(space)[0]], s)
      ensures nobj == if obj != 0 then old(nobj) + 1
                      else if limit != 0 && old(nobj) >= limit then old(nobj)
                      else if old(nobj) == 0 then SIZE_MAX else old(nobj) - 1
    {
      hide ChunkOk, Live, Free, Address, FirstSlot, FindFirst, ListsOk, IsSlot, ClearOfHeader, LowestFree;
      ZeroIsNoObject();
      if limit != 0 && nobj >= limit {
        return 0;
      }
      obj := Claim();
      SlotIsClear(g, chunks, obj);
      if !accepts {
        Release(obj);
        nobj := if nobj == 0 then SIZE_MAX else nobj - 1;
        obj := 0;
      }
    }

    /** The first free slot of the first chunk with space. */
    method Claim() returns (obj: Ptr)
      requires Valid() && (limit == 0 || nobj < limit)
      modifies this
      ensures Valid() && obj != 0 && obj !in old(Objects()) && Objects() == old(Objects()) + {obj}
      ensures IsSlot(g, chunks, obj) && nobj == old(nobj) + 1 && chunks.Keys >= old(chunks.Keys)
      ensures old(space) != [] ==>
                && old(space[0] in chunks)
                && exists s: nat :: obj == Address(g, old(space)[0], s) && LowestFree(old(chunks)[old(space)[0]], s)
    {
      hide ChunkOk, Live, Free, Address, FirstSlot, FindFirst, ListsOk, IsSlot, LowestFree;
      if space == [] {
        var cnt := Grow(1);
      }
      var chunk := space[0];
      SpaceHead(chunks, space, full);
      FirstFree(chunks[chunk], g.nperchunk);
      FoundLowest(chunks[chunk], g.nperchunk);
      var cidx := FindFirst(chunks[chunk].cache);
      cidx := cidx - 1;
      var uidx := FindFirst(chunks[chunk].used[cidx]);
      uidx := uidx - 1;
      var sidx := cidx * BITS + uidx;
      obj := Address(g, chunk, sidx);
      Take(chunk, cidx, uidx);
      SlotAt(g, chunks, chunk, sidx);
      ZeroIsNoObject();
    }

    /** The rest of mrp_objpool_alloc: the first chunk with space gives a slot away. */
    method Take(chunk: Ptr, cidx: Index, uidx: Index)
      requires Valid() && space != [] && chunk == space[0] && (limit == 0 || nobj < limit)
      requires chunk in chunks && cidx < |chunks[chunk].used| && chunks[chunk].used[cidx][uidx]
      modifies this
      ensures Valid() && chunks.Keys == old(chunks.Keys) && nobj == old(nobj) + 1
      ensures var obj, sidx := Address(g, chunk, cidx * BITS + uidx), cidx * BITS + uidx;
              sidx < g.nperchunk && obj !in old(Objects()) && Objects() == old(Objects()) + {obj}
    {
      hide ChunkOk, Live, Free, Address, FirstSlot, ListsOk;
      SpaceHead(chunks, space, full);
      ghost var claimed := Claimed(chunks[chunk], cidx, uidx);
      ClaimSlot(g, chunks, chunk, cidx, uidx);
      ListsClaim(chunks, space, full, claimed);
      var used := chunks[chunk].used[cidx][uidx := false];
      var cache := chunks[chunk].cache;
      if used == FULL {
        cache := cache[cidx := false];
        if cache == FULL {
          space, nspace := space[1..], nspace - 1;
          full, nfull := full + [chunk], nfull + 1;
        }
      }
      assert Chunk(cache, chunks[chunk].used[cidx := used]) == claimed;
      chunks := chunks[chunk := Chunk(cache, chunks[chunk].used[cidx := used])];
      nobj := nobj + 1;
    }

    lemma {:induction false} ZeroIsNoObject()
      requires Valid()
      ensures 0 !in Objects()
    {
    }

    /** mrp_objpool_free */
    method Release(obj: Ptr)
      requires Valid() && (obj == 0 || IsSlot(g, chunks, obj))
      modifies this
      ensures Valid() && Objects() == old(Objects()) - {obj} && chunks.Keys == old(chunks.Keys)
      ensures obj !in old(Objects()) ==>
                chunks == old(chunks) && space == old(space) && full == old(full) && nobj == old(nobj)
      ensures obj in old(Objects()) ==> nobj == old(nobj) - 1
      ensures forall c: Ptr, s: nat | c in chunks && s < g.nperchunk && obj == Address(g, c, s)
              && obj in old(Objects()) ::
                Moved(old(chunks), old(space), old(full), c)
    {
      hide ChunkOk, Live, Free, Address, FirstSlot, IsSlot, ListsOk;
      ZeroIsNoObject();
      if obj == 0 {
        return;
      }
      ghost var c, slot := SlotFound(g, chunks, obj);
      var chunk: Ptr := obj - obj % g.chunkSize;
      var base := chunk + FirstSlot(g.nperchunk);
      var sidx := (obj - base) / g.objsize;
      var cidx, uidx := sidx / BITS, sidx % BITS;
      if chunks[chunk].used[cidx][uidx] {
        return;
      }
      MarkFree(chunk, cidx, uidx);
      forall d: Ptr, s: nat | d in chunks && s < g.nperchunk && obj == Address(g, d, s) ensures d == chunk {
        AddressInverse(g, d, s);
      }
    }

    /** The rest of mrp_objpool_free, for a slot that is taken. */
    method MarkFree(chunk: Ptr, cidx: Index, uidx: Index)
      requires Valid() && chunk in chunks && cidx < |chunks[chunk].used| && cidx * BITS + uidx < g.nperchunk
      requires !chunks[chunk].used[cidx][uidx]
      modifies this
      ensures Valid() && chunks.Keys == old(chunks.Keys) && nobj == old(nobj) - 1
      ensures Objects() == old(Objects()) - {Address(g, chunk, cidx * BITS + uidx)}
      ensures Moved(old(chunks), old(space), old(full), chunk)
    {
      hide ChunkOk, Live, Free, Address, FirstSlot, ListsOk;
      var cache, used := chunks[chunk].cache, chunks[chunk].used[cidx];
      ReleaseSlot(g, chunks, chunk, cidx, uidx);
      ListsRelease(chunks, space, full, chunk, Released(chunks[chunk], cidx, uidx));
      chunks := chunks[chunk := Chunk(cache[cidx := true], chunks[chunk].used[cidx := used[uidx := true]])];
      if cache == FULL {
        full, nfull := Unlink(full, chunk), nfull - 1;
        space, nspace := space + [chunk], nspace + 1;
      }
      nobj := nobj - 1;
    }

    /** A chunk got a free slot; if it was full, it changed lists. */
    ghost predicate Moved(chunks0: map<Ptr, Chunk>, space0: seq<Ptr>, full0: seq<Ptr>, c: Ptr)
      reads this
    {
      && c in chunks0 && c in chunks && chunks[c].cache != FULL
      && (if chunks0[c].cache == FULL
          then full == Unlink(full0, c) && space == space0 + [c]
          else full == full0 && space == space0)
    }

    /** chunk_foreach_object with the callback of mrp_objpool_destroy. */
    method ReleaseChunk(chunk: Ptr) returns (released: seq<Ptr>)
      requires Valid() && chunk in chunks
      modifies this
      ensures Valid() && chunks.Keys == old(chunks.Keys)
      ensures NoDuplicates(released) && Linked(released) <= old(Objects())
      ensures Objects() == old(Objects()) - Linked(released)
      ensures forall t: nat | t < g.nperchunk :: Address(g, chunk, t) !in Objects()
      ensures Moved(old(chunks), old(space), old(full), chunk)
    {
      hide ChunkOk, Live, Free, Address, FirstSlot, ListsOk, IsSlot, SlotLive, Unlink, NoDuplicates, Linked;
      released := [];
      var sidx: nat := 0;
      NoLinks();
      ZeroIsNoObject();
      ghost var objects := Objects();
      while sidx < g.nperchunk
        invariant Valid() && chunks.Keys == old(chunks.Keys)
        invariant NoDuplicates(released) && Linked(released) <= objects
        invariant Objects() == objects - Linked(released)
        invariant forall t: nat | t < sidx && t < g.nperchunk :: Address(g, chunk, t) !in Objects()
        invariant if sidx == 0
                  then chunks == old(chunks) && full == old(full) && space == old(space)
                  else Moved(old(chunks), old(space), old(full), chunk)
        decreases g.nperchunk - sidx
      {
        var obj, step := ReleaseAt(chunk, sidx);
        Collect(objects, released, obj);
        if obj != 0 {
          released := released + [obj];
        }
        sidx := step;
      }
    }

    /** One turn of its loop: the object released, if any, and the next slot. */
    method ReleaseAt(chunk: Ptr, sidx: nat) returns (obj: Ptr, next: nat)
      requires Valid() && chunk in chunks && sidx < g.nperchunk
      modifies this
      ensures Valid() && chunks.Keys == old(chunks.Keys) && next > sidx
      ensures obj != 0 ==> obj in old(Objects())
      ensures Objects() == old(Objects()) - {obj}
      ensures forall t: nat | sidx <= t < next && t < g.nperchunk :: Address(g, chunk, t) !in Objects()
      ensures Moved(old(chunks), old(space), old(full), chunk)
    {
      hide ChunkOk, Live, Free, Address, FirstSlot, ListsOk, IsSlot;
      var cidx, uidx := sidx / BITS, sidx % BITS;
      WordStates(g, chunks, chunk, sidx);
      var used := chunks[chunk].used[cidx];
      ZeroIsNoObject();
      if !used[uidx] {
        obj := Address(g, chunk, sidx);
        AddressInverse(g, chunk, sidx);
        SlotAt(g, chunks, chunk, sidx);
        Release(obj);
        next := sidx + 1;
      } else if used == EMPTY {
        obj, next := 0, (sidx + BITS) / BITS * BITS;
      } else {
        obj, next := 0, sidx + 1;
      }
    }

    /** pool_foreach_object with that callback: the full chunks move to the other list
        under the walk, and every object is released exactly once. */
    method ReleaseAll() returns (released: seq<Ptr>)
      requires Valid()
      modifies this
      ensures Valid() && Objects() == {} && nobj == 0 && chunks.Keys == old(chunks.Keys)
      ensures NoDuplicates(released) && Linked(released) == old(Objects())
    {
      hide ChunksOk, Live, ListsOk, NoDuplicates, Linked;
      released := ReleaseFull();
      var some := ReleaseSpace();
      JoinLinks(released, some);
      released := released + some;
    }

    /** The walk over the full chunks; the next one is looked up in advance. */
    method ReleaseFull() returns (released: seq<Ptr>)
      requires Valid()
      modifies this
      ensures Valid() && full == [] && chunks.Keys == old(chunks.Keys)
      ensures NoDuplicates(released) && Linked(released) <= old(Objects())
      ensures Objects() == old(Objects()) - Linked(released)
    {
      hide ChunkOk, Live, Free, Address, FirstSlot, SlotLive, ListsOk, NoDuplicates, Linked, Unlink;
      released := [];
      NoLinks();
      var p := if full == [] then 0 else full[0];
      while p != 0
        invariant Valid() && chunks.Keys == old(chunks.Keys) && p == if full == [] then 0 else full[0]
        invariant NoDuplicates(released) && Linked(released) <= old(Objects())
        invariant Objects() == old(Objects()) - Linked(released)
        decreases |full|
      {
        var n := if |full| == 1 then 0 else full[1];
        FullEmpty(g, chunks, space, full);
        var some := ReleaseChunk(p);
        JoinLinks(released, some);
        released := released + some;
        p := n;
      }
      FullEmpty(g, chunks, space, full);
    }

    lemma {:induction false} NoLinks()
      ensures NoDuplicates<Ptr>([]) && Linked<Ptr>([]) == {}
    {
    }

    /** The walk over the other chunks, which releasing does not move. */
    method ReleaseSpace() returns (released: seq<Ptr>)
      requires Valid() && full == []
      modifies this
      ensures Valid() && Objects() == {} && chunks.Keys == old(chunks.Keys)
      ensures NoDuplicates(released) && Linked(released) == old(Objects())
    {
      hide ChunkOk, Live, Free, Address, FirstSlot, SlotLive, ListsOk, NoDuplicates, Linked, Unlink;
      released := [];
      NoLinks();
      var k := 0;
      while k < |space|
        invariant k <= |space| && full == [] && space == old(space)
        invariant Valid() && chunks.Keys == old(chunks.Keys)
        invariant NoDuplicates(released) && Linked(released) <= old(Objects())
        invariant Objects() == old(Objects()) - Linked(released)
        invariant forall i, t: nat | 0 <= i < k && t < g.nperchunk :: Address(g, space[i], t) !in Objects()
      {
        InSpace(chunks, space, full, k);
        var some := ReleaseChunk(space[k]);
        JoinLinks(released, some);
        released := released + some;
        k := k + 1;
      }
      FullEmpty(g, chunks, space, full);
      NothingLive(g, chunks, space);
    }

    /** pool_shrink, for as many chunks as asked for, but one may go even if none is
        asked for. */
    method Shrink(nchunk: int) returns (cnt: nat)
      requires Valid()
      modifies this
      ensures Valid() && Objects() == old(Objects()) && nobj == old(nobj) && full == old(full)
      ensures chunks.Keys <= old(chunks.Keys) && forall c | c in chunks :: chunks[c] == old(chunks)[c]
      ensures forall c | c in old(chunks) && c !in chunks :: AllFree(old(chunks)[c], g.nperchunk)
      ensures |space| + cnt == |old(space)| && (cnt <= nchunk || cnt <= 1)
      ensures cnt < nchunk ==>
                forall c | c in chunks :: !(Words(g.nperchunk) == 16 && AllFree(chunks[c], g.nperchunk))
    {
      hide ChunkOk, Live, Free, Address, FirstSlot, SlotLive, AllFree, ListsOk;
      cnt := 0;
      var i := 0;
      while i < |space|
        invariant Valid() && Objects() == old(Objects()) && nobj == old(nobj) && full == old(full) && i <= |space|
        invariant chunks.Keys <= old(chunks.Keys) && forall c | c in chunks :: chunks[c] == old(chunks)[c]
        invariant forall c | c in old(chunks) && c !in chunks :: AllFree(old(chunks)[c], g.nperchunk)
        invariant |space| + cnt == |old(space)| && (cnt == 0 || cnt < nchunk)
        invariant forall k | 0 <= k < i ::
                    space[k] in chunks && !(Words(g.nperchunk) == 16 && AllFree(chunks[space[k]], g.nperchunk))
        decreases |space| - i
      {
        var c := space[i];
        InSpace(chunks, space, full, i);
        var empty := ChunkEmpty(chunks[c], g.nperchunk);
        if empty {
          RemoveChunk(i);
          cnt := cnt + 1;
        } else {
          i := i + 1;
        }
        if cnt >= nchunk {
          break;
        }
      }
      if cnt < nchunk {
        NoneRecognised(g, chunks, space, full);
      }
    }
  }
}
