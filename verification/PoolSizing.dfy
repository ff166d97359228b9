// The masks and the sizes of the object pool allocator (src/common/mm.c).

module Masks {

  const BITS := 32

  /** mask_t, lowest bit first: a bit of a status word is set iff the slot is free. */
  type Mask = m: seq<bool> | |m| == BITS witness seq(BITS, _ => false)

  type Index = i: nat | i < BITS

  /** (1 << n) - 1 */
  function Low(n: nat): (m: Mask)
    ensures forall j: Index :: m[j] <==> j < n
  {
    seq(BITS, i => i < n)
  }

  const EMPTY: Mask := Low(BITS)
  const FULL: Mask := Low(0)

  function And(a: Mask, b: Mask): (m: Mask)
    ensures forall j: Index :: m[j] <==> a[j] && b[j]
  {
    seq(BITS, i requires 0 <= i < BITS => a[i] && b[i])
  }

  /** ffs and ffsll: one more than the number of the lowest bit, 0 if there is none. */
  function FindFirst(m: seq<bool>, i: nat := 0): (r: nat)
    requires i <= |m| && forall j: nat | j < i :: !m[j]
    ensures r == 0 <==> forall j: nat | j < |m| :: !m[j]
    ensures r > 0 ==> r <= |m| && m[r - 1] && forall j: nat | j < r - 1 :: !m[j]
    decreases |m| - i
  {
    if i == |m| then 0 else if m[i] then i + 1 else FindFirst(m, i + 1)
  }

  lemma {:induction false} FullIff(m: Mask)
    ensures m == FULL <==> forall j: Index :: !m[j]
  {
  }

  /** Masking with the first bits tells whether they are all set. */
  lemma {:induction false} Covers(m: Mask, k: nat)
    ensures And(m, Low(k)) == Low(k) <==> forall j: Index | j < k :: m[j]
  {
    if forall j: Index | j < k :: m[j] {
      assert forall j: Index :: And(m, Low(k))[j] == Low(k)[j];
    }
    if And(m, Low(k)) == Low(k) {
      forall j: Index | j < k ensures m[j] {
        assert And(m, Low(k))[j];
      }
    }
  }
}

module PoolSizing {
  import opened Arithmetic

  const W := 4                 // bytes of a mask word
  const B := 32                // bits of a mask word
  const HEADER := 32           // sizeof(pool_chunk_t)
  const USED_AT := 28          // offset of the status words in a chunk
  const ADDRESS_SIZE := 8           // sizeof(void *)
  const MIN_OBJECT := 16

  /** What pool_calc_sizes computes for chunks of `c` bytes. */
  datatype Sizes = Sizes(nperchunk: nat, header: nat, padding: nat)

  /** MRP_ALIGN to 8 */
  function Align(size: nat): (s: nat)
    ensures s % 8 == 0 && size <= s < size + 8
  {
    (size + 7) / 8 * 8
  }

  /** Hv, as the source writes it: the division comes last. */
  function VariableHeader(n: nat): nat { W + W * (n + B - 1) / B }

  /** The first estimate, which ignores padding; meaningful if it is not negative. */
  function Estimate(c: nat, s: nat): nat
    requires s > 0 && B * c >= B * HEADER + W * (2 * B - 1)
  {
    (B * c - B * HEADER - W * (2 * B - 1)) / (B * s + W)
  }

  function Padding(n: nat): (p: nat)
    ensures p < ADDRESS_SIZE
  {
    var r := (HEADER + VariableHeader(n)) % ADDRESS_SIZE;
    if r != 0 then ADDRESS_SIZE - r else 0
  }

  /** pool_calc_sizes */
  function Calculate(c: nat, s: nat): (z: Sizes)
    requires s >= MIN_OBJECT && B * c >= B * HEADER + W * (2 * B - 1)
    requires Estimate(c, s) >= 1
  {
    var n := Estimate(c, s);
    var p := Padding(n);
    if p != 0 && HEADER + VariableHeader(n) + p + n * s > c
    then Sizes(n - 1, VariableHeader(n - 1), p)
    else Sizes(n, VariableHeader(n), p)
  }

  function Total(z: Sizes, s: nat): nat { HEADER + z.header + z.padding + z.nperchunk * s }

  /** The words that hold one status bit for each of `n` slots. */
  function Words(n: nat): nat { (n + B - 1) / B }

  /** Where the first object lies in a chunk. */
  function FirstSlot(n: nat): nat { USED_AT + W * Words(n) }

  lemma {:induction false} EstimateBounds(c: nat, s: nat)
    requires s > 0 && B * c >= B * HEADER + W * (2 * B - 1)
    ensures var n := Estimate(c, s);
            && B * (n * s) + W * n <= B * c - B * HEADER - W * (2 * B - 1)
            && B * (n * s + s) + W * (n + 1) > B * c - B * HEADER - W * (2 * B - 1)
  {
    var a, d, n := B * c - B * HEADER - W * (2 * B - 1), B * s + W, Estimate(c, s);
    assert n * d <= a < n * d + d;
    assert n * d == B * (n * s) + W * n;
  }

  /** The estimate is the largest number of objects that leaves room for their status bits
      and the rounding of these to words. */
  lemma {:induction false} EstimateIff(c: nat, s: nat, m: nat)
    requires s > 0 && B * c >= B * HEADER + W * (2 * B - 1)
    ensures m <= Estimate(c, s) <==> B * (m * s) + W * m <= B * c - B * HEADER - W * (2 * B - 1)
  {
    hide Estimate;
    var n := Estimate(c, s);
    EstimateBounds(c, s);
    if m <= n {
      NotNegative(n - m, s);
      assert n * s == m * s + (n - m) * s;
    } else {
      NotNegative(m - (n + 1), s);
      assert m * s == n * s + s + (m - (n + 1)) * s;
    }
  }

  /** A chunk gets as many objects as estimated, or one less if padding is needed and makes
      the total exceed the chunk. */
  lemma {:induction false} SizesExact(c: nat, s: nat, n: nat)
    requires s >= MIN_OBJECT && B * c >= B * HEADER + W * (2 * B - 1) && n >= 1
    requires B * (n * s) + W * n <= B * c - B * HEADER - W * (2 * B - 1)
    requires B * ((n + 1) * s) + W * (n + 1) > B * c - B * HEADER - W * (2 * B - 1)
    ensures Estimate(c, s) == n
    ensures var p := Padding(n);
            Calculate(c, s).nperchunk == if p > 0 && HEADER + VariableHeader(n) + p + n * s > c then n - 1 else n
    ensures Padding(n) == (ADDRESS_SIZE - (HEADER + VariableHeader(n)) % ADDRESS_SIZE) % ADDRESS_SIZE
  {
    hide Estimate;
    EstimateIff(c, s, n);
    EstimateIff(c, s, n + 1);
  }

  /** The sizing never fails: the layout it checks fits the chunk, and so does the
      layout that allocation uses, in which the objects follow the status words. */
  lemma {:induction false} SizesFit(c: nat, s: nat)
    requires s >= MIN_OBJECT && B * c >= B * HEADER + W * (2 * B - 1) && Estimate(c, s) >= 1
    ensures var z := Calculate(c, s);
            Total(z, s) <= c && z.nperchunk >= 1 && FirstSlot(z.nperchunk) + z.nperchunk * s + ADDRESS_SIZE <= c
  {
    var n := Estimate(c, s);
    EstimateBounds(c, s);
    assert (n - 1) * s == n * s - s;
  }

  /** Two more objects never fit, not even without padding. */
  lemma {:induction false} SizesTight(c: nat, s: nat)
    requires s >= MIN_OBJECT && B * c >= B * HEADER + W * (2 * B - 1) && Estimate(c, s) >= 1
    ensures var m := Calculate(c, s).nperchunk + 2; HEADER + VariableHeader(m) + m * s > c
  {
    var n := Estimate(c, s);
    EstimateBounds(c, s);
    assert (n + 1) * s == n * s + s && (n + 2) * s == n * s + 2 * s;
  }

  /** The padding is not used when objects are placed: with chunks and objects aligned
      to 8, objects are aligned to 8 exactly if the number of status words is odd. */
  lemma {:induction false} AlignedIff(chunk: nat, n: nat, slot: nat, s: nat)
    requires chunk % 8 == 0 && s % 8 == 0
    ensures (chunk + FirstSlot(n) + slot * s) % 8 == 0 <==> Words(n) % 2 == 1
  {
    var q := slot * (s / 8);
    assert slot * s == slot * (8 * (s / 8)) == 8 * q;
    EightsAside(chunk, n, q);
  }

  lemma {:induction false} EightsAside(chunk: nat, n: nat, q: nat)
    requires chunk % 8 == 0
    ensures (chunk + FirstSlot(n) + 8 * q) % 8 == 0 <==> Words(n) % 2 == 1
  {
    hide Words;
  }

  /** With two 4096-byte pages to a chunk, one cache word suffices. */
  lemma {:induction false} CacheWordSuffices(s: nat)
    requires s >= MIN_OBJECT && Estimate(8192, s) >= 1
    ensures Words(Calculate(8192, s).nperchunk) <= 16
  {
    var n := Estimate(8192, s);
    EstimateBounds(8192, s);
    assert n * s == n * MIN_OBJECT + n * (s - MIN_OBJECT);
    NotNegative(n, s - MIN_OBJECT);
  }
}
