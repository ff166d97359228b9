// The sizes of hash tables and the hash functions (src/murphy-db/mdb/hash.c).
//
// A table is created for a number of entries and gets the smallest listed number of
// chains that is large enough. Signed and unsigned keys go to the chain of their value
// modulo that number. For strings and blobs the characters or bytes are summed up, times
// powers of 33, in 64 bits, and the eight bytes of the sum are folded into one;
// for more than 8 bits the source shifts them by more than the width of an int.

module HashFunctions {
  import opened Common
  import opened Keys

  /** table_size_t: a number of chains and the bits it takes. */
  datatype Size = Size(nchain: nat, bits: nat)

  const SIZES_2: seq<nat> := [
    2, 3
  ]

  const SIZES_3: seq<nat> := [
    5, 7
  ]

  const SIZES_4: seq<nat> := [
    11, 13
  ]

  const SIZES_5: seq<nat> := [
    17, 19, 23, 29, 31
  ]

  const SIZES_6: seq<nat> := [
    37, 41, 43, 47, 53, 59, 61
  ]

  const SIZES_7: seq<nat> := [
    67, 71, 73, 79, 83, 89, 97, 101, 103, 107, 109, 113, 127
  ]

  const SIZES_8: seq<nat> := [
    131, 137, 139, 149, 151, 157, 163, 167, 173, 179, 181, 191, 193, 197, 199, 211, 223, 227, 229, 233, 239,
    241, 251
  ]

  const SIZES_9_A: seq<nat> := [
    257, 263, 269, 271, 277, 281, 283, 293, 307, 311, 313, 317, 331, 337, 347, 349, 353, 359, 367, 373, 379,
    383, 389, 397, 401
  ]

  const SIZES_9_B: seq<nat> := [
    409, 419, 421, 431, 433, 439, 443, 449, 457, 461, 463, 467, 479, 487, 491, 499, 503, 509
  ]

  const SIZES_10_A: seq<nat> := [
    521, 523, 541, 547, 557, 563, 569, 571, 577, 587, 593, 599, 601, 607, 613, 617, 619, 631, 641, 643, 647,
    653, 659, 661, 673
  ]

  const SIZES_10_B: seq<nat> := [
    677, 683, 691, 701, 709, 719, 727, 733, 739, 743, 751, 757, 761, 769, 773, 787, 797, 809, 811, 821, 823,
    827, 829, 839, 853
  ]

  const SIZES_10_C: seq<nat> := [
    857, 859, 863, 877, 881, 883, 887, 907, 911, 919, 929, 937, 941, 947, 953, 967, 971, 977, 983, 991, 997
  ]

  const SIZES_16: seq<nat> := [
    65535
  ]

  function Sized(bits: nat, list: seq<nat>): (r: seq<Size>)
    ensures |r| == |list| && forall i | 0 <= i < |r| :: r[i] == Size(list[i], bits)
  {
    seq(|list|, i requires 0 <= i < |list| => Size(list[i], bits))
  }

  const HUNDRED := 25             // the place of the size for 100 entries

  /** sizes[] */
  const SIZES: seq<Size> :=
    Sized(2, SIZES_2)
    + Sized(3, SIZES_3)
    + Sized(4, SIZES_4)
    + Sized(5, SIZES_5)
    + Sized(6, SIZES_6)
    + Sized(7, SIZES_7)
    + Sized(8, SIZES_8)
    + Sized(9, SIZES_9_A)
    + Sized(9, SIZES_9_B)
    + Sized(10, SIZES_10_A)
    + Sized(10, SIZES_10_B)
    + Sized(10, SIZES_10_C)
    + Sized(16, SIZES_16)

  function Power2(bits: nat): (p: nat)
    ensures p > 0
  {
    if bits == 0 then 1 else 2 * Power2(bits - 1)
  }

  lemma {:induction false} Powers2()
    ensures Power2(1) == 2 && Power2(2) == 4 && Power2(3) == 8 && Power2(4) == 16 && Power2(5) == 32
    ensures Power2(6) == 64 && Power2(7) == 128 && Power2(8) == 256 && Power2(9) == 512 && Power2(10) == 1024
    ensures Power2(15) == 32768 && Power2(16) == 65536
  {
    assert Power2(4) == 16;
    assert Power2(8) == 256;
    assert Power2(12) == 4096;
  }

  /** The number of chains has exactly the number of bits listed with it. */
  predicate Fits(z: Size) { 1 <= z.bits <= 16 && Power2(z.bits - 1) <= z.nchain < Power2(z.bits) }

  predicate Listed(s: seq<Size>) {
    && s != [] && (forall i | 0 <= i < |s| :: Fits(s[i]))
    && (forall i | 0 <= i < |s| - 1 :: s[i].nchain < s[i + 1].nchain)
  }

  lemma {:induction false} JoinListed(a: seq<Size>, b: seq<Size>)
    requires Listed(a) && Listed(b) && a[|a| - 1].nchain < b[0].nchain
    ensures Listed(a + b)
  {
  }

  lemma {:induction false} GroupListed(bits: nat, list: seq<nat>)
    requires list != [] && 1 <= bits <= 16
    requires forall i | 0 <= i < |list| :: Power2(bits - 1) <= list[i] < Power2(bits)
    requires forall i | 0 <= i < |list| - 1 :: list[i] < list[i + 1]
    ensures Listed(Sized(bits, list))
  {
  }

  lemma {:induction false} Group2()
    ensures Listed(Sized(2, SIZES_2)) && |SIZES_2| == 2 && SIZES_2[0] == 2 && SIZES_2[1] == 3
  {
    Powers2();
    GroupListed(2, SIZES_2);
  }

  lemma {:induction false} Group3()
    ensures Listed(Sized(3, SIZES_3)) && |SIZES_3| == 2 && SIZES_3[0] == 5 && SIZES_3[1] == 7
  {
    Powers2();
    GroupListed(3, SIZES_3);
  }

  lemma {:induction false} Group4()
    ensures Listed(Sized(4, SIZES_4)) && |SIZES_4| == 2 && SIZES_4[0] == 11 && SIZES_4[1] == 13
  {
    Powers2();
    GroupListed(4, SIZES_4);
  }

  lemma {:induction false} Group5()
    ensures Listed(Sized(5, SIZES_5)) && |SIZES_5| == 5 && SIZES_5[0] == 17 && SIZES_5[4] == 31
  {
    Powers2();
    GroupListed(5, SIZES_5);
  }

  lemma {:induction false} Group6()
    ensures Listed(Sized(6, SIZES_6)) && |SIZES_6| == 7 && SIZES_6[0] == 37 && SIZES_6[6] == 61
  {
    Powers2();
    GroupListed(6, SIZES_6);
  }

  lemma {:induction false} Group7()
    ensures Listed(Sized(7, SIZES_7)) && |SIZES_7| == 13 && SIZES_7[0] == 67 && SIZES_7[12] == 127
  {
    Powers2();
    GroupListed(7, SIZES_7);
  }

  lemma {:induction false} Group8()
    ensures Listed(Sized(8, SIZES_8)) && |SIZES_8| == 23 && SIZES_8[0] == 131 && SIZES_8[22] == 251
  {
    Powers2();
    GroupListed(8, SIZES_8);
  }

  lemma {:induction false} Group9A()
    ensures Listed(Sized(9, SIZES_9_A)) && |SIZES_9_A| == 25 && SIZES_9_A[0] == 257 && SIZES_9_A[24] == 401
  {
    Powers2();
    GroupListed(9, SIZES_9_A);
  }

  lemma {:induction false} Group9B()
    ensures Listed(Sized(9, SIZES_9_B)) && |SIZES_9_B| == 18 && SIZES_9_B[0] == 409 && SIZES_9_B[17] == 509
  {
    Powers2();
    GroupListed(9, SIZES_9_B);
  }

  lemma {:induction false} Group10A()
    ensures Listed(Sized(10, SIZES_10_A)) && |SIZES_10_A| == 25 && SIZES_10_A[0] == 521 && SIZES_10_A[24] == 673
  {
    Powers2();
    GroupListed(10, SIZES_10_A);
  }

  lemma {:induction false} Group10B()
    ensures Listed(Sized(10, SIZES_10_B)) && |SIZES_10_B| == 25 && SIZES_10_B[0] == 677 && SIZES_10_B[24] == 853
  {
    Powers2();
    GroupListed(10, SIZES_10_B);
  }

  lemma {:induction false} Group10C()
    ensures Listed(Sized(10, SIZES_10_C)) && |SIZES_10_C| == 21 && SIZES_10_C[0] == 857 && SIZES_10_C[20] == 997
  {
    Powers2();
    GroupListed(10, SIZES_10_C);
  }

  lemma {:induction false} Group16()
    ensures Listed(Sized(16, SIZES_16)) && |SIZES_16| == 1 && SIZES_16[0] == 65535 && SIZES_16[0] == 65535
  {
    Powers2();
    GroupListed(16, SIZES_16);
  }

  /** The listed sizes increase, and each has the bits listed with it. */
  lemma {:induction false} SizesListed()
    ensures Listed(SIZES) && SIZES[0] == Size(2, 2) && SIZES[|SIZES| - 1] == Size(65535, 16)
    ensures SIZES[HUNDRED - 1] == Size(97, 7) && SIZES[HUNDRED] == Size(101, 7) && |SIZES| == 169
  {
    hide Listed, Sized;
    Group2();
    Group3();
    Group4();
    Group5();
    Group6();
    Group7();
    Group8();
    Group9A();
    Group9B();
    Group10A();
    Group10B();
    Group10C();
    Group16();
    var s := Sized(2, SIZES_2);
    JoinListed(s, Sized(3, SIZES_3));
    s := s + Sized(3, SIZES_3);
    JoinListed(s, Sized(4, SIZES_4));
    s := s + Sized(4, SIZES_4);
    JoinListed(s, Sized(5, SIZES_5));
    s := s + Sized(5, SIZES_5);
    JoinListed(s, Sized(6, SIZES_6));
    s := s + Sized(6, SIZES_6);
    JoinListed(s, Sized(7, SIZES_7));
    s := s + Sized(7, SIZES_7);
    JoinListed(s, Sized(8, SIZES_8));
    s := s + Sized(8, SIZES_8);
    JoinListed(s, Sized(9, SIZES_9_A));
    s := s + Sized(9, SIZES_9_A);
    JoinListed(s, Sized(9, SIZES_9_B));
    s := s + Sized(9, SIZES_9_B);
    JoinListed(s, Sized(10, SIZES_10_A));
    s := s + Sized(10, SIZES_10_A);
    JoinListed(s, Sized(10, SIZES_10_B));
    s := s + Sized(10, SIZES_10_B);
    JoinListed(s, Sized(10, SIZES_10_C));
    s := s + Sized(10, SIZES_10_C);
    JoinListed(s, Sized(16, SIZES_16));
    s := s + Sized(16, SIZES_16);
    assert s == SIZES;
  }

  lemma {:induction false} Increasing(s: seq<Size>, i: nat, j: nat)
    requires Listed(s) && i < j < |s|
    ensures s[i].nchain < s[j].nchain
    decreases j
  {
    if i + 1 < j {
      Increasing(s, i, j - 1);
    }
  }

  /** get_table_size: for a request within the range of the listed sizes, the smallest
      one that is large enough. */
  method TableSize(request: nat) returns (z: Size)
    ensures z in SIZES && Fits(z)
    ensures 2 <= request <= 65535 ==>
              request <= z.nchain && forall y | y in SIZES && request <= y.nchain :: z.nchain <= y.nchain
    ensures request == 100 ==> z == Size(101, 7)
    ensures request < 2 ==> z == Size(3, 2)
    ensures request > 65535 ==> z == Size(65535, 16)
    ensures z.bits <= 8 <==> request <= 251
  {
    hide SIZES, Fits, Power2;
    SizesListed();
    ListedFits(SIZES);
    var idx := Search(SIZES, request);
    z := SIZES[idx];
    if request >= 2 {
      SmallestSize(SIZES, request, idx);
    }
    if request == 100 {
      AtPlace(SIZES, idx, HUNDRED, request);
    }
    assert SIZES[1] == Size(3, 2) by { Second(); }
    EightBits(idx, request);
  }

  /** 251 is the last size of 8 bits. */
  lemma {:induction false} EightBits(idx: nat, request: nat)
    requires idx < |SIZES| && (request < 2 ==> idx == 1) && (request > 65535 ==> idx == |SIZES| - 1)
    requires 2 <= request <= 65535 ==> request <= SIZES[idx].nchain
    requires request >= 2 ==> forall y | y in SIZES && request <= y.nchain :: SIZES[idx].nchain <= y.nchain
    ensures SIZES[idx].bits <= 8 <==> request <= 251
  {
    hide SIZES, Fits, Power2;
    SizesListed();
    ListedFits(SIZES);
    EndOfEight();
    Second();
    var z := SIZES[idx];
    if request <= 251 {
      assert SIZES[53] in SIZES;
      FewBits(z);
    } else {
      if idx < 53 {
        Increasing(SIZES, idx, 53);
      } else if idx > 54 {
        Increasing(SIZES, 54, idx);
      }
      ManyBits(z);
    }
  }

  lemma {:induction false} EndOfEight()
    ensures |SIZES| > 54 && SIZES[53] == Size(251, 8) && SIZES[54] == Size(257, 9)
  {
    SizesListed();
    hide Listed;
    assert SIZES_8[22] == 251 && SIZES_9_A[0] == 257;
  }

  lemma {:induction false} FewBits(z: Size)
    requires Fits(z) && z.nchain <= 251
    ensures z.bits <= 8
  {
    Powers2();
    if z.bits > 8 {
      Power2Grows(8, z.bits - 1);
    }
  }

  lemma {:induction false} ManyBits(z: Size)
    requires Fits(z) && z.nchain >= 256
    ensures z.bits > 8
  {
    Powers2();
    if z.bits <= 8 {
      Power2Grows(z.bits, 8);
    }
  }

  lemma {:induction false} Second()
    ensures |SIZES| > 1 && SIZES[1] == Size(3, 2)
  {
    SizesListed();
    hide Listed;
    assert SIZES_2[1] == 3;
  }

  lemma {:induction false} ListedFits(s: seq<Size>)
    requires Listed(s)
    ensures s != [] && forall z | z in s :: Fits(z)
  {
  }

  lemma {:induction false} SmallestSize(s: seq<Size>, request: nat, idx: nat)
    requires Listed(s) && idx < |s| && forall i | 0 <= i < idx :: s[i].nchain < request
    ensures forall y | y in s && request <= y.nchain :: s[idx].nchain <= y.nchain
  {
    forall y | y in s && request <= y.nchain ensures s[idx].nchain <= y.nchain {
      var j :| 0 <= j < |s| && s[j] == y;
      if idx < j {
        Increasing(s, idx, j);
      }
    }
  }

  lemma {:induction false} AtPlace(s: seq<Size>, idx: nat, at: nat, request: nat)
    requires Listed(s) && idx < |s| && 0 < at < |s| && s[at - 1].nchain < request <= s[at].nchain
    requires request <= s[idx].nchain && forall i | 0 <= i < idx :: s[i].nchain < request
    ensures idx == at
  {
    if idx < at - 1 {
      Increasing(s, idx, at - 1);
    }
  }

  /** The loop of get_table_size. */
  method Search(s: seq<Size>, request: nat) returns (idx: nat)
    requires Listed(s) && |s| >= 2
    ensures idx < |s|
    ensures s[0].nchain <= request <= s[|s| - 1].nchain ==> request <= s[idx].nchain
    ensures s[0].nchain <= request ==> forall i | 0 <= i < idx :: s[i].nchain < request
    ensures request < s[0].nchain ==> idx == 1
    ensures request > s[|s| - 1].nchain ==> idx == |s| - 1
  {
    forall i: nat, j: nat | i < j < |s| ensures s[i].nchain < s[j].nchain {
      Increasing(s, i, j);
    }
    hide Listed;
    var min, max := 0, |s| - 1;
    while true
      invariant 0 <= min < max < |s|
      invariant min == 0 || s[min].nchain < request
      invariant max == |s| - 1 || request < s[max].nchain
      decreases max - min
    {
      idx := (min + max) / 2;
      if request == s[idx].nchain {
        return;
      }
      if idx == min {
        idx := max;
        return;
      }
      if request < s[idx].nchain {
        max := idx;
      } else {
        min := idx;
      }
    }
  }

  // ----- the hash functions

  /** Where the unsigned and signed hash are guarded, every listed size passes. */
  function UnsigndHash(z: Size, key: Key): (h: nat)
    requires Fits(z)
    ensures h < z.nchain
  {
    if |key| != 4 then 0 else Word(key) % z.nchain
  }

  /** charmap[]: letters count alike in upper and lower case. */
  function CharMap(c: byte): nat {
    if c <= 0x27 then 0
    else if c <= 0x2c then c + 12
    else if c <= 0x2d then 37
    else if c <= 0x2e then 40
    else if c <= 0x2f then 50
    else if c <= 0x39 then c - 47
    else if c <= 0x3a then 41
    else if c <= 0x3b then 0
    else if c <= 0x40 then c - 18
    else if c <= 0x5a then c - 54
    else if c <= 0x5d then c - 44
    else if c <= 0x5e then 51
    else if c <= 0x5f then 38
    else if c <= 0x60 then 0
    else if c <= 0x7a then c - 86
    else if c <= 0x7e then c - 66
    else 0
  }

  /** Control characters do not count, letters do alike in upper and lower case. */
  lemma {:induction false} CharMapMeans(c: byte)
    ensures c < 0x20 || c > 0x7e ==> CharMap(c) == 0
    ensures 0x30 <= c <= 0x39 ==> CharMap(c) == c - 0x30 + 1
    ensures 0x61 <= c <= 0x7a ==> CharMap(c) == CharMap(c - 0x20) == c - 0x61 + 11
  {
  }

  const WORD := 0x1_0000_0000_0000_0000

  /** The 64-bit accumulation over the numbers of the characters. */
  function Wide(cs: seq<nat>): (h: nat)
    ensures h < WORD
  {
    if cs == [] then 0 else (33 * Wide(cs[..|cs| - 1]) + cs[|cs| - 1]) % WORD
  }

  function Power33(n: nat): nat { if n == 0 then 1 else 33 * Power33(n - 1) }

  /** The numbers as digits to the base 33, the first one the highest. */
  function Polynomial(cs: seq<nat>): nat {
    if cs == [] then 0 else cs[0] * Power33(|cs| - 1) + Polynomial(cs[1..])
  }

  lemma {:induction false} PolynomialLast(cs: seq<nat>, c: nat)
    ensures Polynomial(cs + [c]) == 33 * Polynomial(cs) + c
  {
    if cs == [] {
      assert ([] + [c])[1..] == [];
      assert Power33(0) == 1;
    } else {
      assert (cs + [c])[1..] == cs[1..] + [c];
      PolynomialLast(cs[1..], c);
      assert cs[0] * (33 * Power33(|cs| - 1)) == 33 * (cs[0] * Power33(|cs| - 1));
    }
  }

  lemma {:induction false} Wrapped(x: nat, k: nat)
    ensures (x + WORD * k) % WORD == x % WORD
  {
  }

  lemma {:induction false} WrappedDigit(p: nat, c: nat)
    ensures (33 * (p % WORD) + c) % WORD == (33 * p + c) % WORD
  {
    var q, r := p / WORD, p % WORD;
    assert p == WORD * q + r;
    Wrapped(33 * r + c, 33 * q);
    assert 33 * p + c == 33 * r + c + WORD * (33 * q);
  }

  /** The accumulation is the polynomial in 33, modulo 2^64. */
  lemma {:induction false} WideIsPolynomial(cs: seq<nat>)
    ensures Wide(cs) == Polynomial(cs) % WORD
  {
    if cs != [] {
      hide Polynomial;
      var front, c := cs[..|cs| - 1], cs[|cs| - 1];
      assert cs == front + [c];
      PolynomialLast(front, c);
      WideIsPolynomial(front);
      WrappedDigit(Polynomial(front), c);
    }
  }

  function Xor(a: byte, b: byte): byte { ((a as bv8) ^ (b as bv8)) as int }

  /** h.narrow[0] ^ ... ^ h.narrow[n - 1] */
  function Fold(h: nat, n: nat): (x: byte)
  {
    if n == 0 then 0 else Xor(h % 256, Fold(h / 256, n - 1))
  }

  /** The characters up to the first NUL. */
  function Text(key: Key): seq<byte> {
    if key == [] || key[0] == 0 then [] else [key[0]] + Text(key[1..])
  }

  function Mapped(s: seq<byte>): (r: seq<nat>)
    ensures |r| == |s|
  {
    seq(|s|, i requires 0 <= i < |s| => CharMap(s[i]))
  }

  /** What the string and the blob hash do with an accumulated word, for a size of at
      most 8 bits; a size that is a power of two is refused by the guard. */
  function Narrow(z: Size, h: nat): (r: nat)
    requires Fits(z)
    ensures r < z.nchain
  {
    if Power2(z.bits - 1) < z.nchain then Fold(h, 8) % z.nchain else 0
  }

  /** Beyond 8 bits the first shift already exceeds the width of an int. */
  lemma {:induction false} ShiftTooWide(z: Size)
    requires Fits(z) && Power2(z.bits - 1) < z.nchain && z.bits > 8
    ensures (z.nchain + 7) / 8 > 31
  {
    Power2Grows(8, z.bits - 1);
    Powers2();
  }

  lemma {:induction false} Power2Grows(a: nat, b: nat)
    requires a <= b
    ensures Power2(a) <= Power2(b)
    decreases b
  {
    if a < b {
      Power2Grows(a, b - 1);
    }
  }

  /** The chain of a key; the comparator decides which function it is. */
  function ChainOf(t: KeyType, z: Size, key: Key): (c: nat)
    requires Defined(t, z)
    ensures c < z.nchain
  {
    match t
    case IntegerKey => UnsigndHash(z, key)
    case UnsigndKey => UnsigndHash(z, key)
    case VarcharKey => Narrow(z, Wide(Mapped(Text(key))))
    case BlobKey => if key == [] then 0 else Narrow(z, Wide(key))
  }

  /** The sizes for which a hash function is defined. */
  predicate Defined(t: KeyType, z: Size) { Fits(z) && (t.VarcharKey? || t.BlobKey? ==> z.bits <= 8) }

  /** The size of an index is one of them for every type of key. */
  lemma {:induction false} IndexSizeDefined(t: KeyType)
    ensures Defined(t, Size(101, 7))
  {
    Powers2();
  }

  /** The hash of table names asks for 256 entries and gets a size for which the string
      hash shifts by more than the width of an int. */
  lemma {:induction false} NamesUndefined()
    ensures SIZES[54] == Size(257, 9) && Fits(SIZES[54]) && !Defined(VarcharKey, SIZES[54])
    ensures (SIZES[54].nchain + 7) / 8 == 33
  {
    hide SIZES;
    EndOfEight();
    SizesListed();
    ListedFits(SIZES);
  }

  lemma {:induction false} NothingYet(key: Key)
    ensures key[..0] + Text(key[0..]) == Text(key) && Wide(Mapped(key[..0])) == 0
  {
    assert key[0..] == key;
  }

  lemma {:induction false} OneMore(key: Key, i: nat)
    requires i < |key| && key[i] != 0
    ensures key[..i] + Text(key[i..]) == key[..i + 1] + Text(key[i + 1..])
    ensures Wide(Mapped(key[..i + 1])) == (33 * Wide(Mapped(key[..i])) + CharMap(key[i])) % WORD
  {
    assert key[i..][0] == key[i] && key[i..][1..] == key[i + 1..];
    hide CharMap;
    assert Mapped(key[..i + 1])[..i] == Mapped(key[..i]);
  }

  lemma {:induction false} TextEnds(s: seq<byte>)
    requires s == [] || s[0] == 0
    ensures Text(s) == []
  {
  }

  /** mdb_hash_function_string */
  method StringHash(z: Size, key: Key) returns (hashval: nat)
    requires Fits(z) && z.bits <= 8
    ensures hashval == Narrow(z, Wide(Mapped(Text(key)))) && hashval < z.nchain
  {
    hashval := 0;
    if Power2(z.bits - 1) < z.nchain < Power2(z.bits) {
      hide Text, Mapped, Wide, CharMap, Narrow, Power2;
      var h, i := 0, 0;
      NothingYet(key);
      while i < |key| && key[i] != 0
        invariant i <= |key| && Text(key) == key[..i] + Text(key[i..]) && h == Wide(Mapped(key[..i]))
      {
        OneMore(key, i);
        h := (33 * h + CharMap(key[i])) % WORD;
        i := i + 1;
      }
      TextEnds(key[i..]);
      assert Text(key) == key[..i];
      hashval := Narrow(z, h);
    }
  }

  /** mdb_hash_function_blob */
  method BlobHash(z: Size, key: Key) returns (hashval: nat)
    requires Fits(z) && z.bits <= 8
    ensures hashval == (if key == [] then 0 else Narrow(z, Wide(key))) && hashval < z.nchain
  {
    hashval := 0;
    if |key| > 0 && Power2(z.bits - 1) < z.nchain < Power2(z.bits) {
      var h, i := 0, 0;
      while i < |key|
        invariant i <= |key| && h == Wide(key[..i])
      {
        assert key[..i + 1][..i] == key[..i];
        h := (33 * h + key[i]) % WORD;
        i := i + 1;
      }
      assert key[..i] == key;
      hashval := Narrow(z, h);
    }
  }

  /** The hash function that goes with the comparator. */
  method HashOf(t: KeyType, z: Size, key: Key) returns (h: nat)
    requires Defined(t, z)
    ensures h == ChainOf(t, z, key) && h < z.nchain
  {
    hide Power2, Narrow, Wide, Mapped, Text, Fits;
    match t {
      case VarcharKey => h := StringHash(z, key);
      case BlobKey => h := BlobHash(z, key);
      case _ => h := UnsigndHash(z, key);
    }
  }
}
