// Key comparison (src/murphy-db/mdb/mqi-types.c).

module Keys {
  import opened Common

  /** The bytes an index key points at. */
  type Key = seq<byte>

  datatype KeyType = VarcharKey | IntegerKey | UnsigndKey | BlobKey

  /** Four bytes read as an unsigned word on a little-endian host. */
  function Word(k: Key): nat
    requires |k| == 4
  {
    (k[0] as int) + 0x100 * (k[1] as int) + 0x1_0000 * (k[2] as int) + 0x100_0000 * (k[3] as int)
  }

  /** The two's complement reading of the low 32 bits of x. */
  function Wrap(x: int): (r: int)
    ensures -0x8000_0000 <= r < 0x8000_0000 && (r - x) % 0x1_0000_0000 == 0
  {
    (x + 0x8000_0000) % 0x1_0000_0000 - 0x8000_0000
  }

  function MemCmp(a: Key, b: Key): int
    requires |a| == |b|
  {
    if a == [] then 0
    else if a[0] != b[0] then a[0] - b[0]
    else MemCmp(a[1..], b[1..])
  }

  /** strcmp on buffers that hold a terminating NUL. */
  function StrCmp(a: Key, b: Key): int
    requires |a| == |b|
  {
    if a == [] then 0
    else if a[0] != b[0] then a[0] - b[0]
    else if a[0] == 0 then 0
    else StrCmp(a[1..], b[1..])
  }

  /** The comparator of an index of type `t` whose keys have `len` bytes. */
  function Compare(t: KeyType, len: nat, a: Key, b: Key): int
    requires |a| == |b| == len
  {
    match t
    case IntegerKey => if len != 4 then 0 else Wrap(Wrap(Word(a)) - Wrap(Word(b)))
    case UnsigndKey => if len != 4 || Word(a) == Word(b) then 0 else if Word(a) < Word(b) then -1 else 1
    case VarcharKey => if len == 0 || a[0] == 0 || b[0] == 0 then 0 else StrCmp(a, b)
    case BlobKey => MemCmp(a, b)
  }

  /** The laws of a total order that tells distinct keys apart, for three keys. */
  ghost predicate OrderLaws(t: KeyType, len: nat, a: Key, b: Key, c: Key) {
    && |a| == |b| == |c| == len
    && (Compare(t, len, a, b) == 0 <==> a == b)
    && (Compare(t, len, a, b) < 0 <==> Compare(t, len, b, a) > 0)
    && (Compare(t, len, a, b) <= 0 && Compare(t, len, b, c) <= 0 ==> Compare(t, len, a, c) <= 0)
  }

  ghost predicate TotalOn(t: KeyType, len: nat, keys: iset<Key>) {
    && (forall a | a in keys :: |a| == len)
    && forall a, b, c {:trigger OrderLaws(t, len, a, b, c)} | a in keys && b in keys && c in keys ::
         OrderLaws(t, len, a, b, c)
  }

  lemma {:induction false} EqualIffSame(t: KeyType, len: nat, keys: iset<Key>, a: Key, b: Key)
    requires TotalOn(t, len, keys) && a in keys && b in keys
    ensures |a| == |b| == len && (Compare(t, len, a, b) == 0 <==> a == b)
  {
    assert OrderLaws(t, len, a, b, a);
  }

  // ----- which way the comparators order

  /** The bytes agree up to a place where that of `a` is the smaller. */
  predicate Precedes(a: Key, b: Key)
    requires |a| == |b|
  {
    exists n: nat :: n < |a| && a[..n] == b[..n] && a[n] < b[n]
  }

  lemma {:induction false} SameStart(a: Key, b: Key, n: nat)
    requires 0 < n <= |a| == |b| && a[..n] == b[..n]
    ensures a[0] == b[0]
  {
    assert a[..n][0] == b[..n][0];
  }

  lemma {:induction false} MemCmpMeans(a: Key, b: Key)
    requires |a| == |b|
    ensures MemCmp(a, b) < 0 <==> Precedes(a, b)
  {
    if a != [] {
      if a[0] == b[0] {
        MemCmpMeans(a[1..], b[1..]);
        if Precedes(a, b) {
          var n: nat :| n < |a| && a[..n] == b[..n] && a[n] < b[n];
          assert a[1..][..n - 1] == a[..n][1..] && b[1..][..n - 1] == b[..n][1..];
          assert a[1..][n - 1] < b[1..][n - 1];
        }
        if Precedes(a[1..], b[1..]) {
          var n: nat :| n < |a[1..]| && a[1..][..n] == b[1..][..n] && a[1..][n] < b[1..][n];
          assert a[..n + 1] == [a[0]] + a[1..][..n] && b[..n + 1] == [b[0]] + b[1..][..n];
          assert a[n + 1] < b[n + 1];
        }
      } else {
        assert a[..0] == b[..0];
        if Precedes(a, b) {
          var n: nat :| n < |a| && a[..n] == b[..n] && a[n] < b[n];
          if n > 0 {
            SameStart(a, b, n);
          }
        }
      }
    }
  }

  /** Unsigned keys are ordered by value, blobs and strings by their first difference. */
  lemma {:induction false} CompareMeans(t: KeyType, a: Key, b: Key)
    requires |a| == |b|
    ensures t.UnsigndKey? && |a| == 4 ==>
              && (Compare(t, |a|, a, b) < 0 <==> Word(a) < Word(b))
              && (Compare(t, |a|, a, b) > 0 <==> Word(a) > Word(b))
    ensures t.BlobKey? ==>
              (Compare(t, |a|, a, b) < 0 <==> Precedes(a, b)) && (Compare(t, |a|, a, b) > 0 <==> Precedes(b, a))
    ensures t.VarcharKey? && Padded(a) && Padded(b) && |a| > 0 && a[0] != 0 && b[0] != 0 ==>
              (Compare(t, |a|, a, b) < 0 <==> Precedes(a, b)) && (Compare(t, |a|, a, b) > 0 <==> Precedes(b, a))
  {
    MemCmpOrder(a, b, b);
    MemCmpOrder(b, a, a);
    MemCmpMeans(a, b);
    MemCmpMeans(b, a);
    if Padded(a) && Padded(b) {
      StrCmpIsMemCmp(a, b);
    }
  }

  /** Words have their lowest byte first. */
  lemma {:induction false} WordBytes(k: Key)
    requires |k| == 4
    ensures Word(k) % 0x100 == k[0] && Word(k) / 0x100 % 0x100 == k[1]
    ensures Word(k) / 0x1_0000 % 0x100 == k[2] && Word(k) / 0x100_0000 == k[3]
  {
    var b: int, c: int, d: int := k[1], k[2], k[3];
    var w := c + 0x100 * d;
    var v := b + 0x100 * w;
    Digits(k[0], v);
    Digits(b, w);
    Digits(c, d);
    assert Word(k) == k[0] + 0x100 * v;
    assert Word(k) / 0x1_0000 == v / 0x100 && Word(k) / 0x100_0000 == w / 0x100;
  }

  lemma {:induction false} Digits(low: int, high: int)
    requires 0 <= low < 0x100 && 0 <= high
    ensures (low + 0x100 * high) % 0x100 == low && (low + 0x100 * high) / 0x100 == high
  {
  }

  // ----- where the comparators are total orders

  lemma {:induction false} WordInjective(a: Key, b: Key)
    requires |a| == |b| == 4
    ensures Word(a) == Word(b) <==> a == b
    ensures Word(a) < 0x1_0000_0000
  {
    if Word(a) == Word(b) {
      assert a[0] == b[0] && a[1] == b[1] && a[2] == b[2] && a[3] == b[3];
    }
  }

  lemma {:induction false} UnsigndTotal()
    ensures TotalOn(UnsigndKey, 4, iset k: Key | |k| == 4)
  {
    forall a: Key, b: Key, c: Key | |a| == |b| == |c| == 4
      ensures OrderLaws(UnsigndKey, 4, a, b, c)
    {
      WordInjective(a, b);
    }
  }

  lemma {:induction false} MemCmpOrder(a: Key, b: Key, c: Key)
    requires |a| == |b| == |c|
    ensures MemCmp(a, b) == 0 <==> a == b
    ensures MemCmp(a, b) < 0 <==> MemCmp(b, a) > 0
    ensures MemCmp(a, b) <= 0 && MemCmp(b, c) <= 0 ==> MemCmp(a, c) <= 0
  {
    if a != [] {
      MemCmpOrder(a[1..], b[1..], c[1..]);
      assert a == [a[0]] + a[1..] && b == [b[0]] + b[1..];
    }
  }

  lemma {:induction false} BlobTotal(len: nat)
    ensures TotalOn(BlobKey, len, iset k: Key | |k| == len)
  {
    forall a: Key, b: Key, c: Key | |a| == |b| == |c| == len
      ensures OrderLaws(BlobKey, len, a, b, c)
    {
      MemCmpOrder(a, b, c);
    }
  }

  /** What mdb_column_write leaves in a varchar column: zeroes from the first NUL on. */
  predicate Padded(k: Key) {
    forall i, j :: 0 <= i < j < |k| && k[i] == 0 ==> k[j] == 0
  }

  lemma {:induction false} StrCmpIsMemCmp(a: Key, b: Key)
    requires |a| == |b| && Padded(a) && Padded(b)
    ensures StrCmp(a, b) == MemCmp(a, b)
  {
    if a != [] && a[0] == b[0] {
      if a[0] == 0 {
        assert a == b;
        MemCmpOrder(a, b, b);
      } else {
        assert Padded(a[1..]) && Padded(b[1..]);
        StrCmpIsMemCmp(a[1..], b[1..]);
      }
    }
  }

  /** Strings are totally ordered as long as none is empty... */
  lemma {:induction false} VarcharTotal(len: nat)
    requires len > 0
    ensures TotalOn(VarcharKey, len, iset k: Key | |k| == len && Padded(k) && k[0] != 0)
  {
    forall a: Key, b: Key, c: Key
      | |a| == |b| == |c| == len && Padded(a) && Padded(b) && Padded(c) && a[0] != 0 && b[0] != 0 && c[0] != 0
      ensures OrderLaws(VarcharKey, len, a, b, c)
    {
      StrCmpIsMemCmp(a, b);
      StrCmpIsMemCmp(b, a);
      StrCmpIsMemCmp(b, c);
      StrCmpIsMemCmp(a, c);
      MemCmpOrder(a, b, c);
    }
  }

  /** ...and an empty string is taken for equal to every other string. */
  lemma {:induction false} VarcharTellsApartIff(len: nat, a: Key, b: Key)
    requires |a| == |b| == len > 0 && Padded(a) && Padded(b) && a != b
    ensures Compare(VarcharKey, len, a, b) != 0 <==> a[0] != 0 && b[0] != 0
  {
    StrCmpIsMemCmp(a, b);
    MemCmpOrder(a, b, b);
  }

  lemma {:induction false} WrapOfDifference(d: int)
    requires -0x1_0000_0000 < d < 0x1_0000_0000
    ensures Wrap(d) == if d < -0x8000_0000 then d + 0x1_0000_0000
                       else if d < 0x8000_0000 then d else d - 0x1_0000_0000
  {
  }

  /** Signed integers are ordered by value exactly when their difference fits. */
  lemma {:induction false} IntegerOrderedIff(a: Key, b: Key)
    requires |a| == |b| == 4
    ensures var x, y := Wrap(Word(a)), Wrap(Word(b));
            ((Compare(IntegerKey, 4, a, b) < 0 <==> x < y) && (Compare(IntegerKey, 4, a, b) > 0 <==> x > y))
            <==> -0x8000_0000 <= x - y < 0x8000_0000
  {
    WrapOfDifference(Wrap(Word(a)) - Wrap(Word(b)));
  }

  lemma {:induction false} IntegerTotal(keys: iset<Key>)
    requires forall a | a in keys :: |a| == 4
    requires forall a, b | a in keys && b in keys :: Wrap(Word(a)) - Wrap(Word(b)) < 0x8000_0000
    ensures TotalOn(IntegerKey, 4, keys)
  {
    forall a, b, c | a in keys && b in keys && c in keys
      ensures OrderLaws(IntegerKey, 4, a, b, c)
    {
      IntegerDifference(a, b);
      IntegerDifference(b, a);
      IntegerDifference(b, c);
      IntegerDifference(a, c);
    }
  }

  lemma {:induction false} IntegerDifference(a: Key, b: Key)
    requires |a| == |b| == 4 && -0x8000_0000 < Wrap(Word(a)) - Wrap(Word(b)) < 0x8000_0000
    ensures Compare(IntegerKey, 4, a, b) == Wrap(Word(a)) - Wrap(Word(b))
    ensures Wrap(Word(a)) == Wrap(Word(b)) <==> a == b
  {
    WrapOfDifference(Wrap(Word(a)) - Wrap(Word(b)));
    WordInjective(a, b);
    WordInjective(b, a);
  }
}
