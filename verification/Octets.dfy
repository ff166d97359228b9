// Numbers in network byte order (src/common/msg.h, src/common/msg.c).

module Octets {
  import opened Arithmetic
  import opened Common

  type Octets = seq<byte>

  function Pow256(w: nat): (r: nat)
    ensures r > 0
  {
    if w == 0 then 1 else 256 * Pow256(w - 1)
  }

  /** The low `w` octets of a number, most significant first (htobe16, htobe32, htobe64). */
  function BigEndian(w: nat, n: nat): (b: Octets)
    ensures |b| == w
  {
    if w == 0 then [] else BigEndian(w - 1, n / 256) + [n % 256]
  }

  /** be16toh, be32toh and be64toh. */
  function Number(b: Octets): (n: nat)
    ensures n < Pow256(|b|)
  {
    if b == [] then 0 else Number(b[..|b| - 1]) * 256 + b[|b| - 1]
  }

  lemma {:induction false} NumberOfBigEndian(w: nat, n: nat)
    requires n < Pow256(w)
    ensures Number(BigEndian(w, n)) == n
  {
    if w > 0 {
      var b := BigEndian(w, n);
      assert b[..w - 1] == BigEndian(w - 1, n / 256);
      NumberOfBigEndian(w - 1, n / 256);
    }
  }

  lemma {:induction false} BigEndianOfNumber(b: Octets)
    ensures BigEndian(|b|, Number(b)) == b
  {
    if b != [] {
      var front, last := b[..|b| - 1], b[|b| - 1];
      BigEndianOfNumber(front);
      assert b == front + [last];
    }
  }

  lemma {:induction false} Powers()
    ensures Pow256(1) == 0x100 && Pow256(2) == 0x1_0000 && Pow256(4) == 0x1_0000_0000
    ensures Pow256(8) == 0x1_0000_0000_0000_0000
  {
    assert Pow256(2) == 0x1_0000;
    assert Pow256(3) == 0x100_0000;
    assert Pow256(4) == 0x1_0000_0000;
    assert Pow256(5) == 0x100_0000_0000;
    assert Pow256(6) == 0x1_0000_0000_0000;
    assert Pow256(7) == 0x100_0000_0000_0000;
  }

  lemma {:induction false} DivideTwice(n: nat, p: nat)
    requires p > 0
    ensures n / 256 / p == n / (256 * p)
  {
    var q, r := n / 256 / p, n / 256 % p;
    assert n == 256 * (q * p + r) + n % 256;
    var low := 256 * r + n % 256;
    assert n == q * (256 * p) + low;
    assert 256 * r <= 256 * (p - 1);
    QuotientOf(256 * p, q, low);
  }

  /** The octets are the digits to the base 256, the most significant in front. */
  lemma {:induction false} DigitAt(w: nat, n: nat, i: nat)
    requires i < w
    ensures BigEndian(w, n)[i] == n / Pow256(w - 1 - i) % 256
  {
    if i < w - 1 {
      DigitAt(w - 1, n / 256, i);
      DivideTwice(n, Pow256(w - 2 - i));
    }
  }

  lemma {:induction false} TwoOctets(n: nat)
    ensures BigEndian(2, n) == [n / 0x100 % 0x100, n % 0x100]
    ensures n < 0x1_0000 ==> n == 0x100 * (BigEndian(2, n)[0] as int) + BigEndian(2, n)[1]
  {
    DigitAt(2, n, 0);
    DigitAt(2, n, 1);
    Powers();
  }

  lemma {:induction false} FourOctets(n: nat)
    ensures BigEndian(4, n) == [n / 0x100_0000 % 0x100, n / 0x1_0000 % 0x100, n / 0x100 % 0x100, n % 0x100]
    ensures n < 0x1_0000_0000 ==>
              var b := BigEndian(4, n);
              n == 0x100_0000 * (b[0] as int) + 0x1_0000 * (b[1] as int) + 0x100 * (b[2] as int) + b[3]
  {
    DigitAt(4, n, 0);
    DigitAt(4, n, 1);
    DigitAt(4, n, 2);
    DigitAt(4, n, 3);
    Powers();
    assert Pow256(3) == 0x100_0000;
  }

  /** A number that starts a string of octets. */
  lemma {:induction false} LeadingNumber(w: nat, n: nat, rest: Octets)
    requires n < Pow256(w)
    ensures |BigEndian(w, n) + rest| >= w
    ensures Number((BigEndian(w, n) + rest)[..w]) == n && (BigEndian(w, n) + rest)[w..] == rest
  {
    NumberOfBigEndian(w, n);
    assert (BigEndian(w, n) + rest)[..w] == BigEndian(w, n);
  }
}
