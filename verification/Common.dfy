// Shared by all modules.

module Common {

  datatype Option<+T> = None | Some(value: T)

  /** An octet of a row, a message or a socket buffer. */
  type byte = b: int | 0 <= b < 256
}

/** Doubly linked lists as sequences of addresses. */
module LinkedLists {

  predicate NoDuplicates<T(==)>(s: seq<T>) {
    forall i, j | 0 <= i < j < |s| :: s[i] != s[j]
  }

  function Linked<T>(s: seq<T>): set<T> { set p | p in s }

  /** Takes an element out of a list. */
  function Unlink<T(==)>(s: seq<T>, p: T): seq<T>
  {
    if s == [] then [] else if s[0] == p then s[1..] else [s[0]] + Unlink(s[1..], p)
  }

  lemma {:induction false} UnlinkRemoves<T>(s: seq<T>, p: T)
    requires NoDuplicates(s)
    ensures NoDuplicates(Unlink(s, p)) && Linked(Unlink(s, p)) == Linked(s) - {p}
    ensures |Unlink(s, p)| == |s| - if p in s then 1 else 0
  {
    if s != [] {
      assert forall i | 0 <= i < |s[1..]| :: s[1..][i] == s[i + 1];
      UnlinkRemoves(s[1..], p);
      assert Linked(s) == {s[0]} + Linked(s[1..]);
      assert s[0] !in s[1..];
      if s[0] != p {
        var r := Unlink(s[1..], p);
        assert forall q :: q in r <==> q in Linked(r);
        assert s[0] !in r;
        assert Linked([s[0]] + r) == {s[0]} + Linked(r);
      }
    }
  }

  lemma {:induction false} AppendLinks<T>(s: seq<T>, p: T)
    requires NoDuplicates(s) && p !in s
    ensures NoDuplicates(s + [p]) && Linked(s + [p]) == Linked(s) + {p}
  {
  }

  /** What is in front of the element and what is behind it keep their order. */
  lemma {:induction false} UnlinkSplit<T>(a: seq<T>, p: T, b: seq<T>)
    requires p !in a
    ensures Unlink(a + [p] + b, p) == a + b
  {
    if a == [] {
      assert (a + [p] + b)[1..] == b && a + b == b;
    } else {
      assert (a + [p] + b)[1..] == a[1..] + [p] + b;
      UnlinkSplit(a[1..], p, b);
    }
  }

  lemma {:induction false} UnlinkNone<T>(s: seq<T>, p: T)
    requires p !in s
    ensures Unlink(s, p) == s
  {
    if s != [] {
      UnlinkNone(s[1..], p);
    }
  }

  /** Taking an element out does not disturb the last one. */
  lemma {:induction false} UnlinkBefore<T>(s: seq<T>, last: T, p: T)
    requires p != last && last !in s
    ensures Unlink(s + [last], p) == Unlink(s, p) + [last] && Unlink(s + [last], last) == s
  {
    UnlinkSplit(s, last, []);
    assert s + [last] + [] == s + [last] && s + [] == s;
    if s == [] {
    } else {
      assert (s + [last])[1..] == s[1..] + [last];
      if s[0] != p {
        UnlinkBefore(s[1..], last, p);
      }
    }
  }

  /** The elements that belong to a set, in their order. */
  function Among<T(==)>(s: seq<T>, keep: set<T>): seq<T> {
    if s == [] then [] else (if s[0] in keep then [s[0]] else []) + Among(s[1..], keep)
  }

  lemma {:induction false} AmongAppend<T>(s: seq<T>, x: T, keep: set<T>)
    ensures Among(s + [x], keep) == Among(s, keep) + if x in keep then [x] else []
  {
    if s == [] {
    } else {
      assert (s + [x])[1..] == s[1..] + [x];
      AmongAppend(s[1..], x, keep);
    }
  }

  lemma {:induction false} AmongSame<T>(s: seq<T>, a: set<T>, b: set<T>)
    requires forall x | x in s :: x in a <==> x in b
    ensures Among(s, a) == Among(s, b)
  {
    if s != [] {
      AmongSame(s[1..], a, b);
    }
  }

  lemma {:induction false} AmongMembers<T>(s: seq<T>, keep: set<T>)
    ensures forall x :: x in Among(s, keep) <==> x in s && x in keep
  {
    if s != [] {
      AmongMembers(s[1..], keep);
      assert s == [s[0]] + s[1..];
    }
  }

  lemma {:induction false} CountLinks<T>(s: seq<T>)
    requires NoDuplicates(s)
    ensures |Linked(s)| == |s|
  {
    if s != [] {
      var n := |s| - 1;
      assert s == s[..n] + [s[n]] && s[n] !in s[..n];
      CountLinks(s[..n]);
      AppendLinks(s[..n], s[n]);
    }
  }

  lemma {:induction false} FreshLink<T>(s: seq<T>, p: T)
    requires NoDuplicates(s) && p !in Linked(s)
    ensures NoDuplicates(s + [p]) && Linked(s + [p]) == Linked(s) + {p}
  {
    AppendLinks(s, p);
  }

  lemma {:induction false} JoinLinks<T>(a: seq<T>, b: seq<T>)
    requires NoDuplicates(a) && NoDuplicates(b) && Linked(a) !! Linked(b)
    ensures NoDuplicates(a + b) && Linked(a + b) == Linked(a) + Linked(b)
  {
    forall i, j | 0 <= i < j < |a + b| ensures (a + b)[i] != (a + b)[j] {
      if i < |a| <= j {
        assert a[i] in Linked(a) && b[j - |a|] in Linked(b);
      }
    }
  }
}

module Arithmetic {

  lemma {:induction false} NotNegative(a: nat, b: nat)
    ensures a * b >= 0
  {
  }

  lemma {:induction false} QuotientOf(size: nat, k: nat, offs: nat)
    requires offs < size
    ensures (k * size + offs) / size == k && (k * size + offs) % size == offs
  {
    var x := k * size + offs;
    var q, r := x / size, x % size;
    assert x == q * size + r && 0 <= r < size;
    if q > k {
      assert (q - k) * size == q * size - k * size == offs - r;
      AtLeast(q - k, size);
    } else if q < k {
      assert (k - q) * size == k * size - q * size == r - offs;
      AtLeast(k - q, size);
    }
  }

  lemma {:induction false} AtLeast(a: nat, b: nat)
    requires a > 0
    ensures a * b >= b
  {
  }

  lemma {:induction false} AlignDown(size: nat, c: nat, offs: nat)
    requires offs < size && c % size == 0
    ensures c + offs - (c + offs) % size == c
  {
    var k := c / size;
    assert c == k * size;
    QuotientOf(size, k, offs);
  }

  lemma {:induction false} RoundUp(x: nat, n: nat)
    requires n > 0 && x % n != 0
    ensures (x + (n - x % n)) % n == 0
  {
    var q := x / n;
    assert x + (n - x % n) == (q + 1) * n + 0;
    QuotientOf(n, q + 1, 0);
  }

  lemma {:induction false} LargestOf(s: set<nat>) returns (b: nat)
    ensures forall p | p in s :: p <= b
    decreases |s|
  {
    if s == {} {
      b := 0;
    } else {
      var x :| x in s;
      var c := LargestOf(s - {x});
      b := if x > c then x else c;
      assert forall p | p in s :: p == x || p in s - {x};
    }
  }
}
