// The growing message buffer (src/common/msg.c).

module MessageBuffer {
  import opened Arithmetic
  import opened Common
  import opened Octets

  const MIN_CHUNK := 32

  /** A difference as a C int. */
  function AsInt(n: nat): (d: int)
    ensures d <= n && (d == n <==> n < 0x8000_0000)
  {
    (n + 0x8000_0000) % 0x1_0000_0000 - 0x8000_0000
  }

  /** The padding in front of an item aligned to `align`. */
  function Padding(offs: nat, align: nat): (pad: nat)
    requires align > 0
    ensures (offs + pad) % align == 0 && pad < align
  {
    if offs % align != 0 then (RoundUp(offs, align); align - offs % align) else 0
  }

  function Zeros(n: nat): (z: Octets)
    ensures |z| == n
  {
    seq(n, _ => 0)
  }

  class MsgBuf {
    var buf: array<byte>
    var p: nat                 // the place to write or read next
    var l: nat                 // the room, or the data, behind it

    ghost predicate Valid()
      reads this
    {
      p + l == buf.Length
    }

    ghost function Written(): Octets
      reads this, buf
      requires Valid()
    {
      buf[..p]
    }

    ghost function Rest(): Octets
      reads this, buf
      requires Valid()
    {
      buf[p..]
    }

    /** mrp_msgbuf_write */
    constructor Write(size: nat)
      ensures Valid() && Written() == [] && l == size && fresh(buf)
    {
      buf := new byte[size](_ => 0);
      p, l := 0, size;
    }

    /** mrp_msgbuf_read */
    constructor Read(data: array<byte>)
      ensures Valid() && buf == data && Rest() == data[..]
    {
      buf, p, l := data, 0, data.Length;
    }

    /** mrp_msgbuf_ensure: afterwards there is room exactly if what is missing fits a C int. */
    method Ensure(size: nat)
      requires Valid()
      modifies this
      ensures Valid() && Written() == old(Written()) && (buf == old(buf) || fresh(buf))
      ensures l >= size <==> size - old(l) < 0x8000_0000
      ensures size <= old(l) ==> buf == old(buf)
      ensures size > old(l) ==> buf.Length - old(buf.Length) >= MIN_CHUNK
      ensures old(l) < size < old(l) + 0x8000_0000 ==> l == size || l == old(l) + MIN_CHUNK
    {
      if size > l {
        var diff := AsInt(size - l);
        if diff < MIN_CHUNK {
          diff := MIN_CHUNK;
        }
        var bigger := new byte[buf.Length + diff](_ => 0);
        forall i | 0 <= i < buf.Length {
          bigger[i] := buf[i];
        }
        buf, l := bigger, l + diff;
      }
    }

    /** mrp_msgbuf_reserve: zeroes up to the alignment, then room for `size` octets. */
    method Reserve(size: nat, align: nat) returns (at: nat)
      requires Valid() && align > 0 && size + align <= 0x8000_0000
      modifies this, buf
      ensures Valid() && at == old(p) + Padding(old(p), align) && p == at + size && (buf == old(buf) || fresh(buf))
      ensures buf[..at] == old(Written()) + Zeros(Padding(old(p), align))
    {
      var pad := Padding(p, align);
      Ensure(pad + size);
      label Grown:
      for i := 0 to pad
        invariant Valid() && p == old(p) && l == old@Grown(l) && buf == old@Grown(buf)
        invariant buf[..p] == old(Written())
        invariant forall j | p <= j < p + i :: buf[j] == 0
      {
        buf[p + i] := 0;
      }
      at := p + pad;
      p, l := p + pad + size, l - (pad + size);
    }

    /** MRP_MSGBUF_PUSH and MRP_MSGBUF_PUSH_DATA */
    method Push(data: Octets, align: nat)
      requires Valid() && align > 0 && |data| + align <= 0x8000_0000
      modifies this, buf
      ensures Valid() && (buf == old(buf) || fresh(buf))
      ensures Written() == old(Written()) + Zeros(Padding(old(p), align)) + data
    {
      var at := Reserve(|data|, align);
      ghost var front := buf[..at];
      for i := 0 to |data|
        invariant Valid() && p == at + |data| && (buf == old(buf) || fresh(buf))
        invariant buf[..at] == front && buf[at..at + i] == data[..i]
      {
        buf[at + i] := data[i];
        assert data[..i + 1] == data[..i] + [data[i]];
      }
      assert buf[..p] == buf[..at] + buf[at..at + |data|];
    }

    /** mrp_msgbuf_pull: the place of the octets pulled. */
    method Pull(size: nat, align: nat) returns (at: Option<nat>)
      requires Valid() && align > 0
      modifies this
      ensures Valid() && buf == old(buf)
      ensures at.Some? <==> Padding(old(p), align) + size <= old(l)
      ensures at.Some? ==> at.value == old(p) + Padding(old(p), align) && p == at.value + size
      ensures at.None? ==> p == old(p)
    {
      var pad := Padding(p, align);
      var len := size + pad;
      if l >= len {
        at := Some(p + pad);
        p, l := p + len, l - len;
      } else {
        at := None;
      }
    }
  }

  // ----- any sequence of items comes back, whatever their alignments

  datatype Item = Item(data: Octets, align: nat)

  predicate ItemsAligned(items: seq<Item>) { forall i | 0 <= i < |items| :: items[i].align > 0 }

  /** The buffer after pushing the items, the last one last. */
  function Pushed(items: seq<Item>): Octets
    requires ItemsAligned(items)
  {
    if items == [] then []
    else
      var n := |items| - 1;
      var front := Pushed(items[..n]);
      front + Zeros(Padding(|front|, items[n].align)) + items[n].data
  }

  /** What pulling with the sizes and alignments of the items yields from offset `p`. */
  function Pulls(buf: Octets, p: nat, items: seq<Item>): Option<seq<Octets>>
    requires ItemsAligned(items)
    decreases |items|
  {
    if items == [] then Some([])
    else
      var at := p + Padding(p, items[0].align);
      var end := at + |items[0].data|;
      if end > |buf| then None
      else match Pulls(buf, end, items[1..]) case None => None case Some(ds) => Some([buf[at..end]] + ds)
  }

  function Datas(items: seq<Item>): seq<Octets> { seq(|items|, i requires 0 <= i < |items| => items[i].data) }

  lemma {:induction false} PushedPrefix(items: seq<Item>, k: nat)
    requires ItemsAligned(items) && k <= |items|
    ensures |Pushed(items[..k])| <= |Pushed(items)| && Pushed(items)[..|Pushed(items[..k])|] == Pushed(items[..k])
    decreases |items| - k
  {
    var n := |items| - 1;
    if k == |items| {
      assert items[..k] == items;
    } else {
      PushedPrefix(items[..n], k);
      assert items[..n][..k] == items[..k];
    }
  }

  lemma {:induction false} PullsFrom(items: seq<Item>, k: nat)
    requires ItemsAligned(items) && k <= |items|
    ensures Pulls(Pushed(items), |Pushed(items[..k])|, items[k..]) == Some(Datas(items[k..]))
    decreases |items| - k
  {
    if k < |items| {
      hide Padding, Zeros, Pushed, Datas;
      var front, next := Pushed(items[..k]), Pushed(items[..k + 1]);
      PushedLast(items, k);
      PushedPrefix(items, k + 1);
      PullsFrom(items, k + 1);
      var b, at := Pushed(items), |front| + Padding(|front|, items[k].align);
      assert items[k..][0] == items[k] && items[k..][1..] == items[k + 1..];
      assert b[at..|next|] == b[..|next|][at..] == next[at..];
      DatasStep(items, k);
    } else {
      assert items[k..] == [] && Datas(items[k..]) == [];
    }
  }

  lemma {:induction false} PushedLast(items: seq<Item>, k: nat)
    requires ItemsAligned(items) && k < |items|
    ensures var front, next := Pushed(items[..k]), Pushed(items[..k + 1]);
            var at := |front| + Padding(|front|, items[k].align);
            |next| == at + |items[k].data| && next[at..] == items[k].data
  {
    hide Padding;
    assert items[..k + 1][..k] == items[..k] && items[..k + 1][k] == items[k];
  }

  lemma {:induction false} DatasStep(items: seq<Item>, k: nat)
    requires k < |items|
    ensures Datas(items[k..]) == [items[k].data] + Datas(items[k + 1..])
  {
  }

  /** Reserving and pulling pad alike: pulling the sizes that were pushed yields the
      items that were pushed, for any alignments. */
  lemma {:induction false} PullsBackPushed(items: seq<Item>)
    requires ItemsAligned(items)
    ensures Pulls(Pushed(items), 0, items) == Some(Datas(items))
  {
    PullsFrom(items, 0);
    assert items[0..] == items && items[..0] == [];
  }
}
