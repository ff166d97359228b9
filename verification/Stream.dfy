// Frames on a byte stream (src/common/stream-transport.c, recv_data of
// src/common/transport.c).

module StreamFraming {
  import opened Common
  import opened Octets

  const HEAD := 4
  const DEFAULT_SIZE := 128
  const MAX_PAYLOAD := 0xffff_fffb

  function Length(b: Octets): (n: nat)
    requires |b| >= HEAD
    ensures n < 0x1_0000_0000
  {
    Powers();
    Number(b[..HEAD])
  }

  /** The buffer starts with a whole frame. */
  predicate Complete(b: Octets) { |b| >= HEAD && |b| >= HEAD + Length(b) }

  /** The payloads of the whole frames in front. */
  function Frames(b: Octets): seq<Octets>
    decreases |b|
  {
    if Complete(b) then [b[HEAD..HEAD + Length(b)]] + Frames(b[HEAD + Length(b)..]) else []
  }

  /** What follows the last whole frame. */
  function Left(b: Octets): (r: Octets)
    ensures !Complete(r)
    decreases |b|
  {
    if Complete(b) then Left(b[HEAD + Length(b)..]) else b
  }

  /** No announced payload is too long for a 32-bit buffer size. */
  predicate Sized(b: Octets)
    decreases |b|
  {
    |b| >= HEAD ==> Length(b) <= MAX_PAYLOAD && (Complete(b) ==> Sized(b[HEAD + Length(b)..]))
  }

  function Frame(payload: Octets): Octets { BigEndian(HEAD, |payload|) + payload }

  /** Four octets for the length, the highest in front, and then the payload. */
  lemma {:induction false} FrameOctets(payload: Octets)
    requires |payload| < 0x1_0000_0000
    ensures var b := Frame(payload);
            && |b| == 4 + |payload| && b[4..] == payload
            && |payload| == 0x100_0000 * (b[0] as int) + 0x1_0000 * (b[1] as int) + 0x100 * (b[2] as int) + b[3]
  {
    FourOctets(|payload|);
  }

  function Framed(payloads: seq<Octets>): Octets {
    if payloads == [] then [] else Frame(payloads[0]) + Framed(payloads[1..])
  }

  /** Reading can stop anywhere: what is left is parsed together with what comes. */
  lemma {:induction false} FramesSplit(a: Octets, b: Octets)
    ensures Frames(a + b) == Frames(a) + Frames(Left(a) + b) && Left(a + b) == Left(Left(a) + b)
    decreases |a|
  {
    hide Number;
    if Complete(a) {
      var n := HEAD + Length(a);
      SameLength(a, b);
      assert (a + b)[n..] == a[n..] + b && (a + b)[HEAD..n] == a[HEAD..n];
      FramesSplit(a[n..], b);
    }
  }

  lemma {:induction false} SameLength(a: Octets, b: Octets)
    requires |a| >= HEAD
    ensures |a + b| >= HEAD && Length(a + b) == Length(a)
  {
    assert (a + b)[..HEAD] == a[..HEAD];
  }

  lemma {:induction false} SizedLeft(a: Octets, b: Octets)
    requires Sized(a + b)
    ensures |Left(a)| >= HEAD ==> Length(Left(a)) <= MAX_PAYLOAD
    decreases |a|
  {
    hide Number;
    if |a| >= HEAD {
      SameLength(a, b);
      if Complete(a) {
        var n := HEAD + Length(a);
        assert (a + b)[n..] == a[n..] + b;
        SizedLeft(a[n..], b);
      }
    }
  }

  lemma {:induction false} FrameInFront(payload: Octets, rest: Octets)
    requires |payload| < 0x1_0000_0000
    ensures var b := Frame(payload) + rest;
            && Complete(b) && Length(b) == |payload|
            && b[HEAD..HEAD + |payload|] == payload && b[HEAD + |payload|..] == rest
  {
    Powers();
    assert Frame(payload) + rest == BigEndian(HEAD, |payload|) + (payload + rest);
    LeadingNumber(HEAD, |payload|, payload + rest);
  }

  /** Framing and unframing are inverse. */
  lemma {:induction false} FramesOfFramed(payloads: seq<Octets>)
    requires forall i | 0 <= i < |payloads| :: |payloads[i]| < 0x1_0000_0000
    ensures Frames(Framed(payloads)) == payloads && Left(Framed(payloads)) == []
  {
    hide Number, BigEndian, Complete;
    if payloads != [] {
      FrameInFront(payloads[0], Framed(payloads[1..]));
      FramesOfFramed(payloads[1..]);
      assert [payloads[0]] + payloads[1..] == payloads;
    } else {
      NothingComplete();
    }
  }

  lemma {:induction false} NothingComplete()
    ensures !Complete([])
  {
  }

  /** Whatever has arrived of a series of frames is some of its first payloads, and
      the rest of what arrived is the beginning of the next frame but not all of it. */
  lemma {:induction false} ArrivedPart(payloads: seq<Octets>, total: Octets)
    requires forall i | 0 <= i < |payloads| :: |payloads[i]| < 0x1_0000_0000
    requires total <= Framed(payloads)
    ensures var k := |Frames(total)|;
            && k <= |payloads| && Frames(total) == payloads[..k]
            && (if k < |payloads| then Left(total) < Frame(payloads[k]) else Left(total) == [])
    decreases |payloads|
  {
    hide Number, BigEndian, Complete;
    if payloads == [] {
      NothingComplete();
    } else {
      var p, rest := payloads[0], Framed(payloads[1..]);
      if |total| >= |Frame(p)| {
        var total' := total[|Frame(p)|..];
        assert total == Frame(p) + total';
        FrameInFront(p, total');
        assert total' == Framed(payloads)[|Frame(p)|..][..|total'|] == rest[..|total'|];
        ArrivedPart(payloads[1..], total');
        var k := |Frames(total')|;
        assert payloads[..k + 1] == [p] + payloads[1..][..k];
      } else {
        assert total == Frame(p)[..|total|];
        PartIncomplete(p, |total|);
      }
    }
  }

  lemma {:induction false} PartIncomplete(payload: Octets, n: nat)
    requires |payload| < 0x1_0000_0000 && n < |Frame(payload)|
    ensures !Complete(Frame(payload)[..n])
  {
    if n >= HEAD {
      FrameInFront(payload, []);
      assert Frame(payload) + [] == Frame(payload);
      SameLength(Frame(payload)[..n], Frame(payload)[n..]);
      assert Frame(payload)[..n] + Frame(payload)[n..] == Frame(payload);
    }
  }

  /** A payload comes first exactly if its frame does. */
  lemma {:induction false} FirstPayloadIff(b: Octets, payload: Octets)
    requires |payload| < 0x1_0000_0000
    ensures Complete(b) && b[HEAD..HEAD + Length(b)] == payload <==> Frame(payload) <= b
  {
    hide Number, BigEndian;
    if Complete(b) && b[HEAD..HEAD + Length(b)] == payload {
      BigEndianOfNumber(b[..HEAD]);
      assert b == b[..HEAD] + b[HEAD..HEAD + Length(b)] + b[HEAD + Length(b)..];
    }
    if Frame(payload) <= b {
      FrameInFront(payload, b[|Frame(payload)|..]);
      assert b == Frame(payload) + b[|Frame(payload)|..];
    }
  }

  /** A frame of which only `n` octets were written reaches the receiver all the same
      exactly if the next octets written happen to be the missing ones. */
  lemma {:induction false} CutFrameIff(payload: Octets, n: nat, rest: Octets)
    requires |payload| < 0x1_0000_0000 && n <= |Frame(payload)|
    ensures var b := Frame(payload)[..n] + rest;
            Complete(b) && b[HEAD..HEAD + Length(b)] == payload <==> Frame(payload)[n..] <= rest
  {
    var f := Frame(payload);
    var b := f[..n] + rest;
    hide Frame, Complete;
    FirstPayloadIff(b, payload);
    assert f == f[..n] + f[n..];
    if f <= b {
      assert f[n..] == b[n..][..|f| - n] == rest[..|f| - n];
    }
    if f[n..] <= rest {
      assert b == f[..n] + (f[n..] + rest[|f| - n..]) == f + rest[|f| - n..];
    }
  }

  /** After some whole frames and a cut one, what is on the way is still a beginning of
      the series. */
  lemma {:induction false} CutSeries(payloads: seq<Octets>, k: nat, n: nat)
    requires k < |payloads| && n <= |Frame(payloads[k])|
    ensures Framed(payloads[..k]) + Frame(payloads[k])[..n] <= Framed(payloads)
  {
    hide Frame;
    if k == 0 {
      assert [] + Frame(payloads[0])[..n] == Frame(payloads[0])[..n];
    } else {
      CutSeries(payloads[1..], k - 1, n);
      assert payloads[..k][1..] == payloads[1..][..k - 1];
      assert Framed(payloads[..k]) + Frame(payloads[k])[..n]
          == Frame(payloads[0]) + (Framed(payloads[1..][..k - 1]) + Frame(payloads[k])[..n]);
    }
  }

  // ----- the receiving end

  /** What recv_data is called with: everything up to the first payload it refuses. */
  function UpToRefused(handler: Octets -> int, frames: seq<Octets>): seq<Octets> {
    if frames == [] then []
    else if handler(frames[0]) != 0 then [frames[0]]
    else [frames[0]] + UpToRefused(handler, frames[1..])
  }

  /** The frames are delivered in order; only the last delivered can have been refused, and
      it was if anything is left. */
  lemma {:induction false} UpToRefusedMeans(handler: Octets -> int, frames: seq<Octets>)
    ensures var sent := UpToRefused(handler, frames);
            && |sent| <= |frames| && sent == frames[..|sent|]
            && (forall i | 0 <= i < |sent| - 1 :: handler(sent[i]) == 0)
            && (|sent| < |frames| ==> sent != [] && handler(sent[|sent| - 1]) != 0)
  {
    if frames != [] && handler(frames[0]) == 0 {
      UpToRefusedMeans(handler, frames[1..]);
      var rest := UpToRefused(handler, frames[1..]);
      forall i | 0 <= i < |rest| ensures frames[i + 1] == rest[i] {
        assert frames[1..][..|rest|][i] == rest[i];
      }
    }
  }

  predicate AllAccepted(handler: Octets -> int, frames: seq<Octets>) {
    forall f | f in frames :: handler(f) == 0
  }

  lemma {:induction false} AcceptedThen(handler: Octets -> int, a: seq<Octets>, b: seq<Octets>)
    requires AllAccepted(handler, a)
    ensures UpToRefused(handler, a + b) == a + UpToRefused(handler, b)
    ensures AllAccepted(handler, a + b) <==> AllAccepted(handler, b)
  {
    if a != [] {
      assert (a + b)[0] == a[0] && (a + b)[1..] == a[1..] + b && a == [a[0]] + a[1..];
      AcceptedThen(handler, a[1..], b);
    } else {
      assert a + b == b;
    }
    assert forall f :: f in a + b <==> f in a || f in b;
  }

  /** The kernel's side of a non-blocking socket. */
  class Socket {
    var queue: Octets

    constructor ()
      ensures queue == []
    {
      queue := [];
    }

    /** writev: some of the octets, or -1 and none. */
    method Write(bytes: Octets) returns (n: int)
      modifies this
      ensures -1 <= n <= |bytes| && queue == old(queue) + bytes[..if n < 0 then 0 else n]
    {
      n :| -1 <= n <= |bytes|;
      queue := queue + bytes[..if n < 0 then 0 else n];
    }

    /** Any part of what has arrived that fits, possibly nothing. */
    method Read(space: nat) returns (chunk: Octets)
      requires space > 0
      modifies this
      ensures chunk + queue == old(queue) && |chunk| <= space
    {
      var n: nat :| n <= space && n <= |queue|;
      chunk, queue := queue[..n], queue[n..];
    }
  }

  class Stream {
    const handler: Octets -> int        // recv_data
    var ibuf: array<byte>               // of size isize
    var idata: nat
    var open: bool
    ghost var total: Octets             // everything read so far
    ghost var delivered: seq<Octets>    // the payloads recv_data was called with

    constructor (handler: Octets -> int)
      ensures Valid() && open && total == [] && delivered == [] && this.handler == handler && fresh(ibuf)
    {
      this.handler, ibuf, idata, open := handler, new byte[0], 0, true;
      total, delivered := [], [];
    }

    /** The payloads of all frames read so far were delivered, once and in order, up
        to the first refused one, which closes the connection; while it is open, the
        buffer holds the beginning of the next frame. */
    ghost predicate Valid()
      reads this, ibuf
    {
      && idata <= ibuf.Length && (ibuf.Length == 0 || ibuf.Length >= DEFAULT_SIZE)
      && delivered == UpToRefused(handler, Frames(total)) && (open <==> AllAccepted(handler, Frames(total)))
      && (open ==> ibuf[..idata] == Left(total) && delivered == Frames(total))
    }

    /** A full buffer grows to hold the frame it begins with. */
    method Grow()
      requires Valid() && open && idata == ibuf.Length
      requires idata >= HEAD ==> Length(ibuf[..idata]) <= MAX_PAYLOAD
      modifies this`ibuf
      ensures Valid() && fresh(ibuf) && idata < ibuf.Length
    {
      var size := DEFAULT_SIZE;
      if ibuf.Length > HEAD {
        size := (HEAD + Length(ibuf[..idata])) % 0x1_0000_0000;
      }
      var bigger := new byte[size](_ => 0);
      forall i | 0 <= i < idata {
        bigger[i] := ibuf[i];
      }
      ghost var before := ibuf[..idata];
      ibuf := bigger;
      assert ibuf[..idata] == before;
    }

    /** The extraction loop behind a read: every whole frame leaves the buffer. */
    method Extract(ghost seen: Octets)
      requires idata <= ibuf.Length && ibuf.Length >= DEFAULT_SIZE && open
      requires delivered == Frames(seen) && AllAccepted(handler, Frames(seen))
      requires Frames(total) == Frames(seen) + Frames(ibuf[..idata]) && Left(total) == Left(ibuf[..idata])
      modifies this`idata, this`open, this`delivered, ibuf
      ensures Valid()
    {
      hide Number;
      ghost var before := Frames(total);
      while idata >= HEAD && idata >= HEAD + Length(ibuf[..idata])
        invariant idata <= ibuf.Length && open && AllAccepted(handler, delivered)
        invariant before == delivered + Frames(ibuf[..idata]) && Left(total) == Left(ibuf[..idata])
        decreases idata
      {
        var b := ibuf[..idata];
        var size := Length(b);
        var data := b[HEAD..HEAD + size];
        var error := handler(data);
        ghost var later := Frames(b[HEAD + size..]);
        assert before == delivered + ([data] + later);
        if error != 0 {
          AcceptedThen(handler, delivered, [data] + later);
          assert data in [data] + later;
          delivered, open := delivered + [data], false;
          return;
        }
        assert before == (delivered + [data]) + later;
        delivered := delivered + [data];
        var left := idata - (HEAD + size);
        forall i | 0 <= i < left {
          ibuf[i] := ibuf[HEAD + size + i];
        }
        assert ibuf[..left] == b[HEAD + size..];
        idata := left;
      }
      assert before == delivered;
      AcceptedThen(handler, delivered, []);
      assert delivered + [] == delivered;
    }

    /** One turn of the read loop, after `read` returned some octets. */
    method Absorb(chunk: Octets)
      requires Valid() && open && ibuf.Length > 0 && idata + |chunk| <= ibuf.Length
      modifies this, ibuf
      ensures Valid() && total == old(total) + chunk && ibuf == old(ibuf)
    {
      ghost var seen, left := total, ibuf[..idata];
      forall i | 0 <= i < |chunk| {
        ibuf[idata + i] := chunk[i];
      }
      idata := idata + |chunk|;
      assert ibuf[..idata] == left + chunk;
      FramesSplit(seen, chunk);
      total := total + chunk;
      Extract(seen);
    }

    /** strm_recv_cb: reads until nothing more is there or a payload is refused. Every
        read has room. */
    method Receive(sock: Socket)
      requires Valid() && open && Sized(total + sock.queue)
      modifies this, ibuf, sock
      ensures Valid() && total + sock.queue == old(total) + old(sock.queue) && old(total) <= total
      ensures open ==> idata < ibuf.Length
    {
      hide Frames, Left, UpToRefused, AllAccepted, Sized, Number;
      ghost var all := total + sock.queue;
      if idata == ibuf.Length {
        SizedLeft(total, sock.queue);
        Grow();
      }
      while true
        invariant Valid() && open && idata < ibuf.Length && total + sock.queue == all && old(total) <= total
        invariant fresh(ibuf) || ibuf == old(ibuf)
        decreases |sock.queue|
      {
        ghost var queue := sock.queue;
        var chunk := sock.Read(ibuf.Length - idata);
        if chunk == [] {
          break;
        }
        assert total + queue == (total + chunk) + sock.queue;
        Absorb(chunk);
        if !open {
          return;
        }
        if idata == ibuf.Length {
          SizedLeft(total, sock.queue);
          Grow();
        }
      }
    }
  }

  /** The new buffer size exceeds the data it must hold exactly up to the largest
      payload; beyond it, the 32-bit sum wraps around. */
  lemma {:induction false} GrowthIff(announced: nat, idata: nat)
    requires announced < 0x1_0000_0000 && DEFAULT_SIZE <= idata < HEAD + announced
    ensures (HEAD + announced) % 0x1_0000_0000 > idata <==> announced <= MAX_PAYLOAD
  {
  }
}
