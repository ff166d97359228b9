// Messages over a byte stream (src/common/transport.c, src/common/stream-transport.c).

module MessageTransport {
  import opened Common
  import opened Octets
  import opened MessageFormat
  import opened MessageCodec
  import opened StreamFraming

  const EPROTO := 71

  /** recv_data in message mode, for payloads that hold a transport tag. */
  function ReceiveMessage(payload: Octets): (error: int)
    requires |payload| >= 2
  {
    if Number(payload[..2]) != TAG_DEFAULT || !Decoded(payload[2..]).Got? then -EPROTO else 0
  }

  /** strm_send: it succeeds exactly if the socket took the whole frame, and otherwise
      leaves the `n` octets there that it took. */
  method Send(sock: Socket, fields: seq<Field>) returns (ok: bool, ghost n: nat)
    requires MessageOk(fields)
    modifies sock
    ensures n <= |Frame(Encoded(fields))| && (ok <==> n == |Frame(Encoded(fields))|)
    ensures sock.queue == old(sock.queue) + Frame(Encoded(fields))[..n]
  {
    var buf := Encode(fields);
    var len := BigEndian(HEAD, |buf|);
    var written := sock.Write(len + buf);
    ok, n := written == |len| + |buf|, if written < 0 then 0 else written;
  }

  function Payloads(messages: seq<seq<Field>>): seq<Octets>
    requires forall i | 0 <= i < |messages| :: MessageOk(messages[i])
  {
    seq(|messages|, i requires 0 <= i < |messages| => Encoded(messages[i]))
  }

  /** Messages that survive the codec and fit a frame. */
  ghost predicate Sendable(m: seq<Field>)
    requires MessageOk(m)
  {
    CounterFits(m) && |Encoded(m)| <= MAX_PAYLOAD
  }

  lemma {:induction false} SendableAccepted(m: seq<Field>)
    requires MessageOk(m) && Sendable(m)
    ensures |Encoded(m)| >= 2 && ReceiveMessage(Encoded(m)) == 0 && Decoded(Encoded(m)[2..]) == Got(m, [])
  {
    hide MessageOk, CounterFits, Body, Decoded;
    RoundTripIff(m);
    Powers();
    LeadingNumber(2, TAG_DEFAULT, Body(m));
  }

  /** A message with any of its last octets missing is refused, and so is one with another
      transport tag in front. */
  lemma {:induction false} Refusals(m: seq<Field>, n: nat, tag: nat)
    requires MessageOk(m) && Sendable(m)
    ensures 2 <= n < |Encoded(m)| ==> ReceiveMessage(Encoded(m)[..n]) == -EPROTO
    ensures 0 < tag < 0x1_0000 ==> ReceiveMessage(BigEndian(2, tag) + Body(m)) == -EPROTO
  {
    hide MessageOk, CounterFits, Body, Decoded;
    SendableAccepted(m);
    if 2 <= n < |Encoded(m)| {
      TruncatedRefused(Encoded(m)[2..], n - 2);
      assert Encoded(m)[..n][2..] == Encoded(m)[2..][..n - 2];
    }
    if 0 < tag < 0x1_0000 {
      Powers();
      LeadingNumber(2, tag, Body(m));
    }
  }

  /** Only payloads with the right tag that can be decoded are accepted; every other is
      answered with an error. */
  lemma {:induction false} AcceptedIff(payload: Octets)
    requires |payload| >= 2
    ensures ReceiveMessage(payload) == 0 <==> payload[0] == 0 && payload[1] == 0 && Decoded(payload[2..]).Got?
    ensures ReceiveMessage(payload) == 0 || ReceiveMessage(payload) == -71
  {
    assert payload[..2] == [payload[0], payload[1]];
    assert payload[..2][..1] == [payload[0]] && payload[..2][..1][..0] == [];
    assert Number([payload[0]]) == payload[0] as int;
    assert Number(payload[..2]) == (payload[0] as int) * 256 + payload[1];
  }

  /** However the frames of a series of messages are cut up on their way, a receiver
      that has read some of the octets has been given the first messages, each decoded
      to what was sent, and is still connected; once it has read all octets it has been
      given all messages. */
  lemma {:induction false} ReceivedIsSent(messages: seq<seq<Field>>, s: Stream)
    requires forall i | 0 <= i < |messages| :: MessageOk(messages[i])
    requires forall i | 0 <= i < |messages| :: Sendable(messages[i])
    requires forall p: Octets | |p| >= 2 :: s.handler(p) == ReceiveMessage(p)
    requires s.Valid() && s.total <= Framed(Payloads(messages))
    ensures s.open && |s.delivered| <= |messages|
    ensures forall i | 0 <= i < |s.delivered| ::
              |s.delivered[i]| >= 2 && Decoded(s.delivered[i][2..]) == Got(messages[i], [])
    ensures s.total == Framed(Payloads(messages)) ==> |s.delivered| == |messages|
  {
    hide MessageOk, Frames, Framed, Left, UpToRefused, Sendable, ReceiveMessage, Decoded, Encoded, Number;
    var payloads := Payloads(messages);
    forall i | 0 <= i < |messages|
      ensures 2 <= |payloads[i]| < 0x1_0000_0000 && s.handler(payloads[i]) == 0
      ensures Decoded(payloads[i][2..]) == Got(messages[i], [])
    {
      SendableSize(messages[i]);
      SendableAccepted(messages[i]);
    }
    ArrivedPart(payloads, s.total);
    FramesOfFramed(payloads);
    var k := |Frames(s.total)|;
    forall f | f in Frames(s.total) ensures s.handler(f) == 0 {
      var i :| 0 <= i < k && payloads[i] == f;
    }
    assert AllAccepted(s.handler, Frames(s.total));
  }

  lemma {:induction false} SendableSize(m: seq<Field>)
    requires MessageOk(m) && Sendable(m)
    ensures |Encoded(m)| < 0x1_0000_0000
  {
  }
}
