/**
 The delimiter-driven link on top of COBS: accumulate until a zero byte, decode, and what a request
 and its retries look like to a receiver. A receiver is described by what it decoded so far and by the
 bytes of the frame still open, so that any split of the stream can be talked about.
 */
module CobsLink {
  import opened Common
  import opened Cobs

  datatype Received = Received(frames: seq<Decoded>, pending: seq<byte>)

  /** What accumulating `stream` after the open bytes `pending` decodes, frame by frame. */
  function Receive(pending: seq<byte>, stream: seq<byte>): Received
    decreases |stream|
  {
    if stream == [] then Received([], pending)
    else if stream[0] != 0 then Receive(pending + [stream[0]], stream[1..])
    else
      var tail := Receive([], stream[1..]);
      Received([Decode(pending + [0])] + tail.frames, tail.pending)
  }

  function Then(first: Received, second: Received): Received {
    Received(first.frames + second.frames, second.pending)
  }

  function EncodeAll(payloads: seq<seq<byte>>): seq<byte> {
    if payloads == [] then [] else Encode(payloads[0]) + EncodeAll(payloads[1..])
  }

  function Delivered(payloads: seq<seq<byte>>): (r: seq<Decoded>)
    ensures |r| == |payloads| && forall i :: 0 <= i < |r| ==> r[i] == Ok(payloads[i])
  {
    seq(|payloads|, i requires 0 <= i < |payloads| => Ok(payloads[i]))
  }

  /** Reading a stream in two pieces is reading it whole. */
  lemma {:induction false} ReceiveSplit(pending: seq<byte>, a: seq<byte>, b: seq<byte>)
    ensures Receive(pending, a + b) == Then(Receive(pending, a), Receive(Receive(pending, a).pending, b))
    decreases |a|
  {
    if a == [] {
      assert a + b == b;
      assert [] + Receive(pending, b).frames == Receive(pending, b).frames;
    } else {
      assert (a + b)[1..] == a[1..] + b && (a + b)[0] == a[0];
      if a[0] != 0 {
        ReceiveSplit(pending + [a[0]], a[1..], b);
      } else {
        ReceiveSplit([], a[1..], b);
        var first, second := Receive([], a[1..]), Receive(Receive([], a[1..]).pending, b);
        var head := [Decode(pending + [0])];
        assert head + (first.frames + second.frames) == head + first.frames + second.frames;
      }
    }
  }

  /** Bytes without a delimiter only accumulate; the delimiter decodes them. */
  lemma {:induction false} ReceiveOneFrame(pending: seq<byte>, body: seq<byte>)
    requires NonZero(body)
    ensures Receive(pending, body) == Received([], pending + body)
    ensures Receive(pending, body + [0]) == Received([Decode(pending + body + [0])], [])
    decreases |body|
  {
    if body == [] {
      assert pending + [] == pending && body + [0] == [0];
      assert [0][1..] == [];
    } else {
      assert pending + [body[0]] + body[1..] == pending + body;
      assert (body + [0])[1..] == body[1..] + [0];
      ReceiveOneFrame(pending + [body[0]], body[1..]);
    }
  }

  lemma ReceiveEncoded(pending: seq<byte>, d: seq<byte>)
    ensures Receive(pending, Encode(d)) == Received([Decode(pending + Encode(d))], [])
    ensures pending == [] ==> Receive(pending, Encode(d)) == Received([Ok(d)], [])
  {
    EncodedHasNoZero(d);
    ReceiveOneFrame(pending, Groups(d));
    assert pending + Groups(d) + [0] == pending + Encode(d);
    RoundTrip(d);
    assert [] + Encode(d) == Encode(d);
  }

  lemma {:induction false} ReceiveAll(payloads: seq<seq<byte>>)
    ensures Receive([], EncodeAll(payloads)) == Received(Delivered(payloads), [])
  {
    if payloads != [] {
      ReceiveAll(payloads[1..]);
      ReceiveEncoded([], payloads[0]);
      ReceiveSplit([], Encode(payloads[0]), EncodeAll(payloads[1..]));
      assert [Ok(payloads[0])] + Delivered(payloads[1..]) == Delivered(payloads);
    }
  }

  /**
   Self-synchronisation. Whatever is open in the accumulator and whatever garbage arrives, one
   delimiter later every frame is decoded to exactly its payload and nothing is left over.
   */
  lemma SelfSynchronising(pending: seq<byte>, garbage: seq<byte>, payloads: seq<seq<byte>>)
    ensures Receive(pending, garbage + [0] + EncodeAll(payloads))
         == Received(Receive(pending, garbage + [0]).frames + Delivered(payloads), [])
  {
    ReceiveSplit(pending, garbage + [0], EncodeAll(payloads));
    ReceiveSplit(pending, garbage, [0]);
    assert [0][1..] == [];
    ReceiveAll(payloads);
  }

  // ----- request, reply, retry

  /** Everything one request puts on the wire in `attempts` attempts. */
  function Wire(frame: seq<byte>, attempts: nat): seq<byte> {
    if attempts == 0 then []
    else if attempts == 1 then frame
    else Wire(frame, attempts - 1) + [0] + frame
  }

  /** The replies of a peer that decodes the wire: after the first attempt, an empty frame and the payload per retry. */
  function PeerSees(first: Decoded, payload: seq<byte>, attempts: nat): seq<Decoded> {
    if attempts == 0 then []
    else if attempts == 1 then [first]
    else PeerSees(first, payload, attempts - 1) + [Ok([]), Ok(payload)]
  }

  /**
   Why a retry starts with a bare delimiter: whatever fragment the peer still holds, every attempt
   after the first is decoded as one empty frame and then exactly the payload.
   */
  lemma {:induction false} RetriesAreDelivered(fragment: seq<byte>, payload: seq<byte>, attempts: nat)
    requires attempts > 0
    ensures Receive(fragment, Wire(Encode(payload), attempts))
         == Received(PeerSees(Decode(fragment + Encode(payload)), payload, attempts), [])
  {
    var frame := Encode(payload);
    if attempts == 1 {
      ReceiveEncoded(fragment, payload);
    } else {
      RetriesAreDelivered(fragment, payload, attempts - 1);
      RetryAfterLoss([], payload);
      OneMoreAttempt(fragment, frame, payload, attempts, Decode(fragment + frame));
    }
  }

  lemma OneMoreAttempt(fragment: seq<byte>, frame: seq<byte>, payload: seq<byte>, attempts: nat, first: Decoded)
    requires attempts > 1
    requires Receive(fragment, Wire(frame, attempts - 1)) == Received(PeerSees(first, payload, attempts - 1), [])
    requires Receive([], [0] + frame) == Received([Ok([]), Ok(payload)], [])
    ensures Receive(fragment, Wire(frame, attempts)) == Received(PeerSees(first, payload, attempts), [])
  {
    var before := Wire(frame, attempts - 1);
    assert before + [0] + frame == before + ([0] + frame);
    ReceiveSplit(fragment, before, [0] + frame);
  }

  /** The same when the first attempt was cut anywhere on its way: the retry still arrives intact. */
  lemma RetryAfterLoss(fragment: seq<byte>, payload: seq<byte>)
    ensures Receive(fragment, [0] + Encode(payload)) == Received([Decode(fragment + [0]), Ok(payload)], [])
    ensures fragment == [] ==> Decode(fragment + [0]) == Ok([])
  {
    ReceiveSplit(fragment, [0], Encode(payload));
    assert [0][1..] == [];
    ReceiveEncoded([], payload);
  }

  /** One more byte: it joins the open frame, or closes it. */
  lemma ReceiveByte(seen: seq<byte>, chunk: byte)
    ensures var before := Receive([], seen);
            Receive([], seen + [chunk]) ==
              if chunk != 0 then Received(before.frames, before.pending + [chunk])
              else Received(before.frames + [Decode(before.pending + [0])], [])
  {
    var before := Receive([], seen);
    ReceiveSplit([], seen, [chunk]);
    assert [chunk][1..] == [] && before.frames + [] == before.frames;
  }
}
