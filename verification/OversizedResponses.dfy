/**
 Responses between the two limits: the bridge's serial format carries envelopes of up to 2112 bytes,
 the CLI's parser takes at most 576 and rescans what is larger, byte by byte.
 */
module OversizedResponses {
  import opened Common
  import opened Framing

  lemma {:induction false} PopIsWithinLimit(eager: bool, max: nat, s: seq<byte>)
    ensures Pop(eager, max, s).0.Some? ==> |Pop(eager, max, s).0.value.envelope| <= max
    decreases |s|
  {
    StepShape(eager, max, s);
    if StepOf(eager, max, s).Skip? {
      PopIsWithinLimit(eager, max, s[1..]);
    }
  }

  /** The CLI's parser returns a frame exactly up to its limit; the bridge's returns everything up to its own. */
  lemma CliReturnsExactly(f: Frame, rest: seq<byte>)
    requires Deliverable(f.kind) && |f.envelope| <= BRIDGE_MAX
    ensures Pop(true, BRIDGE_MAX, Encoded(f) + rest) == (Some(f), rest)
    ensures Pop(false, CLI_MAX, Encoded(f) + rest).0 == Some(f) <==> |f.envelope| <= CLI_MAX
  {
    StepDelivers(true, BRIDGE_MAX, f, rest);
    if |f.envelope| <= CLI_MAX {
      StepDelivers(false, CLI_MAX, f, rest);
    } else {
      PopIsWithinLimit(false, CLI_MAX, Encoded(f) + rest);
    }
  }

  lemma {:induction false} PopSkipsNoise(eager: bool, max: nat, noise: seq<byte>, rest: seq<byte>)
    requires Harmless(max, noise) && |rest| >= HEADER
    ensures Pop(eager, max, noise + rest) == Pop(eager, max, rest)
    decreases |noise|
  {
    hide Harmless, StepOf;
    if noise == [] {
      assert noise + rest == rest;
    } else {
      HarmlessTail(max, noise);
      PopSkipsNoise(eager, max, noise[1..], rest);
      HarmlessByteIsSkipped(eager, max, noise, rest);
      assert (noise + rest)[1..] == noise[1..] + rest;
    }
  }

  /**
   Above its limit the CLI's parser rescans the envelope: a frame embedded in a response is then
   delivered as if the Core had sent it, while the bridge delivers the response itself.
   */
  lemma OversizedResponseIsRescanned(kind: byte, before: seq<byte>, inner: Frame, behind: seq<byte>, rest: seq<byte>)
    requires Deliverable(kind) && Deliverable(inner.kind) && |inner.envelope| <= CLI_MAX
    requires var n := |before + Encoded(inner) + behind|;
             CLI_MAX < n <= BRIDGE_MAX && Harmless(CLI_MAX, BigEndian(n) + before)
    ensures var f := Frame(kind, before + Encoded(inner) + behind);
            && Pop(false, CLI_MAX, Encoded(f) + rest).0 == Some(inner)
            && Pop(true, BRIDGE_MAX, Encoded(f) + rest) == (Some(f), rest)
  {
    hide Pop, StepOf, Harmless;
    var envelope := before + Encoded(inner) + behind;
    var f, noise := Frame(kind, envelope), BigEndian(|envelope|) + before;
    CliReturnsExactly(f, rest);
    OversizedIsSkipped(f, rest);
    var tail := Encoded(inner) + (behind + rest);
    InsideOversized(kind, before, Encoded(inner), behind, rest);
    PopsInner(inner, behind + rest);
    PopSkipsNoise(false, CLI_MAX, noise, tail);
  }

  lemma PopsInner(inner: Frame, rest: seq<byte>)
    requires Deliverable(inner.kind) && |inner.envelope| <= CLI_MAX
    ensures Pop(false, CLI_MAX, Encoded(inner) + rest) == (Some(inner), rest)
  {
    StepDelivers(false, CLI_MAX, inner, rest);
  }

  lemma InsideOversized(kind: byte, before: seq<byte>, inner: seq<byte>, behind: seq<byte>, rest: seq<byte>)
    requires |before + inner + behind| < 0x1_0000_0000
    ensures var envelope := before + inner + behind;
            (Encoded(Frame(kind, envelope)) + rest)[1..]
              == BigEndian(|envelope|) + before + (inner + (behind + rest))
  {
  }

  lemma OversizedIsSkipped(f: Frame, rest: seq<byte>)
    requires Deliverable(f.kind) && CLI_MAX < |f.envelope| <= BRIDGE_MAX
    ensures var s := Encoded(f) + rest;
            s != [] && Pop(false, CLI_MAX, s) == Pop(false, CLI_MAX, s[1..])
  {
    var s := Encoded(f) + rest;
    BigEndianRoundTrip(|f.envelope|);
    assert s[1..5] == BigEndian(|f.envelope|);
    assert StepOf(false, CLI_MAX, s) == Skip;
  }

  /** An oversized frame leaves no trace, and the frame behind it is read, exactly when it is harmless itself. */
  lemma OversizedIsDroppedExactly(f: Frame)
    requires Deliverable(f.kind) && CLI_MAX < |f.envelope| <= BRIDGE_MAX
    ensures (forall g: Frame | Deliverable(g.kind) && |g.envelope| <= CLI_MAX ::
               Drain(false, CLI_MAX, Encoded(f) + Encoded(g)) == Drained([g], []))
       <==> Harmless(CLI_MAX, Encoded(f))
  {
    NoiseIsHarmlessExactly(false, CLI_MAX, Encoded(f));
  }

  // ----- real responses

  /** A canonical CBOR unsigned integer (section 3 of RFC 8949), up to 32 bits. */
  function Uint(n: nat): (r: seq<byte>)
    requires n < 0x1_0000_0000
    ensures 1 <= |r| <= 5
  {
    if n < 24 then [n]
    else if n < 0x100 then [0x18, n]
    else if n < 0x1_0000 then [0x19, n / 256, n % 256]
    else [0x1A] + BigEndian(n)
  }

  /**
   The envelope of a response up to its payload: a map of version, correlation id, status and a
   payload of `length` bytes, 256 or more.
   */
  function Head(id: nat, status: byte, length: nat): seq<byte>
    requires id < 0x1_0000_0000 && 256 <= length < 0x1_0000
  {
    [0xA4, 0, 1, 1] + Uint(id) + [2, status, 3, 0x59, length / 256, length % 256]
  }

  function Envelope(id: nat, status: byte, payload: seq<byte>): seq<byte>
    requires id < 0x1_0000_0000 && 256 <= |payload| < 0x1_0000
  {
    Head(id, status, |payload|) + payload
  }

  /** Correlation ids whose bytes, with what follows, read as the header of a short frame. */
  predicate LooksLikeHeader(id: nat) {
    && id >= 0x1_0000
    && (0x100_0000 <= id <= 0x100_0002 || (id % 0x1_0000 == 0 && id / 0x1_0000 % 256 <= 1))
  }

  lemma HarmlessStep(noise: seq<byte>)
    requires |noise| >= 5
    ensures Harmless(CLI_MAX, noise)
       <==> (Deliverable(noise[0]) ==> FromBigEndian(noise[1..5]) > CLI_MAX) && Harmless(CLI_MAX, noise[1..])
  {
    hide FromBigEndian;
    assert (noise + [0, 0, 0, 0])[1..5] == noise[1..5];
    if Harmless(CLI_MAX, noise) {
      HarmlessTail(CLI_MAX, noise);
    } else if !Deliverable(noise[0]) || FromBigEndian(noise[1..5]) > CLI_MAX {
      HarmInTail(CLI_MAX, noise);
    }
  }

  /** A byte that is no frame kind, or is followed by a length of 65536 and more, can be left out. */
  predicate Passable(s: seq<byte>, i: nat) {
    i + 2 < |s| && (s[i] > 1 || s[i + 1] > 0 || s[i + 2] > 0)
  }

  lemma PassableByte(s: seq<byte>)
    requires |s| >= 5 && Passable(s, 0)
    ensures Harmless(CLI_MAX, s) <==> Harmless(CLI_MAX, s[1..])
  {
    hide Harmless;
    HarmlessStep(s);
    assert s[1..5][0] == s[1] && s[1..5][1] == s[2];
  }

  lemma {:induction false} PassablePrefix(prefix: seq<byte>, rest: seq<byte>)
    requires |rest| >= 4 && forall i :: 0 <= i < |prefix| ==> Passable(prefix + rest, i)
    ensures Harmless(CLI_MAX, prefix + rest) <==> Harmless(CLI_MAX, rest)
    decreases |prefix|
  {
    hide Harmless;
    if prefix == [] {
      assert prefix + rest == rest;
    } else {
      var s, t := prefix + rest, prefix[1..] + rest;
      assert s[1..] == t;
      PassableByte(s);
      forall i | 0 <= i < |prefix[1..]| ensures Passable(t, i) {
        assert Passable(s, i + 1);
      }
      PassablePrefix(prefix[1..], rest);
    }
  }

  lemma LengthBytes(high: byte, low: byte)
    requires high > 1
    ensures Harmless(CLI_MAX, [3, 0x59, high, low]) <==> low > 1
  {
    var t: seq<byte> := [3, 0x59, high, low];
    var s := t + [0, 0, 0, 0];
    if low <= 1 {
      assert s[4..8] == [0, 0, 0, 0] && FromBigEndian(s[3 + 1..3 + 5]) == 0;
      assert Deliverable(t[3]);
    }
  }

  lemma LongId(a: byte, b: byte, c: byte, d: byte, status: byte, high: byte, low: byte)
    requires status < 24 && high > 1
    ensures Harmless(CLI_MAX, [a, b, c, d, 2, status, 3, 0x59, high, low])
       <==> && low > 1
            && !(a <= 1 && b == 0 && c == 0 && d <= 2)
            && !(b <= 1 && c == 0 && d == 0)
  {
    hide Harmless;
    var s: seq<byte> := [a, b, c, d, 2, status, 3, 0x59, high, low];
    var t: seq<byte> := [b, c, d, 2, status, 3, 0x59, high, low];
    var middle: seq<byte> := [c, d, 2, status];
    var rest: seq<byte> := [3, 0x59, high, low];
    assert s[1..] == t && s[1..5] == [b, c, d, 2];
    HarmlessStep(s);
    assert t[1..] == middle + rest && t[1..5] == [c, d, 2, status];
    HarmlessStep(t);
    PassablePrefix(middle, rest);
    LengthBytes(high, low);
  }

  lemma IdBytes(id: nat)
    requires 0x1_0000 <= id < 0x1_0000_0000
    ensures var c := BigEndian(id);
            LooksLikeHeader(id) <==>
              || (c[0] <= 1 && c[1] == 0 && c[2] == 0 && c[3] <= 2)
              || (c[1] <= 1 && c[2] == 0 && c[3] == 0)
  {
    BigEndianRoundTrip(id);
  }

  /** What precedes the correlation id: the frame's length and the start of the map. */
  function Start(n: nat): seq<byte>
    requires n < 0x1_0000
  {
    [0, 0, n / 256, n % 256, 0xA4, 0, 1, 1]
  }

  lemma ShortIdPasses(n: nat, id: nat, status: byte, high: byte, low: byte)
    requires 512 <= n < 0x1_0000 && 0 < id < 0x1_0000 && high > 1
    ensures Harmless(CLI_MAX, Start(n) + Uint(id) + [2, status, 3, 0x59, high, low]) <==> low > 1
  {
    hide Harmless;
    var prefix, rest := Start(n) + Uint(id) + [2, status], [3, 0x59, high, low];
    assert Start(n) + Uint(id) + [2, status, 3, 0x59, high, low] == prefix + rest;
    PassablePrefix(prefix, rest);
    LengthBytes(high, low);
  }

  lemma LongIdPasses(n: nat, id: nat, status: byte, high: byte, low: byte)
    requires 512 <= n < 0x1_0000 && 0x1_0000 <= id < 0x1_0000_0000 && status < 24 && high > 1
    ensures Harmless(CLI_MAX, Start(n) + Uint(id) + [2, status, 3, 0x59, high, low])
       <==> low > 1 && !LooksLikeHeader(id)
  {
    hide Harmless;
    var c := BigEndian(id);
    var prefix, rest := Start(n) + [0x1A], [c[0], c[1], c[2], c[3], 2, status, 3, 0x59, high, low];
    assert Start(n) + Uint(id) + [2, status, 3, 0x59, high, low] == prefix + rest;
    PassablePrefix(prefix, rest);
    LongId(c[0], c[1], c[2], c[3], status, high, low);
    IdBytes(id);
  }

  /**
   For which responses the CLI's parser passes over the head and reads the payload as serial frames:
   all whose payload length does not end in a byte 0 or 1, except under a few correlation ids.
   */
  lemma HeadIsHarmlessExactly(id: nat, status: byte, length: nat)
    requires 0 < id < 0x1_0000_0000 && status < 24 && 256 <= length < 0x1_0000
    requires CLI_MAX < |Head(id, status, length)| + length <= BRIDGE_MAX
    ensures Harmless(CLI_MAX, BigEndian(|Head(id, status, length)| + length) + Head(id, status, length))
       <==> length % 256 > 1 && !LooksLikeHeader(id)
  {
    hide Harmless, Uint;
    var n, high, low := |Head(id, status, length)| + length, length / 256, length % 256;
    assert BigEndian(n) == [0, 0, n / 256, n % 256];
    assert BigEndian(n) + Head(id, status, length) == Start(n) + Uint(id) + [2, status, 3, 0x59, high, low];
    if id < 0x1_0000 {
      ShortIdPasses(n, id, status, high, low);
    } else {
      LongIdPasses(n, id, status, high, low);
    }
  }

  /** Such a response whose payload begins with a serial frame: the CLI delivers that frame instead. */
  lemma PayloadIsDelivered(id: nat, status: byte, inner: Frame, behind: seq<byte>, rest: seq<byte>)
    requires 0 < id < 0x1_0000_0000 && status < 24 && !LooksLikeHeader(id)
    requires Deliverable(inner.kind) && |inner.envelope| <= CLI_MAX
    requires var payload := Encoded(inner) + behind;
             && 256 <= |payload| < 0x1_0000 && |payload| % 256 > 1
             && CLI_MAX < |Envelope(id, status, payload)| <= BRIDGE_MAX
    ensures var f := Frame(RESPONSE, Envelope(id, status, Encoded(inner) + behind));
            && Pop(false, CLI_MAX, Encoded(f) + rest).0 == Some(inner)
            && Pop(true, BRIDGE_MAX, Encoded(f) + rest) == (Some(f), rest)
  {
    hide Pop, Harmless, Head;
    var payload := Encoded(inner) + behind;
    var head := Head(id, status, |payload|);
    HeadIsHarmlessExactly(id, status, |payload|);
    assert head + payload == head + Encoded(inner) + behind;
    OversizedResponseIsRescanned(RESPONSE, head, inner, behind, rest);
  }
}
