/**
 The serial stream framing: kind byte, big-endian length, envelope. Two parsers pull frames out of a
 growing buffer and resynchronise byte by byte: the bridge's, which drops leftover shell bytes at
 once, and the CLI's, which first waits for a whole header.
 */
module Framing {
  import opened Common

  const RESPONSE: byte := 0
  const EVENT: byte := 1
  const HEADER: nat := 5
  /** Limits of the two parsers. */
  const BRIDGE_MAX: nat := 2112
  const CLI_MAX: nat := 576

  datatype Frame = Frame(kind: byte, envelope: seq<byte>)

  predicate Deliverable(kind: byte) {
    kind == RESPONSE || kind == EVENT
  }

  function BigEndian(n: nat): (r: seq<byte>)
    requires n < 0x1_0000_0000
    ensures |r| == 4
  {
    [n / 0x100_0000, n / 0x1_0000 % 256, n / 256 % 256, n % 256]
  }

  function FromBigEndian(s: seq<byte>): nat
    requires |s| == 4
  {
    var (a: int, b: int, c: int, d: int) := (s[0], s[1], s[2], s[3]);
    a * 0x100_0000 + b * 0x1_0000 + c * 256 + d
  }

  lemma BigEndianRoundTrip(n: nat)
    requires n < 0x1_0000_0000
    ensures FromBigEndian(BigEndian(n)) == n
  {
    var low, middle := n / 256, n / 0x1_0000;
    assert low == 256 * middle + low % 256;
    assert middle == 256 * (n / 0x100_0000) + middle % 256;
  }

  function Encoded(f: Frame): seq<byte>
    requires |f.envelope| < 0x1_0000_0000
  {
    [f.kind] + BigEndian(|f.envelope|) + f.envelope
  }

  /** The bridge's writer refuses an envelope over its limit. */
  function EncodeUsbFrame(kind: byte, envelope: seq<byte>): Option<seq<byte>> {
    if |envelope| > BRIDGE_MAX then None else Some(Encoded(Frame(kind, envelope)))
  }

  // ----- one decision of a parser

  datatype Step = Wait | Skip | Deliver(frame: Frame)

  /** What the first five or more bytes say, for a plausible kind byte. */
  function Judge(max: nat, s: seq<byte>): Step
    requires |s| >= HEADER
  {
    var length := FromBigEndian(s[1..5]);
    if length > max then Skip
    else if |s| < HEADER + length then Wait
    else Deliver(Frame(s[0], s[HEADER..HEADER + length]))
  }

  function BridgeStep(max: nat, s: seq<byte>): Step {
    if s == [] then Wait
    else if !Deliverable(s[0]) then Skip
    else if |s| < HEADER then Wait
    else Judge(max, s)
  }

  function CliStep(max: nat, s: seq<byte>): Step {
    if |s| < HEADER then Wait
    else if !Deliverable(s[0]) then Skip
    else Judge(max, s)
  }

  function StepOf(eager: bool, max: nat, s: seq<byte>): Step {
    if eager then BridgeStep(max, s) else CliStep(max, s)
  }

  function Consumed(step: Step): nat {
    match step
    case Wait => 0
    case Skip => 1
    case Deliver(f) => HEADER + |f.envelope|
  }

  lemma StepShape(eager: bool, max: nat, s: seq<byte>)
    ensures Consumed(StepOf(eager, max, s)) <= |s|
    ensures StepOf(eager, max, s).Wait? ==> |s| < HEADER + max
  {
  }

  /** One call of the parser: the frame it returns, if any, and the buffer it leaves. */
  function Pop(eager: bool, max: nat, s: seq<byte>): (r: (Option<Frame>, seq<byte>))
    ensures r.0.Some? ==> |r.1| < |s|
    decreases |s|
  {
    StepShape(eager, max, s);
    match StepOf(eager, max, s)
    case Wait => (None, s)
    case Skip => Pop(eager, max, s[1..])
    case Deliver(f) => (Some(f), s[HEADER + |f.envelope|..])
  }

  datatype Drained = Drained(frames: seq<Frame>, residue: seq<byte>)

  /** Calling the parser until it returns nothing. */
  function Drain(eager: bool, max: nat, s: seq<byte>): Drained
    decreases |s|
  {
    var r := Pop(eager, max, s);
    if r.0.None? then Drained([], r.1)
    else
      var rest := Drain(eager, max, r.1);
      Drained([r.0.value] + rest.frames, rest.residue)
  }

  /** Draining after each piece of a stream. */
  function DrainPieces(eager: bool, max: nat, residue: seq<byte>, pieces: seq<seq<byte>>): Drained
    decreases |pieces|
  {
    if pieces == [] then Drained([], residue)
    else
      var first := Drain(eager, max, residue + pieces[0]);
      var rest := DrainPieces(eager, max, first.residue, pieces[1..]);
      Drained(first.frames + rest.frames, rest.residue)
  }

  // ----- the parser loops, on the caller's buffer

  class RxBuffer {
    var data: seq<byte>

    constructor ()
      ensures data == []
    {
      data := [];
    }

    method Extend(chunk: seq<byte>)
      modifies this
      ensures data == old(data) + chunk
    {
      data := data + chunk;
    }

    /** `pop_usb_frame` */
    method PopUsbFrame() returns (r: Option<Frame>)
      modifies this
      ensures (r, data) == Pop(true, BRIDGE_MAX, old(data))
    {
      while |data| >= 1
        invariant Pop(true, BRIDGE_MAX, data) == Pop(true, BRIDGE_MAX, old(data))
        decreases |data|
      {
        var kind := data[0];
        if kind != RESPONSE && kind != EVENT {
          data := data[1..];
          continue;
        }
        if |data| < HEADER {
          return None;
        }
        var length := FromBigEndian(data[1..5]);
        if length > BRIDGE_MAX {
          data := data[1..];
          continue;
        }
        if |data| < HEADER + length {
          return None;
        }
        var envelope := data[HEADER..HEADER + length];
        data := data[HEADER + length..];
        return Some(Frame(kind, envelope));
      }
      r := None;
    }

    /** `SerialProtocolTransport._pop_frame` */
    method PopFrame() returns (r: Option<Frame>)
      modifies this
      ensures (r, data) == Pop(false, CLI_MAX, old(data))
    {
      while |data| >= 5
        invariant Pop(false, CLI_MAX, data) == Pop(false, CLI_MAX, old(data))
        decreases |data|
      {
        var kind := data[0];
        if kind != RESPONSE && kind != EVENT {
          data := data[1..];
          continue;
        }
        var length := FromBigEndian(data[1..5]);
        if length > CLI_MAX {
          data := data[1..];
          continue;
        }
        if |data| < 5 + length {
          return None;
        }
        var envelope := data[5..5 + length];
        data := data[5 + length..];
        return Some(Frame(kind, envelope));
      }
      r := None;
    }

    /** The bridge's receive loop: extend the buffer, then pop until nothing is returned. */
    method Feed(chunk: seq<byte>) returns (frames: seq<Frame>)
      modifies this
      ensures Drained(frames, data) == Drain(true, BRIDGE_MAX, old(data) + chunk)
    {
      Extend(chunk);
      frames := [];
      var parsed := PopUsbFrame();
      ghost var whole := Drain(true, BRIDGE_MAX, old(data) + chunk);
      while parsed.Some?
        invariant parsed.None? ==> whole == Drained(frames, data)
        invariant parsed.Some? ==>
                    var rest := Drain(true, BRIDGE_MAX, data);
                    whole == Drained(frames + [parsed.value] + rest.frames, rest.residue)
        decreases parsed.Some?, |data|
      {
        frames := frames + [parsed.value];
        ghost var before := data;
        parsed := PopUsbFrame();
        if parsed.Some? {
          ghost var rest := Drain(true, BRIDGE_MAX, data);
          assert frames + ([parsed.value] + rest.frames) == frames + [parsed.value] + rest.frames;
        }
      }
    }
  }

  // ----- independence from how the stream is cut

  /** A decision already taken is not changed by later bytes. */
  lemma StepIsStable(eager: bool, max: nat, a: seq<byte>, b: seq<byte>)
    ensures !StepOf(eager, max, a).Wait? ==> StepOf(eager, max, a + b) == StepOf(eager, max, a)
  {
    if |a| >= HEADER {
      assert (a + b)[1..5] == a[1..5] && (a + b)[0] == a[0];
      var length := FromBigEndian(a[1..5]);
      if |a| >= HEADER + length {
        assert (a + b)[HEADER..HEADER + length] == a[HEADER..HEADER + length];
      }
    } else if a != [] {
      assert (a + b)[0] == a[0];
    }
  }

  lemma {:induction false} DrainAppend(eager: bool, max: nat, a: seq<byte>, b: seq<byte>)
    ensures var first := Drain(eager, max, a);
            var second := Drain(eager, max, first.residue + b);
            Drain(eager, max, a + b) == Drained(first.frames + second.frames, second.residue)
    decreases |a|
  {
    hide StepOf;
    StepIsStable(eager, max, a, b);
    StepShape(eager, max, a);
    var step := StepOf(eager, max, a);
    var n := Consumed(step);
    assert (a + b)[n..] == a[n..] + b;
    match step
    case Wait =>
      assert [] + Drain(eager, max, a + b).frames == Drain(eager, max, a + b).frames;
    case Skip =>
      DrainAppend(eager, max, a[1..], b);
      DrainSkips(eager, max, a);
      DrainSkips(eager, max, a + b);
    case Deliver(f) =>
      DrainAppend(eager, max, a[n..], b);
      var first := Drain(eager, max, a[n..]);
      var second := Drain(eager, max, first.residue + b);
      assert [f] + (first.frames + second.frames) == [f] + first.frames + second.frames;
  }

  lemma DrainSkips(eager: bool, max: nat, s: seq<byte>)
    requires StepOf(eager, max, s).Skip?
    ensures s != [] && Drain(eager, max, s) == Drain(eager, max, s[1..])
  {
  }

  lemma {:induction false} ResidueIsPending(eager: bool, max: nat, s: seq<byte>)
    ensures StepOf(eager, max, Drain(eager, max, s).residue).Wait?
    decreases |s|
  {
    StepShape(eager, max, s);
    match StepOf(eager, max, s)
    case Wait =>
    case Skip => ResidueIsPending(eager, max, s[1..]);
    case Deliver(f) => ResidueIsPending(eager, max, s[HEADER + |f.envelope|..]);
  }

  lemma ResidueIsShort(eager: bool, max: nat, s: seq<byte>)
    ensures |Drain(eager, max, s).residue| < HEADER + max
  {
    ResidueIsPending(eager, max, s);
    StepShape(eager, max, Drain(eager, max, s).residue);
  }

  /** Any way of cutting a stream delivers the same frames and leaves the same residue. */
  lemma {:induction false} ReassemblyIgnoresChunks(eager: bool, max: nat, residue: seq<byte>, pieces: seq<seq<byte>>)
    requires StepOf(eager, max, residue).Wait?
    ensures DrainPieces(eager, max, residue, pieces) == Drain(eager, max, residue + Flatten(pieces))
    decreases |pieces|
  {
    if pieces == [] {
      assert residue + [] == residue;
    } else {
      var head, tail := residue + pieces[0], Flatten(pieces[1..]);
      var first := Drain(eager, max, head);
      ResidueIsPending(eager, max, head);
      ReassemblyIgnoresChunks(eager, max, first.residue, pieces[1..]);
      DrainAppend(eager, max, head, tail);
      assert head + tail == residue + (pieces[0] + tail);
    }
  }

  // ----- recovery of what was sent

  /** One frame on the wire after bytes that cannot start a frame. */
  datatype Sent = Sent(noise: seq<byte>, frame: Frame)

  /**
   Bytes that lose no frame behind them: whatever follows, no byte of theirs can be taken for the
   start of a frame within the limit. Behind the last byte a header reads at least zeros.
   */
  predicate Harmless(max: nat, noise: seq<byte>) {
    var s := noise + [0, 0, 0, 0];
    forall i :: 0 <= i < |noise| && Deliverable(noise[i]) ==> FromBigEndian(s[i + 1..i + 5]) > max
  }

  /** Shell output, which contains neither 0 nor 1, is harmless for every limit. */
  lemma ShellBytesAreHarmless(max: nat, noise: seq<byte>)
    requires forall i :: 0 <= i < |noise| ==> !Deliverable(noise[i])
    ensures Harmless(max, noise)
  {
  }

  predicate Sendable(max: nat, x: Sent) {
    Harmless(max, x.noise) && Deliverable(x.frame.kind) && |x.frame.envelope| <= max
  }

  predicate AllSendable(max: nat, xs: seq<Sent>) {
    forall i :: 0 <= i < |xs| ==> Sendable(max, xs[i])
  }

  function OnWire(max: nat, xs: seq<Sent>): seq<byte>
    requires max < 0x1_0000_0000 && AllSendable(max, xs)
  {
    if xs == [] then [] else xs[0].noise + Encoded(xs[0].frame) + OnWire(max, xs[1..])
  }

  function Frames(xs: seq<Sent>): (r: seq<Frame>)
    ensures |r| == |xs| && forall i :: 0 <= i < |xs| ==> r[i] == xs[i].frame
  {
    seq(|xs|, i requires 0 <= i < |xs| => xs[i].frame)
  }

  lemma StepDelivers(eager: bool, max: nat, f: Frame, rest: seq<byte>)
    requires Deliverable(f.kind) && |f.envelope| <= max < 0x1_0000_0000
    ensures StepOf(eager, max, Encoded(f) + rest) == Deliver(f)
    ensures (Encoded(f) + rest)[HEADER + |f.envelope|..] == rest
  {
    var s := Encoded(f) + rest;
    BigEndianRoundTrip(|f.envelope|);
    assert s[1..5] == BigEndian(|f.envelope|);
    assert s[HEADER..HEADER + |f.envelope|] == f.envelope;
  }

  /** A frame the bridge's writer accepts comes back from the next pop, and what follows it stays in the buffer. */
  lemma WrittenFrameIsPopped(kind: byte, envelope: seq<byte>, rest: seq<byte>)
    requires Deliverable(kind)
    ensures EncodeUsbFrame(kind, envelope).None? <==> |envelope| > BRIDGE_MAX
    ensures EncodeUsbFrame(kind, envelope).Some? ==>
              Pop(true, BRIDGE_MAX, EncodeUsbFrame(kind, envelope).value + rest) == (Some(Frame(kind, envelope)), rest)
  {
    if |envelope| <= BRIDGE_MAX {
      StepDelivers(true, BRIDGE_MAX, Frame(kind, envelope), rest);
    }
  }

  lemma FromBigEndianMonotone(a: seq<byte>, b: seq<byte>)
    requires |a| == |b| == 4 && forall i :: 0 <= i < 4 ==> a[i] <= b[i]
    ensures FromBigEndian(a) <= FromBigEndian(b)
  {
  }

  /** Harmless bytes stay harmless without their first one. */
  lemma HarmlessTail(max: nat, noise: seq<byte>)
    requires noise != [] && Harmless(max, noise)
    ensures Harmless(max, noise[1..])
  {
    var s, t := noise + [0, 0, 0, 0], noise[1..] + [0, 0, 0, 0];
    assert t == s[1..];
    forall i | 0 <= i < |noise| - 1 && Deliverable(noise[1..][i])
      ensures FromBigEndian(t[i + 1..i + 5]) > max
    {
      assert noise[1..][i] == noise[i + 1] && t[i + 1..i + 5] == s[i + 2..i + 6];
    }
  }

  lemma HarmlessByteIsSkipped(eager: bool, max: nat, noise: seq<byte>, rest: seq<byte>)
    requires noise != [] && Harmless(max, noise) && |rest| >= HEADER
    ensures StepOf(eager, max, noise + rest) == Skip
  {
    var s, t := noise + rest, noise + [0, 0, 0, 0];
    assert s[0] == noise[0];
    if Deliverable(noise[0]) {
      assert forall i :: 0 <= i < 4 ==> t[1..5][i] <= s[1..5][i];
      FromBigEndianMonotone(t[1..5], s[1..5]);
    }
  }

  lemma {:induction false} NoiseIsSkipped(eager: bool, max: nat, noise: seq<byte>, rest: seq<byte>)
    requires Harmless(max, noise) && |rest| >= HEADER
    ensures Drain(eager, max, noise + rest) == Drain(eager, max, rest)
    decreases |noise|
  {
    hide *;
    if noise == [] {
      assert noise + rest == rest;
    } else {
      HarmlessTail(max, noise);
      NoiseIsSkipped(eager, max, noise[1..], rest);
      HarmlessByteIsSkipped(eager, max, noise, rest);
      assert (noise + rest)[1..] == noise[1..] + rest;
      DrainSkips(eager, max, noise + rest);
    }
  }

  /** Every frame comes out, in order and unchanged, whatever shell output lies between them. */
  lemma {:induction false} FramesAreRecovered(eager: bool, max: nat, xs: seq<Sent>)
    requires max < 0x1_0000_0000 && AllSendable(max, xs)
    ensures Drain(eager, max, OnWire(max, xs)) == Drained(Frames(xs), [])
  {
    if xs != [] {
      var f, rest := xs[0].frame, OnWire(max, xs[1..]);
      FramesAreRecovered(eager, max, xs[1..]);
      assert xs[0].noise + Encoded(f) + rest == xs[0].noise + (Encoded(f) + rest);
      NoiseIsSkipped(eager, max, xs[0].noise, Encoded(f) + rest);
      StepDelivers(eager, max, f, rest);
      assert [f] + Frames(xs[1..]) == Frames(xs);
    }
  }

  /** The same through any chunking, as it arrives on the port. */
  lemma StreamDeliversWhatWasSent(eager: bool, max: nat, xs: seq<Sent>, pieces: seq<seq<byte>>)
    requires max < 0x1_0000_0000 && AllSendable(max, xs)
    requires Flatten(pieces) == OnWire(max, xs)
    ensures DrainPieces(eager, max, [], pieces) == Drained(Frames(xs), [])
  {
    ReassemblyIgnoresChunks(eager, max, [], pieces);
    assert [] + Flatten(pieces) == Flatten(pieces);
    FramesAreRecovered(eager, max, xs);
  }

  // ----- which noise is harmless, exactly

  /** The frame behind the noise comes out alone and nothing is left over. */
  ghost predicate LosesNothing(eager: bool, max: nat, noise: seq<byte>)
    requires max < 0x1_0000_0000
  {
    forall f: Frame | Deliverable(f.kind) && |f.envelope| <= max ::
      Drain(eager, max, noise + Encoded(f)) == Drained([f], [])
  }

  lemma DrainUnfold(eager: bool, max: nat, s: seq<byte>)
    ensures Consumed(StepOf(eager, max, s)) <= |s|
    ensures match StepOf(eager, max, s)
            case Wait => Drain(eager, max, s) == Drained([], s)
            case Skip => s != [] && Drain(eager, max, s) == Drain(eager, max, s[1..])
            case Deliver(f) =>
              var rest := Drain(eager, max, s[HEADER + |f.envelope|..]);
              Drain(eager, max, s) == Drained([f] + rest.frames, rest.residue)
  {
    StepShape(eager, max, s);
  }

  /** A stream that ends in a possible frame start cannot drain to nothing at all. */
  lemma {:induction false} EndIsNotDropped(eager: bool, max: nat, s: seq<byte>)
    requires s != [] && Deliverable(s[|s| - 1])
    ensures Drain(eager, max, s) != Drained([], [])
    decreases |s|
  {
    DrainUnfold(eager, max, s);
    if StepOf(eager, max, s).Skip? {
      assert |s| > 1;
      EndIsNotDropped(eager, max, s[1..]);
    }
  }

  const SMALLEST: Frame := Frame(RESPONSE, [])

  /** Noise whose first byte can start a frame within the limit loses the smallest frame behind it. */
  lemma FirstByteHarms(eager: bool, max: nat, noise: seq<byte>)
    requires noise != [] && Deliverable(noise[0])
    requires FromBigEndian((noise + [0, 0, 0, 0])[1..5]) <= max
    ensures Drain(eager, max, noise + Encoded(SMALLEST)) != Drained([SMALLEST], [])
  {
    var s := noise + Encoded(SMALLEST);
    SmallestIsZeros();
    assert s[1..5] == (noise + [0, 0, 0, 0])[1..5];
    DrainUnfold(eager, max, s);
    var step := StepOf(eager, max, s);
    if step.Deliver? {
      var rest := s[HEADER + |step.frame.envelope|..];
      assert Drain(eager, max, s).frames[0] == step.frame;
      if rest == [] {
        assert |step.frame.envelope| == |noise| > 0;
      } else {
        assert rest[|rest| - 1] == s[|s| - 1];
        EndIsNotDropped(eager, max, rest);
      }
    }
  }

  lemma SmallestIsZeros()
    ensures Encoded(SMALLEST) == [0, 0, 0, 0, 0]
  {
  }

  lemma {:induction false} HarmfulNoiseLoses(eager: bool, max: nat, noise: seq<byte>)
    requires !Harmless(max, noise)
    ensures Drain(eager, max, noise + Encoded(SMALLEST)) != Drained([SMALLEST], [])
    decreases |noise|
  {
    SmallestIsZeros();
    var s, t := noise + Encoded(SMALLEST), noise + [0, 0, 0, 0];
    if Deliverable(noise[0]) && FromBigEndian(t[1..5]) <= max {
      FirstByteHarms(eager, max, noise);
    } else {
      assert s[0] == noise[0] && s[1..5] == t[1..5];
      DrainUnfold(eager, max, s);
      HarmInTail(max, noise);
      assert s[1..] == noise[1..] + Encoded(SMALLEST);
      HarmfulNoiseLoses(eager, max, noise[1..]);
    }
  }

  lemma HarmInTail(max: nat, noise: seq<byte>)
    requires noise != [] && !Harmless(max, noise)
    requires !Deliverable(noise[0]) || FromBigEndian((noise + [0, 0, 0, 0])[1..5]) > max
    ensures !Harmless(max, noise[1..])
  {
    var s, t := noise + [0, 0, 0, 0], noise[1..] + [0, 0, 0, 0];
    var i :| 0 <= i < |noise| && Deliverable(noise[i]) && FromBigEndian(s[i + 1..i + 5]) <= max;
    assert noise[1..][i - 1] == noise[i] && t[i..i + 4] == s[i + 1..i + 5];
  }

  /** The exact condition: bytes before a frame lose no frame if and only if they are harmless. */
  lemma NoiseIsHarmlessExactly(eager: bool, max: nat, noise: seq<byte>)
    requires max < 0x1_0000_0000
    ensures LosesNothing(eager, max, noise) <==> Harmless(max, noise)
  {
    if Harmless(max, noise) {
      forall f: Frame | Deliverable(f.kind) && |f.envelope| <= max
        ensures Drain(eager, max, noise + Encoded(f)) == Drained([f], [])
      {
        NoiseIsSkipped(eager, max, noise, Encoded(f));
        StepDelivers(eager, max, f, []);
        assert Encoded(f) + [] == Encoded(f);
        DrainUnfold(eager, max, Encoded(f));
        DrainUnfold(eager, max, []);
      }
    } else {
      HarmfulNoiseLoses(eager, max, noise);
    }
  }

  /** A stray zero is not harmless: here it makes an empty frame out of the start of a real one. */
  lemma StrayZeroSwallowsFrame()
    ensures Drain(true, BRIDGE_MAX, [0] + Encoded(Frame(RESPONSE, [7])))
         == Drained([Frame(RESPONSE, [])], [1, 7])
    ensures !Harmless(BRIDGE_MAX, [0]) && Harmless(BRIDGE_MAX, [0, 9, 9, 9, 9])
  {
    var s: seq<byte> := [0, 0, 0, 0, 0, 1, 7];
    assert [0] + Encoded(Frame(RESPONSE, [7])) == s;
    assert s[1..5] == [0, 0, 0, 0] && s[5..5] == [] && s[5..] == [1, 7];
    assert BridgeStep(BRIDGE_MAX, s) == Deliver(Frame(RESPONSE, []));
    assert BridgeStep(BRIDGE_MAX, s[5..]) == Wait;
    var one: seq<byte> := [0];
    assert (one + [0, 0, 0, 0])[1..5] == [0, 0, 0, 0];
    var nines: seq<byte> := [0, 9, 9, 9, 9];
    assert (nines + [0, 0, 0, 0])[1..5] == [9, 9, 9, 9];
  }

  // ----- the two parsers agree

  /** The lazy parser reads the eager one's frames; the eager residue is what remains once it stops waiting. */
  lemma {:induction false} ParsersAgree(max: nat, s: seq<byte>)
    ensures Drain(false, max, s).frames == Drain(true, max, s).frames
    ensures Drain(true, max, Drain(false, max, s).residue) == Drained([], Drain(true, max, s).residue)
    decreases |s|
  {
    StepShape(false, max, s);
    var step := CliStep(max, s);
    match step
    case Wait => EagerOnPending(max, s);
    case Skip =>
      ParsersAgree(max, s[1..]);
    case Deliver(f) =>
      ParsersAgree(max, s[HEADER + |f.envelope|..]);
  }

  lemma {:induction false} EagerOnPending(max: nat, s: seq<byte>)
    requires CliStep(max, s).Wait?
    ensures Drain(true, max, s).frames == []
    decreases |s|
  {
    if BridgeStep(max, s).Skip? {
      DrainSkips(true, max, s);
      EagerOnPending(max, s[1..]);
    }
  }
}
