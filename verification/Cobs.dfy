/**
 Consistent Overhead Byte Stuffing as the USB scripts implement it.

 `Groups` is the reference definition: cut the payload into maximal runs of non-zero bytes, at most
 254 long, and put the length code in front of each. The two methods are the loops of the scripts.
 */
module Cobs {
  import opened Common

  datatype DecodeError = Corrupted | Truncated

  type Decoded = Result<seq<byte>, DecodeError>

  predicate NonZero(s: seq<byte>) {
    forall i :: 0 <= i < |s| ==> s[i] != 0
  }

  /** Length of the leading run of non-zero bytes, never more than `cap`. */
  function Run(d: seq<byte>, cap: nat): (r: nat)
    ensures r <= |d| && r <= cap && NonZero(d[..r])
    ensures r < cap && r < |d| ==> d[r] == 0
  {
    if cap == 0 || d == [] || d[0] == 0 then 0 else 1 + Run(d[1..], cap - 1)
  }

  /** The encoded frame without its delimiter. */
  function Groups(d: seq<byte>): seq<byte>
    decreases |d|
  {
    var k := Run(d, 254);
    if k == 254 then [255] + d[..254] + Groups(d[254..])
    else if k == |d| then [k + 1] + d
    else [k + 1] + d[..k] + Groups(d[k + 1..])
  }

  function Encode(d: seq<byte>): seq<byte> {
    Groups(d) + [0]
  }

  /** How many groups of `d` are full, that is, carry 254 bytes and no implied zero. */
  function FullGroups(d: seq<byte>): nat
    decreases |d|
  {
    var k := Run(d, 254);
    if k == 254 then 1 + FullGroups(d[254..])
    else if k == |d| then 0
    else FullGroups(d[k + 1..])
  }

  /** The payload ends exactly at the end of a full group (or is empty): its last code is a redundant 1. */
  predicate EndsFull(d: seq<byte>)
    decreases |d|
  {
    var k := Run(d, 254);
    if k == 254 then EndsFull(d[254..])
    else if k == |d| then k == 0
    else d[k + 1..] != [] && EndsFull(d[k + 1..])
  }

  function Prepend(out: seq<byte>, rest: Decoded): Decoded {
    match rest
    case Ok(t) => Ok(out + t)
    case Err(e) => Err(e)
  }

  /** Reference decoder of a frame whose delimiter was removed. */
  function DecodeGroups(f: seq<byte>): Decoded
    decreases |f|
  {
    if f == [] then Ok([])
    else
      var code := f[0];
      if code == 0 || code > |f| + 1 then Err(Corrupted)
      else if code > |f| then Err(Truncated)
      else Prepend(f[1..code] + (if code != 255 && code < |f| then [0] else []), DecodeGroups(f[code..]))
  }

  function StripDelimiter(frame: seq<byte>): seq<byte> {
    if frame != [] && frame[|frame| - 1] == 0 then frame[..|frame| - 1] else frame
  }

  function Decode(frame: seq<byte>): Decoded {
    DecodeGroups(StripDelimiter(frame))
  }

  // ----- how one group unfolds

  lemma {:induction false} RunIs(run: seq<byte>, rest: seq<byte>, cap: nat)
    requires NonZero(run) && |run| <= cap
    requires |run| == cap || rest == [] || rest[0] == 0
    ensures Run(run + rest, cap) == |run|
  {
    if run == [] {
      assert run + rest == rest;
    } else {
      assert (run + rest)[1..] == run[1..] + rest;
      assert (run + rest)[0] == run[0];
      RunIs(run[1..], rest, cap - 1);
    }
  }

  /** A short run closed by a zero. */
  lemma GroupClosed(run: seq<byte>, rest: seq<byte>)
    requires NonZero(run) && |run| < 254
    ensures Groups(run + [0] + rest) == [|run| + 1] + run + Groups(rest)
    ensures FullGroups(run + [0] + rest) == FullGroups(rest)
    ensures EndsFull(run + [0] + rest) <==> rest != [] && EndsFull(rest)
  {
    var d := run + [0] + rest;
    assert d == run + ([0] + rest);
    RunIs(run, [0] + rest, 254);
    assert d[..|run|] == run && d[|run| + 1..] == rest;
  }

  /** A run of exactly 254 bytes. */
  lemma GroupFull(run: seq<byte>, rest: seq<byte>)
    requires NonZero(run) && |run| == 254
    ensures Groups(run + rest) == [255] + run + Groups(rest)
    ensures FullGroups(run + rest) == 1 + FullGroups(rest)
    ensures EndsFull(run + rest) <==> EndsFull(rest)
  {
    var d := run + rest;
    RunIs(run, rest, 254);
    assert d[..254] == run && d[254..] == rest;
  }

  /** A short run at the end of the payload. */
  lemma GroupLast(run: seq<byte>)
    requires NonZero(run) && |run| < 254
    ensures Groups(run) == [|run| + 1] + run
    ensures FullGroups(run) == 0
    ensures EndsFull(run) <==> run == []
  {
    assert run + [] == run;
    RunIs(run, [], 254);
  }

  // ----- the encoder loop

  /**
   Loop invariant of the encoder: everything before `codeIdx` is final, `out[codeIdx]` is the
   placeholder of the open group, the rest of `out` is that group's run, `todo` is still unread.
   */
  ghost predicate Encoding(out: seq<byte>, codeIdx: nat, code: nat, todo: seq<byte>, data: seq<byte>) {
    && codeIdx < |out| && code == |out| - codeIdx && code < 255
    && NonZero(out[codeIdx + 1..])
    && out[..codeIdx] + Groups(out[codeIdx + 1..] + todo) == Groups(data)
  }

  lemma StoreByte(out: seq<byte>, codeIdx: nat, code: nat, todo: seq<byte>, data: seq<byte>)
    requires Encoding(out, codeIdx, code, todo, data)
    requires todo != [] && todo[0] != 0 && code < 254
    ensures Encoding(out + [todo[0]], codeIdx, code + 1, todo[1..], data)
  {
    var out' := out + [todo[0]];
    assert out'[codeIdx + 1..] == out[codeIdx + 1..] + [todo[0]];
    assert out'[codeIdx + 1..] + todo[1..] == out[codeIdx + 1..] + todo;
    assert out'[..codeIdx] == out[..codeIdx];
  }

  lemma StoreZero(out: seq<byte>, codeIdx: nat, code: byte, todo: seq<byte>, data: seq<byte>)
    requires Encoding(out, codeIdx, code, todo, data)
    requires todo != [] && todo[0] == 0
    ensures Encoding(out[codeIdx := code] + [0], |out|, 1, todo[1..], data)
  {
    hide Groups;
    var run := out[codeIdx + 1..];
    assert run + todo == run + [0] + todo[1..];
    GroupClosed(run, todo[1..]);
    CloseGroup(out, codeIdx, code, todo[1..], data);
  }

  lemma StoreLastOfFull(out: seq<byte>, codeIdx: nat, todo: seq<byte>, data: seq<byte>)
    requires Encoding(out, codeIdx, 254, todo, data)
    requires todo != [] && todo[0] != 0
    ensures Encoding((out + [todo[0]])[codeIdx := 255] + [0], |out| + 1, 1, todo[1..], data)
  {
    var run, out' := out[codeIdx + 1..], out + [todo[0]];
    assert run + todo == run + [todo[0]] + todo[1..];
    GroupFull(run + [todo[0]], todo[1..]);
    assert out'[codeIdx + 1..] == run + [todo[0]] && out'[..codeIdx] == out[..codeIdx];
    CloseGroup(out', codeIdx, 255, todo[1..], data);
  }

  /** Closing a group whose final bytes turn the reference encoding into `group + Groups(todo)`. */
  lemma CloseGroup(out: seq<byte>, codeIdx: nat, code: byte, todo: seq<byte>, data: seq<byte>)
    requires codeIdx < |out|
    requires out[..codeIdx] + ([code] + out[codeIdx + 1..] + Groups(todo)) == Groups(data)
    ensures Encoding(out[codeIdx := code] + [0], |out|, 1, todo, data)
  {
    hide Groups;
    var out' := out[codeIdx := code] + [0];
    var group, tail := [code] + out[codeIdx + 1..], Groups(todo);
    ClosedPrefix(out, codeIdx, code);
    assert out[..codeIdx] + group + tail == out[..codeIdx] + (group + tail);
    assert [] + todo == todo;
  }

  lemma ClosedPrefix(out: seq<byte>, codeIdx: nat, code: byte)
    requires codeIdx < |out|
    ensures var out' := out[codeIdx := code] + [0];
            out'[..|out|] == out[..codeIdx] + ([code] + out[codeIdx + 1..]) && out'[|out| + 1..] == []
  {
  }

  method EncodeFrame(data: seq<byte>) returns (out: seq<byte>)
    ensures out == Encode(data)
  {
    if |data| == 0 {
      GroupLast(data);
      return [1, 0];
    }
    out := [0];
    var codeIdx, code, i := 0, 1, 0;
    assert out[1..] + data[0..] == data;
    while i < |data|
      invariant 0 <= i <= |data| && 0 <= codeIdx && 1 <= code
      invariant Encoding(out, codeIdx, code, data[i..], data)
    {
      var b := data[i];
      ghost var todo := data[i..];
      assert todo[1..] == data[i + 1..];
      if b == 0 {
        StoreZero(out, codeIdx, code, todo, data);
        out := out[codeIdx := code];
        code := 1;
        codeIdx := |out|;
        out := out + [0];
      } else {
        if code < 254 {
          StoreByte(out, codeIdx, code, todo, data);
        } else {
          StoreLastOfFull(out, codeIdx, todo, data);
        }
        out := out + [b];
        code := code + 1;
        if code == 0xFF {
          out := out[codeIdx := code];
          code := 1;
          codeIdx := |out|;
          out := out + [0];
        }
      }
      i := i + 1;
    }
    FinalCode(out, codeIdx, code, data[i..], data);
    out := out[codeIdx := code];
    out := out + [0];
  }

  lemma FinalCode(out: seq<byte>, codeIdx: nat, code: nat, todo: seq<byte>, data: seq<byte>)
    requires todo == [] && Encoding(out, codeIdx, code, todo, data)
    ensures out[codeIdx := code] == Groups(data)
  {
    assert out[codeIdx + 1..] + todo == out[codeIdx + 1..];
    GroupLast(out[codeIdx + 1..]);
  }

  // ----- the decoder loop

  lemma PrependNothing(r: Decoded)
    ensures Prepend([], r) == r
  {
    if r.Ok? {
      assert [] + r.value == r.value;
    }
  }

  lemma PrependPrepend(a: seq<byte>, b: seq<byte>, r: Decoded)
    ensures Prepend(a, Prepend(b, r)) == Prepend(a + b, r)
  {
    if r.Ok? {
      assert a + (b + r.value) == a + b + r.value;
    }
  }

  lemma GroupOf(f: seq<byte>, start: nat, next: nat)
    requires start < next <= |f|
    ensures f[start..] == [f[start]] + f[start + 1..next] + f[next..]
  {
  }

  /** Loop invariant of the decoder: `out` is what the frame up to `i` decodes to. */
  ghost predicate Decoding(f: seq<byte>, i: nat, out: seq<byte>) {
    i <= |f| && DecodeGroups(f) == Prepend(out, DecodeGroups(f[i..]))
  }

  lemma DecodingStarts(frame: seq<byte>)
    ensures Decode(frame) == DecodeGroups(StripDelimiter(frame))
    ensures Decoding(StripDelimiter(frame), 0, [])
  {
    var f := StripDelimiter(frame);
    assert f[0..] == f;
    PrependNothing(DecodeGroups(f));
  }

  /** One group: `start` is where its code is, `out` what was decoded before it. */
  lemma DecodingStep(f: seq<byte>, start: nat, out: seq<byte>, out': seq<byte>)
    requires start < |f| && f[start] != 0 && start + f[start] <= |f| && Decoding(f, start, out)
    requires out' == out + f[start + 1..start + f[start]]
                   + (if f[start] != 255 && start + f[start] < |f| then [0] else [])
    ensures Decoding(f, start + f[start], out')
  {
    var code, next := f[start], start + f[start];
    var body, rest := f[start + 1..next], f[next..];
    GroupOf(f, start, next);
    DecodeOneGroup(code, body, rest);
    var group := if code != 255 && rest != [] then body + [0] else body;
    assert out' == out + group;
    PrependPrepend(out, group, DecodeGroups(rest));
  }

  /** One group after a successful inner loop. */
  lemma DecodingTakes(f: seq<byte>, start: nat, before: seq<byte>, out: seq<byte>, next: nat)
    requires start < |f| && f[start] != 0 && next == start + f[start] <= |f| && Decoding(f, start, before)
    requires out == before + f[start + 1..next]
    ensures Decoding(f, next, if f[start] != 255 && next < |f| then out + [0] else out)
  {
    hide Decoding;
    AddsNothing(out);
    DecodingStep(f, start, before, if f[start] != 255 && next < |f| then out + [0] else out);
  }

  lemma DecodingFails(f: seq<byte>, start: nat, out: seq<byte>)
    requires start < |f| && Decoding(f, start, out)
    ensures f[start] == 0 || start + f[start] > |f| + 1 ==> DecodeGroups(f) == Err(Corrupted)
    ensures f[start] != 0 && start + f[start] == |f| + 1 ==> DecodeGroups(f) == Err(Truncated)
  {
    assert f[start..][0] == f[start] && |f[start..]| == |f| - start;
  }

  lemma DecodingEnds(f: seq<byte>, out: seq<byte>)
    requires Decoding(f, |f|, out)
    ensures DecodeGroups(f) == Ok(out)
  {
    assert f[|f|..] == [] && out + [] == out;
  }

  lemma AddsNothing(out: seq<byte>)
    ensures out + [] == out
  {
  }

  lemma SliceGrows(f: seq<byte>, from: nat, i: nat)
    requires from <= i < |f|
    ensures f[from..i] + [f[i]] == f[from..i + 1]
  {
  }

  method DecodeFrame(frame: seq<byte>) returns (r: Decoded)
    ensures r == Decode(frame)
  {
    var f := frame;
    if |f| > 0 && f[|f| - 1] == 0 {
      f := f[..|f| - 1];
    }
    assert f == StripDelimiter(frame);
    hide *;
    DecodingStarts(frame);
    if |f| == 0 {
      DecodingEnds(f, []);
      return Ok([]);
    }
    var out: seq<byte> := [];
    var i := 0;
    while i < |f|
      invariant 0 <= i <= |f| && Decoding(f, i, out)
      decreases |f| - i
    {
      var code := f[i];
      ghost var before, start := out, i;
      DecodingFails(f, i, out);
      if code == 0 || i + code > |f| + 1 {
        return Err(Corrupted);
      }
      i := i + 1;
      for n := 1 to code
        invariant i == start + n <= |f|
        invariant out == before + f[start + 1..i]
      {
        if i >= |f| {
          return Err(Truncated);
        }
        out := out + [f[i]];
        SliceGrows(f, start + 1, i);
        i := i + 1;
      }
      DecodingTakes(f, start, before, out, i);
      if code != 0xFF && i < |f| {
        out := out + [0];
      }
    }
    DecodingEnds(f, out);
    r := Ok(out);
  }

  // ----- properties

  /** Splits a payload the way the encoder does; the shape every proof below follows. */
  lemma FirstGroup(d: seq<byte>) returns (run: seq<byte>, rest: seq<byte>)
    ensures NonZero(run) && |run| <= 254
    ensures d == run + [0] + rest || d == run + rest
    ensures |run| < 254 ==> d == run + [0] + rest || (rest == [] && d == run)
    ensures |run| == 254 ==> d == run + rest
    ensures |rest| < |d| || rest == []
  {
    var k := Run(d, 254);
    run := d[..k];
    if k == 254 || k == |d| {
      rest := d[k..];
    } else {
      rest := d[k + 1..];
    }
  }

  lemma {:induction false} EncodedHasNoZero(d: seq<byte>)
    ensures NonZero(Groups(d)) && Groups(d) != []
    decreases |d|
  {
    var run, rest := FirstGroup(d);
    if |run| == 254 {
      EncodedHasNoZero(rest);
      GroupFull(run, rest);
    } else if d == run {
      GroupLast(run);
    } else {
      EncodedHasNoZero(rest);
      GroupClosed(run, rest);
    }
  }

  /** Exact frame length; the overhead is two bytes and one more for each full group. */
  lemma {:induction false} EncodedLength(d: seq<byte>)
    ensures |Encode(d)| == |d| + 2 + FullGroups(d)
    ensures 254 * FullGroups(d) <= |d|
    ensures |Encode(d)| <= |d| + |d| / 254 + 2
    decreases |d|
  {
    var run, rest := FirstGroup(d);
    if |run| == 254 {
      EncodedLength(rest);
      GroupFull(run, rest);
    } else if d == run {
      GroupLast(run);
    } else {
      EncodedLength(rest);
      GroupClosed(run, rest);
    }
  }

  lemma DecodeOneGroup(code: byte, body: seq<byte>, rest: seq<byte>)
    requires code == |body| + 1
    ensures DecodeGroups([code] + body + rest)
         == Prepend(if code != 255 && rest != [] then body + [0] else body, DecodeGroups(rest))
  {
    var f := [code] + body + rest;
    assert f[1..code] == body && f[code..] == rest;
    assert body + [] == body;
  }

  lemma {:induction false} DecodeInvertsGroups(d: seq<byte>)
    ensures DecodeGroups(Groups(d)) == Ok(d)
    decreases |d|
  {
    var run, rest := FirstGroup(d);
    if |run| == 254 {
      DecodeInvertsGroups(rest);
      GroupFull(run, rest);
      DecodeOneGroup(255, run, Groups(rest));
    } else if d == run {
      GroupLast(run);
      DecodeOneGroup(|run| + 1, run, []);
      assert [|run| + 1] + run + [] == [|run| + 1] + run;
    } else {
      DecodeInvertsGroups(rest);
      EncodedHasNoZero(rest);
      GroupClosed(run, rest);
      DecodeOneGroup(|run| + 1, run, Groups(rest));
    }
  }

  lemma RoundTrip(d: seq<byte>)
    ensures Decode(Encode(d)) == Ok(d)
  {
    DecodeInvertsGroups(d);
    assert StripDelimiter(Encode(d)) == Groups(d);
  }

  /** What a sender that omits the redundant final code puts on the wire. */
  function Shortened(d: seq<byte>): seq<byte> {
    var g := Groups(d);
    if g == [] then [] else g[..|g| - 1]
  }

  lemma ShortenedGroup(group: seq<byte>, t: seq<byte>, d: seq<byte>)
    requires Groups(d) == group + Groups(t)
    ensures Shortened(d) == group + Shortened(t)
  {
    EncodedHasNoZero(t);
    EncodedHasNoZero(d);
  }

  lemma {:induction false} DecodeShortened(d: seq<byte>)
    requires EndsFull(d)
    ensures DecodeGroups(Shortened(d)) == Ok(d)
    ensures d != [] ==> Shortened(d) != []
    decreases |d|
  {
    var run, rest := FirstGroup(d);
    EncodedHasNoZero(rest);
    if |run| == 254 {
      GroupFull(run, rest);
      DecodeShortened(rest);
      DecodeOneGroup(255, run, Shortened(rest));
      ShortenedGroup([255] + run, rest, d);
    } else if d == run {
      GroupLast(run);
    } else {
      GroupClosed(run, rest);
      DecodeShortened(rest);
      DecodeOneGroup(|run| + 1, run, Shortened(rest));
      ShortenedGroup([|run| + 1] + run, rest, d);
    }
  }

  /** `f` is what some sender may put on the wire for `d`. */
  predicate Encodes(f: seq<byte>, d: seq<byte>) {
    f == Groups(d) || (EndsFull(d) && f == Shortened(d))
  }

  lemma FullGroupExtends(body: seq<byte>, rest: seq<byte>, t: seq<byte>)
    requires NonZero(body) && |body| == 254 && Encodes(rest, t)
    ensures Encodes([255] + body + rest, body + t)
  {
    GroupFull(body, t);
    ShortenedGroup([255] + body, t, body + t);
  }

  lemma ClosedGroupExtends(body: seq<byte>, rest: seq<byte>, t: seq<byte>)
    requires NonZero(body) && |body| < 254 && rest != [] && Encodes(rest, t)
    ensures Encodes([|body| + 1] + body + rest, body + [0] + t)
  {
    GroupLast([]);
    GroupClosed(body, t);
    ShortenedGroup([|body| + 1] + body, t, body + [0] + t);
  }

  lemma OneGroupIsRead(f: seq<byte>)
    requires f != [] && DecodeGroups(f).Ok?
    ensures 1 <= f[0] <= |f|
    ensures var separator := if f[0] != 255 && f[0] < |f| then [0] else [];
            DecodeGroups(f) == Prepend(f[1..f[0]] + separator, DecodeGroups(f[f[0]..]))
  {
  }

  /** What a successful read of a frame without a zero says about its first group. */
  lemma DecodedByGroup(f: seq<byte>)
    requires NonZero(f) && f != [] && DecodeGroups(f).Ok?
    ensures 1 <= f[0] <= |f|
    ensures var (body: seq<byte>, rest: seq<byte>) := (f[1..f[0]], f[f[0]..]);
            && f == [f[0]] + body + rest && NonZero(body) && NonZero(rest)
            && DecodeGroups(rest).Ok?
            && DecodeGroups(f).value
                 == (if f[0] != 255 && rest != [] then body + [0] else body) + DecodeGroups(rest).value
  {
    hide DecodeGroups, NonZero;
    OneGroupIsRead(f);
    GroupOf(f, 0, f[0]);
    WholeTail(f);
    AddsNothing(f[1..f[0]]);
    NonZeroParts(f, f[0]);
  }

  lemma NonZeroParts(f: seq<byte>, i: nat)
    requires NonZero(f) && 1 <= i <= |f|
    ensures NonZero(f[1..i]) && NonZero(f[i..])
  {
  }

  lemma WholeTail(f: seq<byte>)
    ensures f[0..] == f
  {
  }

  lemma LastGroupStands(body: seq<byte>)
    requires NonZero(body) && |body| < 254
    ensures Encodes([|body| + 1] + body + [], body + DecodeGroups([]).value)
  {
    GroupLast(body);
  }

  lemma {:induction false} DecodedIsEncoding(f: seq<byte>)
    requires NonZero(f) && DecodeGroups(f).Ok?
    ensures Encodes(f, DecodeGroups(f).value)
    decreases |f|
  {
    hide *;
    if f == [] {
      NothingIsShortened();
    } else {
      DecodedByGroup(f);
      var body, rest := f[1..f[0]], f[f[0]..];
      DecodedIsEncoding(rest);
      if f[0] == 255 {
        FullGroupExtends(body, rest, DecodeGroups(rest).value);
      } else if rest == [] {
        LastGroupStands(body);
      } else {
        ClosedGroupExtends(body, rest, DecodeGroups(rest).value);
      }
    }
  }

  lemma NothingIsShortened()
    ensures DecodeGroups([]) == Ok([]) && Encodes([], [])
  {
    GroupLast([]);
  }

  /**
   Exactly what the decoder accepts among the frames a delimiter-driven receiver can hand it
   (no zero inside): `d` comes out if and only if the frame is the encoding of `d`, or that
   encoding without a redundant last code.
   */
  lemma DecoderIsExact(f: seq<byte>, d: seq<byte>)
    requires NonZero(f)
    ensures Decode(f + [0]) == Ok(d) <==> Encodes(f, d)
  {
    assert StripDelimiter(f + [0]) == f;
    if DecodeGroups(f) == Ok(d) {
      DecodedIsEncoding(f);
    } else if f == Groups(d) {
      DecodeInvertsGroups(d);
    } else if EndsFull(d) && f == Shortened(d) {
      DecodeShortened(d);
    }
  }

  // ----- any frame, by its codes

  predicate ShortBodies(bodies: seq<seq<byte>>) {
    forall i :: 0 <= i < |bodies| ==> |bodies[i]| <= 254
  }

  /** Each body behind its code, one more than its length. */
  function Coded(bodies: seq<seq<byte>>): seq<byte>
    requires ShortBodies(bodies)
  {
    if bodies == [] then [] else [|bodies[0]| + 1] + bodies[0] + Coded(bodies[1..])
  }

  /** The bodies with a zero behind each that is not full, as long as more of the frame follows. */
  function Joined(bodies: seq<seq<byte>>, more: bool): seq<byte> {
    if bodies == [] then []
    else bodies[0] + (if |bodies[0]| < 254 && (|bodies| > 1 || more) then [0] else []) + Joined(bodies[1..], more)
  }

  lemma {:induction false} BodiesAreJoined(bodies: seq<seq<byte>>, t: seq<byte>)
    requires ShortBodies(bodies)
    ensures DecodeGroups(Coded(bodies) + t) == Prepend(Joined(bodies, t != []), DecodeGroups(t))
    decreases |bodies|
  {
    hide DecodeGroups, Prepend;
    if bodies == [] {
      assert [] + t == t;
      PrependNothing(DecodeGroups(t));
    } else {
      var body, rest := bodies[0], Coded(bodies[1..]) + t;
      var out := if |body| < 254 && rest != [] then body + [0] else body;
      BodiesAreJoined(bodies[1..], t);
      assert Coded(bodies) + t == [|body| + 1] + body + rest;
      DecodeOneGroup(|body| + 1, body, rest);
      CodedIsEmpty(bodies[1..]);
      PrependPrepend(out, Joined(bodies[1..], t != []), DecodeGroups(t));
      assert body + [] == body;
    }
  }

  lemma CodedIsEmpty(bodies: seq<seq<byte>>)
    requires ShortBodies(bodies)
    ensures Coded(bodies) == [] <==> bodies == []
  {
  }

  /**
   What any frame decodes to, zeros inside it included: cut it at its codes as long as they fit; the
   bodies are joined. A code that does not fit rejects it: short by exactly one byte as truncated, a zero
   or a larger one as corrupted.
   */
  lemma FrameIsReadByCodes(bodies: seq<seq<byte>>, t: seq<byte>)
    requires ShortBodies(bodies) && (t == [] || t[0] == 0 || t[0] > |t|)
    ensures Decode(Coded(bodies) + t + [0])
         == if t == [] then Ok(Joined(bodies, false))
            else if t[0] == |t| + 1 then Err(Truncated)
            else Err(Corrupted)
  {
    var f := Coded(bodies) + t;
    assert (f + [0])[..|f|] == f;
    BodiesAreJoined(bodies, t);
    assert Joined(bodies, false) + [] == Joined(bodies, false);
  }
}
