/** What single key bytes and sequences do, on the bytes themselves: state, wire and echo. */
module LineEditorKeys {
  import opened Common
  import opened LineEditor
  import opened LineEditorProperties

  /** A key stream that leaves nothing pending: the editor behind it and what it put out. */
  function Done(e: Editor, wire: bytes, echo: bytes): Processed {
    Processed(e, [], Emitted(wire, echo))
  }

  lemma OneByte(prompt: bytes, e: Editor, b: byte)
    requires Consistent(e) && b != 0x1B && b != 0x00 && b != 0xE0
    ensures var step := Apply(prompt, e, PlainKey(b));
            Process(prompt, e, [b]) == Done(step.0, step.1.wire, step.1.echo)
            && Entered(prompt, e, [b]) == Submits(e, PlainKey(b))
  {
    ApplyKeepsConsistent(prompt, e, PlainKey(b));
    var step := Apply(prompt, e, PlainKey(b));
    assert [b][1..] == [];
    ProcessStep(prompt, e, [b], NextKey([b]));
    ProcessNothing(prompt, step.0);
    JoinLaws(step.1, step.1, step.1);
    assert Submits(e, PlainKey(b)) + [] == Submits(e, PlainKey(b));
  }

  lemma TypeOne(prompt: bytes, e: Editor, b: byte)
    requires Consistent(e) && 0x20 <= b <= 0x7E
    ensures Process(prompt, e, [b]) == Done(e.(line := e.line + [b], index := None), [b], [b])
    ensures Entered(prompt, e, [b]) == []
  {
    OneByte(prompt, e, b);
  }

  lemma EnterOne(prompt: bytes, e: Editor, b: byte)
    requires Consistent(e) && (b == 0x0D || b == 0x0A)
    ensures var r := Process(prompt, e, [b]); r == Done(Editor(r.editor.history, [], None, []), [b], [b])
    ensures Entered(prompt, e, [b]) == [e.line]
  {
    OneByte(prompt, e, b);
  }

  /** One key stream behind another that left nothing pending. */
  lemma Behind(prompt: bytes, e: Editor, a: bytes, b: bytes)
    requires Consistent(e) && Process(prompt, e, a).pending == []
    ensures var (first, second) := (Process(prompt, e, a), Process(prompt, Process(prompt, e, a).editor, b));
            && Process(prompt, e, a + b) == Processed(second.editor, second.pending, Join(first.out, second.out))
            && Entered(prompt, e, a + b) == Entered(prompt, e, a) + Entered(prompt, first.editor, b)
  {
    hide Process, Entered;
    assert [] + b == b;
    KeysMayArriveInPieces(prompt, e, a, b);
    EnteredSplit(prompt, e, a, b);
  }

  lemma NothingTyped(prompt: bytes, e: Editor)
    requires Consistent(e)
    ensures Process(prompt, e, []) == Done(e, [], []) && Entered(prompt, e, []) == []
  {
  }

  /** Typed text goes to the line, the device and the terminal, byte for byte. */
  lemma {:induction false} TypedTextIsTheLine(prompt: bytes, e: Editor, s: bytes)
    requires Consistent(e) && Printable(s)
    ensures Process(prompt, e, s)
         == Done(e.(line := e.line + s, index := if s == [] then e.index else None), s, s)
    ensures Entered(prompt, e, s) == []
    decreases |s|
  {
    hide Process, Entered;
    if s == [] {
      NothingTyped(prompt, e);
      assert e.line + s == e.line;
    } else {
      var n := |s| - 1;
      TypedTextIsTheLine(prompt, e, s[..n]);
      TypeOne(prompt, Process(prompt, e, s[..n]).editor, s[n]);
      assert s == s[..n] + [s[n]];
      Behind(prompt, e, s[..n], [s[n]]);
    }
  }

  /** Lines entered by a stream in two pieces. */
  lemma {:induction false} EnteredSplit(prompt: bytes, e: Editor, a: bytes, b: bytes)
    requires Consistent(e)
    ensures var first := Process(prompt, e, a);
            Entered(prompt, e, a + b) == Entered(prompt, e, a) + Entered(prompt, first.editor, first.pending + b)
    decreases |a|
  {
    hide Process, Entered, NextKey, Apply;
    if a == [] {
      NothingTyped(prompt, e);
      assert a + b == b && [] + b == b && [] + Entered(prompt, e, b) == Entered(prompt, e, b);
    } else {
      var k := NextKey(a);
      ProcessStep(prompt, e, a, k);
      if k.Incomplete? {
        NothingEntered(prompt, e, a);
        assert [] + Entered(prompt, e, a + b) == Entered(prompt, e, a + b);
      } else {
        NextKeyStable(a, b);
        var next, rest := Effect(prompt, e, k).0, a[k.used..];
        assert (a + b)[k.used..] == rest + b;
        EnteredStep(prompt, e, a, k, rest);
        EnteredStep(prompt, e, a + b, k, rest + b);
        EnteredSplit(prompt, next, rest, b);
        var later := Process(prompt, next, rest);
        Reassociate(Submits(e, k.action), Entered(prompt, next, rest),
                    Entered(prompt, later.editor, later.pending + b));
      }
    }
  }

  lemma NothingEntered(prompt: bytes, e: Editor, data: bytes)
    requires Consistent(e) && data != [] && NextKey(data).Incomplete?
    ensures Entered(prompt, e, data) == []
  {
  }

  /** CR or LF hands over the line as it was typed, and starts an empty one. */
  lemma TypedLineIsEntered(prompt: bytes, e: Editor, s: bytes, b: byte)
    requires Consistent(e) && Printable(s) && (b == 0x0D || b == 0x0A)
    ensures var r := Process(prompt, e, s + [b]);
            r == Done(Editor(r.editor.history, [], None, []), s + [b], s + [b])
    ensures Entered(prompt, e, s + [b]) == [e.line + s]
  {
    hide Process, Entered;
    TypedTextIsTheLine(prompt, e, s);
    EnterOne(prompt, Process(prompt, e, s).editor, b);
    Behind(prompt, e, s, [b]);
  }

  predicate Blanks(s: bytes) {
    forall i :: 0 <= i < |s| ==> s[i] == 0x20
  }

  predicate NoneFinal(s: bytes) {
    forall i :: 0 <= i < |s| ==> !(0x40 <= s[i] <= 0x7E)
  }

  /** In a new session the command entered first is the history, without the blanks around it. */
  lemma FirstCommandIsRemembered(prompt: bytes, before: bytes, s: bytes, behind: bytes, b: byte)
    requires Blanks(before) && Blanks(behind)
    requires Printable(s) && s != [] && s[0] != 0x20 && s[|s| - 1] != 0x20 && (b == 0x0D || b == 0x0A)
    ensures Process(prompt, FRESH, before + s + behind + [b]).editor == Editor([s], [], None, [])
  {
    hide Process, Entered;
    var line := before + s + behind;
    TypedLineIsEntered(prompt, FRESH, line, b);
    assert FRESH.line + line == line;
    SessionHistory(prompt, line + [b]);
    StripsBlanks(before, s, behind);
    var none: seq<bytes> := [line][..0];
    assert none == [];
    assert Commands([line]) == [s];
  }

  lemma {:induction false} StripsBlanks(before: bytes, s: bytes, behind: bytes)
    requires Blanks(before) && Blanks(behind)
    requires Printable(s) && s != [] && s[0] != 0x20 && s[|s| - 1] != 0x20
    ensures Strip(before + s + behind) == s
    decreases |before| + |behind|
  {
    var line := before + s + behind;
    if before != [] {
      assert line[0] == before[0] && line[1..] == before[1..] + s + behind;
      StripsBlanks(before[1..], s, behind);
    } else if behind != [] {
      var n := |behind| - 1;
      assert line[0] == s[0] && line[|line| - 1] == behind[n] && line[..|line| - 1] == before + s + behind[..n];
      StripsBlanks(before, s, behind[..n]);
    } else {
      assert line == s;
    }
  }

  /** Both delete keys drop the last byte, if there is one, on the device and on the terminal. */
  lemma DeleteDropsOne(prompt: bytes, e: Editor, b: byte)
    requires Consistent(e) && (b == 0x08 || b == 0x7F)
    ensures Process(prompt, e, [b])
         == if e.line == [] then Done(e.(index := None), [], [])
            else Done(e.(line := e.line[..|e.line| - 1], index := None), [0x7F], [0x08, 0x20, 0x08])
    ensures Entered(prompt, e, [b]) == []
  {
    OneByte(prompt, e, b);
  }

  /** Ctrl-U deletes the line byte by byte on the device; Ctrl-C is passed on and abandons it. */
  lemma KillAndInterruptEmptyTheLine(prompt: bytes, e: Editor)
    requires Consistent(e)
    ensures Process(prompt, e, [0x15])
         == Done(Editor(e.history, [], None, []), seq(|e.line|, _ => 0x7F), [0x0D, 0x1B, 0x5B, 0x32, 0x4B] + prompt)
    ensures Process(prompt, e, [0x03]) == Done(Editor(e.history, [], None, []), [0x03], [])
    ensures Entered(prompt, e, [0x15]) == [] == Entered(prompt, e, [0x03])
  {
    OneByte(prompt, e, 0x15);
    OneByte(prompt, e, 0x03);
    assert Repeat(DEL, |e.line|) + [] == seq(|e.line|, _ => 0x7F);
    assert Redraw(prompt, []) == [0x0D, 0x1B, 0x5B, 0x32, 0x4B] + prompt;
  }

  /** Every other single byte but the three that open a sequence is dropped. */
  lemma OtherBytesAreDropped(prompt: bytes, e: Editor, b: byte)
    requires Consistent(e) && (b < 0x20 || b > 0x7F)
    requires b !in [0x00, 0x03, 0x08, 0x0A, 0x0D, 0x15, 0x1B, 0xE0]
    ensures Process(prompt, e, [b]) == Done(e, [], []) && Entered(prompt, e, [b]) == []
  {
    var special: bytes := [0x00, 0x03, 0x08, 0x0A, 0x0D, 0x15, 0x1B, 0xE0];
    assert special[1] == 3 && special[2] == 8 && special[3] == 10 && special[4] == 13 && special[5] == 21;
    assert special[0] == 0 && special[6] == 0x1B && special[7] == 0xE0;
    OneByte(prompt, e, b);
  }

  /** The three bytes that open a sequence wait for what follows, as does an unfinished control sequence. */
  lemma SequencesWait(prompt: bytes, e: Editor, b: byte, params: bytes)
    requires Consistent(e) && (b == 0x1B || b == 0x00 || b == 0xE0)
    requires NoneFinal(params)
    ensures Process(prompt, e, [b]) == Processed(e, [b], Emitted([], []))
    ensures Process(prompt, e, [0x1B, 0x5B] + params) == Processed(e, [0x1B, 0x5B] + params, Emitted([], []))
  {
    var data: bytes := [0x1B, 0x5B] + params;
    NoFinal(data, 2);
    ProcessStep(prompt, e, [b], NextKey([b]));
    ProcessStep(prompt, e, data, NextKey(data));
  }

  lemma {:induction false} NoFinal(data: bytes, i: nat)
    requires i <= |data| && forall j :: i <= j < |data| ==> !(0x40 <= data[j] <= 0x7E)
    ensures FindFinal(data, i) == |data|
    decreases |data| - i
  {
    if i < |data| {
      NoFinal(data, i + 1);
    }
  }

  lemma {:induction false} FinalIsLast(data: bytes, i: nat)
    requires i < |data| && 0x40 <= data[|data| - 1] <= 0x7E
    requires forall j :: i <= j < |data| - 1 ==> !(0x40 <= data[j] <= 0x7E)
    ensures FindFinal(data, i) == |data| - 1
    decreases |data| - i
  {
    if i < |data| - 1 {
      FinalIsLast(data, i + 1);
    }
  }

  /**
   Control sequences with any parameters, by their final byte: A goes up, B goes down, and all others,
   like an escape before any byte but a bracket, change nothing and put out nothing.
   */
  lemma ControlSequences(prompt: bytes, e: Editor, params: bytes, final: byte, other: byte)
    requires Consistent(e) && 0x40 <= final <= 0x7E
    requires NoneFinal(params)
    ensures var key := [0x1B, 0x5B] + params + [final];
            && (final == 0x41 ==> IsKey(key, Up)) && (final == 0x42 ==> IsKey(key, Down))
            && (final != 0x41 && final != 0x42 ==> Process(prompt, e, key) == Done(e, [], []))
    ensures other != 0x5B ==> Process(prompt, e, [0x1B, other]) == Done(e, [], [])
  {
    var key: bytes := [0x1B, 0x5B] + params + [final];
    FinalIsLast(key, 2);
    SwallowsKey(prompt, e, key);
    SwallowsKey(prompt, e, [0x1B, other]);
  }

  lemma SwallowsKey(prompt: bytes, e: Editor, key: bytes)
    requires Consistent(e) && key != []
    ensures IsKey(key, Ignore) ==> Process(prompt, e, key) == Done(e, [], [])
  {
    ProcessStep(prompt, e, key, NextKey(key));
    assert key[|key|..] == [];
    ProcessNothing(prompt, e);
  }

  /** Two-byte function keys: H goes up, P goes down, all others are dropped. */
  lemma FunctionKeys(prompt: bytes, e: Editor, b: byte, code: byte)
    requires Consistent(e) && (b == 0x00 || b == 0xE0)
    ensures code == 0x48 ==> IsKey([b, code], Up)
    ensures code == 0x50 ==> IsKey([b, code], Down)
    ensures code != 0x48 && code != 0x50 ==> Process(prompt, e, [b, code]) == Done(e, [], [])
  {
    SwallowsKey(prompt, e, [b, code]);
  }
}
