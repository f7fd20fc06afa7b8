/**
 The network console's line editor. `Editor` is the state of a `NetworkLineEditor` as a value;
 keys are cut into actions by `NextKey`, and each action is one state transition that emits bytes
 for the device (`wire`) and for the host terminal (`echo`).
 */
module LineEditor {
  import opened Common

  const LIMIT: nat := 32
  const ESC: byte := 0x1B
  const DEL: byte := 0x7F
  const CR: byte := 0x0D
  const LF: byte := 0x0A
  const ETX: byte := 0x03

  type bytes = seq<byte>

  datatype Editor = Editor(history: seq<bytes>, line: bytes, index: Option<nat>, draft: bytes)

  datatype Emitted = Emitted(wire: bytes, echo: bytes)

  function Join(a: Emitted, b: Emitted): Emitted {
    Emitted(a.wire + b.wire, a.echo + b.echo)
  }

  // ----- keys

  datatype Action = Up | Down | Ignore | Interrupt | KillLine | Backspace | Enter(key: byte) | Type(key: byte)

  /** The first key of a stream: still incomplete, or an action and the bytes it took. */
  datatype Key = Incomplete | Key(action: Action, used: nat)

  predicate IsFinal(b: byte) {
    0x40 <= b <= 0x7E
  }

  /** Position of the final byte of a control sequence, searched from `i` on. */
  function FindFinal(data: bytes, i: nat): (r: nat)
    requires i <= |data|
    ensures i <= r <= |data|
    ensures forall j :: i <= j < r ==> !IsFinal(data[j])
    ensures r < |data| ==> IsFinal(data[r])
    decreases |data| - i
  {
    if i == |data| || IsFinal(data[i]) then i else FindFinal(data, i + 1)
  }

  function Arrow(code: byte, up: byte, down: byte): Action {
    if code == up then Up else if code == down then Down else Ignore
  }

  function PlainKey(b: byte): Action {
    if b == ETX then Interrupt
    else if b == 0x15 then KillLine
    else if b == 0x08 || b == DEL then Backspace
    else if b == CR || b == LF then Enter(b)
    else if 0x20 <= b <= 0x7E then Type(b)
    else Ignore
  }

  function NextKey(data: bytes): (k: Key)
    requires data != []
    ensures k.Key? ==> 1 <= k.used <= |data|
  {
    if data[0] == ESC then
      if |data| < 2 then Incomplete
      else if data[1] != '[' as int then Key(Ignore, 2)
      else
        var end := FindFinal(data, 2);
        if end == |data| then Incomplete else Key(Arrow(data[end], 'A' as int, 'B' as int), end + 1)
    else if data[0] == 0x00 || data[0] == 0xE0 then
      if |data| < 2 then Incomplete else Key(Arrow(data[1], 'H' as int, 'P' as int), 2)
    else Key(PlainKey(data[0]), 1)
  }

  // ----- transitions

  function Repeat(b: byte, n: nat): (r: bytes)
    ensures |r| == n && forall i :: 0 <= i < n ==> r[i] == b
  {
    seq(n, _ => b)
  }

  function Redraw(prompt: bytes, line: bytes): bytes {
    [CR, ESC, '[' as int, '2' as int, 'K' as int] + prompt + line
  }

  function Replace(prompt: bytes, e: Editor, line: bytes): (Editor, Emitted) {
    (e.(line := line), Emitted(Repeat(DEL, |e.line|) + line, Redraw(prompt, line)))
  }

  predicate IsSpace(b: byte) {
    b == 0x20 || 0x09 <= b <= 0x0D
  }

  /** `bytes.strip()` */
  function Strip(s: bytes): bytes {
    if s == [] then []
    else if IsSpace(s[0]) then Strip(s[1..])
    else if IsSpace(s[|s| - 1]) then Strip(s[..|s| - 1])
    else s
  }

  /** A command joins the history unless it is blank or repeats the newest entry. */
  function Remember(history: seq<bytes>, line: bytes): seq<bytes> {
    var command := Strip(line);
    if command != [] && (history == [] || history[|history| - 1] != command)
    then LastN(history + [command], LIMIT)
    else history
  }

  function HistoryUp(prompt: bytes, e: Editor): (Editor, Emitted)
    requires Consistent(e)
  {
    if e.history == [] then (e, Emitted([], []))
    else
      var e' := if e.index.None? then e.(draft := e.line, index := Some(|e.history| - 1))
                else e.(index := Some(if e.index.value == 0 then 0 else e.index.value - 1));
      Replace(prompt, e', e.history[e'.index.value])
  }

  function HistoryDown(prompt: bytes, e: Editor): (Editor, Emitted)
    requires Consistent(e)
  {
    if e.index.None? then (e, Emitted([], []))
    else if e.index.value < |e.history| - 1 then
      Replace(prompt, e.(index := Some(e.index.value + 1)), e.history[e.index.value + 1])
    else Replace(prompt, e.(index := None), e.draft)
  }

  function Apply(prompt: bytes, e: Editor, a: Action): (Editor, Emitted)
    requires Consistent(e)
  {
    match a
    case Up => HistoryUp(prompt, e)
    case Down => HistoryDown(prompt, e)
    case Ignore => (e, Emitted([], []))
    case Interrupt => (Editor(e.history, [], None, []), Emitted([ETX], []))
    case KillLine =>
      var r := Replace(prompt, e, []);
      (r.0.(index := None, draft := []), r.1)
    case Backspace =>
      if e.line == [] then (e.(index := None), Emitted([], []))
      else (e.(line := e.line[..|e.line| - 1], index := None), Emitted([DEL], [0x08, 0x20, 0x08]))
    case Enter(b) => (Editor(Remember(e.history, e.line), [], None, []), Emitted([b], [b]))
    case Type(b) => (e.(line := e.line + [b], index := None), Emitted([b], [b]))
  }

  /** A stored history position always names an entry. */
  predicate Consistent(e: Editor) {
    e.index.Some? ==> e.index.value < |e.history|
  }

  lemma ApplyKeepsConsistent(prompt: bytes, e: Editor, a: Action)
    requires Consistent(e)
    ensures Consistent(Apply(prompt, e, a).0)
  {
  }

  // ----- a whole key stream

  /** The editor after a stream, the bytes of an unfinished key, and everything emitted. */
  datatype Processed = Processed(editor: Editor, pending: bytes, out: Emitted)

  function Process(prompt: bytes, e: Editor, data: bytes): (r: Processed)
    requires Consistent(e)
    ensures Consistent(r.editor)
    decreases |data|
  {
    if data == [] then Processed(e, [], Emitted([], []))
    else
      match NextKey(data)
      case Incomplete => Processed(e, data, Emitted([], []))
      case Key(a, used) =>
        ApplyKeepsConsistent(prompt, e, a);
        var step := Apply(prompt, e, a);
        var rest := Process(prompt, step.0, data[used..]);
        Processed(rest.editor, rest.pending, Join(step.1, rest.out))
  }

  // ----- the editor object

  class NetworkLineEditor {
    const prompt: bytes
    var history: seq<bytes>
    var line: bytes
    var historyIndex: Option<nat>
    var draft: bytes
    var pendingControl: bytes

    function State(): Editor
      reads this
    {
      Editor(history, line, historyIndex, draft)
    }

    predicate Valid()
      reads this
    {
      Consistent(State())
    }

    constructor (prompt: bytes)
      ensures Valid() && this.prompt == prompt
      ensures State() == Editor([], [], None, []) && pendingControl == []
    {
      this.prompt := prompt;
      history, line, historyIndex, draft, pendingControl := [], [], None, [], [];
    }

    method ResetLine()
      modifies this
      ensures State() == Editor(old(history), [], None, []) && pendingControl == []
    {
      line := [];
      historyIndex := None;
      draft := [];
      pendingControl := [];
    }

    method ReplaceLine(replacement: bytes) returns (wire: bytes, echo: bytes)
      modifies this`line
      ensures (State(), Emitted(wire, echo)) == Replace(prompt, old(State()), replacement)
    {
      wire := Repeat(0x7F, |line|) + replacement;
      line := replacement;
      echo := [CR, ESC, '[' as int, '2' as int, 'K' as int] + prompt + replacement;
    }

    method Up() returns (wire: bytes, echo: bytes)
      requires Valid()
      modifies this`line, this`historyIndex, this`draft
      ensures (State(), Emitted(wire, echo)) == HistoryUp(prompt, old(State()))
    {
      if |history| == 0 {
        return [], [];
      }
      if historyIndex.None? {
        draft := line;
        historyIndex := Some(|history| - 1);
      } else {
        historyIndex := Some(if historyIndex.value == 0 then 0 else historyIndex.value - 1);
      }
      wire, echo := ReplaceLine(history[historyIndex.value]);
    }

    method Down() returns (wire: bytes, echo: bytes)
      requires Valid()
      modifies this`line, this`historyIndex
      ensures (State(), Emitted(wire, echo)) == HistoryDown(prompt, old(State()))
    {
      if historyIndex.None? {
        return [], [];
      }
      var replacement;
      if historyIndex.value < |history| - 1 {
        historyIndex := Some(historyIndex.value + 1);
        replacement := history[historyIndex.value];
      } else {
        historyIndex := None;
        replacement := draft;
      }
      wire, echo := ReplaceLine(replacement);
    }

    method RememberLine()
      modifies this`history, this`line, this`historyIndex, this`draft
      ensures State() == Editor(Remember(old(history), old(line)), [], None, [])
    {
      var command := Strip(line);
      if command != [] && (|history| == 0 || history[|history| - 1] != command) {
        history := history + [command];
        history := LastN(history, LIMIT);
      }
      line := [];
      historyIndex := None;
      draft := [];
    }

    /** One key that is not part of an escape or function-key sequence. */
    method Plain(byte: byte) returns (wire: bytes, echo: bytes)
      requires Valid() && pendingControl == []
      modifies this
      ensures (State(), Emitted(wire, echo)) == Apply(prompt, old(State()), PlainKey(byte))
      ensures pendingControl == []
    {
      wire, echo := [], [];
      if byte == 0x03 {
        wire := [byte];
        ResetLine();
      } else if byte == 0x15 {
        wire, echo := ReplaceLine([]);
        historyIndex := None;
        draft := [];
      } else if byte == 0x08 || byte == 0x7F {
        if |line| > 0 {
          line := line[..|line| - 1];
          wire := [0x7F];
          echo := [0x08, 0x20, 0x08];
        }
        historyIndex := None;
      } else if byte == CR || byte == LF {
        wire := [byte];
        echo := [byte];
        RememberLine();
      } else if 0x20 <= byte <= 0x7E {
        line := line + [byte];
        wire := [byte];
        echo := [byte];
        historyIndex := None;
      }
    }

    /** An escape or control sequence starting at `index`; `next` is past it unless it is incomplete. */
    method Escape(data: bytes, index: nat) returns (more: bool, next: nat, wire: bytes, echo: bytes)
      requires Valid() && index < |data| && data[index] == ESC
      modifies this
      ensures pendingControl == old(pendingControl)
      ensures Took(NextKey(data[index..]), index, more, next)
      ensures (State(), Emitted(wire, echo)) == Effect(prompt, old(State()), NextKey(data[index..]))
    {
      ghost var rest := data[index..];
      more, next, wire, echo := true, index, [], [];
      var end := index + 1;
      if end >= |data| {
        more := false;
        return;
      }
      if data[end] != '[' as int {
        next := index + 2;
        return;
      }
      end := end + 1;
      while end < |data| && !(0x40 <= data[end] <= 0x7E)
        invariant index + 2 <= end <= |data|
        invariant FindFinal(rest, 2) == FindFinal(rest, end - index)
      {
        end := end + 1;
      }
      if end >= |data| {
        more := false;
        return;
      }
      if data[end] == 'A' as int {
        wire, echo := Up();
      } else if data[end] == 'B' as int {
        wire, echo := Down();
      }
      next := end + 1;
    }

    /** A two-byte function key of the Windows console. */
    method FunctionKey(data: bytes, index: nat) returns (more: bool, next: nat, wire: bytes, echo: bytes)
      requires Valid() && index < |data| && (data[index] == 0x00 || data[index] == 0xE0)
      modifies this
      ensures pendingControl == old(pendingControl)
      ensures Took(NextKey(data[index..]), index, more, next)
      ensures (State(), Emitted(wire, echo)) == Effect(prompt, old(State()), NextKey(data[index..]))
    {
      more, next, wire, echo := true, index + 2, [], [];
      if index + 1 >= |data| {
        more := false;
        return;
      }
      var code := data[index + 1];
      if code == 'H' as int {
        wire, echo := Up();
      } else if code == 'P' as int {
        wire, echo := Down();
      }
    }

    /** `process` */
    method ProcessKeys(keys: bytes) returns (wire: bytes, echo: bytes)
      requires Valid()
      modifies this
      ensures Valid()
      ensures Processed(State(), pendingControl, Emitted(wire, echo))
           == Process(prompt, old(State()), old(pendingControl) + keys)
    {
      hide Process, Running, Apply;
      var data := pendingControl + keys;
      pendingControl := [];
      wire, echo := [], [];
      var index := 0;
      ghost var whole := Process(prompt, State(), data);
      RunningStart(prompt, State(), data);
      while index < |data|
        invariant 0 <= index <= |data| && Valid() && pendingControl == []
        invariant Running(prompt, whole, State(), data[index..], Emitted(wire, echo))
        decreases |data| - index
      {
        var more, next, w, c := true, index + 1, [], [];
        ghost var before, rest, key := State(), data[index..], NextKey(data[index..]);
        if data[index] == 0x1B {
          more, next, w, c := Escape(data, index);
        } else if data[index] == 0x00 || data[index] == 0xE0 {
          more, next, w, c := FunctionKey(data, index);
        } else {
          w, c := Plain(data[index]);
        }
        RunningStep(prompt, whole, before, rest, Emitted(wire, echo), key);
        if !more {
          pendingControl := data[index..];
          return;
        }
        assert data[index..][next - index..] == data[next..];
        wire, echo := wire + w, echo + c;
        index := next;
      }
      RunningEnd(prompt, whole, State(), data[index..], Emitted(wire, echo));
    }
  }

  /** What a method reports about the key it took at `index`. */
  ghost predicate Took(k: Key, index: nat, more: bool, next: nat) {
    more == k.Key? && (k.Key? ==> next == index + k.used)
  }

  function Effect(prompt: bytes, e: Editor, k: Key): (r: (Editor, Emitted))
    requires Consistent(e)
    ensures Consistent(r.0)
  {
    if k.Incomplete? then (e, Emitted([], []))
    else
      ApplyKeepsConsistent(prompt, e, k.action);
      Apply(prompt, e, k.action)
  }

  /** Loop invariant of `process`: what was emitted so far, then the rest from the current state. */
  ghost predicate Running(prompt: bytes, whole: Processed, e: Editor, rest: bytes, out: Emitted) {
    && Consistent(e)
    && var r := Process(prompt, e, rest);
       whole == Processed(r.editor, r.pending, Join(out, r.out))
  }

  lemma JoinLaws(a: Emitted, b: Emitted, c: Emitted)
    ensures Join(Emitted([], []), a) == a == Join(a, Emitted([], []))
    ensures Join(Join(a, b), c) == Join(a, Join(b, c))
  {
  }

  lemma RunningStart(prompt: bytes, e: Editor, data: bytes)
    requires Consistent(e)
    ensures Running(prompt, Process(prompt, e, data), e, data[0..], Emitted([], []))
  {
    var r := Process(prompt, e, data);
    JoinLaws(r.out, r.out, r.out);
    assert data[0..] == data;
  }

  lemma RunningEnd(prompt: bytes, whole: Processed, e: Editor, rest: bytes, out: Emitted)
    requires rest == [] && Running(prompt, whole, e, rest, out)
    ensures whole == Processed(e, [], out)
  {
    JoinLaws(out, out, out);
  }

  lemma ProcessStep(prompt: bytes, e: Editor, data: bytes, k: Key)
    requires Consistent(e) && data != [] && k == NextKey(data)
    ensures k.Incomplete? ==> Process(prompt, e, data) == Processed(e, data, Emitted([], []))
    ensures k.Key? ==>
              var step := Effect(prompt, e, k);
              var rest := Process(prompt, step.0, data[k.used..]);
              Process(prompt, e, data) == Processed(rest.editor, rest.pending, Join(step.1, rest.out))
  {
  }

  lemma RunningStep(prompt: bytes, whole: Processed, e: Editor, rest: bytes, out: Emitted, k: Key)
    requires Running(prompt, whole, e, rest, out) && rest != [] && k == NextKey(rest)
    ensures k.Incomplete? ==> whole == Processed(e, rest, out)
    ensures k.Key? ==>
              var step := Effect(prompt, e, k);
              Running(prompt, whole, step.0, rest[k.used..], Join(out, step.1))
  {
    ProcessStep(prompt, e, rest, k);
    if k.Key? {
      var step := Effect(prompt, e, k);
      JoinLaws(out, step.1, Process(prompt, step.0, rest[k.used..]).out);
    } else {
      JoinLaws(out, out, out);
    }
  }
}
