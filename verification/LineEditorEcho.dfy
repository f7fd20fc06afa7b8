/** What the user sees: the terminal row driven by the editor's echo shows the prompt and the line. */
module LineEditorEcho {
  import opened Common
  import opened LineEditor
  import opened LineEditorProperties

  const BS: byte := 0x08
  const ERASE: bytes := [ESC, '[' as int, '2' as int, 'K' as int]

  /** One terminal row: the cells left of the cursor, the cells from the cursor on, an unfinished escape. */
  datatype Row = Row(left: bytes, right: bytes, escape: bytes)

  /** Printable characters overwrite, backspace and CR only move, ESC [ 2 K blanks the row. */
  function Show(t: Row, b: byte): Row {
    if t.escape != [] || b == ESC then
      var seen := t.escape + [b];
      if seen == ERASE then Row(Repeat(0x20, |t.left|), [], [])
      else if |seen| < |ERASE| && seen == ERASE[..|seen|] then t.(escape := seen)
      else t.(escape := [])
    else if 0x20 <= b <= 0x7E then
      Row(t.left + [b], if t.right == [] then [] else t.right[1..], [])
    else if b == BS && t.left != [] then
      Row(t.left[..|t.left| - 1], [t.left[|t.left| - 1]] + t.right, [])
    else if b == CR then Row([], t.left + t.right, [])
    else t
  }

  function ShowAll(t: Row, echo: bytes): Row
    decreases |echo|
  {
    if echo == [] then t else ShowAll(Show(t, echo[0]), echo[1..])
  }

  /** The prompt and the line are on the row, the cursor is behind them, nothing else is visible. */
  predicate Displays(t: Row, prompt: bytes, line: bytes) {
    t.left == prompt + line && Blanks(t.right) && t.escape == []
  }

  predicate Blanks(s: bytes) {
    forall i :: 0 <= i < |s| ==> s[i] == 0x20
  }

  /** Keys that stay on the row; Enter and Ctrl-C leave it to the device's next prompt. */
  predicate StaysOnRow(data: bytes)
    decreases |data|
  {
    data == [] || NextKey(data).Incomplete?
    || (var k := NextKey(data);
        !LeavesRow(k.action) && StaysOnRow(data[k.used..]))
  }

  lemma {:induction false} ShowSplit(t: Row, a: bytes, b: bytes)
    ensures ShowAll(t, a + b) == ShowAll(ShowAll(t, a), b)
    decreases |a|
  {
    if a == [] {
      assert a + b == b;
    } else {
      assert (a + b)[0] == a[0] && (a + b)[1..] == a[1..] + b;
      ShowSplit(Show(t, a[0]), a[1..], b);
    }
  }

  lemma ShowFirst(t: Row, b: byte, rest: bytes)
    ensures ShowAll(t, [b] + rest) == ShowAll(Show(t, b), rest)
  {
    assert ([b] + rest)[1..] == rest;
  }

  lemma {:induction false} ShowPrintables(t: Row, s: bytes)
    requires Printable(s) && t.escape == [] && Blanks(t.right)
    ensures var r := ShowAll(t, s); r.left == t.left + s && Blanks(r.right) && r.escape == []
    decreases |s|
  {
    if s == [] {
      assert t.left + s == t.left;
    } else {
      ShowPrintables(Show(t, s[0]), s[1..]);
      assert t.left + [s[0]] + s[1..] == t.left + s;
    }
  }

  lemma EscapeGrows(t: Row, i: nat)
    requires i < 3 && t.escape == ERASE[..i]
    ensures Show(t, ERASE[i]) == t.(escape := ERASE[..i + 1])
  {
    assert ERASE[..i] + [ERASE[i]] == ERASE[..i + 1];
  }

  lemma EscapeEnds(t: Row)
    requires t.escape == ERASE[..3]
    ensures Show(t, ERASE[3]) == Row(Repeat(0x20, |t.left|), [], [])
  {
    assert ERASE[..3] + [ERASE[3]] == ERASE;
  }

  lemma ShowEscape(t: Row, i: nat)
    requires i <= 3 && t.escape == ERASE[..i] && t.left == []
    ensures ShowAll(t, ERASE[i..]) == Row([], [], [])
    decreases 3 - i
  {
    hide Show, ERASE;
    assert |ERASE| == 4 by {
      EraseLength();
    }
    assert ERASE[i..][0] == ERASE[i] && ERASE[i..][1..] == ERASE[i + 1..];
    if i < 3 {
      EscapeGrows(t, i);
      ShowEscape(t.(escape := ERASE[..i + 1]), i + 1);
    } else {
      EscapeEnds(t);
    }
  }

  lemma EraseLength()
    ensures |ERASE| == 4
  {
  }

  lemma ShowErase(t: Row)
    requires t.escape == [] && t.left == []
    ensures ShowAll(t, ERASE) == Row([], [], [])
  {
    assert ERASE[0..] == ERASE && ERASE[..0] == [];
    ShowEscape(t, 0);
  }

  /** After the cursor is home and the row is blank, printing a text shows just that text. */
  lemma ShowFromHome(home: Row, text: bytes)
    requires home.escape == [] && home.left == [] && Printable(text)
    ensures var r := ShowAll(home, ERASE + text); r.left == text && Blanks(r.right) && r.escape == []
  {
    ShowSplit(home, ERASE, text);
    ShowErase(home);
    ShowPrintables(Row([], [], []), text);
    assert [] + text == text;
  }

  lemma RedrawParts(prompt: bytes, line: bytes)
    ensures Redraw(prompt, line) == [CR] + (ERASE + (prompt + line))
  {
    assert [CR, ESC, '[' as int, '2' as int, 'K' as int] == [CR] + ERASE;
    Reassociate([CR] + ERASE, prompt, line);
    Reassociate([CR], ERASE, prompt + line);
  }

  lemma ShowRedraw(t: Row, prompt: bytes, line: bytes)
    requires t.escape == [] && Printable(prompt) && Printable(line)
    ensures Displays(ShowAll(t, Redraw(prompt, line)), prompt, line)
  {
    var home := Row([], t.left + t.right, []);
    assert Show(t, CR) == home;
    hide Show, ShowAll, Redraw;
    RedrawParts(prompt, line);
    ShowFirst(t, CR, ERASE + (prompt + line));
    ShowFromHome(home, prompt + line);
  }

  lemma ShowBackspace(t: Row, prompt: bytes, line: bytes)
    requires Displays(t, prompt, line) && line != []
    ensures Displays(ShowAll(t, [BS, 0x20, BS]), prompt, line[..|line| - 1])
  {
    var n := |line| - 1;
    var t1 := Show(t, BS);
    assert t1 == Row(prompt + line[..n], [line[n]] + t.right, []);
    var t2 := Show(t1, 0x20);
    assert t2 == Row(prompt + line[..n] + [0x20], t.right, []);
    var t3 := Show(t2, BS);
    assert t3 == Row(prompt + line[..n], [0x20] + t.right, []);
    assert [BS, 0x20, BS] == [BS] + ([0x20] + ([BS] + []));
    ShowFirst(t, BS, [0x20] + ([BS] + []));
    ShowFirst(t1, 0x20, [BS] + []);
    ShowFirst(t2, BS, []);
  }

  lemma NothingShown(t: Row)
    ensures ShowAll(t, []) == t
  {
  }

  lemma ShowTyped(t: Row, prompt: bytes, line: bytes, key: byte)
    requires Displays(t, prompt, line) && 0x20 <= key <= 0x7E
    ensures Displays(ShowAll(t, [key]), prompt, line + [key])
  {
    ShowFirst(t, key, []);
    assert [key] + [] == [key] && prompt + line + [key] == prompt + (line + [key]);
  }

  lemma ShowKey(prompt: bytes, e: Editor, data: bytes, t: Row)
    requires Sane(e) && Printable(prompt) && data != [] && NextKey(data).Key?
    requires !LeavesRow(NextKey(data).action)
    requires Displays(t, prompt, e.line)
    ensures var step := Effect(prompt, e, NextKey(data));
            Sane(step.0) && Displays(ShowAll(t, step.1.echo), prompt, step.0.line)
  {
    hide Show, ShowAll;
    var a := NextKey(data).action;
    var step := Effect(prompt, e, NextKey(data));
    NothingShown(t);
    OneKeyFollows(prompt, e, data, Remote(e.line, []));
    NextKeyIsWellFormed(data);
    if a.Type? {
      ShowTyped(t, prompt, e.line, a.key);
    } else if a.Backspace? {
      if e.line != [] {
        ShowBackspace(t, prompt, e.line);
      }
    } else if step.1.echo != [] {
      assert step.1.echo == Redraw(prompt, step.0.line);
      ShowRedraw(t, prompt, step.0.line);
    }
  }

  // ----- across Enter and Ctrl-C

  predicate LeavesRow(a: Action) {
    a.Enter? || a.Interrupt?
  }

  /** What the device prints after a line was entered or abandoned: its prompt on a new row. */
  function PromptRow(prompt: bytes): Row {
    Row(prompt, [], [])
  }

  /** The rows on the terminal after a key stream: those that were left, then the current one. */
  function Screen(prompt: bytes, e: Editor, data: bytes, t: Row): (r: seq<Row>)
    requires Consistent(e)
    ensures |r| >= 1
    decreases |data|
  {
    if data == [] || NextKey(data).Incomplete? then [t]
    else
      var k := NextKey(data);
      var step := Effect(prompt, e, k);
      var shown := ShowAll(t, step.1.echo);
      if LeavesRow(k.action) then [shown] + Screen(prompt, step.0, data[k.used..], PromptRow(prompt))
      else Screen(prompt, step.0, data[k.used..], shown)
  }

  /** The lines as they stood when Enter or Ctrl-C left them. */
  function LinesLeft(prompt: bytes, e: Editor, data: bytes): seq<bytes>
    requires Consistent(e)
    decreases |data|
  {
    if data == [] || NextKey(data).Incomplete? then []
    else
      var k := NextKey(data);
      var rest := LinesLeft(prompt, Effect(prompt, e, k).0, data[k.used..]);
      if LeavesRow(k.action) then [e.line] + rest else rest
  }

  /** The text of the row, wherever the cursor is. */
  predicate Reads(t: Row, text: bytes) {
    var shown := t.left + t.right;
    && t.escape == [] && |shown| >= |text|
    && shown[..|text|] == text && Blanks(shown[|text|..])
  }

  lemma LeavingKey(prompt: bytes, e: Editor, data: bytes, t: Row)
    requires Sane(e) && Displays(t, prompt, e.line)
    requires data != [] && NextKey(data).Key? && LeavesRow(NextKey(data).action)
    ensures var step := Effect(prompt, e, NextKey(data));
            && Sane(step.0) && Reads(ShowAll(t, step.1.echo), prompt + e.line)
            && Displays(PromptRow(prompt), prompt, step.0.line)
  {
    OneKeyFollows(prompt, e, data, Remote(e.line, []));
    NextKeyIsWellFormed(data);
    assert prompt + [] == prompt;
    var text, shown := prompt + e.line, t.left + t.right;
    assert shown[..|text|] == text && shown[|text|..] == t.right;
    assert [] + shown == shown;
    NothingShown(Show(t, CR));
    NothingShown(Show(t, LF));
  }

  /**
   Over every key stream: the current row shows the prompt and the editor's line with the cursor
   behind it, and every row left by Enter or Ctrl-C still reads as the prompt and the line it held.
   */
  lemma {:induction false} EchoShowsTheLine(prompt: bytes, e: Editor, data: bytes, t: Row)
    requires Sane(e) && Printable(prompt) && Displays(t, prompt, e.line)
    ensures var (rows, lines) := (Screen(prompt, e, data, t), LinesLeft(prompt, e, data));
            && |rows| == |lines| + 1
            && Displays(rows[|lines|], prompt, Process(prompt, e, data).editor.line)
            && forall i :: 0 <= i < |lines| ==> Reads(rows[i], prompt + lines[i])
    decreases |data|
  {
    hide Show, ShowAll, Effect, Displays, Reads, PromptRow;
    if data != [] && NextKey(data).Key? {
      var k := NextKey(data);
      ProcessStep(prompt, e, data, k);
      var step, rest := Effect(prompt, e, k), data[k.used..];
      if LeavesRow(k.action) {
        LeavingKey(prompt, e, data, t);
        EchoShowsTheLine(prompt, step.0, rest, PromptRow(prompt));
      } else {
        ShowKey(prompt, e, data, t);
        EchoShowsTheLine(prompt, step.0, rest, ShowAll(t, step.1.echo));
      }
    }
  }

  /** Between two such keys the rows are driven by nothing but the echo that `process` returns. */
  lemma {:induction false} ScreenIsTheEcho(prompt: bytes, e: Editor, data: bytes, t: Row)
    requires Consistent(e) && StaysOnRow(data)
    ensures Screen(prompt, e, data, t) == [ShowAll(t, Process(prompt, e, data).out.echo)]
    decreases |data|
  {
    hide Show, ShowAll, Effect;
    if data != [] && NextKey(data).Key? {
      var k := NextKey(data);
      ProcessStep(prompt, e, data, k);
      var step, rest := Effect(prompt, e, k), data[k.used..];
      var t' := ShowAll(t, step.1.echo);
      ScreenIsTheEcho(prompt, step.0, rest, t');
      ShowSplit(t, step.1.echo, Process(prompt, step.0, rest).out.echo);
    } else {
      NothingShown(t);
    }
  }

  /** Hence the echo of one call keeps the row and the line in step while no such key is pressed. */
  lemma RowShowsTheLine(prompt: bytes, e: Editor, data: bytes, t: Row)
    requires Sane(e) && Printable(prompt) && Displays(t, prompt, e.line) && StaysOnRow(data)
    ensures var p := Process(prompt, e, data);
            Displays(ShowAll(t, p.out.echo), prompt, p.editor.line)
  {
    hide Show, ShowAll, Displays, Process, LinesLeft;
    EchoShowsTheLine(prompt, e, data, t);
    ScreenIsTheEcho(prompt, e, data, t);
  }
}
