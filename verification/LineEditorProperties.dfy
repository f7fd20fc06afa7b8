/** What the line editor promises over every key stream. */
module LineEditorProperties {
  import opened Common
  import opened LineEditor

  // ----- splitting a key stream anywhere

  lemma {:induction false} FindFinalStable(a: bytes, b: bytes, i: nat)
    requires i <= |a|
    ensures FindFinal(a, i) < |a| ==> FindFinal(a + b, i) == FindFinal(a, i)
    decreases |a| - i
  {
    if i < |a| && !IsFinal(a[i]) {
      FindFinalStable(a, b, i + 1);
    }
  }

  lemma NextKeyStable(a: bytes, b: bytes)
    requires a != [] && NextKey(a).Key?
    ensures NextKey(a + b) == NextKey(a)
  {
    assert (a + b)[0] == a[0];
    if |a| >= 2 {
      assert (a + b)[1] == a[1];
      FindFinalStable(a, b, 2);
    }
  }

  /**
   Feeding a stream in two pieces, cut anywhere (inside an escape sequence too), ends in the same
   state with the same bytes on both sides as feeding it whole.
   */
  lemma {:induction false} KeysMayArriveInPieces(prompt: bytes, e: Editor, a: bytes, b: bytes)
    requires Consistent(e)
    ensures var first := Process(prompt, e, a);
            var second := Process(prompt, first.editor, first.pending + b);
            Process(prompt, e, a + b) == Processed(second.editor, second.pending, Join(first.out, second.out))
    decreases |a|
  {
    hide Process, Apply, NextKey;
    if a == [] {
      assert a + b == b && [] + b == b;
      ProcessNothing(prompt, e);
      JoinNothing(Process(prompt, e, b).out);
    } else {
      var k := NextKey(a);
      ProcessStep(prompt, e, a, k);
      if k.Incomplete? {
        JoinNothing(Process(prompt, e, a + b).out);
      } else {
        NextKeyStable(a, b);
        ProcessStep(prompt, e, a + b, k);
        assert (a + b)[k.used..] == a[k.used..] + b;
        var step := Effect(prompt, e, k);
        KeysMayArriveInPieces(prompt, step.0, a[k.used..], b);
        JoinAssociative(step.1, Process(prompt, step.0, a[k.used..]), b, prompt);
      }
    }
  }

  lemma ProcessNothing(prompt: bytes, e: Editor)
    requires Consistent(e)
    ensures Process(prompt, e, []) == Processed(e, [], Emitted([], []))
  {
  }

  lemma JoinNothing(a: Emitted)
    ensures Join(Emitted([], []), a) == a
  {
    JoinLaws(a, a, a);
  }

  lemma JoinAssociative(a: Emitted, first: Processed, b: bytes, prompt: bytes)
    requires Consistent(first.editor)
    ensures var c := Process(prompt, first.editor, first.pending + b).out;
            Join(Join(a, first.out), c) == Join(a, Join(first.out, c))
  {
    JoinLaws(a, first.out, Process(prompt, first.editor, first.pending + b).out);
  }

  // ----- the remote line follows the editor

  predicate Printable(s: bytes) {
    forall i :: 0 <= i < |s| ==> 0x20 <= s[i] <= 0x7E
  }

  predicate AllPrintable(ls: seq<bytes>) {
    forall i :: 0 <= i < |ls| ==> Printable(ls[i])
  }

  /** Everything the editor could ever put on the line is printable. */
  predicate Sane(e: Editor) {
    Consistent(e) && Printable(e.line) && Printable(e.draft) && AllPrintable(e.history)
  }

  /** The device's line discipline: the line being edited and the lines committed so far. */
  datatype Remote = Remote(line: bytes, committed: seq<bytes>)

  function Receive(r: Remote, b: byte): Remote {
    if 0x20 <= b <= 0x7E then r.(line := r.line + [b])
    else if b == DEL then r.(line := if r.line == [] then [] else r.line[..|r.line| - 1])
    else if b == ETX then r.(line := [])
    else if b == CR || b == LF then Remote([], r.committed + [r.line])
    else r
  }

  function ReceiveAll(r: Remote, wire: bytes): Remote
    decreases |wire|
  {
    if wire == [] then r else ReceiveAll(Receive(r, wire[0]), wire[1..])
  }

  lemma {:induction false} ReceiveSplit(r: Remote, a: bytes, b: bytes)
    ensures ReceiveAll(r, a + b) == ReceiveAll(ReceiveAll(r, a), b)
    decreases |a|
  {
    if a == [] {
      assert a + b == b;
    } else {
      assert (a + b)[0] == a[0] && (a + b)[1..] == a[1..] + b;
      ReceiveSplit(Receive(r, a[0]), a[1..], b);
    }
  }

  lemma {:induction false} DeletesClear(r: Remote, n: nat)
    requires n == |r.line|
    ensures ReceiveAll(r, Repeat(DEL, n)) == r.(line := [])
    decreases n
  {
    if n > 0 {
      assert Repeat(DEL, n)[1..] == Repeat(DEL, n - 1);
      DeletesClear(Receive(r, DEL), n - 1);
    }
  }

  lemma {:induction false} PrintablesAppend(r: Remote, s: bytes)
    requires Printable(s)
    ensures ReceiveAll(r, s) == r.(line := r.line + s)
    decreases |s|
  {
    if s == [] {
      assert r.line + s == r.line;
    } else {
      PrintablesAppend(Receive(r, s[0]), s[1..]);
      assert r.line + [s[0]] + s[1..] == r.line + s;
    }
  }

  lemma RemoteFollowsReplacement(r: Remote, line: bytes)
    requires Printable(line)
    ensures ReceiveAll(r, Repeat(DEL, |r.line|) + line) == r.(line := line)
  {
    ReceiveSplit(r, Repeat(DEL, |r.line|), line);
    DeletesClear(r, |r.line|);
    PrintablesAppend(r.(line := []), line);
    assert [] + line == line;
  }

  lemma {:induction false} StripIsPrintable(s: bytes)
    requires Printable(s)
    ensures Printable(Strip(s))
    decreases |s|
  {
    if s != [] && IsSpace(s[0]) {
      StripIsPrintable(s[1..]);
    } else if s != [] && IsSpace(s[|s| - 1]) {
      StripIsPrintable(s[..|s| - 1]);
    }
  }

  /** The line a key hands over, if it is an Enter. */
  function Submits(e: Editor, a: Action): seq<bytes> {
    if a.Enter? then [e.line] else []
  }

  /** The lines entered by a key stream: the editor's line at each CR or LF. */
  function Entered(prompt: bytes, e: Editor, data: bytes): seq<bytes>
    requires Consistent(e)
    decreases |data|
  {
    if data == [] || NextKey(data).Incomplete? then []
    else
      var k := NextKey(data);
      Submits(e, k.action) + Entered(prompt, Effect(prompt, e, k).0, data[k.used..])
  }

  lemma HistoryKeysFollow(prompt: bytes, e: Editor, a: Action, r: Remote)
    requires Sane(e) && r.line == e.line && (a.Up? || a.Down?)
    ensures var step := Apply(prompt, e, a);
            Sane(step.0) && ReceiveAll(r, step.1.wire) == r.(line := step.0.line)
  {
    var step := Apply(prompt, e, a);
    if step.1.wire != [] {
      RemoteFollowsReplacement(r, step.0.line);
    }
  }

  lemma OtherKeysFollow(prompt: bytes, e: Editor, a: Action, r: Remote)
    requires Sane(e) && r.line == e.line && !a.Up? && !a.Down?
    requires a.Type? ==> 0x20 <= a.key <= 0x7E
    requires a.Enter? ==> a.key == CR || a.key == LF
    ensures var step := Apply(prompt, e, a);
            Sane(step.0) && ReceiveAll(r, step.1.wire) == Remote(step.0.line, r.committed + Submits(e, a))
  {
    var step := Apply(prompt, e, a);
    StripIsPrintable(e.line);
    assert r.committed + [] == r.committed;
    if a.KillLine? {
      RemoteFollowsReplacement(r, []);
    } else if step.1.wire != [] {
      assert step.1.wire[1..] == [];
      assert ReceiveAll(r, step.1.wire) == Receive(r, step.1.wire[0]);
    }
  }

  lemma NextKeyIsWellFormed(data: bytes)
    requires data != [] && NextKey(data).Key?
    ensures var a := NextKey(data).action;
            (a.Type? ==> 0x20 <= a.key <= 0x7E) && (a.Enter? ==> a.key == CR || a.key == LF)
  {
  }

  lemma OneKeyFollows(prompt: bytes, e: Editor, data: bytes, r: Remote)
    requires data != [] && NextKey(data).Key? && Sane(e) && r.line == e.line
    ensures var k := NextKey(data);
            var step := Effect(prompt, e, k);
            Sane(step.0) && ReceiveAll(r, step.1.wire) == Remote(step.0.line, r.committed + Submits(e, k.action))
  {
    var k := NextKey(data);
    NextKeyIsWellFormed(data);
    if k.action.Up? || k.action.Down? {
      HistoryKeysFollow(prompt, e, k.action, r);
      assert r.committed + [] == r.committed;
    } else {
      OtherKeysFollow(prompt, e, k.action, r);
    }
  }

  /**
   The simulation: over every key stream, the device's line is the editor's line and the device
   commits exactly the lines that were entered.
   */
  lemma {:induction false} RemoteFollows(prompt: bytes, e: Editor, data: bytes, r: Remote)
    requires Sane(e) && r.line == e.line
    ensures var p := Process(prompt, e, data);
            && Sane(p.editor)
            && ReceiveAll(r, p.out.wire) == Remote(p.editor.line, r.committed + Entered(prompt, e, data))
    decreases |data|
  {
    if data == [] || NextKey(data).Incomplete? {
      assert r.committed + [] == r.committed;
    } else {
      var k := NextKey(data);
      var step, rest := Effect(prompt, e, k), data[k.used..];
      ProcessStep(prompt, e, data, k);
      EnteredStep(prompt, e, data, k, rest);
      OneKeyFollows(prompt, e, data, r);
      RemoteFollows(prompt, step.0, rest, ReceiveAll(r, step.1.wire));
      ReceiveSplit(r, step.1.wire, Process(prompt, step.0, rest).out.wire);
      Reassociate(r.committed, Submits(e, k.action), Entered(prompt, step.0, rest));
    }
  }

  // ----- what the history is

  predicate Trimmed(s: bytes) {
    s != [] ==> !IsSpace(s[0]) && !IsSpace(s[|s| - 1])
  }

  predicate Blank(s: bytes) {
    forall i :: 0 <= i < |s| ==> IsSpace(s[i])
  }

  /** Stripping cuts blanks off both ends and nothing else. */
  lemma {:induction false} StripIsExact(s: bytes) returns (i: nat, j: nat)
    ensures i <= j <= |s| && Strip(s) == s[i..j]
    ensures Blank(s[..i]) && Blank(s[j..])
    ensures Trimmed(Strip(s))
    decreases |s|
  {
    StripStep(s);
    hide Strip, Trimmed;
    if s == [] {
      i, j := 0, 0;
    } else if IsSpace(s[0]) {
      i, j := StripIsExact(s[1..]);
      ShiftedSlices(s, i, j);
      i, j := i + 1, j + 1;
    } else if IsSpace(s[|s| - 1]) {
      i, j := StripIsExact(s[..|s| - 1]);
      CutSlices(s, i, j);
    } else {
      i, j := 0, |s|;
      assert s[0..|s|] == s;
    }
  }

  lemma StripStep(s: bytes)
    ensures s == [] ==> Strip(s) == []
    ensures s != [] && IsSpace(s[0]) ==> Strip(s) == Strip(s[1..])
    ensures s != [] && !IsSpace(s[0]) && IsSpace(s[|s| - 1]) ==> Strip(s) == Strip(s[..|s| - 1])
    ensures s != [] && !IsSpace(s[0]) && !IsSpace(s[|s| - 1]) ==> Strip(s) == s
    ensures s == [] || (!IsSpace(s[0]) && !IsSpace(s[|s| - 1])) ==> Trimmed(s)
  {
  }

  lemma CutSlices(s: bytes, i: nat, j: nat)
    requires s != [] && i <= j < |s|
    ensures var front := s[..|s| - 1];
            && front[i..j] == s[i..j] && front[..i] == s[..i]
            && (Blank(front[j..]) && IsSpace(s[|s| - 1]) ==> Blank(s[j..]))
  {
    assert s[j..] == s[..|s| - 1][j..] + [s[|s| - 1]];
  }

  lemma ShiftedSlices(s: bytes, i: nat, j: nat)
    requires s != [] && i <= j < |s|
    ensures s[1..][i..j] == s[i + 1..j + 1] && s[1..][j..] == s[j + 1..]
    ensures Blank(s[1..][..i]) && IsSpace(s[0]) ==> Blank(s[..i + 1])
  {
    assert s[..i + 1] == [s[0]] + s[1..][..i];
  }

  /** All commands ever entered: stripped, blanks dropped, immediate repeats dropped. */
  function Commands(lines: seq<bytes>): seq<bytes> {
    if lines == [] then []
    else
      var before := Commands(lines[..|lines| - 1]);
      var command := Strip(lines[|lines| - 1]);
      if command == [] || (before != [] && before[|before| - 1] == command) then before else before + [command]
  }

  predicate CleanHistory(h: seq<bytes>) {
    && (forall i :: 0 <= i < |h| ==> h[i] != [] && Trimmed(h[i]) && Printable(h[i]))
    && (forall i :: 0 < i < |h| ==> h[i - 1] != h[i])
  }

  lemma {:induction false} CommandsAreClean(lines: seq<bytes>)
    requires AllPrintable(lines)
    ensures CleanHistory(Commands(lines))
  {
    hide Strip;
    if lines != [] {
      var n := |lines| - 1;
      CommandsAreClean(lines[..n]);
      assert Printable(lines[n]);
      StripIsPrintable(lines[n]);
      var _, _ := StripIsExact(lines[n]);
    }
  }

  lemma LastNStep(all: seq<bytes>, n: nat, x: bytes)
    requires n > 0
    ensures LastN(LastN(all, n) + [x], n) == LastN(all + [x], n)
    ensures all != [] ==> LastN(all, n) != [] && LastN(all, n)[|LastN(all, n)| - 1] == all[|all| - 1]
    ensures all == [] ==> LastN(all, n) == []
  {
  }

  lemma RememberStep(lines: seq<bytes>, line: bytes)
    ensures Remember(LastN(Commands(lines), LIMIT), line) == LastN(Commands(lines + [line]), LIMIT)
  {
    assert (lines + [line])[..|lines|] == lines;
    LastNStep(Commands(lines), LIMIT, Strip(line));
  }

  lemma HistoryStep(prompt: bytes, e: Editor, lines: seq<bytes>, a: Action)
    requires Consistent(e) && e.history == LastN(Commands(lines), LIMIT)
    ensures Apply(prompt, e, a).0.history == LastN(Commands(lines + Submits(e, a)), LIMIT)
  {
    if a.Enter? {
      RememberStep(lines, e.line);
    } else {
      assert lines + [] == lines;
    }
  }

  lemma EnteredStep(prompt: bytes, e: Editor, data: bytes, k: Key, rest: bytes)
    requires Consistent(e) && data != [] && k == NextKey(data) && k.Key? && rest == data[k.used..]
    ensures var next := Effect(prompt, e, k).0;
            && Process(prompt, e, data).editor == Process(prompt, next, rest).editor
            && Entered(prompt, e, data) == Submits(e, k.action) + Entered(prompt, next, rest)
            && next == Apply(prompt, e, k.action).0
  {
  }

  /** After any session the history is the newest 32 of all commands entered, and nothing else. */
  lemma {:induction false} HistoryIsNewestCommands(prompt: bytes, e: Editor, lines: seq<bytes>, data: bytes)
    requires Consistent(e) && e.history == LastN(Commands(lines), LIMIT)
    ensures Process(prompt, e, data).editor.history
         == LastN(Commands(lines + Entered(prompt, e, data)), LIMIT)
    decreases |data|
  {
    if data == [] || NextKey(data).Incomplete? {
      assert lines + [] == lines;
    } else {
      var k := NextKey(data);
      var rest := data[k.used..];
      EnteredStep(prompt, e, data, k, rest);
      HistoryStep(prompt, e, lines, k.action);
      HistoryIsNewestCommands(prompt, Effect(prompt, e, k).0, lines + Submits(e, k.action), rest);
      Reassociate(lines, Submits(e, k.action), Entered(prompt, Effect(prompt, e, k).0, rest));
    }
  }

  lemma Reassociate<T>(a: seq<T>, b: seq<T>, c: seq<T>)
    ensures a + b + c == a + (b + c)
  {
  }

  const FRESH: Editor := Editor([], [], None, [])

  /** The invariant of every session that starts with a new editor. */
  lemma SessionHistory(prompt: bytes, data: bytes)
    ensures var h := Process(prompt, FRESH, data).editor.history;
            |h| <= LIMIT && CleanHistory(h) && h == LastN(Commands(Entered(prompt, FRESH, data)), LIMIT)
  {
    var entered := Entered(prompt, FRESH, data);
    assert [] + entered == entered;
    HistoryIsNewestCommands(prompt, FRESH, [], data);
    EnteredIsPrintable(prompt, FRESH, data);
    CommandsAreClean(entered);
  }

  lemma {:induction false} EnteredIsPrintable(prompt: bytes, e: Editor, data: bytes)
    requires Sane(e)
    ensures AllPrintable(Entered(prompt, e, data))
    decreases |data|
  {
    if data != [] && NextKey(data).Key? {
      var k := NextKey(data);
      OneKeyFollows(prompt, e, data, Remote(e.line, []));
      EnteredIsPrintable(prompt, Effect(prompt, e, k).0, data[k.used..]);
    }
  }

  // ----- browsing the history

  /** A byte string that is one complete key, in any of its encodings. */
  predicate IsKey(key: bytes, a: Action) {
    key != [] && NextKey(key) == Key(a, |key|)
  }

  predicate AreKeys(keys: seq<bytes>, a: Action) {
    forall i :: 0 <= i < |keys| ==> IsKey(keys[i], a)
  }

  lemma ArrowEncodings()
    ensures IsKey([ESC, '[' as int, 'A' as int], Up) && IsKey([ESC, '[' as int, 'B' as int], Down)
    ensures IsKey([0x00, 'H' as int], Up) && IsKey([0x00, 'P' as int], Down)
    ensures IsKey([0xE0, 'H' as int], Up) && IsKey([0xE0, 'P' as int], Down)
  {
    assert FindFinal([ESC, '[' as int, 'A' as int], 2) == 2;
    assert FindFinal([ESC, '[' as int, 'B' as int], 2) == 2;
  }

  function Press(prompt: bytes, e: Editor, a: Action, n: nat): (r: Editor)
    requires Consistent(e)
    ensures Consistent(r)
    decreases n
  {
    if n == 0 then e
    else
      ApplyKeepsConsistent(prompt, e, a);
      Press(prompt, Apply(prompt, e, a).0, a, n - 1)
  }

  lemma {:induction false} ProcessPresses(prompt: bytes, e: Editor, a: Action, keys: seq<bytes>, rest: bytes)
    requires Consistent(e) && AreKeys(keys, a)
    ensures var pressed := Press(prompt, e, a, |keys|);
            var whole, tail := Process(prompt, e, Flatten(keys) + rest), Process(prompt, pressed, rest);
            whole.editor == tail.editor && whole.pending == tail.pending
    decreases |keys|
  {
    if keys == [] {
      assert [] + rest == rest;
    } else {
      var key, more := keys[0], Flatten(keys[1..]) + rest;
      assert Flatten(keys) + rest == key + more;
      assert IsKey(keys[0], a);
      hide Process, Apply, NextKey, IsKey;
      ProcessOnePress(prompt, e, a, key, more);
      ApplyKeepsConsistent(prompt, e, a);
      ProcessPresses(prompt, Apply(prompt, e, a).0, a, keys[1..], rest);
    }
  }

  lemma ProcessOnePress(prompt: bytes, e: Editor, a: Action, key: bytes, more: bytes)
    requires Consistent(e) && IsKey(key, a)
    ensures var next := Apply(prompt, e, a).0;
            && Consistent(next)
            && Process(prompt, e, key + more).editor == Process(prompt, next, more).editor
            && Process(prompt, e, key + more).pending == Process(prompt, next, more).pending
  {
    NextKeyStable(key, more);
    ProcessStep(prompt, e, key + more, NextKey(key));
    assert (key + more)[|key|..] == more;
    ApplyKeepsConsistent(prompt, e, a);
  }

  function Min(a: nat, b: nat): nat {
    if a < b then a else b
  }

  /** The editor while the entry `back` places from the end is shown and `draft` is set aside. */
  function Browsing(e: Editor, draft: bytes, back: nat): Editor
    requires 1 <= back <= |e.history|
  {
    var i := |e.history| - back;
    Editor(e.history, e.history[i], Some(i), draft)
  }

  lemma {:induction false} PressUp(prompt: bytes, e: Editor, draft: bytes, back: nat, n: nat)
    requires 1 <= back <= |e.history|
    ensures Press(prompt, Browsing(e, draft, back), Up, n) == Browsing(e, draft, Min(back + n, |e.history|))
    decreases n
  {
    if n > 0 {
      var b := Browsing(e, draft, back);
      var next := Min(back + 1, |e.history|);
      assert Apply(prompt, b, Up).0 == Browsing(e, draft, next);
      PressUp(prompt, e, draft, next, n - 1);
    }
  }

  lemma {:induction false} PressDown(prompt: bytes, e: Editor, draft: bytes, back: nat, n: nat)
    requires 1 <= back <= |e.history|
    ensures Press(prompt, Browsing(e, draft, back), Down, n)
         == if n < back then Browsing(e, draft, back - n) else Editor(e.history, draft, None, draft)
    decreases n
  {
    if n > 0 {
      var b := Browsing(e, draft, back);
      if back == 1 {
        assert Apply(prompt, b, Down).0 == Editor(e.history, draft, None, draft);
        PressDownIdle(prompt, Editor(e.history, draft, None, draft), n - 1);
      } else {
        assert Apply(prompt, b, Down).0 == Browsing(e, draft, back - 1);
        PressDown(prompt, e, draft, back - 1, n - 1);
      }
    }
  }

  lemma {:induction false} PressDownIdle(prompt: bytes, e: Editor, n: nat)
    requires e.index.None?
    ensures Press(prompt, e, Down, n) == e
    decreases n
  {
    if n > 0 {
      PressDownIdle(prompt, e, n - 1);
    }
  }

  lemma {:induction false} PressUpIdle(prompt: bytes, e: Editor, n: nat)
    requires Consistent(e) && e.history == []
    ensures Press(prompt, e, Up, n) == e
    decreases n
  {
    if n > 0 {
      PressUpIdle(prompt, e, n - 1);
    }
  }

  lemma PressUpFromDraft(prompt: bytes, e: Editor, n: nat)
    requires e.index.None? && n > 0 && e.history != []
    ensures Press(prompt, e, Up, n) == Browsing(e, e.line, Min(n, |e.history|))
  {
    assert Apply(prompt, e, Up).0 == Browsing(e, e.line, 1);
    PressUp(prompt, e, e.line, 1, n - 1);
  }

  lemma UpsThenDowns(prompt: bytes, e: Editor, ups: nat, downs: nat)
    requires Consistent(e) && e.index.None?
    ensures var back := Min(ups, |e.history|);
            var r := Press(prompt, Press(prompt, e, Up, ups), Down, downs);
            && r.history == e.history
            && (r.index.None? <==> downs >= back)
            && r.line == if downs >= back then e.line else e.history[|e.history| - back + downs]
  {
    if ups > 0 && e.history != [] {
      PressUpFromDraft(prompt, e, ups);
      PressDown(prompt, e, e.line, Min(ups, |e.history|), downs);
    } else {
      PressUpIdleOrNone(prompt, e, ups);
      PressDownIdle(prompt, e, downs);
    }
  }

  /**
   Up keys and then down keys, in any encodings: the draft is back exactly when there were at least
   min(ups, entries) downs, and before that the entry shown is the one that many places on.
   */
  lemma BrowsingRestoresDraft(prompt: bytes, e: Editor, ups: seq<bytes>, downs: seq<bytes>)
    requires Consistent(e) && e.index.None?
    requires AreKeys(ups, Up) && AreKeys(downs, Down)
    ensures var back := Min(|ups|, |e.history|);
            var r := Process(prompt, e, Flatten(ups) + Flatten(downs));
            && r.pending == [] && r.editor.history == e.history
            && (r.editor.index.None? <==> |downs| >= back)
            && r.editor.line == if |downs| >= back then e.line else e.history[|e.history| - back + |downs|]
  {
    hide Press, NextKey, IsKey;
    ProcessPresses(prompt, e, Up, ups, Flatten(downs));
    ProcessPresses(prompt, Press(prompt, e, Up, |ups|), Down, downs, []);
    assert Flatten(downs) + [] == Flatten(downs);
    UpsThenDowns(prompt, e, |ups|, |downs|);
  }

  /** Every editing key ends browsing: the next up starts from the newest entry and sets aside the line as edited. */
  lemma EditingEndsBrowsing(prompt: bytes, e: Editor, a: Action)
    requires Consistent(e) && !a.Up? && !a.Down? && !a.Ignore?
    ensures var edited := Apply(prompt, e, a).0;
            && edited.index.None?
            && (edited.history != [] ==>
                  HistoryUp(prompt, edited).0 == Browsing(edited, edited.line, 1))
  {
  }

  lemma PressUpIdleOrNone(prompt: bytes, e: Editor, n: nat)
    requires Consistent(e) && (n == 0 || e.history == [])
    ensures Press(prompt, e, Up, n) == e
  {
    if n > 0 {
      PressUpIdle(prompt, e, n);
    }
  }
}
