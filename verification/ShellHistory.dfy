/** The shell's command line and its history: ten slots used in turn, against a log that keeps every
    line, and the recursion of `!n` recall. */
module ShellHistory {
  import opened Bytes
  import opened Names
  import opened Decimal

  const MAX_HISTORY := 10
  const BANG := 0x21

  /** What the 128-byte line buffer can hold. */
  type Line = s: CString | |s| < 128 witness []

  // ---------------------------------------------------------------- recall on an unbounded log

  predicate IsRecall(line: Line) {
    |line| > 1 && line[0] == BANG
  }

  /** The history number after `!`, as the unsigned value that the shell compares. */
  function Argument(line: Line): nat
    requires IsRecall(line)
  {
    AtoiValue(line[1..]) % 0x1_0000_0000
  }

  function WindowStart(n: nat): nat {
    if n > MAX_HISTORY then n - MAX_HISTORY else 0
  }

  /** Executed as the last line of `log`, `line` recalls another line of the window. */
  predicate Recalls(log: seq<Line>, line: Line) {
    IsRecall(line) && WindowStart(|log|) <= Argument(line) < |log|
  }

  function ArgumentOr0(line: Line): nat {
    if IsRecall(line) then Argument(line) else 0
  }

  ghost function MaxArgument(lines: seq<Line>): nat {
    if lines == [] then 0
    else
      var rest, last := MaxArgument(lines[..|lines| - 1]), ArgumentOr0(lines[|lines| - 1]);
      if rest >= last then rest else last
  }

  lemma {:induction false} MaxArgumentCovers(lines: seq<Line>, i: nat)
    requires i < |lines|
    ensures ArgumentOr0(lines[i]) <= MaxArgument(lines)
    decreases |lines|
  {
    if i < |lines| - 1 {
      MaxArgumentCovers(lines[..|lines| - 1], i);
    }
  }

  lemma {:induction false} MaxArgumentSubset(a: seq<Line>, b: seq<Line>)
    requires forall l :: l in a ==> l in b
    ensures MaxArgument(a) <= MaxArgument(b)
    decreases |a|
  {
    if a != [] {
      MaxArgumentSubset(a[..|a| - 1], b);
      assert a[|a| - 1] in a;
      var i :| 0 <= i < |b| && b[i] == a[|a| - 1];
      MaxArgumentCovers(b, i);
    }
  }

  /** The largest `!` argument that can still come up when `line` is executed after `log`. */
  ghost function Horizon(log: seq<Line>, line: Line): nat {
    MaxArgument(log[WindowStart(|log|)..] + [line])
  }

  /** How far the history count is from where no recall in sight can succeed. */
  ghost function Distance(log: seq<Line>, line: Line): nat {
    if Horizon(log, line) + MAX_HISTORY + 1 > |log| then Horizon(log, line) + MAX_HISTORY + 1 - |log| else 0
  }

  /** A recall copies a line of the window, so no new arguments come up while the count grows. */
  lemma {:induction false} RecallGetsCloser(log: seq<Line>, line: Line)
    requires line != [] && Recalls(log + [line], line)
    ensures var log' := log + [line];
            && Horizon(log', log'[Argument(line)]) <= Horizon(log, line)
            && Distance(log', log'[Argument(line)]) < Distance(log, line)
  {
    hide AtoiValue;
    var log', a := log + [line], Argument(line);
    var window, window' := log[WindowStart(|log|)..] + [line], log'[WindowStart(|log'|)..];
    forall l | l in window' + [log'[a]]
      ensures l in window
    {
      assert log'[a] == window'[a - WindowStart(|log'|)];
      var i :| 0 <= i < |window'| && window'[i] == l;
      assert l == log'[WindowStart(|log'|) + i];
      if WindowStart(|log'|) + i < |log| {
        assert l == log[WindowStart(|log'|) + i];
        assert l == window[WindowStart(|log'|) + i - WindowStart(|log|)];
      } else {
        assert l == line == window[|window| - 1];
      }
    }
    MaxArgumentSubset(window' + [log'[a]], window);
    MaxArgumentCovers(window, |window| - 1);
  }

  /** `execute`, as far as history goes: the log after running `line`. */
  ghost function Run(log: seq<Line>, line: Line): (log': seq<Line>)
    ensures log <= log'
    decreases Distance(log, line)
  {
    if line == [] then log
    else
      var saved := log + [line];
      if Recalls(saved, line) then
        RecallGetsCloser(log, line);
        Run(saved, saved[Argument(line)])
      else saved
  }

  /** However recall lines refer to each other, recall ends: the count stays within the window size
      of the largest argument in sight. */
  lemma {:induction false} RunIsBounded(log: seq<Line>, line: Line)
    ensures |Run(log, line)| <= |log| + 1 || |Run(log, line)| <= Horizon(log, line) + MAX_HISTORY + 1
    decreases Distance(log, line)
  {
    if line != [] && Recalls(log + [line], line) {
      RecallGetsCloser(log, line);
      var log' := log + [line];
      RunIsBounded(log', log'[Argument(line)]);
      MaxArgumentCovers(log[WindowStart(|log|)..] + [line], |log| - WindowStart(|log|));
    }
  }

  /** The last line saved is one that recalls nothing; every line saved on the way is the line typed
      or a copy of one the log held. */
  lemma {:induction false} RunEndsPlain(log: seq<Line>, line: Line)
    requires line != [] && [] !in log
    ensures var log' := Run(log, line);
            && log < log' && [] !in log'
            && log'[|log|] == line
            && !Recalls(log', log'[|log'| - 1])
            && forall i :: |log| < i < |log'| ==> log'[i] == line || log'[i] in log
    decreases Distance(log, line)
  {
    hide Argument, IsRecall, Distance, Horizon;
    var saved := log + [line];
    if Recalls(saved, line) {
      var next := saved[Argument(line)];
      RecallGetsCloser(log, line);
      RunEndsPlain(saved, next);
    }
  }

  /** A line that recalls its own number is saved eleven times and then refused. */
  lemma {:induction false} SelfRecall(log: seq<Line>, line: Line)
    requires IsRecall(line) && Argument(line) == |log|
    ensures Run(log, line) == log + seq(MAX_HISTORY + 1, i => line)
  {
    SelfRecallFrom(log, line, 0);
    assert log + seq(0, i => line) == log;
  }

  lemma {:induction false} SelfRecallFrom(log: seq<Line>, line: Line, k: nat)
    requires IsRecall(line) && Argument(line) == |log| && k <= MAX_HISTORY
    ensures Run(log + seq(k, i => line), line) == log + seq(MAX_HISTORY + 1, i => line)
    decreases MAX_HISTORY - k
  {
    var sofar := log + seq(k, i => line);
    assert sofar + [line] == log + seq(k + 1, i => line);
    if k < MAX_HISTORY {
      RecallGetsCloser(sofar, line);
      SelfRecallFrom(log, line, k + 1);
    }
  }

  // ---------------------------------------------------------------- the shell

  /** A key other than the line ends, applied to the line being edited. */
  function EditLine(line: Line, c: byte): Line
    requires c != 0
  {
    if c == 9 then line + seq(Min(4, 127 - |line|), i => 0x20)
    else if c == 8 then if line == [] then line else line[..|line| - 1]
    else if |line| < 127 then line + [c]
    else line
  }

  /** Tab adds four spaces, or as many as still fit in 127 characters. */
  lemma {:induction false} TabAddsSpaces(line: Line)
    ensures var t := EditLine(line, 9);
            && line <= t && |t| == Min(|line| + 4, 127)
            && forall i :: |line| <= i < |t| ==> t[i] == 0x20
  {
  }

  /** Any other key but backspace and the line ends is added while there is room, and backspace takes the
      last character away. */
  lemma {:induction false} KeyThenBackspace(line: Line, c: byte)
    requires c != 0 && c != 8 && c != 9
    ensures EditLine(line, c) == if |line| < 127 then line + [c] else line
    ensures |line| < 127 ==> EditLine(EditLine(line, c), 8) == line
    ensures EditLine([], 8) == []
  {
  }

  /** The log and the line being edited. */
  datatype Session = Session(log: seq<Line>, line: Line)

  /** A run of key presses. */
  ghost function Type(s: Session, keys: seq<byte>): Session
    requires 0 !in keys
    decreases |keys|
  {
    if keys == [] then s
    else
      var t, c := Type(s, keys[..|keys| - 1]), keys[|keys| - 1];
      if c == 10 || c == 13 then Session(Run(t.log, t.line), []) else Session(t.log, EditLine(t.line, c))
  }

  /** The text of a history number and its terminator fit four bytes. */
  predicate NumberFits(n: nat) {
    |Show(n, 10)| < 4
  }

  ghost predicate NumbersFit(count: nat) {
    forall n :: WindowStart(count) <= n < count ==> NumberFits(n)
  }

  /** The numbers listed fit their buffer exactly up to a thousand saved lines. */
  lemma {:induction false} NumbersFitExactly(count: nat)
    ensures NumbersFit(count) <==> count <= 1000
  {
    hide Digits, Power;
    forall n: nat
      ensures NumberFits(n) <==> n < 1000
    {
      DigitsExactly(n, 10, 3);
      ThousandIs();
    }
    assert count > 0 ==> WindowStart(count) <= count - 1 && (NumberFits(count - 1) <==> count <= 1000);
  }

  lemma {:induction false} ThousandIs()
    ensures Power(10, 3) == 1000
  {
    assert Power(10, 1) == 10 * Power(10, 0) && Power(10, 2) == 10 * Power(10, 1);
  }

  lemma {:induction false} ShowHasNoZero(n: nat)
    ensures 0 !in Show(n, 10)
  {
    DigitsAreDecimal(n);
  }

  /** Ordinary keys and a line end: exactly what was typed is executed, and the next line starts empty. */
  lemma {:induction false} TypedLineRuns(log: seq<Line>, keys: Line, end: byte)
    requires end == 10 || end == 13
    requires forall i :: 0 <= i < |keys| ==> keys[i] != 8 && keys[i] != 9 && keys[i] != 10 && keys[i] != 13
    ensures Type(Session(log, []), keys) == Session(log, keys)
    ensures Type(Session(log, []), keys + [end]) == Session(Run(log, keys), [])
    decreases |keys|
  {
    if keys != [] {
      var n := |keys| - 1;
      TypedLineRuns(log, keys[..n], end);
      KeyThenBackspace(keys[..n], keys[n]);
      assert keys[..n] + [keys[n]] == keys;
    }
    assert (keys + [end])[..|keys|] == keys;
  }

  /** An exclamation mark and the number of a line of the window, in decimal, recalls that line; any other
      line recalls nothing. */
  lemma {:induction false} RecallByNumber(log: seq<Line>, n: nat)
    requires n < 0x1_0000_0000 && |Show(n, 10)| < 127
    ensures 0 !in [0x21] + Show(n, 10)
    ensures Recalls(log, [0x21] + Show(n, 10)) <==> n < |log| <= n + 10
  {
    hide Show, Argument, IsRecall;
    RecallArgument(n);
  }

  /** Such a line is saved like any other, and then the line with that number is executed. */
  lemma {:induction false} RecallRunsLine(log: seq<Line>, n: nat)
    requires n <= |log| < n + 10 && n < 0x1_0000_0000 && |Show(n, 10)| < 127
    ensures 0 !in [0x21] + Show(n, 10)
    ensures var saved := log + [[0x21] + Show(n, 10)];
            Run(log, [0x21] + Show(n, 10)) == Run(saved, saved[n])
  {
    hide Show, AtoiValue, Distance, Horizon;
    RecallArgument(n);
    var line: Line := [0x21] + Show(n, 10);
    RecallByNumber(log + [line], n);
  }

  lemma {:induction false} RecallArgument(n: nat)
    requires n < 0x1_0000_0000 && |Show(n, 10)| < 127
    ensures 0 !in [0x21] + Show(n, 10)
    ensures IsRecall([0x21] + Show(n, 10)) && Argument([0x21] + Show(n, 10)) == n
  {
    hide Show, AtoiValue;
    ShowHasNoZero(n);
    ShowIsThere(n);
    ShowThenRead(n);
    assert ([0x21] + Show(n, 10))[1..] == Show(n, 10);
  }

  lemma {:induction false} ShowIsThere(n: nat)
    ensures Show(n, 10) != []
  {
  }

  lemma {:induction false} OthersRecallNothing(log: seq<Line>, line: Line)
    requires |line| <= 1 || line[0] != 0x21
    ensures !Recalls(log, line)
  {
  }

  class Shell {
    const linebuf: array<byte>
    const history: array<Line>
    var idx: nat
    var histCount: nat
    ghost var log: seq<Line>  // every line ever saved

    /** Slot n % 10 holds the n-th saved line for every n in the last-ten window. */
    ghost predicate Valid()
      reads this, linebuf, history
    {
      && linebuf.Length == 128 && history.Length == MAX_HISTORY
      && idx < 128 && 0 !in linebuf[..idx]
      && histCount == |log| && [] !in log
      && (forall n :: WindowStart(|log|) <= n < |log| ==> history[n % MAX_HISTORY] == log[n])
    }

    ghost function Current(): Line
      requires Valid()
      reads this, linebuf, history
    {
      linebuf[..idx]
    }

    constructor ()
      ensures Valid() && log == [] && Current() == []
    {
      linebuf := new byte[128](i => 0);
      history := new Line[10](i => []);
      idx, histCount, log := 0, 0, [];
      new;
    }

    /** `execute`: save the line, and recall if it asks for a line of the window. */
    method Execute()
      requires Valid()
      modifies this`idx, this`histCount, this`log, linebuf, history
      ensures Valid() && log == Run(old(log), old(Current()))
      decreases Distance(log, Current())
    {
      hide AtoiValue, Horizon;
      linebuf[idx] := 0;
      if idx == 0 {
        return;
      }
      ghost var before, line := log, Current();
      history[histCount % MAX_HISTORY] := linebuf[..idx];
      histCount := histCount + 1;
      log := log + [line];
      WindowSlots(|before|);
      if linebuf[0] == BANG && idx > 1 {
        assert linebuf[1..idx] == line[1..];
        var cmd := AtoiValue(linebuf[1..idx]) % 0x1_0000_0000;
        var start := if histCount > MAX_HISTORY then histCount - MAX_HISTORY else 0;
        if cmd >= start && cmd < histCount {
          RecallGetsCloser(before, line);
          LoadLine(history[cmd % MAX_HISTORY]);
          Execute();
          return;
        }
      }
    }

    /** `strcpy` of a saved line into the line buffer. */
    method LoadLine(s: Line)
      requires Valid()
      modifies this`idx, linebuf
      ensures Valid() && Current() == s
    {
      var i := 0;
      while i < |s|
        invariant i <= |s| && linebuf[..i] == s[..i]
      {
        linebuf[i] := s[i];
        i := i + 1;
      }
      linebuf[i] := 0;
      idx := |s|;
      assert linebuf[..idx] == s;
    }

    /** `shell_feed`. */
    method Feed(c: byte)
      requires Valid() && c != 0
      modifies this`idx, this`histCount, this`log, linebuf, history
      ensures Valid()
      ensures if c == 10 || c == 13 then log == Run(old(log), old(Current())) && Current() == []
              else log == old(log) && Current() == EditLine(old(Current()), c)
    {
      if c == 10 || c == 13 {
        Execute();
        idx := 0;
      } else if c == 9 {
        ghost var line := Current();
        var i := 0;
        while i < 4 && idx < 127
          invariant i <= 4 && idx <= 127 && idx == |line| + i && Valid() && log == old(log)
          invariant Current() == line + seq(i, k => 0x20)
        {
          ghost var before := Current();
          linebuf[idx] := 0x20;
          idx := idx + 1;
          i := i + 1;
          assert linebuf[..idx] == before + [0x20];
        }
      } else if c == 8 {
        if idx != 0 {
          idx := idx - 1;
          assert linebuf[..idx] == old(linebuf[..idx])[..idx];
        }
      } else if idx < 127 {
        linebuf[idx] := c;
        idx := idx + 1;
        assert linebuf[..idx] == old(linebuf[..idx]) + [c];
      }
    }

    /** Keys arriving one after the other. */
    method FeedAll(keys: seq<byte>)
      requires Valid() && 0 !in keys
      modifies this`idx, this`histCount, this`log, linebuf, history
      ensures Valid() && Session(log, Current()) == Type(Session(old(log), old(Current())), keys)
    {
      hide EditLine, Run;
      ghost var start := Session(log, Current());
      for i := 0 to |keys|
        invariant Valid() && Session(log, Current()) == Type(start, keys[..i])
      {
        assert keys[..i + 1][..i] == keys[..i];
        Feed(keys[i]);
      }
      assert keys[..|keys|] == keys;
    }

    /** The `history` command: number and line for each line of the window, oldest first. The buffer for
        a number holds three digits and the terminator. */
    method ListHistory() returns (shown: seq<(seq<byte>, Line)>)
      requires Valid() && NumbersFit(|log|)
      ensures |shown| == |log| - WindowStart(|log|)
      ensures forall k :: 0 <= k < |shown| ==>
        shown[k] == (Show(WindowStart(|log|) + k, 10), log[WindowStart(|log|) + k])
    {
      hide Show;
      var start := if histCount > MAX_HISTORY then histCount - MAX_HISTORY else 0;
      shown := [];
      NumbersFitExactly(histCount);
      for i := start to histCount
        invariant |shown| == i - start
        invariant forall k :: 0 <= k < i - start ==> shown[k] == (Show(start + k, 10), log[start + k])
      {
        var num := new byte[4];
        assert NumberFits(i);
        Itoa(i, num, 10);
        ghost var text := Show(i, 10);
        ShowHasNoZero(i);
        assert forall k :: 0 <= k < |text| ==> num[..|text|][k] == num[k] != 0;
        var len := 0;
        while num[len] != 0
          invariant len <= |text|
          decreases |text| - len
        {
          len := len + 1;
        }
        shown := shown + [(num[..len], history[i % MAX_HISTORY])];
      }
    }
  }

  /** The slots of the lines that stay in the window differ from the slot of the new line. */
  lemma {:induction false} WindowSlots(n: nat)
    ensures forall k :: WindowStart(n + 1) <= k < n ==> k % MAX_HISTORY != n % MAX_HISTORY
  {
    forall k | WindowStart(n + 1) <= k < n
      ensures k % 10 != n % 10
    {
      assert 0 < n - k < 10;
    }
  }
}
