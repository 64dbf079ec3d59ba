/** The text editor: a 4096-byte buffer edited at a cursor, against a stack of typed characters. */
module TextEditor {
  import opened Bytes

  const BACKSPACE := 8
  const NEWLINE := 10

  predicate Typeable(key: byte) {
    key == NEWLINE || 32 <= key < 127
  }

  /** One key on the stack of typed characters, which may hold at most `room` of them. */
  function Press(typed: seq<byte>, key: byte, room: nat): (r: seq<byte>)
    ensures |r| <= |typed| || |r| <= room
  {
    if key == BACKSPACE then (if typed == [] then [] else typed[..|typed| - 1])
    else if Typeable(key) && |typed| < room then typed + [key]
    else typed
  }

  /** Key by key: newline and the 95 printable characters are added while there is room, backspace takes the
      last one away, and every other key does nothing. */
  lemma {:induction false} KeysDo(typed: seq<byte>, key: byte, room: nat)
    ensures key == 10 || 32 <= key <= 126 ==> Press(typed, key, room) == if |typed| < room then typed + [key] else typed
    ensures typed != [] ==> Press(typed, 8, room) == typed[..|typed| - 1]
    ensures Press([], 8, room) == []
    ensures key != 8 && key != 10 && (key < 32 || key > 126) ==> Press(typed, key, room) == typed
  {
  }

  function PressAll(keys: seq<byte>, room: nat): (r: seq<byte>)
    ensures |r| <= |keys| && |r| <= room
  {
    if keys == [] then [] else Press(PressAll(keys[..|keys| - 1], room), keys[|keys| - 1], room)
  }

  /** The characters no later backspace takes away; the last `due` of them are already taken. Read from
      the last key to the first, each backspace claims the nearest earlier character still standing. */
  function Surviving(keys: seq<byte>, due: nat): (r: seq<byte>)
    decreases |keys|
  {
    if keys == [] then []
    else
      var before, key := keys[..|keys| - 1], keys[|keys| - 1];
      if key == BACKSPACE then Surviving(before, due + 1)
      else if !Typeable(key) then Surviving(before, due)
      else if due > 0 then Surviving(before, due - 1)
      else Surviving(before, 0) + [key]
  }

  function DropLast(s: seq<byte>, n: nat): (r: seq<byte>) {
    if n <= |s| then s[..|s| - n] else []
  }

  /** While there is room for every key, the stack holds exactly the surviving characters. */
  lemma {:induction false} StackHoldsSurvivors(keys: seq<byte>, room: nat, due: nat)
    requires |keys| <= room
    ensures DropLast(PressAll(keys, room), due) == Surviving(keys, due)
    decreases |keys|
  {
    if keys != [] {
      var before, key := keys[..|keys| - 1], keys[|keys| - 1];
      var typed := PressAll(before, room);
      if key == BACKSPACE {
        StackHoldsSurvivors(before, room, due + 1);
      } else if !Typeable(key) {
        StackHoldsSurvivors(before, room, due);
      } else if due > 0 {
        StackHoldsSurvivors(before, room, due - 1);
        assert DropLast(typed + [key], due) == DropLast(typed, due - 1);
      } else {
        StackHoldsSurvivors(before, room, 0);
        assert DropLast(typed, 0) == typed;
      }
    }
  }

  /** Line and column of the place after `s`. */
  function LineOf(s: seq<byte>): (r: nat) {
    if s == [] then 0 else LineOf(s[..|s| - 1]) + if s[|s| - 1] == NEWLINE then 1 else 0
  }

  function ColOf(s: seq<byte>): (r: nat) {
    if s == [] || s[|s| - 1] == NEWLINE then 0 else ColOf(s[..|s| - 1]) + 1
  }

  lemma {:induction false} LineCountsNewlines(s: seq<byte>)
    ensures LineOf(s) == multiset(s)[10]
    decreases |s|
  {
    if s != [] {
      assert s == s[..|s| - 1] + [s[|s| - 1]];
      LineCountsNewlines(s[..|s| - 1]);
    }
  }

  lemma {:induction false} ColIsDistance(s: seq<byte>, rest: seq<byte>)
    requires 10 !in rest
    requires s == [] || s[|s| - 1] == 10
    ensures ColOf(s + rest) == |rest|
    decreases |rest|
  {
    if rest == [] {
      assert s + rest == s;
    } else {
      var n := |rest| - 1;
      assert (s + rest)[..|s| + n] == s + rest[..n];
      assert (s + rest)[|s| + n] == rest[n];
      ColIsDistance(s, rest[..n]);
    }
  }

  /** A view of 20 lines from `scroll` on shows the cursor's line. */
  predicate Shows(scroll: nat, line: nat) {
    scroll <= line < scroll + 20
  }

  /** Twenty lines: what a window of 250 pixels leaves below title bar and above status line, ten for each. */
  lemma {:induction false} TwentyLines(scroll: nat, line: nat)
    ensures Shows(scroll, line) <==> scroll <= line && 10 * (line - scroll) + 10 <= 250 - 20 - 25
  {
  }

  class Editor {
    const text: array<byte>
    var textLength: nat
    var cursorPos: nat
    var cursorLine: nat
    var cursorCol: nat
    var scrollLine: nat
    var modified: bool
    ghost var typed: seq<byte>
    ghost const loaded: seq<byte>

    ghost function Contents(): seq<byte>
      requires textLength <= text.Length
      reads this, text
    {
      text[..textLength]
    }

    /** The text is what was typed, then what was loaded; the cursor stands between the two. */
    ghost predicate Buffer()
      reads this, text
    {
      && text.Length == 4096 && textLength < 4096
      && Contents() == typed + loaded
      && cursorPos == |typed| <= textLength
    }

    ghost predicate CursorPlaced()
      reads this
    {
      cursorLine == LineOf(typed) && cursorCol == ColOf(typed)
    }

    ghost predicate Valid()
      reads this, text
    {
      && Buffer() && CursorPlaced()
      && Shows(scrollLine, cursorLine)
    }

    /** `text_editor_open`; `file` is what `fs_read` delivered, or empty when it failed. */
    constructor (file: seq<byte>)
      ensures Valid() && fresh(text)
      ensures typed == [] && !modified && loaded == if |file| < 4096 then file else []
    {
      text := new byte[4096](i => 0);
      textLength, cursorPos, cursorLine, cursorCol, scrollLine := 0, 0, 0, 0, 0;
      modified, typed := false, [];
      loaded := if |file| < 4096 then file else [];
      new;
      if |file| < 4096 {
        forall i | 0 <= i < |file| {
          text[i] := file[i];
        }
        textLength := |file|;
        text[|file|] := 0;
      }
      UpdateCursorPosition();
    }

    /** `update_cursor_position`. */
    method UpdateCursorPosition()
      requires Buffer()
      modifies this`cursorLine, this`cursorCol
      ensures CursorPlaced()
    {
      cursorLine, cursorCol := 0, 0;
      var i := 0;
      while i < cursorPos && i < textLength
        invariant 0 <= i <= cursorPos
        invariant cursorLine == LineOf(typed[..i]) && cursorCol == ColOf(typed[..i])
      {
        assert text[i] == Contents()[i] == typed[i];
        assert typed[..i + 1][..i] == typed[..i];
        if text[i] == NEWLINE {
          cursorLine := cursorLine + 1;
          cursorCol := 0;
        } else {
          cursorCol := cursorCol + 1;
        }
        i := i + 1;
      }
      assert i == |typed| && typed[..i] == typed;
    }

    /** The loop that moves the text behind the cursor down over the character before it. */
    method CloseGap()
      requires text.Length == 4096 && 0 < cursorPos <= textLength < 4096
      modifies text
      ensures text[..cursorPos - 1] == old(text[..cursorPos - 1])
      ensures text[cursorPos - 1..textLength - 1] == old(text[cursorPos..textLength])
    {
      hide LineOf, ColOf;
      ghost var was := text[..];
      var i := cursorPos - 1;
      while i < textLength - 1
        invariant cursorPos - 1 <= i <= textLength - 1
        invariant forall k :: 0 <= k < cursorPos - 1 ==> text[k] == was[k]
        invariant forall k :: cursorPos - 1 <= k < i ==> text[k] == was[k + 1]
        invariant forall k :: i <= k < 4096 ==> text[k] == was[k]
      {
        text[i] := text[i + 1];
        i := i + 1;
      }
    }

    /** The loop that moves the text behind the cursor up. */
    method OpenGap()
      requires text.Length == 4096 && cursorPos <= textLength < 4095
      modifies text
      ensures text[..cursorPos] == old(text[..cursorPos])
      ensures text[cursorPos + 1..textLength + 1] == old(text[cursorPos..textLength])
    {
      hide LineOf, ColOf;
      ghost var was := text[..];
      var i := textLength;
      while i > cursorPos
        invariant cursorPos <= i <= textLength
        invariant forall k :: 0 <= k <= i ==> text[k] == was[k]
        invariant forall k :: i < k <= textLength ==> text[k] == was[k - 1]
      {
        text[i] := text[i - 1];
        i := i - 1;
      }
    }

    /** Backspace: the character before the cursor goes. */
    method RemoveBefore()
      requires Buffer() && cursorPos > 0
      modifies text, this`textLength, this`cursorPos, this`typed
      ensures Buffer() && typed == old(typed)[..|old(typed)| - 1]
    {
      hide LineOf, ColOf;
      SplitAt(typed, loaded, text[..], textLength);
      CloseGap();
      textLength := textLength - 1;
      cursorPos := cursorPos - 1;
      typed := typed[..|typed| - 1];
      assert text[..cursorPos] == typed by {
        assert old(text[..cursorPos - 1]) == old(text[..cursorPos])[..cursorPos];
      }
      assert Contents() == text[..cursorPos] + text[cursorPos..textLength];
    }

    /** Any other key: the character goes in at the cursor. */
    method InsertAt(key: byte)
      requires Buffer() && textLength < 4095
      modifies text, this`textLength, this`cursorPos, this`typed
      ensures Buffer() && typed == old(typed) + [key]
    {
      hide LineOf, ColOf;
      SplitAt(typed, loaded, text[..], textLength);
      OpenGap();
      ghost var tail := text[cursorPos + 1..textLength + 1];
      text[cursorPos] := key;
      textLength := textLength + 1;
      cursorPos := cursorPos + 1;
      typed := typed + [key];
      assert text[..cursorPos] == typed;
      assert text[cursorPos..textLength] == tail;
      assert Contents() == text[..cursorPos] + text[cursorPos..textLength];
    }

    /** `text_editor_handle_key` with the window open; its height of 250 shows 20 lines. The view moves only
        when it must, and then by as few lines as it can. */
    method HandleKey(key: byte)
      requires Valid()
      modifies this, text
      ensures Valid() && typed == Press(old(typed), key, 4095 - |loaded|)
      ensures modified <==> old(modified) || typed != old(typed)
      ensures forall s: nat :: Shows(s, cursorLine) ==> Abs(scrollLine - old(scrollLine)) <= Abs(s - old(scrollLine))
    {
      hide LineOf, ColOf;
      if key == BACKSPACE {
        if cursorPos > 0 {
          RemoveBefore();
          modified := true;
          UpdateCursorPosition();
        }
      } else if key == NEWLINE || (key >= 32 && key < 127) {
        if textLength < 4096 - 1 {
          InsertAt(key);
          modified := true;
          UpdateCursorPosition();
        }
      }
      var visibleLines := (250 - 20 - 25) / 10;
      if cursorLine < scrollLine {
        scrollLine := cursorLine;
      } else if cursorLine >= scrollLine + visibleLines {
        scrollLine := cursorLine - visibleLines + 1;
      }
    }
  }

  lemma {:induction false} SplitAt(typed: seq<byte>, loaded: seq<byte>, text: seq<byte>, n: nat)
    requires n <= |text| && text[..n] == typed + loaded
    ensures |typed| <= n && text[..|typed|] == typed && text[|typed|..n] == loaded
  {
    assert text[..|typed|] == text[..n][..|typed|];
    assert text[|typed|..n] == text[..n][|typed|..];
  }

  /** A run of keys on an editor just opened. */
  method TypeKeys(file: seq<byte>, keys: seq<byte>) returns (e: Editor)
    ensures fresh(e) && e.Valid() && e.loaded == if |file| < 4096 then file else []
    ensures e.Contents() == PressAll(keys, 4095 - |e.loaded|) + e.loaded
  {
    e := new Editor(file);
    for i := 0 to |keys|
      invariant fresh(e) && fresh(e.text) && e.Valid()
      invariant e.typed == PressAll(keys[..i], 4095 - |e.loaded|)
    {
      assert keys[..i + 1][..i] == keys[..i];
      e.HandleKey(keys[i]);
    }
    assert keys[..|keys|] == keys;
  }
}
