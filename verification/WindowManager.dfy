/** The window manager: sixteen slots with gaps, against the list of live windows from back to front. */
module WindowManager {

  const MAX_WINDOWS := 16

  // ---------------------------------------------------------------- lists of windows

  function Without<T(==)>(s: seq<T>, w: T): (r: seq<T>)
    ensures w !in r
    ensures forall x :: x in r ==> x in s
    ensures forall x :: x in s && x != w ==> x in r
  {
    if s == [] then [] else (if s[0] == w then [] else [s[0]]) + Without(s[1..], w)
  }

  predicate NoRepeats<T(==)>(s: seq<T>) {
    s == [] || (s[0] !in s[1..] && NoRepeats(s[1..]))
  }

  /** `a` stands somewhere before `b`. */
  predicate Before<T(==)>(s: seq<T>, a: T, b: T) {
    s != [] && ((s[0] == a && b in s[1..]) || Before(s[1..], a, b))
  }

  lemma {:induction false} NoRepeatsAppend<T>(a: seq<T>, b: seq<T>)
    ensures NoRepeats(a + b) <==> NoRepeats(a) && NoRepeats(b) && forall x :: x in a ==> x !in b
    decreases |a|
  {
    if a == [] {
      assert a + b == b;
    } else {
      assert (a + b)[1..] == a[1..] + b;
      NoRepeatsAppend(a[1..], b);
      assert forall x :: x in a <==> x == a[0] || x in a[1..];
    }
  }

  lemma {:induction false} WithoutAppend<T>(s: seq<T>, t: seq<T>, w: T)
    ensures Without(s + t, w) == Without(s, w) + Without(t, w)
    decreases |s|
  {
    if s == [] {
      assert s + t == t;
    } else {
      assert (s + t)[1..] == s[1..] + t;
      WithoutAppend(s[1..], t, w);
    }
  }

  lemma {:induction false} WithoutAbsent<T>(s: seq<T>, w: T)
    requires w !in s
    ensures Without(s, w) == s
    decreases |s|
  {
    if s != [] {
      WithoutAbsent(s[1..], w);
    }
  }

  /** The one occurrence of a window is what `Without` takes out. */
  lemma {:induction false} WithoutMiddle<T>(a: seq<T>, w: T, b: seq<T>)
    requires w !in a && w !in b
    ensures Without(a + [w] + b, w) == a + b
    decreases |a|
  {
    if a == [] {
      assert ([w] + b)[1..] == b && a + [w] + b == [w] + b;
      WithoutAbsent(b, w);
    } else {
      var s := a + [w] + b;
      assert s[0] == a[0] && s[1..] == a[1..] + [w] + b;
      WithoutMiddle(a[1..], w, b);
    }
  }

  lemma {:induction false} MiddleOccursOnce<T>(a: seq<T>, w: T, b: seq<T>)
    ensures NoRepeats(a + [w] + b) <==> NoRepeats(a + b) && w !in a && w !in b
  {
    NoRepeatsAppend(a + [w], b);
    NoRepeatsAppend(a, [w]);
    NoRepeatsAppend(a, b);
    assert NoRepeats([w]);
    assert forall x :: x in a + [w] <==> x in a || x == w;
  }

  /** Bringing one window to the front keeps all the others in their order, and puts it behind none. */
  lemma {:induction false} FrontKeepsOrder<T>(s: seq<T>, w: T, a: T, b: T)
    requires a != w
    ensures b != w ==> (Before(s, a, b) <==> Before(Without(s, w) + [w], a, b))
    ensures a in s ==> Before(Without(s, w) + [w], a, w)
    decreases |s|
  {
    if s == [] {
      assert Without(s, w) + [w] == [w];
    } else {
      var r, r' := Without(s[1..], w) + [w], Without(s, w) + [w];
      FrontKeepsOrder(s[1..], w, a, b);
      if s[0] == w {
        assert r' == r;
      } else {
        assert r' == [s[0]] + r;
        assert r'[1..] == r;
      }
    }
  }

  // ---------------------------------------------------------------- windows

  /** Bit 0x10 of the flags. */
  predicate HasFocusFlag(flags: nat) {
    flags / 16 % 2 == 1
  }

  predicate SameButFocus(f: nat, g: nat) {
    f % 16 == g % 16 && f / 32 == g / 32
  }

  /** The three parts of a flags value: bits above the focus flag, the flag, bits below it. */
  lemma {:induction false} FlagParts(q: nat, b: nat, r: nat)
    requires b <= 1 && r < 16
    ensures var f := 32 * q + 16 * b + r; f / 32 == q && f / 16 == 2 * q + b && f % 16 == r
  {
  }

  lemma {:induction false} FlagFlips(flags: nat)
    ensures !HasFocusFlag(flags) ==> HasFocusFlag(flags + 16) && SameButFocus(flags + 16, flags)
    ensures HasFocusFlag(flags) ==>
      flags >= 16 && !HasFocusFlag(flags - 16) && SameButFocus(flags - 16, flags)
  {
    var q, b, r := flags / 32, flags / 16 % 2, flags % 16;
    assert flags == 32 * q + 16 * b + r;
    FlagParts(q, b, r);
    FlagParts(q, 1 - b, r);
  }

  function SetFocusFlag(flags: nat): (r: nat)
    ensures HasFocusFlag(r) && SameButFocus(r, flags)
  {
    FlagFlips(flags);
    if HasFocusFlag(flags) then flags else flags + 16
  }

  function ClearFocusFlag(flags: nat): (r: nat)
    ensures !HasFocusFlag(r) && SameButFocus(r, flags)
  {
    FlagFlips(flags);
    if HasFocusFlag(flags) then flags - 16 else flags
  }

  class Window {
    const id: int
    var x: int
    var y: int
    const width: int
    const height: int
    var flags: nat
    var visible: bool
    var minimized: bool
    var clickable: bool  // `on_click` is set

    constructor (id: int, x: int, y: int, width: int, height: int, flags: nat)
      ensures this.id == id && this.x == x && this.y == y && this.width == width && this.height == height
      ensures this.flags == flags && visible && !minimized && !clickable
    {
      this.id, this.x, this.y, this.width, this.height := id, x, y, width, height;
      this.flags, visible, minimized, clickable := flags, true, false, false;
    }

    /** `window_set_click_handler`. */
    method SetClickHandler(present: bool)
      modifies this`clickable
      ensures clickable == present
    {
      clickable := present;
    }

    predicate Contains(px: int, py: int)
      reads this
    {
      x <= px < x + width && y <= py < y + height
    }

    /** Bit 0x04, and the square at the right end of the title bar. */
    predicate ClosesAt(px: int, py: int)
      reads this
    {
      flags % 16 / 4 % 2 == 1 && x + width - 18 <= px < x + width - 6 && y + 4 <= py < y + 16
    }

    /** The content area, inside the border and below the title bar. */
    predicate ContentAt(px: int, py: int)
      reads this
    {
      x + 1 <= px < x + 1 + (width - 2) && y + 21 <= py < y + 21 + (height - 22)
    }

    /** Bit 0x01, and the title bar. */
    predicate DragsAt(px: int, py: int)
      reads this
    {
      flags % 16 % 2 == 1 && x <= px < x + width && y <= py < y + 20
    }
  }

  /** The bits of a flags byte, from the lowest. */
  lemma {:induction false} FlagBits(a: nat, b: nat, c: nat, d: nat, e: nat, high: nat)
    requires a <= 1 && b <= 1 && c <= 1 && d <= 1 && e <= 1
    ensures var f := a + 2 * b + 4 * c + 8 * d + 16 * e + 32 * high;
            (f % 16 % 2 == 1 <==> a == 1) && (f % 16 / 4 % 2 == 1 <==> c == 1) && (HasFocusFlag(f) <==> e == 1)
  {
    FlagParts(high, e, a + 2 * b + 4 * c + 8 * d);
  }

  /** Where a click tells on a window, by its distances from the edges: anywhere inside; on the title bar, the
      20 rows at the top, if bit 0x01 is set; on the close box, 12 by 12 pixels, six from the right edge and
      four from the top, if bit 0x04 is set; in the content, one pixel from the edges and from the title bar. */
  lemma {:induction false} ClickPlaces(w: Window, a: nat, b: nat, c: nat, d: nat, e: nat, high: nat, px: int, py: int)
    requires a <= 1 && b <= 1 && c <= 1 && d <= 1 && e <= 1
    requires w.flags == a + 2 * b + 4 * c + 8 * d + 16 * e + 32 * high
    ensures var left, top, right, bottom := px - w.x, py - w.y, w.x + w.width - 1 - px, w.y + w.height - 1 - py;
            && (w.Contains(px, py) <==> left >= 0 && top >= 0 && right >= 0 && bottom >= 0)
            && (w.DragsAt(px, py) <==> a == 1 && left >= 0 && right >= 0 && 0 <= top <= 19)
            && (w.ClosesAt(px, py) <==> c == 1 && 6 <= right <= 17 && 4 <= top <= 15)
            && (w.ContentAt(px, py) <==> left >= 1 && right >= 1 && top >= 21 && bottom >= 1)
  {
    FlagBits(a, b, c, d, e, high);
  }

  /** A call to a window's click handler, with the place relative to its content area. */
  datatype Click = NoCall | Call(relX: int, relY: int)

  /** What a click at this place does to the content of the window it reaches. */
  function ContentClick(win: Window, px: int, py: int): (call: Click)
    reads win
    ensures call.Call? ==> win.clickable && 0 <= call.relX < win.width - 2 && 0 <= call.relY < win.height - 22
    ensures call.Call? ==> px == win.x + 1 + call.relX && py == win.y + 21 + call.relY
  {
    if !win.ClosesAt(px, py) && !win.DragsAt(px, py) && win.clickable && win.ContentAt(px, py)
    then Call(px - win.x - 1, py - win.y - 21)
    else NoCall
  }

  /** The windows of the slots that hold one. */
  ghost function Live(slots: seq<Window?>): (r: seq<Window>)
    ensures |r| <= |slots|
    ensures forall w :: w in r ==> w in slots
    ensures forall w :: w in slots && w != null ==> w in r
  {
    if slots == [] then []
    else if slots[0] == null then Live(slots[1..])
    else
      var w: Window := slots[0];
      [w] + Live(slots[1..])
  }

  lemma {:induction false} LiveAppend(s: seq<Window?>, t: seq<Window?>)
    ensures Live(s + t) == Live(s) + Live(t)
    decreases |s|
  {
    if s == [] {
      assert s + t == t;
    } else {
      assert (s + t)[1..] == s[1..] + t;
      LiveAppend(s[1..], t);
    }
  }

  lemma {:induction false} LiveSplit(slots: seq<Window?>, k: nat)
    requires k < |slots|
    ensures Live(slots) == Live(slots[..k]) + Live([slots[k]]) + Live(slots[k + 1..])
  {
    assert slots == slots[..k] + [slots[k]] + slots[k + 1..];
    LiveAppend(slots[..k] + [slots[k]], slots[k + 1..]);
    LiveAppend(slots[..k], [slots[k]]);
  }

  lemma {:induction false} NoneLive(slots: seq<Window?>)
    requires forall i :: 0 <= i < |slots| ==> slots[i] == null
    ensures Live(slots) == []
    decreases |slots|
  {
    if slots != [] {
      NoneLive(slots[1..]);
    }
  }

  lemma {:induction false} AllLive(slots: seq<Window?>)
    requires forall k :: 0 <= k < |slots| ==> slots[k] != null
    ensures |Live(slots)| == |slots|
    decreases |slots|
  {
    if slots != [] {
      AllLive(slots[1..]);
    }
  }

  /** The highest slot in use holds the front window. */
  lemma {:induction false} HighestIsFront(slots: seq<Window?>, k: nat)
    requires k < |slots| && slots[k] != null && forall i :: k < i < |slots| ==> slots[i] == null
    ensures Live(slots) != [] && Live(slots)[|Live(slots)| - 1] == slots[k]
  {
    LiveSplit(slots, k);
    NoneLive(slots[k + 1..]);
    var w: Window := slots[k];
    assert Live([slots[k]]) == [w];
  }

  /** Filling an empty slot with a new window, and emptying the slot of a live one. */
  lemma {:induction false} LiveUpdated(slots: seq<Window?>, k: nat, w: Window)
    requires k < |slots| && slots[k] == null
    ensures Live(slots) == Live(slots[..k]) + Live(slots[k + 1..])
    ensures Live(slots[k := w]) == Live(slots[..k]) + [w] + Live(slots[k + 1..])
  {
    LiveSplit(slots, k);
    var filled := slots[k := w];
    LiveSplit(filled, k);
    assert filled[..k] == slots[..k] && filled[k + 1..] == slots[k + 1..];
    assert Live([filled[k]]) == [w];
    assert Live([slots[k]]) == [];
  }

  lemma {:induction false} LiveFilled(slots: seq<Window?>, k: nat, w: Window)
    requires k < |slots| && slots[k] == null && w !in slots && NoRepeats(Live(slots))
    ensures NoRepeats(Live(slots[k := w])) && Without(Live(slots[k := w]), w) == Live(slots)
    ensures |Live(slots[k := w])| == |Live(slots)| + 1
    ensures forall v :: v in Live(slots[k := w]) <==> v == w || v in Live(slots)
  {
    var a, b := Live(slots[..k]), Live(slots[k + 1..]);
    LiveUpdated(slots, k, w);
    MiddleOccursOnce(a, w, b);
    WithoutMiddle(a, w, b);
  }

  lemma {:induction false} LiveEmptied(slots: seq<Window?>, k: nat, w: Window)
    requires k < |slots| && slots[k] == w && NoRepeats(Live(slots))
    ensures Live(slots[k := null]) == Without(Live(slots), w) == Live(slots[..k] + slots[k + 1..])
    ensures NoRepeats(Without(Live(slots), w)) && |Without(Live(slots), w)| == |Live(slots)| - 1
  {
    var a, b, emptied := Live(slots[..k]), Live(slots[k + 1..]), slots[k := null];
    assert emptied[..k] == slots[..k] && emptied[k + 1..] == slots[k + 1..] && emptied[k := w] == slots;
    LiveUpdated(emptied, k, w);
    MiddleOccursOnce(a, w, b);
    WithoutMiddle(a, w, b);
    LiveAppend(slots[..k], slots[k + 1..]);
  }

  /** Shifting the slots behind `k` down and putting `w` last. */
  lemma {:induction false} LiveShifted(slots: seq<Window?>, k: nat, w: Window)
    requires k < |slots| && slots[k] == w && NoRepeats(Live(slots))
    ensures Live(slots[..k] + slots[k + 1..] + [w]) == Without(Live(slots), w) + [w]
    ensures NoRepeats(Without(Live(slots), w) + [w]) && |Without(Live(slots), w)| == |Live(slots)| - 1
  {
    LiveEmptied(slots, k, w);
    LiveAppend(slots[..k] + slots[k + 1..], [w]);
    assert Live([w]) == [w];
    NoRepeatsAppend(Without(Live(slots), w), [w]);
  }

  lemma {:induction false} FrontStays<T>(s: seq<T>, w: T)
    requires s != [] && s[|s| - 1] != w
    ensures Without(s, w) != [] && Without(s, w)[|Without(s, w)| - 1] == s[|s| - 1]
  {
    var n := |s| - 1;
    assert s == s[..n] + [s[n]];
    WithoutAppend(s[..n], [s[n]], w);
    assert Without([s[n]], w) == [s[n]];
  }

  /** The window a click at this place reaches: the first from the front that contains it. */
  function TopAt(s: seq<Window>, px: int, py: int): (top: Window?)
    reads s
  {
    if s == [] then null
    else if s[|s| - 1].Contains(px, py) then s[|s| - 1]
    else TopAt(s[..|s| - 1], px, py)
  }

  lemma {:induction false} TopIsInFront(s: seq<Window>, px: int, py: int)
    ensures TopAt(s, px, py) == null <==> forall w :: w in s ==> !w.Contains(px, py)
    ensures TopAt(s, px, py) != null ==>
      TopAt(s, px, py) in s && TopAt(s, px, py).Contains(px, py)
    ensures forall w :: w in s && w.Contains(px, py) ==>
      TopAt(s, px, py) != null && (w == TopAt(s, px, py) || Before<Window>(s, w, TopAt(s, px, py)))
    decreases |s|
  {
    if s != [] {
      var n := |s| - 1;
      assert s == s[..n] + [s[n]];
      if s[n].Contains(px, py) {
        forall w | w in s && w != s[n]
          ensures Before(s, w, s[n])
        {
          LastIsBehindNone(s[..n], s[n], w);
        }
      } else {
        TopIsInFront(s[..n], px, py);
        forall w | w in s && w.Contains(px, py) && w != TopAt(s[..n], px, py)
          ensures Before<Window>(s, w, TopAt(s[..n], px, py))
        {
          assert w in s[..n];
          BeforeExtends<Window>(s[..n], s[n], w, TopAt(s[..n], px, py));
        }
      }
    }
  }

  lemma {:induction false} LastIsBehindNone<T>(s: seq<T>, last: T, w: T)
    requires w in s
    ensures Before(s + [last], w, last)
    decreases |s|
  {
    assert (s + [last])[1..] == s[1..] + [last];
    if s[0] != w {
      LastIsBehindNone(s[1..], last, w);
    }
  }

  lemma {:induction false} BeforeExtends<T>(s: seq<T>, last: T, a: T, b: T)
    requires Before(s, a, b)
    ensures Before(s + [last], a, b)
    decreases |s|
  {
    assert (s + [last])[1..] == s[1..] + [last];
    if !(s[0] == a && b in s[1..]) {
      BeforeExtends(s[1..], last, a, b);
    }
  }

  // ---------------------------------------------------------------- the manager

  class Manager {
    const windows: array<Window?>
    var windowCount: nat
    var nextId: int
    var focused: Window?
    var dragging: Window?
    var dragX: int
    var dragY: int
    ghost var order: seq<Window>  // live windows, back to front

    /** The slots hold the live windows in order, each once. */
    ghost predicate Slots()
      reads this, windows
    {
      windows.Length == 16 && order == Live(windows[..]) && NoRepeats(order) && windowCount == |order|
    }

    ghost predicate Shown()
      reads this, order
    {
      forall w :: w in order ==> w.visible && !w.minimized
    }

    /** Only the focused window, or one just created, may carry the focus flag. */
    ghost predicate FlagsFollow(but: Window?)
      reads this, order
    {
      forall w :: w in order && HasFocusFlag(w.flags) ==> w == focused || w == but
    }

    /** The focused window is the front one; there is none when no window is live. */
    ghost predicate Valid()
      reads this, windows, order
    {
      && Slots() && Shown() && FlagsFollow(null)
      && focused == if order == [] then null else order[|order| - 1]
    }

    /** The focused window, if any, carries the focus flag. */
    ghost predicate FocusFlagged()
      reads this, focused
    {
      focused != null ==> HasFocusFlag(focused.flags)
    }

    constructor ()
      ensures Valid() && FocusFlagged() && order == [] && fresh(windows)
    {
      windows := new Window?[16](i => null);
      windowCount, nextId, focused, dragging, dragX, dragY := 0, 1, null, null, 0, 0;
      order := [];
      new;
      NoneLive(windows[..]);
    }

    /** `window_create`; the new window is `kmalloc`ed, so it is no window seen before. */
    method Create(x: int, y: int, width: int, height: int, flags: nat) returns (win: Window?)
      requires Valid()
      modifies this, windows, order
      ensures Valid()
      ensures win == null <==> |old(order)| == 16
      ensures win == null ==> order == old(order) && focused == old(focused)
      ensures win != null ==> fresh(win) && order == old(order) + [win] && focused == win && FocusFlagged()
      ensures win != null ==>
        && win.x == x && win.y == y && win.width == width && win.height == height && SameButFocus(win.flags, flags)
        && win.visible && !win.minimized && win.id == old(nextId) && nextId == old(nextId) + 1
      ensures win == null ==> nextId == old(nextId) && forall w :: w in order ==> w.flags == old(w.flags)
    {
      hide NoRepeats, Without, Live;
      if windowCount >= MAX_WINDOWS {
        return null;
      }
      var w := new Window(nextId, x, y, width, height, flags);
      nextId := nextId + 1;
      var i := EmptySlot();
      LiveFilled(windows[..], i, w);
      windows[i] := w;
      assert windows[..] == old(windows[..])[i := w];
      windowCount := windowCount + 1;
      order := Live(windows[..]);
      assert forall k :: 0 <= k < |order| ==> order[k] == w || order[k] in old(order);
      BringToFront(w);
      win := w;
    }

    /** The searching loop of `window_create`: with a slot to spare it always ends at its `break`. */
    method EmptySlot() returns (i: nat)
      requires Slots() && windowCount < 16
      ensures i < 16 && windows[i] == null && forall k :: 0 <= k < i ==> windows[k] != null
    {
      hide NoRepeats, Live;
      i := 0;
      while i < 16
        invariant 0 <= i <= 16
        invariant forall k :: 0 <= k < i ==> windows[k] != null
      {
        if windows[i] == null {
          return;
        }
        i := i + 1;
      }
      AllLive(windows[..]);
      assert false;
    }

    /** `window_bring_to_front`; nothing happens to a window that is not live. */
    method BringToFront(win: Window)
      requires Slots() && Shown() && FlagsFollow(win) && (focused != null ==> focused in order)
      modifies this`focused, this`order, windows, order
      ensures win in old(order) ==> Valid() && order == Without(old(order), win) + [win] && focused == win
      ensures win in old(order) ==> FocusFlagged()
      ensures win !in old(order) ==> order == old(order) && focused == old(focused) && windows[..] == old(windows[..])
      ensures win !in old(order) ==> forall w :: w in order ==> w.flags == old(w.flags)
      ensures forall w :: w in old(order) ==>
        w.x == old(w.x) && w.y == old(w.y) && w.clickable == old(w.clickable)
      ensures forall w :: w in old(order) ==> SameButFocus(w.flags, old(w.flags))
    {
      hide NoRepeats, Without, Live, HasFocusFlag;
      var winIndex := SlotOf(win);
      if winIndex < 0 {
        return;
      }
      LiveShifted(windows[..], winIndex, win);
      ShiftDown(winIndex);
      windows[15] := win;
      assert windows[..] == old(windows[..winIndex]) + old(windows[winIndex + 1..]) + [win];
      order := Without(order, win) + [win];
      assert forall k :: 0 <= k < |order| ==> order[k] in old(order);
      MoveFocus(win);
    }

    /** The last lines of `window_bring_to_front`. */
    method MoveFocus(win: Window)
      requires win in order && (focused != null ==> focused in order) && FlagsFollow(win) && Shown()
      modifies this`focused, order
      ensures focused == win && FlagsFollow(null) && FocusFlagged() && Shown()
      ensures forall w :: w in order ==> w.x == old(w.x) && w.y == old(w.y) && w.clickable == old(w.clickable)
      ensures forall w :: w in order ==> SameButFocus(w.flags, old(w.flags))
    {
      hide Live, NoRepeats;
      if focused != null {
        focused.flags := ClearFocusFlag(focused.flags);
      }
      focused := win;
      win.flags := SetFocusFlag(win.flags);
    }

    /** The searching loop of `window_bring_to_front`. */
    method SlotOf(win: Window) returns (winIndex: int)
      requires windows.Length == 16
      ensures -1 <= winIndex < 16
      ensures winIndex >= 0 ==> windows[winIndex] == win
      ensures winIndex < 0 <==> win !in windows[..]
    {
      winIndex := -1;
      var i := 0;
      while i < 16
        invariant 0 <= i <= 16 && winIndex == -1
        invariant forall k :: 0 <= k < i ==> windows[k] != win
      {
        if windows[i] == win {
          winIndex := i;
          assert windows[..][i] == win;
          break;
        }
        i := i + 1;
      }
    }

    /** The moving loop of `window_bring_to_front`. */
    method ShiftDown(k: nat)
      requires windows.Length == 16 && k < 16
      modifies windows
      ensures windows[..15] == old(windows[..k]) + old(windows[k + 1..])
    {
      hide Live, NoRepeats;
      ghost var slots := windows[..];
      for i := k to 15
        invariant forall j :: 0 <= j < k ==> windows[j] == slots[j]
        invariant forall j :: k <= j < i ==> windows[j] == slots[j + 1]
        invariant forall j :: i <= j < 16 ==> windows[j] == slots[j]
      {
        windows[i] := windows[i + 1];
      }
    }

    /** `window_destroy`; a window that is not live is ignored. No flag changes, so a window that gets the
        focus this way does not get the focus flag: the flag of the focused window is lost exactly when the
        focused window is destroyed and another one is left. */
    method Destroy(win: Window)
      requires Valid()
      modifies this`focused, this`order, this`windowCount, windows
      ensures Valid() && order == Without(old(order), win)
      ensures old(FocusFlagged()) ==> (FocusFlagged() <==> !(|old(order)| > 1 && old(focused) == win))
    {
      hide NoRepeats, Without, Live;
      FocusAfter(order, win);
      var i := SlotOf(win);
      if i < 0 {
        WithoutAbsent(order, win);
        assert focused != win;
      } else {
        LiveEmptied(windows[..], i, win);
        windows[i] := null;
        assert windows[..] == old(windows[..])[i := null];
        windowCount := windowCount - 1;
        order := Without(order, win);
      }
      if focused == win {
        Refocus();
      } else if focused != null {
        FrontStays(old(order), win);
      }
    }

    /** The loop of `window_destroy` that finds a new window to focus. */
    method Refocus()
      requires Slots() && Shown()
      modifies this`focused
      ensures focused == if order == [] then null else order[|order| - 1]
    {
      hide NoRepeats, Live;
      focused := null;
      var i := 15;
      while i >= 0
        invariant -1 <= i < 16 && focused == null
        invariant forall k :: i < k < 16 ==> windows[k] == null
      {
        if windows[i] != null {
          assert windows[i] in windows[..];
          HighestIsFront(windows[..], i);
          if windows[i].visible && !windows[i].minimized {
            focused := windows[i];
            return;
          }
        }
        i := i - 1;
      }
      NoneLive(windows[..]);
    }

    /** The hit test of `window_handle_mouse`: from the highest slot down. */
    method HitTest(px: int, py: int) returns (win: Window?)
      requires Slots() && Shown()
      ensures win == TopAt(order, px, py)
      ensures win != null ==> win in order
    {
      hide NoRepeats, Live;
      var i := 15;
      assert windows[..16] == windows[..];
      while i >= 0
        invariant -1 <= i < 16
        invariant TopAt(Live(windows[..i + 1]), px, py) == TopAt(order, px, py)
      {
        win := windows[i];
        TopOfPrefix(windows[..i + 1], px, py);
        assert windows[..i + 1][..i] == windows[..i];
        if win != null {
          assert win in windows[..];
          if win.visible && !win.minimized {
            if win.Contains(px, py) {
              return;
            }
          }
        }
        i := i - 1;
      }
      win := null;
      NoneLive(windows[..0]);
    }

    /** `window_handle_mouse`; `clicked` is `mouse_left_clicked()`, and `call` is the call made to the
        click handler, after everything else. */
    method HandleMouse(clicked: bool, px: int, py: int) returns (call: Click)
      requires Valid()
      modifies this, windows, order
      ensures Valid()
      ensures call == if clicked && old(TopAt(order, px, py)) != null
                      then old(ContentClick(TopAt(order, px, py), px, py)) else NoCall
      ensures !clicked || old(TopAt(order, px, py)) == null ==>
        order == old(order) && dragging == old(dragging) && windows[..] == old(windows[..])
      ensures clicked && old(TopAt(order, px, py)) != null ==>
        (FocusFlagged() <==> !(old(TopAt(order, px, py).ClosesAt(px, py)) && |old(order)| > 1))
      ensures !clicked || old(TopAt(order, px, py)) == null ==>
        focused == old(focused) && (FocusFlagged() <==> old(FocusFlagged()))
      ensures clicked && old(TopAt(order, px, py)) != null ==>
        var win: Window := old(TopAt(order, px, py));
        if old(win.ClosesAt(px, py)) then order == Without(old(order), win) && dragging == old(dragging)
        else
          && order == Without(old(order), win) + [win] && focused == win
          && dragging == (if old(win.DragsAt(px, py)) then win else old(dragging))
          && (old(win.DragsAt(px, py)) ==> dragX == px - win.x && dragY == py - win.y)
    {
      hide NoRepeats, Without, Live, TopAt;
      call := NoCall;
      if !clicked {
        return;
      }
      var top := HitTest(px, py);
      if top == null {
        return;
      }
      var win: Window := top;
      BringToFront(win);
      assert SameButFocus(win.flags, old(win.flags));
      assert win.ClosesAt(px, py) == old(win.ClosesAt(px, py)) && win.DragsAt(px, py) == old(win.DragsAt(px, py));
      assert ContentClick(win, px, py) == old(ContentClick(win, px, py));
      WithoutFront(old(order), win);
      call := ClickIn(win, px, py);
    }

    /** What a click on the window in front does, once it is there. */
    method ClickIn(win: Window, px: int, py: int) returns (call: Click)
      requires Valid() && FocusFlagged() && focused == win && win in order
      modifies this`focused, this`order, this`windowCount, this`dragging, this`dragX, this`dragY, windows
      ensures Valid() && call == ContentClick(win, px, py)
      ensures FocusFlagged() <==> !(win.ClosesAt(px, py) && |old(order)| > 1)
      ensures order == if win.ClosesAt(px, py) then Without(old(order), win) else old(order)
      ensures !win.ClosesAt(px, py) ==> focused == win
      ensures
        if !win.ClosesAt(px, py) && win.DragsAt(px, py)
        then dragging == win && dragX == px - win.x && dragY == py - win.y
        else dragging == old(dragging)
    {
      hide NoRepeats, Without, Live;
      call := NoCall;
      if win.ClosesAt(px, py) {
        Destroy(win);
        return;
      }
      if win.DragsAt(px, py) {
        dragging := win;
        dragX, dragY := px - win.x, py - win.y;
        return;
      }
      if win.clickable && win.ContentAt(px, py) {
        call := Call(px - win.x - 1, py - win.y - 20 - 1);
      }
    }
  }

  /** What is left of the order when a window goes, and whether the front window changes. */
  lemma {:induction false} FocusAfter(order: seq<Window>, win: Window)
    requires NoRepeats(order)
    ensures order != [] && order[|order| - 1] == win ==>
      Without(order, win) == order[..|order| - 1] && win !in order[..|order| - 1]
  {
    if order != [] && order[|order| - 1] == win {
      var rest := order[..|order| - 1];
      assert order == rest + [win];
      NoRepeatsAppend(rest, [win]);
      WithoutAppend(rest, [win], win);
      WithoutAbsent(rest, win);
      assert Without([win], win) == [];
    }
  }

  /** Two windows are created and the second is destroyed: the first has the focus but not the flag. */
  method FlagIsLost() returns (m: Manager, first: Window)
    ensures m.Valid() && m.focused == first && !HasFocusFlag(first.flags)
  {
    hide NoRepeats, Without, Live;
    m := new Manager();
    var one := m.Create(50, 50, 300, 200, 5);
    first := one;
    var two := m.Create(100, 50, 350, 250, 5);
    var second: Window := two;
    ghost var order := m.order;
    assert order == [first, second];
    FocusAfter(order, second);
    m.Destroy(second);
    assert m.order == order[..1] && order[..1][0] == first;
  }

  lemma {:induction false} WithoutFront<T>(s: seq<T>, w: T)
    ensures Without(Without(s, w) + [w], w) == Without(s, w)
  {
    WithoutMiddle(Without(s, w), w, []);
    assert Without(s, w) + [w] + [] == Without(s, w) + [w];
  }

  lemma {:induction false} TopOfPrefix(slots: seq<Window?>, px: int, py: int)
    requires slots != []
    ensures TopAt(Live(slots), px, py) ==
      if slots[|slots| - 1] != null && slots[|slots| - 1].Contains(px, py) then slots[|slots| - 1]
      else TopAt(Live(slots[..|slots| - 1]), px, py)
  {
    var n := |slots| - 1;
    LiveSplit(slots, n);
    NoneLive(slots[n + 1..]);
    if slots[n] == null {
      assert Live([slots[n]]) == [];
      assert Live(slots) == Live(slots[..n]);
    } else {
      var w: Window := slots[n];
      assert Live([slots[n]]) == [w];
      assert Live(slots) == Live(slots[..n]) + [w];
      assert (Live(slots[..n]) + [w])[..|Live(slots[..n])|] == Live(slots[..n]);
    }
  }
}
