/** The mouse state: assembling packets from bytes, and the cursor that saves what it covers. */
module MouseCursor {
  import opened Bytes

  const WIDTH := 320
  const HEIGHT := 200

  // ---------------------------------------------------------------- packets

  datatype MouseState = MouseState(x: int, y: int, dx: int, dy: int, buttons: nat, prevButtons: nat)

  /** The three-byte packet being assembled; a first byte without bit 3 is dropped. */
  datatype Decoder = Waiting | GotOne(b0: byte) | GotTwo(b0: byte, b1: byte)

  datatype Mouse = Mouse(state: MouseState, decoder: Decoder)

  function Signed(b: byte): int {
    if b >= 0x80 then b - 0x100 else b
  }

  function Clamp(v: int, limit: int): int {
    if v < 0 then 0 else if v >= limit then limit - 1 else v
  }

  predicate InSync(b: byte) {
    b / 8 % 2 == 1
  }

  /** `process_packet`. */
  function ApplyPacket(p: MouseState, b0: byte, b1: byte, b2: byte): MouseState {
    var dx: int, dy: int := Signed(b1), 0 as int - Signed(b2);
    MouseState(Clamp(p.x + dx, WIDTH), Clamp(p.y + dy, HEIGHT), dx, dy, b0 % 8, p.buttons)
  }

  /** A movement as one byte, two's complement. */
  function Complement(m: int): byte
    requires -128 <= m < 128
  {
    if m < 0 then m + 256 else m
  }

  /** `q` is the place on the axis, from 0 below `limit`, that is nearest to `want`. */
  ghost predicate Nearest(q: int, want: int, limit: int) {
    0 <= q < limit && forall x :: 0 <= x < limit ==> AtLeastAsNear(q, x, want)
  }

  predicate AtLeastAsNear(q: int, x: int, want: int) {
    Abs(q - want) <= Abs(x - want)
  }

  lemma {:induction false} ClampIsNearest(want: int, limit: int)
    requires limit > 0
    ensures Nearest(Clamp(want, limit), want, limit)
  {
    forall x | 0 <= x < limit
      ensures AtLeastAsNear(Clamp(want, limit), x, want)
    {
    }
  }

  /** A packet moves the mouse by `m` to the right and `n` up, screen rows counting downwards, or as far as
      the screen goes; the low three bits of its first byte are the buttons. */
  lemma {:induction false} PacketMoves(p: MouseState, high: nat, buttons: nat, m: int, n: int)
    requires OnScreen(p) && high < 32 && buttons < 8 && -128 <= m < 128 && -128 <= n < 128
    ensures var q := ApplyPacket(p, 8 * high + buttons, Complement(m), Complement(n));
            && Nearest(q.x, p.x + m, 320) && Nearest(q.y, p.y - n, 200)
            && (0 <= p.x + m < 320 ==> q.x == p.x + m) && (0 <= p.y - n < 200 ==> q.y == p.y - n)
            && q.dx == m && q.dy == -n
            && q.buttons == buttons && q.prevButtons == p.buttons
  {
    ClampIsNearest(p.x + m, 320);
    ClampIsNearest(p.y - n, 200);
    assert Signed(Complement(m)) == m && Signed(Complement(n)) == n;
    assert (8 * high + buttons) % 8 == buttons;
  }

  /** A packet starts with a byte that has bit 3. */
  lemma {:induction false} SyncBit(high: nat, low: nat)
    requires high < 16 && low < 8
    ensures InSync(16 * high + 8 + low) && !InSync(16 * high + low)
  {
  }

  function OnByte(m: Mouse, b: byte): Mouse {
    match m.decoder
    case Waiting => if InSync(b) then m.(decoder := GotOne(b)) else m
    case GotOne(b0) => m.(decoder := GotTwo(b0, b))
    case GotTwo(b0, b1) => Mouse(ApplyPacket(m.state, b0, b1, b), Waiting)
  }

  function OnBytes(m: Mouse, bytes: seq<byte>): Mouse
    decreases |bytes|
  {
    if bytes == [] then m else OnBytes(OnByte(m, bytes[0]), bytes[1..])
  }

  predicate OnScreen(p: MouseState) {
    0 <= p.x < WIDTH && 0 <= p.y < HEIGHT
  }

  /** Whatever bytes arrive, the mouse position stays on the screen. */
  lemma {:induction false} StaysOnScreen(m: Mouse, bytes: seq<byte>)
    requires OnScreen(m.state)
    ensures OnScreen(OnBytes(m, bytes).state)
    decreases |bytes|
  {
    if bytes != [] {
      StaysOnScreen(OnByte(m, bytes[0]), bytes[1..]);
    }
  }

  datatype Packet = Packet(b0: byte, b1: byte, b2: byte)

  function Wire(packets: seq<Packet>): seq<byte> {
    if packets == [] then [] else [packets[0].b0, packets[0].b1, packets[0].b2] + Wire(packets[1..])
  }

  function ApplyPackets(p: MouseState, packets: seq<Packet>): MouseState
    decreases |packets|
  {
    if packets == [] then p
    else ApplyPackets(ApplyPacket(p, packets[0].b0, packets[0].b1, packets[0].b2), packets[1..])
  }

  /** In step with the device, the bytes of well-formed packets act as those packets, one by one;
      noise before them that lacks the sync bit is skipped. */
  lemma {:induction false} PacketsDecode(p: MouseState, noise: seq<byte>, packets: seq<Packet>)
    requires forall i :: 0 <= i < |noise| ==> !InSync(noise[i])
    requires forall i :: 0 <= i < |packets| ==> InSync(packets[i].b0)
    ensures OnBytes(Mouse(p, Waiting), noise + Wire(packets)) == Mouse(ApplyPackets(p, packets), Waiting)
    decreases |noise|, |packets|
  {
    hide ApplyPacket;
    var all := noise + Wire(packets);
    if noise != [] {
      assert all[1..] == noise[1..] + Wire(packets);
      PacketsDecode(p, noise[1..], packets);
    } else if packets != [] {
      var k, rest := packets[0], Wire(packets[1..]);
      assert all == [k.b0, k.b1, k.b2] + rest;
      OnePacket(p, k, rest);
      PacketsDecode(ApplyPacket(p, k.b0, k.b1, k.b2), [], packets[1..]);
      assert [] + rest == rest;
    }
  }

  lemma {:induction false} OnePacket(p: MouseState, k: Packet, rest: seq<byte>)
    requires InSync(k.b0)
    ensures OnBytes(Mouse(p, Waiting), [k.b0, k.b1, k.b2] + rest)
            == OnBytes(Mouse(ApplyPacket(p, k.b0, k.b1, k.b2), Waiting), rest)
  {
    hide ApplyPacket, InSync;
    var all := [k.b0, k.b1, k.b2] + rest;
    assert all[1..] == [k.b1, k.b2] + rest && all[1..][1..] == [k.b2] + rest && all[1..][1..][1..] == rest;
    assert OnBytes(Mouse(p, Waiting), all) == OnBytes(Mouse(p, GotOne(k.b0)), all[1..]);
    assert OnBytes(Mouse(p, GotOne(k.b0)), all[1..]) == OnBytes(Mouse(p, GotTwo(k.b0, k.b1)), all[1..][1..]);
  }

  // ---------------------------------------------------------------- the cursor image

  type Image = s: seq<byte> | |s| == 64000 witness seq(64000, i => 0)

  /** The arrow bitmap: 0 transparent, 1 black, 2 white. */
  const BITMAP: seq<byte> := [
    1, 0, 0, 0, 0, 0, 0, 0, 0, 0, 0, 0,
    1, 1, 0, 0, 0, 0, 0, 0, 0, 0, 0, 0,
    1, 2, 1, 0, 0, 0, 0, 0, 0, 0, 0, 0,
    1, 2, 2, 1, 0, 0, 0, 0, 0, 0, 0, 0,
    1, 2, 2, 2, 1, 0, 0, 0, 0, 0, 0, 0,
    1, 2, 2, 2, 2, 1, 0, 0, 0, 0, 0, 0,
    1, 2, 2, 2, 2, 2, 1, 0, 0, 0, 0, 0,
    1, 2, 2, 2, 2, 2, 2, 1, 0, 0, 0, 0,
    1, 2, 2, 2, 2, 1, 1, 1, 1, 0, 0, 0,
    1, 2, 1, 2, 2, 1, 0, 0, 0, 0, 0, 0,
    1, 1, 0, 1, 1, 1, 0, 0, 0, 0, 0, 0,
    1, 0, 0, 0, 1, 1, 0, 0, 0, 0, 0, 0
  ]

  function BitmapAt(k: nat): byte {
    if k < |BITMAP| then BITMAP[k] else 0
  }

  /** Pixel `p` lies in the 12x12 rectangle with its corner at `(sx, sy)`. */
  predicate InRect(p: nat, sx: nat, sy: nat) {
    sx <= p % 320 < sx + 12 && sy <= p / 320 < sy + 12
  }

  /** Its place in the save buffer. */
  function Place(p: nat, sx: nat, sy: nat): int {
    (p / 320 - sy) * 12 + (p % 320 - sx)
  }

  lemma {:induction false} PlaceIs(p: nat, sx: nat, sy: nat, y: nat, x: nat)
    requires InRect(p, sx, sy) && x < 12
    ensures 0 <= Place(p, sx, sy) < 144
    ensures Place(p, sx, sy) == 12 * y + x <==> p == (sy + y) * 320 + (sx + x)
  {
  }

  lemma {:induction false} CellOf(sx: nat, sy: nat, y: nat, x: nat)
    requires sx + x < 320 && sy + y < 200 && x < 12 && y < 12
    ensures var p := (sy + y) * 320 + (sx + x);
            p < 64000 && InRect(p, sx, sy) && Place(p, sx, sy) == 12 * y + x
  {
    var p := (sy + y) * 320 + (sx + x);
    assert p / 320 == sy + y && p % 320 == sx + x;
  }

  function Over(under: byte, pixel: byte): byte {
    if pixel == 1 then 0 else if pixel == 2 then 15 else under
  }

  /** The pixel of the image `base` with the first `n` cells of the cursor drawn over it. */
  function PixelWith(base: Image, sx: nat, sy: nat, n: nat, p: nat): byte
    requires p < 64000
  {
    if InRect(p, sx, sy) && 0 <= Place(p, sx, sy) < n then Over(base[p], BitmapAt(Place(p, sx, sy))) else base[p]
  }

  /** The image `base` with the cursor at `(sx, sy)`, clipped at the edges of the screen. */
  ghost function WithCursor(base: Image, sx: nat, sy: nat): Image {
    seq(64000, p requires 0 <= p < 64000 => PixelWith(base, sx, sy, 144, p))
  }

  /** Inside its rectangle, where it is on the screen, the bitmap paints black for 1 and white for 2. */
  lemma {:induction false} CursorPixels(base: Image, sx: nat, sy: nat, cx: nat, cy: nat)
    requires cx < 12 && cy < 12 && sx + cx < 320 && sy + cy < 200
    ensures var p := (sy + cy) * 320 + (sx + cx);
            WithCursor(base, sx, sy)[p]
            == if BITMAP[12 * cy + cx] == 1 then 0 else if BITMAP[12 * cy + cx] == 2 then 15 else base[p]
  {
    hide BitmapAt;
    CellOf(sx, sy, cy, cx);
    BitmapIs(12 * cy + cx);
  }

  lemma {:induction false} BitmapIs(k: nat)
    requires k < 144
    ensures |BITMAP| == 144 && BitmapAt(k) == BITMAP[k]
  {
  }

  /** Outside its rectangle the cursor changes nothing. */
  lemma {:induction false} CursorIsLocal(base: Image, sx: nat, sy: nat, x: nat, y: nat)
    requires x < 320 && y < 200
    requires !(sx <= x < sx + 12 && sy <= y < sy + 12)
    ensures WithCursor(base, sx, sy)[y * 320 + x] == base[y * 320 + x]
  {
    assert (y * 320 + x) % 320 == x && (y * 320 + x) / 320 == y;
  }

  // ---------------------------------------------------------------- save-under

  datatype Event = ByteEvent(b: byte) | ShowEvent | HideEvent | UpdateEvent

  class Cursor {
    const vga: array<byte>
    const packet: array<byte>
    const saved: array<byte>
    var x: int
    var y: int
    var dx: int
    var dy: int
    var buttons: nat
    var prevButtons: nat
    var visible: bool
    var cycle: nat
    var savedX: int
    var savedY: int
    ghost var base: Image  // the screen without the cursor
    ghost var drawn: bool  // the cursor is on the screen

    /** The screen is the image without the cursor, or that image with the cursor where it was last
        drawn; the save buffer holds what that cursor covers. */
    ghost predicate Valid()
      reads this, vga, packet, saved
    {
      && Separate()
      && OnScreen(State().state) && cycle < 3
      && (drawn ==> savedX >= 0)
      && Screen(vga[..], base, drawn, savedX, savedY)
      && SaveOk(saved[..], base, savedX, savedY, 144)
    }

    ghost predicate Separate()
      reads this
    {
      && vga.Length == 64000 && packet.Length == 3 && saved.Length == 144
      && vga != packet && vga != saved && packet != saved
    }

    ghost function State(): Mouse
      requires packet.Length == 3
      reads this, packet
    {
      Mouse(MouseState(x, y, dx, dy, buttons, prevButtons),
            if cycle == 0 then Waiting else if cycle == 1 then GotOne(packet[0]) else GotTwo(packet[0], packet[1]))
    }

    constructor (vga: array<byte>)
      requires vga.Length == 64000
      ensures Valid() && this.vga == vga && base == vga[..] && !drawn
      ensures x == 160 && y == 100 && visible && State().decoder == Waiting
    {
      this.vga := vga;
      packet := new byte[3](i => 0);
      saved := new byte[144](i => 0);
      x, y, dx, dy, buttons, prevButtons, visible, cycle := 160, 100, 0, 0, 0, 0, true, 0;
      savedX, savedY := -1, -1;
      base, drawn := vga[..], false;
    }

    /** `mouse_handler`, without its logging. */
    method HandleByte(data: byte)
      requires Valid()
      modifies this`x, this`y, this`dx, this`dy, this`buttons, this`prevButtons, this`cycle, packet
      ensures Valid() && State() == OnByte(old(State()), data)
    {
      if cycle == 0 {
        packet[0] := data;
        if data / 8 % 2 != 1 {
          return;
        }
        cycle := cycle + 1;
      } else if cycle == 1 {
        packet[1] := data;
        cycle := cycle + 1;
      } else {
        packet[2] := data;
        cycle := 0;
        ProcessPacket();
      }
    }

    /** `process_packet`. */
    method ProcessPacket()
      requires packet.Length == 3
      modifies this`x, this`y, this`dx, this`dy, this`buttons, this`prevButtons
      ensures State().state == ApplyPacket(old(State()).state, packet[0], packet[1], packet[2])
    {
      prevButtons := buttons;
      buttons := packet[0] % 8;
      dx := Signed(packet[1]);
      dy := 0 as int - Signed(packet[2]);
      x := x + dx;
      y := y + dy;
      if x < 0 { x := 0; }
      if x >= 320 { x := 319; }
      if y < 0 { y := 0; }
      if y >= 200 { y := 199; }
    }

    /** `mouse_show_cursor`. */
    method Show()
      requires Valid()
      modifies this`visible
      ensures Valid() && visible
    {
      visible := true;
    }

    /** `mouse_hide_cursor`: the screen is again the image without the cursor. */
    method Hide()
      requires Valid()
      modifies this`visible, this`drawn, vga
      ensures Valid() && !visible && !drawn && vga[..] == base
    {
      visible := false;
      Restore();
    }

    /** `vga_set_pixel_direct`. */
    method SetPixelDirect(px: int, py: int, color: byte)
      requires vga.Length == 64000
      modifies vga
      ensures vga[..] == if 0 <= px < 320 && 0 <= py < 200 then old(vga[..])[py * 320 + px := color] else old(vga[..])
    {
      if px >= 0 && px < 320 && py >= 0 && py < 200 {
        vga[py * 320 + px] := color;
      }
    }

    /** The restoring loop, found in both `mouse_hide_cursor` and `mouse_update_cursor`. */
    method Restore()
      requires Valid()
      modifies this`drawn, vga
      ensures Valid() && !drawn && vga[..] == base
    {
      if savedX >= 0 && savedY >= 0 {
        var idx := 0;
        for cy := 0 to 12
          invariant idx == 12 * cy && Separate()
          invariant Restored(vga[..], base, savedX, savedY, idx)
        {
          for cx := 0 to 12
            invariant idx == 12 * cy + cx && Separate()
            invariant Restored(vga[..], base, savedX, savedY, idx)
          {
            ghost var before := vga[..];
            SetPixelDirect(savedX + cx, savedY + cy, saved[idx]);
            RestoredNext(before, vga[..], saved[..], base, savedX, savedY, cy, cx);
            idx := idx + 1;
          }
        }
        AllRestored(vga[..], base, savedX, savedY);
      }
      drawn := false;
    }

    /** `mouse_update_cursor`: the cursor moves to the mouse position, over the same image. */
    method Update()
      requires Valid()
      modifies this`savedX, this`savedY, this`drawn, vga, saved
      ensures Valid()
      ensures if visible then drawn && savedX == x && savedY == y && vga[..] == WithCursor(base, x, y)
              else drawn == old(drawn) && vga[..] == old(vga[..])
    {
      if !visible {
        return;
      }
      Restore();
      Save();
      Draw();
    }

    /** The saving loop of `mouse_update_cursor`. */
    method Save()
      requires Valid() && !drawn
      modifies this`savedX, this`savedY, saved
      ensures Valid() && savedX == x && savedY == y
    {
      savedX := x;
      savedY := y;
      var idx := 0;
      for cy := 0 to 12
        invariant idx == 12 * cy && savedX == x && savedY == y && SaveOk(saved[..], base, x, y, idx)
      {
        for cx := 0 to 12
          invariant idx == 12 * cy + cx && savedX == x && savedY == y && SaveOk(saved[..], base, x, y, idx)
        {
          var px, py := savedX + cx, savedY + cy;
          ghost var before := saved[..];
          if px >= 0 && px < 320 && py >= 0 && py < 200 {
            saved[idx] := vga[py * 320 + px];
            assert saved[..] == before[idx := vga[py * 320 + px]];
          }
          SavedNext(before, saved[..], base, savedX, savedY, cy, cx);
          idx := idx + 1;
        }
      }
    }

    /** The drawing loop of `mouse_update_cursor`. */
    method Draw()
      requires Valid() && !drawn && savedX == x && savedY == y
      modifies this`drawn, vga
      ensures Valid() && drawn && vga[..] == WithCursor(base, x, y)
    {
      hide DrawnTo, WithCursor, BitmapAt, PixelWith;
      NothingDrawn(vga[..], base, x, y);
      for cy := 0 to 12
        invariant DrawnTo(vga[..], base, x, y, 12 * cy)
      {
        for cx := 0 to 12
          invariant DrawnTo(vga[..], base, x, y, 12 * cy + cx)
        {
          var px, py := x + cx, y + cy;
          ghost var before := vga[..];
          if px >= 0 && px < 320 && py >= 0 && py < 200 {
            CellOf(x, y, cy, cx);
            var pixel := BitmapAt(12 * cy + cx);
            if pixel == 1 {
              vga[py * 320 + px] := 0;
            } else if pixel == 2 {
              vga[py * 320 + px] := 15;
            }
            assert vga[..] == before[py * 320 + px := Over(before[py * 320 + px], pixel)];
          }
          DrawnNext(before, vga[..], base, x, y, cy, cx);
        }
      }
      AllDrawn(vga[..], base, x, y);
      drawn := true;
    }

    /** Any run of mouse bytes and cursor calls, nothing else writing to the screen: the image under
        the cursor never changes, and hiding the cursor brings it back. */
    method Run(events: seq<Event>)
      requires Valid()
      modifies this, vga, packet, saved
      ensures Valid() && base == old(base)
      ensures events != [] && events[|events| - 1] == HideEvent ==> vga[..] == base
    {
      for i := 0 to |events|
        invariant Valid() && base == old(base)
        invariant i > 0 && events[i - 1] == HideEvent ==> vga[..] == base
      {
        match events[i] {
          case ByteEvent(b) => HandleByte(b);
          case ShowEvent => Show();
          case HideEvent => Hide();
          case UpdateEvent => Update();
        }
      }
    }
  }

  /** What the screen holds. */
  ghost predicate Screen(vga: seq<byte>, base: Image, drawn: bool, savedX: int, savedY: int) {
    && |vga| == 64000 && -1 <= savedX < 320 && -1 <= savedY < 200 && (savedX >= 0 <==> savedY >= 0)
    && vga == if drawn && savedX >= 0 then WithCursor(base, savedX, savedY) else base
  }

  /** The first `n` places of the save buffer hold the covered pixels of the image. */
  ghost predicate SaveOk(saved: seq<byte>, base: Image, savedX: int, savedY: int, n: nat) {
    |saved| == 144 &&
    (savedX >= 0 && savedY >= 0 ==>
       forall p :: 0 <= p < 64000 && InRect(p, savedX, savedY) && 0 <= Place(p, savedX, savedY) < n ==>
                     Place(p, savedX, savedY) < 144 && saved[Place(p, savedX, savedY)] == base[p])
  }

  /** Outside the rectangle, and in its first `n` cells, the screen is the image. */
  ghost predicate Restored(vga: seq<byte>, base: Image, sx: int, sy: int, n: nat) {
    sx >= 0 && sy >= 0 && |vga| == 64000 &&
    forall p :: 0 <= p < 64000 && (InRect(p, sx, sy) ==> Place(p, sx, sy) < n) ==> vga[p] == base[p]
  }

  lemma {:induction false} RestoredNext(vga: seq<byte>, vga': seq<byte>, saved: seq<byte>, base: Image,
                                        sx: int, sy: int, y: nat, x: nat)
    requires Restored(vga, base, sx, sy, 12 * y + x) && x < 12 && y < 12
    requires SaveOk(saved, base, sx, sy, 144)
    requires vga' == if sx + x < 320 && sy + y < 200 then vga[(sy + y) * 320 + (sx + x) := saved[12 * y + x]] else vga
    ensures Restored(vga', base, sx, sy, 12 * y + x + 1)
  {
    var cell := (sy + y) * 320 + (sx + x);
    forall p | 0 <= p < 64000 && (InRect(p, sx, sy) ==> Place(p, sx, sy) < 12 * y + x + 1)
      ensures vga'[p] == base[p]
    {
      if InRect(p, sx, sy) {
        PlaceIs(p, sx, sy, y, x);
      }
      if sx + x < 320 && sy + y < 200 {
        CellOf(sx, sy, y, x);
      }
    }
  }

  lemma {:induction false} SavedNext(saved: seq<byte>, saved': seq<byte>, base: Image, sx: int, sy: int, y: nat, x: nat)
    requires SaveOk(saved, base, sx, sy, 12 * y + x) && x < 12 && y < 12 && 0 <= sx < 320 && 0 <= sy < 200
    requires saved' == if sx + x < 320 && sy + y < 200
                       then saved[12 * y + x := base[(sy + y) * 320 + (sx + x)]] else saved
    ensures SaveOk(saved', base, sx, sy, 12 * y + x + 1)
  {
    forall p | 0 <= p < 64000 && InRect(p, sx, sy) && 0 <= Place(p, sx, sy) < 12 * y + x + 1
      ensures Place(p, sx, sy) < 144 && saved'[Place(p, sx, sy)] == base[p]
    {
      PlaceIs(p, sx, sy, y, x);
    }
  }

  /** The first `n` cells of the cursor are drawn. */
  ghost predicate DrawnTo(vga: seq<byte>, base: Image, sx: int, sy: int, n: nat) {
    0 <= sx < 320 && 0 <= sy < 200 && |vga| == 64000 &&
    forall p :: 0 <= p < 64000 ==> vga[p] == PixelWith(base, sx, sy, n, p)
  }

  lemma {:induction false} NothingDrawn(vga: seq<byte>, base: Image, sx: int, sy: int)
    requires 0 <= sx < 320 && 0 <= sy < 200 && vga == base
    ensures DrawnTo(vga, base, sx, sy, 0)
  {
  }

  lemma {:induction false} AllDrawn(vga: seq<byte>, base: Image, sx: int, sy: int)
    requires DrawnTo(vga, base, sx, sy, 144)
    ensures vga == WithCursor(base, sx, sy)
  {
  }

  lemma {:induction false} DrawnNext(vga: seq<byte>, vga': seq<byte>, base: Image, sx: int, sy: int, y: nat, x: nat)
    requires DrawnTo(vga, base, sx, sy, 12 * y + x) && x < 12 && y < 12
    requires var cell := (sy + y) * 320 + (sx + x);
             vga' == if sx + x < 320 && sy + y < 200 then vga[cell := Over(vga[cell], BitmapAt(12 * y + x))] else vga
    ensures DrawnTo(vga', base, sx, sy, 12 * y + x + 1)
  {
    hide BitmapAt, Over;
    forall p | 0 <= p < 64000
      ensures vga'[p] == PixelWith(base, sx, sy, 12 * y + x + 1, p)
    {
      if InRect(p, sx, sy) {
        PlaceIs(p, sx, sy, y, x);
      }
      if sx + x < 320 && sy + y < 200 {
        CellOf(sx, sy, y, x);
      }
    }
  }

  lemma {:induction false} AllRestored(vga: seq<byte>, base: Image, sx: int, sy: int)
    requires Restored(vga, base, sx, sy, 144)
    ensures vga == base
  {
    forall p | 0 <= p < 64000
      ensures vga[p] == base[p]
    {
      if InRect(p, sx, sy) {
        PlaceIs(p, sx, sy, 0, 0);
      }
    }
  }
}
