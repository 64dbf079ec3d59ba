/** The frame allocator: a bitmap of 4096 frames and a search hint, against the set of frames held. */
module FrameAllocator {

  const FRAMES: nat := 4096
  const NO_FRAME: nat := 0xFFFFFFFF

  // ---------------------------------------------------------------- bits

  /** `1 << k` as a byte. */
  function Mask(k: nat): (m: bv8)
    requires k < 8
    ensures m == (1 as bv8) << k
  {
    if k == 0 then 1 else if k == 1 then 2 else if k == 2 then 4 else if k == 3 then 8
    else if k == 4 then 16 else if k == 5 then 32 else if k == 6 then 64 else 128
  }

  predicate Bit(b: bv8, k: nat)
    requires k < 8
  {
    b & Mask(k) != 0
  }

  lemma {:induction false} SetBit(b: bv8, k: nat, j: nat)
    requires k < 8 && j < 8
    ensures Bit(b | Mask(k), j) <==> j == k || Bit(b, j)
  {
  }

  lemma {:induction false} ClearBit(b: bv8, k: nat, j: nat)
    requires k < 8 && j < 8
    ensures Bit(b & !Mask(k), j) <==> j != k && Bit(b, j)
  {
  }

  // ---------------------------------------------------------------- the set of frames held

  ghost function LowestFree(held: set<nat>, i: nat): (r: nat)
    requires i <= FRAMES
    decreases FRAMES - i
  {
    if i == FRAMES then NO_FRAME else if i !in held then i else LowestFree(held, i + 1)
  }

  lemma {:induction false} LowestFreeIs(held: set<nat>, i: nat)
    requires i <= FRAMES
    ensures LowestFree(held, i) == NO_FRAME <==> forall f :: i <= f < FRAMES ==> f in held
    ensures LowestFree(held, i) != NO_FRAME ==>
      && i <= LowestFree(held, i) < FRAMES && LowestFree(held, i) !in held
      && forall f :: i <= f < LowestFree(held, i) ==> f in held
    decreases FRAMES - i
  {
    if i < FRAMES && i in held {
      LowestFreeIs(held, i + 1);
    }
  }

  /** The search may start anywhere below which every frame is held. */
  lemma {:induction false} HintIsHarmless(held: set<nat>, hint: nat, i: nat)
    requires i <= hint <= FRAMES && forall f :: i <= f < hint ==> f in held
    ensures LowestFree(held, i) == LowestFree(held, hint)
    decreases hint - i
  {
    if i < hint {
      HintIsHarmless(held, hint, i + 1);
    }
  }

  /** Starting at a hint finds what a whole search finds exactly when every frame below it is held. */
  lemma {:induction false} HintHides(held: set<nat>, hint: nat)
    requires hint <= FRAMES
    ensures LowestFree(held, hint) == LowestFree(held, 0) <==> forall f :: 0 <= f < hint ==> f in held
  {
    LowestFreeIs(held, 0);
    LowestFreeIs(held, hint);
  }

  /** With a cleared bitmap the search returns the hint itself: every frame below it is hidden. */
  lemma {:induction false} ClearedSearch(hint: nat)
    requires hint <= FRAMES
    ensures LowestFree({}, hint) == if hint < FRAMES then hint else NO_FRAME
  {
  }

  // ---------------------------------------------------------------- runs

  datatype Event = Alloc | Free(frame: nat)

  ghost predicate Legal(events: seq<Event>) {
    forall i :: 0 <= i < |events| && events[i].Free? ==> events[i].frame < FRAMES
  }

  ghost function After(held: set<nat>, e: Event): set<nat> {
    match e
    case Free(f) => held - {f}
    case Alloc => var r := LowestFree(held, 0); if r == NO_FRAME then held else held + {r}
  }

  /** The frames held after a run from the boot-time state. */
  ghost function HeldAfter(events: seq<Event>): set<nat> {
    if events == [] then {} else After(HeldAfter(events[..|events| - 1]), events[|events| - 1])
  }

  /** What the allocation at place `i` of a run returns. */
  ghost function Handed(events: seq<Event>, i: nat): nat
    requires i < |events|
  {
    LowestFree(HeldAfter(events[..i]), 0)
  }

  lemma {:induction false} HeldUntilFreed(events: seq<Event>, f: nat, i: nat, j: nat)
    requires i <= j <= |events| && f in HeldAfter(events[..i])
    requires Free(f) !in events[i..j]
    ensures f in HeldAfter(events[..j])
    decreases j - i
  {
    if i < j {
      assert events[..j][..j - 1] == events[..j - 1];
      assert events[i..j - 1] == events[i..j][..j - 1 - i];
      HeldUntilFreed(events, f, i, j - 1);
      assert events[i..j][j - 1 - i] == events[j - 1];
    }
  }

  /** A frame is never handed out twice without a free of it in between. */
  lemma {:induction false} NeverHandedTwice(events: seq<Event>, i: nat, j: nat)
    requires i < j < |events| && events[i] == Alloc && events[j] == Alloc
    requires Handed(events, i) == Handed(events, j) != NO_FRAME
    ensures Free(Handed(events, i)) in events[i + 1..j]
  {
    var f := Handed(events, i);
    assert events[..i + 1][..i] == events[..i];
    if Free(f) !in events[i + 1..j] {
      HeldUntilFreed(events, f, i + 1, j);
      LowestFreeIs(HeldAfter(events[..j]), 0);
      assert false;
    }
  }

  /** An allocation fails exactly when 4096 frames are held, and only real frames are ever held. */
  lemma {:induction false} FailsExactlyWhenFull(events: seq<Event>)
    requires Legal(events)
    ensures forall f :: f in HeldAfter(events) ==> f < FRAMES
    ensures LowestFree(HeldAfter(events), 0) == NO_FRAME <==> |HeldAfter(events)| == FRAMES
    decreases |events|
  {
    var held := HeldAfter(events);
    if events != [] {
      FailsExactlyWhenFull(events[..|events| - 1]);
      LowestFreeIs(HeldAfter(events[..|events| - 1]), 0);
    }
    LowestFreeIs(held, 0);
    FullMeansAll(held, FRAMES);
  }

  lemma {:induction false} FullMeansAll(held: set<nat>, n: nat)
    requires forall f :: f in held ==> f < n
    ensures |held| <= n && (|held| == n <==> forall f :: 0 <= f < n ==> f in held)
    decreases n
  {
    if n == 0 {
      assert held == {};
    } else {
      FullMeansAll(held - {n - 1}, n - 1);
      if n - 1 in held {
        assert |held| == |held - {n - 1}| + 1;
      } else {
        assert held - {n - 1} == held;
      }
      assert forall f :: f in held - {n - 1} <==> f in held && f != n - 1;
    }
  }

  // ---------------------------------------------------------------- the allocator

  class Allocator {
    const bitmap: array<bv8>
    var lastFrame: nat

    ghost predicate Shaped()
      reads this
    {
      bitmap.Length == 512 && lastFrame <= 4096
    }

    predicate Used(i: nat)
      requires bitmap.Length == 512 && i < 4096
      reads bitmap
    {
      Bit(bitmap[i / 8], i % 8)
    }

    /** Frame `i` is bit i % 8 of byte i / 8. */
    lemma {:induction false} UsedIsBit(i: nat)
      requires bitmap.Length == 512 && i < 4096
      ensures i in Held() <==> bitmap[i / 8] & ((1 as bv8) << (i % 8)) != 0
    {
      assert i in Held() <==> Used(i);
    }

    ghost function Held(): set<nat>
      requires bitmap.Length == 512
      reads bitmap
    {
      set i: nat | 0 <= i < 4096 && Used(i)
    }

    /** Every frame below the hint is held. */
    ghost predicate Valid()
      reads this, bitmap
    {
      Shaped() && forall i :: 0 <= i < lastFrame ==> i in Held()
    }

    /** The static initial values, with `pmm_init` run on them at boot. */
    constructor ()
      ensures Valid() && Held() == {} && fresh(bitmap)
    {
      bitmap := new bv8[512](i => 0);
      lastFrame := 0;
      new;
      Init();
    }

    /** `pmm_init` clears the bitmap and leaves the hint alone: run again later, it is sound only
        while the hint is still 0. Otherwise the next search skips every frame below the hint. */
    method Init()
      requires Shaped()
      modifies bitmap
      ensures Shaped() && Held() == {} && lastFrame == old(lastFrame)
      ensures Valid() <==> lastFrame == 0
      ensures LowestFree(Held(), lastFrame) == if lastFrame < FRAMES then lastFrame else NO_FRAME
    {
      ClearedSearch(lastFrame);
      for i := 0 to 512
        invariant forall k :: 0 <= k < i ==> bitmap[k] == 0
      {
        bitmap[i] := 0;
      }
      assert lastFrame > 0 ==> 0 !in Held();
    }

    /** `pmm_alloc_frame`: the search starts at the hint, which is harmless while every frame below it
        is held. */
    method AllocFrame() returns (r: nat)
      requires Shaped()
      modifies this, bitmap
      ensures Shaped() && r == LowestFree(old(Held()), old(lastFrame))
      ensures lastFrame == if r == NO_FRAME then old(lastFrame) else r + 1
      ensures r < 4096 || r == 0xFFFFFFFF
      ensures Held() == if r == 0xFFFFFFFF then old(Held()) else old(Held()) + {r}
      ensures old(Valid()) ==> Valid() && r == LowestFree(old(Held()), 0) && Held() == After(old(Held()), Alloc)
    {
      hide Held, Bit;
      ghost var held, start := Held(), lastFrame;
      if Valid() {
        HintIsHarmless(held, lastFrame, 0);
      }
      var i := lastFrame;
      while i < 4096
        invariant lastFrame <= i <= 4096 && Held() == held && bitmap[..] == old(bitmap[..])
        invariant lastFrame == start && forall k :: start <= k < i ==> k in held
        invariant LowestFree(held, i) == LowestFree(held, start)
      {
        var used := IsUsed(i);
        if !used {
          Mark(i);
          lastFrame := i + 1;
          return i;
        }
        i := i + 1;
      }
      return 0xFFFFFFFF;
    }

    /** `frame_bitmap[idx] & (1 << bit)`. */
    method IsUsed(i: nat) returns (used: bool)
      requires bitmap.Length == 512 && i < 4096
      ensures used <==> i in Held()
    {
      var idx, bit := i / 8, i % 8;
      used := bitmap[idx] & Mask(bit) != 0;
      assert used <==> Used(i);
    }

    /** `frame_bitmap[idx] |= 1 << bit`. */
    method Mark(i: nat)
      requires bitmap.Length == 512 && i < 4096
      modifies bitmap
      ensures Held() == old(Held()) + {i}
    {
      hide Bit, Mask;
      var idx, bit := i / 8, i % 8;
      ghost var was := bitmap[idx];
      bitmap[idx] := bitmap[idx] | Mask(bit);
      forall k: nat | k < 4096
        ensures Used(k) <==> k == i || old(Used(k))
      {
        SetBit(was, bit, k % 8);
      }
    }

    /** `frame_bitmap[idx] &= ~(1 << bit)`. */
    method Unmark(i: nat)
      requires bitmap.Length == 512 && i < 4096
      modifies bitmap
      ensures Held() == old(Held()) - {i}
    {
      hide Bit, Mask;
      var idx, bit := i / 8, i % 8;
      ghost var was := bitmap[idx];
      bitmap[idx] := bitmap[idx] & !Mask(bit);
      forall k: nat | k < 4096
        ensures Used(k) <==> k != i && old(Used(k))
      {
        ClearBit(was, bit, k % 8);
      }
    }

    /** `pmm_free_frame`; a frame number of 4096 or more would reach outside the bitmap. */
    method FreeFrame(frame: nat)
      requires Shaped() && frame < FRAMES
      modifies this, bitmap
      ensures Shaped() && Held() == After(old(Held()), Free(frame))
      ensures lastFrame == if frame < old(lastFrame) then frame else old(lastFrame)
      ensures old(Valid()) ==> Valid()
    {
      hide Bit, Mask;
      Unmark(frame);
      if frame < lastFrame {
        lastFrame := frame;
      }
    }
  }

  /** A run of calls after boot does what the set of frames does. */
  method RunEvents(events: seq<Event>) returns (a: Allocator, results: seq<nat>)
    requires Legal(events)
    ensures a.Valid() && a.Held() == HeldAfter(events)
    ensures |results| == |events|
    ensures forall i :: 0 <= i < |events| && events[i] == Alloc ==> results[i] == Handed(events, i)
  {
    hide LowestFree;
    a := new Allocator();
    results := [];
    for i := 0 to |events|
      invariant fresh(a) && fresh(a.bitmap) && a.Valid() && a.Held() == HeldAfter(events[..i])
      invariant |results| == i
      invariant forall k :: 0 <= k < i && events[k] == Alloc ==> results[k] == Handed(events, k)
    {
      assert events[..i + 1][..i] == events[..i];
      var r: nat := 0;
      match events[i] {
        case Alloc => r := a.AllocFrame();
        case Free(f) => a.FreeFrame(f);
      }
      results := results + [r];
    }
    assert events[..|events|] == events;
  }

  /** An allocation, a second `pmm_init` and another allocation: frame 0 is free and not found. */
  method InitAgain() returns (a: Allocator, r: nat)
    ensures a.Shaped() && r == 1 && 0 !in a.Held()
  {
    a := new Allocator();
    var first := a.AllocFrame();
    ClearedSearch(0);
    assert first == 0 && a.Held() == {0} && a.lastFrame == 1;
    a.Init();
    r := a.AllocFrame();
  }
}
