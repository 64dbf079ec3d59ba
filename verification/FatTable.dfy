/** The allocation table of a FAT-12 volume as an array of 12-bit entries, with the
    chain walking, chain freeing and first-free allocation of `src/fs.c` on top. */
module FatTable {

  const END_MARK := 0xFF8      // entries from here on end a chain
  const END_OF_CHAIN := 0xFFF  // the end mark the driver writes

  type Entry = x: int | 0 <= x < 0x1000
  type Fat = f: seq<Entry> | |f| <= END_MARK witness []

  /** A value that the driver follows as a cluster number. */
  predicate IsLink(c: int) {
    2 <= c < END_MARK
  }

  /** The values of the format: from 2 to 0xFF7 a link, from 0xFF8 on an end mark, 0xFFF the one written. */
  lemma {:induction false} MarksAre(c: int)
    ensures IsLink(c) <==> 2 <= c <= 0xFF7
    ensures END_OF_CHAIN == 0xFFF && (c >= END_MARK <==> c > 0xFF7)
  {
  }

  /** Every link stored in the table points into the table. */
  ghost predicate LinksInRange(fat: Fat) {
    forall c :: 2 <= c < |fat| && IsLink(fat[c]) ==> fat[c] < |fat|
  }

  ghost predicate StartInRange(fat: Fat, c: int) {
    IsLink(c) ==> c < |fat|
  }

  // ---------------------------------------------------------------- sequences without repetition

  ghost predicate Differ(ch: seq<int>, i: nat, j: nat) {
    i < |ch| && j < |ch| && ch[i] != ch[j]
  }

  ghost predicate Distinct(ch: seq<int>) {
    forall i, j :: 0 <= i < j < |ch| ==> Differ(ch, i, j)
  }

  /** Any part of a sequence without repetition is one. */
  lemma {:induction false} DistinctPart(ch: seq<int>, a: nat, b: nat)
    requires Distinct(ch) && a <= b <= |ch|
    ensures Distinct(ch[a..b])
  {
    forall i, j | 0 <= i < j < b - a
      ensures Differ(ch[a..b], i, j)
    {
      assert Differ(ch, a + i, a + j);
    }
  }

  lemma {:induction false} DistinctTail(ch: seq<int>)
    requires Distinct(ch) && ch != []
    ensures Distinct(ch[1..]) && ch[0] !in ch[1..]
  {
    DistinctPart(ch, 1, |ch|);
    assert ch[1..|ch|] == ch[1..];
    forall j | 1 <= j < |ch|
      ensures ch[0] != ch[j]
    {
      assert Differ(ch, 0, j);
    }
  }

  lemma {:induction false} DistinctPrefix(ch: seq<int>, k: nat)
    requires Distinct(ch) && k <= |ch|
    ensures Distinct(ch[..k])
    ensures k < |ch| ==> ch[k] !in ch[..k]
  {
    DistinctPart(ch, 0, k);
    assert ch[0..k] == ch[..k];
    if k < |ch| {
      forall i | 0 <= i < k
        ensures ch[i] != ch[k]
      {
        assert Differ(ch, i, k);
      }
    }
  }

  lemma {:induction false} DistinctCons(x: int, ch: seq<int>)
    requires Distinct(ch) && x !in ch
    ensures Distinct([x] + ch)
  {
    var all := [x] + ch;
    forall i, j | 0 <= i < j < |all|
      ensures Differ(all, i, j)
    {
      if i > 0 { assert Differ(ch, i - 1, j - 1); }
    }
  }

  // ---------------------------------------------------------------- chains

  /** The clusters met when following entries from `c`, at most `fuel` of them. */
  function Walk(fat: Fat, c: int, fuel: nat): seq<int>
    decreases fuel
  {
    if fuel == 0 || !(2 <= c < |fat|) then [] else [c] + Walk(fat, fat[c], fuel - 1)
  }

  /** The entry of the `i`-th cluster holds the next one. */
  ghost predicate Linked(fat: Fat, ch: seq<int>, i: nat) {
    i + 1 < |ch| && 0 <= ch[i] < |fat| && fat[ch[i]] == ch[i + 1]
  }

  /** `ch` is an acyclic chain of the table: distinct clusters, each entry holding the
      next cluster, the last one an end mark. */
  ghost predicate IsChain(fat: Fat, ch: seq<int>) {
    && ch != []
    && (forall i :: 0 <= i < |ch| ==> 2 <= ch[i] < |fat|)
    && Distinct(ch)
    && (forall i :: 0 <= i < |ch| - 1 ==> Linked(fat, ch, i))
    && fat[ch[|ch| - 1]] >= END_MARK
  }

  lemma {:induction false} WalkBound(fat: Fat, c: int, fuel: nat)
    ensures |Walk(fat, c, fuel)| <= fuel
    decreases fuel
  {
    if fuel != 0 && 2 <= c < |fat| {
      WalkBound(fat, fat[c], fuel - 1);
    }
  }

  /** Walking from the head of a chain visits exactly the chain. */
  lemma {:induction false} WalkOfChain(fat: Fat, ch: seq<int>, fuel: nat)
    requires IsChain(fat, ch) && fuel >= |ch|
    ensures Walk(fat, ch[0], fuel) == ch
  {
    if |ch| == 1 {
      assert Walk(fat, fat[ch[0]], fuel - 1) == [];
    } else {
      ChainTail(fat, ch);
      WalkOfChain(fat, ch[1..], fuel - 1);
    }
  }

  lemma {:induction false} ChainTail(fat: Fat, ch: seq<int>)
    requires IsChain(fat, ch) && |ch| > 1
    ensures IsChain(fat, ch[1..]) && fat[ch[0]] == ch[1..][0]
  {
    assert Linked(fat, ch, 0);
    DistinctTail(ch);
    forall i | 0 <= i < |ch[1..]| - 1
      ensures Linked(fat, ch[1..], i)
    {
      assert Linked(fat, ch, i + 1);
    }
  }

  /** A chain survives any change of the table that leaves its own entries alone. */
  lemma {:induction false} ChainFrame(fat: Fat, fat': Fat, ch: seq<int>)
    requires IsChain(fat, ch) && |fat'| == |fat|
    requires forall x :: x in ch ==> fat'[x] == fat[x]
    ensures IsChain(fat', ch)
  {
    forall i | 0 <= i < |ch|
      ensures fat'[ch[i]] == fat[ch[i]]
    {
      assert ch[i] in ch;
    }
    forall i | 0 <= i < |ch| - 1
      ensures Linked(fat', ch, i)
    {
      assert Linked(fat, ch, i);
    }
  }

  /** No cluster of a chain is free. */
  lemma {:induction false} ChainInUse(fat: Fat, ch: seq<int>, x: int)
    requires IsChain(fat, ch) && x in ch
    ensures 2 <= x < |fat| && fat[x] != 0
  {
    var i :| 0 <= i < |ch| && ch[i] == x;
    if i < |ch| - 1 {
      assert Linked(fat, ch, i);
    }
  }

  // ---------------------------------------------------------------- freeing a chain

  ghost function InUse(fat: Fat): set<int> {
    set c | 0 <= c < |fat| && fat[c] != 0
  }

  /** The table that `free_cluster_chain(c)` leaves. */
  ghost function FreeChain(fat: Fat, c: int): (r: Fat)
    requires LinksInRange(fat) && StartInRange(fat, c)
    ensures |r| == |fat|
    decreases InUse(fat)
  {
    if !IsLink(c) || fat[c] == 0 then fat
    else
      assert c in InUse(fat) && c !in InUse(fat[c := 0]);
      FreeChain(fat[c := 0], fat[c])
  }

  /** The table with the given clusters set free. */
  ghost function ZeroAll(fat: Fat, ch: seq<int>): (r: Fat) {
    seq(|fat|, c requires 0 <= c < |fat| => if c in ch then 0 else fat[c])
  }

  /** Freeing from the head of a chain zeroes the entries of the chain and no others. */
  lemma {:induction false} FreeChainOfChain(fat: Fat, ch: seq<int>)
    requires IsChain(fat, ch) && LinksInRange(fat)
    ensures FreeChain(fat, ch[0]) == ZeroAll(fat, ch)
    decreases |ch|
  {
    ChainInUse(fat, ch, ch[0]);
    var fat' := fat[ch[0] := 0];
    if |ch| == 1 {
      assert FreeChain(fat', fat[ch[0]]) == fat';
      assert fat' == ZeroAll(fat, ch);
    } else {
      ChainTail(fat, ch);
      DistinctTail(ch);
      ChainFrame(fat, fat', ch[1..]);
      FreeChainOfChain(fat', ch[1..]);
      assert forall x :: x in ch <==> x == ch[0] || x in ch[1..];
      assert ZeroAll(fat', ch[1..]) == ZeroAll(fat, ch);
    }
  }

  /** One step of following the table; 0 once the walk has stopped. */
  function Step(fat: Fat, c: int): int {
    if 2 <= c < |fat| then fat[c] else 0
  }

  function Iterate(fat: Fat, c: int, n: nat): int
    decreases n
  {
    if n == 0 then c else Iterate(fat, Step(fat, c), n - 1)
  }

  /** `x` is met when following the table from `c`, however long that takes. */
  ghost predicate Reaches(fat: Fat, c: int, x: int) {
    exists n: nat :: Iterate(fat, c, n) == x
  }

  /** On any table whose links are in range -- cyclic and cross-linked chains included --
      freeing from `c` zeroes exactly the clusters reachable from `c`. */
  lemma {:induction false} FreeChainExact(fat: Fat, c: int, x: int)
    requires LinksInRange(fat) && StartInRange(fat, c) && 0 <= x < |fat|
    ensures FreeChain(fat, c)[x] == if 2 <= x && Reaches(fat, c, x) then 0 else fat[x]
  {
    FreedIsReachable(fat, c, x);
    if 2 <= x && Reaches(fat, c, x) {
      var n: nat :| Iterate(fat, c, n) == x;
      ReachableIsFreed(fat, c, n);
    }
  }

  lemma {:induction false} FreedIsReachable(fat: Fat, c: int, x: int)
    requires LinksInRange(fat) && StartInRange(fat, c) && 0 <= x < |fat|
    ensures FreeChain(fat, c)[x] == fat[x] || (FreeChain(fat, c)[x] == 0 && 2 <= x && Reaches(fat, c, x))
    decreases InUse(fat)
  {
    if IsLink(c) && fat[c] != 0 {
      assert c in InUse(fat) && c !in InUse(fat[c := 0]);
      var fat' := fat[c := 0];
      FreedIsReachable(fat', fat[c], x);
      if x == c {
        assert Iterate(fat, c, 0) == x;
        assert FreeChain(fat', fat[c])[x] == 0;
      } else if FreeChain(fat', fat[c])[x] != fat[x] {
        var n: nat :| Iterate(fat', fat[c], n) == x;
        assert Iterate(fat, c, 1) == Iterate(fat, fat[c], 0);
        IterateBack(fat, c, fat[c], n);
      }
    }
  }

  /** What is reachable after clearing entry `k` was reachable before. */
  lemma {:induction false} IterateBack(fat: Fat, k: int, c: int, n: nat)
    requires 2 <= k < |fat| && Iterate(fat[k := 0], c, n) != 0
    requires Reaches(fat, k, c)
    ensures Reaches(fat, k, Iterate(fat[k := 0], c, n))
    decreases n
  {
    if n != 0 {
      if c == k {
        ZeroStays(fat[k := 0], n - 1);
      } else {
        var m: nat :| Iterate(fat, k, m) == c;
        IterateSnoc(fat, k, m);
        IterateBack(fat, k, Step(fat, c), n - 1);
      }
    }
  }

  lemma {:induction false} ZeroStays(fat: Fat, n: nat)
    ensures Iterate(fat, 0, n) == 0
  {
    if n != 0 {
      ZeroStays(fat, n - 1);
    }
  }

  lemma {:induction false} IterateSnoc(fat: Fat, c: int, n: nat)
    ensures Iterate(fat, c, n + 1) == Step(fat, Iterate(fat, c, n))
    decreases n
  {
    if n != 0 {
      IterateSnoc(fat, Step(fat, c), n - 1);
    }
  }

  /** The freed part is closed under following links: the start is free afterwards, and so is
      every successor of a freed cluster. */
  lemma {:induction false} FreedIsClosed(fat: Fat, c: int, x: int)
    requires LinksInRange(fat) && StartInRange(fat, c)
    ensures IsLink(c) ==> FreeChain(fat, c)[c] == 0
    ensures 2 <= x < |fat| && fat[x] != 0 && FreeChain(fat, c)[x] == 0 && IsLink(fat[x]) ==>
              FreeChain(fat, c)[fat[x]] == 0
    decreases InUse(fat)
  {
    if IsLink(c) && fat[c] != 0 {
      assert c in InUse(fat) && c !in InUse(fat[c := 0]);
      var fat' := fat[c := 0];
      FreedIsClosed(fat', fat[c], x);
      FreedIsReachable(fat', fat[c], c);
    }
  }

  lemma {:induction false} ReachableIsFreed(fat: Fat, c: int, n: nat)
    requires LinksInRange(fat) && StartInRange(fat, c)
    ensures StartInRange(fat, Iterate(fat, c, n))
    ensures IsLink(Iterate(fat, c, n)) ==> FreeChain(fat, c)[Iterate(fat, c, n)] == 0
  {
    FreedIsClosed(fat, c, c);
    if n != 0 {
      IterateSnoc(fat, c, n - 1);
      ReachableIsFreed(fat, c, n - 1);
      var y := Iterate(fat, c, n - 1);
      if 2 <= y < |fat| {
        FreedIsClosed(fat, c, y);
      }
    }
  }

  lemma {:induction false} FreeChainKeepsRange(fat: Fat, c: int)
    requires LinksInRange(fat) && StartInRange(fat, c)
    ensures LinksInRange(FreeChain(fat, c))
  {
    forall x | 2 <= x < |fat|
      ensures FreeChain(fat, c)[x] == 0 || FreeChain(fat, c)[x] == fat[x]
    {
      FreedIsReachable(fat, c, x);
    }
  }

  // ---------------------------------------------------------------- allocating

  /** The free clusters from `lo` on, in increasing order. */
  function FreeList(fat: Fat, lo: nat): seq<int>
    decreases |fat| - lo
  {
    if lo >= |fat| then []
    else (if fat[lo] == 0 then [lo] else []) + FreeList(fat, lo + 1)
  }

  lemma {:induction false} FreeListFree(fat: Fat, lo: nat, c: int)
    requires c in FreeList(fat, lo)
    ensures lo <= c < |fat| && fat[c] == 0
    decreases |fat| - lo
  {
    if !(fat[lo] == 0 && c == lo) {
      FreeListFree(fat, lo + 1, c);
    }
  }

  lemma {:induction false} FreeListDistinct(fat: Fat, lo: nat)
    ensures Distinct(FreeList(fat, lo))
    decreases |fat| - lo
  {
    hide Distinct;
    if lo < |fat| {
      var rest := FreeList(fat, lo + 1);
      FreeListDistinct(fat, lo + 1);
      if fat[lo] == 0 {
        if lo in rest {
          FreeListFree(fat, lo + 1, lo);
        }
        DistinctCons(lo, rest);
      } else {
        assert FreeList(fat, lo) == rest;
      }
    } else {
      NothingDistinct();
    }
  }

  lemma {:induction false} NothingDistinct()
    ensures Distinct([])
  {
  }

  lemma {:induction false} FreeListLeast(fat: Fat, lo: nat, x: int)
    requires FreeList(fat, lo) != [] && lo <= x < FreeList(fat, lo)[0]
    ensures x < |fat| && fat[x] != 0
    decreases |fat| - lo
  {
    if lo < |fat| && fat[lo] != 0 {
      var rest := FreeList(fat, lo + 1);
      assert FreeList(fat, lo) == rest;
      FreeListFree(fat, lo + 1, rest[0]);
      if x > lo {
        FreeListLeast(fat, lo + 1, x);
      }
    }
  }

  lemma {:induction false} FreeListMembers(fat: Fat, lo: nat)
    ensures forall i :: 0 <= i < |FreeList(fat, lo)| ==>
              lo <= FreeList(fat, lo)[i] < |fat| && fat[FreeList(fat, lo)[i]] == 0
    ensures Distinct(FreeList(fat, lo))
    ensures FreeList(fat, lo) != [] ==> forall x :: lo <= x < FreeList(fat, lo)[0] ==> fat[x] != 0
  {
    hide FreeList;
    var free := FreeList(fat, lo);
    forall i | 0 <= i < |free|
      ensures lo <= free[i] < |fat| && fat[free[i]] == 0
    {
      FreeListFree(fat, lo, free[i]);
    }
    FreeListDistinct(fat, lo);
    if free != [] {
      forall x | lo <= x < free[0]
        ensures fat[x] != 0
      {
        FreeListLeast(fat, lo, x);
      }
    }
  }

  lemma {:induction false} FreeListComplete(fat: Fat, lo: nat, c: nat)
    requires lo <= c < |fat| && fat[c] == 0
    ensures c in FreeList(fat, lo)
    decreases |fat| - lo
  {
    if lo != c {
      FreeListComplete(fat, lo + 1, c);
    }
  }

  /** The list only depends on which entries are zero. */
  lemma {:induction false} FreeListFrame(fat: Fat, fat': Fat, lo: nat)
    requires |fat'| == |fat| && forall c :: lo <= c < |fat| ==> (fat[c] == 0 <==> fat'[c] == 0)
    ensures FreeList(fat, lo) == FreeList(fat', lo)
    decreases |fat| - lo
  {
    if lo < |fat| {
      FreeListFrame(fat, fat', lo + 1);
    }
  }

  /** The first free cluster at or after `lo` heads the list; taking it leaves the tail. */
  lemma {:induction false} FreeListHead(fat: Fat, lo: nat, c: nat, v: Entry)
    requires lo <= c < |fat| && fat[c] == 0 && v != 0
    requires forall x :: lo <= x < c ==> fat[x] != 0
    ensures FreeList(fat, lo) != [] && FreeList(fat, lo)[0] == c
    ensures FreeList(fat[c := v], lo) == FreeList(fat, lo)[1..]
    decreases c - lo
  {
    if lo == c {
      FreeListFrame(fat, fat[c := v], lo + 1);
    } else {
      FreeListHead(fat, lo + 1, c, v);
    }
  }

  lemma {:induction false} FreeListEmpty(fat: Fat, lo: nat)
    requires forall x :: lo <= x < |fat| ==> fat[x] != 0
    ensures FreeList(fat, lo) == []
    decreases |fat| - lo
  {
    if lo < |fat| {
      FreeListEmpty(fat, lo + 1);
    }
  }

  /** The table after the clusters of `ch` were taken one by one, each linked from the one before. */
  ghost function Link(fat: Fat, ch: seq<int>): (r: Fat)
    requires forall i :: 0 <= i < |ch| ==> 2 <= ch[i] < |fat|
    ensures |r| == |fat|
  {
    if ch == [] then fat
    else
      var n := |ch| - 1;
      var f := Link(fat, ch[..n])[ch[n] := END_OF_CHAIN];
      if n == 0 then f else f[ch[n - 1] := ch[n]]
  }

  lemma {:induction false} LinkOutside(fat: Fat, ch: seq<int>, x: int)
    requires forall i :: 0 <= i < |ch| ==> 2 <= ch[i] < |fat|
    requires 0 <= x < |fat| && x !in ch
    ensures Link(fat, ch)[x] == fat[x]
    decreases |ch|
  {
    if ch != [] {
      var n := |ch| - 1;
      assert x != ch[n] && (n > 0 ==> x != ch[n - 1]);
      assert x !in ch[..n];
      LinkOutside(fat, ch[..n], x);
    }
  }

  lemma {:induction false} LinkInside(fat: Fat, ch: seq<int>, i: nat)
    requires forall i :: 0 <= i < |ch| ==> 2 <= ch[i] < |fat|
    requires Distinct(ch) && i < |ch|
    ensures Link(fat, ch)[ch[i]] == if i == |ch| - 1 then END_OF_CHAIN else ch[i + 1]
    decreases |ch|
  {
    var n := |ch| - 1;
    if i < n {
      DistinctPrefix(ch, n);
      assert Differ(ch, i, n);
      if i < n - 1 {
        assert Differ(ch, i, n - 1);
        LinkInside(fat, ch[..n], i);
      }
    } else if n > 0 {
      assert Differ(ch, n - 1, n);
    }
  }

  lemma {:induction false} LinkEntries(fat: Fat, ch: seq<int>)
    requires forall i :: 0 <= i < |ch| ==> 2 <= ch[i] < |fat|
    requires Distinct(ch)
    ensures forall x :: 0 <= x < |fat| && x !in ch ==> Link(fat, ch)[x] == fat[x]
    ensures forall i :: 0 <= i < |ch| - 1 ==> Linked(Link(fat, ch), ch, i)
    ensures ch != [] ==> Link(fat, ch)[ch[|ch| - 1]] == END_OF_CHAIN
  {
    hide Link, Distinct;
    forall x | 0 <= x < |fat| && x !in ch
      ensures Link(fat, ch)[x] == fat[x]
    {
      LinkOutside(fat, ch, x);
    }
    forall i | 0 <= i < |ch| - 1
      ensures Linked(Link(fat, ch), ch, i)
    {
      LinkInside(fat, ch, i);
    }
    if ch != [] {
      LinkInside(fat, ch, |ch| - 1);
    }
  }

  lemma {:induction false} LinkNext(fat: Fat, free: seq<int>, k: nat)
    requires k < |free| && forall i :: 0 <= i < |free| ==> 2 <= free[i] < |fat|
    ensures var f := Link(fat, free[..k])[free[k] := END_OF_CHAIN];
            Link(fat, free[..k + 1]) == if k == 0 then f else f[free[k - 1] := free[k]]
  {
    assert free[..k + 1][..k] == free[..k];
  }

  /** The last cluster already carries the end mark. */
  lemma {:induction false} LinkEndMarked(fat: Fat, ch: seq<int>, last: int)
    requires ch != [] && last == ch[|ch| - 1]
    requires forall i :: 0 <= i < |ch| ==> 2 <= ch[i] < |fat|
    requires Distinct(ch)
    ensures Link(fat, ch)[last := END_OF_CHAIN] == Link(fat, ch)
  {
    LinkEntries(fat, ch);
  }

  /** Linking distinct clusters makes them a chain. */
  lemma {:induction false} LinkIsChain(fat: Fat, ch: seq<int>)
    requires ch != []
    requires forall i :: 0 <= i < |ch| ==> 2 <= ch[i] < |fat|
    requires Distinct(ch)
    ensures IsChain(Link(fat, ch), ch)
  {
    LinkEntries(fat, ch);
  }

  /** Rolling back: freeing a chain that was just built from free clusters restores the table. */
  lemma {:induction false} FreeUndoesLink(fat: Fat, ch: seq<int>)
    requires LinksInRange(fat) && ch != []
    requires forall i :: 0 <= i < |ch| ==> 2 <= ch[i] < |fat| && fat[ch[i]] == 0
    requires Distinct(ch)
    ensures LinksInRange(Link(fat, ch))
    ensures FreeChain(Link(fat, ch), ch[0]) == fat
  {
    LinkKeepsRange(fat, ch);
    LinkEntries(fat, ch);
    LinkIsChain(fat, ch);
    FreeChainOfChain(Link(fat, ch), ch);
    assert ZeroAll(Link(fat, ch), ch) == fat;
  }

  lemma {:induction false} LinkKeepsRange(fat: Fat, ch: seq<int>)
    requires LinksInRange(fat)
    requires forall i :: 0 <= i < |ch| ==> 2 <= ch[i] < |fat|
    requires Distinct(ch)
    ensures LinksInRange(Link(fat, ch))
  {
    LinkEntries(fat, ch);
    var f := Link(fat, ch);
    forall c | 2 <= c < |f| && IsLink(f[c])
      ensures f[c] < |f|
    {
      if c in ch {
        var i :| 0 <= i < |ch| && ch[i] == c;
        if i < |ch| - 1 { assert Linked(f, ch, i); }
      }
    }
  }
}
