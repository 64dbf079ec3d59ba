/** Whole runs of the driver: every sequence of calls keeps the volume well formed and acts on its
    files as on a map, and no cluster is ever lost or counted twice. */
module VolumeRuns {
  import opened Bytes
  import opened FatTable
  import opened Directory
  import opened VolumeModel
  import opened VolumeLaws
  import opened FileStore

  // ---------------------------------------------------------------- append

  /** A file of a well-formed volume has as many bytes as its entry records. */
  lemma {:induction false} ContentLength(v: Vol, i: nat)
    requires WellFormed(v) && i < |v.root| && Live(v.root[i]) && !LongName(v.root[i])
    ensures |Content(v, i)| == SizeOf(v.root[i]) < 0x2000_0000
  {
    assert EntryOk(v, i);
    var ch := FileChain(v, i);
    if SizeOf(v.root[i]) != 0 {
      WalkInTable(v.fat, ClusterOf(v.root[i]), |v.fat|);
      ChainBytesLength(v.clusters, v.spc, ch);
      SpanInBytes(|ch|, v.spc);
      CeilDivIsLeast(SizeOf(v.root[i]), v.ClusterBytes(), |ch|);
      WalkBound(v.fat, ClusterOf(v.root[i]), |v.fat|);
      SpanBound(|ch|, v.spc);
    }
  }

  lemma {:induction false} SpanBound(k: nat, spc: nat)
    requires spc < 0x100
    ensures Span(k, spc) <= 0xFF * k
  {
    if k != 0 {
      SpanBound(k - 1, spc);
    }
  }

  /** The bytes stored under a name, none if there is no such file. */
  ghost function Lookup(m: map<FatName, seq<byte>>, name: FatName): seq<byte> {
    if name in m then m[name] else []
  }

  lemma {:induction false} OldSizeIsLength(v: Vol, name: FatName)
    requires WellFormed(v) && 0 !in name
    ensures OldSize(v, name) == |Lookup(Files(v), name)| < 0x2000_0000
  {
    if Find(v.root, name, 0).Some? {
      ContentLength(v, Find(v.root, name, 0).value);
    }
  }

  /** A name that can be typed and stored: no terminator in it, and no marker byte in front. */
  predicate Storable(name: FatName) {
    name[0] != DELETED && name[0] != UNUSED && 0 !in name
  }

  /** An append whose read-back returns the old contents leaves old followed by new when it
      succeeds; with a short read-back it changes nothing. */
  lemma {:induction false} AppendFiles(v: Vol, name: FatName, data: seq<byte>, got: seq<byte>)
    requires WellFormed(v) && Sound(v) && OldSize(v, name) + |data| < 0x1_0000_0000
    requires Storable(name)
    ensures var r, prior := Append(v, name, data, got), Lookup(Files(v), name);
            && WellFormed(r.vol)
            && (if |prior| > 0 && |got| != |prior| then !r.ok && r.vol == v
                else Files(r.vol) == if r.ok then Files(v)[name := (if prior == [] then [] else got) + data]
                                     else Files(v) - {name})
  {
    OldSizeIsLength(v, name);
    var prior := Lookup(Files(v), name);
    if prior == [] {
      WriteFiles(v, name, data);
      assert [] + data == data;
    } else if |got| == |prior| {
      WriteFiles(v, name, got + data);
    }
  }

  /** `fs_append` breaks a well-formed volume in the case in which `fs_write` does: under a name that starts
      with the deletion mark nothing is found, so new data that fits is written with nothing before it. */
  lemma {:induction false} AppendKeepsWellFormed(v: Vol, name: FatName, data: seq<byte>, got: seq<byte>)
    requires WellFormed(v) && Sound(v) && OldSize(v, name) + |data| < 0x1_0000_0000 && name[0] != UNUSED
    ensures WellFormed(Append(v, name, data, got).vol) <==>
              !(name[0] == DELETED && 0 < |data| <= FreeSpace(v) && FindVacant(v.root, 0).Some?)
  {
    hide WellFormed, Sound, Write, FreeSpace, FindVacant;
    if name[0] == DELETED {
      MarkedIsMissing(v, name);
    }
    if OldSize(v, name) == 0 {
      WriteKeepsWellFormed(v, name, data);
    } else if |got| == OldSize(v, name) {
      WriteKeepsWellFormed(v, name, got + data);
    }
  }

  // ---------------------------------------------------------------- runs

  datatype Op =
    | WriteOp(name: FatName, data: seq<byte>)
    | AppendOp(name: FatName, data: seq<byte>, got: seq<byte>)
    | DeleteOp(name: FatName)
    | RenameOp(name: FatName, to: FatName)

  /** Names can be stored; sizes stay within the 32-bit length. */
  ghost predicate Legal(op: Op) {
    match op
    case WriteOp(name, data) => Storable(name) && |data| < 0x1_0000_0000
    case AppendOp(name, data, _) => Storable(name) && |data| < 0xE000_0000
    case DeleteOp(_) => true
    case RenameOp(name, to) => 0 !in name && Storable(to)
  }

  ghost function Apply(v: Vol, op: Op): Outcome
    requires WellFormed(v) && Legal(op)
  {
    WellFormedIsSound(v);
    match op
    case WriteOp(name, data) => Write(v, name, data)
    case AppendOp(name, data, got) => OldSizeIsLength(v, name); Append(v, name, data, got)
    case DeleteOp(name) => Delete(v, name)
    case RenameOp(name, to) => Rename(v, name, to)
  }

  /** The same call on a plain map from names to contents, given whether it succeeded. */
  ghost function Effect(m: map<FatName, seq<byte>>, op: Op, ok: bool): map<FatName, seq<byte>> {
    match op
    case WriteOp(name, data) => if ok then m[name := data] else m - {name}
    case AppendOp(name, data, got) =>
      var prior := Lookup(m, name);
      if |prior| > 0 && |got| != |prior| then m
      else if ok then m[name := (if prior == [] then [] else got) + data]
      else m - {name}
    case DeleteOp(name) => m - {name}
    case RenameOp(name, to) => if ok && name in m then (m - {name})[to := m[name]] else m
  }

  lemma {:induction false} ApplyKeepsWellFormed(v: Vol, op: Op)
    requires WellFormed(v) && Legal(op)
    ensures var r := Apply(v, op);
            WellFormed(r.vol) && Files(r.vol) == Effect(Files(v), op, r.ok)
  {
    WellFormedIsSound(v);
    match op
    case WriteOp(name, data) => WriteFiles(v, name, data);
    case AppendOp(name, data, got) =>
      OldSizeIsLength(v, name);
      AppendFiles(v, name, data, got);
    case DeleteOp(name) => DeleteFiles(v, name);
    case RenameOp(name, to) => RenameFiles(v, name, to);
  }

  ghost function Run(v: Vol, ops: seq<Op>): (v': Vol)
    requires WellFormed(v) && forall i :: 0 <= i < |ops| ==> Legal(ops[i])
    ensures WellFormed(v')
    decreases |ops|
  {
    if ops == [] then v
    else
      ApplyKeepsWellFormed(v, ops[0]);
      Run(Apply(v, ops[0]).vol, ops[1..])
  }

  ghost function RunResults(v: Vol, ops: seq<Op>): (oks: seq<bool>)
    requires WellFormed(v) && forall i :: 0 <= i < |ops| ==> Legal(ops[i])
    ensures |oks| == |ops|
    decreases |ops|
  {
    if ops == [] then []
    else
      ApplyKeepsWellFormed(v, ops[0]);
      [Apply(v, ops[0]).ok] + RunResults(Apply(v, ops[0]).vol, ops[1..])
  }

  ghost function Replay(m: map<FatName, seq<byte>>, ops: seq<Op>, oks: seq<bool>): map<FatName, seq<byte>>
    requires |oks| == |ops|
    decreases |ops|
  {
    if ops == [] then m else Replay(Effect(m, ops[0], oks[0]), ops[1..], oks[1..])
  }

  /** Every run, of successful and failing calls, stays well formed and leaves the files that the
      same calls leave in a map. */
  lemma {:induction false} RunRefinesMap(v: Vol, ops: seq<Op>)
    requires WellFormed(v) && forall i :: 0 <= i < |ops| ==> Legal(ops[i])
    ensures WellFormed(Run(v, ops))
    ensures Files(Run(v, ops)) == Replay(Files(v), ops, RunResults(v, ops))
    decreases |ops|
  {
    if ops != [] {
      ApplyKeepsWellFormed(v, ops[0]);
      RunRefinesMap(Apply(v, ops[0]).vol, ops[1..]);
      assert RunResults(v, ops)[1..] == RunResults(Apply(v, ops[0]).vol, ops[1..]);
    }
  }

  /** A freshly formatted volume: nothing allocated, every slot unused. */
  ghost predicate Formatted(v: Vol) {
    && v.Shaped()
    && (forall c :: 2 <= c < |v.fat| ==> v.fat[c] == 0)
    && (forall i :: 0 <= i < |v.root| ==> v.root[i][0] == UNUSED)
  }

  lemma {:induction false} FormattedIsWellFormed(v: Vol)
    requires Formatted(v)
    ensures WellFormed(v) && Files(v) == map[]
  {
    assert forall i :: 0 <= i < |v.root| ==> FileChain(v, i) == [];
  }

  /** An empty volume with a slot and a cluster to spare, and one byte written under a name that starts
      with the deletion mark: the cluster is lost. */
  lemma {:induction false} MarkedNameBreaks(v: Vol, name: FatName)
    requires Formatted(v) && Sound(v) && |v.fat| >= 3 && v.root != [] && name[0] == DELETED
    ensures Write(v, name, [7]).ok && !WellFormed(Write(v, name, [7]).vol)
  {
    hide Write, WellFormed;
    FormattedIsWellFormed(v);
    FreeListComplete(v.fat, 2, 2);
    MulMonotone(1, FreeClusters(v), v.ClusterBytes());
    MarkedIsMissing(v, name);
    WriteSucceedsExactly(v, name, [7]);
    WriteKeepsWellFormed(v, name, [7]);
  }

  /** On such a volume one byte written under any other name and the file renamed to a marked one. */
  lemma {:induction false} MarkedRenameBreaks(v: Vol, name: FatName, to: FatName)
    requires Formatted(v) && Sound(v) && |v.fat| >= 3 && v.root != [] && Storable(name) && to[0] == DELETED
    ensures var w := Write(v, name, [7]);
            && w.ok && WellFormed(w.vol)
            && Rename(w.vol, name, to).ok && !WellFormed(Rename(w.vol, name, to).vol)
  {
    hide Write, WellFormed, Files;
    FormattedIsWellFormed(v);
    FreeListComplete(v.fat, 2, 2);
    MulMonotone(1, FreeClusters(v), v.ClusterBytes());
    assert Delete(v, name).vol == v;
    WriteSucceedsExactly(v, name, [7]);
    WriteFiles(v, name, [7]);
    var v' := Write(v, name, [7]).vol;
    assert Files(v')[name] == [7];
    ContentLength(v', Find(v'.root, name, 0).value);
    WellFormedIsSound(v');
    MarkedIsMissing(v', to);
    RenameKeepsWellFormed(v', name, to);
  }

  // ---------------------------------------------------------------- conservation

  /** Clusters that slot `i` accounts for by its recorded size. */
  ghost function Cost(v: Vol, i: nat): nat
    requires v.Shaped() && i < |v.root|
  {
    if Live(v.root[i]) && !LongName(v.root[i]) then CeilDiv(SizeOf(v.root[i]), v.ClusterBytes()) else 0
  }

  /** Clusters that the first `n` directory slots account for. */
  ghost function Recorded(v: Vol, n: nat): nat
    requires v.Shaped() && n <= |v.root|
  {
    if n == 0 then 0 else Recorded(v, n - 1) + Cost(v, n - 1)
  }

  ghost function Union(sets: seq<set<int>>): set<int> {
    if sets == [] then {} else Union(sets[..|sets| - 1]) + sets[|sets| - 1]
  }

  lemma {:induction false} UnionMembers(sets: seq<set<int>>, c: int)
    ensures c in Union(sets) <==> exists i :: 0 <= i < |sets| && c in sets[i]
    decreases |sets|
  {
    if sets != [] {
      var n := |sets| - 1;
      UnionMembers(sets[..n], c);
      if i :| 0 <= i < |sets| && c in sets[i] {
        assert i < n ==> c in sets[..n][i];
      }
    }
  }

  ghost function Total(sets: seq<set<int>>): nat {
    if sets == [] then 0 else Total(sets[..|sets| - 1]) + |sets[|sets| - 1]|
  }

  lemma {:induction false} UnionCount(sets: seq<set<int>>)
    requires forall i, j :: 0 <= i < j < |sets| ==> sets[i] !! sets[j]
    ensures |Union(sets)| == Total(sets)
    decreases |sets|
  {
    if sets != [] {
      var n := |sets| - 1;
      UnionCount(sets[..n]);
      forall c | c in sets[n]
        ensures c !in Union(sets[..n])
      {
        UnionMembers(sets[..n], c);
      }
      DisjointCount(Union(sets[..n]), sets[n]);
    }
  }

  /** The clusters of each directory slot. */
  ghost function Blocks(v: Vol): seq<set<int>> {
    seq(|v.root|, i requires 0 <= i < |v.root| => Elements(FileChain(v, i)))
  }

  lemma {:induction false} BlocksDisjoint(v: Vol)
    requires ChainsDisjoint(v)
    ensures forall i, j :: 0 <= i < j < |Blocks(v)| ==> Blocks(v)[i] !! Blocks(v)[j]
  {
    forall i, j | 0 <= i < j < |Blocks(v)|
      ensures Blocks(v)[i] !! Blocks(v)[j]
    {
      forall c | c in Blocks(v)[i]
        ensures c !in Blocks(v)[j]
      {
        assert OwnedBy(v, c, i) && !OwnedBy(v, c, j);
      }
    }
  }

  lemma {:induction false} BlockSize(v: Vol, i: nat)
    requires WellFormed(v) && i < |v.root|
    ensures |Blocks(v)[i]| == Cost(v, i)
  {
    assert Live(v.root[i]) ==> EntryOk(v, i);
    ElementsCount(FileChain(v, i));
  }

  lemma {:induction false} TotalIsRecorded(v: Vol, n: nat)
    requires WellFormed(v) && n <= |v.root|
    ensures Total(Blocks(v)[..n]) == Recorded(v, n)
  {
    hide WellFormed, Cost, FileChain;
    if n != 0 {
      TotalIsRecorded(v, n - 1);
      BlockSize(v, n - 1);
      assert Blocks(v)[..n][..n - 1] == Blocks(v)[..n - 1];
    }
  }

  lemma {:induction false} DisjointCount(a: set<int>, b: set<int>)
    requires a !! b
    ensures |a + b| == |a| + |b|
  {
  }

  /** Every cluster of the table is either free or accounted for by exactly one directory entry. */
  lemma {:induction false} Conservation(v: Vol)
    requires WellFormed(v) && |v.fat| >= 2
    ensures FreeClusters(v) + Recorded(v, |v.root|) == |v.fat| - 2
  {
    var free, used := Elements(FreeList(v.fat, 2)), Union(Blocks(v));
    assert FreeClusters(v) == |free| by {
      FreeListMembers(v.fat, 2);
      ElementsCount(FreeList(v.fat, 2));
    }
    assert |used| == Recorded(v, |v.root|) by {
      BlocksDisjoint(v);
      UnionCount(Blocks(v));
      TotalIsRecorded(v, |v.root|);
      assert Blocks(v)[..|v.root|] == Blocks(v);
    }
    FreeOrUsed(v, free, used);
    DisjointCount(free, used);
  }

  lemma {:induction false} FreeOrUsed(v: Vol, free: set<int>, used: set<int>)
    requires EntriesOk(v) && NoLostClusters(v) && |v.fat| >= 2
    requires free == Elements(FreeList(v.fat, 2)) && used == Union(Blocks(v))
    ensures free !! used && |free + used| == |v.fat| - 2
  {
    forall c: int
      ensures (c in free <==> 2 <= c < |v.fat| && v.fat[c] == 0) && (c in used <==> 2 <= c < |v.fat| && v.fat[c] != 0)
    {
      FreeExactly(v.fat, c);
      OwnedExactly(v, c);
    }
    WithoutTwo(free + used, |v.fat|);
  }

  ghost function Interval(lo: nat, hi: nat): (r: set<int>)
    requires lo <= hi
    ensures |r| == hi - lo && forall c :: c in r <==> lo <= c < hi
    decreases hi - lo
  {
    if lo == hi then {} else {lo as int} + Interval(lo + 1, hi)
  }

  lemma {:induction false} WithoutTwo(s: set<int>, n: nat)
    requires n >= 2 && forall c: int :: c in s <==> 2 <= c < n
    ensures |s| == n - 2
  {
    assert s == Interval(2, n);
  }

  lemma {:induction false} FreeExactly(fat: Fat, c: int)
    ensures c in FreeList(fat, 2) <==> 2 <= c < |fat| && fat[c] == 0
  {
    FreeListMembers(fat, 2);
    if 2 <= c < |fat| && fat[c] == 0 {
      FreeListComplete(fat, 2, c);
    }
  }

  lemma {:induction false} OwnedExactly(v: Vol, c: int)
    requires EntriesOk(v) && NoLostClusters(v)
    ensures c in Union(Blocks(v)) <==> 2 <= c < |v.fat| && v.fat[c] != 0
  {
    BlockMember(v, c);
    if i: nat :| OwnedBy(v, c, i) {
      OwnedInUse(v, c, i);
    } else {
      assert !Lost(v, c);
    }
  }

  lemma {:induction false} BlockMember(v: Vol, c: int)
    ensures c in Union(Blocks(v)) <==> exists i: nat :: OwnedBy(v, c, i)
  {
    UnionMembers(Blocks(v), c);
    if i: nat :| OwnedBy(v, c, i) {
      assert c in Blocks(v)[i];
    }
    if i :| 0 <= i < |v.root| && c in Blocks(v)[i] {
      assert OwnedBy(v, c, i);
    }
  }

  lemma {:induction false} OwnedInUse(v: Vol, c: int, i: nat)
    requires EntriesOk(v) && OwnedBy(v, c, i)
    ensures 2 <= c < |v.fat| && v.fat[c] != 0
  {
    assert EntryOk(v, i);
    ChainInUse(v.fat, FileChain(v, i), c);
  }
}
