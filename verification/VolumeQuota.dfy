/** The volume as a deterministic store: which calls succeed is decided by the map of files and the
    number of clusters and directory slots, and by nothing else. */
module VolumeQuota {
  import opened Bytes
  import opened FatTable
  import opened Directory
  import opened VolumeModel
  import opened VolumeLaws
  import opened FileStore
  import opened VolumeRuns

  type FileMap = map<FatName, seq<byte>>

  // ---------------------------------------------------------------- the space that files take

  /** Clusters that the files of a map need. */
  ghost function Usage(m: FileMap, clusterBytes: nat): nat
    requires clusterBytes > 0
    decreases |m|
  {
    if m == map[] then 0
    else
      var n :| n in m;
      CeilDiv(|m[n]|, clusterBytes) + Usage(m - {n}, clusterBytes)
  }

  /** Any one file can be counted first. */
  lemma {:induction false} UsageWithout(m: FileMap, n: FatName, clusterBytes: nat)
    requires clusterBytes > 0 && n in m
    ensures Usage(m, clusterBytes) == CeilDiv(|m[n]|, clusterBytes) + Usage(m - {n}, clusterBytes)
    decreases |m|
  {
    hide CeilDiv;
    var k :| k in m && Usage(m, clusterBytes) == CeilDiv(|m[k]|, clusterBytes) + Usage(m - {k}, clusterBytes);
    if k != n {
      UsageWithout(m - {k}, n, clusterBytes);
      UsageWithout(m - {n}, k, clusterBytes);
      assert m - {k} - {n} == m - {n} - {k};
    }
  }

  lemma {:induction false} UsageAdded(m: FileMap, n: FatName, bytes: seq<byte>, clusterBytes: nat)
    requires clusterBytes > 0 && n !in m
    ensures Usage(m[n := bytes], clusterBytes) == CeilDiv(|bytes|, clusterBytes) + Usage(m, clusterBytes)
    ensures |m[n := bytes]| == |m| + 1
  {
    UsageWithout(m[n := bytes], n, clusterBytes);
    assert m[n := bytes] - {n} == m;
  }

  /** The files of the first `n` slots. */
  ghost function PartFiles(v: Vol, n: nat): FileMap
    requires v.Shaped() && n <= |v.root|
  {
    if n == 0 then map[]
    else if Live(v.root[n - 1]) then PartFiles(v, n - 1)[NameOf(v.root[n - 1]) := Content(v, n - 1)]
    else PartFiles(v, n - 1)
  }

  ghost function LiveCount(root: Root, n: nat): (r: nat)
    requires n <= |root|
    ensures r <= n
  {
    if n == 0 then 0 else LiveCount(root, n - 1) + if Live(root[n - 1]) then 1 else 0
  }

  lemma {:induction false} PartFilesKeys(v: Vol, n: nat, name: FatName)
    requires v.Shaped() && n <= |v.root|
    ensures name in PartFiles(v, n) <==> exists i :: 0 <= i < n && Live(v.root[i]) && NameOf(v.root[i]) == name
  {
    if n != 0 {
      PartFilesKeys(v, n - 1, name);
    }
  }

  lemma {:induction false} LongNameIsEmpty(v: Vol, i: nat)
    requires v.Shaped() && i < |v.root| && LongName(v.root[i])
    ensures Content(v, i) == []
  {
  }

  /** Counted slot by slot, the files use what their sizes say, and as many slots as there are names. */
  lemma {:induction false} PartFilesCount(v: Vol, n: nat)
    requires WellFormed(v) && n <= |v.root|
    ensures Usage(PartFiles(v, n), v.ClusterBytes()) == Recorded(v, n)
    ensures |PartFiles(v, n)| == LiveCount(v.root, n)
    decreases n
  {
    hide Content;
    if n != 0 {
      PartFilesCount(v, n - 1);
      if Live(v.root[n - 1]) {
        var name := NameOf(v.root[n - 1]);
        PartFilesKeys(v, n - 1, name);
        forall i | 0 <= i < n - 1 && Live(v.root[i])
          ensures NameOf(v.root[i]) != name
        {
          assert NamesDiffer(v.root, i, n - 1);
        }
        if LongName(v.root[n - 1]) {
          LongNameIsEmpty(v, n - 1);
        } else {
          ContentLength(v, n - 1);
        }
        UsageAdded(PartFiles(v, n - 1), name, Content(v, n - 1), v.ClusterBytes());
      }
    }
  }

  lemma {:induction false} PartFilesValue(v: Vol, n: nat, i: nat)
    requires WellFormed(v) && i < n <= |v.root| && Live(v.root[i])
    ensures NameOf(v.root[i]) in PartFiles(v, n) && PartFiles(v, n)[NameOf(v.root[i])] == Content(v, i)
    decreases n
  {
    hide Content;
    if i < n - 1 {
      PartFilesValue(v, n - 1, i);
      assert NamesDiffer(v.root, i, n - 1);
    }
  }

  lemma {:induction false} PartFilesIsFiles(v: Vol)
    requires WellFormed(v)
    ensures PartFiles(v, |v.root|) == Files(v)
  {
    hide Content;
    var m, all := PartFiles(v, |v.root|), Files(v);
    forall name: FatName
      ensures name in m <==> name in all
      ensures name in m ==> m[name] == all[name]
    {
      PartFilesKeys(v, |v.root|, name);
      FindComplete(v.root, name, 0);
      if name in all {
        PartFilesValue(v, |v.root|, Find(v.root, name, 0).value);
      }
    }
  }

  lemma {:induction false} AllSlotsLive(root: Root, n: nat)
    requires n <= |root|
    ensures LiveCount(root, n) == n <==> forall i :: 0 <= i < n ==> Live(root[i])
  {
    if n != 0 {
      AllSlotsLive(root, n - 1);
    }
  }

  /** Free clusters and free slots, read off the map of files. */
  lemma {:induction false} SpaceLeft(v: Vol)
    requires WellFormed(v) && |v.fat| >= 2
    ensures FreeClusters(v) + Usage(Files(v), v.ClusterBytes()) == |v.fat| - 2
    ensures FindVacant(v.root, 0).Some? <==> |Files(v)| < |v.root|
  {
    hide Files, WellFormed, FreeClusters, Usage, Recorded;
    PartFilesIsFiles(v);
    PartFilesCount(v, |v.root|);
    Conservation(v);
    AllSlotsLive(v.root, |v.root|);
  }

  // ---------------------------------------------------------------- the deterministic store

  datatype Quota = Quota(clusters: nat, slots: nat, clusterBytes: nat)

  ghost function QuotaOf(v: Vol): Quota
    requires |v.fat| >= 2
  {
    Quota(|v.fat| - 2, |v.root|, v.ClusterBytes())
  }

  /** The clusters are enough for `len` bytes under a name, its old contents being given up. */
  ghost predicate Space(m: FileMap, name: FatName, len: nat, q: Quota)
    requires q.clusterBytes > 0
  {
    CeilDiv(len, q.clusterBytes) + Usage(m - {name}, q.clusterBytes) <= q.clusters
  }

  /** So are the directory slots. */
  ghost predicate Room(m: FileMap, name: FatName, len: nat, q: Quota)
    requires q.clusterBytes > 0
  {
    Space(m, name, len, q) && |m - {name}| < q.slots
  }

  /** Data fits in the clusters exactly when it fits in the free space after the implicit delete. */
  lemma {:induction false} SpaceIsFreeSpace(v: Vol, name: FatName, len: nat)
    requires WellFormed(v) && Sound(v) && |v.fat| >= 2
    ensures len <= FreeSpace(Delete(v, name).vol) <==> Space(Files(v), name, len, QuotaOf(v))
  {
    hide Files, WellFormed, Sound, FreeClusters, Usage, Delete;
    var d := Delete(v, name).vol;
    DeleteFiles(v, name);
    SpaceLeft(d);
    CeilDivIsLeast(len, d.ClusterBytes(), FreeClusters(d));
  }

  /** A write succeeds exactly when there is room. */
  lemma {:induction false} WriteSucceedsByQuota(v: Vol, name: FatName, data: seq<byte>)
    requires WellFormed(v) && Sound(v) && |v.fat| >= 2 && |data| < 0x1_0000_0000
    ensures Write(v, name, data).ok <==> Room(Files(v), name, |data|, QuotaOf(v))
  {
    hide Files, WellFormed, Sound, FreeClusters, Usage, Delete;
    var d := Delete(v, name).vol;
    DeleteFiles(v, name);
    SpaceLeft(d);
    CeilDivIsLeast(|data|, d.ClusterBytes(), FreeClusters(d));
    if data != [] {
      WriteSucceedsExactly(v, name, data);
    } else {
      EmptyWrite(v, name);
    }
  }

  lemma {:induction false} EmptyWrite(v: Vol, name: FatName)
    requires Sound(v)
    ensures Write(v, name, []).ok <==> FindVacant(Delete(v, name).vol.root, 0).Some?
  {
  }

  ghost function Store(m: FileMap, name: FatName, data: seq<byte>, q: Quota): (bool, FileMap)
    requires q.clusterBytes > 0
  {
    if Room(m, name, |data|, q) then (true, m[name := data]) else (false, m - {name})
  }

  /** A call on a map of files with a quota: its result and the new files. */
  ghost function Do(m: FileMap, op: Op, q: Quota): (bool, FileMap)
    requires q.clusterBytes > 0
  {
    match op
    case WriteOp(name, data) => Store(m, name, data, q)
    case AppendOp(name, data, got) =>
      var prior := Lookup(m, name);
      if |prior| > 0 && |got| != |prior| then (false, m)
      else Store(m, name, (if prior == [] then [] else got) + data, q)
    case DeleteOp(name) => (name in m, m - {name})
    case RenameOp(name, to) =>
      if name in m && to !in m then (true, (m - {name})[to := m[name]]) else (false, m)
  }

  lemma {:induction false} WriteIsStore(v: Vol, name: FatName, data: seq<byte>)
    requires WellFormed(v) && Sound(v) && |v.fat| >= 2 && |data| < 0x1_0000_0000 && Storable(name)
    ensures var r := Write(v, name, data);
            && WellFormed(r.vol)
            && (r.ok, Files(r.vol)) == Store(Files(v), name, data, QuotaOf(v))
  {
    hide Files, WellFormed, Sound, Write, Room, QuotaOf;
    WriteFiles(v, name, data);
    WriteSucceedsByQuota(v, name, data);
  }

  /** Every call does to the volume what it does to the map with the quota, result included, and the
      quota stays. */
  lemma {:induction false} ApplyIsDo(v: Vol, op: Op)
    requires WellFormed(v) && Legal(op) && |v.fat| >= 2
    ensures var r := Apply(v, op);
            && WellFormed(r.vol) && |r.vol.fat| == |v.fat| && QuotaOf(r.vol) == QuotaOf(v)
            && (r.ok, Files(r.vol)) == Do(Files(v), op, QuotaOf(v))
  {
    hide Files, WellFormed, Sound, Write, Store, Rename, Delete, OldSize;
    WellFormedIsSound(v);
    match op
    case WriteOp(name, data) => WriteIsStore(v, name, data);
    case AppendOp(name, data, got) =>
      OldSizeIsLength(v, name);
      if OldSize(v, name) == 0 {
        assert [] + data == data;
        WriteIsStore(v, name, data);
      } else if |got| == OldSize(v, name) {
        WriteIsStore(v, name, got + data);
      }
    case DeleteOp(name) => DeleteFiles(v, name);
    case RenameOp(name, to) =>
      RenameFiles(v, name, to);
      RenameShape(v, name, to);
  }

  lemma {:induction false} RenameShape(v: Vol, from: FatName, to: FatName)
    ensures var r := Rename(v, from, to).vol; r.spc == v.spc && r.fat == v.fat && |r.root| == |v.root|
  {
  }

  // ---------------------------------------------------------------- demand

  /** The call stores nothing that exceeds the clusters. */
  ghost predicate StaysWithin(m: FileMap, op: Op, q: Quota)
    requires q.clusterBytes > 0
  {
    match op
    case WriteOp(name, data) => Space(m, name, |data|, q)
    case AppendOp(name, data, got) =>
      0 < |Lookup(m, name)| != |got| || Space(m, name, |Lookup(m, name)| + |data|, q)
    case DeleteOp(_) => true
    case RenameOp(_, _) => true
  }

  /** Clusters that a call asks for at most, over those in use. */
  function Demand(op: Op, clusterBytes: nat): nat
    requires clusterBytes > 0
  {
    match op
    case WriteOp(_, data) => CeilDiv(|data|, clusterBytes)
    case AppendOp(_, data, _) => CeilDiv(|data|, clusterBytes)
    case DeleteOp(_) => 0
    case RenameOp(_, _) => 0
  }

  lemma {:induction false} CeilDivSum(a: nat, b: nat, d: nat)
    requires d > 0
    ensures CeilDiv(a + b, d) <= CeilDiv(a, d) + CeilDiv(b, d)
  {
    hide CeilDiv;
    var k, l := CeilDiv(a, d), CeilDiv(b, d);
    CeilDivIsLeast(a, d, k);
    CeilDivIsLeast(b, d, l);
    assert (k + l) * d == k * d + l * d;
    CeilDivIsLeast(a + b, d, k + l);
  }

  /** Giving up a file gives back its clusters. */
  lemma {:induction false} UsageFreed(m: FileMap, name: FatName, clusterBytes: nat)
    requires clusterBytes > 0
    ensures Usage(m - {name}, clusterBytes) + CeilDiv(|Lookup(m, name)|, clusterBytes) == Usage(m, clusterBytes)
  {
    hide Usage;
    if name in m {
      UsageWithout(m, name, clusterBytes);
    } else {
      assert m - {name} == m;
    }
  }

  lemma {:induction false} UsageStored(m: FileMap, name: FatName, data: seq<byte>, clusterBytes: nat)
    requires clusterBytes > 0
    ensures Usage(m[name := data], clusterBytes) == Usage(m - {name}, clusterBytes) + CeilDiv(|data|, clusterBytes)
  {
    hide Usage, CeilDiv;
    UsageAdded(m - {name}, name, data, clusterBytes);
    assert (m - {name})[name := data] == m[name := data];
  }

  lemma {:induction false} StoreUses(m: FileMap, name: FatName, data: seq<byte>, q: Quota, more: nat)
    requires q.clusterBytes > 0
    requires CeilDiv(|data|, q.clusterBytes) <= CeilDiv(|Lookup(m, name)|, q.clusterBytes) + more
    ensures Usage(Store(m, name, data, q).1, q.clusterBytes) <= Usage(m, q.clusterBytes) + more
  {
    hide Usage, CeilDiv, Room, Lookup;
    UsageFreed(m, name, q.clusterBytes);
    UsageStored(m, name, data, q.clusterBytes);
  }

  lemma {:induction false} AppendDemand(m: FileMap, name: FatName, data: seq<byte>, got: seq<byte>, q: Quota)
    requires q.clusterBytes > 0
    ensures var need := CeilDiv(|data|, q.clusterBytes);
            && (Usage(m, q.clusterBytes) + need <= q.clusters ==> StaysWithin(m, AppendOp(name, data, got), q))
            && Usage(Do(m, AppendOp(name, data, got), q).1, q.clusterBytes) <= Usage(m, q.clusterBytes) + need
  {
    hide Usage, CeilDiv, Store, Lookup;
    var prior := Lookup(m, name);
    UsageFreed(m, name, q.clusterBytes);
    CeilDivSum(|prior|, |data|, q.clusterBytes);
    if |prior| == 0 || |got| == |prior| {
      StoreUses(m, name, (if prior == [] then [] else got) + data, q, CeilDiv(|data|, q.clusterBytes));
    }
  }

  lemma {:induction false} RenameDemand(m: FileMap, name: FatName, to: FatName, clusterBytes: nat)
    requires clusterBytes > 0 && name in m && to !in m
    ensures Usage((m - {name})[to := m[name]], clusterBytes) == Usage(m, clusterBytes)
  {
    hide Usage, CeilDiv;
    UsageFreed(m, name, clusterBytes);
    UsageAdded(m - {name}, to, m[name], clusterBytes);
  }

  /** While use and demand together stay below the clusters, a call stays within them, and use grows by no
      more than its demand. */
  lemma {:induction false} DemandCovers(m: FileMap, op: Op, q: Quota)
    requires q.clusterBytes > 0
    ensures Usage(m, q.clusterBytes) + Demand(op, q.clusterBytes) <= q.clusters ==> StaysWithin(m, op, q)
    ensures Usage(Do(m, op, q).1, q.clusterBytes) <= Usage(m, q.clusterBytes) + Demand(op, q.clusterBytes)
  {
    hide Usage, CeilDiv, Store, Room, Lookup;
    match op
    case WriteOp(name, data) =>
      UsageFreed(m, name, q.clusterBytes);
      StoreUses(m, name, data, q, CeilDiv(|data|, q.clusterBytes));
    case AppendOp(name, data, got) => AppendDemand(m, name, data, got, q);
    case DeleteOp(name) => UsageFreed(m, name, q.clusterBytes);
    case RenameOp(name, to) =>
      if name in m && to !in m {
        RenameDemand(m, name, to, q.clusterBytes);
      }
  }

  // ---------------------------------------------------------------- runs

  ghost function RunOnMap(m: FileMap, ops: seq<Op>, q: Quota): (seq<bool>, FileMap)
    requires q.clusterBytes > 0
    decreases |ops|
  {
    if ops == [] then ([], m)
    else
      var step := Do(m, ops[0], q);
      var rest := RunOnMap(step.1, ops[1..], q);
      ([step.0] + rest.0, rest.1)
  }

  /** A run on the volume is the run on the map: same results, same files. */
  lemma {:induction false} RunIsDeterministic(v: Vol, ops: seq<Op>)
    requires WellFormed(v) && |v.fat| >= 2 && forall i :: 0 <= i < |ops| ==> Legal(ops[i])
    ensures (RunResults(v, ops), Files(Run(v, ops))) == RunOnMap(Files(v), ops, QuotaOf(v))
    decreases |ops|
  {
    hide Files, WellFormed, Apply, Do, QuotaOf;
    if ops != [] {
      ApplyIsDo(v, ops[0]);
      RunIsDeterministic(Apply(v, ops[0]).vol, ops[1..]);
    }
  }
}
