/** The volume as a store of named contents: each driver operation against the map from 11-byte
    names to bytes, for single calls and for whole runs. */
module FileStore {
  import opened Bytes
  import opened FatTable
  import opened Directory
  import opened VolumeModel
  import opened VolumeLaws

  // ---------------------------------------------------------------- storing data

  lemma {:induction false} StoreDataFrame(clusters: seq<seq<Sector>>, spc: nat, ch: seq<int>, data: seq<byte>, k: nat)
    requires k <= |ch| && forall i :: 0 <= i < |ch| ==> 2 <= ch[i] < |clusters|
    ensures forall c :: 0 <= c < |clusters| && c !in ch ==> StoreData(clusters, spc, ch, data, k)[c] == clusters[c]
    decreases k
  {
    if k != 0 {
      StoreDataFrame(clusters, spc, ch, data, k - 1);
      assert ch[k - 1] in ch;
    }
  }

  /** Only the clusters actually filled matter. */
  lemma {:induction false} StoreDataPrefix(clusters: seq<seq<Sector>>, spc: nat, ch: seq<int>, n: nat,
                                           data: seq<byte>, k: nat)
    requires k <= n <= |ch| && forall i :: 0 <= i < |ch| ==> 2 <= ch[i] < |clusters|
    ensures StoreData(clusters, spc, ch[..n], data, k) == StoreData(clusters, spc, ch, data, k)
    decreases k
  {
    if k != 0 {
      StoreDataPrefix(clusters, spc, ch, n, data, k - 1);
    }
  }

  /** The first `m` sectors of a filled cluster hold the data from sector `first` on. */
  lemma {:induction false} FilledSectors(prior: seq<Sector>, data: seq<byte>, first: nat, m: nat)
    requires m <= |prior| && 512 * first <= |data|
    ensures var got := Flatten(PutSectors(prior, data, first)[..m]);
            got[..Min(|got|, |data| - 512 * first)]
            == data[512 * first..Min(512 * (first + m), |data|)]
    decreases m
  {
    hide Flatten, PutSectors, DataSector;
    if m != 0 {
      FilledSectors(prior, data, first, m - 1);
      var ss, n := PutSectors(prior, data, first), first + (m - 1);
      var got := Flatten(ss[..m - 1]);
      FlattenSnoc(ss, m);
      if 512 * n < |data| {
        PutSectorIs(prior, data, first, m - 1);
        assert got[..|got|] == got;
        JoinSector(data, 512 * first, n);
      } else {
        CutLonger(got, ss[m - 1], |data| - 512 * first);
      }
    } else {
      FlattenNone(PutSectors(prior, data, first));
    }
  }

  lemma {:induction false} FlattenNone(ss: seq<Sector>)
    ensures Flatten(ss[..0]) == []
  {
  }

  lemma {:induction false} FlattenSnoc(ss: seq<Sector>, m: nat)
    requires 0 < m <= |ss|
    ensures Flatten(ss[..m]) == Flatten(ss[..m - 1]) + ss[m - 1]
  {
    assert ss[..m][..m - 1] == ss[..m - 1];
  }

  lemma {:induction false} PutSectorIs(prior: seq<Sector>, data: seq<byte>, first: nat, j: nat)
    requires j < |prior| && 512 * (first + j) < |data|
    ensures PutSectors(prior, data, first)[j] == DataSector(data, first + j)
  {
  }

  lemma {:induction false} CutLonger(a: seq<byte>, b: seq<byte>, n: nat)
    requires n <= |a|
    ensures (a + b)[..n] == a[..n]
  {
  }

  lemma {:induction false} JoinSector(data: seq<byte>, from: nat, n: nat)
    requires from <= 512 * n < |data|
    ensures var got := data[from..512 * n] + DataSector(data, n);
            got[..Min(|got|, |data| - from)] == data[from..Min(512 * n + 512, |data|)]
  {
  }

  lemma {:induction false} ChainBytesLength(clusters: seq<seq<Sector>>, spc: nat, ch: seq<int>)
    requires forall i :: 0 <= i < |ch| ==> 0 <= ch[i] < |clusters| && |clusters[ch[i]]| == spc
    ensures |ChainBytes(clusters, ch)| == 512 * Span(|ch|, spc)
    decreases |ch|
  {
    if ch != [] {
      var n := |ch| - 1;
      ChainBytesLength(clusters, spc, ch[..n]);
    }
  }

  lemma {:induction false} ChainBytesSnoc(clusters: seq<seq<Sector>>, ch: seq<int>, k: nat)
    requires 0 < k <= |ch| && forall i :: 0 <= i < |ch| ==> 0 <= ch[i] < |clusters|
    ensures ChainBytes(clusters, ch[..k]) == ChainBytes(clusters, ch[..k - 1]) + Flatten(clusters[ch[k - 1]])
  {
    assert ch[..k][..k - 1] == ch[..k - 1];
  }

  /** Data spread over distinct clusters comes back by concatenating them in order. */
  lemma {:induction false} StoredBytes(clusters: seq<seq<Sector>>, spc: nat, ch: seq<int>, data: seq<byte>, k: nat)
    requires k <= |ch| && forall i :: 0 <= i < |ch| ==> 2 <= ch[i] < |clusters| && |clusters[ch[i]]| == spc
    requires Distinct(ch)
    requires k > 0 ==> 512 * Span(k - 1, spc) <= |data|
    ensures var m := StoreData(clusters, spc, ch, data, k);
            Take(ChainBytes(m, ch[..k]), |data|) == data[..Min(|data|, 512 * Span(k, spc))]
    decreases k
  {
    hide PutSectors, Flatten;
    if k != 0 {
      var m := StoreData(clusters, spc, ch, data, k - 1);
      var pre, c, first := ch[..k - 1], ch[k - 1], Span(k - 1, spc);
      StoredBytes(clusters, spc, ch, data, k - 1);
      ChainBytesLength(m, spc, pre);
      DistinctPrefix(ch, k - 1);
      StoredStep(m, pre, c, data, first);
      assert StoreData(clusters, spc, ch, data, k) == m[c := PutSectors(m[c], data, first)];
      ChainBytesSnoc(StoreData(clusters, spc, ch, data, k), ch, k);
    }
  }

  lemma {:induction false} StoredStep(m: seq<seq<Sector>>, pre: seq<int>, c: int, data: seq<byte>, first: nat)
    requires c !in pre && 0 <= c < |m| && forall i :: 0 <= i < |pre| ==> 0 <= pre[i] < |m|
    requires |ChainBytes(m, pre)| == 512 * first <= |data|
    requires Take(ChainBytes(m, pre), |data|) == data[..512 * first]
    ensures var last := PutSectors(m[c], data, first);
            Take(ChainBytes(m[c := last], pre) + Flatten(last), |data|)
            == data[..Min(|data|, 512 * (first + |m[c]|))]
  {
    var last := PutSectors(m[c], data, first);
    BytesKept(m, m[c := last], pre);
    FilledSectors(m[c], data, first, |last|);
    assert last[..|last|] == last;
    JoinPieces(ChainBytes(m, pre), Flatten(last), data, 512 * first);
  }

  lemma {:induction false} JoinPieces(a: seq<byte>, b: seq<byte>, data: seq<byte>, cut: nat)
    requires |a| == cut <= |data| && a == data[..cut]
    requires b[..Min(|b|, |data| - cut)] == data[cut..Min(cut + |b|, |data|)]
    ensures Take(a + b, |data|) == data[..Min(|data|, cut + |b|)]
  {
  }

  // ---------------------------------------------------------------- delete

  /** Deleting keeps the volume well formed, leaves no entry of that name and touches no other file. */
  lemma {:induction false} DeleteKeepsWellFormed(v: Vol, name: FatName)
    requires WellFormed(v) && Sound(v)
    ensures var r := Delete(v, name);
            && WellFormed(r.vol) && Find(r.vol.root, name, 0).None?
            && forall j :: 0 <= j < |v.root| && Live(v.root[j]) && NameOf(v.root[j]) != name ==> SameFile(v, r.vol, j)
  {
    var v' := Delete(v, name).vol;
    if Find(v.root, name, 0).Some? {
      var i := Find(v.root, name, 0).value;
      DeleteEffect(v, name);
      RemovedIsWellFormed(v, v', i);
      DeletedRoot(v.root, i);
    }
  }

  // ---------------------------------------------------------------- write

  /** The clusters a write takes from the table. */
  ghost function Taken(v: Vol, data: seq<byte>): (ch: seq<int>)
    requires v.Shaped()
    ensures FreshChain(v.fat, ch)
  {
    FreeListMembers(v.fat, 2);
    var free, need := FreeList(v.fat, 2), CeilDiv(|data|, v.ClusterBytes());
    if |free| < need then free
    else
      DistinctPrefix(free, need);
      free[..need]
  }

  /** The entry that a successful write stores. */
  ghost function NewEntry(name: FatName, ch: seq<int>, data: seq<byte>): (s: Slot)
    requires |data| < 0x1_0000_0000 && (ch != [] ==> 0 <= ch[0] < 0x1_0000)
    ensures NameOf(s) == name && SizeOf(s) == |data| && s[0] == name[0]
    ensures ClusterOf(s) == if ch == [] then 0 else ch[0]
  {
    NewSlotFields(name, if ch == [] then 0 else ch[0], |data|);
    NewSlot(name, if ch == [] then 0 else ch[0], |data|)
  }

  /** With its space found, the write adds one entry on the lowest free clusters. */
  lemma {:induction false} WriteAdds(v: Vol, name: FatName, data: seq<byte>)
    requires v.Shaped() && |data| < 0x1_0000_0000
    requires WriteAfterDelete(v, name, data).ok
    ensures var v', ch := WriteAfterDelete(v, name, data).vol, Taken(v, data);
            && FindVacant(v.root, 0).Some?
            && Added(v, v', FindVacant(v.root, 0).value, NewEntry(name, ch, data), ch)
            && (ch == [] <==> data == [])
            && v'.clusters == StoreData(v.clusters, v.spc, ch, data, |ch|)
  {
    var ch := Taken(v, data);
    CeilDivIsLeast(|data|, v.ClusterBytes(), 0);
    if data != [] {
      StoreDataFrame(v.clusters, v.spc, ch, data, |ch|);
    }
  }

  /** When it fails, table and directory are untouched, and only bytes of free clusters changed. */
  lemma {:induction false} WriteRollsBack(v: Vol, name: FatName, data: seq<byte>)
    requires v.Shaped() && |data| < 0x1_0000_0000
    requires !WriteAfterDelete(v, name, data).ok
    ensures var v' := WriteAfterDelete(v, name, data).vol;
            && v'.fat == v.fat && v'.root == v.root
            && forall c :: 2 <= c < |v.fat| && v.fat[c] != 0 ==> v'.clusters[c] == v.clusters[c]
  {
    if data != [] {
      var ch := Taken(v, data);
      StoreDataFrame(v.clusters, v.spc, ch, data, |ch|);
    }
  }

  /** Unused bytes do not matter: a volume that differs only there has the same files. */
  lemma {:induction false} FreeBytesIrrelevant(v: Vol, v': Vol)
    requires WellFormed(v) && v'.Shaped() && v'.spc == v.spc && v'.fat == v.fat && v'.root == v.root
    requires forall c :: 2 <= c < |v.fat| && v.fat[c] != 0 ==> v'.clusters[c] == v.clusters[c]
    ensures WellFormed(v') && forall j :: 0 <= j < |v.root| ==> SameFile(v, v', j)
  {
    forall j | 0 <= j < |v.root|
      ensures SameFile(v, v', j)
    {
      forall c | c in FileChain(v, j) && 2 <= c < |v.fat|
        ensures v'.clusters[c] == v.clusters[c]
      {
        ChainInUse(v.fat, FileChain(v, j), c);
      }
      FileKept(v, v', j);
    }
    forall j | 0 <= j < |v.root| && Live(v.root[j])
      ensures EntryOk(v', j)
    {
      assert EntryOk(v, j) && SameFile(v, v', j);
    }
    forall i, j, c | OwnedBy(v', c, i) && OwnedBy(v', c, j)
      ensures i == j
    {
      assert OwnedBy(v, c, i) && OwnedBy(v, c, j);
    }
    forall c | 2 <= c < |v'.fat| && v'.fat[c] != 0
      ensures !Lost(v', c)
    {
      assert !Lost(v, c);
      var j :| OwnedBy(v, c, j);
      assert OwnedBy(v', c, j);
    }
  }

  /** No live entry has a name that starts with the deletion mark, so deleting one does nothing. */
  lemma {:induction false} MarkedIsMissing(v: Vol, name: FatName)
    requires Sound(v) && name[0] == DELETED
    ensures Find(v.root, name, 0).None? && Delete(v, name).vol == v
  {
  }

  /** `fs_write` keeps a well-formed volume well formed except in one case: data that fits is to be
      stored under a name that starts with the deletion mark, and there is a slot for it. */
  lemma {:induction false} WriteKeepsWellFormed(v: Vol, name: FatName, data: seq<byte>)
    requires WellFormed(v) && Sound(v) && |data| < 0x1_0000_0000 && name[0] != UNUSED
    ensures WellFormed(Write(v, name, data).vol) <==>
              !(name[0] == DELETED && 0 < |data| <= FreeSpace(v) && FindVacant(v.root, 0).Some?)
  {
    hide WellFormed, Sound, Write, FreeSpace;
    WriteWellFormedIf(v, name, data);
    if data != [] {
      WriteSucceedsExactly(v, name, data);
    }
    if name[0] == DELETED {
      MarkedIsMissing(v, name);
    }
  }

  lemma {:induction false} WriteWellFormedIf(v: Vol, name: FatName, data: seq<byte>)
    requires WellFormed(v) && Sound(v) && |data| < 0x1_0000_0000 && name[0] != UNUSED
    ensures var r := Write(v, name, data);
            WellFormed(r.vol) <==> !(r.ok && data != [] && name[0] == DELETED)
  {
    DeleteKeepsWellFormed(v, name);
    var d := Delete(v, name).vol;
    var r := WriteAfterDelete(d, name, data);
    if r.ok {
      WriteAdds(d, name, data);
      var k, ch := FindVacant(d.root, 0).value, Taken(d, data);
      var s := NewEntry(name, ch, data);
      if name[0] == DELETED {
        AddedUnderDeletionMark(d, r.vol, k, s, ch);
      } else {
        AddedIsWellFormed(d, r.vol, k, s, ch);
      }
    } else {
      WriteRollsBack(d, name, data);
      FreeBytesIrrelevant(d, r.vol);
    }
  }

  /** A non-empty write succeeds exactly when, after the implicit delete, the data fits in the
      reported free space and a vacant slot exists. */
  lemma {:induction false} WriteSucceedsExactly(v: Vol, name: FatName, data: seq<byte>)
    requires Sound(v) && 0 < |data| < 0x1_0000_0000
    ensures var d := Delete(v, name).vol;
            Write(v, name, data).ok <==> |data| <= FreeSpace(d) && FindVacant(d.root, 0).Some?
  {
    var d := Delete(v, name).vol;
    CeilDivIsLeast(|data|, d.ClusterBytes(), |FreeList(d.fat, 2)|);
  }

  lemma {:induction false} LinkNone(fat: Fat)
    ensures Link(fat, []) == fat
  {
  }

  lemma {:induction false} FreeAfterLink(fat: Fat, free: seq<int>, k: nat)
    requires free == FreeList(fat, 2) && FreshChain(fat, free) && k <= |free|
    ensures FreeList(Link(fat, free[..k]), 2) == free[k..]
    decreases k
  {
    hide FreeList, Link;
    if k == 0 {
      assert free[..0] == [] && free[0..] == free;
      LinkNone(fat);
    } else {
      FreeAfterLink(fat, free, k - 1);
      LinkNext(fat, free, k - 1);
      LastLinked(fat, free, k - 1);
      var rest := free[k - 1..];
      assert rest[0] == free[k - 1] && rest[1..] == free[k..];
      FreeAfterTake(Link(fat, free[..k - 1]), rest, if k == 1 then 0 else free[k - 2], Link(fat, free[..k]));
    }
  }

  lemma {:induction false} LastLinked(fat: Fat, free: seq<int>, k: nat)
    requires FreshChain(fat, free) && k <= |free|
    ensures k > 0 ==> Link(fat, free[..k])[free[k - 1]] != 0
  {
    if k > 0 {
      DistinctPrefix(free, k);
      LinkEntries(fat, free[..k]);
      assert free[..k][k - 1] == free[k - 1];
    }
  }

  /** Taking the head of the free list, and linking a used cluster to it, leaves the tail. */
  lemma {:induction false} FreeAfterTake(f: Fat, free: seq<int>, prev: int, f': Fat)
    requires free == FreeList(f, 2) && free != []
    requires 2 <= free[0] < |f| && 0 <= prev < |f|
    requires f' == if prev == 0 then f[free[0] := END_OF_CHAIN] else f[free[0] := END_OF_CHAIN][prev := free[0]]
    requires prev != 0 ==> f[prev] != 0
    ensures FreeList(f', 2) == free[1..]
  {
    FreeListMembers(f, 2);
    FreeListHead(f, 2, free[0], END_OF_CHAIN);
    FreeListFrame(f[free[0] := END_OF_CHAIN], f', 2);
  }

  /** The `k`-th round of the cluster loop of `fs_write` starts, with data left to store, and finds no free
      cluster. */
  ghost predicate RunsDryAt(v: Vol, data: seq<byte>, k: nat) {
    && k <= |FreeList(v.fat, 2)| && FreshChain(v.fat, FreeList(v.fat, 2))
    && k * v.ClusterBytes() < |data|
    && FreeList(Link(v.fat, FreeList(v.fat, 2)[..k]), 2) == []
  }

  /** That happens exactly when the data exceeds the free clusters. It is the case in which a scan goes on
      behind the last entry that the table of the volume holds. */
  lemma {:induction false} RunsDryExactly(v: Vol, data: seq<byte>)
    requires v.Shaped()
    ensures (exists k: nat :: RunsDryAt(v, data, k)) <==> |data| > FreeSpace(v)
  {
    hide FreeList, Link;
    var free := FreeList(v.fat, 2);
    FreeListMembers(v.fat, 2);
    if k: nat :| RunsDryAt(v, data, k) {
      FreeAfterLink(v.fat, free, k);
      assert k == |free|;
    }
    if |data| > FreeSpace(v) {
      FreeAfterLink(v.fat, free, |free|);
      assert RunsDryAt(v, data, |free|);
    }
  }

  lemma {:induction false} TakenLeavesRest(v: Vol, v': Vol, data: seq<byte>)
    requires v.Shaped() && |Taken(v, data)| == CeilDiv(|data|, v.ClusterBytes())
    requires v'.fat == Link(v.fat, Taken(v, data))
    ensures FreeClusters(v') == FreeClusters(v) - CeilDiv(|data|, v.ClusterBytes())
  {
    var free, need := FreeList(v.fat, 2), CeilDiv(|data|, v.ClusterBytes());
    assert FreshChain(v.fat, free) by { FreeListMembers(v.fat, 2); }
    assert need <= |free| && Taken(v, data) == free[..need];
    FreeAfterLink(v.fat, free, need);
  }

  lemma {:induction false} WriteTakesClusters(d: Vol, name: FatName, data: seq<byte>, r: Outcome)
    requires d.Shaped() && |data| < 0x1_0000_0000 && r == WriteAfterDelete(d, name, data) && r.ok
    ensures FreeClusters(r.vol) + CeilDiv(|data|, d.ClusterBytes()) == FreeClusters(d)
  {
    WriteAdds(d, name, data);
    TakenLeavesRest(d, r.vol, data);
  }

  /** A successful write takes exactly the clusters its data needs from the free ones. */
  lemma {:induction false} WriteTakesSpace(v: Vol, name: FatName, data: seq<byte>)
    requires Sound(v) && |data| < 0x1_0000_0000 && Write(v, name, data).ok
    ensures var d, v' := Delete(v, name).vol, Write(v, name, data).vol;
            FreeClusters(v') + CeilDiv(|data|, d.ClusterBytes()) == FreeClusters(d)
  {
    var d, r := Delete(v, name).vol, Write(v, name, data);
    WriteTakesClusters(d, name, data, r);
  }

  lemma {:induction false} WrittenEntry(d: Vol, name: FatName, data: seq<byte>)
    requires WellFormed(d) && Find(d.root, name, 0).None? && |data| < 0x1_0000_0000
    requires name[0] != UNUSED && name[0] != DELETED && WriteAfterDelete(d, name, data).ok
    ensures var v' := WriteAfterDelete(d, name, data).vol;
            && WellFormed(v') && FindVacant(d.root, 0).Some?
            && var k := FindVacant(d.root, 0).value;
            && OthersKept(d, v', k)
            && Live(v'.root[k]) && NameOf(v'.root[k]) == name
            && Content(v', k) == data
  {
    var v' := WriteAfterDelete(d, name, data).vol;
    WriteAdds(d, name, data);
    var k, ch := FindVacant(d.root, 0).value, Taken(d, data);
    var s := NewEntry(name, ch, data);
    AddedIsWellFormed(d, v', k, s, ch);
    AddedChain(d, v', k, s, ch);
    WholeData(d, data);
  }

  /** Walking the table from a new entry and joining its clusters gives exactly the data, whatever
      the number of clusters, and every other file keeps its entry, chain and contents. */
  lemma {:induction false} WrittenFile(v: Vol, name: FatName, data: seq<byte>)
    requires WellFormed(v) && Sound(v) && |data| < 0x1_0000_0000
    requires name[0] != UNUSED && name[0] != DELETED && Write(v, name, data).ok
    ensures var v' := Write(v, name, data).vol;
            && Find(v'.root, name, 0).Some?
            && Content(v', Find(v'.root, name, 0).value) == data
            && forall j :: 0 <= j < |v.root| && Live(v.root[j]) && NameOf(v.root[j]) != name ==> SameFile(v, v', j)
  {
    DeleteKeepsWellFormed(v, name);
    var d, v' := Delete(v, name).vol, Write(v, name, data).vol;
    WrittenEntry(d, name, data);
    FindUnique(v'.root, name, FindVacant(d.root, 0).value);
    forall j | 0 <= j < |v.root| && Live(v.root[j]) && NameOf(v.root[j]) != name
      ensures SameFile(v, v', j)
    {
      assert SameFile(v, d, j) && SameFile(d, v', j);
    }
  }

  lemma {:induction false} WholeData(d: Vol, data: seq<byte>)
    requires d.Shaped() && |Taken(d, data)| == CeilDiv(|data|, d.ClusterBytes())
    ensures var ch := Taken(d, data);
            && (forall i :: 0 <= i < |ch| ==> 2 <= ch[i] < |d.clusters|)
            && Take(ChainBytes(StoreData(d.clusters, d.spc, ch, data, |ch|), ch), |data|) == data
  {
    var ch := Taken(d, data);
    var n := |ch|;
    CeilDivIsLeast(|data|, d.ClusterBytes(), n);
    SpanInBytes(n, d.spc);
    if n > 0 { SpanInBytes(n - 1, d.spc); }
    assert ch[..n] == ch;
    StoredBytes(d.clusters, d.spc, ch, data, n);
  }

  // ---------------------------------------------------------------- rename

  /** A rename that succeeds changes the name bytes of one slot and nothing else. */
  lemma {:induction false} RenameEffect(v: Vol, from: FatName, to: FatName)
    requires Rename(v, from, to).ok
    ensures var v' := Rename(v, from, to).vol;
            && Find(v.root, to, 0).None? && Find(v.root, from, 0).Some?
            && var i := Find(v.root, from, 0).value;
            && var s := v'.root[i];
            && v' == v.(root := v.root[i := s])
            && NameOf(s) == to && s[0] == to[0]
            && ClusterOf(s) == ClusterOf(v.root[i]) && SizeOf(s) == SizeOf(v.root[i])
  {
    var t := v.root[Find(v.root, from, 0).value];
    var s := to + t[11..];
    assert s[26..28] == t[26..28] && s[28..32] == t[28..32];
  }

  ghost predicate SameSlots(v: Vol, v': Vol, i: nat)
    requires i < |v.root|
  {
    && |v'.root| == |v.root|
    && v' == v.(root := v.root[i := v'.root[i]])
    && ClusterOf(v'.root[i]) == ClusterOf(v.root[i]) && SizeOf(v'.root[i]) == SizeOf(v.root[i])
  }

  lemma {:induction false} RenamedOthers(v: Vol, v': Vol, i: nat)
    requires WellFormed(v) && i < |v.root| && SameSlots(v, v', i)
    ensures OthersKept(v, v', i)
    ensures forall j :: 0 <= j < |v.root| && j != i && Live(v.root[j]) ==> EntryOk(v', j)
    ensures forall j, c :: j != i && OwnedBy(v, c, j) ==> c !in FileChain(v, i)
  {
    forall j | 0 <= j < |v.root| && j != i
      ensures SameFile(v, v', j) && (Live(v.root[j]) ==> EntryOk(v', j))
    {
      FileKept(v, v', j);
    }
    forall j, c | j != i && OwnedBy(v, c, j)
      ensures c !in FileChain(v, i)
    {
      assert !OwnedBy(v, c, i);
    }
  }

  lemma {:induction false} RenamedFile(v: Vol, v': Vol, i: nat)
    requires WellFormed(v) && i < |v.root| && SameSlots(v, v', i) && Live(v.root[i]) && Live(v'.root[i])
    requires !LongName(v.root[i])
    ensures FileChain(v', i) == FileChain(v, i) && Content(v', i) == Content(v, i) && EntryOk(v', i)
  {
    assert EntryOk(v, i);
  }

  lemma {:induction false} RenamedAway(v: Vol, v': Vol, i: nat)
    requires WellFormed(v) && i < |v.root| && SameSlots(v, v', i) && OthersKept(v, v', i)
    requires Live(v.root[i]) && !Live(v'.root[i]) && ClusterOf(v.root[i]) != 0
    ensures !WellFormed(v')
  {
    assert EntryOk(v, i);
    var ch := FileChain(v, i);
    var c := ch[0];
    ChainInUse(v.fat, ch, c);
    assert OwnedBy(v, c, i);
    if !Lost(v', c) {
      var j :| OwnedBy(v', c, j);
      assert SameFile(v, v', j) && OwnedBy(v, c, j);
      assert false;
    }
  }

  lemma {:induction false} RenamedIsWellFormed(v: Vol, v': Vol, i: nat)
    requires WellFormed(v) && i < |v.root| && SameSlots(v, v', i) && Live(v.root[i]) && v'.root[i][0] != UNUSED
    requires Live(v'.root[i]) ==> Find(v.root, NameOf(v'.root[i]), 0).None?
    requires !LongName(v.root[i]) && (Live(v'.root[i]) || ClusterOf(v.root[i]) == 0)
    ensures WellFormed(v')
  {
    RenamedOthers(v, v', i);
    RenamedRoot(v.root, i, v'.root[i]);
    assert EntryOk(v, i);
    if Live(v'.root[i]) {
      RenamedFile(v, v', i);
    } else {
      assert FileChain(v', i) == [] == FileChain(v, i);
    }
    DisjointAfter(v, v', i);
    NoneLostAfter(v, v', i);
  }

  lemma {:induction false} RenamedRoot(root: Root, i: nat, s: Slot)
    requires EndMarked(root) && UniqueNames(root) && i < |root| && Live(root[i]) && s[0] != UNUSED
    requires Live(s) ==> Find(root, NameOf(s), 0).None?
    ensures EndMarked(root[i := s]) && UniqueNames(root[i := s])
  {
    FindComplete(root, NameOf(s), 0);
    BeforeInUse(root, i);
    ReplacedSlot(root, i, s);
  }

  /** `fs_rename` keeps a well-formed volume well formed except in one case: a file that owns
      clusters is given a name that starts with the deletion mark. */
  lemma {:induction false} RenameKeepsWellFormed(v: Vol, from: FatName, to: FatName)
    requires WellFormed(v) && 0 !in from && to[0] != UNUSED
    ensures WellFormed(Rename(v, from, to).vol) <==>
              !(to[0] == DELETED && Find(v.root, from, 0).Some? && SizeOf(v.root[Find(v.root, from, 0).value]) > 0)
  {
    RenameWellFormedIf(v, from, to);
    if to[0] == DELETED {
      WellFormedIsSound(v);
      MarkedIsMissing(v, to);
    }
  }

  lemma {:induction false} RenameWellFormedIf(v: Vol, from: FatName, to: FatName)
    requires WellFormed(v) && 0 !in from && to[0] != UNUSED
    ensures var r := Rename(v, from, to);
            WellFormed(r.vol) <==>
            !(r.ok && to[0] == DELETED && SizeOf(v.root[Find(v.root, from, 0).value]) > 0)
  {
    var v' := Rename(v, from, to).vol;
    if Rename(v, from, to).ok {
      RenameEffect(v, from, to);
      var i := Find(v.root, from, 0).value;
      assert EntryOk(v, i);
      if to[0] == DELETED && SizeOf(v.root[i]) > 0 {
        RenamedOthers(v, v', i);
        RenamedAway(v, v', i);
      } else {
        RenamedIsWellFormed(v, v', i);
      }
    }
  }

  // ---------------------------------------------------------------- a map from names to contents

  ghost function LiveNames(root: Root): set<FatName> {
    set i | 0 <= i < |root| && Live(root[i]) :: NameOf(root[i])
  }

  /** The files of a volume, by name; a slot that holds part of a long name counts as an empty file. */
  ghost function Files(v: Vol): (m: map<FatName, seq<byte>>)
    requires WellFormed(v)
    ensures forall name :: name in m <==> Find(v.root, name, 0).Some?
    ensures forall name :: name in m ==> m[name] == Content(v, Find(v.root, name, 0).value)
  {
    assert forall name :: name in LiveNames(v.root) <==> Find(v.root, name, 0).Some? by {
      forall name: FatName
        ensures name in LiveNames(v.root) <==> Find(v.root, name, 0).Some?
      {
        FindComplete(v.root, name, 0);
      }
    }
    map name | name in LiveNames(v.root) :: Content(v, Find(v.root, name, 0).value)
  }

  /** The map holds one file for every live entry: its name and the bytes of its chain. */
  lemma {:induction false} FilesAreEntries(v: Vol, i: nat)
    requires WellFormed(v) && i < |v.root| && Live(v.root[i])
    ensures NameOf(v.root[i]) in Files(v) && Files(v)[NameOf(v.root[i])] == Content(v, i)
  {
    FindUnique(v.root, NameOf(v.root[i]), i);
  }

  /** A file keeps its bytes when its slot is untouched. */
  lemma {:induction false} FilesOfSame(v: Vol, v': Vol, name: FatName)
    requires WellFormed(v) && WellFormed(v')
    requires |v'.root| == |v.root|
    requires forall j :: 0 <= j < |v.root| && Live(v.root[j]) && NameOf(v.root[j]) == name ==> SameFile(v, v', j)
    requires name in Files(v)
    ensures name in Files(v') && Files(v')[name] == Files(v)[name]
  {
    var i := Find(v.root, name, 0).value;
    assert SameFile(v, v', i);
    FindUnique(v'.root, name, i);
  }

  /** One slot changes: every other name keeps its file. */
  lemma {:induction false} FilesOfOthers(v: Vol, v': Vol, k: nat, n: FatName)
    requires WellFormed(v) && WellFormed(v') && k < |v.root| && OthersKept(v, v', k)
    requires Live(v.root[k]) ==> NameOf(v.root[k]) != n
    requires Live(v'.root[k]) ==> NameOf(v'.root[k]) != n
    ensures n in Files(v) <==> n in Files(v')
    ensures n in Files(v) ==> Files(v')[n] == Files(v)[n]
  {
    if n in Files(v) {
      var i := Find(v.root, n, 0).value;
      assert SameFile(v, v', i);
      FilesAreEntries(v', i);
    }
    if n in Files(v') {
      var i := Find(v'.root, n, 0).value;
      assert SameFile(v, v', i);
      FilesAreEntries(v, i);
    }
  }

  lemma {:induction false} DeleteFiles(v: Vol, name: FatName)
    requires WellFormed(v) && Sound(v)
    ensures var r := Delete(v, name);
            && WellFormed(r.vol)
            && r.ok == (name in Files(v))
            && Files(r.vol) == Files(v) - {name}
  {
    DeleteKeepsWellFormed(v, name);
    if Find(v.root, name, 0).Some? {
      var i, v' := Find(v.root, name, 0).value, Delete(v, name).vol;
      DeleteEffect(v, name);
      RemovedIsWellFormed(v, v', i);
      FilesAfterRemove(v, v', i);
    }
  }

  lemma {:induction false} FilesAfterRemove(v: Vol, v': Vol, i: nat)
    requires WellFormed(v) && WellFormed(v') && i < |v.root| && OthersKept(v, v', i)
    requires Live(v.root[i]) && !Live(v'.root[i]) && NameOf(v.root[i]) !in Files(v')
    ensures Files(v') == Files(v) - {NameOf(v.root[i])}
  {
    var m, m', name := Files(v), Files(v'), NameOf(v.root[i]);
    forall n: FatName | n != name
      ensures n in m <==> n in m'
      ensures n in m ==> m'[n] == m[n]
    {
      FilesOfOthers(v, v', i, n);
    }
    MapRemoved(m, m', name);
  }

  lemma {:induction false} MapRemoved<V>(m: map<FatName, V>, m': map<FatName, V>, name: FatName)
    requires name !in m'
    requires forall n: FatName :: n != name ==> (n in m <==> n in m') && (n in m ==> m'[n] == m[n])
    ensures m' == m - {name}
  {
  }

  lemma {:induction false} FilesAfterAdd(v: Vol, v': Vol, k: nat)
    requires WellFormed(v) && WellFormed(v') && k < |v.root| && OthersKept(v, v', k)
    requires !Live(v.root[k]) && Live(v'.root[k])
    ensures Files(v') == Files(v)[NameOf(v'.root[k]) := Content(v', k)]
  {
    var m, m', name := Files(v), Files(v'), NameOf(v'.root[k]);
    FilesAreEntries(v', k);
    forall n: FatName | n != name
      ensures n in m <==> n in m'
      ensures n in m ==> m'[n] == m[n]
    {
      FilesOfOthers(v, v', k, n);
    }
    MapUpdated(m, m', name, Content(v', k));
  }

  lemma {:induction false} MapUpdated<V>(m: map<FatName, V>, m': map<FatName, V>, name: FatName, value: V)
    requires name in m' && m'[name] == value
    requires forall n: FatName :: n != name ==> (n in m <==> n in m') && (n in m ==> m'[n] == m[n])
    ensures m' == m[name := value]
  {
  }

  lemma {:induction false} MapReplaced<V>(m: map<FatName, V>, name: FatName, value: V)
    ensures (m - {name})[name := value] == m[name := value]
  {
  }

  lemma {:induction false} WriteFiles(v: Vol, name: FatName, data: seq<byte>)
    requires WellFormed(v) && Sound(v) && |data| < 0x1_0000_0000
    requires name[0] != UNUSED && name[0] != DELETED
    ensures var r := Write(v, name, data);
            && WellFormed(r.vol)
            && Files(r.vol) == if r.ok then Files(v)[name := data] else Files(v) - {name}
  {
    DeleteFiles(v, name);
    DeleteKeepsWellFormed(v, name);
    var d, r := Delete(v, name).vol, Write(v, name, data);
    if r.ok {
      WrittenEntry(d, name, data);
      FilesAfterAdd(d, r.vol, FindVacant(d.root, 0).value);
      MapReplaced(Files(v), name, data);
    } else {
      WriteRollsBack(d, name, data);
      FreeBytesIrrelevant(d, r.vol);
      SameFiles(d, r.vol);
    }
  }

  lemma {:induction false} SameFiles(v: Vol, v': Vol)
    requires WellFormed(v) && WellFormed(v') && v'.root == v.root
    requires forall j :: 0 <= j < |v.root| ==> SameFile(v, v', j)
    ensures Files(v') == Files(v)
  {
    forall n | n in Files(v)
      ensures Files(v')[n] == Files(v)[n]
    {
      FilesOfSame(v, v', n);
    }
  }

  lemma {:induction false} RenameFiles(v: Vol, from: FatName, to: FatName)
    requires WellFormed(v) && 0 !in from && to[0] != UNUSED && to[0] != DELETED
    ensures var r := Rename(v, from, to);
            && WellFormed(r.vol)
            && r.ok == (from in Files(v) && to !in Files(v))
            && Files(r.vol) == if r.ok then (Files(v) - {from})[to := Files(v)[from]] else Files(v)
  {
    RenameKeepsWellFormed(v, from, to);
    var r := Rename(v, from, to);
    if r.ok {
      RenameEffect(v, from, to);
      FilesAfterRename(v, r.vol, Find(v.root, from, 0).value);
    }
  }

  lemma {:induction false} FilesAfterRename(v: Vol, v': Vol, i: nat)
    requires WellFormed(v) && WellFormed(v') && i < |v.root| && SameSlots(v, v', i)
    requires Live(v.root[i]) && Live(v'.root[i]) && NameOf(v'.root[i]) !in Files(v) && !LongName(v.root[i])
    ensures var from, to := NameOf(v.root[i]), NameOf(v'.root[i]);
            from in Files(v) && Files(v') == (Files(v) - {from})[to := Files(v)[from]]
  {
    var from, to := NameOf(v.root[i]), NameOf(v'.root[i]);
    var m, m' := Files(v), Files(v');
    assert from in m && to in m' && m'[to] == m[from] by {
      FilesAreEntries(v, i);
      FilesAreEntries(v', i);
      RenamedFile(v, v', i);
    }
    assert OthersKept(v, v', i) by { RenamedOthers(v, v', i); }
    forall n: FatName | n != from && n != to
      ensures n in m <==> n in m'
      ensures n in m ==> m'[n] == m[n]
    {
      FilesOfOthers(v, v', i, n);
    }
    NameGone(v, v', i);
    MapRenamed(m, m', from, to);
  }

  lemma {:induction false} MapRenamed<V>(m: map<FatName, V>, m': map<FatName, V>, from: FatName, to: FatName)
    requires from in m && from !in m' && to in m' && m'[to] == m[from]
    requires forall n: FatName :: n != from && n != to ==> (n in m <==> n in m') && (n in m ==> m'[n] == m[n])
    ensures m' == (m - {from})[to := m[from]]
  {
  }

  lemma {:induction false} NameGone(v: Vol, v': Vol, i: nat)
    requires WellFormed(v) && WellFormed(v') && i < |v.root| && SameSlots(v, v', i)
    requires Live(v.root[i]) && NameOf(v'.root[i]) != NameOf(v.root[i])
    ensures NameOf(v.root[i]) !in Files(v')
  {
    FindComplete(v'.root, NameOf(v.root[i]), 0);
    forall j | 0 <= j < |v'.root| && Live(v'.root[j])
      ensures NameOf(v'.root[j]) != NameOf(v.root[i])
    {
      assert j < i ==> NamesDiffer(v.root, j, i);
      assert i < j ==> NamesDiffer(v.root, i, j);
    }
  }
}
