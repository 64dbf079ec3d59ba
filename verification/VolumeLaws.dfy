/** What the operations of a FAT-12 volume keep and achieve: well-formedness over every run,
    contents of files, exact success conditions, roll-back and conservation of clusters. */
module VolumeLaws {
  import opened Bytes
  import opened FatTable
  import opened Directory
  import opened VolumeModel

  // ---------------------------------------------------------------- files not touched

  /** Slot `j` holds the same entry, chain and contents in both volumes. */
  ghost predicate SameFile(v: Vol, v': Vol, j: nat)
    requires j < |v.root| && |v.clusters| == |v.fat| && |v'.clusters| == |v'.fat|
  {
    && |v'.root| == |v.root|
    && v'.root[j] == v.root[j]
    && FileChain(v', j) == FileChain(v, j)
    && Content(v', j) == Content(v, j)
  }

  lemma {:induction false} ChainKept(v: Vol, v': Vol, j: nat)
    requires j < |v.root| && Live(v.root[j]) && EntryOk(v, j)
    requires |v'.root| == |v.root| && v'.root[j] == v.root[j] && v'.spc == v.spc && |v'.fat| == |v.fat|
    requires forall c :: c in FileChain(v, j) && 2 <= c < |v.fat| ==> v'.fat[c] == v.fat[c]
    ensures FileChain(v', j) == FileChain(v, j) && EntryOk(v', j)
  {
    var ch := FileChain(v, j);
    if ch != [] {
      ChainFrame(v.fat, v'.fat, ch);
      WalkBound(v.fat, ClusterOf(v.root[j]), |v.fat|);
      WalkOfChain(v'.fat, ch, |v.fat|);
    }
  }

  lemma {:induction false} BytesKept(clusters: seq<seq<Sector>>, clusters': seq<seq<Sector>>, ch: seq<int>)
    requires |clusters'| == |clusters| && forall i :: 0 <= i < |ch| ==> 0 <= ch[i] < |clusters|
    requires forall c :: c in ch ==> clusters'[c] == clusters[c]
    ensures ChainBytes(clusters', ch) == ChainBytes(clusters, ch)
    decreases |ch|
  {
    if ch != [] {
      assert ch[|ch| - 1] in ch;
      BytesKept(clusters, clusters', ch[..|ch| - 1]);
    }
  }

  lemma {:induction false} FileKept(v: Vol, v': Vol, j: nat)
    requires v.Shaped() && v'.Shaped() && j < |v.root| && (Live(v.root[j]) ==> EntryOk(v, j))
    requires |v'.root| == |v.root| && v'.root[j] == v.root[j] && v'.spc == v.spc && |v'.fat| == |v.fat|
    requires forall c :: c in FileChain(v, j) && 2 <= c < |v.fat| ==>
               v'.fat[c] == v.fat[c] && v'.clusters[c] == v.clusters[c]
    ensures SameFile(v, v', j) && (Live(v.root[j]) ==> EntryOk(v', j))
  {
    if Live(v.root[j]) {
      ChainKept(v, v', j);
      var ch := FileChain(v, j);
      WalkInTable(v.fat, ClusterOf(v.root[j]), |v.fat|);
      BytesKept(v.clusters, v'.clusters, ch);
    }
  }

  // ---------------------------------------------------------------- one slot changes

  ghost predicate OthersKept(v: Vol, v': Vol, k: nat)
    requires v.Shaped() && v'.Shaped()
  {
    && |v'.root| == |v.root|
    && (forall j :: 0 <= j < |v.root| && j != k ==> SameFile(v, v', j))
  }

  /** Clusters of slot `k` in the new volume, if any, belonged to no other file. */
  lemma {:induction false} DisjointAfter(v: Vol, v': Vol, k: nat)
    requires v.Shaped() && v'.Shaped() && k < |v.root| && OthersKept(v, v', k) && ChainsDisjoint(v)
    requires forall j, c :: j != k && OwnedBy(v, c, j) ==> c !in FileChain(v', k)
    ensures ChainsDisjoint(v')
  {
    forall i, j, c | OwnedBy(v', c, i) && OwnedBy(v', c, j)
      ensures i == j
    {
      if i != k {
        assert SameFile(v, v', i) && OwnedBy(v, c, i);
      }
      if j != k {
        assert SameFile(v, v', j) && OwnedBy(v, c, j);
      }
    }
  }

  /** Every cluster in use is either a new one of slot `k` or was another file's before. */
  lemma {:induction false} NoneLostAfter(v: Vol, v': Vol, k: nat)
    requires v.Shaped() && v'.Shaped() && k < |v.root| && OthersKept(v, v', k) && NoLostClusters(v)
    requires |v'.fat| == |v.fat|
    requires forall c :: 2 <= c < |v.fat| && v'.fat[c] != 0 ==>
               c in FileChain(v', k) || (v.fat[c] != 0 && c !in FileChain(v, k))
    ensures NoLostClusters(v')
  {
    forall c | 2 <= c < |v'.fat| && v'.fat[c] != 0
      ensures !Lost(v', c)
    {
      if c in FileChain(v', k) {
        assert OwnedBy(v', c, k);
      } else {
        assert !Lost(v, c);
        var j :| OwnedBy(v, c, j);
        assert SameFile(v, v', j);
        assert OwnedBy(v', c, j);
      }
    }
  }

  // ---------------------------------------------------------------- removing an entry

  /** `v'` is `v` without the entry in slot `i`, whose clusters are free. */
  ghost predicate Removed(v: Vol, v': Vol, i: nat) {
    && i < |v.root| && Live(v.root[i])
    && v' == v.(fat := ZeroAll(v.fat, FileChain(v, i)), root := v.root[i := v.root[i][0 := DELETED]])
  }

  /** Deleting an existing file removes its entry and frees exactly its chain. */
  lemma {:induction false} DeleteEffect(v: Vol, name: FatName)
    requires WellFormed(v) && Sound(v) && Find(v.root, name, 0).Some?
    ensures Removed(v, Delete(v, name).vol, Find(v.root, name, 0).value)
  {
    var i := Find(v.root, name, 0).value;
    var ch := FileChain(v, i);
    assert EntryOk(v, i);
    if ClusterOf(v.root[i]) == 0 {
      assert ch == [];
      assert ZeroAll(v.fat, []) == v.fat;
    } else {
      FreeChainOfChain(v.fat, ch);
    }
  }

  lemma {:induction false} RemovedKeepsOthers(v: Vol, v': Vol, i: nat, j: nat)
    requires WellFormed(v) && Removed(v, v', i) && j < |v.root| && j != i
    ensures v'.Shaped() && SameFile(v, v', j) && (Live(v.root[j]) ==> EntryOk(v', j))
  {
    forall c | c in FileChain(v, j) && 2 <= c < |v.fat|
      ensures v'.fat[c] == v.fat[c]
    {
      assert OwnedBy(v, c, j) && !OwnedBy(v, c, i);
    }
    FileKept(v, v', j);
  }

  lemma {:induction false} RemovedIsWellFormed(v: Vol, v': Vol, i: nat)
    requires WellFormed(v) && Removed(v, v', i)
    ensures WellFormed(v') && OthersKept(v, v', i)
  {
    forall j | 0 <= j < |v.root| && j != i
      ensures SameFile(v, v', j) && (Live(v.root[j]) ==> EntryOk(v', j))
    {
      RemovedKeepsOthers(v, v', i, j);
    }
    assert FileChain(v', i) == [];
    NoneLostAfter(v, v', i);
    DisjointAfter(v, v', i);
    DeletedRoot(v.root, i);
  }

  // ---------------------------------------------------------------- adding an entry

  ghost predicate FreshChain(fat: Fat, ch: seq<int>) {
    && (forall i :: 0 <= i < |ch| ==> 2 <= ch[i] < |fat| && fat[ch[i]] == 0)
    && Distinct(ch)
  }

  /** `v'` is `v` with the first vacant slot `k` filled by an entry `s` for the free clusters `ch`. */
  ghost predicate Added(v: Vol, v': Vol, k: nat, s: Slot, ch: seq<int>) {
    && FindVacant(v.root, 0) == Some(k)
    && FreshChain(v.fat, ch)
    && v.Shaped() && |ch| == CeilDiv(SizeOf(s), v.ClusterBytes())
    && ClusterOf(s) == (if ch == [] then 0 else ch[0])
    && v'.spc == v.spc && v'.Shaped()
    && v'.fat == Link(v.fat, ch)
    && v'.root == v.root[k := s]
    && (forall c :: 2 <= c < |v.fat| && c !in ch ==> v'.clusters[c] == v.clusters[c])
  }

  lemma {:induction false} AddedKeepsOthers(v: Vol, v': Vol, k: nat, s: Slot, ch: seq<int>, j: nat)
    requires WellFormed(v) && Added(v, v', k, s, ch) && j < |v.root| && j != k
    ensures SameFile(v, v', j) && (Live(v.root[j]) ==> EntryOk(v', j))
    ensures forall c :: c in FileChain(v, j) ==> c !in ch
  {
    LinkEntries(v.fat, ch);
    forall c | c in FileChain(v, j)
      ensures c !in ch
    {
      assert EntryOk(v, j);
      ChainInUse(v.fat, FileChain(v, j), c);
    }
    FileKept(v, v', j);
  }

  lemma {:induction false} AddedChain(v: Vol, v': Vol, k: nat, s: Slot, ch: seq<int>)
    requires Added(v, v', k, s, ch) && Live(s)
    ensures FileChain(v', k) == ch && EntryOk(v', k)
  {
    CeilDivIsLeast(SizeOf(s), v.ClusterBytes(), 0);
    if ch != [] {
      LinkIsChain(v.fat, ch);
      DistinctBounded(ch, |v.fat|);
      WalkOfChain(v'.fat, ch, |v.fat|);
    }
  }

  /** Distinct numbers below `n` are at most `n` many. */
  lemma {:induction false} DistinctBounded(ch: seq<int>, n: nat)
    requires forall i :: 0 <= i < |ch| ==> 0 <= ch[i] < n
    requires Distinct(ch)
    ensures |ch| <= n
  {
    ElementsCount(ch);
    CardinalityMonotone(Elements(ch), Below(n));
  }

  ghost function Elements(ch: seq<int>): set<int> {
    set c | c in ch
  }

  lemma {:induction false} ElementsCount(ch: seq<int>)
    requires Distinct(ch)
    ensures |Elements(ch)| == |ch|
    decreases |ch|
  {
    if ch != [] {
      var n := |ch| - 1;
      DistinctPrefix(ch, n);
      ElementsCount(ch[..n]);
      assert ch == ch[..n] + [ch[n]];
      assert Elements(ch) == Elements(ch[..n]) + {ch[n]};
    }
  }

  ghost function Below(n: nat): (r: set<int>)
    ensures |r| == n && forall c :: c in r <==> 0 <= c < n
  {
    if n == 0 then {} else Below(n - 1) + {n - 1}
  }

  lemma {:induction false} CardinalityMonotone(a: set<int>, b: set<int>)
    requires a <= b
    ensures |a| <= |b|
  {
    assert b == a + (b - a);
  }

  lemma {:induction false} AddedKeepsAllOthers(v: Vol, v': Vol, k: nat, s: Slot, ch: seq<int>)
    requires WellFormed(v) && Added(v, v', k, s, ch)
    ensures OthersKept(v, v', k)
    ensures forall j :: 0 <= j < |v.root| && j != k && Live(v.root[j]) ==> EntryOk(v', j)
    ensures forall j, c :: j != k && OwnedBy(v, c, j) ==> c !in ch
  {
    forall j | 0 <= j < |v.root| && j != k
      ensures SameFile(v, v', j) && (Live(v.root[j]) ==> EntryOk(v', j))
      ensures forall c :: c in FileChain(v, j) ==> c !in ch
    {
      AddedKeepsOthers(v, v', k, s, ch, j);
    }
  }

  lemma {:induction false} AddedIsWellFormed(v: Vol, v': Vol, k: nat, s: Slot, ch: seq<int>)
    requires WellFormed(v) && Added(v, v', k, s, ch)
    requires Live(s) && Find(v.root, NameOf(s), 0).None?
    ensures WellFormed(v') && OthersKept(v, v', k)
  {
    AddedChain(v, v', k, s, ch);
    AddedKeepsAllOthers(v, v', k, s, ch);
    assert FileChain(v, k) == [];
    assert NoLostClusters(v') by {
      LinkEntries(v.fat, ch);
      NoneLostAfter(v, v', k);
    }
    DisjointAfter(v, v', k);
    FilledRoot(v.root, k, s);
  }

  /** An entry whose name starts with the deletion mark is dead on arrival: its clusters are lost. */
  lemma {:induction false} AddedUnderDeletionMark(v: Vol, v': Vol, k: nat, s: Slot, ch: seq<int>)
    requires WellFormed(v) && Added(v, v', k, s, ch) && s[0] == DELETED
    ensures OthersKept(v, v', k)
    ensures WellFormed(v') <==> ch == []
  {
    AddedKeepsAllOthers(v, v', k, s, ch);
    assert FileChain(v', k) == [] == FileChain(v, k);
    if ch == [] {
      FilledRoot(v.root, k, s);
      NoneLostAfter(v, v', k);
      DisjointAfter(v, v', k);
    } else {
      LinkIsChain(v.fat, ch);
      ChainInUse(v'.fat, ch, ch[0]);
      forall j: nat
        ensures !OwnedBy(v', ch[0], j)
      {
        if j < |v.root| && j != k {
          assert SameFile(v, v', j) && !OwnedBy(v, ch[0], j);
        }
      }
      assert Lost(v', ch[0]);
    }
  }
}
