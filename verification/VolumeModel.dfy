/** A FAT-12 volume at the level of its table, its directory and its clusters, the effect of the
    driver's operations on it, and what those operations keep. */
module VolumeModel {
  import opened Bytes
  import opened FatTable
  import opened Directory

  /** `clusters[c]` holds the `spc` sectors of cluster `c >= 2`. */
  datatype Vol = Vol(spc: nat, fat: Fat, root: Root, clusters: seq<seq<Sector>>)
  {
    ghost predicate Shaped() {
      && 1 <= spc < 0x100
      && |clusters| == |fat|
      && (forall c :: 2 <= c < |clusters| ==> |clusters[c]| == spc)
    }

    function ClusterBytes(): nat {
      spc * 512
    }
  }

  // ---------------------------------------------------------------- file contents

  function Flatten(ss: seq<Sector>): (r: seq<byte>)
    ensures |r| == |ss| * 512
  {
    if ss == [] then [] else Flatten(ss[..|ss| - 1]) + ss[|ss| - 1]
  }

  /** The bytes of the clusters of a chain, in chain order. */
  ghost function ChainBytes(clusters: seq<seq<Sector>>, ch: seq<int>): seq<byte>
    requires forall i :: 0 <= i < |ch| ==> 0 <= ch[i] < |clusters|
  {
    if ch == [] then []
    else ChainBytes(clusters, ch[..|ch| - 1]) + Flatten(clusters[ch[|ch| - 1]])
  }

  function Take(s: seq<byte>, n: nat): seq<byte> {
    s[..Min(n, |s|)]
  }

  /** The chain of a directory slot: nothing for a dead or empty entry. */
  ghost function FileChain(v: Vol, i: nat): seq<int>
    requires i < |v.root|
  {
    if Live(v.root[i]) then Walk(v.fat, ClusterOf(v.root[i]), |v.fat|) else []
  }

  lemma {:induction false} WalkInTable(fat: Fat, c: int, fuel: nat)
    ensures forall i :: 0 <= i < |Walk(fat, c, fuel)| ==> 2 <= Walk(fat, c, fuel)[i] < |fat|
    decreases fuel
  {
    if fuel != 0 && 2 <= c < |fat| {
      WalkInTable(fat, fat[c], fuel - 1);
    }
  }

  /** What a live entry stores: its chain's bytes cut to the recorded size. */
  ghost function Content(v: Vol, i: nat): seq<byte>
    requires i < |v.root| && |v.clusters| == |v.fat|
  {
    if Live(v.root[i]) then
      WalkInTable(v.fat, ClusterOf(v.root[i]), |v.fat|);
      Take(ChainBytes(v.clusters, FileChain(v, i)), SizeOf(v.root[i]))
    else []
  }

  // ---------------------------------------------------------------- well-formed volumes

  /** A live entry is either empty with cluster 0 or heads a chain of the right length, unless it is part
      of a long name. */
  ghost predicate EntryOk(v: Vol, i: nat)
    requires i < |v.root|
  {
    || LongName(v.root[i])
    || (ClusterOf(v.root[i]) == 0 && SizeOf(v.root[i]) == 0)
    || (&& SizeOf(v.root[i]) > 0 && v.spc > 0
        && IsChain(v.fat, FileChain(v, i))
        && |FileChain(v, i)| == CeilDiv(SizeOf(v.root[i]), v.ClusterBytes()))
  }

  ghost predicate OwnedBy(v: Vol, c: int, i: nat) {
    i < |v.root| && c in FileChain(v, i)
  }

  ghost predicate EntriesOk(v: Vol) {
    forall i :: 0 <= i < |v.root| && Live(v.root[i]) ==> EntryOk(v, i)
  }

  ghost predicate ChainsDisjoint(v: Vol) {
    forall i, j, c :: OwnedBy(v, c, i) && OwnedBy(v, c, j) ==> i == j
  }

  /** Cluster `c` is marked used but belongs to no file. */
  ghost predicate Lost(v: Vol, c: int) {
    2 <= c < |v.fat| && v.fat[c] != 0 && forall i :: !OwnedBy(v, c, i)
  }

  ghost predicate NoLostClusters(v: Vol) {
    forall c :: !Lost(v, c)
  }

  ghost predicate WellFormed(v: Vol) {
    && v.Shaped()
    && EntriesOk(v) && ChainsDisjoint(v) && NoLostClusters(v)
    && UniqueNames(v.root) && EndMarked(v.root)
  }

  /** What the driver needs in order to stay inside the table. */
  ghost predicate Sound(v: Vol) {
    && v.Shaped()
    && LinksInRange(v.fat)
    && (forall i :: 0 <= i < |v.root| && Live(v.root[i]) ==> StartInRange(v.fat, ClusterOf(v.root[i])))
  }

  lemma {:induction false} WellFormedIsSound(v: Vol)
    requires WellFormed(v)
    ensures Sound(v)
  {
    forall c | 2 <= c < |v.fat| && IsLink(v.fat[c])
      ensures v.fat[c] < |v.fat|
    {
      assert !Lost(v, c);
      var i :| OwnedBy(v, c, i);
      var ch := FileChain(v, i);
      assert IsChain(v.fat, ch);
      var k :| 0 <= k < |ch| && ch[k] == c;
      if k < |ch| - 1 { assert Linked(v.fat, ch, k); }
    }
    forall i | 0 <= i < |v.root| && Live(v.root[i])
      ensures StartInRange(v.fat, ClusterOf(v.root[i]))
    {
      assert EntryOk(v, i);
      if ClusterOf(v.root[i]) != 0 { assert FileChain(v, i)[0] == ClusterOf(v.root[i]); }
    }
  }

  function FreeClusters(v: Vol): nat {
    |FreeList(v.fat, 2)|
  }

  /** The driver's free-space query, in bytes. */
  function FreeSpace(v: Vol): nat {
    FreeClusters(v) * v.ClusterBytes()
  }

  // ---------------------------------------------------------------- operations

  datatype Outcome = Outcome(ok: bool, vol: Vol)

  /** `fs_delete`. */
  ghost function Delete(v: Vol, name: FatName): (r: Outcome)
    requires Sound(v)
    ensures r.vol.Shaped() && r.vol.spc == v.spc && |r.vol.fat| == |v.fat| && |r.vol.root| == |v.root|
    ensures r.ok <==> Find(v.root, name, 0).Some?
    ensures r.vol.clusters == v.clusters
  {
    match Find(v.root, name, 0)
    case None => Outcome(false, v)
    case Some(i) =>
      var c := ClusterOf(v.root[i]);
      Outcome(true, v.(fat := if c >= 2 then FreeChain(v.fat, c) else v.fat,
                       root := v.root[i := v.root[i][0 := DELETED]]))
  }

  /** Sector `n` of the data: 512 of its bytes, the last one padded with zeros. */
  function DataSector(data: seq<byte>, n: nat): Sector
    requires 512 * n < |data|
  {
    var piece := data[512 * n..Min(512 * (n + 1), |data|)];
    piece + Zeros(512 - |piece|)
  }

  /** The bytes of the data in their place, and zeros behind the last one. */
  lemma {:induction false} DataSectorIs(data: seq<byte>, n: nat, j: nat)
    requires 512 * n < |data| && j < 512
    ensures DataSector(data, n)[j] == if 512 * n + j < |data| then data[512 * n + j] else 0
  {
  }

  function SectorAfter(prior: seq<Sector>, data: seq<byte>, first: nat, j: nat): Sector
    requires j < |prior|
  {
    if 512 * (first + j) < |data| then DataSector(data, first + j) else prior[j]
  }

  /** A cluster after receiving the data from sector `first` on; what the data does not reach stays. */
  function PutSectors(prior: seq<Sector>, data: seq<byte>, first: nat): (r: seq<Sector>)
    ensures |r| == |prior|
  {
    seq(|prior|, j requires 0 <= j < |prior| => SectorAfter(prior, data, first, j))
  }

  /** Number of sectors in `k` clusters. */
  function Span(k: nat, spc: nat): nat {
    if k == 0 then 0 else Span(k - 1, spc) + spc
  }

  lemma {:induction false} SpanInBytes(k: nat, spc: nat)
    ensures 512 * Span(k, spc) == k * (spc * 512)
  {
    if k != 0 {
      SpanInBytes(k - 1, spc);
      assert k * (spc * 512) == (k - 1) * (spc * 512) + spc * 512;
    }
  }

  lemma {:induction false} SpanIsProduct(k: nat, spc: nat)
    ensures Span(k, spc) == k * spc
  {
    if k != 0 {
      SpanIsProduct(k - 1, spc);
      assert k * spc == (k - 1) * spc + spc;
    }
  }

  /** The clusters after the data was spread over the first `k` clusters of `ch`. */
  function StoreData(clusters: seq<seq<Sector>>, spc: nat, ch: seq<int>, data: seq<byte>, k: nat)
    : (r: seq<seq<Sector>>)
    requires k <= |ch| && forall i :: 0 <= i < |ch| ==> 2 <= ch[i] < |clusters|
    ensures |r| == |clusters|
    ensures forall c :: 0 <= c < |clusters| ==> |r[c]| == |clusters[c]|
    decreases k
  {
    if k == 0 then clusters
    else
      var m := StoreData(clusters, spc, ch, data, k - 1);
      m[ch[k - 1] := PutSectors(m[ch[k - 1]], data, Span(k - 1, spc))]
  }

  /** `fs_write`: delete, then take the lowest free clusters for the data and the first vacant slot
      for the entry; on failure everything but the bytes of free clusters is as after the delete. */
  ghost function Write(v: Vol, name: FatName, data: seq<byte>): (r: Outcome)
    requires Sound(v) && |data| < 0x1_0000_0000
    ensures r.vol.Shaped() && r.vol.spc == v.spc && |r.vol.fat| == |v.fat| && |r.vol.root| == |v.root|
  {
    WriteAfterDelete(Delete(v, name).vol, name, data)
  }

  ghost function WriteAfterDelete(v: Vol, name: FatName, data: seq<byte>): (r: Outcome)
    requires v.Shaped() && |data| < 0x1_0000_0000
    ensures r.vol.Shaped() && r.vol.spc == v.spc && |r.vol.fat| == |v.fat| && |r.vol.root| == |v.root|
  {
    var slot := FindVacant(v.root, 0);
    if data == [] then
      if slot.None? then Outcome(false, v)
      else Outcome(true, v.(root := v.root[slot.value := NewSlot(name, 0, 0)]))
    else
      var free := FreeList(v.fat, 2);
      var need := CeilDiv(|data|, v.ClusterBytes());
      FreeListMembers(v.fat, 2);
      if |free| < need then
        Outcome(false, v.(clusters := StoreData(v.clusters, v.spc, free, data, |free|)))
      else
        var ch := free[..need];
        CeilDivIsLeast(|data|, v.ClusterBytes(), 0);
        var stored := v.(clusters := StoreData(v.clusters, v.spc, ch, data, need));
        if slot.None? then Outcome(false, stored)
        else Outcome(true, stored.(fat := Link(v.fat, ch),
                                   root := v.root[slot.value := NewSlot(name, ch[0], |data|)]))
  }

  /** `fs_append`; `got` is what reading the old contents back returned. */
  ghost function Append(v: Vol, name: FatName, data: seq<byte>, got: seq<byte>): (r: Outcome)
    requires Sound(v) && OldSize(v, name) + |data| < 0x1_0000_0000
    ensures r.vol.Shaped() && r.vol.spc == v.spc && |r.vol.fat| == |v.fat| && |r.vol.root| == |v.root|
  {
    if OldSize(v, name) == 0 then Write(v, name, data)
    else if |got| != OldSize(v, name) then Outcome(false, v)
    else Write(v, name, got + data)
  }

  ghost function OldSize(v: Vol, name: FatName): nat {
    match Find(v.root, name, 0)
    case None => 0
    case Some(i) => SizeOf(v.root[i])
  }

  /** `fs_rename`. */
  ghost function Rename(v: Vol, from: FatName, to: FatName): (r: Outcome)
    ensures |r.vol.root| == |v.root|
  {
    if Find(v.root, to, 0).Some? then Outcome(false, v)
    else
      match Find(v.root, from, 0)
      case None => Outcome(false, v)
      case Some(i) => Outcome(true, v.(root := v.root[i := to + v.root[i][11..]]))
  }
}
