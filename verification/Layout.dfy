/** Where a FAT-12 volume lies on the disk -- boot sector, copies of the table, root directory,
    data area -- and the volume that a sequence of sectors stores. */
module Layout {
  import opened Bytes
  import opened FatTable
  import opened FatBytes
  import opened Directory
  import opened VolumeModel

  /** The fields of the driver's `info` that `fs_init` reads from the boot sector. */
  datatype Geometry = Geometry(spc: nat, reserved: nat, numFats: nat, rootEntries: nat, fatSize: nat)
  {
    function FatStart(k: nat): nat {
      reserved + Span(k, fatSize)
    }

    function RootStart(): nat {
      FatStart(numFats)
    }

    function RootSectors(): nat {
      (rootEntries * 32 + 511) / 512
    }

    function DataStart(): nat {
      RootStart() + RootSectors()
    }

    /** First sector of cluster `c`. */
    function ClusterStart(c: nat): nat
      requires c >= 2
    {
      DataStart() + Span(c - 2, spc)
    }

    /** A disk of `n` sectors holds all copies of the table. */
    ghost predicate TablesIn(n: nat) {
      numFats >= 1 && RootStart() <= n
    }

    /** A disk of `n` sectors holds the tables, the directory and the clusters below 341, those whose
        entries lie in the first sector of a table. A FAT-12 table has at most 12 sectors. */
    ghost predicate VolumeIn(n: nat) {
      && TablesIn(n)
      && 1 <= fatSize <= 12
      && 1 <= spc < 0x100
      && ClusterStart(MAX_CLUSTERS) <= n <= 0x1_0000_0000
    }
  }

  function ParseBootSector(bs: Sector): Geometry {
    Geometry(bs[13], LeValue(bs[14..16]), bs[16], LeValue(bs[17..19]), LeValue(bs[22..24]))
  }

  /** The fields of the boot sector, byte by byte. */
  lemma {:induction false} BootFields(bs: Sector)
    ensures var g := ParseBootSector(bs);
            && g.spc == bs[13] && g.numFats == bs[16]
            && g.reserved == bs[14] as int + 0x100 * bs[15] as int
            && g.rootEntries == bs[17] as int + 0x100 * bs[18] as int
            && g.fatSize == bs[22] as int + 0x100 * bs[23] as int
  {
    LeBytePair(bs, 14);
    LeBytePair(bs, 17);
    LeBytePair(bs, 22);
  }

  /** Where the regions start: copies of the table one behind the other, then as many sectors as the root
      entries of 32 bytes need, then the clusters, numbered from 2. */
  lemma {:induction false} RegionsAre(g: Geometry, k: nat, c: nat)
    requires c >= 2
    ensures g.FatStart(k) == g.reserved + k * g.fatSize
    ensures g.RootStart() == g.reserved + g.numFats * g.fatSize
    ensures 512 * g.RootSectors() >= 32 * g.rootEntries && 512 * (g.RootSectors() - 1) < 32 * g.rootEntries
    ensures g.DataStart() == g.RootStart() + g.RootSectors()
    ensures g.ClusterStart(c) == g.DataStart() + (c - 2) * g.spc
  {
    SpanIsProduct(k, g.fatSize);
    SpanIsProduct(g.numFats, g.fatSize);
    SpanIsProduct(c - 2, g.spc);
  }

  /** A 1440-kilobyte floppy disk -- tables of nine sectors, 224 root entries -- by its boot sector: the root
      directory starts at sector 19 and the data at sector 33. */
  lemma {:induction false} FloppyLayout(bs: Sector)
    requires bs[13] == 1 && bs[14] == 1 && bs[15] == 0 && bs[16] == 2
    requires bs[17] == 224 && bs[18] == 0 && bs[22] == 9 && bs[23] == 0
    ensures var g := ParseBootSector(bs);
            g.VolumeIn(2880) && g.RootStart() == 19 && g.DataStart() == 33 && g.ClusterStart(2) == 33
  {
    hide ParseBootSector;
    BootFields(bs);
    SameGeometry(ParseBootSector(bs), Geometry(1, 1, 2, 224, 9));
    FloppyRegions();
  }

  lemma {:induction false} SameGeometry(g: Geometry, h: Geometry)
    requires g.spc == h.spc && g.reserved == h.reserved && g.numFats == h.numFats
    requires g.rootEntries == h.rootEntries && g.fatSize == h.fatSize
    ensures g == h
  {
  }

  lemma {:induction false} FloppyRegions()
    ensures var g := Geometry(1, 1, 2, 224, 9);
            g.VolumeIn(2880) && g.RootStart() == 19 && g.DataStart() == 33 && g.ClusterStart(2) == 33
  {
    var g := Geometry(1, 1, 2, 224, 9);
    hide Span;
    RegionsAre(g, 0, 2);
    RegionsAre(g, 0, MAX_CLUSTERS);
    assert g.RootSectors() == 14;
  }

  lemma {:induction false} SpanMonotone(a: nat, b: nat, spc: nat)
    requires a <= b
    ensures Span(a, spc) <= Span(b, spc)
    decreases b
  {
    if a < b {
      SpanMonotone(a, b - 1, spc);
    }
  }

  /** Blocks of `spc` sectors with different numbers do not meet. */
  lemma {:induction false} SpansApart(a: nat, b: nat, spc: nat)
    requires a != b
    ensures Span(a, spc) + spc <= Span(b, spc) || Span(b, spc) + spc <= Span(a, spc)
  {
    if a < b {
      SpanMonotone(a + 1, b, spc);
    } else {
      SpanMonotone(b + 1, a, spc);
    }
  }

  // ---------------------------------------------------------------- the table copies

  ghost function FatCopy(g: Geometry, d: seq<Sector>, k: nat): (copy: seq<Sector>)
    requires g.TablesIn(|d|) && k < g.numFats
    ensures |copy| == g.fatSize
  {
    SpanMonotone(k + 1, g.numFats, g.fatSize);
    d[g.FatStart(k)..g.FatStart(k) + g.fatSize]
  }

  /** All copies of the table are byte for byte the same. */
  ghost predicate Mirrored(g: Geometry, d: seq<Sector>)
    requires g.TablesIn(|d|)
  {
    forall k :: 0 <= k < g.numFats ==> FatCopy(g, d, k) == FatCopy(g, d, 0)
  }

  /** Entry `c` lies in one sector of a table copy. */
  ghost predicate Addressable(g: Geometry, c: nat) {
    Fits(c) && ByteOffset(c) / 512 < g.fatSize
  }

  /** The disk after `fat_set` has rewritten entry `c` in the first `k` copies. */
  ghost function StoreEntries(g: Geometry, d: seq<Sector>, c: nat, v: Entry, k: nat): (r: seq<Sector>)
    requires g.TablesIn(|d|) && k <= g.numFats && Addressable(g, c)
    ensures |r| == |d|
  {
    if k == 0 then d
    else
      SpanMonotone(k, g.numFats, g.fatSize);
      var r := StoreEntries(g, d, c, v, k - 1);
      var lba := g.FatStart(k - 1) + ByteOffset(c) / 512;
      r[lba := StoreEntry(r[lba], c, v)]
  }

  lemma {:induction false} StoreEntriesFrame(g: Geometry, d: seq<Sector>, c: nat, v: Entry, k: nat, x: nat)
    requires g.TablesIn(|d|) && k <= g.numFats && Addressable(g, c)
    requires x < g.reserved || g.FatStart(k) <= x < |d|
    ensures x < |d| ==> StoreEntries(g, d, c, v, k)[x] == d[x]
  {
    if k != 0 {
      SpanMonotone(k, g.numFats, g.fatSize);
      StoreEntriesFrame(g, d, c, v, k - 1, x);
    }
  }

  lemma {:induction false} CopyUpdated(g: Geometry, d: seq<Sector>, k: nat, s: nat, x: Sector)
    requires g.TablesIn(|d|) && k < g.numFats && s < g.fatSize
    ensures g.FatStart(k) + s < |d|
    ensures FatCopy(g, d[g.FatStart(k) + s := x], k) == FatCopy(g, d, k)[s := x]
    ensures FatCopy(g, d, k)[s] == d[g.FatStart(k) + s]
  {
    SpanMonotone(k + 1, g.numFats, g.fatSize);
  }

  lemma {:induction false} CopyApart(g: Geometry, d: seq<Sector>, k: nat, x: nat, y: Sector)
    requires g.TablesIn(|d|) && k < g.numFats && x < |d|
    requires x < g.FatStart(k) || g.FatStart(k + 1) <= x
    ensures FatCopy(g, d[x := y], k) == FatCopy(g, d, k)
  {
    SpanMonotone(k + 1, g.numFats, g.fatSize);
    assert g.FatStart(k + 1) == g.FatStart(k) + g.fatSize;
  }

  lemma {:induction false} CopyUntouched(g: Geometry, d: seq<Sector>, c: nat, v: Entry, k: nat)
    requires g.TablesIn(|d|) && k < g.numFats && Addressable(g, c)
    ensures FatCopy(g, StoreEntries(g, d, c, v, k), k) == FatCopy(g, d, k)
  {
    SpanMonotone(k + 1, g.numFats, g.fatSize);
    forall x | g.FatStart(k) <= x < g.FatStart(k + 1)
      ensures StoreEntries(g, d, c, v, k)[x] == d[x]
    {
      StoreEntriesFrame(g, d, c, v, k, x);
    }
  }

  /** Each copy written is the old copy with the one entry replaced. */
  lemma {:induction false} StoreEntriesCopy(g: Geometry, d: seq<Sector>, c: nat, v: Entry, k: nat, j: nat)
    requires g.TablesIn(|d|) && j < k <= g.numFats && Addressable(g, c)
    ensures FatCopy(g, StoreEntries(g, d, c, v, k), j) == PutEntry(FatCopy(g, d, j), c, v)
  {
    if j < k - 1 {
      StoreEntriesCopy(g, d, c, v, k - 1, j);
      NextStoreApart(g, d, c, v, k, j);
    } else {
      CopyUntouched(g, d, c, v, j);
      NextStore(g, d, c, v, k);
    }
  }

  lemma {:induction false} NextStoreApart(g: Geometry, d: seq<Sector>, c: nat, v: Entry, k: nat, j: nat)
    requires g.TablesIn(|d|) && j < k - 1 < g.numFats && Addressable(g, c)
    ensures FatCopy(g, StoreEntries(g, d, c, v, k), j) == FatCopy(g, StoreEntries(g, d, c, v, k - 1), j)
  {
    var r, lba := StoreEntries(g, d, c, v, k - 1), g.FatStart(k - 1) + ByteOffset(c) / 512;
    SpanMonotone(j + 1, k - 1, g.fatSize);
    SpanMonotone(k, g.numFats, g.fatSize);
    CopyApart(g, r, j, lba, StoreEntry(r[lba], c, v));
  }

  lemma {:induction false} NextStore(g: Geometry, d: seq<Sector>, c: nat, v: Entry, k: nat)
    requires g.TablesIn(|d|) && 0 < k <= g.numFats && Addressable(g, c)
    ensures FatCopy(g, StoreEntries(g, d, c, v, k), k - 1)
            == PutEntry(FatCopy(g, StoreEntries(g, d, c, v, k - 1), k - 1), c, v)
  {
    var r, s := StoreEntries(g, d, c, v, k - 1), ByteOffset(c) / 512;
    SpanMonotone(k, g.numFats, g.fatSize);
    CopyUpdated(g, r, k - 1, s, StoreEntry(r[g.FatStart(k - 1) + s], c, v));
  }

  /** Setting an entry in all copies keeps them identical; the entry reads back from each of them
      and every other entry keeps its value. */
  lemma {:induction false} MirrorsKept(g: Geometry, d: seq<Sector>, c: nat, v: Entry)
    requires g.TablesIn(|d|) && Addressable(g, c)
    ensures var d' := StoreEntries(g, d, c, v, g.numFats);
            && (Mirrored(g, d) ==> Mirrored(g, d'))
            && forall k, x: nat :: 0 <= k < g.numFats && Addressable(g, x) ==>
                 EntryAt(FatCopy(g, d', k), x) == if x == c then v else EntryAt(FatCopy(g, d, k), x)
  {
    var d' := StoreEntries(g, d, c, v, g.numFats);
    forall k | 0 <= k < g.numFats
      ensures FatCopy(g, d', k) == PutEntry(FatCopy(g, d, k), c, v)
    {
      StoreEntriesCopy(g, d, c, v, g.numFats, k);
    }
    forall k, x: nat | 0 <= k < g.numFats && Addressable(g, x)
      ensures EntryAt(FatCopy(g, d', k), x) == if x == c then v else EntryAt(FatCopy(g, d, k), x)
    {
      PutThenGet(FatCopy(g, d, k), c, v, x);
    }
  }

  /** Writing behind the copies leaves them as they are. */
  lemma {:induction false} MirroredElsewhere(g: Geometry, d: seq<Sector>, lba: nat, x: Sector)
    requires g.TablesIn(|d|) && g.RootStart() <= lba < |d|
    ensures Mirrored(g, d[lba := x]) <==> Mirrored(g, d)
  {
    var d' := d[lba := x];
    forall k | 0 <= k < g.numFats
      ensures FatCopy(g, d', k) == FatCopy(g, d, k)
    {
      SpanMonotone(k + 1, g.numFats, g.fatSize);
      CopyApart(g, d, k, lba, x);
    }
    assert FatCopy(g, d', 0) == FatCopy(g, d, 0);
    if !Mirrored(g, d') {
      var k :| 0 <= k < g.numFats && FatCopy(g, d', k) != FatCopy(g, d', 0);
      assert FatCopy(g, d, k) != FatCopy(g, d, 0);
    }
    if !Mirrored(g, d) {
      var k :| 0 <= k < g.numFats && FatCopy(g, d, k) != FatCopy(g, d, 0);
      assert FatCopy(g, d', k) != FatCopy(g, d', 0);
    }
  }

  // ---------------------------------------------------------------- the stored volume

  ghost function SlotAt(g: Geometry, d: seq<Sector>, i: nat): Slot
    requires g.VolumeIn(|d|) && i < 16 * g.RootSectors()
  {
    SlotIn(d[g.RootStart() + i / 16], i % 16)
  }

  lemma {:induction false} ClusterInDisk(g: Geometry, n: nat, c: nat)
    requires g.VolumeIn(n) && 2 <= c < MAX_CLUSTERS
    ensures g.RootStart() + g.RootSectors() <= g.ClusterStart(c)
    ensures g.ClusterStart(c) + g.spc <= n
  {
    SpanMonotone(c - 1, MAX_CLUSTERS - 2, g.spc);
  }

  ghost function ClusterAt(g: Geometry, d: seq<Sector>, c: nat): (cluster: seq<Sector>)
    requires g.VolumeIn(|d|) && c < MAX_CLUSTERS
    ensures |cluster| == if c < 2 then 0 else g.spc
  {
    if c < 2 then []
    else
      ClusterInDisk(g, |d|, c);
      d[g.ClusterStart(c)..g.ClusterStart(c) + g.spc]
  }

  /** The volume stored in the sectors `d`, up to cluster 340. */
  ghost function Stored(g: Geometry, d: seq<Sector>): (v: Vol)
    requires g.VolumeIn(|d|)
    ensures v.Shaped() && v.spc == g.spc
    ensures |v.fat| == MAX_CLUSTERS && |v.root| == 16 * g.RootSectors()
  {
    Vol(g.spc,
        Table(d[g.reserved]),
        seq(16 * g.RootSectors(), i requires 0 <= i < 16 * g.RootSectors() => SlotAt(g, d, i)),
        seq(MAX_CLUSTERS, c requires 0 <= c < MAX_CLUSTERS => ClusterAt(g, d, c)))
  }

  /** The stored volume byte by byte: the table is the first sector behind the reserved ones, slot `i` the
      32 bytes from byte 32 * i of the root directory on, and cluster `c` the sectors from its start on. */
  lemma {:induction false} StoredIs(g: Geometry, d: seq<Sector>, i: nat, j: nat, c: nat, s: nat)
    requires g.VolumeIn(|d|) && i < 16 * g.RootSectors() && j < 32 && 2 <= c < MAX_CLUSTERS && s < g.spc
    ensures var v, at := Stored(g, d), 32 * i + j;
            && v.spc == g.spc && |v.root| == 16 * g.RootSectors()
            && g.reserved < |d| && v.fat == Table(d[g.reserved])
            && g.RootStart() + at / 512 < |d| && v.root[i][j] == d[g.RootStart() + at / 512][at % 512]
            && g.ClusterStart(c) + s < |d| && v.clusters[c][s] == d[g.ClusterStart(c) + s]
  {
    hide Table;
    ClusterInDisk(g, |d|, c);
    SpanMonotone(1, g.numFats, g.fatSize);
    assert i == 16 * (i / 16) + i % 16;
    assert 32 * i + j == 512 * (i / 16) + (32 * (i % 16) + j);
    assert (32 * i + j) / 512 == i / 16 && (32 * i + j) % 512 == 32 * (i % 16) + j;
  }

  /** The `k`-th pair of entries of a table copy of any size, unless it straddles two sectors, is the
      little-endian number in three bytes of the copy. */
  lemma {:induction false} CopyPair(copy: seq<Sector>, k: nat)
    requires InTable(copy, 2 * k) && InTable(copy, 2 * k + 1)
    ensures 3 * k + 2 < 512 * |copy|
    ensures var b := Flatten(copy);
            EntryAt(copy, 2 * k) as int + 0x1000 * EntryAt(copy, 2 * k + 1) as int
            == b[3 * k] as int + 0x100 * b[3 * k + 1] as int + 0x1_0000 * b[3 * k + 2] as int
  {
    hide Unpack;
    assert ByteOffset(2 * k) == 3 * k && ByteOffset(2 * k + 1) == 3 * k + 1;
    var s, o := 3 * k / 512, 3 * k % 512;
    assert (3 * k + 1) / 512 == s && (3 * k + 1) % 512 == o + 1;
    FlattenAt(copy, s, o);
    FlattenAt(copy, s, o + 1);
    FlattenAt(copy, s, o + 2);
    PairIsLittleEndian(copy[s][o], copy[s][o + 1], copy[s][o + 2]);
  }

  lemma {:induction false} FlattenAt(ss: seq<Sector>, i: nat, j: nat)
    requires i < |ss| && j < 512
    ensures 512 * i + j < |Flatten(ss)| && Flatten(ss)[512 * i + j] == ss[i][j]
    decreases |ss|
  {
    if i < |ss| - 1 {
      FlattenAt(ss[..|ss| - 1], i, j);
    }
  }

  /** Writing an entry in every copy of the table replaces that entry and nothing else. */
  lemma {:induction false} StoredAfterFatSet(g: Geometry, d: seq<Sector>, c: nat, v: Entry)
    requires g.VolumeIn(|d|) && c < MAX_CLUSTERS
    ensures Addressable(g, c)
    ensures var d', prior := StoreEntries(g, d, c, v, g.numFats), Stored(g, d);
            Stored(g, d') == prior.(fat := prior.fat[c := v])
  {
    OneSectorTable(c);
    var d' := StoreEntries(g, d, c, v, g.numFats);
    StoreEntriesCopy(g, d, c, v, g.numFats, 0);
    assert FatCopy(g, d, 0)[0] == d[g.reserved] && FatCopy(g, d', 0)[0] == d'[g.reserved];
    TableStore(d[g.reserved], c, v);
    forall x | g.RootStart() <= x < |d|
      ensures d'[x] == d[x]
    {
      StoreEntriesFrame(g, d, c, v, g.numFats, x);
    }
    SameArea(g, d, d');
  }

  /** Directory and data come from the sectors behind the table copies. */
  lemma {:induction false} SameArea(g: Geometry, d: seq<Sector>, d': seq<Sector>)
    requires g.VolumeIn(|d|) && |d'| == |d|
    requires forall x :: g.RootStart() <= x < |d| ==> d'[x] == d[x]
    ensures Stored(g, d').root == Stored(g, d).root
    ensures Stored(g, d').clusters == Stored(g, d).clusters
  {
    forall c | 0 <= c < MAX_CLUSTERS
      ensures ClusterAt(g, d', c) == ClusterAt(g, d, c)
    {
      if c >= 2 {
        ClusterInDisk(g, |d|, c);
      }
    }
  }

  /** Writing one slot of the root directory. */
  lemma {:induction false} StoredAfterSlot(g: Geometry, d: seq<Sector>, i: nat, s: Slot)
    requires g.VolumeIn(|d|) && i < 16 * g.RootSectors()
    ensures var lba, prior := g.RootStart() + i / 16, Stored(g, d);
            Stored(g, d[lba := PutSlot(d[lba], i % 16, s)]) == prior.(root := prior.root[i := s])
  {
    var lba := g.RootStart() + i / 16;
    var d' := d[lba := PutSlot(d[lba], i % 16, s)];
    SpanMonotone(1, g.numFats, g.fatSize);
    forall j | 0 <= j < 16 * g.RootSectors()
      ensures SlotAt(g, d', j) == if j == i then s else SlotAt(g, d, j)
    {
      if j / 16 == i / 16 {
        PutThenGetSlot(d[lba], i % 16, s, j % 16);
      }
    }
    forall c | 0 <= c < MAX_CLUSTERS
      ensures ClusterAt(g, d', c) == ClusterAt(g, d, c)
    {
      if c >= 2 {
        ClusterInDisk(g, |d|, c);
      }
    }
  }

  ghost function SetSector(cluster: seq<Sector>, j: nat, x: Sector): seq<Sector>
    requires j < |cluster|
  {
    cluster[j := x]
  }

  /** Writing one sector of a cluster. */
  lemma {:induction false} StoredAfterData(g: Geometry, d: seq<Sector>, c: nat, j: nat, x: Sector)
    requires g.VolumeIn(|d|) && 2 <= c < MAX_CLUSTERS && j < g.spc
    ensures g.ClusterStart(c) + j < |d|
    ensures var prior := Stored(g, d);
            Stored(g, d[g.ClusterStart(c) + j := x])
            == prior.(clusters := prior.clusters[c := SetSector(prior.clusters[c], j, x)])
  {
    hide Table, SlotIn;
    ClusterInDisk(g, |d|, c);
    SpanMonotone(1, g.numFats, g.fatSize);
    var d' := d[g.ClusterStart(c) + j := x];
    forall y | 0 <= y < MAX_CLUSTERS
      ensures ClusterAt(g, d', y) == if y == c then SetSector(ClusterAt(g, d, c), j, x) else ClusterAt(g, d, y)
    {
      if y >= 2 {
        ClusterInDisk(g, |d|, y);
        if y != c {
          SpansApart(y - 2, c - 2, g.spc);
        }
      }
    }
    forall i | 0 <= i < 16 * g.RootSectors()
      ensures SlotAt(g, d', i) == SlotAt(g, d, i)
    {
    }
  }
}
