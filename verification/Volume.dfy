/** The FAT-12 driver of `src/fs.c`: sectors read into a buffer, edited and written back, against
    the volume that the disk stores. */
module Driver {
  import opened Bytes
  import opened FatTable
  import opened FatBytes
  import opened Directory
  import opened Names
  import opened VolumeModel
  import opened VolumeLaws
  import opened FileStore
  import opened VolumeRuns
  import opened ReadBack
  import opened DirectoryListing
  import opened Layout

  /** `fat_get`, on a table of any number of sectors. */
  method FatGet(disk: array<Sector>, info: Geometry, c: nat) returns (value: Entry)
    requires info.TablesIn(disk.Length) && Addressable(info, c)
    ensures value == EntryAt(FatCopy(info, disk[..], 0), c)
  {
    SpanMonotone(1, info.numFats, info.fatSize);
    var byteOffset := c + c / 2;
    var sector := disk[info.reserved + byteOffset / 512];
    var idx := byteOffset % 512;
    var low: int, high: int := sector[idx], sector[idx + 1];
    assert FatCopy(info, disk[..], 0)[byteOffset / 512] == sector;
    if c % 2 == 1 {
      value := low / 16 + high * 16;
    } else {
      value := low + high % 16 * 0x100;
    }
  }

  /** The edit of one loaded sector in `fat_set`. */
  method EditEntry(loaded: Sector, c: nat, v: Entry) returns (sector: Sector)
    requires Fits(c)
    ensures sector == StoreEntry(loaded, c, v)
  {
    sector := loaded;
    var idx := (c + c / 2) % 512;
    if c % 2 == 1 {
      sector := sector[idx := sector[idx] % 16 + v % 16 * 16];
      sector := sector[idx + 1 := v / 16];
    } else {
      sector := sector[idx := v % 0x100];
      sector := sector[idx + 1 := sector[idx + 1] / 16 * 16 + v / 0x100];
    }
  }

  /** `fat_set`, on any number of copies of a table of any number of sectors. */
  method FatSet(disk: array<Sector>, info: Geometry, c: nat, value: nat)
    requires info.TablesIn(disk.Length) && Addressable(info, c)
    modifies disk
    ensures disk[..] == StoreEntries(info, old(disk[..]), c, value % 0x1000, info.numFats)
  {
    hide StoreEntry, StoreEntries, Fits;
    var v := value % 0x1000;
    var byteOffset := c + c / 2;
    ghost var before := disk[..];
    NothingStored(info, before, c, v);
    for fat := 0 to info.numFats
      invariant disk[..] == StoreEntries(info, before, c, v, fat)
    {
      var lba := info.reserved + fat * info.fatSize + byteOffset / 512;
      assert lba == info.FatStart(fat) + ByteOffset(c) / 512 < disk.Length by {
        SpanIsProduct(fat, info.fatSize);
        SpanMonotone(fat + 1, info.numFats, info.fatSize);
      }
      ghost var d := disk[..];
      StoreNextEntry(info, before, c, v, fat);
      var sector := EditEntry(disk[lba], c, v);
      disk[lba] := sector;
      assert disk[..] == d[lba := StoreEntry(d[lba], c, v)];
    }
  }

  lemma {:induction false} NothingStored(g: Geometry, d: seq<Sector>, c: nat, v: Entry)
    requires g.TablesIn(|d|) && Addressable(g, c)
    ensures StoreEntries(g, d, c, v, 0) == d
  {
  }

  lemma {:induction false} StoreNextEntry(g: Geometry, d: seq<Sector>, c: nat, v: Entry, k: nat)
    requires g.TablesIn(|d|) && Addressable(g, c) && k < g.numFats
    ensures g.FatStart(k) + ByteOffset(c) / 512 < |d|
    ensures var r, lba := StoreEntries(g, d, c, v, k), g.FatStart(k) + ByteOffset(c) / 512;
            StoreEntries(g, d, c, v, k + 1) == r[lba := StoreEntry(r[lba], c, v)]
  {
    hide StoreEntry;
    SpanMonotone(k + 1, g.numFats, g.fatSize);
  }

  /** `m` is `v` with its first `k` free clusters taken, linked and filled. */
  ghost predicate Staged(m: Vol, v: Vol, free: seq<int>, data: seq<byte>, k: nat) {
    && v.Shaped() && free == FreeList(v.fat, 2) && FreshChain(v.fat, free) && k <= |free|
    && m == v.(fat := Link(v.fat, free[..k]), clusters := StoreData(v.clusters, v.spc, free, data, k))
  }

  lemma {:induction false} NothingStaged(v: Vol, free: seq<int>, data: seq<byte>)
    requires v.Shaped() && free == FreeList(v.fat, 2) && FreshChain(v.fat, free)
    ensures Staged(v, v, free, data, 0)
  {
    assert free[..0] == [];
  }

  /** The 11-byte buffer that every call fills first. */
  method PackName(filename: CString) returns (name: FatName)
    ensures name == Encode(filename)
  {
    var fatname := new byte[11];
    MakeFatName(filename, fatname);
    name := fatname[..];
  }

  /** The driver's return code. */
  function Status(ok: bool): int {
    if ok then 0 else -1
  }

  class Volume {
    const disk: array<Sector>
    const info: Geometry
    const beyond: Sector  // what a sector past the end of the disk reads as
    ghost const mirrored: bool  // the copies of the table were the same when mounted
    ghost var model: Vol  // the volume on the disk

    ghost predicate Valid()
      reads this, disk
    {
      && info.VolumeIn(disk.Length)
      && model.Shaped() && model.spc == info.spc
      && |model.fat| == MAX_CLUSTERS && |model.root| == 16 * info.RootSectors()
      && model == Stored(info, disk[..])
      && (mirrored ==> Mirrored(info, disk[..]))
    }

    /** `fs_init`: the geometry comes from the boot sector, whatever it says. */
    constructor Mount(disk: array<Sector>, beyond: Sector)
      requires disk.Length > 0
      ensures this.disk == disk && info == ParseBootSector(disk[0])
      ensures info.spc == disk[0][13] && info.numFats == disk[0][16]
      ensures info.reserved == disk[0][14] as int + 0x100 * disk[0][15] as int
      ensures info.rootEntries == disk[0][17] as int + 0x100 * disk[0][18] as int
      ensures info.fatSize == disk[0][22] as int + 0x100 * disk[0][23] as int
      ensures info.VolumeIn(disk.Length) ==>
                Valid() && model == Stored(info, disk[..]) && (mirrored <==> Mirrored(info, disk[..]))
    {
      this.disk := disk;
      this.beyond := beyond;
      var bs := disk[0];
      BootFields(bs);
      info := Geometry(bs[13], LeValue(bs[14..16]), bs[16], LeValue(bs[17..19]), LeValue(bs[22..24]));
      ghost var g := ParseBootSector(bs);
      model := if g.VolumeIn(disk.Length) then Stored(g, disk[..]) else Vol(0, [], [], []);
      mirrored := g.VolumeIn(disk.Length) && Mirrored(g, disk[..]);
    }

    /** Where slot `i` lies. */
    lemma SlotPlace(i: nat)
      requires Valid() && i < |model.root|
      ensures i / 16 < info.RootSectors() && i == 16 * (i / 16) + i % 16
    {
    }

    // -------------------------------------------------------------- access to the disk

    method Get(c: nat) returns (value: Entry)
      requires Valid() && c < MAX_CLUSTERS
      ensures value == model.fat[c]
    {
      OneSectorTable(c);
      value := FatGet(disk, info, c);
      assert FatCopy(info, disk[..], 0)[0] == disk[..][info.reserved];
    }

    method Set(c: nat, value: nat)
      requires Valid() && c < MAX_CLUSTERS
      modifies this`model, disk
      ensures Valid() && model == old(model).(fat := old(model).fat[c := value % 0x1000])
    {
      StoredAfterFatSet(info, disk[..], c, value % 0x1000);
      MirrorsKept(info, disk[..], c, value % 0x1000);
      FatSet(disk, info, c, value);
      model := model.(fat := model.fat[c := value % 0x1000]);
    }

    method ReadRootSector(s: nat) returns (sector: Sector)
      requires Valid() && s < info.RootSectors()
      ensures forall k :: 0 <= k < 16 ==> SlotIn(sector, k) == model.root[16 * s + k]
      ensures sector == RootSector(s)
    {
      RootSectorInDisk(info, disk.Length, s);
      sector := disk[info.RootStart() + s];
      forall k | 0 <= k < 16
        ensures SlotIn(sector, k) == model.root[16 * s + k]
      {
        assert (16 * s + k) / 16 == s && (16 * s + k) % 16 == k;
      }
    }

    ghost function RootSector(s: nat): Sector
      requires Valid() && s < info.RootSectors()
      reads this, disk
    {
      RootSectorInDisk(info, disk.Length, s);
      disk[info.RootStart() + s]
    }

    method WriteRootSector(s: nat, sector: Sector, ghost k: nat, ghost slot: Slot)
      requires Valid() && s < info.RootSectors() && k < 16
      requires sector == PutSlot(RootSector(s), k, slot)
      modifies this`model, disk
      ensures Valid() && model == old(model).(root := old(model).root[16 * s + k := slot])
    {
      hide Stored, Mirrored, PutSlot;
      RootSectorInDisk(info, disk.Length, s);
      ghost var d, prior := disk[..], model;
      var lba := info.RootStart() + s;
      disk[lba] := sector;
      assert disk[..] == d[lba := PutSlot(d[lba], k, slot)];
      RootSlotStored(info, d, prior, s, k, slot);
      MirroredElsewhere(info, d, lba, sector);
      model := model.(root := model.root[16 * s + k := slot]);
    }

    method WriteDataSector(c: nat, j: nat, sector: Sector)
      requires Valid() && 2 <= c < MAX_CLUSTERS && j < info.spc
      modifies this`model, disk
      ensures Valid()
      ensures model == old(model).(clusters := old(model).clusters[c := SetSector(old(model).clusters[c], j, sector)])
    {
      hide Stored, Mirrored, SetSector;
      StoredAfterData(info, disk[..], c, j, sector);
      ghost var d := disk[..];
      SpanIsProduct(c - 2, info.spc);
      var lba := info.DataStart() + (c - 2) * info.spc;
      disk[lba + j] := sector;
      assert disk[..] == d[info.ClusterStart(c) + j := sector];
      MirroredElsewhere(info, d, info.ClusterStart(c) + j, sector);
      model := model.(clusters := model.clusters[c := SetSector(model.clusters[c], j, sector)]);
    }

    // -------------------------------------------------------------- clusters

    /** With more sectors in the table than one, a scan that passes entry 340 reads past its buffer. */
    method AllocCluster() returns (c: nat)
      requires Valid() && (info.fatSize == 1 || FreeList(model.fat, 2) != [])
      modifies this`model, disk
      ensures Valid()
      ensures c == 0 ==> model == old(model) && FreeList(model.fat, 2) == []
      ensures c != 0 ==>
                && 2 <= c < MAX_CLUSTERS && old(model).fat[c] == 0
                && FreeList(old(model).fat, 2) != [] && c == FreeList(old(model).fat, 2)[0]
                && model == old(model).(fat := old(model).fat[c := END_OF_CHAIN])
    {
      hide Stored, Mirrored;
      var max := info.fatSize * 512 * 2 / 3 % 0x1_0000;
      c := 2;
      ScansFirstSector(info.fatSize);
      while c < max
        invariant 2 <= c <= MAX_CLUSTERS <= max && (max == MAX_CLUSTERS <==> info.fatSize == 1)
        invariant Valid() && model == old(model)
        invariant forall x :: 2 <= x < c ==> model.fat[x] != 0
        invariant c == MAX_CLUSTERS ==> FreeList(model.fat, 2) == []
      {
        var entry := Get(c);
        if entry == 0 {
          FreeListHead(model.fat, 2, c, END_OF_CHAIN);
          Set(c, 0xFFF);
          return;
        }
        c := c + 1;
        if c == MAX_CLUSTERS {
          FreeListEmpty(model.fat, 2);
        }
      }
      c := 0;
    }

    method FreeClusterChain(start: nat)
      requires Valid() && LinksInRange(model.fat) && StartInRange(model.fat, start)
      modifies this`model, disk
      ensures Valid() && model == old(model).(fat := FreeChain(old(model).fat, start))
    {
      hide Stored, Mirrored;
      var c := start;
      while c >= 2 && c < 0xFF8
        invariant Valid() && LinksInRange(model.fat) && StartInRange(model.fat, c)
        invariant model == old(model).(fat := model.fat)
        invariant FreeChain(model.fat, c) == FreeChain(old(model).fat, start)
        decreases InUse(model.fat), IsLink(c)
      {
        ghost var f := model.fat;
        var next := Get(c);
        Set(c, 0);
        if f[c] == 0 {
          assert f[c := 0] == f;
        } else {
          assert c in InUse(f) && c !in InUse(f[c := 0]);
        }
        c := next;
      }
    }

    /** `fs_free_space`. */
    method FreeSpaceBytes() returns (bytes: nat)
      requires Valid() && info.fatSize == 1
      ensures bytes == FreeSpace(model)
    {
      hide Stored, Mirrored;
      var max := info.fatSize * 512 * 2 / 3 % 0x1_0000;
      var freeClusters := 0;
      var c := 2;
      while c < max
        invariant 2 <= c <= MAX_CLUSTERS && max == MAX_CLUSTERS
        invariant freeClusters + |FreeList(model.fat, c)| == |FreeList(model.fat, 2)|
      {
        var entry := Get(c);
        if entry == 0 {
          freeClusters := freeClusters + 1;
        }
        c := c + 1;
      }
      bytes := freeClusters * info.spc * 512;
      assert bytes == freeClusters * (info.spc * 512) by { RegroupProduct(freeClusters, info.spc); }
    }

    // -------------------------------------------------------------- root directory

    method FindDirEntry(name: FatName) returns (found: bool, lba: nat, off: nat)
      requires Valid()
      ensures found <==> Find(model.root, name, 0).Some?
      ensures found ==> var i := Find(model.root, name, 0).value;
                        lba == info.RootStart() + i / 16 && off == 32 * (i % 16)
    {
      hide Stored, Mirrored;
      var rootSectors := (info.rootEntries * 32 + 511) / 512;
      var s := 0;
      while s < rootSectors
        invariant s <= rootSectors
        invariant Find(model.root, name, 16 * s) == Find(model.root, name, 0)
      {
        lba := info.RootStart() + s;
        var sector := ReadRootSector(s);
        off := 0;
        ghost var k := 0;
        while off < 512
          invariant k <= 16 && off == 32 * k
          invariant Find(model.root, name, 16 * s + k) == Find(model.root, name, 0)
        {
          SlotBytes(sector, k);
          var first := sector[off];
          if first == 0x00 {
            return false, 0, 0;
          }
          if first != 0xE5 && sector[off..off + 11] == name {
            assert (16 * s + k) / 16 == s && (16 * s + k) % 16 == k;
            return true, lba, off;
          }
          off := off + 32;
          k := k + 1;
        }
        s := s + 1;
      }
      return false, 0, 0;
    }

    /** The slot loop of `create_dir_entry` over one sector; `off` is 512 when no slot is vacant. */
    method VacantIn(sector: Sector, ghost s: nat) returns (off: nat)
      requires Valid() && s < info.RootSectors()
      requires forall k :: 0 <= k < 16 ==> SlotIn(sector, k) == model.root[16 * s + k]
      ensures off <= 512 && off % 32 == 0
      ensures FindVacant(model.root, 16 * s)
              == if off < 512 then Some(16 * s + off / 32) else FindVacant(model.root, 16 * s + 16)
    {
      hide Stored, Mirrored, SlotIn;
      off := 0;
      ghost var k := 0;
      while off < 512
        invariant k <= 16 && off == 32 * k
        invariant FindVacant(model.root, 16 * s + k) == FindVacant(model.root, 16 * s)
      {
        SlotBytes(sector, k);
        var first := sector[off];
        if first == 0x00 || first == 0xE5 {
          return;
        }
        off := off + 32;
        k := k + 1;
      }
    }

    method CreateDirEntry(name: FatName, firstCluster: nat, size: nat) returns (r: int)
      requires Valid() && firstCluster < 0x1_0000 && size < 0x1_0000_0000
      modifies this`model, disk
      ensures Valid()
      ensures var slot := FindVacant(old(model).root, 0);
              && r == Status(slot.Some?)
              && model == if slot.None? then old(model)
                          else old(model).(root := old(model).root[slot.value := NewSlot(name, firstCluster, size)])
    {
      hide Stored, Mirrored, NewSlot, PutSlot, SlotIn, FindVacant;
      var rootSectors := (info.rootEntries * 32 + 511) / 512;
      var s := 0;
      while s < rootSectors
        invariant s <= rootSectors && Valid() && model == old(model)
        invariant FindVacant(model.root, 16 * s) == FindVacant(model.root, 0)
      {
        var sector := ReadRootSector(s);
        var off := VacantIn(sector, s);
        if off < 512 {
          ghost var k := off / 32;
          var filled := FillSlot(sector, off, k, name, firstCluster, size);
          WriteRootSector(s, filled, k, NewSlot(name, firstCluster, size));
          return 0;
        }
        s := s + 1;
      }
      NoneVacant(model.root, 16 * rootSectors);
      return -1;
    }

    method DeleteEntryAt(lba: nat, off: nat, ghost i: nat)
      requires Valid() && i < |model.root| && lba == info.RootStart() + i / 16 && off == 32 * (i % 16)
      modifies this`model, disk
      ensures Valid() && model == old(model).(root := old(model).root[i := old(model).root[i][0 := DELETED]])
    {
      hide Stored, Mirrored;
      var sector := ReadRootSector(lba - info.RootStart());
      ghost var k := i % 16;
      SlotBytes(sector, k);
      ghost var slot := SlotIn(sector, k)[0 := DELETED];
      assert sector[off := 0xE5] == PutSlot(sector, k, slot);
      sector := sector[off := 0xE5];
      WriteRootSector(lba - info.RootStart(), sector, k, slot);
    }

    // -------------------------------------------------------------- files

    /** `fs_delete`. */
    method DeleteFile(filename: CString) returns (r: int)
      requires Valid() && Sound(model)
      modifies this`model, disk
      ensures Valid()
      ensures var o := Delete(old(model), Encode(filename));
              r == Status(o.ok) && model == o.vol
    {
      hide Stored, Mirrored, Encode, FreeChain;
      var fatname := PackName(filename);
      var found, lba, off := FindDirEntry(fatname);
      if !found {
        return -1;
      }
      ghost var i := Find(model.root, Encode(filename), 0).value;
      SlotPlace(i);
      var sector := ReadRootSector(lba - info.RootStart());
      EntryFields(sector, i % 16);
      var firstCluster: nat := sector[off + 26] as int + sector[off + 27] as int * 0x100;
      if firstCluster >= 2 {
        FreeClusterChain(firstCluster);
      }
      DeleteEntryAt(lba, off, i);
      return 0;
    }

    /** The sector loop of `fs_write` for one cluster, from byte `p` of the data on. */
    method WriteCluster(c: nat, data: seq<byte>, p: nat, ghost first: nat) returns (p': nat)
      requires Valid() && 2 <= c < MAX_CLUSTERS && p == 512 * first < |data|
      modifies this`model, disk
      ensures Valid() && p' == Min(512 * (first + info.spc), |data|)
      ensures model == old(model).(clusters :=
                         old(model).clusters[c := PutSectors(old(model).clusters[c], data, first)])
    {
      hide Stored, Mirrored, PutSectors;
      var remaining := |data| - p;
      p' := p;
      var s := 0;
      ghost var prior := model.clusters[c];
      assert PutSome(prior, data, first, 0) == prior;
      while s < info.spc && remaining > 0
        invariant s <= info.spc && Valid() && remaining == |data| - p'
        invariant p' == Min(512 * (first + s), |data|)
        invariant model == old(model).(clusters := old(model).clusters[c := PutSome(prior, data, first, s)])
      {
        var tocopy := if remaining < 512 then remaining else 512;
        var sector := data[p'..p' + tocopy] + Zeros(512 - tocopy);
        assert sector == DataSector(data, first + s);
        WriteDataSector(c, s, sector);
        PutSomeStep(prior, data, first, s);
        if remaining > 512 {
          remaining := remaining - 512;
          p' := p' + 512;
        } else {
          p' := p' + remaining;
          remaining := 0;
        }
        s := s + 1;
      }
      PutSomeAll(prior, data, first, s);
    }

    /** Take the next free cluster and link it from the one before, if any. */
    method TakeCluster(prev: nat, ghost fat: Fat, ghost free: seq<int>, ghost k: nat) returns (c: nat)
      requires Valid() && |fat| == MAX_CLUSTERS && free == FreeList(fat, 2) && FreshChain(fat, free) && k <= |free|
      requires model.fat == Link(fat, free[..k])
      requires prev == if k == 0 then 0 else free[k - 1]
      requires info.fatSize == 1 || k < |free|
      modifies this`model, disk
      ensures Valid()
      ensures c == 0 ==> k == |free| && model == old(model)
      ensures c != 0 ==> && k < |free| && 2 <= c == free[k]
                         && model == old(model).(fat := Link(fat, free[..k + 1]))
    {
      hide Stored, Mirrored, FreeList, Link;
      assert FreeList(model.fat, 2) == free[k..] by {
        FreeAfterLink(fat, free, k);
      }
      c := AllocCluster();
      if c != 0 {
        LinkNext(fat, free, k);
        if prev != 0 {
          Set(prev, c);
        }
      }
    }

    /** One round of the cluster loop of `fs_write`. */
    method StoreNext(prev: nat, data: seq<byte>, p: nat, ghost v: Vol, ghost free: seq<int>, ghost k: nat)
      returns (c: nat, p': nat)
      requires Valid() && Staged(model, v, free, data, k) && p == 512 * Span(k, info.spc) < |data|
      requires prev == if k == 0 then 0 else free[k - 1]
      requires info.fatSize == 1 || k < |free|
      modifies this`model, disk
      ensures Valid()
      ensures c == 0 ==> k == |free| && model == old(model) && p' == p
      ensures c != 0 ==> && Staged(model, v, free, data, k + 1) && k < |free| && 2 <= c == free[k]
                         && p' == Min(512 * Span(k + 1, info.spc), |data|)
    {
      hide Stored, Mirrored, FreeList, Link;
      p' := p;
      c := TakeCluster(prev, v.fat, free, k);
      if c != 0 {
        p' := WriteCluster(c, data, p, Span(k, info.spc));
      }
    }

    /** The cluster loop of `fs_write`. `k` counts the clusters taken; without success they are all. */
    method StoreClusters(data: seq<byte>, ghost free: seq<int>)
      returns (ok: bool, firstCluster: nat, lastCluster: nat, ghost k: nat)
      requires Valid() && data != [] && Staged(model, model, free, data, 0)
      requires info.fatSize == 1 || |data| <= 512 * Span(|free|, info.spc)
      modifies this`model, disk
      ensures Valid() && Staged(model, old(model), free, data, k)
      ensures ok ==> 0 < k && 512 * Span(k - 1, info.spc) < |data|
      ensures ok <==> |data| <= 512 * Span(k, info.spc)
      ensures !ok ==> k == |free|
      ensures firstCluster == if k == 0 then 0 else free[0]
      ensures lastCluster == if k == 0 then 0 else free[k - 1]
    {
      hide Stored, Mirrored, Staged;
      ghost var v := model;
      var remaining, p := |data|, 0;
      firstCluster, lastCluster, k := 0, 0, 0;
      while remaining > 0
        invariant k <= |free| && Valid() && Staged(model, v, free, data, k)
        invariant p == Min(512 * Span(k, info.spc), |data|) && remaining == |data| - p
        invariant k > 0 ==> 512 * Span(k - 1, info.spc) < |data|
        invariant firstCluster == if k == 0 then 0 else free[0]
        invariant k > 0 ==> firstCluster != 0
        invariant lastCluster == if k == 0 then 0 else free[k - 1]
        decreases remaining
      {
        var c;
        c, p := StoreNext(lastCluster, data, p, v, free, k);
        if c == 0 {
          return false, firstCluster, lastCluster, k;
        }
        if firstCluster == 0 {
          firstCluster := c;
        }
        lastCluster := c;
        remaining := |data| - p;
        k := k + 1;
      }
      ok := true;
    }

    /** `fs_write`; in a table of more than one sector the data has to fit in the free clusters below 341. */
    method WriteFile(filename: CString, data: seq<byte>) returns (r: int)
      requires Valid() && Sound(model) && |data| < 0x1_0000_0000
      requires info.fatSize == 1 || |data| <= FreeSpace(Delete(model, Encode(filename)).vol)
      modifies this`model, disk
      ensures Valid()
      ensures var o := Write(old(model), Encode(filename), data);
              r == Status(o.ok) && model == o.vol
    {
      hide Stored, Mirrored;
      var fatname := PackName(filename);
      var deleted := DeleteFile(filename);
      DeleteKeepsRange(old(model), Encode(filename));
      if |data| == 0 {
        r := CreateDirEntry(fatname, 0, 0);
      } else {
        r := WriteNonEmpty(fatname, data);
      }
    }

    /** The rest of `fs_write` once the old file is gone and there is something to store. */
    method WriteNonEmpty(name: FatName, data: seq<byte>) returns (r: int)
      requires Valid() && LinksInRange(model.fat) && 0 < |data| < 0x1_0000_0000
      requires info.fatSize == 1 || |data| <= FreeSpace(model)
      modifies this`model, disk
      ensures Valid()
      ensures var o := WriteAfterDelete(old(model), name, data);
              r == Status(o.ok) && model == o.vol
    {
      hide Stored, Mirrored, FreeList, WriteAfterDelete, Link;
      ghost var v, free := model, FreeList(model.fat, 2);
      FreshFreeList(v.fat);
      NothingStaged(v, free, data);
      SpanInBytes(|free|, info.spc);
      var ok, firstCluster, lastCluster, k := StoreClusters(data, free);
      assert model == v.(fat := Link(v.fat, free[..k]),
                         clusters := StoreData(v.clusters, v.spc, free, data, k));
      DistinctPrefix(free, k);
      if !ok {
        WriteTooBig(v, name, data);
        GiveBack(firstCluster, v.fat, free[..k]);
        return -1;
      }
      WriteFits(v, name, data, k);
      r := EnterFile(name, firstCluster, lastCluster, |data|, v.fat, free[..k]);
    }

    /** The last steps of `fs_write`: end mark and directory entry, or clean-up. */
    method EnterFile(name: FatName, firstCluster: nat, lastCluster: nat, size: nat, ghost fat: Fat, ghost ch: seq<int>)
      returns (r: int)
      requires Valid() && LinksInRange(fat) && FreshChain(fat, ch) && ch != [] && model.fat == Link(fat, ch)
      requires firstCluster == ch[0] && lastCluster == ch[|ch| - 1] && size < 0x1_0000_0000
      modifies this`model, disk
      ensures Valid()
      ensures var slot := FindVacant(old(model).root, 0);
              && r == Status(slot.Some?)
              && model == if slot.None? then old(model).(fat := fat)
                          else old(model).(root := old(model).root[slot.value := NewSlot(name, ch[0], size)])
    {
      hide Stored, Mirrored;
      LinkEndMarked(fat, ch, lastCluster);
      Set(lastCluster, 0xFFF);
      r := CreateDirEntry(name, firstCluster, size);
      if r < 0 {
        GiveBack(firstCluster, fat, ch);
        return -1;
      }
      return 0;
    }

    /** The clean-up of a failing `fs_write`: the table is as it was before the clusters were taken. */
    method GiveBack(firstCluster: nat, ghost fat: Fat, ghost ch: seq<int>)
      requires Valid() && LinksInRange(fat) && FreshChain(fat, ch) && model.fat == Link(fat, ch)
      requires firstCluster == if ch == [] then 0 else ch[0]
      modifies this`model, disk
      ensures Valid() && model == old(model).(fat := fat)
    {
      hide Stored, Mirrored;
      if firstCluster != 0 {
        FreeUndoesLink(fat, ch);
        FreeClusterChain(firstCluster);
      }
    }

    /** `fs_rename`. */
    method RenameFile(oldname: CString, newname: CString) returns (r: int)
      requires Valid()
      modifies this`model, disk
      ensures Valid()
      ensures var o := Rename(old(model), Encode(oldname), Encode(newname));
              r == Status(o.ok) && model == o.vol
    {
      hide Stored, Mirrored;
      var fatOld := PackName(oldname);
      var fatNew := PackName(newname);
      var exists_, _, _ := FindDirEntry(fatNew);
      if exists_ {
        return -1;
      }
      var found, lba, off := FindDirEntry(fatOld);
      if !found {
        return -1;
      }
      ghost var i := Find(model.root, Encode(oldname), 0).value;
      SlotPlace(i);
      OverwriteName(lba - info.RootStart(), off, i, fatNew);
      return 0;
    }

    /** The last lines of `fs_rename`. */
    method OverwriteName(s: nat, off: nat, ghost i: nat, name: FatName)
      requires Valid() && i < |model.root| && s == i / 16 < info.RootSectors() && off == 32 * (i % 16)
      modifies this`model, disk
      ensures Valid() && model == old(model).(root := old(model).root[i := name + old(model).root[i][11..]])
    {
      hide Stored, Mirrored;
      var sector := ReadRootSector(s);
      RenamedSector(sector, i % 16, name);
      sector := sector[..off] + name + sector[off + 11..];
      WriteRootSector(s, sector, i % 16, name + model.root[i][11..]);
    }

    /** `fs_read`: the bytes stored into the caller's buffer, or -1. */
    method ReadFile(filename: CString, maxlen: nat) returns (r: int, buffer: seq<byte>)
      requires Valid()
      ensures match Read(info, disk[..], beyond, Encode(filename), maxlen)
              case None => r == -1 && buffer == []
              case Some(got) => r == |got| && buffer == got
    {
      var fatname := PackName(filename);
      var found, cluster, size := FindForReading(fatname);
      if !found {
        return -1, [];
      }
      buffer := ReadChain(cluster, size, maxlen);
      r := |buffer|;
    }

    /** The slot loop of `fs_read` over one sector, with its own test for deleted entries. It ends at the
        entry, at the end of the directory or, with `off` 512, at the end of the sector. */
    method NamedIn(sector: Sector, name: FatName, ghost s: nat) returns (off: nat, end: bool)
      requires Valid() && s < info.RootSectors()
      requires forall k :: 0 <= k < 16 ==> SlotIn(sector, k) == model.root[16 * s + k]
      ensures off <= 512 && off % 32 == 0
      ensures FindForRead(model.root, name, 16 * s)
              == if end then None
                 else if off < 512 then Some(16 * s + off / 32)
                 else FindForRead(model.root, name, 16 * s + 16)
    {
      hide Stored, Mirrored, SlotIn, SkippedByRead;
      off, end := 0, false;
      ghost var k := 0;
      while off < 512
        invariant k <= 16 && off == 32 * k && !end
        invariant FindForRead(model.root, name, 16 * s + k) == FindForRead(model.root, name, 16 * s)
      {
        SlotBytes(sector, k);
        var first := sector[off];
        if first == 0x00 {
          end := true;
          return;
        }
        if !SkippedByRead(first) && sector[off..off + 11] == name {
          return;
        }
        off := off + 32;
        k := k + 1;
      }
    }

    /** The directory scan of `fs_read`. */
    method FindForReading(name: FatName) returns (found: bool, cluster: nat, size: nat)
      requires Valid()
      ensures found <==> FindForRead(model.root, name, 0).Some?
      ensures found ==> var s := model.root[FindForRead(model.root, name, 0).value];
                        cluster == ClusterOf(s) && size == SizeOf(s)
    {
      hide Stored, Mirrored, SlotIn, FindForRead, ClusterOf, SizeOf;
      var rootSectors := (info.rootEntries * 32 + 511) / 512;
      var s := 0;
      while s < rootSectors
        invariant s <= rootSectors
        invariant FindForRead(model.root, name, 16 * s) == FindForRead(model.root, name, 0)
      {
        var sector := ReadRootSector(s);
        var off, end := NamedIn(sector, name, s);
        if end {
          return false, 0, 0;
        }
        if off < 512 {
          EntryFields(sector, off / 32);
          cluster := sector[off + 26] as int + sector[off + 27] as int * 0x100;
          size := sector[off + 28] as int + sector[off + 29] as int * 0x100
                  + sector[off + 30] as int * 0x1_0000 + sector[off + 31] as int * 0x100_0000;
          return true, cluster, size;
        }
        s := s + 1;
      }
      NoneForRead(model.root, name, 16 * rootSectors);
      return false, 0, 0;
    }

    /** The loop over clusters of `fs_read`. */
    method ReadChain(start: nat, size: nat, maxlen: nat) returns (got: seq<byte>)
      requires Valid()
      ensures got == ReadClusters(info, disk[..], beyond, start, size, maxlen, [])
    {
      hide Stored, Mirrored;
      got := [];
      var cluster: nat := start;
      while cluster < 0xFF8 && |got| < size && |got| < maxlen
        invariant |got| <= size
        invariant ReadClusters(info, disk[..], beyond, cluster, size, maxlen, got)
                  == ReadClusters(info, disk[..], beyond, start, size, maxlen, [])
        decreases size - |got|
      {
        got := ReadOne(cluster, size, maxlen, got);
        cluster := NextCluster(cluster);
      }
    }

    /** The loop over the sectors of one cluster of `fs_read`. */
    method ReadOne(cluster: nat, size: nat, maxlen: nat, before: seq<byte>) returns (got: seq<byte>)
      requires Valid() && |before| < size
      ensures got == ReadSectors(info, disk[..], beyond, ReadStart(info, cluster), 0, size, maxlen, before)
    {
      hide Stored, Mirrored, SectorAt;
      var lba := (info.DataStart() + (cluster - 2) * info.spc) % 0x1_0000_0000;
      got := before;
      var i := 0;
      while i < info.spc
        invariant i <= info.spc && |got| < size
        invariant ReadSectors(info, disk[..], beyond, lba, i, size, maxlen, got)
                  == ReadSectors(info, disk[..], beyond, lba, 0, size, maxlen, before)
      {
        var sector := ReadSector((lba + i) % 0x1_0000_0000);
        var tocopy := if size - |got| < 512 then size - |got| else 512;
        got := got + sector[..tocopy];
        if |got| >= size || |got| >= maxlen {
          return;
        }
        i := i + 1;
      }
    }

    /** How `fs_read` fetches the next cluster. */
    method NextCluster(cluster: nat) returns (next: nat)
      ensures next == NextForRead(info, disk[..], beyond, cluster)
    {
      var offset := info.reserved * 512 + cluster * 2;
      var sector := ReadSector(info.reserved + offset / 512);
      var low: int, high: int := sector[offset % 512], sector[offset % 512 + 1];
      next := low + high * 0x100;
    }

    /** A sector, on the disk or past its end. */
    method ReadSector(lba: nat) returns (sector: Sector)
      ensures sector == SectorAt(disk[..], beyond, lba)
    {
      if lba < disk.Length {
        sector := disk[lba];
      } else {
        sector := beyond;
      }
    }

    /** `fs_ls`: the calls to the callback, in order. */
    method ListFiles() returns (shown: seq<(seq<byte>, nat)>)
      requires Valid()
      ensures shown == Shown(Listing(model.root, 0))
    {
      hide Stored, Mirrored, Decode, Listing, Shown, SlotIn;
      shown := [];
      NothingListed(model.root, |model.root|);
      var rootSectors := (info.rootEntries * 32 + 511) / 512;
      var s := 0;
      while s < rootSectors
        invariant s <= rootSectors
        invariant shown + Shown(Listing(model.root, 16 * s)) == Shown(Listing(model.root, 0))
      {
        var sector := ReadRootSector(s);
        var off := 0;
        ghost var k := 0;
        while off < 512
          invariant k <= 16 && off == 32 * k
          invariant shown + Shown(Listing(model.root, 16 * s + k)) == Shown(Listing(model.root, 0))
        {
          SlotBytes(sector, k);
          ListingStep(shown, model.root, 16 * s + k);
          var first := sector[off];
          if first == 0x00 {
            assert shown + [] == shown;
            return;
          }
          if !(first == 0xE5 || sector[off + 11] / 8 % 2 == 1) {
            var item := ShowEntry(sector, off, k);
            shown := shown + [item];
          }
          off := off + 32;
          k := k + 1;
        }
        s := s + 1;
      }
    }

    /** The part of `fs_ls` that puts together one call. */
    method ShowEntry(sector: Sector, off: nat, ghost k: nat) returns (item: (seq<byte>, nat))
      requires k < 16 && off == 32 * k
      ensures item == (Decode(NameOf(SlotIn(sector, k))), SizeOf(SlotIn(sector, k)))
    {
      SlotBytes(sector, k);
      EntryFields(sector, k);
      var name := new byte[13];
      var n := PrintName(sector[off..off + 11], name);
      var size: nat := sector[off + 28] as int + sector[off + 29] as int * 0x100
                       + sector[off + 30] as int * 0x1_0000 + sector[off + 31] as int * 0x100_0000;
      item := (name[..n], size);
    }

    /** The size that `fs_append` finds recorded for a name. */
    method RecordedSize(name: FatName) returns (size: nat)
      requires Valid()
      ensures size == OldSize(model, name)
    {
      hide Stored, Mirrored;
      size := 0;
      var found, lba, off := FindDirEntry(name);
      if found {
        ghost var i := Find(model.root, name, 0).value;
        SlotPlace(i);
        var sector := ReadRootSector(lba - info.RootStart());
        EntryFields(sector, i % 16);
        size := sector[off + 28] as int + sector[off + 29] as int * 0x100
                + sector[off + 30] as int * 0x1_0000 + sector[off + 31] as int * 0x100_0000;
      }
    }

    /** `fs_append`; what has to fit is what `fs_write` is called for. */
    method AppendFile(filename: CString, data: seq<byte>) returns (r: int)
      requires Valid() && Sound(model) && OldSize(model, Encode(filename)) + |data| < 0x1_0000_0000
      requires
        || info.fatSize == 1
        || 0 < OldSize(model, Encode(filename))
           != |Got(Read(info, disk[..], beyond, Encode(filename), OldSize(model, Encode(filename))))|
        || OldSize(model, Encode(filename)) + |data| <= FreeSpace(Delete(model, Encode(filename)).vol)
      modifies this`model, disk
      ensures Valid()
      ensures var name := Encode(filename);
              var got := Got(Read(info, old(disk[..]), beyond, name, OldSize(old(model), name)));
              var o := Append(old(model), name, data, got);
              r == Status(o.ok) && model == o.vol
    {
      hide Stored, Mirrored, ReadBack.Read, Write;
      var fatname := PackName(filename);
      var oldSize := RecordedSize(fatname);
      var buf := [];
      if oldSize != 0 {
        var n, got := ReadFile(filename, oldSize);
        if n != oldSize {
          return -1;
        }
        buf := got;
      }
      assert buf == [] ==> buf + data == data;
      r := WriteFile(filename, buf + data);
    }
  }

  /** How the listing from slot `i` on starts. */
  lemma {:induction false} ListingStep(before: seq<(seq<byte>, nat)>, root: Root, i: nat)
    requires i < |root|
    ensures root[i][0] == UNUSED ==> Shown(Listing(root, i)) == []
    ensures root[i][0] != UNUSED && (root[i][0] == DELETED || Labelled(root[i])) ==>
              Listing(root, i) == Listing(root, i + 1)
    ensures root[i][0] != UNUSED && root[i][0] != DELETED && !Labelled(root[i]) ==>
              before + Shown(Listing(root, i))
              == before + [(Decode(NameOf(root[i])), SizeOf(root[i]))] + Shown(Listing(root, i + 1))
  {
    hide Decode, SizeOf;
    if Live(root[i]) && !Labelled(root[i]) {
      var here := Listing(root, i);
      assert here[1..] == Listing(root, i + 1);
    }
  }

  lemma {:induction false} NothingListed(root: Root, i: nat)
    requires i == |root|
    ensures Shown(Listing(root, i)) == []
  {
  }

  /** The bytes a read delivered. */
  ghost function Got(result: Option<seq<byte>>): seq<byte> {
    match result
    case None => []
    case Some(bytes) => bytes
  }

  lemma {:induction false} NoneForRead(root: Root, name: FatName, i: nat)
    requires i == |root|
    ensures FindForRead(root, name, i).None?
  {
  }

  lemma {:induction false} NoneVacant(root: Root, i: nat)
    requires i == |root|
    ensures FindVacant(root, i).None?
  {
  }

  /** Overwriting the name bytes of a slot. */
  lemma {:induction false} RenamedSector(sector: Sector, k: nat, name: FatName)
    requires k < 16
    ensures sector[..32 * k] + name + sector[32 * k + 11..]
            == PutSlot(sector, k, name + SlotIn(sector, k)[11..])
  {
  }

  lemma {:induction false} DeleteKeepsRange(v: Vol, name: FatName)
    requires Sound(v)
    ensures LinksInRange(Delete(v, name).vol.fat)
  {
    if Find(v.root, name, 0).Some? {
      var c := ClusterOf(v.root[Find(v.root, name, 0).value]);
      if c >= 2 {
        FreeChainKeepsRange(v.fat, c);
      }
    }
  }

  /** All free clusters together do not hold the data. */
  lemma {:induction false} WriteTooBig(v: Vol, name: FatName, data: seq<byte>)
    requires v.Shaped() && 0 < |data| < 0x1_0000_0000
    requires 512 * Span(|FreeList(v.fat, 2)|, v.spc) < |data|
    ensures FreshChain(v.fat, FreeList(v.fat, 2))
    ensures var free := FreeList(v.fat, 2);
            WriteAfterDelete(v, name, data)
            == Outcome(false, v.(clusters := StoreData(v.clusters, v.spc, free, data, |free|)))
  {
    var n := |FreeList(v.fat, 2)|;
    FreshFreeList(v.fat);
    CeilDivIsLeast(|data|, v.ClusterBytes(), n);
    SpanInBytes(n, v.spc);
  }

  /** The first `k` free clusters are just enough for the data. */
  lemma {:induction false} WriteFits(v: Vol, name: FatName, data: seq<byte>, k: nat)
    requires v.Shaped() && 0 < |data| < 0x1_0000_0000 && 0 < k <= |FreeList(v.fat, 2)|
    requires 512 * Span(k - 1, v.spc) < |data| <= 512 * Span(k, v.spc)
    ensures FreshChain(v.fat, FreeList(v.fat, 2))
    ensures var free, slot := FreeList(v.fat, 2), FindVacant(v.root, 0);
            var stored := v.(clusters := StoreData(v.clusters, v.spc, free, data, k));
            WriteAfterDelete(v, name, data)
            == if slot.None? then Outcome(false, stored)
               else Outcome(true, stored.(fat := Link(v.fat, free[..k]),
                                          root := v.root[slot.value := NewSlot(name, free[0], |data|)]))
  {
    FreshFreeList(v.fat);
    CeilDivIsLeast(|data|, v.ClusterBytes(), k);
    CeilDivIsLeast(|data|, v.ClusterBytes(), k - 1);
    SpanInBytes(k, v.spc);
    SpanInBytes(k - 1, v.spc);
    StoreDataPrefix(v.clusters, v.spc, FreeList(v.fat, 2), k, data, k);
  }

  lemma {:induction false} FreshFreeList(fat: Fat)
    ensures FreshChain(fat, FreeList(fat, 2))
  {
    FreeListMembers(fat, 2);
  }

  /** The first `m` sectors of a cluster replaced by data. */
  ghost function PutSome(prior: seq<Sector>, data: seq<byte>, first: nat, m: nat): (r: seq<Sector>)
    requires m <= |prior|
    ensures |r| == |prior|
  {
    PutSectors(prior, data, first)[..m] + prior[m..]
  }

  lemma {:induction false} PutSomeStep(prior: seq<Sector>, data: seq<byte>, first: nat, m: nat)
    requires m < |prior| && 512 * (first + m) < |data|
    ensures PutSome(prior, data, first, m + 1)
            == SetSector(PutSome(prior, data, first, m), m, DataSector(data, first + m))
  {
  }

  lemma {:induction false} PutSomeAll(prior: seq<Sector>, data: seq<byte>, first: nat, m: nat)
    requires m <= |prior| && (m == |prior| || |data| <= 512 * (first + m))
    ensures PutSome(prior, data, first, m) == PutSectors(prior, data, first)
  {
  }

  lemma {:induction false} RootSlotStored(info: Geometry, d: seq<Sector>, v: Vol, s: nat, k: nat, slot: Slot)
    requires info.VolumeIn(|d|) && v == Stored(info, d) && s < info.RootSectors() && k < 16
    requires |v.root| == 16 * info.RootSectors()
    ensures info.RootStart() + s < |d|
    ensures var lba := info.RootStart() + s;
            Stored(info, d[lba := PutSlot(d[lba], k, slot)]) == v.(root := v.root[16 * s + k := slot])
  {
    RootSectorInDisk(info, |d|, s);
    assert (16 * s + k) / 16 == s && (16 * s + k) % 16 == k;
    StoredAfterSlot(info, d, 16 * s + k, slot);
  }

  lemma {:induction false} RegroupProduct(n: nat, spc: nat)
    ensures n * spc * 512 == n * (spc * 512)
  {
  }

  lemma {:induction false} RootSectorInDisk(info: Geometry, n: nat, s: nat)
    requires info.VolumeIn(n) && s < info.RootSectors()
    ensures info.RootStart() + s < n
  {
    SpanMonotone(0, MAX_CLUSTERS - 2, info.spc);
  }

  /** The bytes of slot `k` within its sector. */
  lemma {:induction false} SlotBytes(sector: Sector, k: nat)
    requires k < 16
    ensures SlotIn(sector, k)[0] == sector[32 * k]
    ensures NameOf(SlotIn(sector, k)) == sector[32 * k..32 * k + 11]
    ensures SlotIn(sector, k)[11] == sector[32 * k + 11]
  {
  }

  lemma {:induction false} SlotFieldBytes(sector: Sector, k: nat)
    requires k < 16
    ensures SlotIn(sector, k)[26..28] == [sector[32 * k + 26], sector[32 * k + 27]]
    ensures SlotIn(sector, k)[28..32]
            == [sector[32 * k + 28], sector[32 * k + 29], sector[32 * k + 30], sector[32 * k + 31]]
  {
    var slot := SlotIn(sector, k);
    assert forall j :: 0 <= j < 32 ==> slot[j] == sector[32 * k + j];
  }

  /** The cluster and size fields of an entry, as the driver assembles them from bytes. */
  lemma {:induction false} EntryFields(sector: Sector, k: nat)
    requires k < 16
    ensures var s, off := SlotIn(sector, k), 32 * k;
            && ClusterOf(s) == sector[off + 26] as int + sector[off + 27] as int * 0x100
            && SizeOf(s) == sector[off + 28] as int + sector[off + 29] as int * 0x100
                            + sector[off + 30] as int * 0x1_0000 + sector[off + 31] as int * 0x100_0000
  {
    SlotFieldBytes(sector, k);
    LeValue2(sector[32 * k + 26], sector[32 * k + 27]);
    LeValue4(sector[32 * k + 28], sector[32 * k + 29], sector[32 * k + 30], sector[32 * k + 31]);
  }

  /** The field stores of `create_dir_entry` in the loaded sector. */
  method FillSlot(loaded: Sector, off: nat, ghost k: nat, name: FatName, firstCluster: nat, size: nat)
    returns (sector: Sector)
    requires k < 16 && off == 32 * k && firstCluster < 0x1_0000 && size < 0x1_0000_0000
    ensures sector == PutSlot(loaded, k, NewSlot(name, firstCluster, size))
  {
    sector := loaded[..off] + name + loaded[off + 11..];
    sector := sector[off + 11 := 0x20];
    sector := sector[..off + 12] + Zeros(20) + sector[off + 32..];
    sector := sector[off + 26 := firstCluster % 0x100][off + 27 := firstCluster / 0x100];
    sector := sector[off + 28 := size % 0x100][off + 29 := size / 0x100 % 0x100];
    sector := sector[off + 30 := size / 0x1_0000 % 0x100][off + 31 := size / 0x100_0000 % 0x100];
    FilledSlot(loaded, sector, k, name, firstCluster, size);
  }

  /** Filling in the fields of a slot one by one gives the sector with the new entry in it. */
  lemma {:induction false} FilledSlot(loaded: Sector, sector: Sector, k: nat, name: FatName, cluster: nat, size: nat)
    requires k < 16 && cluster < 0x1_0000 && size < 0x1_0000_0000
    requires sector[..32 * k] == loaded[..32 * k] && sector[32 * k + 32..] == loaded[32 * k + 32..]
    requires sector[32 * k..32 * k + 11] == name && sector[32 * k + 11] == 0x20
    requires forall j :: 32 * k + 12 <= j < 32 * k + 26 ==> sector[j] == 0
    requires sector[32 * k + 26] == cluster % 0x100 && sector[32 * k + 27] == cluster / 0x100
    requires sector[32 * k + 28] == size % 0x100 && sector[32 * k + 29] == size / 0x100 % 0x100
    requires sector[32 * k + 30] == size / 0x1_0000 % 0x100 && sector[32 * k + 31] == size / 0x100_0000 % 0x100
    ensures sector == PutSlot(loaded, k, NewSlot(name, cluster, size))
  {
    Le2(cluster);
    Le4(size);
    var s := sector[32 * k..32 * k + 32];
    assert s == NewSlot(name, cluster, size);
    assert sector == sector[..32 * k] + s + sector[32 * k + 32..];
  }

  lemma {:induction false} Le2(n: nat)
    requires n < 0x1_0000
    ensures LeBytes(n, 2) == [n % 0x100, n / 0x100]
  {
    assert LeBytes(n / 0x100, 1) == [n / 0x100 % 0x100] + LeBytes(n / 0x100 / 0x100, 0);
  }

  lemma {:induction false} Le4(n: nat)
    ensures LeBytes(n, 4) == [n % 0x100, n / 0x100 % 0x100, n / 0x1_0000 % 0x100, n / 0x100_0000 % 0x100]
  {
    assert n / 0x100 / 0x100 == n / 0x1_0000 && n / 0x1_0000 / 0x100 == n / 0x100_0000;
    assert LeBytes(n / 0x100_0000, 1) == [n / 0x100_0000 % 0x100] + LeBytes(n / 0x100_0000 / 0x100, 0);
    assert LeBytes(n / 0x1_0000, 2) == [n / 0x1_0000 % 0x100] + LeBytes(n / 0x1_0000 / 0x100, 1);
    assert LeBytes(n / 0x100, 3) == [n / 0x100 % 0x100] + LeBytes(n / 0x100 / 0x100, 2);
  }
}
