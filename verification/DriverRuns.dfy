/** Runs of the driver's own calls on a disk: what every file contains after each of them. */
module DriverRuns {
  import opened Bytes
  import opened FatTable
  import opened FatBytes
  import opened Directory
  import opened Names
  import opened VolumeModel
  import opened FileStore
  import opened VolumeRuns
  import opened VolumeQuota
  import opened Layout
  import opened ReadBack
  import opened Driver

  datatype Call =
    | WriteCall(filename: CString, data: seq<byte>)
    | AppendCall(filename: CString, data: seq<byte>)
    | DeleteCall(filename: CString)
    | RenameCall(filename: CString, newname: CString)

  /** A file name that does not start with the deletion mark; sizes within the 32-bit length. */
  ghost predicate Allowed(call: Call) {
    match call
    case WriteCall(f, data) => (f == [] || f[0] != DELETED) && |data| < 0x1_0000_0000
    case AppendCall(f, data) => (f == [] || f[0] != DELETED) && |data| < 0xE000_0000
    case DeleteCall(_) => true
    case RenameCall(_, to) => to == [] || to[0] != DELETED
  }

  /** A packed name starts with a marker byte only if the typed name starts with the deletion mark. */
  lemma {:induction false} AllowedIsStorable(f: CString)
    ensures Storable(Encode(f)) <==> f == [] || f[0] != DELETED
  {
    var n := Encode(f);
    EncodeIsPacked(f);
    assert n[0] == Pad(UpperAll(Stem(f)), 8)[0];
    if f != [] && f[0] != DOT {
      assert StemLength(f, 0) > 0;
      assert n[0] == Upper(f[0]);
    } else {
      assert StemLength(f, 0) == 0;
      assert n[0] == SPACE;
    }
  }

  // ---------------------------------------------------------------- one call

  /** A disk that stores a well-formed volume. */
  ghost predicate Good(g: Geometry, d: seq<Sector>) {
    g.VolumeIn(|d|) && WellFormed(Stored(g, d))
  }

  ghost function FilesOn(g: Geometry, d: seq<Sector>): FileMap
    requires Good(g, d)
  {
    Files(Stored(g, d))
  }

  /** Clusters and slots of a volume with this geometry. */
  function QuotaFor(g: Geometry): (q: Quota)
    requires g.spc >= 1
    ensures q.clusterBytes > 0
  {
    Quota(MAX_CLUSTERS - 2, 16 * g.RootSectors(), g.spc * 512)
  }

  /** What the read-back of an append delivers. */
  ghost function ReadBackOf(g: Geometry, d: seq<Sector>, beyond: Sector, name: FatName): seq<byte>
    requires Good(g, d)
  {
    Got(Read(g, d, beyond, name, |Lookup(FilesOn(g, d), name)|))
  }

  /** The call on packed names. */
  ghost function OpOf(g: Geometry, d: seq<Sector>, beyond: Sector, call: Call): Op
    requires Good(g, d)
  {
    match call
    case WriteCall(f, data) => WriteOp(Encode(f), data)
    case AppendCall(f, data) => AppendOp(Encode(f), data, ReadBackOf(g, d, beyond, Encode(f)))
    case DeleteCall(f) => DeleteOp(Encode(f))
    case RenameCall(f, to) => RenameOp(Encode(f), Encode(to))
  }

  /** Reads follow the file's own clusters: it has at most one, or the links agree. */
  ghost predicate ReadsTrue(g: Geometry, d: seq<Sector>, beyond: Sector, name: FatName)
    requires Good(g, d) && name in FilesOn(g, d)
  {
    || |FilesOn(g, d)[name]| <= g.spc * 512
    || LinksAgree(g, d, beyond, FileChain(Stored(g, d), SlotOf(Stored(g, d), name)))
  }

  /** What one call does to the files on the disk, and what it returns: that of the same call on the map
      with the quota of the volume. */
  ghost predicate Step(g: Geometry, beyond: Sector, d: seq<Sector>, call: Call, r: int, d': seq<Sector>) {
    && Good(g, d) && Good(g, d')
    && (r, FilesOn(g, d')) == Returned(Do(FilesOn(g, d), OpOf(g, d, beyond, call), QuotaFor(g)))
  }

  ghost function Returned(outcome: (bool, FileMap)): (int, FileMap) {
    (Status(outcome.0), outcome.1)
  }

  /** The read-back of an append: the old contents where reads follow the file, nothing for names that
      reads skip. */
  lemma {:induction false} ReadBackGives(g: Geometry, d: seq<Sector>, beyond: Sector, name: FatName)
    requires Good(g, d) && name in FilesOn(g, d) && 0 !in name
    ensures SkippedByRead(name[0]) ==> ReadBackOf(g, d, beyond, name) == []
    ensures !SkippedByRead(name[0]) && ReadsTrue(g, d, beyond, name) ==>
              ReadBackOf(g, d, beyond, name) == FilesOn(g, d)[name]
  {
    hide Files, WellFormed, LinksAgree, FileChain, Stored, ReadClusters, SkippedByRead;
    if SkippedByRead(name[0]) {
      SkippedIsNotFound(Stored(g, d).root, name, 0);
    } else if |FilesOn(g, d)[name]| <= g.spc * 512 {
      SmallFileReadsBack(g, d, beyond, name, |FilesOn(g, d)[name]|);
    } else if ReadsTrue(g, d, beyond, name) {
      ReadReturnsFile(g, d, beyond, name, |FilesOn(g, d)[name]|);
    }
  }

  /** An append to a file with contents. Where reads follow the file it leaves old contents then new, if
      there is room, and otherwise no file; for a name that reads skip, and after any short read-back, it
      fails and changes nothing. */
  lemma {:induction false} AppendOutcome(g: Geometry, beyond: Sector, d: seq<Sector>, f: CString, data: seq<byte>,
                                         r: int, d': seq<Sector>)
    requires Step(g, beyond, d, AppendCall(f, data), r, d')
    requires Encode(f) in FilesOn(g, d) && FilesOn(g, d)[Encode(f)] != []
    ensures var name, m, m' := Encode(f), FilesOn(g, d), FilesOn(g, d');
            && (SkippedByRead(name[0]) || |ReadBackOf(g, d, beyond, name)| != |m[name]| ==> r == -1 && m' == m)
            && (!SkippedByRead(name[0]) && ReadsTrue(g, d, beyond, name) ==>
                  if Room(m, name, |m[name]| + |data|, QuotaFor(g)) then r == 0 && m' == m[name := m[name] + data]
                  else r == -1 && m' == m - {name})
  {
    hide FilesOn, ReadBackOf, SkippedByRead, ReadsTrue, Room, Encode, Good, QuotaFor;
    EncodeIsPacked(f);
    ReadBackGives(g, d, beyond, Encode(f));
  }

  lemma {:induction false} QuotaIs(g: Geometry, d: seq<Sector>)
    requires g.VolumeIn(|d|)
    ensures QuotaOf(Stored(g, d)) == QuotaFor(g) && |Stored(g, d).fat| >= 2
  {
  }

  lemma {:induction false} AllowedIsLegal(g: Geometry, d: seq<Sector>, beyond: Sector, call: Call)
    requires Good(g, d) && Allowed(call)
    ensures Legal(OpOf(g, d, beyond, call))
  {
    hide Encode, ReadBackOf, Storable;
    match call
    case WriteCall(f, _) => AllowedIsStorable(f);
    case AppendCall(f, _) => AllowedIsStorable(f);
    case DeleteCall(_) =>
    case RenameCall(f, to) =>
      EncodeIsPacked(f);
      AllowedIsStorable(to);
  }

  /** The outcome of the call on the stored volume, as the driver computes it. */
  ghost function Expected(g: Geometry, d: seq<Sector>, beyond: Sector, call: Call): Outcome
    requires Good(g, d) && Allowed(call)
  {
    AllowedIsLegal(g, d, beyond, call);
    Apply(Stored(g, d), OpOf(g, d, beyond, call))
  }

  lemma {:induction false} ExpectedIsStep(g: Geometry, beyond: Sector, d: seq<Sector>, call: Call, d': seq<Sector>)
    requires Good(g, d) && Allowed(call) && g.VolumeIn(|d'|)
    requires Stored(g, d') == Expected(g, d, beyond, call).vol
    ensures Step(g, beyond, d, call, Status(Expected(g, d, beyond, call).ok), d')
  {
    hide Apply, Do, Stored, WellFormed, Files, OpOf, QuotaFor, QuotaOf, Legal, Allowed;
    AllowedIsLegal(g, d, beyond, call);
    QuotaIs(g, d);
    ApplyIsDo(Stored(g, d), OpOf(g, d, beyond, call));
  }

  /** The call keeps to the entries in the first sector of the table: there are no others, or what it stores
      fits in the clusters below 341. */
  ghost predicate KeepsToSector(g: Geometry, d: seq<Sector>, beyond: Sector, call: Call)
    requires Good(g, d)
  {
    g.fatSize == 1 || StaysWithin(FilesOn(g, d), OpOf(g, d, beyond, call), QuotaFor(g))
  }

  lemma {:induction false} WriteKeepsTo(g: Geometry, d: seq<Sector>, beyond: Sector, f: CString, data: seq<byte>)
    requires Good(g, d) && KeepsToSector(g, d, beyond, WriteCall(f, data)) && Sound(Stored(g, d))
    ensures g.fatSize == 1 || |data| <= FreeSpace(Delete(Stored(g, d), Encode(f)).vol)
  {
    hide Encode, WellFormed, Sound, Stored, Space, FreeSpace, Delete, QuotaFor, FilesOn;
    SpaceOn(g, d, Encode(f), |data|);
  }

  lemma {:induction false} AppendSpace(g: Geometry, d: seq<Sector>, beyond: Sector, f: CString, data: seq<byte>)
    requires Good(g, d) && KeepsToSector(g, d, beyond, AppendCall(f, data))
    ensures var m, name := FilesOn(g, d), Encode(f);
            || g.fatSize == 1
            || 0 < |Lookup(m, name)| != |ReadBackOf(g, d, beyond, name)|
            || Space(m, name, |Lookup(m, name)| + |data|, QuotaFor(g))
  {
    hide Encode, Good, FilesOn, Lookup, ReadBackOf, Space, QuotaFor;
  }

  lemma {:induction false} OldSizeOn(g: Geometry, d: seq<Sector>, name: FatName)
    requires Good(g, d) && 0 !in name
    ensures OldSize(Stored(g, d), name) == |Lookup(FilesOn(g, d), name)|
  {
    hide WellFormed, Stored, Files;
    OldSizeIsLength(Stored(g, d), name);
  }

  lemma {:induction false} SpaceOn(g: Geometry, d: seq<Sector>, name: FatName, len: nat)
    requires Good(g, d) && Sound(Stored(g, d))
    ensures len <= FreeSpace(Delete(Stored(g, d), name).vol) <==> Space(FilesOn(g, d), name, len, QuotaFor(g))
  {
    hide WellFormed, Sound, Stored, Space, FreeSpace, Delete, QuotaOf, QuotaFor, Files;
    QuotaIs(g, d);
    SpaceIsFreeSpace(Stored(g, d), name, len);
  }

  lemma {:induction false} AppendKeepsTo(g: Geometry, d: seq<Sector>, beyond: Sector, f: CString, data: seq<byte>)
    requires Good(g, d) && KeepsToSector(g, d, beyond, AppendCall(f, data)) && Sound(Stored(g, d))
    ensures var v, name := Stored(g, d), Encode(f);
            || g.fatSize == 1
            || 0 < OldSize(v, name) != |Got(Read(g, d, beyond, name, OldSize(v, name)))|
            || OldSize(v, name) + |data| <= FreeSpace(Delete(v, name).vol)
  {
    hide Encode, WellFormed, Sound, Stored, Space, FreeSpace, Delete, QuotaFor, FilesOn, Lookup, OldSize;
    hide ReadBack.Read, KeepsToSector, Got;
    AppendSpace(g, d, beyond, f, data);
    EncodeIsPacked(f);
    OldSizeOn(g, d, Encode(f));
    SpaceOn(g, d, Encode(f), OldSize(Stored(g, d), Encode(f)) + |data|);
  }

  /** One call of the driver. */
  method Perform(vol: Volume, call: Call) returns (r: int)
    requires vol.Valid() && WellFormed(vol.model) && Allowed(call)
    requires KeepsToSector(vol.info, vol.disk[..], vol.beyond, call)
    modifies vol`model, vol.disk
    ensures vol.Valid() && WellFormed(vol.model)
    ensures Step(vol.info, vol.beyond, old(vol.disk[..]), call, r, vol.disk[..])
  {
    hide Encode, Files, Append, Write, Delete, Rename, Stored, Mirrored, ReadBack.Read;
    hide WellFormed, Sound, Step, OldSize, KeepsToSector, FreeSpace;
    WellFormedIsSound(vol.model);
    ghost var v, d := vol.model, vol.disk[..];
    AllowedIsLegal(vol.info, d, vol.beyond, call);
    match call {
      case WriteCall(f, data) =>
        WriteKeepsTo(vol.info, d, vol.beyond, f, data);
        r := vol.WriteFile(f, data);
      case AppendCall(f, data) =>
        AppendKeepsTo(vol.info, d, vol.beyond, f, data);
        EncodeIsPacked(f);
        OldSizeIsLength(v, Encode(f));
        r := vol.AppendFile(f, data);
      case DeleteCall(f) =>
        r := vol.DeleteFile(f);
      case RenameCall(f, to) =>
        r := vol.RenameFile(f, to);
    }
    assert vol.model == Expected(vol.info, d, vol.beyond, call).vol;
    ExpectedIsStep(vol.info, vol.beyond, d, call, vol.disk[..]);
    StepIsGood(vol.info, vol.beyond, d, call, r, vol.disk[..]);
  }

  lemma {:induction false} StepIsGood(g: Geometry, beyond: Sector, d: seq<Sector>, call: Call, r: int, d': seq<Sector>)
    requires Step(g, beyond, d, call, r, d')
    ensures Good(g, d')
  {
  }

  // ---------------------------------------------------------------- runs

  /** Clusters that a run asks for at most. */
  function TotalDemand(calls: seq<Call>, clusterBytes: nat): nat
    requires clusterBytes > 0
  {
    if calls == [] then 0
    else TotalDemand(calls[..|calls| - 1], clusterBytes) + CallDemand(calls[|calls| - 1], clusterBytes)
  }

  function CallDemand(call: Call, clusterBytes: nat): nat
    requires clusterBytes > 0
  {
    match call
    case WriteCall(_, data) => CeilDiv(|data|, clusterBytes)
    case AppendCall(_, data) => CeilDiv(|data|, clusterBytes)
    case DeleteCall(_) => 0
    case RenameCall(_, _) => 0
  }

  lemma {:induction false} DemandGrows(calls: seq<Call>, k: nat, clusterBytes: nat)
    requires clusterBytes > 0 && k <= |calls|
    ensures TotalDemand(calls[..k], clusterBytes) <= TotalDemand(calls, clusterBytes)
    decreases |calls|
  {
    if k < |calls| {
      assert calls[..|calls| - 1][..k] == calls[..k];
      DemandGrows(calls[..|calls| - 1], k, clusterBytes);
    } else {
      assert calls[..k] == calls;
    }
  }

  /** What is in use and still to come covers the next call, and use grows by no more than its demand. */
  lemma {:induction false} NextIsCovered(g: Geometry, d: seq<Sector>, beyond: Sector, call: Call, clusters: nat)
    requires Good(g, d) && clusters == QuotaFor(g).clusters
    ensures Usage(FilesOn(g, d), g.spc * 512) + CallDemand(call, g.spc * 512) <= clusters ==>
              KeepsToSector(g, d, beyond, call)
    ensures forall r, d' :: Step(g, beyond, d, call, r, d') ==>
              Usage(FilesOn(g, d'), g.spc * 512) <= Usage(FilesOn(g, d), g.spc * 512) + CallDemand(call, g.spc * 512)
  {
    hide FilesOn, Encode, ReadBackOf, Good, Usage, CeilDiv, Do, StaysWithin;
    DemandCovers(FilesOn(g, d), OpOf(g, d, beyond, call), QuotaFor(g));
  }

  /** Any run of calls on a mounted, well-formed volume: the disk stores a well-formed volume after
      each of them, results and files are those of the same call on a map with a quota, and identical
      table copies stay identical. With more sectors in the table than one, the run may not ask for more
      than the clusters below 341. */
  method PerformAll(vol: Volume, calls: seq<Call>) returns (results: seq<int>, ghost disks: seq<seq<Sector>>)
    requires vol.Valid() && WellFormed(vol.model) && forall i :: 0 <= i < |calls| ==> Allowed(calls[i])
    requires
      || vol.info.fatSize == 1
      || Usage(Files(vol.model), vol.info.spc * 512) + TotalDemand(calls, vol.info.spc * 512)
         <= QuotaFor(vol.info).clusters
    modifies vol`model, vol.disk
    ensures vol.Valid() && WellFormed(vol.model) && vol.model == Stored(vol.info, vol.disk[..])
    ensures vol.mirrored ==> Mirrored(vol.info, vol.disk[..])
    ensures |results| == |calls| && |disks| == |calls| + 1
    ensures disks[0] == old(vol.disk[..]) && disks[|calls|] == vol.disk[..]
    ensures forall i :: 0 <= i < |calls| ==> Step(vol.info, vol.beyond, disks[i], calls[i], results[i], disks[i + 1])
  {
    hide Stored, Mirrored, Step, WellFormed, Files, Usage, CallDemand;
    ghost var g, cb := vol.info, vol.info.spc * 512;
    results, disks := [], [vol.disk[..]];
    for i := 0 to |calls|
      invariant vol.Valid() && WellFormed(vol.model)
      invariant |results| == i && |disks| == i + 1
      invariant Usage(Files(vol.model), cb) <= Usage(Files(old(vol.model)), cb) + TotalDemand(calls[..i], cb)
      invariant disks[0] == old(vol.disk[..]) && disks[i] == vol.disk[..]
      invariant forall k :: 0 <= k < i ==> Step(vol.info, vol.beyond, disks[k], calls[k], results[k], disks[k + 1])
    {
      DemandGrows(calls, i + 1, cb);
      assert calls[..i + 1][..i] == calls[..i];
      NextIsCovered(g, vol.disk[..], vol.beyond, calls[i], QuotaFor(g).clusters);
      ghost var d := vol.disk[..];
      var r := Perform(vol, calls[i]);
      assert Step(g, vol.beyond, d, calls[i], r, vol.disk[..]);
      results, disks := results + [r], disks + [vol.disk[..]];
    }
  }

  // ---------------------------------------------------------------- write, then read

  /** Writing a file of at most one cluster and reading it with some limit: exactly the names that reads
      do not take for deleted get their data back, up to the limit rounded to whole sectors. */
  method WriteAndRead(vol: Volume, filename: CString, data: seq<byte>, maxlen: nat)
    returns (w: int, r: int, got: seq<byte>)
    requires vol.Valid() && WellFormed(vol.model) && Allowed(WriteCall(filename, data))
    requires |data| <= vol.info.spc * 512
    requires vol.info.fatSize == 1 || Space(Files(vol.model), Encode(filename), |data|, QuotaOf(vol.model))
    modifies vol`model, vol.disk
    ensures vol.Valid()
    ensures w == Status(Room(Files(old(vol.model)), Encode(filename), |data|, QuotaOf(old(vol.model))))
    ensures w == 0 ==> (r == |got| && got == Take(data, RoundUp(maxlen)) <==> !SkippedByRead(Encode(filename)[0]))
    ensures |data| <= maxlen ==> Take(data, RoundUp(maxlen)) == data
  {
    hide Encode, Files, Write, Stored, Mirrored, WellFormed, Sound, ReadBack.Read, SkippedByRead, RoundUp;
    hide Room, QuotaOf, Space, FreeSpace, Delete;
    ghost var v := vol.model;
    WellFormedIsSound(v);
    AllowedIsStorable(filename);
    WriteSucceedsByQuota(v, Encode(filename), data);
    SpaceIsFreeSpace(v, Encode(filename), |data|);
    w := vol.WriteFile(filename, data);
    r, got := vol.ReadFile(filename, maxlen);
    WholeTake(data, maxlen);
    if w == 0 {
      WriteThenRead(v, vol.info, vol.disk[..], vol.beyond, Encode(filename), data, maxlen);
    }
  }

  lemma {:induction false} WholeTake(data: seq<byte>, maxlen: nat)
    ensures |data| <= maxlen ==> Take(data, RoundUp(maxlen)) == data
  {
  }

  /** On an empty volume with one reserved sector and equal tables, a file of two clusters is written
      and then reads short. */
  method WriteAndReadTwoClusters(vol: Volume, filename: CString, data: seq<byte>)
    returns (w: int, r: int, got: seq<byte>)
    requires vol.Valid() && Formatted(vol.model) && vol.model.root != [] && Allowed(WriteCall(filename, data))
    requires vol.info.spc * 512 < |data| <= 2 * (vol.info.spc * 512) && !SkippedByRead(Encode(filename)[0])
    requires vol.info.fatSize == 1 && vol.info.reserved == 1 && vol.info.numFats >= 2 && vol.mirrored
    modifies vol`model, vol.disk
    ensures w == 0 && r == vol.info.spc * 512 < |data|
  {
    hide Encode, Write, Stored, Mirrored, WellFormed, Sound, ReadBack.Read, SkippedByRead;
    ghost var v, name := vol.model, Encode(filename);
    FormattedIsWellFormed(v);
    WellFormedIsSound(v);
    AllowedIsStorable(filename);
    WriteSucceedsWhenEmpty(v, name, data);
    w := vol.WriteFile(filename, data);
    r, got := vol.ReadFile(filename, |data|);
    FreshWriteReadsShort(v, vol.info, vol.disk[..], vol.beyond, name, data, |data|);
  }

  lemma {:induction false} WriteSucceedsWhenEmpty(v: Vol, name: FatName, data: seq<byte>)
    requires Formatted(v) && Sound(v) && v.root != [] && |v.fat| >= 4
    requires v.ClusterBytes() < |data| <= 2 * v.ClusterBytes() && |data| < 0x1_0000_0000
    ensures Write(v, name, data).ok
  {
    WriteSucceedsExactly(v, name, data);
    assert Delete(v, name).vol == v;
    FirstTwoClusters(v, data);
    assert FreeClusters(v) >= 2;
    MulMonotone(2, FreeClusters(v), v.ClusterBytes());
  }

  // ---------------------------------------------------------------- on a small disk

  /** A 1440-kilobyte floppy disk mounts with its root directory at sector 19 and its data at sector 33. */
  method MountFloppy(disk: array<Sector>, beyond: Sector) returns (vol: Volume)
    requires disk.Length == 2880
    requires disk[0][13] == 1 && disk[0][14] == 1 && disk[0][15] == 0 && disk[0][16] == 2
    requires disk[0][17] == 224 && disk[0][18] == 0 && disk[0][22] == 9 && disk[0][23] == 0
    ensures vol.Valid() && vol.disk == disk && vol.info.fatSize == 9
    ensures vol.info.RootStart() == 19 && vol.info.DataStart() == 33
  {
    hide Stored, Mirrored, ParseBootSector;
    FloppyLayout(disk[0]);
    vol := new Volume.Mount(disk, beyond);
  }

  /** A disk of 343 sectors with a boot sector and nothing else, mounted. */
  method MountSmall() returns (vol: Volume)
    ensures fresh(vol) && fresh(vol.disk)
    ensures vol.Valid() && vol.info == SMALL && vol.mirrored && Formatted(vol.model) && vol.model.root != []
  {
    hide Stored, Mirrored, Formatted, ParseBootSector;
    BootIsSmall();
    var disk := new Sector[343](i => if i == 0 then BOOT else Zeros(512));
    EmptyDisk(disk[..]);
    vol := new Volume.Mount(disk, Zeros(512));
  }

  /** A file of two clusters is written there and reads back as one. */
  method TwoClustersReadAsOne() returns (w: int, r: int)
    ensures w == 0 && r == 512
  {
    hide Stored, Mirrored, Formatted;
    var vol := MountSmall();
    PlainName();
    var got;
    w, r, got := WriteAndReadTwoClusters(vol, [0x41], Zeros(1024));
  }

  /** Two bytes are written there and read with a limit of one: both arrive. */
  method OneByteLimit() returns (w: int, r: int, got: seq<byte>)
    ensures w == 0 && r == 2 && got == [1, 2]
  {
    hide Stored, Mirrored, Formatted, Files, Room;
    var vol := MountSmall();
    PlainName();
    FormattedIsWellFormed(vol.model);
    RoomWhenEmpty(Files(vol.model), Encode([0x41]), QuotaOf(vol.model));
    w, r, got := WriteAndRead(vol, [0x41], [1, 2], 1);
    assert Take([1, 2], RoundUp(1)) == [1, 2];
  }

  lemma {:induction false} RoomWhenEmpty(m: FileMap, name: FatName, q: Quota)
    requires m == map[] && q.clusterBytes >= 2 && q.clusters > 0 && q.slots > 0
    ensures Room(m, name, 2, q)
  {
    assert m - {name} == map[];
    CeilDivIsLeast(2, q.clusterBytes, 1);
  }

  /** One byte is written there under a name that starts with the deletion mark: its cluster is lost. */
  method MarkedNameLosesCluster() returns (vol: Volume, w: int)
    ensures vol.Valid() && w == 0 && !WellFormed(vol.model)
  {
    hide Stored, Mirrored, Formatted, WellFormed, Sound, Write;
    vol := MountSmall();
    FormattedIsWellFormed(vol.model);
    WellFormedIsSound(vol.model);
    AllowedIsStorable([0xE5]);
    MarkedFirst();
    MarkedNameBreaks(vol.model, Encode([0xE5]));
    w := vol.WriteFile([0xE5], [7]);
  }

  /** One byte is written there under a plain name and the file renamed to a marked one: the same. */
  method MarkedRenameLosesCluster() returns (vol: Volume, w: int, r: int)
    ensures vol.Valid() && w == 0 && r == 0 && !WellFormed(vol.model)
  {
    hide Stored, Mirrored, Formatted, WellFormed, Sound, Write, Rename;
    vol := MountSmall();
    FormattedIsWellFormed(vol.model);
    WellFormedIsSound(vol.model);
    AllowedIsStorable([0x41]);
    MarkedFirst();
    MarkedRenameBreaks(vol.model, Encode([0x41]), Encode([0xE5]));
    w := vol.WriteFile([0x41], [7]);
    r := vol.RenameFile([0x41], [0xE5]);
  }

  lemma {:induction false} MarkedFirst()
    ensures Encode([0xE5])[0] == DELETED
  {
    assert StemLength([0xE5], 0) == 1;
    assert Encode([0xE5])[0] == Upper(0xE5);
  }

  lemma {:induction false} PlainName()
    ensures !SkippedByRead(Encode([0x41])[0])
  {
    assert StemLength([0x41], 0) == 1;
    assert Encode([0x41])[0] == Upper(0x41);
  }
}
