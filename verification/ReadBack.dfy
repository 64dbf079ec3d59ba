/** Reading a file: what `fs_read` returns, when that is the stored file, and when it is not.
    `fs_read` finds the next cluster with arithmetic of its own rather than with `fat_get`. */
module ReadBack {
  import opened Bytes
  import opened FatTable
  import opened FatBytes
  import opened Directory
  import opened VolumeModel
  import opened VolumeLaws
  import opened FileStore
  import opened VolumeRuns
  import opened Layout

  /** The disk as seen by reads: `beyond` stands for what a sector past the end returns. */
  function SectorAt(d: seq<Sector>, beyond: Sector, lba: nat): Sector {
    if lba < |d| then d[lba] else beyond
  }

  /** `fs_read` skips slots whose first byte has all bits of 0xE5, not only 0xE5 itself. */
  predicate SkippedByRead(b: byte) {
    b / 32 == 7 && b / 4 % 2 == 1 && b % 2 == 1
  }

  /** Which bytes those are. */
  lemma {:induction false} SkippedAre(b: byte)
    ensures SkippedByRead(b) <==> b in {0xE5, 0xE7, 0xED, 0xEF, 0xF5, 0xF7, 0xFD, 0xFF}
  {
  }

  function FindForRead(root: Root, name: FatName, from: nat): (r: Option<nat>)
    requires from <= |root|
    ensures r.Some? ==> r.value < |root|
    decreases |root| - from
  {
    if from == |root| || root[from][0] == UNUSED then None
    else if !SkippedByRead(root[from][0]) && NameOf(root[from]) == name then Some(from)
    else FindForRead(root, name, from + 1)
  }

  /** For names whose first byte reads do not skip, reading finds what the other calls find. */
  lemma {:induction false} SameSearch(root: Root, name: FatName, from: nat)
    requires from <= |root| && !SkippedByRead(name[0])
    ensures FindForRead(root, name, from) == Find(root, name, from)
    decreases |root| - from
  {
    if from != |root| && root[from][0] != UNUSED {
      SameSearch(root, name, from + 1);
      assert NameOf(root[from])[0] == root[from][0];
    }
  }

  /** First sector that `fs_read` loads for a cluster, in 32-bit arithmetic. */
  function ReadStart(g: Geometry, cluster: nat): nat {
    (g.DataStart() + (cluster - 2) * g.spc) % 0x1_0000_0000
  }

  /** For clusters 0 and 1 that lies before the data area. */
  lemma {:induction false} ReadStartIs(g: Geometry, c: nat)
    requires 2 * g.spc <= g.DataStart() + c * g.spc < 0x1_0000_0000
    ensures ReadStart(g, c) == g.DataStart() + c * g.spc - 2 * g.spc
  {
    assert (c - 2) * g.spc == c * g.spc - 2 * g.spc;
  }

  /** The value that `fs_read` takes for the next cluster. */
  function NextForRead(g: Geometry, d: seq<Sector>, beyond: Sector, cluster: nat): nat {
    var offset := g.reserved * 512 + cluster * 2;
    var sector := SectorAt(d, beyond, g.reserved + offset / 512);
    var low: int, high: int := sector[offset % 512], sector[offset % 512 + 1];
    low + high * 0x100
  }

  /** Those sixteen bits stand at byte 2 * (c % 256) of the sector that lies twice the reserved sectors and
      c / 256 from the start of the disk. */
  lemma {:induction false} NextForReadIs(g: Geometry, d: seq<Sector>, beyond: Sector, c: nat)
    ensures var s, o := SectorAt(d, beyond, 2 * g.reserved + c / 256), 2 * (c % 256);
            NextForRead(g, d, beyond, c) == s[o] as int + 0x100 * s[o + 1] as int
  {
    var offset := g.reserved * 512 + c * 2;
    assert offset == 512 * (g.reserved + c / 256) + 2 * (c % 256);
    assert offset / 512 == g.reserved + c / 256 && offset % 512 == 2 * (c % 256);
  }

  /** The bytes of one cluster, sector by sector from the `i`-th, until the file or the limit ends. */
  function ReadSectors(g: Geometry, d: seq<Sector>, beyond: Sector, lba: nat, i: nat,
                       size: nat, maxlen: nat, got: seq<byte>): (r: seq<byte>)
    requires i <= g.spc && |got| < size
    ensures |got| <= |r| <= size && (i < g.spc ==> |got| < |r|)
    decreases g.spc - i
  {
    if i == g.spc then got
    else
      var sector := SectorAt(d, beyond, (lba + i) % 0x1_0000_0000);
      var got' := got + sector[..Min(size - |got|, 512)];
      if |got'| >= size || |got'| >= maxlen then got'
      else ReadSectors(g, d, beyond, lba, i + 1, size, maxlen, got')
  }

  /** The bytes that following clusters from `cluster` adds to `got`. */
  function ReadClusters(g: Geometry, d: seq<Sector>, beyond: Sector, cluster: nat,
                        size: nat, maxlen: nat, got: seq<byte>): (r: seq<byte>)
    requires g.spc >= 1 && |got| <= size
    ensures |got| <= |r| <= size
    decreases size - |got|
  {
    if cluster >= 0xFF8 || |got| >= size || |got| >= maxlen then got
    else
      var got' := ReadSectors(g, d, beyond, ReadStart(g, cluster), 0, size, maxlen, got);
      ReadClusters(g, d, beyond, NextForRead(g, d, beyond, cluster), size, maxlen, got')
  }

  /** The clusters visited on the way. */
  function Visited(g: Geometry, d: seq<Sector>, beyond: Sector, cluster: nat,
                   size: nat, maxlen: nat, got: seq<byte>): seq<int>
    requires g.spc >= 1 && |got| <= size
    decreases size - |got|
  {
    if cluster >= 0xFF8 || |got| >= size || |got| >= maxlen then []
    else
      var got' := ReadSectors(g, d, beyond, ReadStart(g, cluster), 0, size, maxlen, got);
      [cluster] + Visited(g, d, beyond, NextForRead(g, d, beyond, cluster), size, maxlen, got')
  }

  /** `fs_read`: nothing if the name is not found, else the bytes stored into the buffer. */
  ghost function Read(g: Geometry, d: seq<Sector>, beyond: Sector, name: FatName, maxlen: nat): Option<seq<byte>>
    requires g.VolumeIn(|d|)
  {
    var root := Stored(g, d).root;
    match FindForRead(root, name, 0)
    case None => None
    case Some(i) => Some(ReadClusters(g, d, beyond, ClusterOf(root[i]), SizeOf(root[i]), maxlen, []))
  }

  // ---------------------------------------------------------------- reading the right clusters

  lemma {:induction false} FlattenCons(x: Sector, ss: seq<Sector>)
    ensures Flatten([x] + ss) == x + Flatten(ss)
    decreases |ss|
  {
    var all := [x] + ss;
    if ss == [] {
      assert all[..0] == [];
    } else {
      var n := |ss| - 1;
      FlattenCons(x, ss[..n]);
      assert all[..|all| - 1] == [x] + ss[..n];
    }
  }

  /** The bytes of `n` sectors from `from` on. */
  ghost function RunBytes(d: seq<Sector>, from: nat, n: nat): seq<byte>
    requires from + n <= |d|
    decreases n
  {
    if n == 0 then [] else d[from] + RunBytes(d, from + 1, n - 1)
  }

  lemma {:induction false} RunHead(d: seq<Sector>, from: nat, n: nat)
    requires from + n <= |d|
    ensures RunBytes(d, from, n) == if n == 0 then [] else d[from] + RunBytes(d, from + 1, n - 1)
  {
  }

  lemma {:induction false} RunIsFlatten(d: seq<Sector>, from: nat, n: nat)
    requires from + n <= |d|
    ensures RunBytes(d, from, n) == Flatten(d[from..from + n])
    decreases n
  {
    if n > 0 {
      RunIsFlatten(d, from + 1, n - 1);
      FlattenCons(d[from], d[from + 1..from + n]);
      assert d[from..from + n] == [d[from]] + d[from + 1..from + n];
    }
  }

  /** Reading a run of sectors appends their bytes, up to the file size. */
  lemma {:induction false} ReadSectorsGives(g: Geometry, d: seq<Sector>, beyond: Sector, lba: nat, i: nat,
                                            size: nat, maxlen: nat, got: seq<byte>)
    requires i <= g.spc && lba + g.spc <= |d| <= 0x1_0000_0000 && |got| < size <= maxlen
    ensures ReadSectors(g, d, beyond, lba, i, size, maxlen, got)
            == Take(got + RunBytes(d, lba + i, g.spc - i), size)
    decreases g.spc - i
  {
    hide RunBytes, ReadSectors, Take, SectorAt;
    RunHead(d, lba + i, g.spc - i);
    if i == g.spc {
      NothingRead(g, d, beyond, lba, size, maxlen, got);
    } else {
      var sector, tail := d[lba + i], RunBytes(d, lba + i + 1, g.spc - i - 1);
      ReadSectorsAt(g, d, beyond, lba, i, size, maxlen, got);
      if size - |got| > 512 {
        assert sector[..512] == sector;
        ReadSectorsGives(g, d, beyond, lba, i + 1, size, maxlen, got + sector);
        Regroup(got, sector, tail);
      } else {
        CutInFirst(got, sector, tail, size);
      }
    }
  }

  lemma {:induction false} NothingRead(g: Geometry, d: seq<Sector>, beyond: Sector, lba: nat,
                                       size: nat, maxlen: nat, got: seq<byte>)
    requires |got| < size
    ensures ReadSectors(g, d, beyond, lba, g.spc, size, maxlen, got) == Take(got + [], size)
  {
    assert got + [] == got;
  }

  lemma {:induction false} ReadSectorsAt(g: Geometry, d: seq<Sector>, beyond: Sector, lba: nat, i: nat,
                                         size: nat, maxlen: nat, got: seq<byte>)
    requires i < g.spc && lba + g.spc <= |d| <= 0x1_0000_0000 && |got| < size
    ensures var got' := got + d[lba + i][..Min(size - |got|, 512)];
            ReadSectors(g, d, beyond, lba, i, size, maxlen, got)
            == if |got'| >= size || |got'| >= maxlen then got'
               else ReadSectors(g, d, beyond, lba, i + 1, size, maxlen, got')
  {
    assert (lba + i) % 0x1_0000_0000 == lba + i;
  }

  lemma {:induction false} Regroup(a: seq<byte>, b: seq<byte>, c: seq<byte>)
    ensures (a + b) + c == a + (b + c)
  {
  }

  lemma {:induction false} CutInFirst(a: seq<byte>, b: seq<byte>, c: seq<byte>, n: nat)
    requires |a| <= n <= |a| + |b|
    ensures Take(a + (b + c), n) == a + b[..n - |a|]
  {
  }

  /** The links that `fs_read` follows from the clusters of a chain are those of the table. */
  ghost predicate LinksAgree(g: Geometry, d: seq<Sector>, beyond: Sector, ch: seq<int>) {
    forall i :: 0 <= i < |ch| - 1 ==> NextAgrees(g, d, beyond, ch, i)
  }

  ghost predicate NextAgrees(g: Geometry, d: seq<Sector>, beyond: Sector, ch: seq<int>, i: nat) {
    i + 1 < |ch| && ch[i] >= 0 && NextForRead(g, d, beyond, ch[i]) == ch[i + 1]
  }

  ghost predicate InTableRange(ch: seq<int>) {
    forall i :: 0 <= i < |ch| ==> 2 <= ch[i] < MAX_CLUSTERS
  }

  lemma {:induction false} ReadStartOfCluster(g: Geometry, n: nat, c: nat)
    requires g.VolumeIn(n) && 2 <= c < MAX_CLUSTERS
    ensures ReadStart(g, c) == g.ClusterStart(c) && g.ClusterStart(c) + g.spc <= n
  {
    ClusterInDisk(g, n, c);
    SpanIsProduct(c - 2, g.spc);
  }

  lemma {:induction false} ReadOneCluster(g: Geometry, d: seq<Sector>, beyond: Sector, c: nat,
                                          size: nat, maxlen: nat, got: seq<byte>)
    requires g.VolumeIn(|d|) && 2 <= c < MAX_CLUSTERS && |got| < size <= maxlen
    ensures ReadSectors(g, d, beyond, ReadStart(g, c), 0, size, maxlen, got)
            == Take(got + Flatten(ClusterAt(g, d, c)), size)
  {
    ReadStartOfCluster(g, |d|, c);
    ReadSectorsGives(g, d, beyond, g.ClusterStart(c), 0, size, maxlen, got);
    RunIsFlatten(d, g.ClusterStart(c), g.spc);
  }

  /** Bytes of the remaining clusters of a chain, head first. */
  ghost function Rest(g: Geometry, d: seq<Sector>, ch: seq<int>): (r: seq<byte>)
    requires g.VolumeIn(|d|) && InTableRange(ch)
    ensures |r| == 512 * Span(|ch|, g.spc)
  {
    if ch == [] then [] else Flatten(ClusterAt(g, d, ch[0])) + Rest(g, d, ch[1..])
  }

  lemma {:induction false} LinksAgreeTail(g: Geometry, d: seq<Sector>, beyond: Sector, ch: seq<int>)
    requires |ch| > 1
    ensures LinksAgree(g, d, beyond, ch) <==>
              NextAgrees(g, d, beyond, ch, 0) && LinksAgree(g, d, beyond, ch[1..])
  {
    forall i | 0 <= i < |ch[1..]| - 1
      ensures NextAgrees(g, d, beyond, ch[1..], i) <==> NextAgrees(g, d, beyond, ch, i + 1)
    {
    }
    if NextAgrees(g, d, beyond, ch, 0) && LinksAgree(g, d, beyond, ch[1..]) {
      forall i | 0 <= i < |ch| - 1
        ensures NextAgrees(g, d, beyond, ch, i)
      {
        if i > 0 { assert NextAgrees(g, d, beyond, ch[1..], i - 1); }
      }
    }
  }

  /** The size of a file whose last byte is in the last of `n` clusters, `got` bytes being read. */
  ghost predicate EndsInLast(g: Geometry, got: nat, n: nat, size: nat) {
    n > 0 && got + 512 * Span(n - 1, g.spc) < size <= got + 512 * Span(n, g.spc)
  }

  /** One round of the outer loop on the head of a chain. */
  lemma {:induction false} ReadHead(g: Geometry, d: seq<Sector>, beyond: Sector, ch: seq<int>,
                                    size: nat, maxlen: nat, got: seq<byte>) returns (got': seq<byte>)
    requires g.VolumeIn(|d|) && InTableRange(ch) && size <= maxlen && EndsInLast(g, |got|, |ch|, size)
    ensures got' == ReadSectors(g, d, beyond, ReadStart(g, ch[0]), 0, size, maxlen, got)
    ensures |ch| == 1 ==> |got'| == size && got' == Take(got + Rest(g, d, ch), size)
    ensures |ch| > 1 ==> got' == got + Flatten(ClusterAt(g, d, ch[0])) && EndsInLast(g, |got'|, |ch| - 1, size)
  {
    var cluster := Flatten(ClusterAt(g, d, ch[0]));
    ReadOneCluster(g, d, beyond, ch[0], size, maxlen, got);
    got' := Take(got + cluster, size);
    SpanHead(|ch|, g.spc);
    if |ch| == 1 {
      assert Rest(g, d, ch[1..]) == [];
      assert Rest(g, d, ch) == cluster;
    } else {
      SpanHead(|ch| - 1, g.spc);
    }
  }

  lemma {:induction false} SpanHead(n: nat, spc: nat)
    requires n > 0
    ensures Span(n, spc) == spc + Span(n - 1, spc)
  {
  }

  /** Where the links agree, the read returns the bytes of the chain, cut to the size. */
  lemma {:induction false} FollowChain(g: Geometry, d: seq<Sector>, beyond: Sector, ch: seq<int>,
                                       size: nat, maxlen: nat, got: seq<byte>)
    requires g.VolumeIn(|d|) && InTableRange(ch) && size <= maxlen && EndsInLast(g, |got|, |ch|, size)
    requires LinksAgree(g, d, beyond, ch)
    ensures ReadClusters(g, d, beyond, ch[0], size, maxlen, got) == Take(got + Rest(g, d, ch), size)
    decreases |ch|
  {
    hide ReadSectors, Flatten, ClusterAt;
    var got' := ReadHead(g, d, beyond, ch, size, maxlen, got);
    if |ch| > 1 {
      LinksAgreeTail(g, d, beyond, ch);
      FollowChain(g, d, beyond, ch[1..], size, maxlen, got');
      Regroup(got, Flatten(ClusterAt(g, d, ch[0])), Rest(g, d, ch[1..]));
      assert NextForRead(g, d, beyond, ch[0]) == ch[1..][0];
    }
  }

  /** The read visits exactly the clusters of the chain if and only if the links agree. */
  lemma {:induction false} VisitsChain(g: Geometry, d: seq<Sector>, beyond: Sector, ch: seq<int>,
                                       size: nat, maxlen: nat, got: seq<byte>)
    requires g.VolumeIn(|d|) && InTableRange(ch) && size <= maxlen && EndsInLast(g, |got|, |ch|, size)
    ensures Visited(g, d, beyond, ch[0], size, maxlen, got) == ch <==> LinksAgree(g, d, beyond, ch)
    decreases |ch|
  {
    hide ReadSectors, Rest, Flatten, ClusterAt;
    var got' := ReadHead(g, d, beyond, ch, size, maxlen, got);
    var next := NextForRead(g, d, beyond, ch[0]);
    var later := Visited(g, d, beyond, next, size, maxlen, got');
    assert Visited(g, d, beyond, ch[0], size, maxlen, got) == [ch[0]] + later;
    if |ch| == 1 {
      assert later == [];
    } else {
      LinksAgreeTail(g, d, beyond, ch);
      VisitsChain(g, d, beyond, ch[1..], size, maxlen, got');
      HeadAndTail(ch[0], later, ch);
      assert later != [] ==> later[0] == next;
    }
  }

  lemma {:induction false} HeadAndTail(x: int, s: seq<int>, ch: seq<int>)
    requires ch != [] && x == ch[0]
    ensures [x] + s == ch <==> s == ch[1..]
  {
    assert ([x] + s)[1..] == s && [x] + ch[1..] == ch;
  }

  lemma {:induction false} ChainBytesCons(clusters: seq<seq<Sector>>, c: int, ch: seq<int>)
    requires 0 <= c < |clusters| && forall i :: 0 <= i < |ch| ==> 0 <= ch[i] < |clusters|
    ensures ChainBytes(clusters, [c] + ch) == Flatten(clusters[c]) + ChainBytes(clusters, ch)
    decreases |ch|
  {
    var all := [c] + ch;
    if ch == [] {
      assert all[..0] == [];
    } else {
      var init, last := ch[..|ch| - 1], ch[|ch| - 1];
      assert all[..|all| - 1] == [c] + init && all[|all| - 1] == last;
      ChainBytesCons(clusters, c, init);
      Regroup(Flatten(clusters[c]), ChainBytes(clusters, init), Flatten(clusters[last]));
    }
  }

  lemma {:induction false} RestIsChainBytes(g: Geometry, d: seq<Sector>, ch: seq<int>)
    requires g.VolumeIn(|d|) && InTableRange(ch)
    ensures Rest(g, d, ch) == ChainBytes(Stored(g, d).clusters, ch)
    decreases |ch|
  {
    hide Flatten;
    if ch != [] {
      RestIsChainBytes(g, d, ch[1..]);
      ChainBytesCons(Stored(g, d).clusters, ch[0], ch[1..]);
      assert [ch[0]] + ch[1..] == ch;
    }
  }

  // ---------------------------------------------------------------- reading a file back

  /** A non-empty file of a well-formed volume: its chain ends where its size does. */
  lemma {:induction false} FileEndsInLast(v: Vol, g: Geometry, i: nat)
    requires WellFormed(v) && v.spc == g.spc && i < |v.root| && Live(v.root[i]) && SizeOf(v.root[i]) > 0
    requires !LongName(v.root[i])
    ensures EndsInLast(g, 0, |FileChain(v, i)|, SizeOf(v.root[i]))
    ensures FileChain(v, i) != [] && FileChain(v, i)[0] == ClusterOf(v.root[i])
  {
    assert EntryOk(v, i);
    var n := |FileChain(v, i)|;
    CeilDivIsLeast(SizeOf(v.root[i]), v.ClusterBytes(), n);
    SpanInBytes(n, v.spc);
    SpanInBytes(n - 1, v.spc);
  }

  /** Reading the clusters of slot `i`. */
  lemma {:induction false} ReadSlot(g: Geometry, d: seq<Sector>, beyond: Sector, v: Vol, i: nat, maxlen: nat)
    requires g.VolumeIn(|d|) && WellFormed(v) && v == Stored(g, d)
    requires i < |v.root| && Live(v.root[i]) && 0 < SizeOf(v.root[i]) <= maxlen && !LongName(v.root[i])
    ensures var ch, size := FileChain(v, i), SizeOf(v.root[i]);
            && (Visited(g, d, beyond, ClusterOf(v.root[i]), size, maxlen, []) == ch <==> LinksAgree(g, d, beyond, ch))
            && (LinksAgree(g, d, beyond, ch) ==>
                  ReadClusters(g, d, beyond, ClusterOf(v.root[i]), size, maxlen, []) == Content(v, i))
  {
    var ch, size := FileChain(v, i), SizeOf(v.root[i]);
    FileEndsInLast(v, g, i);
    WalkInTable(v.fat, ClusterOf(v.root[i]), |v.fat|);
    VisitsChain(g, d, beyond, ch, size, maxlen, []);
    if LinksAgree(g, d, beyond, ch) {
      FollowChain(g, d, beyond, ch, size, maxlen, []);
      RestIsChainBytes(g, d, ch);
      assert [] + Rest(g, d, ch) == Rest(g, d, ch);
    }
  }

  /** The directory slot of a stored file. */
  ghost function SlotOf(v: Vol, name: FatName): (i: nat)
    requires Find(v.root, name, 0).Some?
    ensures i < |v.root| && Live(v.root[i])
  {
    Find(v.root, name, 0).value
  }

  /** `fs_read` of a stored file visits exactly the clusters of the file if and only if the links it
      computes agree with the table. */
  lemma {:induction false} ReadVisitsFile(g: Geometry, d: seq<Sector>, beyond: Sector, name: FatName, maxlen: nat)
    requires g.VolumeIn(|d|) && WellFormed(Stored(g, d)) && name in Files(Stored(g, d)) && 0 !in name
    requires 0 < |Files(Stored(g, d))[name]| <= maxlen
    ensures var v := Stored(g, d);
            var i := SlotOf(v, name);
            Visited(g, d, beyond, ClusterOf(v.root[i]), SizeOf(v.root[i]), maxlen, []) == FileChain(v, i)
            <==> LinksAgree(g, d, beyond, FileChain(v, i))
  {
    var v := Stored(g, d);
    FileLength(v, SlotOf(v, name));
    ReadSlot(g, d, beyond, v, SlotOf(v, name), maxlen);
  }

  /** Where those links agree, `fs_read` returns the contents. */
  lemma {:induction false} ReadReturnsFile(g: Geometry, d: seq<Sector>, beyond: Sector, name: FatName, maxlen: nat)
    requires g.VolumeIn(|d|) && WellFormed(Stored(g, d)) && !SkippedByRead(name[0])
    requires 0 !in name && name in Files(Stored(g, d)) && |Files(Stored(g, d))[name]| <= maxlen
    requires LinksAgree(g, d, beyond, FileChain(Stored(g, d), SlotOf(Stored(g, d), name)))
    ensures Read(g, d, beyond, name, maxlen) == Some(Files(Stored(g, d))[name])
  {
    hide Stored, WellFormed, FileChain, Content, LinksAgree, SkippedByRead;
    var v := Stored(g, d);
    SameSearch(v.root, name, 0);
    FileLength(v, SlotOf(v, name));
    if SizeOf(v.root[SlotOf(v, name)]) > 0 {
      ReadSlot(g, d, beyond, v, SlotOf(v, name), maxlen);
    }
  }

  lemma {:induction false} FileLength(v: Vol, i: nat)
    requires WellFormed(v) && i < |v.root| && Live(v.root[i]) && 0 !in NameOf(v.root[i])
    ensures |Content(v, i)| == SizeOf(v.root[i])
  {
    ContentLength(v, i);
  }

  // ---------------------------------------------------------------- reading with a limit

  /** The limit rounded up to whole sectors: `fs_read` compares only after each sector. */
  function RoundUp(maxlen: nat): (r: nat)
    ensures maxlen <= r < maxlen + 512 && r % 512 == 0
    ensures r == maxlen <==> maxlen % 512 == 0
  {
    if maxlen % 512 == 0 then maxlen else maxlen - maxlen % 512 + 512
  }

  /** A multiple of 512 below the limit, and one more sector. */
  lemma {:induction false} NextSector(n: nat, maxlen: nat)
    requires n % 512 == 0
    ensures (n + 512) % 512 == 0
    ensures n < maxlen ==> n + 512 <= RoundUp(maxlen)
    ensures n >= maxlen ==> n >= RoundUp(maxlen)
  {
    var q, r := n / 512, RoundUp(maxlen) / 512;
    assert n == 512 * q && RoundUp(maxlen) == 512 * r;
  }

  /** A read only adds to what is there. */
  lemma {:induction false} ReadSectorsExtends(g: Geometry, d: seq<Sector>, beyond: Sector, lba: nat, i: nat,
                                              size: nat, maxlen: nat, got: seq<byte>)
    requires i <= g.spc && |got| < size
    ensures got <= ReadSectors(g, d, beyond, lba, i, size, maxlen, got)
    decreases g.spc - i
  {
    if i < g.spc {
      var got' := got + SectorAt(d, beyond, (lba + i) % 0x1_0000_0000)[..Min(size - |got|, 512)];
      if |got'| < size && |got'| < maxlen {
        ReadSectorsExtends(g, d, beyond, lba, i + 1, size, maxlen, got');
      }
    }
  }

  lemma {:induction false} ReadClustersExtends(g: Geometry, d: seq<Sector>, beyond: Sector, cluster: nat,
                                               size: nat, maxlen: nat, got: seq<byte>)
    requires g.spc >= 1 && |got| <= size
    ensures got <= ReadClusters(g, d, beyond, cluster, size, maxlen, got)
    decreases size - |got|
  {
    if cluster < 0xFF8 && |got| < size && |got| < maxlen {
      ReadSectorsExtends(g, d, beyond, ReadStart(g, cluster), 0, size, maxlen, got);
      var got' := ReadSectors(g, d, beyond, ReadStart(g, cluster), 0, size, maxlen, got);
      ReadClustersExtends(g, d, beyond, NextForRead(g, d, beyond, cluster), size, maxlen, got');
    }
  }

  /** Whole sectors, unless the file has ended. */
  ghost predicate Whole(n: nat, size: nat) {
    n % 512 == 0 || n == size
  }

  /** Within one cluster the limit cuts the read off at its rounded value. */
  lemma {:induction false} LimitedSectors(g: Geometry, d: seq<Sector>, beyond: Sector, lba: nat, i: nat,
                                          size: nat, maxlen: nat, got: seq<byte>)
    requires i <= g.spc && |got| < size && |got| < maxlen && |got| % 512 == 0
    ensures var all := ReadSectors(g, d, beyond, lba, i, size, size, got);
            && Whole(|all|, size)
            && ReadSectors(g, d, beyond, lba, i, size, maxlen, got) == Take(all, RoundUp(maxlen))
    decreases g.spc - i
  {
    NextSector(|got|, maxlen);
    if i < g.spc {
      var got' := got + SectorAt(d, beyond, (lba + i) % 0x1_0000_0000)[..Min(size - |got|, 512)];
      if |got'| < size {
        assert |got'| == |got| + 512;
        NextSector(|got'|, maxlen);
        LimitedSectors(g, d, beyond, lba, i + 1, size, if |got'| < maxlen then maxlen else size, got');
        if |got'| >= maxlen {
          ReadSectorsExtends(g, d, beyond, lba, i + 1, size, size, got');
        }
      }
    }
  }

  /** Over any clusters, right or wrong, a limited read is the unlimited one cut at the rounded limit. */
  lemma {:induction false} LimitedClusters(g: Geometry, d: seq<Sector>, beyond: Sector, cluster: nat,
                                           size: nat, maxlen: nat, got: seq<byte>)
    requires g.spc >= 1 && |got| <= size && |got| <= RoundUp(maxlen) && Whole(|got|, size)
    ensures ReadClusters(g, d, beyond, cluster, size, maxlen, got)
            == Take(ReadClusters(g, d, beyond, cluster, size, size, got), RoundUp(maxlen))
    decreases size - |got|
  {
    hide ReadSectors, RoundUp, NextForRead, ReadStart, Take;
    var limit := RoundUp(maxlen);
    if cluster >= 0xFF8 || |got| == size {
      TakeOfPrefix(got, got, limit);
    } else {
      NextSector(|got|, maxlen);
      if |got| >= maxlen {
        ReadClustersExtends(g, d, beyond, cluster, size, size, got);
        TakeOfPrefix(got, ReadClusters(g, d, beyond, cluster, size, size, got), limit);
      } else {
        var start, next := ReadStart(g, cluster), NextForRead(g, d, beyond, cluster);
        LimitedSectors(g, d, beyond, start, 0, size, maxlen, got);
        var all := ReadSectors(g, d, beyond, start, 0, size, size, got);
        if |all| <= limit {
          TakeOfPrefix(all, all, limit);
          LimitedClusters(g, d, beyond, next, size, maxlen, all);
        } else {
          ReadClustersExtends(g, d, beyond, next, size, size, all);
          TakeOfPrefix(all, ReadClusters(g, d, beyond, next, size, size, all), limit);
        }
      }
    }
  }

  lemma {:induction false} TakeOfPrefix(s: seq<byte>, all: seq<byte>, n: nat)
    requires s <= all && (|s| >= n || s == all)
    ensures Take(s, n) == Take(all, n) && |Take(s, n)| == Min(n, |s|) && (|s| <= n ==> Take(s, n) == s)
  {
  }

  /** The file size recorded in the entry that a read finds. */
  ghost function SizeForRead(g: Geometry, d: seq<Sector>, name: FatName): nat
    requires g.VolumeIn(|d|)
  {
    var root := Stored(g, d).root;
    match FindForRead(root, name, 0)
    case None => 0
    case Some(i) => SizeOf(root[i])
  }

  /** `fs_read` with any limit delivers the first bytes of what it delivers without one, as many as
      the limit rounded up to whole sectors; so it delivers more than the limit exactly when the
      limit is no multiple of 512 and there is more to read. */
  lemma {:induction false} LimitedRead(g: Geometry, d: seq<Sector>, beyond: Sector, name: FatName, maxlen: nat)
    requires g.VolumeIn(|d|)
    ensures var all, r := Read(g, d, beyond, name, SizeForRead(g, d, name)), Read(g, d, beyond, name, maxlen);
            && (r.Some? <==> all.Some?)
            && (r.Some? ==>
                  && r.value == Take(all.value, RoundUp(maxlen))
                  && |r.value| < maxlen + 512
                  && (|r.value| > maxlen <==> maxlen % 512 != 0 && maxlen < |all.value|))
  {
    hide Stored, ReadClusters;
    var root := Stored(g, d).root;
    var found := FindForRead(root, name, 0);
    if found.Some? {
      LimitedClusters(g, d, beyond, ClusterOf(root[found.value]), SizeOf(root[found.value]), maxlen, []);
    }
  }

  /** The first cluster alone delivers as much as it holds. */
  lemma {:induction false} FirstClusterDelivers(g: Geometry, d: seq<Sector>, beyond: Sector, v: Vol, i: nat)
    requires g.VolumeIn(|d|) && WellFormed(v) && v == Stored(g, d) && i < |v.root| && Live(v.root[i])
    requires !LongName(v.root[i])
    ensures var all := ReadClusters(g, d, beyond, ClusterOf(v.root[i]), SizeOf(v.root[i]), SizeOf(v.root[i]), []);
            Min(SizeOf(v.root[i]), g.spc * 512) <= |all| <= SizeOf(v.root[i])
  {
    var size := SizeOf(v.root[i]);
    if size > 0 {
      FileEndsInLast(v, g, i);
      WalkInTable(v.fat, ClusterOf(v.root[i]), |v.fat|);
      var ch := FileChain(v, i);
      SpanHead(1, g.spc);
      var got' := ReadHead(g, d, beyond, ch, size, size, []);
      ReadClustersExtends(g, d, beyond, NextForRead(g, d, beyond, ch[0]), size, size, got');
    }
  }

  /** For a stored file, and a limit within its first cluster or links that agree, `fs_read` delivers
      more than the limit exactly when the limit is no multiple of 512 and smaller than the file. */
  lemma {:induction false} ReadsPastLimit(g: Geometry, d: seq<Sector>, beyond: Sector, name: FatName, maxlen: nat)
    requires g.VolumeIn(|d|) && WellFormed(Stored(g, d)) && name in Files(Stored(g, d))
    requires !SkippedByRead(name[0]) && 0 !in name
    requires maxlen <= g.spc * 512 || LinksAgree(g, d, beyond, FileChain(Stored(g, d), SlotOf(Stored(g, d), name)))
    ensures var r := Read(g, d, beyond, name, maxlen);
            && r.Some?
            && |r.value| == Min(|Files(Stored(g, d))[name]|, RoundUp(maxlen))
            && (|r.value| > maxlen <==> maxlen % 512 != 0 && maxlen < |Files(Stored(g, d))[name]|)
  {
    hide Stored, WellFormed, ReadClusters, RoundUp, Files, Content, FileChain, LinksAgree, SkippedByRead;
    var v := Stored(g, d);
    var i := SlotOf(v, name);
    SameSearch(v.root, name, 0);
    FileLength(v, i);
    LimitedRead(g, d, beyond, name, maxlen);
    if maxlen <= g.spc * 512 {
      FirstClusterDelivers(g, d, beyond, v, i);
      RoundUpWithin(maxlen, g.spc);
    } else {
      ReadReturnsFile(g, d, beyond, name, SizeOf(v.root[i]));
    }
  }

  lemma {:induction false} RoundUpWithin(maxlen: nat, spc: nat)
    requires maxlen <= spc * 512
    ensures RoundUp(maxlen) <= spc * 512
  {
  }

  /** Where the links agree the bytes delivered are the first of the file. */
  lemma {:induction false} LimitedReadIsPrefix(g: Geometry, d: seq<Sector>, beyond: Sector, name: FatName, maxlen: nat)
    requires g.VolumeIn(|d|) && WellFormed(Stored(g, d)) && name in Files(Stored(g, d))
    requires !SkippedByRead(name[0]) && 0 !in name
    requires LinksAgree(g, d, beyond, FileChain(Stored(g, d), SlotOf(Stored(g, d), name)))
    ensures Read(g, d, beyond, name, maxlen) == Some(Take(Files(Stored(g, d))[name], RoundUp(maxlen)))
  {
    hide Stored, WellFormed, ReadClusters, RoundUp, Files, Content, FileChain, LinksAgree, SkippedByRead;
    var v := Stored(g, d);
    SameSearch(v.root, name, 0);
    FileLength(v, SlotOf(v, name));
    LimitedRead(g, d, beyond, name, maxlen);
    ReadReturnsFile(g, d, beyond, name, SizeForRead(g, d, name));
  }

  // ---------------------------------------------------------------- small files

  /** Reads pass over every slot whose name they take for deleted. */
  lemma {:induction false} SkippedIsNotFound(root: Root, name: FatName, from: nat)
    requires from <= |root| && SkippedByRead(name[0])
    ensures FindForRead(root, name, from).None?
    decreases |root| - from
  {
    if from != |root| && root[from][0] != UNUSED {
      SkippedIsNotFound(root, name, from + 1);
      assert NameOf(root[from])[0] == root[from][0];
    }
  }

  /** The chain of a file of at most one cluster has no links to disagree about. */
  lemma {:induction false} SmallFileAgrees(g: Geometry, d: seq<Sector>, beyond: Sector, name: FatName)
    requires g.VolumeIn(|d|) && WellFormed(Stored(g, d)) && name in Files(Stored(g, d)) && 0 !in name
    requires |Files(Stored(g, d))[name]| <= g.spc * 512
    ensures LinksAgree(g, d, beyond, FileChain(Stored(g, d), SlotOf(Stored(g, d), name)))
  {
    var v := Stored(g, d);
    var i := SlotOf(v, name);
    FileLength(v, i);
    assert |FileChain(v, i)| <= 1 by {
      assert EntryOk(v, i);
      CeilDivIsLeast(SizeOf(v.root[i]), v.ClusterBytes(), 1);
    }
  }

  /** A file that fits in one cluster reads back, up to the limit rounded to whole sectors, exactly when
      reads do not take its name for deleted. */
  lemma {:induction false} SmallFileReadsBack(g: Geometry, d: seq<Sector>, beyond: Sector, name: FatName, maxlen: nat)
    requires g.VolumeIn(|d|) && WellFormed(Stored(g, d))
    requires 0 !in name && name in Files(Stored(g, d)) && |Files(Stored(g, d))[name]| <= g.spc * 512
    ensures Read(g, d, beyond, name, maxlen) == Some(Take(Files(Stored(g, d))[name], RoundUp(maxlen)))
            <==> !SkippedByRead(name[0])
    ensures |Files(Stored(g, d))[name]| <= maxlen ==>
              Take(Files(Stored(g, d))[name], RoundUp(maxlen)) == Files(Stored(g, d))[name]
  {
    hide Files, WellFormed, ReadClusters, LinksAgree, FileChain, Stored;
    if SkippedByRead(name[0]) {
      SkippedIsNotFound(Stored(g, d).root, name, 0);
    } else {
      SmallFileAgrees(g, d, beyond, name);
      LimitedReadIsPrefix(g, d, beyond, name, maxlen);
    }
  }

  /** Writing and then reading is the identity for data of at most one cluster, on any disk that
      stores the volume that the write leaves, exactly for the names that reads do not skip; a limit
      below the length cuts the data off at the end of a sector. */
  lemma {:induction false} WriteThenRead(v: Vol, g: Geometry, d': seq<Sector>, beyond: Sector,
                                         name: FatName, data: seq<byte>, maxlen: nat)
    requires WellFormed(v) && Sound(v) && |data| < 0x1_0000_0000
    requires Storable(name)
    requires Write(v, name, data).ok && |data| <= g.spc * 512
    requires g.VolumeIn(|d'|) && Stored(g, d') == Write(v, name, data).vol
    ensures Read(g, d', beyond, name, maxlen) == Some(Take(data, RoundUp(maxlen))) <==> !SkippedByRead(name[0])
    ensures |data| <= maxlen ==> Take(data, RoundUp(maxlen)) == data
  {
    hide Files, WellFormed, Sound, Write, Read, Stored;
    WriteFiles(v, name, data);
    SmallFileReadsBack(g, d', beyond, name, maxlen);
  }

  /** Reading under a name that no live entry has fails. */
  lemma {:induction false} ReadOfMissing(g: Geometry, d: seq<Sector>, beyond: Sector, name: FatName, maxlen: nat)
    requires g.VolumeIn(|d|) && WellFormed(Stored(g, d)) && !SkippedByRead(name[0])
    ensures Read(g, d, beyond, name, maxlen).None? <==> name !in Files(Stored(g, d))
  {
    SameSearch(Stored(g, d).root, name, 0);
  }

  /** When the value taken for the next cluster reads as an end mark, the read of a longer file
      stops after its first cluster. */
  lemma {:induction false} ShortRead(g: Geometry, d: seq<Sector>, beyond: Sector, name: FatName, maxlen: nat)
    requires g.VolumeIn(|d|) && WellFormed(Stored(g, d)) && !SkippedByRead(name[0])
    requires 0 !in name && name in Files(Stored(g, d)) && g.spc * 512 < |Files(Stored(g, d))[name]| <= maxlen
    requires var v := Stored(g, d);
             NextForRead(g, d, beyond, ClusterOf(v.root[SlotOf(v, name)])) >= 0xFF8
    ensures var r := Read(g, d, beyond, name, maxlen);
            r.Some? && |r.value| == g.spc * 512 < |Files(Stored(g, d))[name]|
  {
    hide Stored, WellFormed, FileChain, Content, ReadClusters, SkippedByRead, NextForRead;
    var v := Stored(g, d);
    SameSearch(v.root, name, 0);
    var i := SlotOf(v, name);
    FileLength(v, i);
    ShortSlot(g, d, beyond, v, i, maxlen);
  }

  lemma {:induction false} ShortSlot(g: Geometry, d: seq<Sector>, beyond: Sector, v: Vol, i: nat, maxlen: nat)
    requires g.VolumeIn(|d|) && WellFormed(v) && v == Stored(g, d) && i < |v.root| && Live(v.root[i])
    requires g.spc * 512 < SizeOf(v.root[i]) <= maxlen && !LongName(v.root[i])
    requires NextForRead(g, d, beyond, ClusterOf(v.root[i])) >= 0xFF8
    ensures |ReadClusters(g, d, beyond, ClusterOf(v.root[i]), SizeOf(v.root[i]), maxlen, [])| == g.spc * 512
  {
    var ch, size := FileChain(v, i), SizeOf(v.root[i]);
    FileEndsInLast(v, g, i);
    WalkInTable(v.fat, ClusterOf(v.root[i]), |v.fat|);
    SpanHead(1, g.spc);
    var got' := ReadHead(g, d, beyond, ch, size, maxlen, []);
    assert ReadClusters(g, d, beyond, NextForRead(g, d, beyond, ch[0]), size, maxlen, got') == got';
  }

  /** The read-back law fails for larger files: on a volume with one reserved sector and two or more
      equal tables, a file stored on clusters 2 and 3 -- the first ones a fresh volume hands out --
      reads short. */
  lemma {:induction false} TwoClustersReadShort(g: Geometry, d: seq<Sector>, beyond: Sector, name: FatName, maxlen: nat)
    requires g.VolumeIn(|d|) && WellFormed(Stored(g, d)) && !SkippedByRead(name[0])
    requires g.fatSize == 1 && g.reserved == 1 && g.numFats >= 2 && Mirrored(g, d)
    requires 0 !in name && name in Files(Stored(g, d)) && |Files(Stored(g, d))[name]| <= maxlen
    requires FileChain(Stored(g, d), SlotOf(Stored(g, d), name)) == [2, 3]
    ensures var r := Read(g, d, beyond, name, maxlen);
            r.Some? && |r.value| == g.spc * 512 < |Files(Stored(g, d))[name]|
  {
    var v := Stored(g, d);
    var i := SlotOf(v, name);
    assert IsChain(v.fat, [2, 3]) by { assert EntryOk(v, i); }
    assert Linked(v.fat, [2, 3], 0) && v.fat[3] >= END_MARK;
    FileLength(v, i);
    assert SizeOf(v.root[i]) > g.spc * 512 by {
      assert EntryOk(v, i);
      CeilDivIsLeast(SizeOf(v.root[i]), v.ClusterBytes(), 1);
    }
    SecondTable(g, d, beyond);
    ShortRead(g, d, beyond, name, maxlen);
  }

  lemma {:induction false} SecondTable(g: Geometry, d: seq<Sector>, beyond: Sector)
    requires g.VolumeIn(|d|) && g.fatSize == 1 && g.reserved == 1 && g.numFats >= 2 && Mirrored(g, d)
    requires Stored(g, d).fat[2] == 3 && Stored(g, d).fat[3] >= END_MARK
    ensures NextForRead(g, d, beyond, 2) >= 0xFF8
  {
    SpanMonotone(2, g.numFats, g.fatSize);
    assert FatCopy(g, d, 0)[0] == d[1] && FatCopy(g, d, 1)[0] == d[2];
    assert FatCopy(g, d, 1) == FatCopy(g, d, 0);
    var low: int, high: int := d[2][4], d[2][5];
    assert Stored(g, d).fat[3] == EntryIn(d[1], 3) == low / 16 + high * 16;
    assert NextForRead(g, d, beyond, 2) == low + high * 0x100;
  }

  /** On an empty volume the first two free clusters are 2 and 3. */
  lemma {:induction false} FirstTwoClusters(v: Vol, data: seq<byte>)
    requires Formatted(v) && |v.fat| >= 4 && v.ClusterBytes() < |data| <= 2 * v.ClusterBytes()
    ensures Taken(v, data) == [2, 3]
  {
    var rest := FreeList(v.fat, 4);
    assert FreeList(v.fat, 3) == [3] + rest;
    assert FreeList(v.fat, 2) == [2] + ([3] + rest);
    CeilDivIsLeast(|data|, v.ClusterBytes(), 1);
    CeilDivIsLeast(|data|, v.ClusterBytes(), 2);
    assert CeilDiv(|data|, v.ClusterBytes()) == 2;
  }

  /** The first file written to an empty volume, if it needs two clusters, is stored on 2 and 3. */
  lemma {:induction false} FirstWriteTakesTwo(v: Vol, name: FatName, data: seq<byte>)
    requires Formatted(v) && WellFormed(v) && Sound(v) && |v.fat| >= 4
    requires v.ClusterBytes() < |data| <= 2 * v.ClusterBytes() && |data| < 0x1_0000_0000
    requires Storable(name) && Write(v, name, data).ok
    ensures var v' := Write(v, name, data).vol;
            && Find(v'.root, name, 0).Some?
            && FileChain(v', Find(v'.root, name, 0).value) == [2, 3]
  {
    hide FileChain, StoreData, Link;
    var v' := Write(v, name, data).vol;
    assert Find(v.root, name, 0).None? && Delete(v, name).vol == v;
    FirstTwoClusters(v, data);
    WriteAdds(v, name, data);
    var k, ch := FindVacant(v.root, 0).value, Taken(v, data);
    AddedChain(v, v', k, NewEntry(name, ch, data), ch);
    WrittenEntry(v, name, data);
    FindUnique(v'.root, name, k);
  }

  /** So write then read is not the identity for larger files: written to an empty volume with one
      reserved sector and equal tables, a file of two clusters never reads back. */
  lemma {:induction false} FreshWriteReadsShort(v: Vol, g: Geometry, d': seq<Sector>, beyond: Sector,
                                                name: FatName, data: seq<byte>, maxlen: nat)
    requires Formatted(v) && WellFormed(v) && Sound(v) && v.spc == g.spc && |v.fat| >= 4
    requires v.ClusterBytes() < |data| <= Min(maxlen, 2 * v.ClusterBytes()) && |data| < 0x1_0000_0000
    requires Storable(name) && !SkippedByRead(name[0]) && Write(v, name, data).ok
    requires g.VolumeIn(|d'|) && Stored(g, d') == Write(v, name, data).vol
    requires g.fatSize == 1 && g.reserved == 1 && g.numFats >= 2 && Mirrored(g, d')
    ensures var r := Read(g, d', beyond, name, maxlen);
            r.Some? && |r.value| == g.spc * 512 < |data|
  {
    hide Files, Stored, Read, Write;
    FirstWriteTakesTwo(v, name, data);
    WriteFiles(v, name, data);
    assert name in Files(Stored(g, d')) && Files(Stored(g, d'))[name] == data;
    TwoClustersReadShort(g, d', beyond, name, maxlen);
  }

  // ---------------------------------------------------------------- a small disk

  /** One sector a cluster, one reserved sector, two tables, sixteen directory entries. */
  const SMALL := Geometry(1, 1, 2, 16, 1)

  /** A boot sector that says so. */
  const BOOT: Sector := Zeros(512)[13 := 1][14 := 1][16 := 2][17 := 16][22 := 1]

  lemma {:induction false} BootBytes()
    ensures BOOT[13] == 1 && BOOT[14] == 1 && BOOT[15] == 0 && BOOT[16] == 2
    ensures BOOT[17] == 16 && BOOT[18] == 0 && BOOT[22] == 1 && BOOT[23] == 0
  {
  }

  lemma {:induction false} BootIsSmall()
    ensures ParseBootSector(BOOT) == SMALL
  {
    hide ParseBootSector;
    BootBytes();
    BootFields(BOOT);
    SameGeometry(ParseBootSector(BOOT), SMALL);
  }

  lemma {:induction false} SmallLayout()
    ensures SMALL.RootStart() == 3 && SMALL.RootSectors() == 1 && SMALL.VolumeIn(343)
    ensures forall k :: 0 <= k <= 2 ==> SMALL.FatStart(k) == 1 + k
  {
    SpanIsProduct(MAX_CLUSTERS - 2, 1);
    assert Span(0, 1) == 0 && Span(1, 1) == 1 && Span(2, 1) == 2;
  }

  lemma {:induction false} ZeroTable(c: nat)
    requires c < MAX_CLUSTERS
    ensures Table(Zeros(512))[c] == 0
  {
    OneSectorTable(c);
  }

  lemma {:induction false} SmallCopies(d: seq<Sector>, k: nat)
    requires |d| == 343 && k < 2
    ensures SMALL.TablesIn(|d|) && FatCopy(SMALL, d, k) == [d[1 + k]]
  {
    hide Span;
    SmallLayout();
  }

  /** A disk with such a boot sector and nothing but zeros behind it holds an empty volume. */
  lemma {:induction false} EmptyDisk(d: seq<Sector>)
    requires |d| == 343 && ParseBootSector(d[0]) == SMALL && forall i :: 1 <= i < |d| ==> d[i] == Zeros(512)
    ensures SMALL.VolumeIn(|d|) && Formatted(Stored(SMALL, d)) && Stored(SMALL, d).root != []
    ensures SMALL.reserved == 1 && SMALL.numFats >= 2 && Mirrored(SMALL, d)
  {
    hide Table, Span, Zeros, ClusterAt, FatCopy;
    SmallLayout();
    var v := Stored(SMALL, d);
    forall c | 2 <= c < |v.fat|
      ensures v.fat[c] == 0
    {
      ZeroTable(c);
    }
    forall k | 0 <= k < SMALL.numFats
      ensures FatCopy(SMALL, d, k) == FatCopy(SMALL, d, 0)
    {
      SmallCopies(d, k);
      SmallCopies(d, 0);
    }
  }
}
