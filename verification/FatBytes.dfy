/** The packed form of the allocation table: 12-bit entries stored three bytes to a pair, as laid
    out in "FAT Data Structure" of the Microsoft FAT32 File System Specification v1.03, read and
    written one sector at a time as `fat_get` and `fat_set` do. */
module FatBytes {
  import opened Bytes
  import opened FatTable

  function ByteOffset(c: nat): nat {
    c + c / 2
  }

  /** Both bytes of entry `c` lie in the sector that the driver loads for it. */
  predicate Fits(c: nat) {
    ByteOffset(c) % 512 + 1 < 512
  }

  /** The entry is decoded from the loaded sector alone exactly when it does not straddle. */
  lemma {:induction false} FitsExactly(c: nat)
    ensures Fits(c) <==> c % 1024 != 341 && c % 1024 != 682
  {
    var q, r := c / 1024, c % 1024;
    assert ByteOffset(c) == 512 * (3 * q) + (r + r / 2) by {
      assert c == 1024 * q + r && c / 2 == 512 * q + r / 2;
    }
    WithinSector(3 * q, r + r / 2);
  }

  lemma {:induction false} WithinSector(q: nat, t: nat)
    requires t < 1536
    ensures (512 * q + t) % 512 == 511 <==> t == 511 || t == 1023 || t == 1535
  {
    var m := if t < 512 then 0 else if t < 1024 then 1 else 2;
    assert 512 * q + t == 512 * (q + m) + (t - 512 * m);
  }

  /** `fat_get`: the 12-bit value held by a pair of bytes. */
  function Unpack(odd: bool, low: byte, high: byte): Entry {
    if odd then low / 16 + high * 16 else low + high % 16 * 0x100
  }

  /** `fat_set`: the pair of bytes that holds `v` and keeps the neighbour's nibble. */
  function Pack(odd: bool, v: Entry, low: byte, high: byte): (byte, byte) {
    if odd then (low % 16 + v % 16 * 16, v / 16)
    else (v % 0x100, high / 16 * 16 + v / 0x100)
  }

  /** Three bytes hold two entries: read as one little-endian number, the even entry is its low half and
      the odd entry its high half. */
  lemma {:induction false} PairIsLittleEndian(a: byte, b: byte, c: byte)
    ensures Unpack(false, a, b) as int + 0x1000 * Unpack(true, b, c) as int
            == a as int + 0x100 * b as int + 0x1_0000 * c as int
  {
  }

  /** The table is stored as a sequence of sectors. */
  ghost predicate InTable(copy: seq<Sector>, c: nat) {
    Fits(c) && ByteOffset(c) / 512 < |copy|
  }

  function EntryAt(copy: seq<Sector>, c: nat): Entry
    requires InTable(copy, c)
  {
    EntryIn(copy[ByteOffset(c) / 512], c)
  }

  function EntryIn(sector: Sector, c: nat): Entry
    requires Fits(c)
  {
    var idx := ByteOffset(c) % 512;
    Unpack(c % 2 == 1, sector[idx], sector[idx + 1])
  }

  /** The sector with the two bytes of entry `c` rewritten. */
  function StoreEntry(sector: Sector, c: nat, v: Entry): Sector
    requires Fits(c)
  {
    var idx := ByteOffset(c) % 512;
    var (low, high) := Pack(c % 2 == 1, v, sector[idx], sector[idx + 1]);
    sector[idx := low][idx + 1 := high]
  }

  function PutEntry(copy: seq<Sector>, c: nat, v: Entry): seq<Sector>
    requires InTable(copy, c)
  {
    var s := ByteOffset(c) / 512;
    copy[s := StoreEntry(copy[s], c, v)]
  }

  /** Writing then reading one pair of bytes; the nibble that belongs to the other entry survives. */
  lemma {:induction false} PackUnpack(odd: bool, v: Entry, low: byte, high: byte)
    ensures var (l, h) := Pack(odd, v, low, high);
            && Unpack(odd, l, h) == v
            && (if odd then l % 16 == low % 16 else h / 16 == high / 16)
  {
  }

  /** The packed table behaves as an array of 12-bit entries: the entry written reads back and
      every other entry keeps its value, although neighbours share a byte. */
  lemma {:induction false} PutThenGet(copy: seq<Sector>, c: nat, v: Entry, x: nat)
    requires InTable(copy, c) && InTable(copy, x)
    ensures EntryAt(PutEntry(copy, c, v), x) == if x == c then v else EntryAt(copy, x)
  {
    var s, idx := ByteOffset(c) / 512, ByteOffset(c) % 512;
    PackUnpack(c % 2 == 1, v, copy[s][idx], copy[s][idx + 1]);
    if x == c + 1 || c == x + 1 {
      Neighbours(if x < c then x else c);
    } else if x != c {
      FarApart(c, x);
    }
  }

  /** Where two neighbouring entries of the table lie. */
  lemma {:induction false} Neighbours(c: nat)
    ensures c % 2 == 0 ==> ByteOffset(c + 1) == ByteOffset(c) + 1
    ensures c % 2 == 1 ==> ByteOffset(c + 1) == ByteOffset(c) + 2
  {
  }

  lemma {:induction false} FarApart(c: nat, x: nat)
    requires x != c && x != c + 1 && c != x + 1
    ensures ByteOffset(x) >= ByteOffset(c) + 2 || ByteOffset(c) >= ByteOffset(x) + 2
  {
  }

  // ---------------------------------------------------------------- a table of one sector

  const MAX_CLUSTERS := 341

  /** `max_clusters`: number of entries the driver assumes, for a table of `fatSize` sectors. */
  function MaxClusters(fatSize: nat): nat {
    fatSize * 512 * 2 / 3 % 0x1_0000
  }

  /** The driver scans at least the entries of the first sector, and no others in a one-sector table. */
  lemma {:induction false} ScansFirstSector(fatSize: nat)
    requires 1 <= fatSize <= 12
    ensures MaxClusters(fatSize) >= MAX_CLUSTERS
    ensures MaxClusters(fatSize) == MAX_CLUSTERS <==> fatSize == 1
  {
    assert fatSize * 512 * 2 / 3 < 0x1_0000;
  }

  lemma {:induction false} SmallOffset(n: nat)
    requires n <= 510
    ensures n % 512 == n && n / 512 == 0
  {
  }

  lemma {:induction false} OneSectorTable(c: nat)
    requires c < MAX_CLUSTERS
    ensures MaxClusters(1) == MAX_CLUSTERS == 341
    ensures Fits(c) && ByteOffset(c) / 512 == 0
  {
    assert c / 2 <= 170;
    SmallOffset(ByteOffset(c));
  }

  /** The logical table held by a one-sector copy. */
  ghost function Table(sector: Sector): (fat: Fat)
    ensures |fat| == MAX_CLUSTERS
  {
    seq(MAX_CLUSTERS, c requires 0 <= c < MAX_CLUSTERS => OneSectorTable(c); EntryIn(sector, c))
  }

  /** The table against the bytes of its sector: every three bytes hold a pair of entries. */
  lemma {:induction false} TablePair(sector: Sector, k: nat)
    requires k < 170
    ensures Table(sector)[2 * k] as int + 0x1000 * Table(sector)[2 * k + 1] as int == LeValue(sector[3 * k..3 * k + 3])
  {
    hide Unpack;
    OneSectorTable(2 * k);
    OneSectorTable(2 * k + 1);
    assert ByteOffset(2 * k) == 3 * k && ByteOffset(2 * k + 1) == 3 * k + 1;
    var a, b, c := sector[3 * k], sector[3 * k + 1], sector[3 * k + 2];
    assert sector[3 * k..3 * k + 3] == [a, b, c];
    assert EntryIn(sector, 2 * k) == Unpack(false, a, b) && EntryIn(sector, 2 * k + 1) == Unpack(true, b, c);
    PairIsLittleEndian(a, b, c);
    LeValue3(a, b, c);
  }

  /** The last entry of the sector stands alone in the last two bytes. */
  lemma {:induction false} TableLast(sector: Sector)
    ensures Table(sector)[340] as int == (sector[510] as int + 0x100 * sector[511] as int) % 0x1000
  {
    OneSectorTable(340);
    var a, b := sector[510], sector[511];
    assert EntryIn(sector, 340) == Unpack(false, a, b);
    assert a as int + 0x100 * b as int == a as int + b as int % 16 * 0x100 + 0x1000 * (b / 16) as int;
  }

  lemma {:induction false} TableStore(sector: Sector, c: nat, v: Entry)
    requires c < MAX_CLUSTERS
    ensures Fits(c)
    ensures Table(StoreEntry(sector, c, v)) == Table(sector)[c := v]
  {
    OneSectorTable(c);
    var stored := StoreEntry(sector, c, v);
    forall x | 0 <= x < MAX_CLUSTERS
      ensures Table(stored)[x] == Table(sector)[c := v][x]
    {
      OneSectorTable(x);
      PutThenGet([sector], c, v, x);
    }
  }
}
