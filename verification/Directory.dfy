/** The fixed root directory: 32-byte slots as in "FAT Directory Structure" of the Microsoft FAT32
    File System Specification v1.03, searched and filled as `find_dir_entry` and
    `create_dir_entry` do. */
module Directory {
  import opened Bytes

  const UNUSED := 0x00   // this slot and all later ones are unused
  const DELETED := 0xE5

  type Slot = s: seq<byte> | |s| == 32 witness Zeros(32)
  type FatName = s: seq<byte> | |s| == 11 witness Zeros(11)
  type Root = seq<Slot>

  datatype Option<+T> = None | Some(value: T)

  predicate Vacant(s: Slot) {
    s[0] == UNUSED || s[0] == DELETED
  }

  predicate Live(s: Slot) {
    !Vacant(s)
  }

  function NameOf(s: Slot): FatName {
    s[..11]
  }

  function ClusterOf(s: Slot): nat {
    LeValue(s[26..28])
  }

  function SizeOf(s: Slot): nat {
    LeValue(s[28..32])
  }

  /** A slot that holds part of a long file name, as other systems write them: attribute 0x0F, no cluster,
      and a zero byte among the first eleven, so that no typed name finds it. */
  predicate LongName(s: Slot) {
    s[11] == 0x0F && ClusterOf(s) == 0 && 0 in NameOf(s)
  }

  function NewSlot(name: FatName, cluster: nat, size: nat): Slot
    requires cluster < 0x1_0000 && size < 0x1_0000_0000
  {
    name + [0x20] + Zeros(14) + LeBytes(cluster, 2) + LeBytes(size, 4)
  }

  /** The fields of a new entry read back; it is live unless its name starts with the deletion mark. */
  lemma {:induction false} NewSlotFields(name: FatName, cluster: nat, size: nat)
    requires cluster < 0x1_0000 && size < 0x1_0000_0000
    ensures var s := NewSlot(name, cluster, size);
            && NameOf(s) == name && ClusterOf(s) == cluster && SizeOf(s) == size
            && s[0] == name[0]
  {
    var s := NewSlot(name, cluster, size);
    assert Power256(4) == 0x100 * Power256(3);
    assert s[26..28] == LeBytes(cluster, 2) && s[28..32] == LeBytes(size, 4);
    LeRoundTrip(cluster, 2);
    LeRoundTrip(size, 4);
  }

  /** The bytes of a new entry: name, archive attribute, zeros, and the two fields little-endian. */
  lemma {:induction false} NewSlotBytes(name: FatName, cluster: nat, size: nat)
    requires cluster < 0x1_0000 && size < 0x1_0000_0000
    ensures var s := NewSlot(name, cluster, size);
            && s[..11] == name && s[11] == 0x20 && (forall j :: 12 <= j < 26 ==> s[j] == 0)
            && s[26] as int + 0x100 * s[27] as int == cluster
            && s[28] as int + 0x100 * s[29] as int + 0x1_0000 * s[30] as int + 0x100_0000 * s[31] as int == size
  {
    var s := NewSlot(name, cluster, size);
    NewSlotFields(name, cluster, size);
    SlotFields(s);
    assert s[26..28] == LeBytes(cluster, 2) && s[28..32] == LeBytes(size, 4);
  }

  /** What the directory code reads in a slot: eleven bytes of name, a first byte that marks unused and
      deleted slots, cluster and size little-endian. */
  lemma {:induction false} SlotFields(s: Slot)
    ensures NameOf(s) == s[..11] && (Live(s) <==> s[0] != 0x00 && s[0] != 0xE5)
    ensures ClusterOf(s) == s[26] as int + 0x100 * s[27] as int
    ensures SizeOf(s) == s[28] as int + 0x100 * s[29] as int + 0x1_0000 * s[30] as int + 0x100_0000 * s[31] as int
  {
    assert s[26..28] == [s[26], s[27]] && s[28..32] == [s[28], s[29], s[30], s[31]];
    LeValue2(s[26], s[27]);
    LeValue4(s[28], s[29], s[30], s[31]);
  }

  /** Slot scan of `find_dir_entry`, from slot `from` on. */
  function Find(root: Root, name: FatName, from: nat): (r: Option<nat>)
    requires from <= |root|
    ensures r.Some? ==> from <= r.value < |root| && Live(root[r.value]) && NameOf(root[r.value]) == name
    decreases |root| - from
  {
    if from == |root| || root[from][0] == UNUSED then None
    else if root[from][0] != DELETED && NameOf(root[from]) == name then Some(from)
    else Find(root, name, from + 1)
  }

  /** Slot scan of `create_dir_entry`. */
  function FindVacant(root: Root, from: nat): (r: Option<nat>)
    requires from <= |root|
    ensures r.Some? ==> from <= r.value < |root| && Vacant(root[r.value])
    ensures r.Some? ==> forall i :: from <= i < r.value ==> Live(root[i])
    ensures r.None? ==> forall i :: from <= i < |root| ==> Live(root[i])
    decreases |root| - from
  {
    if from == |root| then None
    else if Vacant(root[from]) then Some(from)
    else FindVacant(root, from + 1)
  }

  ghost predicate UnusedStays(root: Root, i: nat, j: nat) {
    i < |root| && j < |root| && (root[i][0] == UNUSED ==> root[j][0] == UNUSED)
  }

  /** The end-of-directory marker is meaningful: nothing follows an unused slot. */
  ghost predicate EndMarked(root: Root) {
    forall i, j :: 0 <= i < j < |root| ==> UnusedStays(root, i, j)
  }

  ghost predicate NamesDiffer(root: Root, i: nat, j: nat) {
    i < |root| && j < |root| && (Live(root[i]) && Live(root[j]) ==> NameOf(root[i]) != NameOf(root[j]))
  }

  ghost predicate UniqueNames(root: Root) {
    forall i, j :: 0 <= i < j < |root| ==> NamesDiffer(root, i, j)
  }

  /** While the marker is meaningful the early stop loses nothing: the search fails exactly when
      no live entry has the name. */
  lemma {:induction false} FindComplete(root: Root, name: FatName, from: nat)
    requires EndMarked(root) && from <= |root|
    ensures Find(root, name, from).None? <==>
              forall i :: from <= i < |root| && Live(root[i]) ==> NameOf(root[i]) != name
    decreases |root| - from
  {
    if from != |root| {
      if root[from][0] == UNUSED {
        forall i | from < i < |root|
          ensures root[i][0] == UNUSED
        {
          assert UnusedStays(root, from, i);
        }
      } else if root[from][0] == DELETED || NameOf(root[from]) != name {
        FindComplete(root, name, from + 1);
      }
    }
  }

  /** With unique names, the entry found is the only one. */
  lemma {:induction false} FindUnique(root: Root, name: FatName, i: nat)
    requires EndMarked(root) && UniqueNames(root)
    requires i < |root| && Live(root[i]) && NameOf(root[i]) == name
    ensures Find(root, name, 0) == Some(i)
  {
    FindComplete(root, name, 0);
    var k := Find(root, name, 0).value;
    assert k < i ==> NamesDiffer(root, k, i);
    assert i < k ==> NamesDiffer(root, i, k);
  }

  /** A slot is replaced by one that is not unused, where no unused slot came before; a new name
      is not the name of another live slot. */
  lemma {:induction false} ReplacedSlot(root: Root, k: nat, s: Slot)
    requires EndMarked(root) && UniqueNames(root) && k < |root| && s[0] != UNUSED
    requires forall i :: 0 <= i < k ==> root[i][0] != UNUSED
    requires Live(s) ==> forall i :: 0 <= i < |root| && i != k && Live(root[i]) ==> NameOf(root[i]) != NameOf(s)
    ensures EndMarked(root[k := s]) && UniqueNames(root[k := s])
  {
    var root' := root[k := s];
    forall i, j | 0 <= i < j < |root|
      ensures UnusedStays(root', i, j) && NamesDiffer(root', i, j)
    {
      assert UnusedStays(root, i, j) && NamesDiffer(root, i, j);
    }
  }

  lemma {:induction false} BeforeInUse(root: Root, k: nat)
    requires EndMarked(root) && k < |root| && root[k][0] != UNUSED
    ensures forall i :: 0 <= i < k ==> root[i][0] != UNUSED
  {
    forall i | 0 <= i < k
      ensures root[i][0] != UNUSED
    {
      assert UnusedStays(root, i, k);
    }
  }

  /** Filling the first vacant slot keeps the marker meaningful, and names unique if it is new. */
  lemma {:induction false} FilledRoot(root: Root, k: nat, s: Slot)
    requires EndMarked(root) && UniqueNames(root)
    requires FindVacant(root, 0) == Some(k)
    requires s[0] != UNUSED && (Live(s) ==> Find(root, NameOf(s), 0).None?)
    ensures EndMarked(root[k := s]) && UniqueNames(root[k := s])
  {
    FindComplete(root, NameOf(s), 0);
    ReplacedSlot(root, k, s);
  }

  /** Marking an entry deleted keeps both, and no entry of its name is left. */
  lemma {:induction false} DeletedRoot(root: Root, k: nat)
    requires EndMarked(root) && UniqueNames(root) && k < |root| && Live(root[k])
    ensures var root' := root[k := root[k][0 := DELETED]];
            EndMarked(root') && UniqueNames(root') && Find(root', NameOf(root[k]), 0).None?
  {
    BeforeInUse(root, k);
    var root' := root[k := root[k][0 := DELETED]];
    ReplacedSlot(root, k, root'[k]);
    FindComplete(root', NameOf(root[k]), 0);
    forall i | 0 <= i < |root| && Live(root'[i])
      ensures NameOf(root'[i]) != NameOf(root[k])
    {
      assert i < k ==> NamesDiffer(root, i, k);
      assert k < i ==> NamesDiffer(root, k, i);
    }
  }

  /** The slots of a directory sector by sector. */
  function SlotIn(sector: Sector, k: nat): Slot
    requires k < 16
  {
    sector[32 * k..32 * k + 32]
  }

  function PutSlot(sector: Sector, k: nat, s: Slot): Sector
    requires k < 16
  {
    sector[..32 * k] + s + sector[32 * k + 32..]
  }

  lemma {:induction false} PutThenGetSlot(sector: Sector, k: nat, s: Slot, j: nat)
    requires k < 16 && j < 16
    ensures SlotIn(PutSlot(sector, k, s), j) == if j == k then s else SlotIn(sector, j)
  {
    var stored := PutSlot(sector, k, s);
    var want := if j == k then s else SlotIn(sector, j);
    assert 32 * j + 32 <= 32 * k || j == k || 32 * k + 32 <= 32 * j;
    forall i | 0 <= i < 32
      ensures SlotIn(stored, j)[i] == want[i]
    {
      assert SlotIn(stored, j)[i] == stored[32 * j + i];
    }
  }
}
