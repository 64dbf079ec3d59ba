/** What `fs_ls` reports, against the files that the volume stores. */
module DirectoryListing {
  import opened Bytes
  import opened FatTable
  import opened Directory
  import opened Names
  import opened VolumeModel
  import opened VolumeLaws
  import opened FileStore
  import opened VolumeRuns

  /** Attribute bit 0x08: the slot holds the volume label or part of a long name. */
  predicate Labelled(s: Slot) {
    s[11] / 8 % 2 == 1
  }

  /** The bit among the others of the attribute byte. */
  lemma {:induction false} LabelBit(s: Slot, high: nat, low: nat)
    requires high < 16 && low < 8
    ensures s[11] == 16 * high + 8 + low ==> Labelled(s)
    ensures s[11] == 16 * high + low ==> !Labelled(s)
  {
  }

  /** Stored names and sizes from slot `from` on, in directory order. */
  function Listing(root: Root, from: nat): (r: seq<(FatName, nat)>)
    requires from <= |root|
    decreases |root| - from
  {
    if from == |root| || root[from][0] == UNUSED then []
    else if root[from][0] == DELETED || Labelled(root[from]) then Listing(root, from + 1)
    else [(NameOf(root[from]), SizeOf(root[from]))] + Listing(root, from + 1)
  }

  /** The calls made to the listing callback. */
  function Shown(listing: seq<(FatName, nat)>): (r: seq<(seq<byte>, nat)>)
    ensures |r| == |listing|
  {
    if listing == [] then [] else [(Decode(listing[0].0), listing[0].1)] + Shown(listing[1..])
  }

  /** Slot `i` is listed as `name` and `size`. */
  ghost predicate IsListed(root: Root, name: FatName, size: nat, i: nat) {
    i < |root| && Live(root[i]) && !Labelled(root[i]) && NameOf(root[i]) == name && SizeOf(root[i]) == size
  }

  /** Every live slot that is not a label is listed, and nothing else. */
  lemma {:induction false} ListingIsLive(root: Root, from: nat, name: FatName, size: nat)
    requires EndMarked(root) && from <= |root|
    ensures (name, size) in Listing(root, from) <==> exists i :: from <= i && IsListed(root, name, size, i)
    decreases |root| - from
  {
    if from < |root| {
      if root[from][0] == UNUSED {
        forall i | from <= i < |root|
          ensures !Live(root[i])
        {
          assert from < i ==> UnusedStays(root, from, i);
        }
      } else {
        ListingIsLive(root, from + 1, name, size);
        if Live(root[from]) && !Labelled(root[from]) {
          assert IsListed(root, NameOf(root[from]), SizeOf(root[from]), from);
        }
      }
    }
  }

  /** A listed file is as long as its entry says. */
  lemma {:induction false} ListedLength(v: Vol, i: nat)
    requires WellFormed(v) && i < |v.root| && Live(v.root[i]) && !Labelled(v.root[i])
    ensures |Content(v, i)| == SizeOf(v.root[i])
  {
    ContentLength(v, i);
  }

  /** On a well-formed volume the listing is the files, with their lengths; only labels and long names are
      left out. */
  lemma {:induction false} ListingIsFiles(v: Vol, name: FatName, size: nat)
    requires WellFormed(v)
    ensures (name, size) in Listing(v.root, 0) <==>
              && name in Files(v) && |Files(v)[name]| == size
              && !Labelled(v.root[Find(v.root, name, 0).value])
  {
    hide Files, Content, Labelled, Listing, SizeOf;
    ListingIsLive(v.root, 0, name, size);
    if i :| 0 <= i && IsListed(v.root, name, size, i) {
      FindUnique(v.root, name, i);
      ListedLength(v, i);
    }
    if name in Files(v) {
      var i := Find(v.root, name, 0).value;
      if !Labelled(v.root[i]) {
        ListedLength(v, i);
        assert SizeOf(v.root[i]) == size ==> IsListed(v.root, name, size, i);
      }
    }
  }

  /** No name is listed twice. */
  lemma {:induction false} ListedOnce(root: Root, from: nat, a: nat, b: nat)
    requires EndMarked(root) && UniqueNames(root) && from <= |root|
    requires a < b < |Listing(root, from)|
    ensures Listing(root, from)[a].0 != Listing(root, from)[b].0
    decreases |root| - from
  {
    if root[from][0] == DELETED || Labelled(root[from]) {
      ListedOnce(root, from + 1, a, b);
    } else if a > 0 {
      ListedOnce(root, from + 1, a - 1, b - 1);
    } else {
      var item := Listing(root, from + 1)[b - 1];
      assert (item.0, item.1) in Listing(root, from + 1);
      ListingIsLive(root, from + 1, item.0, item.1);
      var i :| from + 1 <= i && IsListed(root, item.0, item.1, i);
      assert NamesDiffer(root, from, i);
    }
  }

  lemma {:induction false} NewSlotIsListed(root: Root, k: nat, name: FatName, cluster: nat, size: nat)
    requires k < |root| && cluster < 0x1_0000 && size < 0x1_0000_0000
    requires name[0] != UNUSED && name[0] != DELETED
    ensures IsListed(root[k := NewSlot(name, cluster, size)], name, size, k)
  {
    NewSlotFields(name, cluster, size);
    assert NewSlot(name, cluster, size)[11] == 0x20;
  }

  /** What a successful write stored is listed, under its name and with its length. */
  lemma {:induction false} WrittenIsListed(v: Vol, name: FatName, data: seq<byte>)
    requires WellFormed(v) && Sound(v) && |data| < 0x1_0000_0000
    requires name[0] != UNUSED && name[0] != DELETED && Write(v, name, data).ok
    ensures (name, |data|) in Listing(Write(v, name, data).vol.root, 0)
  {
    hide Files, NewSlot, WellFormed;
    WriteFiles(v, name, data);
    var d, root' := Delete(v, name).vol, Write(v, name, data).vol.root;
    var ch, k := Taken(d, data), FindVacant(d.root, 0).value;
    WriteAdds(d, name, data);
    NewSlotIsListed(d.root, k, name, if ch == [] then 0 else ch[0], |data|);
    assert IsListed(root', name, |data|, k);
    assert EndMarked(root') by { WellFormedMarksEnd(Write(v, name, data).vol); }
    ListingIsLive(root', 0, name, |data|);
  }

  lemma {:induction false} WellFormedMarksEnd(v: Vol)
    requires WellFormed(v)
    ensures EndMarked(v.root)
  {
  }
}
