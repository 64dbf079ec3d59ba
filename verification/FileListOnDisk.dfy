/** The file manager's list and the files on the disk: a refresh shows what the volume stores. */
module FileListOnDisk {
  import opened Bytes
  import opened Directory
  import opened Names
  import opened VolumeModel
  import opened FileStore
  import DL = DirectoryListing
  import FL = FileList
  import Driver

  /** A buffer as the string that a `char *` to it stands for. */
  function AsString(s: seq<byte>): (r: CString)
    ensures r <= s && (r == s || (|r| < |s| && s[|r|] == 0))
    decreases |s|
  {
    if s == [] || s[0] == 0 then [] else [s[0]] + AsString(s[1..])
  }

  /** The listing of a directory as the file manager's callback receives it. */
  function Items(listing: seq<(FatName, nat)>): (r: seq<(CString, nat)>)
    ensures |r| == |listing|
    ensures forall i :: 0 <= i < |r| ==> r[i] == (AsString(Decode(listing[i].0)), listing[i].1)
  {
    seq(|listing|, i requires 0 <= i < |listing| => (AsString(Decode(listing[i].0)), listing[i].1))
  }

  lemma {:induction false} ShownAt(listing: seq<(FatName, nat)>, i: nat)
    requires i < |listing|
    ensures DL.Shown(listing)[i] == (Decode(listing[i].0), listing[i].1)
    decreases i
  {
    if i > 0 {
      ShownAt(listing[1..], i - 1);
    }
  }

  /** `file_manager_refresh` on the mounted volume. */
  method Refresh(fm: FL.FileManager, vol: Driver.Volume)
    requires fm.Valid() && vol.Valid()
    modifies fm`fileCount, fm`selectedIndex, fm`scrollOffset, fm.files
    ensures fm.Valid() && FL.SortedUpTo(fm.List(), fm.fileCount)
    ensures multiset(fm.List()) == multiset(FL.Shown(fm.currentPath, Items(DL.Listing(vol.model.root, 0))))
  {
    hide FL.SortedUpTo, FL.Shown, DL.Listing, DL.Shown, Decode;
    var shown := vol.ListFiles();
    ghost var stored := DL.Listing(vol.model.root, 0);
    var listing: seq<(CString, nat)> := [];
    for i := 0 to |shown|
      invariant fm.Valid() && |listing| == i
      invariant forall k :: 0 <= k < i ==> listing[k] == Items(stored)[k]
    {
      ShownAt(stored, i);
      listing := listing + [(AsString(shown[i].0), shown[i].1)];
    }
    assert listing == Items(stored);
    fm.Refresh(listing);
  }

  /** The entry shown for a stored file. */
  ghost function EntryFor(name: FatName, size: nat): FL.Entry {
    FL.Reported((AsString(Decode(name)), size))
  }

  /** `e` stands for a file of the volume. */
  ghost predicate StandsFor(v: Vol, e: FL.Entry, name: FatName)
    requires WellFormed(v)
  {
    && name in Files(v) && !DL.Labelled(v.root[Find(v.root, name, 0).value])
    && e == EntryFor(name, |Files(v)[name]|)
  }

  ghost function EntriesFor(listing: seq<(FatName, nat)>): (r: seq<FL.Entry>)
    ensures |r| == |listing|
    ensures forall i :: 0 <= i < |r| ==> r[i] == EntryFor(listing[i].0, listing[i].1)
  {
    FL.AllReported(Items(listing))
  }

  lemma {:induction false} WholeList(path: CString, listing: seq<(FatName, nat)>)
    requires |listing| < 32
    ensures FL.Shown(path, Items(listing)) == (if path == [0x2F] then [] else [FL.PARENT]) + EntriesFor(listing)
  {
    hide FL.Reported, Decode;
  }

  /** When all lines fit, the list holds the way up, unless at the root, an entry for every file, and nothing
      else. */
  lemma {:induction false} ListIsFiles(v: Vol, path: CString, e: FL.Entry)
    requires WellFormed(v) && |DL.Listing(v.root, 0)| < 32
    ensures e in FL.Shown(path, Items(DL.Listing(v.root, 0))) <==>
              (path != [0x2F] && e == FL.PARENT) || exists name :: StandsFor(v, e, name)
  {
    hide DL.Listing, WellFormed, Decode, FL.Reported, Files, DL.Labelled, FL.AllReported, FL.Shown, Items, EntryFor;
    var listing := DL.Listing(v.root, 0);
    var items := EntriesFor(listing);
    WholeList(path, listing);
    if i :| 0 <= i < |items| && items[i] == e {
      var name, size := listing[i].0, listing[i].1;
      assert (name, size) in listing;
      DL.ListingIsFiles(v, name, size);
      assert StandsFor(v, e, name);
    }
    if name :| StandsFor(v, e, name) {
      DL.ListingIsFiles(v, name, |Files(v)[name]|);
      var i :| 0 <= i < |listing| && listing[i] == (name, |Files(v)[name]|);
      assert items[i] == e;
    }
  }
}
