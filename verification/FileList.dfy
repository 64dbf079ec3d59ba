/** The file manager's list: byte-string comparison and the directories-first exchange sort. */
module FileList {
  import opened Bytes
  import opened Names

  // ---------------------------------------------------------------- comparison

  /** Dictionary order on unsigned bytes; a proper prefix comes first. */
  predicate Precedes(a: seq<byte>, b: seq<byte>)
    decreases |b|
  {
    b != [] && (a == [] || a[0] < b[0] || (a[0] == b[0] && Precedes(a[1..], b[1..])))
  }

  lemma {:induction false} PrecedesIsTotal(a: seq<byte>, b: seq<byte>)
    ensures Precedes(a, b) || Precedes(b, a) || a == b
    ensures !(Precedes(a, b) && Precedes(b, a)) && !Precedes(a, a)
    decreases |a|
  {
    if a != [] {
      PrecedesIsTotal(a[1..], if b == [] then [] else b[1..]);
      if b != [] && a[0] == b[0] {
        assert a == [a[0]] + a[1..] && b == [b[0]] + b[1..];
      }
    }
  }

  lemma {:induction false} PrecedesIsTransitive(a: seq<byte>, b: seq<byte>, c: seq<byte>)
    requires Precedes(a, b) && Precedes(b, c)
    ensures Precedes(a, c)
    decreases |a|
  {
    if a != [] && a[0] == b[0] == c[0] {
      PrecedesIsTransitive(a[1..], b[1..], c[1..]);
    }
  }

  lemma {:induction false} SkipEqual(a: seq<byte>, b: seq<byte>, k: nat)
    requires k <= |a| && k <= |b| && a[..k] == b[..k]
    ensures Precedes(a, b) <==> Precedes(a[k..], b[k..])
    decreases k
  {
    if k == 0 {
      assert a[0..] == a && b[0..] == b;
    } else {
      assert a[0] == a[..k][0] == b[..k][0] == b[0];
      assert a[1..][..k - 1] == a[..k][1..] == b[1..][..k - 1];
      SkipEqual(a[1..], b[1..], k - 1);
      assert a[1..][k - 1..] == a[k..] && b[1..][k - 1..] == b[k..];
    }
  }

  /** The first `k` bytes agree, and behind them `a` ends or has the smaller byte. */
  ghost predicate SmallerAt(a: seq<byte>, b: seq<byte>, k: nat) {
    k <= |a| && k < |b| && a[..k] == b[..k] && (k == |a| || a[k] < b[k])
  }

  /** The order is decided at the first place where the strings differ. */
  lemma {:induction false} PrecedesMeans(a: seq<byte>, b: seq<byte>)
    ensures Precedes(a, b) <==> exists k: nat :: SmallerAt(a, b, k)
    decreases |a|
  {
    if k: nat :| SmallerAt(a, b, k) {
      SkipEqual(a, b, k);
    }
    if Precedes(a, b) {
      if a == [] || a[0] < b[0] {
        assert SmallerAt(a, b, 0);
      } else {
        PrecedesMeans(a[1..], b[1..]);
        var k: nat :| SmallerAt(a[1..], b[1..], k);
        assert a[..k + 1] == [a[0]] + a[1..][..k] && b[..k + 1] == [b[0]] + b[1..][..k];
        assert SmallerAt(a, b, k + 1);
      }
    }
  }

  /** What reading `s[i]` of a `char *` finds: the terminator stands behind the last byte. */
  function At(s: CString, i: nat): (c: byte)
    requires i <= |s|
    ensures c == 0 <==> i == |s|
  {
    if i < |s| then s[i] else 0
  }

  /** The strings agree up to `k`, and there they differ or both end. */
  ghost predicate FirstDifference(a: seq<byte>, b: seq<byte>, k: nat) {
    k <= |a| && k <= |b| && a[..k] == b[..k] && (k < |a| && k < |b| ==> a[k] != b[k])
  }

  function ByteAt(s: seq<byte>, k: nat): int {
    if k < |s| then s[k] else 0
  }

  /** `strcmp`: its sign is the dictionary order, and it is zero on equal strings only. */
  method Strcmp(a: CString, b: CString) returns (r: int)
    ensures r < 0 <==> Precedes(a, b)
    ensures r > 0 <==> Precedes(b, a)
    ensures r == 0 <==> a == b
    ensures exists k: nat :: FirstDifference(a, b, k) && r == ByteAt(a, k) - ByteAt(b, k)
  {
    var i := 0;
    while At(a, i) != 0 && At(a, i) == At(b, i)
      invariant i <= |a| && i <= |b| && a[..i] == b[..i]
      decreases |a| - i
    {
      i := i + 1;
    }
    r := At(a, i) - At(b, i);
    SkipEqual(a, b, i);
    SkipEqual(b, a, i);
    PrecedesIsTotal(a, b);
    assert i == |a| == |b| ==> a == a[..i] && b == b[..i];
    assert FirstDifference(a, b, i);
  }

  // ---------------------------------------------------------------- entries

  datatype Entry = Entry(name: CString, size: nat, isDirectory: bool)

  /** `e` may stand before `f`. */
  predicate Ahead(e: Entry, f: Entry) {
    if e.isDirectory != f.isDirectory then e.isDirectory else !Precedes(f.name, e.name)
  }

  lemma {:induction false} AheadIsPreorder(e: Entry, f: Entry, g: Entry)
    ensures Ahead(e, f) || Ahead(f, e)
    ensures Ahead(e, f) && Ahead(f, g) ==> Ahead(e, g)
  {
    PrecedesIsTotal(e.name, f.name);
    PrecedesIsTotal(f.name, g.name);
    if Precedes(g.name, e.name) && !Precedes(f.name, e.name) && f.name != e.name {
      PrecedesIsTransitive(g.name, e.name, f.name);
    }
  }

  /** Nothing behind place `k` and before place `n` has to stand before it. */
  predicate Least(s: seq<Entry>, k: nat, n: nat)
    requires k < |s| && n <= |s|
  {
    forall m :: k < m < n ==> Ahead(s[k], s[m])
  }

  predicate SortedUpTo(s: seq<Entry>, n: nat)
    requires n <= |s|
  {
    forall k :: 0 <= k < n ==> Least(s, k, |s|)
  }

  /** In a sorted list the directories are in front, and in each group a name is smaller than the next at the
      first byte where they differ. */
  lemma {:induction false} SortedMeans(s: seq<Entry>, i: nat, j: nat)
    requires SortedUpTo(s, |s|) && i < j < |s|
    ensures s[j].isDirectory ==> s[i].isDirectory
    ensures s[i].isDirectory == s[j].isDirectory ==>
              s[i].name == s[j].name || exists k: nat :: SmallerAt(s[i].name, s[j].name, k)
  {
    PrecedesMeans(s[i].name, s[j].name);
    assert Least(s, i, |s|);
    assert Ahead(s[i], s[j]);
    PrecedesIsTotal(s[i].name, s[j].name);
  }

  function Swapped(s: seq<Entry>, i: nat, j: nat): (r: seq<Entry>)
    requires i < j < |s|
    ensures |r| == |s|
    ensures forall m :: 0 <= m < |s| ==> r[m] == if m == i then s[j] else if m == j then s[i] else s[m]
    ensures multiset(r) == multiset(s)
  {
    assert s == s[..i] + [s[i]] + s[i + 1..j] + [s[j]] + s[j + 1..];
    assert s[i := s[j]][j := s[i]] == s[..i] + [s[j]] + s[i + 1..j] + [s[i]] + s[j + 1..];
    s[i := s[j]][j := s[i]]
  }

  /** A swap behind sorted places leaves them sorted. */
  lemma {:induction false} SwapBehind(s: seq<Entry>, i: nat, j: nat)
    requires i < j < |s| && SortedUpTo(s, i)
    ensures SortedUpTo(Swapped(s, i, j), i)
  {
    hide Ahead;
    var r := Swapped(s, i, j);
    forall k | 0 <= k < i
      ensures Least(r, k, |r|)
    {
      assert Least(s, k, |s|);
      forall m | k < m < |r|
        ensures Ahead(r[k], r[m])
      {
        assert Ahead(s[k], s[m]) && Ahead(s[k], s[i]) && Ahead(s[k], s[j]);
      }
    }
  }

  /** One step of the inner loop: place `i` gets the better of places `i` and `j`. */
  lemma {:induction false} SwapImproves(s: seq<Entry>, i: nat, j: nat)
    requires i < j < |s| && Least(s, i, j) && !Ahead(s[i], s[j])
    ensures Least(Swapped(s, i, j), i, j + 1)
  {
    hide Ahead;
    var r := Swapped(s, i, j);
    forall m | i < m < j + 1
      ensures Ahead(r[i], r[m])
    {
      AheadIsPreorder(s[j], s[i], s[m]);
      assert m < j ==> Ahead(s[i], s[m]);
    }
  }

  lemma {:induction false} LeastOfNone(s: seq<Entry>, k: nat)
    requires k < |s|
    ensures Least(s, k, k + 1)
  {
  }

  lemma {:induction false} LeastOfMore(s: seq<Entry>, k: nat, n: nat)
    requires k < n < |s| && Least(s, k, n) && Ahead(s[k], s[n])
    ensures Least(s, k, n + 1)
  {
  }

  /** An entry of the list, built from what `fs_ls` reports; the name is cut to 12 characters. */
  function Reported(item: (CString, nat)): (e: Entry)
    ensures e.isDirectory <==> item.1 == 0 || item.0 == [0x2E] || item.0 == [0x2E, 0x2E]
    ensures e.size == item.1
    ensures e.name <= item.0 && (e.name == item.0 || |e.name| == 12)
  {
    var name: CString := if |item.0| <= 12 then item.0 else item.0[..12];
    Entry(name, item.1, item.0 == [0x2E] || item.0 == [0x2E, 0x2E] || item.1 == 0)
  }

  function AllReported(listing: seq<(CString, nat)>): (r: seq<Entry>)
    ensures |r| == |listing|
    ensures forall i :: 0 <= i < |r| ==> r[i] == Reported(listing[i])
  {
    seq(|listing|, i requires 0 <= i < |listing| => Reported(listing[i]))
  }

  const PARENT := Entry([0x2E, 0x2E], 0, true)

  /** What is on show: the way up unless this is the root, and the reported files, 32 lines in all. */
  function Shown(path: CString, listing: seq<(CString, nat)>): (r: seq<Entry>)
    ensures |r| <= 32
  {
    var all := (if path == [0x2F] then [] else [PARENT]) + AllReported(listing);
    all[..Min(32, |all|)]
  }

  /** The way up comes first, a directory called ".."; at the root there is none. */
  lemma {:induction false} WayUp(path: CString, listing: seq<(CString, nat)>)
    ensures path != [0x2F] ==> Shown(path, listing) != [] && Shown(path, listing)[0] == Entry([0x2E, 0x2E], 0, true)
    ensures path == [0x2F] && |listing| <= 32 ==> Shown(path, listing) == AllReported(listing)
  {
    hide Reported;
  }

  /** The list after `i` reported files. */
  ghost function Filled(first: seq<Entry>, listing: seq<(CString, nat)>, i: nat): (r: seq<Entry>)
    requires i <= |listing|
  {
    (first + AllReported(listing[..i]))[..Min(32, |first| + i)]
  }

  lemma {:induction false} FilledNext(first: seq<Entry>, listing: seq<(CString, nat)>, i: nat)
    requires i < |listing|
    ensures Filled(first, listing, i + 1)
            == if |Filled(first, listing, i)| >= 32 then Filled(first, listing, i)
               else Filled(first, listing, i) + [Reported(listing[i])]
  {
    hide Reported;
    assert AllReported(listing[..i + 1]) == AllReported(listing[..i]) + [Reported(listing[i])];
  }

  lemma {:induction false} FilledIsShown(first: seq<Entry>, path: CString, listing: seq<(CString, nat)>)
    requires first == if path == [0x2F] then [] else [PARENT]
    ensures Filled(first, listing, 0) == first && Filled(first, listing, |listing|) == Shown(path, listing)
  {
    assert listing[..|listing|] == listing;
  }

  // ---------------------------------------------------------------- the manager

  class FileManager {
    const files: array<Entry>
    var currentPath: CString
    var fileCount: nat
    var selectedIndex: nat
    var scrollOffset: nat

    ghost predicate Valid()
      reads this
    {
      files.Length == 32 && fileCount <= 32
    }

    ghost function List(): seq<Entry>
      requires Valid()
      reads this, files
    {
      files[..fileCount]
    }

    constructor (path: CString)
      ensures Valid() && fresh(files) && currentPath == path && List() == []
    {
      files := new Entry[32](i => Entry([], 0, false));
      currentPath, fileCount, selectedIndex, scrollOffset := path, 0, 0, 0;
    }

    /** `file_manager_ls_callback`. */
    method Report(name: CString, size: nat)
      requires Valid()
      modifies this`fileCount, files
      ensures Valid()
      ensures List() == if |old(List())| >= 32 then old(List()) else old(List()) + [Reported((name, size))]
    {
      hide Precedes;
      if fileCount >= 32 {
        return;
      }
      var isDot := Strcmp(name, [0x2E]);
      var isParent := Strcmp(name, [0x2E, 0x2E]);
      var cut: CString := if |name| <= 12 then name else name[..12];
      files[fileCount] := Entry(cut, size, isDot == 0 || isParent == 0 || size == 0);
      fileCount := fileCount + 1;
    }

    /** `file_manager_refresh`; `listing` is what `fs_ls` reports. */
    method Refresh(listing: seq<(CString, nat)>)
      requires Valid()
      modifies this`fileCount, this`selectedIndex, this`scrollOffset, files
      ensures Valid() && selectedIndex == 0 && scrollOffset == 0
      ensures multiset(List()) == multiset(Shown(currentPath, listing))
      ensures SortedUpTo(List(), fileCount)
    {
      hide Reported, SortedUpTo, Filled, Shown;
      fileCount, selectedIndex, scrollOffset := 0, 0, 0;
      var atRoot := Strcmp(currentPath, [0x2F]);
      if atRoot != 0 {
        files[0] := PARENT;
        fileCount := 1;
      }
      ghost var first := List();
      FilledIsShown(first, currentPath, listing);
      for i := 0 to |listing|
        modifies this`fileCount, files
        invariant Valid() && List() == Filled(first, listing, i)
      {
        FilledNext(first, listing, i);
        Report(listing[i].0, listing[i].1);
      }
      Sort();
    }

    /** The exchange sort of `file_manager_refresh`. */
    method Sort()
      requires Valid()
      modifies files
      ensures Valid()
      ensures multiset(List()) == multiset(old(List())) && SortedUpTo(List(), fileCount)
    {
      hide SortedUpTo, Ahead;
      var i := 0;
      SortedStart(List());
      while i < fileCount - 1
        invariant i <= fileCount && multiset(List()) == multiset(old(List())) && SortedUpTo(List(), i)
      {
        Select(i);
        SortedStep(List(), i);
        i := i + 1;
      }
      SortedEnd(List(), i);
    }

    /** The inner loop for one `i`. */
    method Select(i: nat)
      requires Valid() && i < fileCount && SortedUpTo(List(), i)
      modifies files
      ensures Valid() && multiset(List()) == multiset(old(List()))
      ensures SortedUpTo(List(), i) && Least(List(), i, fileCount)
    {
      hide SortedUpTo, Least, Ahead, Swapped;
      var j := i + 1;
      LeastOfNone(List(), i);
      while j < fileCount
        invariant i < j <= fileCount && multiset(List()) == multiset(old(List()))
        invariant SortedUpTo(List(), i) && Least(List(), i, j)
      {
        ghost var s := List();
        var swap := MustSwap(i, j);
        if swap {
          SwapBehind(s, i, j);
          SwapImproves(s, i, j);
          SwapEntries(i, j);
        } else {
          LeastOfMore(s, i, j);
        }
        j := j + 1;
      }
    }

    method SwapEntries(i: nat, j: nat)
      requires Valid() && i < j < fileCount
      modifies files
      ensures Valid() && List() == Swapped(old(List()), i, j)
    {
      hide Ahead;
      files[i], files[j] := files[j], files[i];
    }

    /** The three-way test inside the loops. */
    method MustSwap(i: nat, j: nat) returns (swap: bool)
      requires Valid() && i < j < fileCount
      ensures swap <==> !Ahead(files[i], files[j])
    {
      hide Precedes;
      swap := false;
      if files[i].isDirectory && !files[j].isDirectory {
        return;
      } else if !files[i].isDirectory && files[j].isDirectory {
        swap := true;
      } else {
        var order := Strcmp(files[i].name, files[j].name);
        if order > 0 {
          swap := true;
        }
      }
    }
  }

  lemma {:induction false} SortedStart(s: seq<Entry>)
    ensures SortedUpTo(s, 0)
  {
  }

  lemma {:induction false} SortedStep(s: seq<Entry>, i: nat)
    requires i < |s| && SortedUpTo(s, i) && Least(s, i, |s|)
    ensures SortedUpTo(s, i + 1)
  {
  }

  lemma {:induction false} SortedEnd(s: seq<Entry>, i: nat)
    requires i <= |s| <= i + 1 && SortedUpTo(s, i)
    ensures SortedUpTo(s, |s|)
  {
  }
}
