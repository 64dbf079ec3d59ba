/** 8.3 file names: packing a name into the 11 bytes of a directory entry (`make_fat_name`) and
    printing them again (`fs_ls`). */
module Names {
  import opened Bytes
  import opened Directory

  /** A NUL-terminated string, without its terminator. */
  type CString = s: seq<byte> | 0 !in s witness []

  const SPACE := 0x20
  const DOT := 0x2E

  function Upper(c: byte): byte {
    if 0x61 <= c <= 0x7A then c - 32 else c
  }

  function UpperAll(s: seq<byte>): (r: seq<byte>)
    ensures |r| == |s| && forall i :: 0 <= i < |s| ==> r[i] == Upper(s[i])
  {
    if s == [] then [] else [Upper(s[0])] + UpperAll(s[1..])
  }

  /** Length of the part that goes into the first eight bytes, `p` of them being scanned. */
  function StemLength(s: CString, p: nat): (r: nat)
    requires p <= 8 && p <= |s|
    ensures p <= r <= 8 && r <= |s|
    ensures r < 8 && r < |s| ==> s[r] == DOT
    decreases 8 - p
  {
    if p == 8 || p == |s| || s[p] == DOT then p else StemLength(s, p + 1)
  }

  lemma {:induction false} NoDotInStem(s: CString, p: nat)
    requires p <= 8 && p <= |s|
    ensures forall i :: p <= i < StemLength(s, p) ==> s[i] != DOT
    decreases 8 - p
  {
    if p != 8 && p != |s| && s[p] != DOT {
      NoDotInStem(s, p + 1);
    }
  }

  lemma {:induction false} StemLengthIs(s: CString, p: nat, r: nat)
    requires p <= r <= 8 && r <= |s|
    requires forall i :: p <= i < r ==> s[i] != DOT
    requires r == 8 || r == |s| || s[r] == DOT
    ensures StemLength(s, p) == r
    decreases r - p
  {
    if p < r {
      StemLengthIs(s, p + 1, r);
    }
  }

  function Stem(s: CString): seq<byte> {
    s[..StemLength(s, 0)]
  }

  function Extension(s: CString): (r: seq<byte>)
    ensures |r| <= 3
  {
    var p := StemLength(s, 0);
    if p < |s| && s[p] == DOT then s[p + 1..Min(p + 4, |s|)] else []
  }

  function Pad(s: seq<byte>, n: nat): (r: seq<byte>)
    requires |s| <= n
    ensures |r| == n
  {
    s + seq(n - |s|, i => SPACE)
  }

  /** The 11 bytes stored for a name. */
  function Encode(s: CString): FatName {
    Pad(UpperAll(Stem(s)), 8) + Pad(UpperAll(Extension(s)), 3)
  }

  lemma {:induction false} StemBytes(s: CString, p: nat, n: seq<byte>)
    requires p == StemLength(s, 0) && |n| == 8
    requires forall k :: 0 <= k < p ==> n[k] == Upper(s[k])
    requires forall k :: p <= k < 8 ==> n[k] == SPACE
    ensures n == Pad(UpperAll(Stem(s)), 8)
  {
    hide StemLength, Upper;
    var base := UpperAll(Stem(s));
    forall k | 0 <= k < 8
      ensures n[k] == Pad(base, 8)[k]
    {
      assert k < p ==> base[k] == Upper(s[k]);
    }
  }

  lemma {:induction false} ExtensionBytes(s: CString, p: nat, e: nat, n: seq<byte>)
    requires p == StemLength(s, 0) && |n| == 3
    requires e == if p < |s| && s[p] == DOT then Min(3, |s| - p - 1) else 0
    requires forall k :: 0 <= k < e ==> n[k] == Upper(s[p + 1 + k])
    requires forall k :: e <= k < 3 ==> n[k] == SPACE
    ensures n == Pad(UpperAll(Extension(s)), 3)
  {
    hide StemLength, Upper;
    var ext := UpperAll(Extension(s));
    assert |ext| == e;
    forall k | 0 <= k < 3
      ensures n[k] == Pad(ext, 3)[k]
    {
      assert k < e ==> ext[k] == Upper(s[p + 1 + k]);
    }
  }

  // ---------------------------------------------------------------- the packed bytes

  /** The 26 small letters become capitals and every other byte is stored as typed. */
  lemma {:induction false} CapitalsAre(c: byte, k: nat)
    requires k < 26
    ensures c == 0x61 + k ==> Upper(c) == 0x41 + k
    ensures c < 0x61 || c > 0x7A ==> Upper(c) == c
    ensures !(0x61 <= Upper(c) <= 0x7A)
  {
  }

  /** How a typed name is cut: up to eight bytes before the first dot, and after a dot that follows them
      up to three more. */
  ghost predicate CutAs(s: CString, base: seq<byte>, rest: seq<byte>, ext: seq<byte>) {
    && s == base + rest && |base| <= 8 && 0x2E !in base
    && (|base| == 8 || rest == [] || rest[0] == 0x2E)
    && ext == if rest != [] && rest[0] == 0x2E then rest[1..Min(4, |rest|)] else []
  }

  /** The eleven bytes, one by one: the parts in capitals, each followed by spaces. */
  lemma {:induction false} PackedBytes(s: CString, base: seq<byte>, rest: seq<byte>, ext: seq<byte>, i: nat)
    requires CutAs(s, base, rest, ext) && i < 11
    ensures Encode(s)[i] == if i < |base| then Upper(base[i])
                            else if 8 <= i < 8 + |ext| then Upper(ext[i - 8])
                            else 0x20
  {
    hide Upper, UpperAll, StemLength;
    StemLengthIs(s, 0, |base|);
    assert Stem(s) == base;
    assert Extension(s) == ext by {
      if rest != [] && rest[0] == 0x2E {
        assert s[|base|] == rest[0] && s[|base| + 1..Min(|base| + 4, |s|)] == rest[1..Min(4, |rest|)];
      } else if rest != [] {
        assert s[|base|] == rest[0];
      }
    }
    assert Encode(s)[i] == if i < 8 then Pad(UpperAll(base), 8)[i] else Pad(UpperAll(ext), 3)[i - 8];
  }

  /** Every name is cut in one of these ways. */
  lemma {:induction false} CutExists(s: CString) returns (base: seq<byte>, rest: seq<byte>, ext: seq<byte>)
    ensures CutAs(s, base, rest, ext)
  {
    var p := StemLength(s, 0);
    NoDotInStem(s, 0);
    base, rest := s[..p], s[p..];
    ext := if rest != [] && rest[0] == 0x2E then rest[1..Min(4, |rest|)] else [];
  }

  /** No small letter is ever stored. */
  lemma {:induction false} NoSmallLetters(s: CString, i: nat)
    requires i < 11
    ensures Encode(s)[i] < 0x61 || Encode(s)[i] > 0x7A
  {
    hide Encode;
    var base, rest, ext := CutExists(s);
    PackedBytes(s, base, rest, ext, i);
  }

  /** The same bytes, small letters standing for capitals. */
  ghost predicate SameButCase(s: seq<byte>, t: seq<byte>) {
    |s| == |t| && forall i :: 0 <= i < |s| ==> SameLetter(s[i], t[i])
  }

  ghost predicate SameLetter(a: byte, b: byte) {
    a == b || (0x41 <= a <= 0x5A && b == a + 32) || (0x41 <= b <= 0x5A && a == b + 32)
  }

  lemma {:induction false} SameLetterPacks(a: byte, b: byte)
    requires SameLetter(a, b)
    ensures (a == 0x2E <==> b == 0x2E) && Upper(a) == Upper(b)
  {
  }

  lemma {:induction false} SamePart(s: seq<byte>, t: seq<byte>, from: nat, to: nat)
    requires SameButCase(s, t) && from <= to <= |s|
    ensures SameButCase(s[from..to], t[from..to])
  {
    forall i | 0 <= i < to - from
      ensures SameLetter(s[from..to][i], t[from..to][i])
    {
      assert SameLetter(s[from + i], t[from + i]);
    }
  }

  lemma {:induction false} SameDots(s: seq<byte>, t: seq<byte>)
    requires SameButCase(s, t)
    ensures 0x2E in s <==> 0x2E in t
    ensures s != [] ==> (s[0] == 0x2E <==> t[0] == 0x2E)
  {
    forall i | 0 <= i < |s|
      ensures s[i] == 0x2E <==> t[i] == 0x2E
    {
      assert SameLetter(s[i], t[i]);
    }
  }

  lemma {:induction false} SplitSame(s: seq<byte>, t: seq<byte>, base: seq<byte>, rest: seq<byte>)
    returns (base': seq<byte>, rest': seq<byte>)
    requires SameButCase(s, t) && s == base + rest
    ensures t == base' + rest' && |base'| == |base| && |rest'| == |rest|
    ensures SameButCase(base, base') && SameButCase(rest, rest')
  {
    hide SameLetter, SameButCase;
    SameLength(s, t);
    var p := |base|;
    SamePart(s, t, 0, p);
    SamePart(s, t, p, |s|);
    base', rest' := t[0..p], t[p..|s|];
    assert s[0..p] == base && s[p..|s|] == rest;
  }

  /** They are cut at the same places. */
  lemma {:induction false} SameCut(s: CString, t: CString, base: seq<byte>, rest: seq<byte>, ext: seq<byte>)
    returns (base': seq<byte>, rest': seq<byte>, ext': seq<byte>)
    requires SameButCase(s, t) && CutAs(s, base, rest, ext)
    ensures CutAs(t, base', rest', ext') && SameButCase(base, base') && SameButCase(ext, ext')
  {
    hide SameLetter, SameButCase;
    base', rest' := SplitSame(s, t, base, rest);
    SameDots(base, base');
    SameDots(rest, rest');
    if rest != [] && rest[0] == 0x2E {
      ext' := rest'[1..Min(4, |rest'|)];
      SamePart(rest, rest', 1, Min(4, |rest|));
    } else {
      ext' := [];
      SameNothing();
    }
  }

  lemma {:induction false} SameLength(s: seq<byte>, t: seq<byte>)
    requires SameButCase(s, t)
    ensures |s| == |t|
  {
  }

  lemma {:induction false} SameNothing()
    ensures SameButCase([], [])
  {
  }

  /** Names that differ only in the case of letters are the same file. */
  lemma {:induction false} CaseIsIgnored(s: CString, t: CString)
    requires SameButCase(s, t)
    ensures Encode(s) == Encode(t)
  {
    hide Encode, Upper, SameButCase, SameLetter, CutAs;
    var base, rest, ext := CutExists(s);
    var base', rest', ext' := SameCut(s, t, base, rest, ext);
    forall i | 0 <= i < 11
      ensures Encode(s)[i] == Encode(t)[i]
    {
      PackedBytes(s, base, rest, ext, i);
      PackedBytes(t, base', rest', ext', i);
      SameByte(base, base', i);
      SameByte(ext, ext', i - 8);
    }
  }

  lemma {:induction false} SameByte(s: seq<byte>, t: seq<byte>, i: int)
    requires SameButCase(s, t)
    ensures |s| == |t| && (0 <= i < |s| ==> Upper(s[i]) == Upper(t[i]))
  {
    if 0 <= i < |s| {
      SameLetterPacks(s[i], t[i]);
    }
  }

  /** The loop over the first eight bytes of `make_fat_name`. */
  method PutStem(s: CString, out: array<byte>) returns (p: nat)
    requires out.Length == 11 && forall k :: 0 <= k < 11 ==> out[k] == SPACE
    modifies out
    ensures p == StemLength(s, 0) && out[..8] == Pad(UpperAll(Stem(s)), 8)
    ensures forall k :: 8 <= k < 11 ==> out[k] == SPACE
  {
    hide StemLength, Upper;
    p := 0;
    while p < |s| && s[p] != DOT && p < 8
      invariant p <= 8 && p <= |s| && forall k :: 0 <= k < p ==> s[k] != DOT
      invariant forall k :: 0 <= k < p ==> out[k] == Upper(s[k])
      invariant forall k :: p <= k < 11 ==> out[k] == SPACE
    {
      out[p] := Capital(s[p]);
      p := p + 1;
    }
    StemLengthIs(s, 0, p);
    StemBytes(s, p, out[..8]);
  }

  /** `(*in >= 'a' && *in <= 'z') ? *in - 32 : *in`. */
  method Capital(c: byte) returns (r: byte)
    ensures r == Upper(c)
  {
    r := if 0x61 <= c <= 0x7A then c - 32 else c;
  }

  /** The loop over the extension of `make_fat_name`. */
  method PutExtension(s: CString, p: nat, out: array<byte>)
    requires out.Length == 11 && p == StemLength(s, 0) && forall k :: 8 <= k < 11 ==> out[k] == SPACE
    modifies out
    ensures out[..8] == old(out[..8]) && out[8..] == Pad(UpperAll(Extension(s)), 3)
  {
    hide StemLength, Upper;
    var j := 0;
    if p < |s| && s[p] == DOT {
      while j < 3 && p + 1 + j < |s|
        invariant j <= 3 && p + 1 + j <= |s| && out[..8] == old(out[..8])
        invariant forall k :: 8 <= k < 8 + j ==> out[k] == Upper(s[p + 1 + (k - 8)])
        invariant forall k :: 8 + j <= k < 11 ==> out[k] == SPACE
      {
        out[8 + j] := Capital(s[p + 1 + j]);
        j := j + 1;
      }
    }
    ghost var field := out[8..];
    forall k | 0 <= k < j
      ensures field[k] == Upper(s[p + 1 + k])
    {
      assert field[k] == out[8 + k];
    }
    ExtensionBytes(s, p, j, field);
  }

  /** `make_fat_name`. */
  method MakeFatName(s: CString, out: array<byte>)
    requires out.Length == 11
    modifies out
    ensures out[..] == Encode(s)
  {
    for i := 0 to 11
      invariant forall k :: 0 <= k < i ==> out[k] == SPACE
    {
      out[i] := SPACE;
    }
    var p := PutStem(s, out);
    PutExtension(s, p, out);
    assert out[..] == out[..8] + out[8..];
  }

  function NonSpaces(s: seq<byte>): (r: seq<byte>)
    ensures |r| <= |s| && SPACE !in r
  {
    if s == [] then []
    else NonSpaces(s[..|s| - 1]) + if s[|s| - 1] == SPACE then [] else [s[|s| - 1]]
  }

  /** The name shown for 11 stored bytes. */
  function Decode(n: FatName): seq<byte> {
    NonSpaces(n[..8]) + (if n[8] == SPACE then [] else [DOT]) + NonSpaces(n[8..])
  }

  /** A stored name whose fields hold `base` and `ext`, without spaces, is shown with a dot between them. */
  lemma {:induction false} DecodeParts(n: FatName, base: seq<byte>, ext: seq<byte>)
    requires |base| <= 8 && |ext| <= 3 && 0x20 !in base && 0x20 !in ext
    requires forall i :: 0 <= i < 8 ==> n[i] == if i < |base| then base[i] else 0x20
    requires forall i :: 8 <= i < 11 ==> n[i] == if i < 8 + |ext| then ext[i - 8] else 0x20
    ensures Decode(n) == base + (if ext == [] then [] else [0x2E] + ext)
  {
    hide NonSpaces;
    assert n[..8] == Pad(base, 8) && n[8..] == Pad(ext, 3);
    NonSpacesOfPad(base, 8);
    NonSpacesOfPad(ext, 3);
    assert n[8] == if ext == [] then 0x20 else ext[0];
  }

  /** What the first `i` bytes contribute. */
  ghost function DecodeTo(n: FatName, i: nat): seq<byte>
    requires i <= 11
  {
    if i <= 8 then NonSpaces(n[..i])
    else NonSpaces(n[..8]) + (if n[8] == SPACE then [] else [DOT]) + NonSpaces(n[8..i])
  }

  lemma {:induction false} DecodeStep(n: FatName, i: nat)
    requires i < 11
    ensures DecodeTo(n, i + 1) == DecodeTo(n, i) + (if i == 8 && n[8] != SPACE then [DOT] else [])
                                  + (if n[i] == SPACE then [] else [n[i]])
  {
    if i < 8 {
      assert n[..i + 1][..i] == n[..i];
    } else {
      assert n[8..i + 1][..i - 8] == n[8..i];
      assert NonSpaces(n[8..8]) == [];
    }
  }

  /** One more character in a string buffer. */
  method PutChar(name: array<byte>, len: nat, c: byte)
    requires len < name.Length
    modifies name
    ensures name[..len + 1] == old(name[..len]) + [c]
  {
    name[len] := c;
  }

  /** The character loop of `fs_ls`. */
  method PrintName(n: FatName, name: array<byte>) returns (len: nat)
    requires name.Length == 13
    modifies name
    ensures len <= 12 && name[..len] == Decode(n) && name[len] == 0
  {
    hide DecodeTo, Decode, NonSpaces;
    len := 0;
    DecodeEnds(n);
    for i := 0 to 11
      invariant len <= if i > 8 then i + 1 else i
      invariant name[..len] == DecodeTo(n, i)
    {
      DecodeStep(n, i);
      var c := n[i];
      if i == 8 && c != SPACE {
        PutChar(name, len, DOT);
        len := len + 1;
      }
      if c != SPACE {
        PutChar(name, len, c);
        len := len + 1;
      }
    }
    name[len] := 0;
  }

  lemma {:induction false} DecodeEnds(n: FatName)
    ensures DecodeTo(n, 0) == [] && DecodeTo(n, 11) == Decode(n)
  {
    assert n[8..11] == n[8..] && n[..0] == [];
  }

  // ---------------------------------------------------------------- printing and packing again

  /** Spaces only at the end. */
  ghost predicate PaddedField(s: seq<byte>) {
    forall i, j :: 0 <= i < j < |s| && s[i] == SPACE ==> s[j] == SPACE
  }

  ghost predicate PaddedName(n: FatName) {
    PaddedField(n[..8]) && PaddedField(n[8..])
  }

  lemma {:induction false} NonSpacesKeepsAll(s: seq<byte>)
    requires SPACE !in s
    ensures NonSpaces(s) == s
  {
    if s != [] {
      NonSpacesKeepsAll(s[..|s| - 1]);
    }
  }

  lemma {:induction false} NonSpacesOfPad(s: seq<byte>, n: nat)
    requires |s| <= n && SPACE !in s
    ensures NonSpaces(Pad(s, n)) == s
    decreases n
  {
    if |s| == n {
      assert Pad(s, n) == s;
      NonSpacesKeepsAll(s);
    } else {
      NonSpacesOfPad(s, n - 1);
      assert Pad(s, n)[..n - 1] == Pad(s, n - 1);
    }
  }

  /** A padded field is its non-space prefix, padded. */
  lemma {:induction false} PaddedIsPad(s: seq<byte>)
    requires PaddedField(s)
    ensures Pad(NonSpaces(s), |s|) == s
    decreases |s|
  {
    if s != [] {
      var n := |s| - 1;
      PaddedIsPad(s[..n]);
      if s[n] != SPACE {
        assert SPACE !in s[..n];
        NonSpacesKeepsAll(s[..n]);
      }
    }
  }

  lemma {:induction false} StemIs(s: CString, base: seq<byte>, rest: seq<byte>)
    requires |base| <= 8 && DOT !in base && s == base + rest
    requires rest == [] || rest[0] == DOT
    ensures StemLength(s, 0) == |base| && Stem(s) == base
  {
    StemLengthIs(s, 0, |base|);
  }

  /** Packing a printed name: its stem, a dot if there is an extension, the extension. */
  lemma {:induction false} EncodeParts(s: CString, base: seq<byte>, ext: seq<byte>)
    requires |base| <= 8 && |ext| <= 3 && DOT !in base
    requires s == base + (if ext == [] then [] else [DOT] + ext)
    ensures Stem(s) == base && Extension(s) == ext
  {
    StemIs(s, base, if ext == [] then [] else [DOT] + ext);
    if ext != [] {
      assert s[|base|] == DOT && s[|base| + 1..] == ext;
    }
  }

  /** Names that come out of `make_fat_name`: capitals, no NUL, no dot in the first eight bytes. */
  ghost predicate Packed(n: FatName) {
    0 !in n && DOT !in n[..8] && forall i :: 0 <= i < 11 ==> Upper(n[i]) == n[i]
  }

  lemma {:induction false} EncodeIsPacked(s: CString)
    ensures Packed(Encode(s))
  {
    hide Upper;
    var n, base, ext := Encode(s), UpperAll(Stem(s)), UpperAll(Extension(s));
    NoDotInStem(s, 0);
    UpperIsPacked(Stem(s));
    UpperIsPacked(Extension(s));
    assert n[..8] == Pad(base, 8) && n[8..] == Pad(ext, 3);
  }

  lemma {:induction false} UpperIsPacked(s: seq<byte>)
    requires 0 !in s
    ensures 0 !in UpperAll(s) && (DOT !in s ==> DOT !in UpperAll(s))
    ensures forall i :: 0 <= i < |s| ==> Upper(UpperAll(s)[i]) == UpperAll(s)[i]
    ensures Upper(SPACE) == SPACE
  {
  }

  lemma {:induction false} NonSpacesSubset(s: seq<byte>)
    ensures forall c :: c in NonSpaces(s) ==> c in s
  {
    if s != [] {
      NonSpacesSubset(s[..|s| - 1]);
    }
  }

  lemma {:induction false} UpperStays(s: seq<byte>)
    requires forall c :: c in s ==> Upper(c) == c
    ensures UpperAll(s) == s
  {
  }

  lemma {:induction false} DecodeIsString(n: FatName)
    requires 0 !in n
    ensures 0 !in Decode(n)
  {
    NonSpacesSubset(n[..8]);
    NonSpacesSubset(n[8..]);
  }

  lemma {:induction false} PaddedNameReadsBack(n: FatName)
    requires Packed(n) && PaddedName(n)
    ensures 0 !in Decode(n) && Encode(Decode(n)) == n
  {
    DecodeIsString(n);
    var base, ext := NonSpaces(n[..8]), NonSpaces(n[8..]);
    NonSpacesSubset(n[..8]);
    NonSpacesSubset(n[8..]);
    PaddedIsPad(n[..8]);
    PaddedIsPad(n[8..]);
    assert n[8] == Pad(ext, 3)[0];
    EncodeParts(Decode(n), base, ext);
    UpperStays(base);
    UpperStays(ext);
    assert n == n[..8] + n[8..];
  }

  lemma {:induction false} UpperSpaceFree(s: seq<byte>)
    requires SPACE !in s
    ensures SPACE !in UpperAll(s)
  {
  }

  lemma {:induction false} PadIsPadded(s: seq<byte>, n: nat)
    requires |s| <= n && SPACE !in s
    ensures PaddedField(Pad(s, n))
  {
  }

  lemma {:induction false} SpaceFreeIsPadded(s: CString)
    requires SPACE !in s
    ensures PaddedName(Encode(s))
  {
    var base, ext := Stem(s), Extension(s);
    UpperSpaceFree(base);
    UpperSpaceFree(ext);
    PadIsPadded(UpperAll(base), 8);
    PadIsPadded(UpperAll(ext), 3);
    assert Encode(s)[..8] == Pad(UpperAll(base), 8);
    assert Encode(s)[8..] == Pad(UpperAll(ext), 3);
  }

  lemma {:induction false} DecodeSpaceFree(n: FatName)
    ensures SPACE !in Decode(n)
  {
  }

  /** Printing a stored name and packing it again gives the same 11 bytes exactly when neither
      field has a space before another character. */
  lemma {:induction false} PrintThenPack(s: CString)
    ensures 0 !in Decode(Encode(s))
    ensures Encode(Decode(Encode(s))) == Encode(s) <==> PaddedName(Encode(s))
  {
    var n := Encode(s);
    EncodeIsPacked(s);
    DecodeIsString(n);
    if PaddedName(n) {
      PaddedNameReadsBack(n);
    }
    DecodeSpaceFree(n);
    SpaceFreeIsPadded(Decode(n));
  }

  /** `s` is a name of at most eight characters, or such a name, a dot and one to three more. */
  ghost predicate Is83(s: CString) {
    var p := StemLength(s, 0);
    p == |s| || (s[p] == DOT && 1 <= |s| - p - 1 <= 3)
  }

  lemma {:induction false} DecodeSpaceFreeName(s: CString)
    requires SPACE !in s
    ensures Decode(Encode(s)) == Listed(s)
  {
    var base, ext := UpperAll(Stem(s)), UpperAll(Extension(s));
    UpperSpaceFree(Stem(s));
    UpperSpaceFree(Extension(s));
    assert Encode(s)[..8] == Pad(base, 8) && Encode(s)[8..] == Pad(ext, 3);
    NonSpacesOfPad(base, 8);
    NonSpacesOfPad(ext, 3);
    assert Encode(s)[8] == if ext == [] then SPACE else ext[0];
  }

  /** The name as `fs_ls` lists it, put together from the parts of what was typed. */
  function Listed(s: CString): seq<byte> {
    UpperAll(Stem(s)) + (if Extension(s) == [] then [] else [DOT]) + UpperAll(Extension(s))
  }

  lemma {:induction false} ListedIf83(s: CString)
    requires Is83(s)
    ensures Listed(s) == UpperAll(s)
  {
    hide StemLength, UpperAll;
    var p := StemLength(s, 0);
    if p == |s| {
      assert Stem(s) == s && Extension(s) == [];
      assert UpperAll([]) == [];
    } else {
      var base, ext := s[..p], s[p + 1..];
      assert s == base + [DOT] + ext;
      assert Min(p + 4, |s|) == |s| && s[p + 1..|s|] == ext;
      assert Stem(s) == base && Extension(s) == ext;
      UpperConcat(base, [DOT]);
      UpperConcat(base + [DOT], ext);
      assert UpperAll([DOT])[0] == Upper(DOT);
    }
  }

  lemma {:induction false} ShorterUnless83(s: CString)
    requires !Is83(s)
    ensures |Listed(s)| < |s|
  {
  }

  /** A name without spaces is listed as typed, in capitals, exactly when it is a valid 8.3 name;
      what is listed never exceeds twelve characters. */
  lemma {:induction false} ListedAsTyped(s: CString)
    requires SPACE !in s
    ensures |Decode(Encode(s))| <= 12
    ensures Decode(Encode(s)) == UpperAll(s) <==> Is83(s)
  {
    DecodeSpaceFreeName(s);
    if Is83(s) {
      ListedIf83(s);
    } else {
      ShorterUnless83(s);
    }
  }

  lemma {:induction false} UpperConcat(a: seq<byte>, b: seq<byte>)
    ensures UpperAll(a + b) == UpperAll(a) + UpperAll(b)
  {
  }
}
