/** Numbers, bytes and 512-byte sectors. The shifts and masks of the C source are written as
    division and remainder by powers of two, which is what they are on unsigned values. */
module Bytes {

  type byte = x: int | 0 <= x < 0x100

  /** `n` zero bytes, as left by `memset`. */
  function Zeros(n: nat): (z: seq<byte>)
    ensures |z| == n
    ensures forall i :: 0 <= i < n ==> z[i] == 0
  {
    seq(n, i => 0)
  }

  type Sector = s: seq<byte> | |s| == 512 witness Zeros(512)

  /** Little-endian fields: the value of some bytes, and `k` bytes of a value. */
  function LeValue(s: seq<byte>): nat {
    if s == [] then 0 else s[0] + 0x100 * LeValue(s[1..])
  }

  function LeBytes(n: nat, k: nat): (s: seq<byte>)
    ensures |s| == k
    decreases k
  {
    if k == 0 then [] else [n % 0x100] + LeBytes(n / 0x100, k - 1)
  }

  function Power256(k: nat): nat {
    if k == 0 then 1 else 0x100 * Power256(k - 1)
  }

  lemma {:induction false} LeRoundTrip(n: nat, k: nat)
    requires n < Power256(k)
    ensures LeValue(LeBytes(n, k)) == n
    decreases k
  {
    if k != 0 {
      LeRoundTrip(n / 0x100, k - 1);
    }
  }

  lemma {:induction false} LeValue2(a: byte, b: byte)
    ensures LeValue([a, b]) == a as int + b as int * 0x100
  {
    assert [a, b][1..] == [b] && [b][1..] == [];
    assert LeValue([b]) == b as int + 0x100 * LeValue([]);
  }

  lemma {:induction false} LeBytePair(s: Sector, i: nat)
    requires i + 2 <= 512
    ensures LeValue(s[i..i + 2]) == s[i] as int + 0x100 * s[i + 1] as int
  {
    assert s[i..i + 2] == [s[i], s[i + 1]];
    LeValue2(s[i], s[i + 1]);
  }

  lemma {:induction false} LeValue3(a: byte, b: byte, c: byte)
    ensures LeValue([a, b, c]) == a as int + b as int * 0x100 + c as int * 0x1_0000
  {
    assert [a, b, c][1..] == [b, c];
    LeValue2(b, c);
  }

  lemma {:induction false} LeValue4(a: byte, b: byte, c: byte, d: byte)
    ensures LeValue([a, b, c, d]) == a as int + b as int * 0x100 + c as int * 0x1_0000 + d as int * 0x100_0000
  {
    assert [a, b, c, d][1..] == [b, c, d] && [b, c, d][1..] == [c, d];
    LeValue2(c, d);
  }

  type int32 = x: int | -0x8000_0000 <= x < 0x8000_0000

  function Min(a: int, b: int): int {
    if a <= b then a else b
  }

  function Max(a: int, b: int): int {
    if a >= b then a else b
  }

  function Abs(x: int): nat {
    if x < 0 then -x else x
  }

  /** Number of pieces of size `d` needed for `n`. */
  function CeilDiv(n: nat, d: nat): nat
    requires d > 0
    decreases n
  {
    if n == 0 then 0 else 1 + CeilDiv(if n <= d then 0 else n - d, d)
  }

  /** `CeilDiv` is the least number of pieces that hold `n`. */
  lemma {:induction false} CeilDivIsLeast(n: nat, d: nat, k: nat)
    requires d > 0
    ensures CeilDiv(n, d) <= k <==> n <= k * d
    ensures n > 0 ==> (CeilDiv(n, d) - 1) * d < n
    decreases n
  {
    if n != 0 {
      var m := if n <= d then 0 else n - d;
      CeilDivIsLeast(m, d, if k == 0 then 0 else k - 1);
      if k > 0 { assert (k - 1) * d == k * d - d; }
      if m > 0 { assert (CeilDiv(n, d) - 1) * d == (CeilDiv(m, d) - 1) * d + d; }
    }
  }

  lemma {:induction false} MulMonotone(a: int, b: int, d: nat)
    requires a <= b
    ensures a * d <= b * d
  {
    assert (b - a) * d >= 0;
  }
}
