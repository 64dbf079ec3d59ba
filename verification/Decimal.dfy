/** `itoa` and `atoi`: printing a number and reading it back. */
module Decimal {
  import opened Bytes
  import opened Names

  const MINUS := 0x2D
  const ZERO := 0x30

  /** A digit of "0123456789ABCDEF". */
  function DigitChar(d: nat): byte
    requires d < 16
  {
    if d < 10 then ZERO + d else 0x41 + d - 10
  }

  predicate IsDecimalDigit(c: byte) {
    ZERO <= c <= ZERO + 9
  }

  function Digits(n: nat, base: nat): (s: seq<byte>)
    requires 2 <= base <= 16
    ensures s != []
    decreases n
  {
    if n < base then [DigitChar(n)] else Digits(n / base, base) + [DigitChar(n % base)]
  }

  /** The text of a number. */
  function Show(v: int, base: nat): seq<byte>
    requires 2 <= base <= 16
  {
    if v < 0 then [MINUS] + Digits(-v, base) else Digits(v, base)
  }

  /** The number that the leading decimal digits of `s` continue from `acc`. */
  function ReadDigits(s: seq<byte>, acc: nat): nat {
    if s == [] || !IsDecimalDigit(s[0]) then acc else ReadDigits(s[1..], acc * 10 + (s[0] - ZERO))
  }

  /** `atoi` in unbounded integers. */
  function AtoiValue(s: seq<byte>): int {
    if s != [] && s[0] == MINUS then 0 as int - ReadDigits(s[1..], 0) else ReadDigits(s, 0)
  }

  // ---------------------------------------------------------------- laws

  lemma {:induction false} DigitsAreDecimal(n: nat)
    ensures forall i :: 0 <= i < |Digits(n, 10)| ==> IsDecimalDigit(Digits(n, 10)[i])
    decreases n
  {
    if n >= 10 {
      DigitsAreDecimal(n / 10);
    }
  }

  lemma {:induction false} ReadDigitsAppend(s: seq<byte>, c: byte, acc: nat)
    requires forall i :: 0 <= i < |s| ==> IsDecimalDigit(s[i])
    requires IsDecimalDigit(c)
    ensures ReadDigits(s + [c], acc) == ReadDigits(s, acc) * 10 + (c - ZERO)
    decreases |s|
  {
    var all := s + [c];
    if s == [] {
      assert all[1..] == [];
    } else {
      assert all[1..] == s[1..] + [c];
      ReadDigitsAppend(s[1..], c, acc * 10 + (s[0] - ZERO));
    }
  }

  lemma {:induction false} ReadShownDigits(n: nat)
    ensures ReadDigits(Digits(n, 10), 0) == n
    decreases n
  {
    if n < 10 {
      assert Digits(n, 10)[1..] == [];
    } else {
      ReadShownDigits(n / 10);
      DigitsAreDecimal(n / 10);
      ReadDigitsAppend(Digits(n / 10, 10), DigitChar(n % 10), 0);
    }
  }

  /** Reading the text of a number gives the number. */
  lemma {:induction false} ShowThenRead(v: int)
    ensures AtoiValue(Show(v, 10)) == v
  {
    if v < 0 {
      ReadShownDigits(-v);
      assert Show(v, 10)[1..] == Digits(-v, 10);
    } else {
      ReadShownDigits(v);
      DigitsAreDecimal(v);
    }
  }

  /** The text digit by digit: 0 to 9 and A to F, the last one the remainder, a minus sign in front. */
  lemma {:induction false} ShowIs(n: int, d: nat, base: nat)
    requires n >= 0 && 2 <= base <= 16 && d < base
    ensures d < 10 ==> Show(d, base) == [0x30 + d]
    ensures d >= 10 ==> Show(d, base) == [0x41 + (d - 10)]
    ensures n > 0 ==> Show(n * base + d, base) == Show(n, base) + Show(d, base)
    ensures n > 0 ==> Show(-n, base) == [0x2D] + Show(n, base)
  {
    if n > 0 {
      var v := n * base + d;
      MulMonotone(1, n, base);
      assert v >= base;
      DivMod(n, d, base);
    }
  }

  lemma {:induction false} DivMod(q: nat, r: nat, base: nat)
    requires r < base
    ensures (q * base + r) / base == q && (q * base + r) % base == r
  {
    var v := q * base + r;
    var q', r' := v / base, v % base;
    assert v == q' * base + r' && 0 <= r' < base;
    assert (q' + 1) * base == q' * base + base && (q + 1) * base == q * base + base;
    if q' < q {
      MulMonotone(q' + 1, q, base);
    } else if q' > q {
      MulMonotone(q + 1, q', base);
    }
  }

  /** Reading digit by digit: each digit 0 to 9 counts ten times what was before it, any other character
      ends the number, and a minus sign in front negates it. */
  lemma {:induction false} ReadIs(s: seq<byte>, c: byte, rest: seq<byte>)
    requires forall i :: 0 <= i < |s| ==> 0x30 <= s[i] <= 0x39
    requires rest == [] || rest[0] < 0x30 || rest[0] > 0x39
    ensures AtoiValue([]) == 0
    ensures 0x30 <= c <= 0x39 ==> AtoiValue(s + [c]) == 10 * AtoiValue(s) + (c - 0x30)
    ensures s != [] ==> AtoiValue(s + rest) == AtoiValue(s)
    ensures AtoiValue([0x2D] + s) == 0 - AtoiValue(s)
  {
    if 0x30 <= c <= 0x39 {
      ReadDigitsAppend(s, c, 0);
      assert s != [] ==> (s + [c])[0] == s[0];
    }
    if s != [] {
      ReadDigitsStops(s, rest, 0);
      assert (s + rest)[0] == s[0];
    }
    assert ([0x2D] + s)[1..] == s;
  }

  lemma {:induction false} ReadDigitsStops(s: seq<byte>, rest: seq<byte>, acc: nat)
    requires forall i :: 0 <= i < |s| ==> IsDecimalDigit(s[i])
    requires rest == [] || !IsDecimalDigit(rest[0])
    ensures ReadDigits(s + rest, acc) == ReadDigits(s, acc)
    decreases |s|
  {
    if s == [] {
      assert s + rest == rest;
    } else {
      assert (s + rest)[1..] == s[1..] + rest;
      ReadDigitsStops(s[1..], rest, acc * 10 + (s[0] - ZERO));
    }
  }

  /** No leading zero, except for zero itself. */
  lemma {:induction false} NoLeadingZero(n: nat, base: nat)
    requires 2 <= base <= 16
    ensures Digits(n, base)[0] == ZERO <==> n == 0
    decreases n
  {
    if n >= base {
      NoLeadingZero(n / base, base);
      assert n / base > 0;
    }
  }

  function Power(base: nat, k: nat): nat {
    if k == 0 then 1 else base * Power(base, k - 1)
  }

  lemma {:induction false} DigitsLength(n: nat, base: nat, k: nat)
    requires 2 <= base <= 16 && k >= 1 && n < Power(base, k)
    ensures |Digits(n, base)| <= k
    decreases k
  {
    if n >= base {
      assert k > 1 by { assert Power(base, 1) == base * Power(base, 0); }
      assert n / base < Power(base, k - 1) by { QuotientBelow(n, base, Power(base, k - 1)); }
      DigitsLength(n / base, base, k - 1);
    }
  }

  lemma {:induction false} DigitsAtLeast(n: nat, base: nat, k: nat)
    requires 2 <= base <= 16 && n >= Power(base, k)
    ensures |Digits(n, base)| > k
    decreases k
  {
    hide Digits, Power;
    if k > 0 {
      PowerStep(base, k);
      QuotientAtLeast(n, base, Power(base, k - 1));
      DigitsAtLeast(n / base, base, k - 1);
      DigitsStep(n, base);
    } else {
      assert Digits(n, base) != [];
    }
  }

  lemma {:induction false} DigitsStep(n: nat, base: nat)
    requires 2 <= base <= 16 && n >= base
    ensures |Digits(n, base)| == |Digits(n / base, base)| + 1
  {
  }

  lemma {:induction false} PowerStep(base: nat, k: nat)
    requires base > 0 && k > 0
    ensures Power(base, k) == base * Power(base, k - 1) && Power(base, k) >= base
  {
    PowerPositive(base, k - 1);
    MulMonotone(1, Power(base, k - 1), base);
  }

  lemma {:induction false} QuotientAtLeast(n: nat, base: nat, m: nat)
    requires base > 0 && n >= base * m
    ensures n / base >= m
  {
    var q := n / base;
    assert n < (q + 1) * base;
    if q < m {
      MulMonotone(q + 1, m, base);
    }
  }

  lemma {:induction false} PowerPositive(base: nat, k: nat)
    requires base > 0
    ensures Power(base, k) > 0
  {
    if k > 0 {
      PowerPositive(base, k - 1);
      MulMonotone(1, Power(base, k - 1), base);
      assert base * Power(base, k - 1) == Power(base, k - 1) * base;
    }
  }

  /** A number has at most `k` digits exactly when it is below the `k`-th power of the base. */
  lemma {:induction false} DigitsExactly(n: nat, base: nat, k: nat)
    requires 2 <= base <= 16 && k >= 1
    ensures |Digits(n, base)| <= k <==> n < Power(base, k)
  {
    if n < Power(base, k) {
      DigitsLength(n, base, k);
    } else {
      DigitsAtLeast(n, base, k);
    }
  }

  lemma {:induction false} QuotientBelow(n: nat, base: nat, m: nat)
    requires base > 0 && n < base * m
    ensures n / base < m
  {
    var q := n / base;
    assert q * base <= n;
    if q >= m {
      MulMonotone(m, q, base);
    }
  }

  /** The text of an int fits eleven characters in base ten. */
  lemma {:induction false} ShowLength(v: int32)
    ensures |Show(v, 10)| <= 11
  {
    assert Power(10, 5) == 100000;
    assert Power(10, 10) == 10 * 10 * 10 * 10 * 10 * Power(10, 5);
    var n: int := v;
    DigitsLength(if n < 0 then -n else n, 10, 10);
  }

  lemma {:induction false} BinaryLength(n: nat, base: nat)
    requires 2 <= base <= 16 && n < 0x8000_0000
    ensures |Digits(n, base)| <= 31
  {
    PowerOfTwo(base, 31);
    assert Power(2, 8) == 0x100;
    assert Power(2, 16) == 2 * 2 * 2 * 2 * 2 * 2 * 2 * 2 * Power(2, 8);
    assert Power(2, 24) == 2 * 2 * 2 * 2 * 2 * 2 * 2 * 2 * Power(2, 16);
    assert Power(2, 31) == 2 * 2 * 2 * 2 * 2 * 2 * 2 * Power(2, 24);
    DigitsLength(n, base, 31);
  }

  lemma {:induction false} PowerOfTwo(base: nat, k: nat)
    requires base >= 2
    ensures Power(2, k) <= Power(base, k)
  {
    if k > 0 {
      PowerOfTwo(base, k - 1);
      MulMonotone(2, base, Power(base, k - 1));
    }
  }

  // ---------------------------------------------------------------- the loops

  function Reverse(s: seq<byte>): (r: seq<byte>)
    ensures |r| == |s| && forall i :: 0 <= i < |s| ==> r[i] == s[|s| - 1 - i]
  {
    seq(|s|, i requires 0 <= i < |s| => s[|s| - 1 - i])
  }

  lemma {:induction false} ReverseSnoc(s: seq<byte>, c: byte)
    ensures Reverse(s + [c]) == [c] + Reverse(s)
  {
  }

  lemma {:induction false} LastDigit(v: nat, base: nat)
    requires 2 <= base <= 16
    ensures 0 <= v % base < base && 0 <= v / base && (v > 0 ==> v / base < v)
    ensures Digits(v, base) == (if v / base == 0 then [] else Digits(v / base, base)) + [DigitChar(v % base)]
  {
    var q, r := v / base, v % base;
    assert v == q * base + r;
    if q == 0 {
      assert v < base;
    } else {
      MulMonotone(1, q, base);
      MulMonotone(2, base, q);
    }
  }

  /** The do-while loop of `itoa`: digits of `value`, last one first. */
  method PutDigits(value: nat, tmp: array<byte>, base: nat) returns (i: nat)
    requires 2 <= base <= 16 && value < 0x8000_0000 && tmp.Length == 33
    modifies tmp
    ensures i <= 31 && Digits(value, base) == Reverse(tmp[..i])
  {
    var v: nat := value;
    i := 0;
    BinaryLength(value, base);
    while true
      invariant i <= 31 && |Digits(v, base)| + i == |Digits(value, base)| <= 31
      invariant Digits(value, base) == Digits(v, base) + Reverse(tmp[..i])
      decreases v
    {
      hide Reverse, Digits;
      LastDigit(v, base);
      ghost var done := tmp[..i];
      var d := v % base;
      tmp[i] := if d < 10 then ZERO + d else 0x41 + d - 10;
      assert tmp[..i + 1] == done + [DigitChar(d)];
      ReverseSnoc(done, DigitChar(d));
      i := i + 1;
      var rest := v / base;
      if rest == 0 {
        break;
      }
      v := rest;
    }
  }

  /** The final loop of `itoa`. */
  method CopyReversed(tmp: array<byte>, n: nat, buf: array<byte>)
    requires n <= tmp.Length && n < buf.Length && tmp != buf
    modifies buf
    ensures buf[..n] == Reverse(tmp[..n]) && buf[n] == 0
  {
    var i, j := n, 0;
    while i > 0
      invariant 0 <= i && i + j == n && tmp[..] == old(tmp[..])
      invariant forall k :: 0 <= k < j ==> buf[k] == tmp[n - 1 - k]
    {
      i := i - 1;
      buf[j] := tmp[i];
      j := j + 1;
    }
    buf[j] := 0;
  }

  /** `itoa`. The most negative int has no negation, so the source does not handle it. */
  method Itoa(value: int32, buf: array<byte>, base: nat)
    requires 2 <= base <= 16 && value > -0x8000_0000
    requires |Show(value, base)| < buf.Length
    modifies buf
    ensures buf[..|Show(value, base)|] == Show(value, base) && buf[|Show(value, base)|] == 0
  {
    hide Digits, Reverse;
    var tmp := new byte[33];
    var v: nat := if value < 0 then -value else value;
    var i := PutDigits(v, tmp, base);
    if value < 0 {
      ghost var done := tmp[..i];
      tmp[i] := MINUS;
      assert tmp[..i + 1] == done + [MINUS];
      ReverseSnoc(done, MINUS);
      i := i + 1;
    }
    assert |Reverse(tmp[..i])| == i;
    CopyReversed(tmp, i, buf);
  }

  lemma {:induction false} ReadDigitsGrows(s: seq<byte>, acc: nat)
    ensures ReadDigits(s, acc) >= acc
    decreases |s|
  {
    if s != [] && IsDecimalDigit(s[0]) {
      ReadDigitsGrows(s[1..], acc * 10 + (s[0] - ZERO));
    }
  }

  /** `atoi`; every intermediate value is an int if the result is one. */
  method Atoi(s: CString) returns (r: int32)
    requires -0x8000_0000 < AtoiValue(s) < 0x8000_0000
    ensures r == AtoiValue(s)
  {
    var sign: int32, res: int32, p := 1, 0, 0;
    if |s| > 0 && s[0] == MINUS {
      sign := -1;
      p := 1;
    }
    ghost var total := ReadDigits(s[p..], 0);
    while p < |s| && s[p] >= ZERO && s[p] <= ZERO + 9
      invariant p <= |s| && res >= 0
      invariant ReadDigits(s[p..], res) == total
    {
      assert s[p..][1..] == s[p + 1..];
      ReadDigitsGrows(s[p + 1..], res * 10 + (s[p] - ZERO));
      var tens: int32 := res * 10;
      res := tens + (s[p] - ZERO);
      p := p + 1;
    }
    r := sign * res;
  }
}
