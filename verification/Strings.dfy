/** cw_atoi and cw_cpystrn. */
module Strings {
  import opened Bytes

  const ZERO: byte := 48
  const NINE: byte := 57
  const MAX_INT := 2147483647   // CW_MAX_INT_T_VALUE
  const ERROR := -1             // CW_ERROR

  predicate IsDigit(b: byte) { ZERO <= b <= NINE }

  predicate AllDigits(s: Bytes) { forall i :: 0 <= i < |s| ==> IsDigit(s[i]) }

  function Digit(b: byte): int { b as int - ZERO as int }

  /** The unbounded decimal value of a string of digits. */
  function Value(s: Bytes): int {
    if s == [] then 0 else 10 * Value(s[..|s| - 1]) + Digit(s[|s| - 1])
  }

  lemma {:induction false} ValueGrows(s: Bytes, i: nat)
    requires AllDigits(s) && i <= |s|
    ensures 0 <= Value(s[..i]) <= Value(s)
    decreases |s|
  {
    if i < |s| {
      ValueGrows(s[..|s| - 1], i);
      assert s[..|s| - 1][..i] == s[..i];
    } else {
      assert s[..i] == s;
      if s != [] {
        ValueGrows(s[..|s| - 1], 0);
      }
    }
  }

  /** The decimal value if there are digits, nothing but digits, and the value fits; otherwise an error. */
  function Number(s: Bytes): int {
    if s != [] && AllDigits(s) && Value(s) <= MAX_INT then Value(s) else ERROR
  }

  /**
    cw_atoi: the decimal value exactly when there are digits, nothing but digits, and the value
    fits; the accumulator never passes the limit on the way.
   */
  method Atoi(line: array<byte>, n: nat) returns (value: int)
    requires n <= line.Length
    ensures value == Number(line[..n])
  {
    if n == 0 {
      return ERROR;
    }
    var cutoff, cutlim := MAX_INT / 10, MAX_INT % 10;
    value := 0;
    var i := 0;
    while i < n
      invariant i <= n && AllDigits(line[..i]) && value == Value(line[..i]) && 0 <= value <= MAX_INT
    {
      if line[i] < ZERO || line[i] > NINE {
        assert !IsDigit(line[..n][i]);
        return ERROR;
      }
      assert line[..i + 1][..i] == line[..i];
      if value >= cutoff && (value > cutoff || Digit(line[i]) > cutlim) {
        if AllDigits(line[..n]) {
          ValueGrows(line[..n], i + 1);
          assert line[..n][..i + 1] == line[..i + 1];
        }
        return ERROR;
      }
      value := value * 10 + Digit(line[i]);
      i := i + 1;
    }
  }

  /** The decimal digits of n. */
  function Decimal(n: nat): Bytes {
    if n < 10 then [ZERO + n as byte] else Decimal(n / 10) + [ZERO + (n % 10) as byte]
  }

  /** cw_atoi undoes decimal printing: the printed number is digits only and has that value. */
  lemma {:induction false} DecimalValue(n: nat)
    ensures Decimal(n) != [] && AllDigits(Decimal(n)) && Value(Decimal(n)) == n
    decreases n
  {
    var d := Decimal(n);
    if n < 10 {
      assert d[..0] == [];
    } else {
      DecimalValue(n / 10);
      assert d[..|d| - 1] == Decimal(n / 10);
    }
  }

  /** Leading zeros are allowed, any number of them. */
  lemma {:induction false} LeadingZero(s: Bytes)
    requires s != []
    ensures Value([ZERO] + s) == Value(s)
    decreases |s|
  {
    var t := [ZERO] + s;
    if |s| == 1 {
      assert t[..1] == [ZERO] && [ZERO][..0] == [] && s[..0] == [];
    } else {
      LeadingZero(s[..|s| - 1]);
      assert t[..|t| - 1] == [ZERO] + s[..|s| - 1];
    }
  }

  function Zeros(k: nat): Bytes {
    seq(k, i => ZERO)
  }

  /** n in decimal, behind any number of zeros. */
  predicate Writes(s: Bytes, n: nat) {
    exists k: nat :: k <= |s| && s == Zeros(k) + Decimal(n)
  }

  lemma {:induction false} ZerosAreNothing(k: nat, s: Bytes)
    requires s != [] && AllDigits(s)
    ensures AllDigits(Zeros(k) + s) && Value(Zeros(k) + s) == Value(s)
    decreases k
  {
    hide Value;
    if k == 0 {
      assert Zeros(0) + s == s;
    } else {
      var t := Zeros(k - 1) + s;
      ZerosAreNothing(k - 1, s);
      LeadingZero(t);
      assert Zeros(k) == [ZERO] + Zeros(k - 1);
      assert Zeros(k) + s == [ZERO] + t;
    }
  }

  /** Every string of digits is a number in decimal behind zeros. */
  lemma {:induction false} DigitsWrite(s: Bytes) returns (k: nat)
    requires s != [] && AllDigits(s)
    ensures Value(s) >= 0 && k <= |s| && s == Zeros(k) + Decimal(Value(s))
    decreases |s|
  {
    var u, d := s[..|s| - 1], s[|s| - 1];
    assert s == u + [d] && IsDigit(d);
    if u == [] {
      k := 0;
    } else {
      k := DigitsWrite(u);
      if Value(u) == 0 {
        assert Zeros(k) + [ZERO] + [d] == Zeros(k + 1) + [d];
        k := k + 1;
      }
    }
  }

  /** cw_atoi accepts exactly the numbers up to 2147483647, and tells which one it is. */
  lemma NumberExactly(s: Bytes, n: nat)
    ensures Number(s) == n <==> n <= 2147483647 && Writes(s, n)
    ensures Number(s) == ERROR || Number(s) >= 0
  {
    if s != [] && AllDigits(s) {
      var k := DigitsWrite(s);
      if Value(s) == n { assert Writes(s, n); }
    }
    if Writes(s, n) {
      var k: nat :| k <= |s| && s == Zeros(k) + Decimal(n);
      DecimalValue(n);
      ZerosAreNothing(k, Decimal(n));
    }
  }

  /** The length of the C string at the start of s, or |s| if there is no NUL. */
  function StrLen(s: Bytes): (k: nat)
    ensures k <= |s| && (k < |s| ==> s[k] == NUL)
    ensures forall i :: 0 <= i < k ==> s[i] != NUL
  {
    if s == [] || s[0] == NUL then 0 else 1 + StrLen(s[1..])
  }

  lemma {:induction false} StrLenIs(s: Bytes, k: nat)
    requires k <= |s| && (forall i :: 0 <= i < k ==> s[i] != NUL) && (k < |s| ==> s[k] == NUL)
    ensures StrLen(s) == k
    decreases k
  {
    if k > 0 {
      StrLenIs(s[1..], k - 1);
    }
  }

  function Min(a: nat, b: nat): nat { if a < b then a else b }

  /** The loop of cw_cpystrn: bytes are copied, up to n of them, until a NUL has been. */
  method CopyBytes(dst: array<byte>, d: nat, src: array<byte>, n: nat) returns (i: nat)
    requires dst != src && d + n < dst.Length
    requires n <= src.Length || StrLen(src[..]) < src.Length
    modifies dst
    ensures i == Min(n, StrLen(src[..])) && (i < n ==> dst[d + i] == NUL)
    ensures forall k :: d <= k < d + i ==> dst[k] == src[k - d]
    ensures forall k :: 0 <= k < d || d + i < k < dst.Length ==> dst[k] == old(dst[k])
  {
    hide StrLen;
    i := 0;
    while i < n
      invariant i <= n && i <= src.Length
      invariant forall j :: 0 <= j < i ==> src[j] != NUL
      invariant forall k :: d <= k < d + i ==> dst[k] == src[k - d]
      invariant forall k :: 0 <= k < d || d + i <= k < dst.Length ==> dst[k] == old(dst[k])
    {
      LongEnough(src[..], i);
      dst[d + i] := src[i];
      if dst[d + i] == NUL {
        StrLenIs(src[..], i);
        return;
      }
      i := i + 1;
    }
    LongEnough(src[..], i);
  }

  /**
    cw_cpystrn: at most n - 1 bytes of the C string, always closed by a NUL, and the place of
    that NUL. With n = 0 nothing is written. The source is read no further than it has to be.
   */
  method Cpystrn(dst: array<byte>, d: nat, src: array<byte>, n: nat) returns (end: nat)
    requires dst != src && d + n <= dst.Length
    requires n <= src.Length + 1 || StrLen(src[..]) < src.Length
    modifies dst
    ensures n == 0 ==> end == d && dst[..] == old(dst[..])
    ensures n > 0 ==>
              var k := Min(n - 1, StrLen(src[..]));
              && end == d + k && end < dst.Length
              && dst[..] == old(dst[..d]) + src[..k] + [NUL] + old(dst[end + 1..])
  {
    hide StrLen;
    if n == 0 {
      return d;
    }
    ghost var was := dst[..];
    var i := CopyBytes(dst, d, src, n - 1);
    end := d + i;
    if i == n - 1 {
      dst[end] := NUL;
    }
    Closed(was, dst, src, d, i);
  }

  /** What has been written, as a sequence: n bytes of the source from d on, and the NUL. */
  lemma Closed(was: Bytes, dst: array<byte>, src: array<byte>, d: nat, n: nat)
    requires |was| == dst.Length && n <= src.Length && d + n < dst.Length && dst[d + n] == NUL
    requires forall k :: d <= k < d + n ==> dst[k] == src[k - d]
    requires forall k :: 0 <= k < d || d + n < k < dst.Length ==> dst[k] == was[k]
    ensures dst[..] == was[..d] + src[..n] + [NUL] + was[d + n + 1..]
  {
    assert dst[..] == dst[..d] + dst[d..d + n] + [dst[d + n]] + dst[d + n + 1..];
    assert dst[..d] == was[..d] && dst[d..d + n] == src[..n] && dst[d + n + 1..] == was[d + n + 1..];
  }

  lemma {:induction false} LongEnough(s: Bytes, k: nat)
    requires k <= |s| && forall i :: 0 <= i < k ==> s[i] != NUL
    ensures StrLen(s) >= k
    decreases k
  {
    if k > 0 {
      LongEnough(s[1..], k - 1);
    }
  }
}
