/** The octal numbers of a ustar header (section "ustar Interchange Format" of POSIX.1 pax), and what
    `parse_octal` makes of any field. */
module TarNumbers {
  import opened TarArchive

  predicate IsDigit(b: Byte) {
    '0' as int <= b <= '7' as int
  }

  function Pow8(n: nat): nat {
    if n == 0 then 1 else 8 * Pow8(n - 1)
  }

  // ---------------------------------------------------------------------------------------
  // Any field
  // ---------------------------------------------------------------------------------------

  /** How many of the bytes in [i, z) are octal digits. */
  function Digits(a: seq<Byte>, i: nat, z: nat): nat
    requires i <= z <= |a|
    decreases z - i
  {
    if i == z then 0 else (if IsDigit(a[i]) then 1 else 0) + Digits(a, i + 1, z)
  }

  /** The sum, over the octal digits in [i, z), of the digit times 8 to the number of octal digits behind it. */
  function Sum(a: seq<Byte>, i: nat, z: nat): nat
    requires i <= z <= |a|
    decreases z - i
  {
    if i == z then 0
    else (if IsDigit(a[i]) then (a[i] - '0' as int) * Pow8(Digits(a, i + 1, z)) else 0) + Sum(a, i + 1, z)
  }

  /** Byte `z` is the first zero of the field of `n` bytes at `p`, or its end. */
  predicate FieldEnd(a: seq<Byte>, p: nat, n: nat, z: nat)
    requires p + n <= |a|
  {
    p <= z <= p + n && (z < p + n ==> a[z] == 0) && forall j :: p <= j < z ==> a[j] != 0
  }

  lemma Carry(v: nat, d: nat, c: nat)
    ensures (v * 8 + d) * Pow8(c) == v * Pow8(c + 1) + d * Pow8(c)
  {
    assert Pow8(c + 1) == 8 * Pow8(c);
    assert (v * 8 + d) * Pow8(c) == (v * 8) * Pow8(c) + d * Pow8(c);
    assert (v * 8) * Pow8(c) == v * (8 * Pow8(c));
  }

  lemma {:induction false} OctalFrom(a: seq<Byte>, p: nat, n: nat, z: nat, v: nat)
    requires p + n <= |a| && FieldEnd(a, p, n, z)
    ensures Octal(a, p, n, v) == v * Pow8(Digits(a, p, z)) + Sum(a, p, z)
    decreases n
  {
    if p < z {
      if IsDigit(a[p]) {
        var d := a[p] - '0' as int;
        OctalFrom(a, p + 1, n - 1, z, v * 8 + d);
        Carry(v, d, Digits(a, p + 1, z));
      } else {
        OctalFrom(a, p + 1, n - 1, z, v);
      }
    }
  }

  /** What `parse_octal` makes of any field: bytes that are no octal digits are passed over, the first zero byte
      ends it, and the digits have their place values. */
  lemma OctalIsSum(a: seq<Byte>, p: nat, n: nat, z: nat)
    requires p + n <= |a| && FieldEnd(a, p, n, z)
    ensures Octal(a, p, n, 0) == Sum(a, p, z)
  {
    OctalFrom(a, p, n, z, 0);
  }

  // ---------------------------------------------------------------------------------------
  // A number written as digits
  // ---------------------------------------------------------------------------------------

  /** The `k` octal digits of `n`, the most significant first. */
  function Written(n: nat, k: nat): (s: seq<Byte>)
    ensures |s| == k && forall i :: 0 <= i < k ==> IsDigit(s[i])
    decreases k
  {
    if k == 0 then [] else Written(n / 8, k - 1) + ['0' as int + n % 8]
  }

  /** A last digit more: eight times the value, and the digit. */
  lemma {:induction false} SumLast(a: seq<Byte>, i: nat, z: nat)
    requires i <= z < |a| && forall j :: i <= j <= z ==> IsDigit(a[j])
    ensures Digits(a, i, z) == z - i && Sum(a, i, z + 1) == 8 * Sum(a, i, z) + (a[z] - '0' as int)
    decreases z - i
  {
    if i == z {
      assert Digits(a, z + 1, z + 1) == 0 && Sum(a, z + 1, z + 1) == 0;
    } else {
      SumLast(a, i + 1, z);
      AllDigits(a, i + 1, z + 1);
      AllDigits(a, i + 1, z);
      var d := a[i] - '0' as int;
      assert d * Pow8(z - i) == 8 * (d * Pow8(z - i - 1));
    }
  }

  lemma {:induction false} AllDigits(a: seq<Byte>, i: nat, z: nat)
    requires i <= z <= |a| && forall j :: i <= j < z ==> IsDigit(a[j])
    ensures Digits(a, i, z) == z - i
    decreases z - i
  {
    if i < z { AllDigits(a, i + 1, z); }
  }

  lemma {:induction false} WrittenSum(a: seq<Byte>, p: nat, n: nat, k: nat)
    requires p + k <= |a| && a[p..p + k] == Written(n, k) && n < Pow8(k)
    ensures Sum(a, p, p + k) == n
    decreases k
  {
    if k > 0 {
      var s, m := Written(n, k), n / 8;
      assert a[p..p + k - 1] == s[..k - 1] == Written(m, k - 1);
      assert a[p + k - 1] == a[p..p + k][k - 1] == '0' as int + n % 8;
      forall j | p <= j <= p + k - 1 ensures IsDigit(a[j]) { assert a[j] == s[j - p]; }
      WrittenSum(a, p, m, k - 1);
      SumLast(a, p, p + k - 1);
    }
  }

  /** A number below 8^k, written as `k` octal digits with a zero byte or the end of the field behind them,
      reads as itself. */
  lemma OctalRoundTrip(a: seq<Byte>, p: nat, len: nat, n: nat, k: nat)
    requires k <= len && p + len <= |a| && n < Pow8(k) && a[p..p + k] == Written(n, k) && (k < len ==> a[p + k] == 0)
    ensures Octal(a, p, len, 0) == n
  {
    forall j | p <= j < p + k ensures a[j] != 0 { assert a[j] == Written(n, k)[j - p]; }
    OctalIsSum(a, p, len, p + k);
    WrittenSum(a, p, n, k);
  }
}
