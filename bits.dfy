/**
 Python's integer operations on non-negative values that the timer decoder
 uses: bitwise `&`, and `int(text, 2)` / `int(text)` on plain digit strings.
 */
module Bits {
  import opened Wrappers

  function Pow2(n: nat): (p: nat)
    ensures p >= 1
  {
    if n == 0 then 1 else 2 * Pow2(n - 1)
  }

  /** `a & b` on non-negative integers, one bit at a time from the lowest. */
  function BitAnd(a: nat, b: nat): (r: nat)
    ensures r <= a && r <= b
    decreases a
  {
    if a == 0 || b == 0 then 0
    else 2 * BitAnd(a / 2, b / 2) + (if a % 2 == 1 && b % 2 == 1 then 1 else 0)
  }

  lemma {:induction false} MulAtLeast(d: int, k: int)
    requires d > 0 && k >= 1
    ensures d * k >= d
  {
    if k > 1 {
      MulAtLeast(d, k - 1);
      assert d * k == d * (k - 1) + d;
    }
  }

  /** Euclidean division is determined by its quotient and remainder. */
  lemma DivModUnique(a: int, d: int, q: int, r: int)
    requires d > 0 && a == d * q + r && 0 <= r < d
    ensures a / d == q && a % d == r
  {
    var q', r' := a / d, a % d;
    assert d * (q' - q) == r - r';
    if q' > q {
      MulAtLeast(d, q' - q);
    } else if q' < q {
      MulAtLeast(d, q - q');
    }
  }

  /** Taking the low bits of `a` in two steps: first `p`, then `q` more. */
  lemma ModProduct(a: nat, p: nat, q: nat)
    requires p > 0 && q > 0
    ensures a % (p * q) == p * ((a / p) % q) + a % p
    ensures a / (p * q) == (a / p) / q
  {
    var hi, lo := (a / p) / q, (a / p) % q;
    assert a / p == q * hi + lo;
    assert a == p * (a / p) + a % p;
    assert a == (p * q) * hi + (p * lo + a % p) by {
      assert p * (q * hi + lo) == (p * q) * hi + p * lo;
    }
    assert p * lo + a % p < p * q by {
      assert lo <= q - 1;
      assert p * lo <= p * (q - 1) == p * q - p;
    }
    DivModUnique(a, p * q, hi, p * lo + a % p);
  }

  /** Masking with `2^n - 1` keeps the low `n` bits. */
  lemma {:induction false} BitAndLowMask(a: nat, n: nat)
    ensures BitAnd(a, Pow2(n) - 1) == a % Pow2(n)
  {
    if n == 0 {
      DivModUnique(a, 1, a, 0);
    } else if a == 0 {
      DivModUnique(a, Pow2(n), 0, 0);
    } else {
      LowMaskStep(a, n);
      ModPow2Step(a, n);
      BitAndLowMask(a / 2, n - 1);
    }
  }

  /** The low-`n`-bit mask keeps bit 0 and shifts the rest of the mask. */
  lemma LowMaskStep(a: nat, n: nat)
    requires n > 0
    ensures BitAnd(a, Pow2(n) - 1) == 2 * BitAnd(a / 2, Pow2(n - 1) - 1) + a % 2
  {
    var half := Pow2(n - 1);
    DivModUnique(Pow2(n) - 1, 2, half - 1, 1);
  }

  /** Remainders by `2^n` split into bit 0 and the remainder of the rest. */
  lemma ModPow2Step(a: nat, n: nat)
    requires n > 0
    ensures a % Pow2(n) == 2 * ((a / 2) % Pow2(n - 1)) + a % 2
  {
    ModProduct(a, 2, Pow2(n - 1));
  }

  /** `a & 0b11100000` keeps bits 5 to 7: the multiple of 32 below `a`, taken modulo 256. */
  lemma BitAndHighThree(a: nat)
    ensures BitAnd(a, 0xE0) == 32 * ((a / 32) % 8)
  {
    var a1, a2, a3, a4, a5 := a / 2, a / 4, a / 8, a / 16, a / 32;
    HalfOfQuotient(a, 2);
    HalfOfQuotient(a, 4);
    HalfOfQuotient(a, 8);
    HalfOfQuotient(a, 16);
    BitAndEven(a, 0x70);
    BitAndEven(a1, 0x38);
    BitAndEven(a2, 0x1C);
    BitAndEven(a3, 0x0E);
    BitAndEven(a4, 0x07);
    assert BitAnd(a, 0xE0) == 32 * BitAnd(a5, 7);
    BitAndLowMask(a5, 3);
    assert Pow2(3) == 8;
  }

  lemma HalfOfQuotient(a: nat, p: nat)
    requires p > 0
    ensures (a / p) / 2 == a / (p * 2)
  {
    ModProduct(a, p, 2);
  }

  /** A mask whose lowest bit is clear: `a & 2c == 2 * ((a // 2) & c)`. */
  lemma BitAndEven(a: nat, c: nat)
    ensures BitAnd(a, 2 * c) == 2 * BitAnd(a / 2, c)
  {
    if a > 0 && c > 0 {
      DivModUnique(2 * c, 2, c, 0);
    }
  }

  /** Value of a most-significant-first string of `0`/`1` digits. */
  predicate IsBinary(s: string)
  {
    forall k :: 0 <= k < |s| ==> s[k] == '0' || s[k] == '1'
  }

  function BinaryValue(s: string): (v: nat)
    requires IsBinary(s)
    ensures v < Pow2(|s|)
  {
    if s == [] then 0
    else 2 * BinaryValue(s[..|s| - 1]) + (if s[|s| - 1] == '1' then 1 else 0)
  }

  /** `int(s, 2)`: fails (Python raises `ValueError`) on an empty text or any
      character that is not a binary digit. */
  function ParseBinary(s: string): (r: Option<nat>)
    ensures r.Some? <==> s != [] && IsBinary(s)
  {
    if s != [] && IsBinary(s) then Some(BinaryValue(s)) else None
  }

  /** `n` as exactly `width` binary digits, most significant first
      (`format(n, '0{width}b')` for `n < 2^width`). */
  function ToBinary(n: nat, width: nat): (s: string)
    ensures |s| == width && IsBinary(s)
  {
    if width == 0 then ""
    else ToBinary(n / 2, width - 1) + [if n % 2 == 1 then '1' else '0']
  }

  /** Reading back the digits written by `ToBinary` gives the number. */
  lemma {:induction false} BinaryRoundTrip(n: nat, width: nat)
    requires n < Pow2(width)
    ensures BinaryValue(ToBinary(n, width)) == n
  {
    if width > 0 {
      BinaryRoundTrip(n / 2, width - 1);
      var s := ToBinary(n, width);
      assert s[..|s| - 1] == ToBinary(n / 2, width - 1);
    }
  }

  predicate IsDecimal(s: string)
  {
    forall k :: 0 <= k < |s| ==> '0' <= s[k] <= '9'
  }

  function DecimalValue(s: string): nat
    requires IsDecimal(s)
  {
    if s == [] then 0
    else 10 * DecimalValue(s[..|s| - 1]) + (s[|s| - 1] as int - '0' as int)
  }

  /** `int(s)` on a plain string of decimal digits. */
  function ParseDecimal(s: string): (r: Option<nat>)
    ensures r.Some? <==> s != [] && IsDecimal(s)
  {
    if s != [] && IsDecimal(s) then Some(DecimalValue(s)) else None
  }

  /** The character of a decimal digit. */
  function DigitChar(d: nat): (c: char)
    requires d <= 9
    ensures '0' <= c <= '9' && c as int - '0' as int == d
  {
    ('0' as int + d) as char
  }

  /** `str(n)`: the decimal digits of `n`, most significant first, with no
      leading zero. */
  function ToDecimal(n: nat): (s: string)
    ensures s != [] && IsDecimal(s)
    ensures |s| > 1 ==> s[0] != '0'
    decreases n
  {
    if n < 10 then [DigitChar(n)] else ToDecimal(n / 10) + [DigitChar(n % 10)]
  }

  /** `int(str(n)) == n`. */
  lemma {:induction false} DecimalRoundTrip(n: nat)
    ensures ParseDecimal(ToDecimal(n)) == Some(n)
    decreases n
  {
    var s := ToDecimal(n);
    if n < 10 {
      assert s[..0] == [];
    } else {
      DecimalRoundTrip(n / 10);
      assert s[..|s| - 1] == ToDecimal(n / 10);
      assert DecimalValue(s) == 10 * (n / 10) + n % 10;
    }
  }

  /** More digits allow larger values. */
  lemma {:induction false} Pow2Monotone(m: nat, n: nat)
    requires m <= n
    ensures Pow2(m) <= Pow2(n)
    decreases n
  {
    if m < n {
      Pow2Monotone(m, n - 1);
    }
  }
}
