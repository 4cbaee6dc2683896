/** Number rendering used in an archive header: `n.toString(base)` for the
    decimal size/uid/gid fields and the octal permission field,
    `padStart`, and the bitwise `&` that keeps the permission bits of a
    file mode. `Value` reads a digit string back and is the partner every
    rendering is checked against. */
module Numerals {
  import opened Strings

  function DigitChar(d: nat): char
    requires d < 10
  {
    ('0' as int + d) as char
  }

  function DigitOf(c: char): int {
    c as int - '0' as int
  }

  predicate IsDigit(c: char, base: nat) {
    '0' <= c && (c as int) < '0' as int + base
  }

  /** `n.toString(base)` for a non-negative integer: the shortest digit
      string, so it starts with '0' only for zero. */
  function Digits(n: nat, base: nat): (s: string)
    requires 2 <= base <= 10
    ensures |s| >= 1
    ensures forall j :: 0 <= j < |s| ==> IsDigit(s[j], base)
    ensures s[0] == '0' <==> n == 0
    decreases n
  {
    if n < base then [DigitChar(n)]
    else
      DivFacts(n, base);
      Digits(n / base, base) + [DigitChar(n % base)]
  }

  /** Euclidean division facts for a dividend at least the divisor. */
  lemma DivFacts(n: nat, base: nat)
    requires 2 <= base <= n
    ensures 1 <= n / base < n
    ensures 0 <= n % base < base
    ensures n == (n / base) * base + n % base
  {
  }

  /** The number a digit string denotes in `base`. */
  function Value(s: string, base: nat): int {
    if s == [] then 0 else Value(s[..|s| - 1], base) * base + DigitOf(s[|s| - 1])
  }

  lemma ValueSnoc(s: string, c: char, base: nat)
    ensures Value(s + [c], base) == Value(s, base) * base + DigitOf(c)
  {
    assert (s + [c])[..|s|] == s;
  }

  /** Reading back a rendered number gives the number. */
  lemma {:induction false} ValueOfDigits(n: nat, base: nat)
    requires 2 <= base <= 10
    ensures Value(Digits(n, base), base) == n
    decreases n
  {
    if n < base {
      ValueSnoc([], DigitChar(n), base);
      assert [] + [DigitChar(n)] == [DigitChar(n)];
    } else {
      DivFacts(n, base);
      ValueOfDigits(n / base, base);
      DigitsStep(n, base, n / base, n % base);
    }
  }

  /** The inductive step of `ValueOfDigits`, with the division already done. */
  lemma DigitsStep(n: nat, base: nat, q: nat, d: nat)
    requires 2 <= base <= 10 && d < base
    requires n == q * base + d
    requires Digits(n, base) == Digits(q, base) + [DigitChar(d)]
    requires Value(Digits(q, base), base) == q
    ensures Value(Digits(n, base), base) == n
  {
    ValueSnoc(Digits(q, base), DigitChar(d), base);
    assert DigitOf(DigitChar(d)) == d;
  }

  lemma {:induction false} ZerosValue(k: nat, base: nat)
    ensures Value(Repeat('0', k), base) == 0
  {
    if k > 0 {
      assert Repeat('0', k)[..k - 1] == Repeat('0', k - 1);
      ZerosValue(k - 1, base);
    }
  }

  /** Padding with leading zeros does not change the number denoted. */
  lemma {:induction false} ValueIgnoresLeadingZeros(k: nat, s: string, base: nat)
    ensures Value(Repeat('0', k) + s, base) == Value(s, base)
    decreases |s|
  {
    if s == [] {
      assert Repeat('0', k) + s == Repeat('0', k);
      ZerosValue(k, base);
    } else {
      var z := Repeat('0', k) + s;
      assert z[..|z| - 1] == Repeat('0', k) + s[..|s| - 1];
      ValueIgnoresLeadingZeros(k, s[..|s| - 1], base);
    }
  }

  /** `s.padStart(len, fill)` for a one-character `fill`. */
  function PadStart(s: string, len: nat, fill: char): (r: string)
    ensures |r| == if |s| >= len then |s| else len
    ensures EndsWith(r, s)
    ensures forall j :: 0 <= j < |r| - |s| ==> r[j] == fill
  {
    if |s| >= len then s else Repeat(fill, len - |s|) + s
  }

  /** A number below 8^3 takes at most three octal digits. */
  lemma OctalFitsThree(n: nat)
    requires n < 512
    ensures |Digits(n, 8)| <= 3
  {
    if n >= 8 {
      assert n / 8 < 64;
      if n / 8 >= 8 {
        assert n / 8 / 8 < 8;
        assert |Digits(n / 8 / 8, 8)| == 1;
        assert |Digits(n / 8, 8)| == 2;
      }
    }
  }

  function Pow2(k: nat): (r: nat)
    ensures r >= 1
  {
    if k == 0 then 1 else 2 * Pow2(k - 1)
  }

  /** `a & b` on non-negative integers, computed bit by bit from the least
      significant end. */
  function BitAnd(a: nat, b: nat): nat
    decreases a
  {
    if a == 0 || b == 0 then 0
    else 2 * BitAnd(a / 2, b / 2) + (if a % 2 == 1 && b % 2 == 1 then 1 else 0)
  }

  lemma {:induction false} MulAtLeast(d: int, k: int)
    requires d > 0 && k >= 1
    ensures d * k >= d
    decreases k
  {
    if k > 1 {
      MulAtLeast(d, k - 1);
      assert d * k == d * (k - 1) + d;
    }
  }

  /** The remainder is the unique `y` in `[0, d)` with `a == d * t + y`. */
  lemma ModUnique(a: int, d: int, t: int, y: int)
    requires d > 0 && a == d * t + y && 0 <= y < d
    ensures a % d == y
  {
    var q, r := a / d, a % d;
    assert a == d * q + r;
    assert d * (t - q) == r - y;
    if t - q >= 1 {
      MulAtLeast(d, t - q);
    } else if q - t >= 1 {
      MulAtLeast(d, q - t);
    }
  }

  lemma ModDouble(a: nat, p: nat)
    requires p >= 1
    ensures 2 * ((a / 2) % p) + a % 2 == a % (2 * p)
  {
    var q := a / 2;
    var t := q / p;
    var u := q % p;
    assert q == p * t + u;
    assert a == 2 * q + a % 2;
    assert a == (2 * p) * t + (2 * u + a % 2);
    ModUnique(a, 2 * p, t, 2 * u + a % 2);
  }

  /** The number formed by the `k` least significant bits of `a`. */
  function LowBits(a: nat, k: nat): nat {
    if k == 0 then 0 else 2 * LowBits(a / 2, k - 1) + a % 2
  }

  lemma {:induction false} LowBitsOfZero(k: nat)
    ensures LowBits(0, k) == 0
  {
    if k > 0 {
      LowBitsOfZero(k - 1);
    }
  }

  /** Masking with 2^k - 1 keeps the `k` low bits. */
  lemma {:induction false} BitAndIsLowBits(a: nat, k: nat)
    ensures BitAnd(a, Pow2(k) - 1) == LowBits(a, k)
    decreases k
  {
    if a == 0 {
      LowBitsOfZero(k);
    } else if k > 0 {
      var p := Pow2(k - 1);
      var m := Pow2(k) - 1;
      assert m == 2 * p - 1;
      assert m % 2 == 1 && m / 2 == p - 1;
      BitAndIsLowBits(a / 2, k - 1);
    }
  }

  /** The `k` low bits of `a` are `a mod 2^k`. */
  lemma {:induction false} LowBitsIsMod(a: nat, k: nat)
    ensures LowBits(a, k) == a % Pow2(k)
    decreases k
  {
    if k > 0 {
      var p := Pow2(k - 1);
      LowBitsIsMod(a / 2, k - 1);
      ModDouble(a, p);
    }
  }

  /** `a & (2^k - 1) == a mod 2^k`. */
  lemma BitAndLowMask(a: nat, k: nat)
    ensures BitAnd(a, Pow2(k) - 1) == a % Pow2(k)
  {
    BitAndIsLowBits(a, k);
    LowBitsIsMod(a, k);
  }

  lemma Pow2Nine()
    ensures Pow2(9) == 512
  {
    assert Pow2(3) == 8;
    assert Pow2(6) == 64;
  }

  /** Truncating to 32 bits keeps the nine low bits. */
  lemma LowBitsOfLow32(mode: nat)
    ensures (mode % 0x1_0000_0000) % 512 == mode % 512
  {
    var q, r := mode / 0x1_0000_0000, mode % 0x1_0000_0000;
    var q', r' := r / 512, r % 512;
    assert mode == 0x1_0000_0000 * q + r;
    assert r == 512 * q' + r';
    assert mode == 512 * (0x80_0000 * q + q') + r';
    ModUnique(mode, 512, 0x80_0000 * q + q', r');
  }

  /** `mode & 0o777`: JavaScript's `&` works on the low 32 bits of its
      operands (ToInt32), and with the mask's sign bit clear the result is
      the `&` of the unsigned 32-bit representatives. */
  function PermissionBits(mode: nat): (m: nat)
    ensures m == mode % 512
  {
    var low32 := mode % 0x1_0000_0000;
    BitAndLowMask(low32, 9);
    Pow2Nine();
    LowBitsOfLow32(mode);
    BitAnd(low32, 511)
  }

  /** `(mode & 0o777).toString(8).padStart(3, '0')`: exactly three octal
      digits that read back as the permission bits of `mode`. */
  function Perms(mode: nat): (r: string)
    ensures |r| == 3
    ensures forall j :: 0 <= j < 3 ==> IsDigit(r[j], 8)
    ensures Value(r, 8) == mode % 512
  {
    var bits := PermissionBits(mode);
    var s := Digits(bits, 8);
    OctalFitsThree(bits);
    ValueOfDigits(bits, 8);
    ValueIgnoresLeadingZeros(3 - |s|, s, 8);
    PadStart(s, 3, '0')
  }

  /** Two modes render the same permission string exactly when they agree
      on their nine permission bits. */
  lemma PermsDetermineMode(a: nat, b: nat)
    ensures Perms(a) == Perms(b) <==> a % 512 == b % 512
  {
    if a % 512 == b % 512 {
      assert PermissionBits(a) == PermissionBits(b);
    }
  }
}
