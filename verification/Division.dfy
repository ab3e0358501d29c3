/** 64-bit division from a 64-by-32-bit divide (src/lib/arithmetic.c). */
module Division {
  import opened Bitmaps
  import opened MachineIntegers

  /** The DIVL instruction traps unless the quotient fits 32 bits. */
  method Divl(n: u64, d: u32) returns (q: u32)
    requires d != 0 && n / d < 0x1_0000_0000
    ensures q == n / d
  {
    q := n / d;
  }

  /** The number of leading zeros: shifting by it brings the highest bit to the top. */
  method Nlz(word: u32) returns (n: nat)
    requires word != 0
    ensures n <= 31 && 0x8000_0000 <= word * Pow2(n) < 0x1_0000_0000
  {
    hide Pow2;
    Powers();
    n := 0;
    var x := word;
    if x <= 0x0000_FFFF {
      n, x := n + 16, x * 0x1_0000;
    }
    if x <= 0x00FF_FFFF {
      Shifted(word, n, 8, 0x100);
      n, x := n + 8, x * 0x100;
    }
    if x <= 0x0FFF_FFFF {
      Shifted(word, n, 4, 0x10);
      n, x := n + 4, x * 0x10;
    }
    if x <= 0x3FFF_FFFF {
      Shifted(word, n, 2, 4);
      n, x := n + 2, x * 4;
    }
    assert x == word * Pow2(n) && x > 0x3FFF_FFFF;
    if x <= 0x7FFF_FFFF {
      Shifted(word, n, 1, 2);
      n := n + 1;
    }
  }

  lemma Powers()
    ensures Pow2(0) == 1 && Pow2(1) == 2 && Pow2(2) == 4 && Pow2(4) == 0x10 && Pow2(8) == 0x100 && Pow2(16) == 0x1_0000
  {
  }

  lemma {:induction false} PowSum(a: nat, b: nat)
    ensures Pow2(a + b) == Pow2(a) * Pow2(b)
  {
    if a > 0 {
      PowSum(a - 1, b);
      assert Pow2(a) * Pow2(b) == 2 * (Pow2(a - 1) * Pow2(b));
    }
  }

  lemma Shifted(word: nat, n: nat, k: nat, factor: nat)
    requires factor == Pow2(k)
    ensures word * Pow2(n) * factor == word * Pow2(n + k)
  {
    PowSum(n, k);
    assert word * Pow2(n) * Pow2(k) == word * (Pow2(n) * Pow2(k));
  }

  // ----- the two cases of udiv64 ----------------------------------------------------------------------------

  lemma MulMonotone(a: int, b: int, d: nat)
    requires a <= b
    ensures a * d <= b * d
  {
    assert (b - a) * d >= 0;
  }

  /** N = Q D + R with R < D determines the quotient. */
  lemma QuotientIs(n: nat, d: nat, q: nat)
    requires d > 0 && q * d <= n < q * d + d
    ensures n / d == q
  {
    var k, r := n / d, n % d;
    assert n == k * d + r;
    if k < q {
      MulMonotone(k + 1, q, d);
    } else if k > q {
      MulMonotone(q + 1, k, d);
    }
  }

  lemma Combine(b: nat, n1: nat, n0: nat, d: nat, t: nat, r: nat, q: nat, rem: nat)
    requires n1 == t * d + r && b * r + n0 == q * d + rem
    ensures b * n1 + n0 == (q + b * t) * d + rem
  {
    assert b * n1 == b * (t * d) + b * r;
    assert b * (t * d) == (b * t) * d;
    assert (q + b * t) * d == q * d + (b * t) * d;
  }

  lemma FitsWord(b: nat, r: nat, n0: nat, d: nat, q: nat)
    requires n0 < b && r < d && q * d <= b * r + n0
    ensures q < b
  {
    MulMonotone(r, d - 1, b);
    assert b * r == r * b && b * d == d * b;
    if q >= b {
      MulMonotone(b, q, d);
    }
  }

  /** A divisor of one word: the high word is divided first. */
  lemma SchoolDivision(n1: u32, n0: u32, d: u32)
    requires d > 0
    ensures var b := 0x1_0000_0000;
      && (b * (n1 % d) + n0) / d < b
      && (b * (n1 % d) + n0) / d + b * (n1 / d) == (b * n1 + n0) / d
  {
    var b := 0x1_0000_0000;
    var r, t := n1 % d, n1 / d;
    var m := b * r + n0;
    var q, rem := m / d, m % d;
    Combine(b, n1, n0, d, t, r, q, rem);
    QuotientIs(b * n1 + n0, d, q + b * t);
    FitsWord(b, r, n0, d, q);
  }

  /** LOW, the divisor without its lowest bits, is close enough to D that a quotient by it is at most
      one too large. */
  lemma Estimate(n: nat, d: nat, low: nat, p: nat, q: nat)
    requires n < 0x1_0000_0000_0000_0000 && q >= 1 && q * low <= n
    requires p >= 2 && low <= d <= low + p - 1 && low >= 0x8000_0000 * p
    ensures (q - 1) * d <= n
  {
    MulMonotone(0x8000_0000 * p, low, q);
    assert q * low == low * q;
    assert (0x8000_0000 * p) * q == 0x8000_0000 * (q * p);
    Slack(q, p);
    MulMonotone(d - low, p - 1, q - 1);
    Distribute(q, d, low);
    assert (p - 1) * (q - 1) == (q - 1) * (p - 1);
  }

  lemma Distribute(q: nat, d: nat, low: nat)
    requires q >= 1
    ensures (q - 1) * d == q * low - low + (d - low) * (q - 1)
  {
    assert (q - 1) * d == (q - 1) * low + (q - 1) * (d - low);
  }

  lemma Slack(q: nat, p: nat)
    requires p >= 2 && q >= 1 && 0x8000_0000 * (q * p) < 0x1_0000_0000_0000_0000
    ensures (q - 1) * (p - 1) <= 0x8000_0000 * p
  {
    assert q * p < 0x2_0000_0000;
    assert (q - 1) * (p - 1) == q * p - q - p + 1;
    if p == 2 {
    } else if p == 3 {
    } else {
      assert 0x8000_0000 * p >= 0x2_0000_0000;
    }
  }

  lemma DivMod(n: nat, d: nat)
    requires d > 0
    ensures (n / d) * d <= n < (n / d) * d + d
  {
    assert n == (n / d) * d + n % d;
  }

  lemma CancelLe(a: int, b: int, w: nat)
    requires w > 0 && a * w <= b * w
    ensures a <= b
  {
    if a > b {
      MulMonotone(b + 1, a, w);
    }
  }

  lemma CancelLt(a: int, b: int, w: nat)
    requires w > 0 && a * w < b * w
    ensures a < b
  {
    if a >= b {
      MulMonotone(b, a, w);
    }
  }

  lemma Nested(a: nat, b: nat, c: nat, x: nat, y: nat)
    requires b > 0 && c > 0 && x * b <= a < x * b + b && y * c <= x < y * c + c
    ensures y * (b * c) <= a < y * (b * c) + b * c
  {
    MulMonotone(y * c, x, b);
    MulMonotone(x + 1, y * c + c, b);
    Reorder(y, b, c);
    assert (x + 1) * b == x * b + b;
  }

  lemma Reorder(y: nat, b: nat, c: nat)
    ensures y * c * b == y * (b * c) && (y * c + c) * b == y * (b * c) + b * c
  {
    assert y * c * b == y * (c * b);
    assert (y * c + c) * b == y * c * b + c * b;
  }

  /** Dividing twice is dividing by the product. */
  lemma DivDiv(a: nat, b: nat, c: nat)
    requires b > 0 && c > 0
    ensures b * c > 0 && a / b / c == a / (b * c)
  {
    MulMonotone(1, c, b);
    DivMod(a, b);
    DivMod(a / b, c);
    Nested(a, b, c, a / b, a / b / c);
    QuotientIs(a, b * c, a / b / c);
  }

  /** A divisor shifted up by the leading zeros of its high word D1 fills 64 bits; W = 2^s and P = 2^(32-s). */
  lemma ShiftedUp(d: nat, d1: nat, w: nat, p: nat)
    requires w > 0 && p * w == 0x1_0000_0000 && d1 * 0x1_0000_0000 <= d < d1 * 0x1_0000_0000 + 0x1_0000_0000
    requires 0x8000_0000 <= d1 * w < 0x1_0000_0000
    ensures 0x8000_0000_0000_0000 <= d * w < 0x1_0000_0000_0000_0000
  {
    var b := 0x1_0000_0000;
    CancelLt(d1, p, w);
    MulMonotone(d1 + 1, p, w);
    MulMonotone(d + 1, (d1 + 1) * b, w);
    assert (d + 1) * w == d * w + w;
    assert (d1 + 1) * b * w == (d1 + 1) * w * b;
    MulMonotone((d1 + 1) * w, b, b);
    MulMonotone(d1 * b, d, w);
    assert d1 * b * w == d1 * w * b;
    MulMonotone(0x8000_0000, d1 * w, b);
  }

  /** Cutting the shifted divisor to its high word rounds D down to a multiple of P. */
  lemma RoundedDown(d: nat, w: nat, p: nat, v: nat)
    requires w > 0 && p * w == 0x1_0000_0000 && v * 0x1_0000_0000 <= d * w < v * 0x1_0000_0000 + 0x1_0000_0000
    ensures v * p <= d <= v * p + p - 1
  {
    assert v * 0x1_0000_0000 == v * p * w && (v + 1) * 0x1_0000_0000 == (v * p + p) * w;
    CancelLe(v * p, d, w);
    CancelLt(d, v * p + p, w);
  }

  lemma Normalised(d: nat, w: nat, p: nat, v: nat)
    requires w > 0 && p > 0 && p * w == 0x1_0000_0000 && v == d * w / 0x1_0000_0000
    requires 0x8000_0000 <= d / 0x1_0000_0000 * w < 0x1_0000_0000
    ensures d * w < 0x1_0000_0000_0000_0000 && 0x8000_0000 <= v < 0x1_0000_0000
    ensures v * p <= d <= v * p + p - 1
  {
    DivMod(d, 0x1_0000_0000);
    ShiftedUp(d, d / 0x1_0000_0000, w, p);
    DivMod(d * w, 0x1_0000_0000);
    RoundedDown(d, w, p, v);
  }

  /** A quotient Q by a divisor LOW that is a little too small needs at most one correction. */
  lemma Corrected(n: nat, d: nat, low: nat, p: nat, q: nat)
    requires p >= 2 && n < 0x1_0000_0000_0000_0000 && d <= n && low >= 0x8000_0000 * p && low <= d <= low + p - 1
    requires q * low <= n < q * low + low
    ensures q >= 1 && (q - 1) * d <= n && n / d == if n - (q - 1) * d < d then q - 1 else q
  {
    AtLeastOne(n, low, q);
    Estimate(n, d, low, p, q);
    MulMonotone(low, d, q + 1);
    assert (q + 1) * low == q * low + low && low * (q + 1) == (q + 1) * low && d * (q + 1) == q * d + d;
    assert (q - 1) * d + d == q * d;
    if n - (q - 1) * d < d {
      QuotientIs(n, d, q - 1);
    } else {
      QuotientIs(n, d, q);
    }
  }

  lemma AtLeastOne(n: nat, low: nat, q: nat)
    requires 0 < low <= n < q * low + low
    ensures q >= 1
  {
  }

  /** The two shifts of udiv64 together divide by V 2^(32-s). */
  lemma Rounded(n: nat, v: nat, p: nat, half: nat)
    requires p == 2 * half && half > 0 && v > 0
    ensures v * p > 0 && n / 2 / v / half == n / (v * p)
  {
    DivDiv(n, 2, v);
    DivDiv(n, 2 * v, half);
    assert 2 * v * half == v * p;
  }

  /** The whole of the second case: S is the number of leading zeros of the divisor's high word. */
  lemma LargeDivision(n: u64, d: u64, s: nat)
    requires d <= n && s <= 31 && 0x8000_0000 <= d / 0x1_0000_0000 * Pow2(s) < 0x1_0000_0000
    ensures var v := d * Pow2(s) / 0x1_0000_0000;
      && 0 < v < 0x1_0000_0000 && n / 2 / v < 0x1_0000_0000 && d * Pow2(s) < 0x1_0000_0000_0000_0000
      && Pow2(31 - s) > 0
      && var e := n / 2 / v / Pow2(31 - s); e >= 1 && (e - 1) * d <= n && n / d == if n - (e - 1) * d < d then e - 1 else e
  {
    hide Pow2;
    PowSum(32 - s, s);
    PowSum(31 - s, 1);
    Constants(s);
    var p, v := Pow2(32 - s), d * Pow2(s) / 0x1_0000_0000;
    Normalised(d, Pow2(s), p, v);
    Rounded(n, v, p, Pow2(31 - s));
    DivMod(n, v * p);
    WideQuotient(n / 2, v);
    MulMonotone(0x8000_0000, v, p);
    Corrected(n, d, v * p, p, n / (v * p));
  }

  lemma Constants(s: nat)
    requires s <= 31
    ensures Pow2(32) == 0x1_0000_0000 && Pow2(1) == 2 && Pow2(s) > 0 && Pow2(31 - s) > 0
  {
    Powers();
    PowSum(16, 16);
  }

  /** udiv64: the quotient, for every divisor but zero; neither division traps. */
  method Udiv64(n: u64, d: u64) returns (q: u64)
    requires d != 0
    ensures q == n / d
  {
    hide Pow2;
    var b := 0x1_0000_0000;
    if d / b == 0 {
      var n1, n0 := n / b, n % b;
      SchoolDivision(n1, n0, d);
      var low := Divl(b * (n1 % d) + n0, d);
      SmallFits(n, d);
      q := low + b * (n1 / d);
    } else if n < d {
      QuotientIs(n, d, 0);
      q := 0;
    } else {
      var s := Nlz(d / b);
      LargeDivision(n, d, s);
      var v := d * Pow2(s) / b;
      var top := Divl(n / 2, v);
      var e := top / Pow2(31 - s);
      q := if n - (e - 1) * d < d then e - 1 else e;
    }
  }

  lemma SmallFits(n: u64, d: u64)
    requires d != 0
    ensures 0 <= n / d < 0x1_0000_0000_0000_0000
  {
    AbsQuotient(n, d);
  }

  lemma WideQuotient(n: nat, v: nat)
    requires n < 0x8000_0000_0000_0000 && v >= 0x8000_0000
    ensures n / v < 0x1_0000_0000
  {
    DivMod(n, v);
    if n / v >= 0x1_0000_0000 {
      MulMonotone(0x1_0000_0000, n / v, v);
    }
  }

  /** umod64, whose result has 32 bits. */
  method Umod64(n: u64, d: u64) returns (r: u32)
    requires d != 0
    ensures r == n % d % 0x1_0000_0000
  {
    var q := Udiv64(n, d);
    assert n - d * q == n % d;
    r := (n - d * q) % 0x1_0000_0000;
  }

  function Abs(x: int): nat {
    if x < 0 then -x else x
  }

  /** C's division: toward zero. */
  function Truncated(n: int, d: int): int
    requires d != 0
  {
    if (n < 0) == (d < 0) then Abs(n) / Abs(d) else -(Abs(n) / Abs(d))
  }

  /** Conversion to 64 signed bits, and negation in them. */
  function Wrap(x: int): (r: i64)
    ensures -0x8000_0000_0000_0000 <= x < 0x8000_0000_0000_0000 ==> r == x
  {
    (x + 0x8000_0000_0000_0000) % 0x1_0000_0000_0000_0000 - 0x8000_0000_0000_0000
  }

  /** sdiv64: right except for the one quotient that 64 signed bits cannot hold. */
  method Sdiv64(n: i64, d: i64) returns (q: i64)
    requires d != 0
    ensures q == Truncated(n, d) <==> !(n == -0x8000_0000_0000_0000 && d == -1)
    ensures n == -0x8000_0000_0000_0000 && d == -1 ==> q == n
  {
    var nAbs, dAbs := Abs(n), Abs(d);
    var qAbs := Udiv64(nAbs, dAbs);
    AbsQuotient(nAbs, dAbs);
    var word: int := Wrap(qAbs);
    q := if (n < 0) == (d < 0) then word else Wrap(-word);
  }

  lemma AbsQuotient(n: nat, d: nat)
    requires d > 0
    ensures n / d <= n && (d > 1 && n > 0 ==> n / d < n) && (d == 1 ==> n / d == n)
  {
    DivMod(n, d);
    MulMonotone(1, d, n / d);
    if d > 1 {
      MulMonotone(2, d, n / d);
    }
  }
}
