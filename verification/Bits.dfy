/** Powers of two, bitwise exclusive-or on naturals and alignment, as the buddy
    arithmetic of the page allocator needs them. */
module Bits {

  function Pow2(n: nat): (r: nat)
    ensures r >= 1
  {
    if n == 0 then 1 else 2 * Pow2(n - 1)
  }

  lemma Pow2Small()
    ensures Pow2(0) == 1 && Pow2(1) == 2 && Pow2(2) == 4 && Pow2(3) == 8
    ensures Pow2(10) == 1024 && Pow2(11) == 2048
  {
    assert Pow2(4) == 16;
    assert Pow2(7) == 128;
    assert Pow2(10) == 1024;
  }

  lemma {:induction false} Pow2Monotone(m: nat, n: nat)
    requires m <= n
    ensures Pow2(m) <= Pow2(n)
    decreases n - m
  {
    if m < n {
      Pow2Monotone(m, n - 1);
    }
  }

  /** Bitwise exclusive-or, one binary digit at a time. */
  function Xor(a: nat, b: nat): nat {
    if a == 0 && b == 0 then 0
    else 2 * Xor(a / 2, b / 2) + (a % 2 + b % 2) % 2
  }

  lemma {:induction false} XorZero(a: nat)
    ensures Xor(a, 0) == a
  {
    if a > 0 {
      XorZero(a / 2);
    }
  }

  /** Bitwise or of the low n bits. */
  function Or(a: nat, b: nat, n: nat): (r: nat)
    ensures r < Pow2(n)
  {
    if n == 0 then 0
    else 2 * Or(a / 2, b / 2, n - 1) + if a % 2 == 1 || b % 2 == 1 then 1 else 0
  }

  lemma {:induction false} OrZero(a: nat, n: nat)
    requires a < Pow2(n)
    ensures Or(a, 0, n) == a
  {
    if n > 0 {
      OrZero(a / 2, n - 1);
    }
  }

  lemma {:induction false} OrZeroLeft(b: nat, n: nat)
    requires b < Pow2(n)
    ensures Or(0, b, n) == b
  {
    if n > 0 {
      OrZeroLeft(b / 2, n - 1);
    }
  }

  lemma OrStep(x: nat, y: nat, c: nat, d: nat, n: nat)
    requires n > 0
    ensures Or(2 * x + c, 2 * y + d, n) ==
      2 * Or(x + c / 2, y + d / 2, n - 1) + if c % 2 == 1 || d % 2 == 1 then 1 else 0
  {
    assert (2 * x + c) / 2 == x + c / 2 && (2 * y + d) / 2 == y + d / 2;
  }

  lemma TimesDouble(a: nat, m: nat)
    ensures a * (2 * m) == 2 * (a * m)
  {
  }

  /** The bits from k up and the bits below it can be taken apart. */
  lemma {:induction false} OrJoin(a: nat, b: nat, c: nat, d: nat, n: nat, k: nat)
    requires c < Pow2(k) && d < Pow2(k)
    ensures Or(a * Pow2(k) + c, b * Pow2(k) + d, n + k) == Or(a, b, n) * Pow2(k) + Or(c, d, k)
  {
    hide Or;
    if k > 0 {
      var m, high := Pow2(k - 1), Or(a, b, n);
      TimesDouble(a, m);
      TimesDouble(b, m);
      TimesDouble(high, m);
      OrJoin(a, b, c / 2, d / 2, n, k - 1);
      OrStep(a * m, b * m, c, d, n + k);
      OrStep(0, 0, c, d, k);
    }
  }

  /** A block of 2^order pages starts at a multiple of its size. */
  predicate Aligned(p: nat, order: nat) {
    p % Pow2(order) == 0
  }

  lemma ModDouble(p: nat, m: nat)
    requires m > 0
    ensures p % (2 * m) == 2 * ((p / 2) % m) + p % 2
  {
    var a, r := p / 2, p % 2;
    var q, b := a / m, a % m;
    assert a == q * m + b;
    assert p == q * (2 * m) + (2 * b + r);
    ModUnique(p, 2 * m, q, 2 * b + r);
  }

  lemma MulAtLeast(k: int, m: nat)
    requires k >= 1
    ensures k * m >= m
  {
    assert k * m == (k - 1) * m + m;
  }

  lemma MulNonNegative(k: nat, m: nat)
    ensures k * m >= 0
  {
  }

  lemma ModUnique(p: nat, m: nat, q: int, r: int)
    requires m > 0 && 0 <= r < m && p == q * m + r
    ensures p % m == r && p / m == q
  {
    var q', r' := p / m, p % m;
    assert p == q' * m + r';
    assert (q - q') * m == q * m - q' * m;
    assert (q' - q) * m == q' * m - q * m;
    if q > q' {
      MulAtLeast(q - q', m);
    } else if q < q' {
      MulAtLeast(q' - q, m);
    }
  }

  lemma AlignedHalf(p: nat, order: nat)
    requires order > 0
    ensures Aligned(p, order) <==> p % 2 == 0 && Aligned(p / 2, order - 1)
  {
    ModDouble(p, Pow2(order - 1));
  }

  lemma HalfMultiple(k: nat, m: nat)
    ensures k * m == (k / 2) * (2 * m) + (k % 2) * m
  {
    assert k == 2 * (k / 2) + k % 2;
    assert (2 * (k / 2)) * m == (k / 2) * (2 * m);
  }

  lemma ExactQuotient(p: nat, m: nat)
    requires m > 0 && p % m == 0
    ensures (p / m) * m == p
  {
  }

  lemma ClearBitMod(k: nat, m: nat)
    requires m > 0 && (k * m) % (2 * m) != 0
    ensures k * m >= m && (k * m - m) % (2 * m) == 0
  {
    HalfMultiple(k, m);
    var h, p := k / 2, k * m;
    var e := h * (2 * m);
    MulNonNegative(h, 2 * m);
    if k % 2 == 0 {
      assert p == e;
      ModUnique(p, 2 * m, h, 0);
    } else {
      assert p == e + m;
      ModUnique(e, 2 * m, h, 0);
    }
  }

  /** Clearing bit `order` of a page number aligned to it, but to no more. */
  lemma ClearBit(p: nat, order: nat)
    requires Aligned(p, order) && !Aligned(p, order + 1)
    ensures p >= Pow2(order) && Aligned(p - Pow2(order), order + 1)
  {
    var m := Pow2(order);
    ExactQuotient(p, m);
    assert Pow2(order + 1) == 2 * m;
    ClearBitMod(p / m, m);
  }

  /** What flipping bit `order` of an aligned page number does: it yields the
      other half of the enclosing block of the next order. */
  lemma {:induction false} FlipBit(p: nat, order: nat)
    requires Aligned(p, order)
    ensures Xor(p, Pow2(order)) == if Aligned(p, order + 1) then p + Pow2(order) else p - Pow2(order)
  {
    AlignedHalf(p, order + 1);
    if order == 0 {
      XorZero(p / 2);
    } else {
      AlignedHalf(p, order);
      FlipBit(p / 2, order - 1);
      assert Pow2(order) / 2 == Pow2(order - 1) && Pow2(order) % 2 == 0;
    }
  }

  lemma AlignedWeaken(p: nat, order: nat)
    requires Aligned(p, order + 1)
    ensures Aligned(p, order) && Aligned(p + Pow2(order), order)
  {
    var m := Pow2(order);
    var q := p / (2 * m);
    assert p == q * (2 * m) + p % (2 * m);
    assert p == (2 * q) * m;
    ModUnique(p, m, 2 * q, 0);
    ModUnique(p + m, m, 2 * q + 1, 0);
  }

  lemma ModHalf(p: nat, j: nat)
    requires j > 0
    ensures (p % Pow2(j)) / 2 == (p / 2) % Pow2(j - 1)
    ensures (p % Pow2(j)) % 2 == p % 2
  {
    ModDouble(p, Pow2(j - 1));
  }

  /** Clearing the low bits leaves alignment below them as it was. */
  lemma {:induction false} AlignedMod(p: nat, i: nat, j: nat)
    requires i <= j
    ensures Aligned(p % Pow2(j), i) <==> Aligned(p, i)
  {
    if i > 0 {
      var r := p % Pow2(j);
      assert r / 2 == (p / 2) % Pow2(j - 1) && r % 2 == p % 2 by { ModHalf(p, j); }
      AlignedHalf(p, i);
      AlignedHalf(r, i);
      AlignedMod(p / 2, i - 1, j - 1);
    }
  }

  lemma ModAtMost(p: nat, m: nat)
    requires m > 0
    ensures p % m <= p
  {
    if p < m {
      ModUnique(p, m, 0, p);
    }
  }

  /** The start of the block of this order that contains page p. */
  function RoundDown(p: nat, order: nat): nat {
    ModAtMost(p, Pow2(order));
    p - p % Pow2(order)
  }

  lemma SubtractInBlock(p: nat, m: nat, d: nat)
    requires m > 0 && p % m >= d
    ensures p >= d && (p - d) % m == p % m - d
  {
    var q := p / m;
    assert p == q * m + p % m;
    MulNonNegative(q, m);
    ModUnique(p - d, m, q, p % m - d);
  }

  lemma AlignedAtLeast(r: nat, order: nat)
    requires Aligned(r, order) && r > 0
    ensures r >= Pow2(order)
  {
    if r < Pow2(order) {
      ModUnique(r, Pow2(order), 0, r);
    }
  }

  /** The lower of an aligned page and its buddy starts the enclosing block, for
      every larger order alike. */
  lemma RoundDownBuddy(p: nat, order: nat, j: nat)
    requires Aligned(p, order) && !Aligned(p, order + 1) && order < j
    ensures p >= Pow2(order) && RoundDown(p - Pow2(order), j) == RoundDown(p, j)
  {
    var m, d := Pow2(j), Pow2(order);
    assert p % m >= d by {
      AlignedMod(p, order, j);
      AlignedMod(p, order + 1, j);
      ModUnique(0, Pow2(order + 1), 0, 0);
      AlignedAtLeast(p % m, order);
    }
    SubtractInBlock(p, m, d);
  }
}
