/** Powers of two, rounding to an alignment, and the arithmetic of multiples that the
    layout calculator and the arenas share.

    An alignment is kept as its exponent, as `Align { pow2 }` keeps it; masking with
    `2^k - 1` is written as reduction modulo `2^k`.
 */
module PowersOfTwo {

  function Pow2(n: nat): (p: nat)
    ensures p >= 1
  {
    if n == 0 then 1 else 2 * Pow2(n - 1)
  }

  /** The number of 64-bit and of 128-bit words. */
  const U64: nat := 0x1_0000_0000_0000_0000
  const U128: nat := 0x1_0000_0000_0000_0000_0000_0000_0000_0000

  function Max(a: nat, b: nat): nat {
    if a < b then b else a
  }

  function Min(a: nat, b: nat): nat {
    if a < b then a else b
  }

  /** `x` is a multiple of `2^k`: its low `k` bits are clear. */
  predicate IsMultiple(x: int, k: nat)
  {
    x % Pow2(k) == 0
  }

  /** A product with a nonzero factor is at least as large as the other factor. */
  lemma {:induction false} ProductBounds(d: int, m: int)
    requires m > 0
    ensures d >= 1 ==> d * m >= m
    ensures d <= 0 ==> d * m <= 0
    ensures d <= -1 ==> d * m <= -m
  {
    if d >= 1 {
      assert (d - 1) * m >= 0;
    } else {
      assert (-d) * m >= 0;
      if d <= -1 {
        assert (-d - 1) * m >= 0;
      }
    }
  }

  lemma {:induction false} Scale(a: int, b: int, m: int)
    requires a <= b && m >= 0
    ensures a * m <= b * m && m * a <= m * b
  {
    assert (b - a) * m >= 0;
  }

  /** The Euclidean quotient and remainder are the only ones. */
  lemma {:induction false} DivModUnique(q: int, m: int, r: int)
    requires 0 <= r < m
    ensures (q * m + r) % m == r
    ensures (q * m + r) / m == q
  {
    var x := q * m + r;
    var d := x / m - q;
    assert x == (x / m) * m + x % m;
    assert d * m == r - x % m;
    ProductBounds(d, m);
  }

  lemma {:induction false} WholeTurns(x: nat, m: nat)
    requires m > 0
    ensures 0 <= x / m * m <= x < x / m * m + m
    ensures x / m * m % m == 0
  {
    var q := x / m;
    assert x == q * m + x % m;
    DivModUnique(q, m, 0);
    ProductBounds(-q, m);
  }

  /** Reduction of a number within one modulus of the range. */
  lemma {:induction false} ModNear(x: int, m: int)
    requires m > 0 && -m <= x < 2 * m
    ensures x % m == if x < 0 then x + m else if x < m then x else x - m
  {
    if x < 0 {
      DivModUnique(-1, m, x + m);
    } else if x < m {
      DivModUnique(0, m, x);
    } else {
      DivModUnique(1, m, x - m);
    }
  }

  /** Reduction by a multiple of the modulus first changes nothing. */
  lemma {:induction false} ModMod(x: int, c: int, m: int)
    requires c > 0 && m > 0 && c * m > 0
    ensures x % (c * m) % m == x % m
  {
    var q, r := x / (c * m), x % (c * m);
    assert x == q * (c * m) + r;
    assert q * (c * m) == (q * c) * m;
    assert r == (r / m) * m + r % m;
    assert x == (q * c + r / m) * m + r % m;
    DivModUnique(q * c + r / m, m, r % m);
  }

  /** Reducing a term of a sum or difference first changes nothing. */
  lemma {:induction false} ModInner(x: int, y: int, m: int)
    requires m > 0
    ensures (x + y % m) % m == (x + y) % m
    ensures (x - y % m) % m == (x - y) % m
  {
    InnerTurns(x, y, m, y / m, y % m);
  }

  lemma {:induction false} InnerTurns(x: int, y: int, m: int, q: int, r: int)
    requires m > 0 && y == m * q + r
    ensures (x + r) % m == (x + y) % m && (x - r) % m == (x - y) % m
  {
    ModTurns(x + r, q, m);
    ModTurns(x - y, q, m);
    assert m * q == q * m;
  }

  lemma {:induction false} ModTurns(x: int, q: int, m: int)
    requires m > 0
    ensures (x + q * m) % m == x % m
  {
    assert x + q * m == (x / m + q) * m + x % m;
    DivModUnique(x / m + q, m, x % m);
  }

  lemma {:induction false} Pow2Add(a: nat, b: nat)
    ensures Pow2(a + b) == Pow2(a) * Pow2(b)
  {
    if b > 0 {
      Pow2Add(a, b - 1);
      assert Pow2(a + b) == 2 * Pow2(a + b - 1);
    }
  }

  lemma {:induction false} Squared(n: nat, p: nat)
    requires Pow2(n) == p
    ensures Pow2(2 * n) == p * p
  {
    Pow2Add(n, n);
  }

  lemma {:induction false} WordCounts()
    ensures Pow2(8) == 0x100 && Pow2(16) == 0x1_0000 && Pow2(32) == 0x1_0000_0000
    ensures Pow2(64) == U64 && Pow2(128) == U128
  {
    Squared(1, 2);
    Squared(2, 4);
    Squared(4, 0x10);
    Squared(8, 0x100);
    Squared(16, 0x1_0000);
    Squared(32, 0x1_0000_0000);
    Squared(64, U64);
  }

  lemma {:induction false} Pow2Monotone(a: nat, b: nat)
    requires a <= b
    ensures Pow2(a) <= Pow2(b)
    ensures a < b ==> 2 * Pow2(a) <= Pow2(b)
  {
    if a < b {
      Pow2Monotone(a, b - 1);
    }
  }

  lemma {:induction false} HalfRemainder(x: nat, m: nat)
    requires m > 0
    ensures x % (2 * m) == 2 * (x / 2 % m) + x % 2
  {
    var h := x / 2;
    assert h == (h / m) * m + h % m;
    assert x == (h / m) * (2 * m) + (2 * (h % m) + x % 2);
    DivModUnique(h / m, 2 * m, 2 * (h % m) + x % 2);
  }

  lemma {:induction false} ProductIsMultiple(q: int, k: nat)
    ensures IsMultiple(q * Pow2(k), k)
  {
    DivModUnique(q, Pow2(k), 0);
  }

  lemma {:induction false} MultipleAdd(x: int, y: int, k: nat)
    requires IsMultiple(x, k) && IsMultiple(y, k)
    ensures IsMultiple(x + y, k) && IsMultiple(x - y, k)
  {
    var m := Pow2(k);
    assert x == (x / m) * m && y == (y / m) * m;
    assert x + y == (x / m + y / m) * m && x - y == (x / m - y / m) * m;
    ProductIsMultiple(x / m + y / m, k);
    ProductIsMultiple(x / m - y / m, k);
  }

  lemma {:induction false} MultipleScale(x: int, c: int, k: nat)
    requires IsMultiple(x, k)
    ensures IsMultiple(c * x, k) && IsMultiple(x * c, k)
  {
    var q := x / Pow2(k);
    assert c * x == (c * q) * Pow2(k);
    ProductIsMultiple(c * q, k);
  }

  lemma {:induction false} MultipleWeaken(x: int, i: nat, j: nat)
    requires i <= j && IsMultiple(x, j)
    ensures IsMultiple(x, i)
  {
    Pow2Add(j - i, i);
    ModMod(x, Pow2(j - i), Pow2(i));
  }

  lemma {:induction false} Pow2IsMultiple(i: nat, j: nat)
    requires i <= j
    ensures IsMultiple(Pow2(j), i)
  {
    ProductIsMultiple(1, j);
    MultipleWeaken(Pow2(j), i, j);
  }

  /** A positive multiple of `2^k` is at least `2^k`; two distinct multiples are `2^k` apart. */
  lemma {:induction false} MultiplesApart(x: int, y: int, k: nat)
    requires IsMultiple(x, k) && IsMultiple(y, k) && x < y
    ensures x + Pow2(k) <= y
  {
    MultipleAdd(y, x, k);
    var q := (y - x) / Pow2(k);
    assert y - x == q * Pow2(k);
    ProductBounds(q, Pow2(k));
  }

  /** `Size::align_to`: the least multiple of `2^k` that is not below `x`. */
  function AlignTo(x: nat, k: nat): (r: nat)
    ensures x <= r < x + Pow2(k)
    ensures IsMultiple(r, k)
  {
    WholeTurns(x + Pow2(k) - 1, Pow2(k));
    (x + Pow2(k) - 1) / Pow2(k) * Pow2(k)
  }

  lemma {:induction false} AlignToLeast(x: nat, k: nat, y: nat)
    requires x <= y && IsMultiple(y, k)
    ensures AlignTo(x, k) <= y
  {
    if y < AlignTo(x, k) {
      MultiplesApart(y, AlignTo(x, k), k);
    }
  }

  lemma {:induction false} AlignToFixed(x: nat, k: nat)
    requires IsMultiple(x, k)
    ensures AlignTo(x, k) == x
  {
    AlignToLeast(x, k, x);
  }

  lemma {:induction false} AlignToMonotone(x: nat, y: nat, k: nat)
    requires x <= y
    ensures AlignTo(x, k) <= AlignTo(y, k)
  {
    AlignToLeast(x, k, AlignTo(y, k));
  }

  lemma {:induction false} AlignToShift(x: nat, s: nat, k: nat)
    requires IsMultiple(s, k)
    ensures AlignTo(x + s, k) == AlignTo(x, k) + s
  {
    MultipleAdd(AlignTo(x, k), s, k);
    AlignToLeast(x + s, k, AlignTo(x, k) + s);
    MultipleAdd(AlignTo(x + s, k), s, k);
    AlignToLeast(x, k, AlignTo(x + s, k) - s);
  }

  lemma {:induction false} AlignToAbsorb(x: nat, i: nat, j: nat)
    requires i <= j
    ensures AlignTo(AlignTo(x, i), j) == AlignTo(x, j)
  {
    AlignToMonotone(x, AlignTo(x, i), j);
    MultipleWeaken(AlignTo(x, j), i, j);
    AlignToLeast(x, i, AlignTo(x, j));
    AlignToLeast(AlignTo(x, i), j, AlignTo(x, j));
  }

  /** `align_down`: the greatest multiple of `2^k` that is not above `x`. */
  function AlignDown(x: nat, k: nat): (r: nat)
    ensures r <= x < r + Pow2(k)
    ensures IsMultiple(r, k)
  {
    WholeTurns(x, Pow2(k));
    x / Pow2(k) * Pow2(k)
  }

  lemma {:induction false} AlignDownGreatest(x: nat, k: nat, y: nat)
    requires y <= x && IsMultiple(y, k)
    ensures y <= AlignDown(x, k)
  {
    if AlignDown(x, k) < y {
      MultiplesApart(AlignDown(x, k), y, k);
    }
  }

  lemma {:induction false} AlignDownFixed(x: nat, k: nat)
    requires IsMultiple(x, k)
    ensures AlignDown(x, k) == x
  {
    AlignDownGreatest(x, k, x);
  }

  lemma {:induction false} UpIsDown(x: nat, k: nat)
    ensures AlignTo(x, k) == AlignDown(x + (Pow2(k) - 1), k)
  {
    var up, down := AlignTo(x, k), AlignDown(x + (Pow2(k) - 1), k);
    AlignToLeast(x, k, down);
    if up < down {
      MultiplesApart(up, down, k);
    }
  }

  lemma {:induction false} AlignDownIsMasking(x: nat, k: nat)
    ensures AlignDown(x, k) == x - x % Pow2(k)
  {
    var m, d := Pow2(k), AlignDown(x, k);
    assert d == (d / m) * m;
    DivModUnique(d / m, m, x - d);
  }

  // ----- masks

  /** The bitwise conjunction of two words. */
  function And(a: nat, b: nat): nat {
    if a == 0 || b == 0 then 0 else 2 * And(a / 2, b / 2) + (a % 2) * (b % 2)
  }

  /** The bitwise complement of a word of `w` bits. */
  function Not(a: nat, w: nat): nat
    requires a < Pow2(w)
  {
    Pow2(w) - 1 - a
  }

  /** Conjunction with a word that has ones from bit `k` on clears the bits below. */
  lemma {:induction false} ClearsLowBits(x: nat, k: nat, w: nat)
    requires x < Pow2(w) && k <= w
    ensures Pow2(k) <= Pow2(w) && And(x, Pow2(w) - Pow2(k)) == x - x % Pow2(k)
    decreases w
  {
    Pow2Monotone(k, w);
    if k > 0 {
      ClearsLowBits(x / 2, k - 1, w - 1);
      MaskStep(x, Pow2(k - 1), Pow2(w - 1));
    } else {
      KeepsAllBits(x, w);
    }
  }

  lemma {:induction false} MaskStep(x: nat, m: nat, n: nat)
    requires 0 < m <= n && And(x / 2, n - m) == x / 2 - x / 2 % m
    ensures And(x, 2 * n - 2 * m) == x - x % (2 * m)
  {
    HalfRemainder(x, m);
    EvenMask(x, n - m);
    assert 2 * (n - m) == 2 * n - 2 * m;
  }

  lemma {:induction false} KeepsAllBits(x: nat, w: nat)
    requires x < Pow2(w)
    ensures And(x, Pow2(w) - 1) == x
  {
    if w > 0 {
      KeepsAllBits(x / 2, w - 1);
      OddMask(x, Pow2(w - 1) - 1);
    }
  }

  lemma {:induction false} EvenMask(x: nat, m: nat)
    ensures And(x, 2 * m) == 2 * And(x / 2, m)
  {
    assert 2 * m / 2 == m;
  }

  lemma {:induction false} OddMask(x: nat, m: nat)
    ensures And(x, 2 * m + 1) == 2 * And(x / 2, m) + x % 2
  {
    assert (2 * m + 1) / 2 == m;
  }

  /** The two roundings with the mask `2^k - 1`, in words of `w` bits: `align_up` adds the mask and
      then clears its bits, `align_down` clears them. */
  lemma {:induction false} RoundingIsMasking(x: nat, k: nat, w: nat)
    requires k <= w && x < Pow2(w)
    ensures var mask := Pow2(k) - 1;
            && mask < Pow2(w)
            && AlignDown(x, k) == And(x, Not(mask, w))
            && (x + mask < Pow2(w) ==> AlignTo(x, k) == And(x + mask, Not(mask, w)))
  {
    var mask := Pow2(k) - 1;
    ClearsLowBits(x, k, w);
    AlignDownIsMasking(x, k);
    if x + mask < Pow2(w) {
      UpIsDown(x, k);
      ClearsLowBits(x + mask, k, w);
      AlignDownIsMasking(x + mask, k);
    }
  }

  /** `u64::trailing_zeros` of a nonzero word: the exponent of the largest power of two
      that divides it. */
  function TrailingZeros(x: nat): (k: nat)
    requires x > 0
    ensures IsMultiple(x, k) && !IsMultiple(x, k + 1)
  {
    if x % 2 == 1 then 0
    else
      var k := TrailingZeros(x / 2);
      Half(x, k);
      Half(x, k + 1);
      k + 1
  }

  lemma {:induction false} Half(x: nat, k: nat)
    requires x % 2 == 0
    ensures IsMultiple(x, k + 1) <==> IsMultiple(x / 2, k)
  {
    HalfRemainder(x, Pow2(k));
  }

  lemma {:induction false} TrailingZerosGreatest(x: nat, k: nat)
    requires x > 0 && IsMultiple(x, k)
    ensures k <= TrailingZeros(x)
  {
    if TrailingZeros(x) < k {
      MultipleWeaken(x, TrailingZeros(x) + 1, k);
    }
  }

  lemma {:induction false} TrailingZerosOfPow2(k: nat)
    ensures TrailingZeros(Pow2(k)) == k
  {
    ProductIsMultiple(1, k);
    TrailingZerosGreatest(Pow2(k), k);
    var t := TrailingZeros(Pow2(k));
    if k < t {
      Pow2Monotone(k, t);
      ProductIsMultiple(0, t);
      MultiplesApart(0, Pow2(k), t);
    }
  }
}
