/** The 128-bit significands of powers of five (src/etc/dec2flt_table.py). */
module PowersOfFive {
  import opened PowersOfTwo

  function Pow5(n: nat): (p: nat)
    ensures p >= 1 && p % 2 == 1
    ensures n > 0 ==> p >= 5
  {
    if n == 0 then 1 else 5 * Pow5(n - 1)
  }

  /** The least exponent from `z` on whose power of two is not below `p`. */
  function LeastExponent(p: nat, z: nat): (r: nat)
    ensures z <= r && Pow2(r) >= p
    ensures r > z ==> Pow2(r - 1) < p
    decreases p - Pow2(z)
  {
    if Pow2(z) < p then LeastExponent(p, z + 1) else z
  }

  /** Halves `c` until it fits `bits` bits. */
  function Truncated(c: nat, bits: nat): nat {
    if c >= Pow2(bits) then Truncated(c / 2, bits) else c
  }

  /** Doubles `c` until its top bit is bit `bits`. */
  function Doubled(c: nat, bits: nat): nat
    requires c > 0
    decreases Pow2(bits) - c
  {
    if c < Pow2(bits) then Doubled(2 * c, bits) else c
  }

  /** One more than the whole part of a quotient. */
  function AboveQuotient(num: nat, den: nat): nat
    requires den > 0
  {
    num / den + 1
  }

  /** The significand that the table holds for `5^q`. */
  function Significand(q: int): nat {
    if q >= 0 then Truncated(Doubled(Pow5(q), 127), 128)
    else
      var p := Pow5(-q);
      var z := LeastExponent(p, 0);
      if q >= -27 then AboveQuotient(Pow2(z + 127), p)
      else Truncated(AboveQuotient(Pow2(2 * z + 128), p), 128)
  }

  /** `c` uses all of its `bits` bits. */
  predicate Normalized(c: nat, bits: nat)
    requires bits > 0
  {
    Pow2(bits - 1) <= c < 2 * Pow2(bits - 1)
  }

  /** `c` differs from `num / den` by at most one unit. */
  predicate WithinOne(c: nat, num: nat, den: nat) {
    num <= c * den + den && c * den <= num + den
  }

  /** `c` differs from `num / den` by at most half a unit. */
  predicate WithinHalf(c: nat, num: nat, den: nat) {
    2 * num <= 2 * (c * den) + den && 2 * (c * den) <= 2 * num + den
  }

  // ----- the reciprocal of a power of five

  /** A power of five above one lies strictly between two powers of two. */
  lemma {:induction false} Bracket(n: nat) returns (z: nat)
    requires n > 0
    ensures z == LeastExponent(Pow5(n), 0) && z > 0
    ensures Pow2(z - 1) < Pow5(n) < Pow2(z)
    ensures z <= 3 * n
  {
    z := LeastExponent(Pow5(n), 0);
    OddIsNoPower(Pow5(n), z);
    BelowEight(n);
    ExponentAtMost(Pow5(n), z, 3 * n);
  }

  lemma {:induction false} OddIsNoPower(p: nat, z: nat)
    requires p > 1 && p % 2 == 1
    ensures p != Pow2(z)
  {
  }

  lemma {:induction false} ExponentAtMost(p: nat, z: nat, bound: nat)
    requires p <= Pow2(bound) && (z > 0 ==> Pow2(z - 1) < p)
    ensures z <= bound
  {
    if z > bound {
      Pow2Monotone(bound, z - 1);
    }
  }

  lemma {:induction false} BelowEight(n: nat)
    ensures Pow5(n) <= Pow2(3 * n)
  {
    if n > 0 {
      BelowEight(n - 1);
      Pow2Add(3 * n - 3, 3);
      assert Pow2(3) == 8;
    }
  }

  /** The rounded-up quotient `2^(z+w) / p`, where `2^z` is the power of two above `p`: it has
      `w + 1` bits and exceeds the exact quotient by at most one. */
  lemma {:induction false} Reciprocal(p: nat, z: nat, w: nat)
    requires z > 0 && w > 0 && z - 1 <= w && Pow2(z - 1) < p < Pow2(z)
    ensures var c := AboveQuotient(Pow2(z + w), p);
            && Normalized(c, w + 1)
            && Pow2(z + w) < c * p <= Pow2(z + w) + p
            && c * p == Pow2(z + w) + p - Pow2(z + w) % p
  {
    Pow2Add(z, w);
    Pow2Monotone(z - 1, w);
    Pow2Monotone(1, w);
    AboveQuotientBounds(Pow2(z + w), p);
    QuotientBounds(p, Pow2(z - 1), Pow2(w), Pow2(z + w) / p, Pow2(z + w) % p);
  }

  lemma {:induction false} AboveQuotientBounds(num: nat, p: nat)
    requires p > 0
    ensures num == (num / p) * p + num % p
    ensures AboveQuotient(num, p) * p == num + p - num % p
  {
    assert (num / p + 1) * p == (num / p) * p + p;
  }

  lemma {:induction false} QuotientBounds(p: nat, half: nat, one: nat, quot: nat, rem: nat)
    requires half < p < 2 * half && half <= one && 2 <= one
    requires (2 * half) * one == quot * p + rem && rem < p
    ensures one <= quot < 2 * one - 1
  {
    assert (quot + 1) * p == quot * p + p;
    assert one * (2 * half - p) >= one by {
      Scale(1, 2 * half - p, one);
    }
    assert one * p < (2 * half) * one;
    if quot < one {
      Scale(quot + 1, one, p);
      assert false;
    }
    assert (2 * one - 1) * (half + 1) == (2 * half) * one + 2 * one - half - 1;
    if quot >= 2 * one - 1 {
      Scale(2 * one - 1, quot, p);
      Scale(half + 1, p, 2 * one - 1);
      assert false;
    }
  }

  // ----- truncation

  lemma {:induction false} HalfOfQuotient(c: nat, m: nat)
    requires m > 0
    ensures c / 2 / m == c / (2 * m)
  {
    var h := c / 2;
    var q, r := h / m, h % m;
    assert c == 2 * h + c % 2 && h == q * m + r;
    assert c == q * (2 * m) + (2 * r + c % 2);
    DivModUnique(q, 2 * m, 2 * r + c % 2);
  }

  lemma {:induction false} TruncatedIsQuotient(c: nat, bits: nat, k: nat)
    requires bits > 0 && Pow2(bits - 1 + k) <= c < 2 * Pow2(bits - 1 + k)
    ensures Truncated(c, bits) == c / Pow2(k)
    ensures Normalized(c / Pow2(k), bits)
  {
    if k == 0 {
      assert c / 1 == c;
    } else {
      Pow2Monotone(bits, bits - 1 + k);
      assert Pow2(bits - 1 + k) == 2 * Pow2(bits - 1 + (k - 1));
      TruncatedIsQuotient(c / 2, bits, k - 1);
      HalfOfQuotient(c, Pow2(k - 1));
    }
  }

  // ----- accuracy of the table

  /** The exact value a significand for `5^-n` stands for is `2^(z+127) / 5^n`. */
  function ReciprocalScale(n: nat): nat {
    Pow2(LeastExponent(Pow5(n), 0) + 127)
  }

  /** For small negative exponents the entry is the exact value rounded up. */
  lemma {:induction false} NearEntry(q: int)
    requires -27 <= q < 0
    ensures var c, p, num := Significand(q), Pow5(-q), ReciprocalScale(-q);
            && Normalized(c, 128) && WithinOne(c, num, p)
            && c * p == num + p - num % p
            && (WithinHalf(c, num, p) <==> p <= 2 * (num % p))
  {
    var z := NearQuotient(q);
    ReciprocalIsNear(Pow5(-q), z, 127);
  }

  lemma {:induction false} NearQuotient(q: int) returns (z: nat)
    requires -27 <= q < 0
    ensures 0 < z <= 81 && Pow2(z - 1) < Pow5(-q) < Pow2(z)
    ensures ReciprocalScale(-q) == Pow2(z + 127) && Significand(q) == AboveQuotient(Pow2(z + 127), Pow5(-q))
  {
    z := Bracket(-q);
  }

  lemma {:induction false} ReciprocalIsNear(p: nat, z: nat, w: nat)
    requires z > 0 && w > 0 && z - 1 <= w && Pow2(z - 1) < p < Pow2(z)
    ensures var num, c := Pow2(z + w), AboveQuotient(Pow2(z + w), p);
            && Normalized(c, w + 1) && WithinOne(c, num, p)
            && c * p == num + p - num % p
            && (WithinHalf(c, num, p) <==> p <= 2 * (num % p))
  {
    Reciprocal(p, z, w);
  }

  /** For the other negative exponents the entry is the exact value rounded down: rounding the
      longer quotient up before cutting it leaves no trace. */
  lemma {:induction false} FarEntry(q: int)
    requires q < -27
    ensures var c, p, num := Significand(q), Pow5(-q), ReciprocalScale(-q);
            && Normalized(c, 128) && WithinOne(c, num, p)
            && c == num / p
            && (WithinHalf(c, num, p) <==> 2 * (num % p) <= p)
  {
    var p := Pow5(-q);
    var z := Bracket(-q);
    Reciprocal(p, z, z + 128);
    var c0 := AboveQuotient(Pow2(2 * z + 128), p);
    FarIsQuotient(q, c0, z);
    Pow2Add(z + 127, z + 1);
    Pow2Monotone(z, z + 1);
    CutQuotient(Pow2(z + 127), p, Pow2(z + 1));
    CutPower(Pow2(z + 127), p);
  }

  /** Cutting a quotient of `num * m` that was rounded up by the factor `m` gives the shorter
      quotient, when `m` is larger than the divisor. */
  lemma {:induction false} CutQuotient(num: nat, p: nat, m: nat)
    requires 0 < p < m
    ensures AboveQuotient(num * m, p) / m == num / p
  {
    var f, r := num / p, num % p;
    var g, t := r * m / p, r * m % p;
    LongQuotient(num, p, m, f, r, g, t);
    CutDigits(r, m, p, g, t);
    DivModUnique(f, m, g + 1);
  }

  lemma {:induction false} LongQuotient(num: nat, p: nat, m: nat, f: nat, r: nat, g: nat, t: nat)
    requires p > 0 && f == num / p && r == num % p && g == r * m / p && t == r * m % p
    ensures num == f * p + r && r * m == g * p + t
    ensures AboveQuotient(num * m, p) == f * m + g + 1
  {
    assert num == f * p + r && r * m == g * p + t;
    assert (f * p) * m == (f * m) * p;
    assert num * m == (f * m + g) * p + t;
    DivModUnique(f * m + g, p, t);
  }

  lemma {:induction false} CutDigits(r: nat, m: nat, p: nat, g: nat, t: nat)
    requires 0 < p < m && r < p && r * m == g * p + t
    ensures g + 1 < m
  {
    assert (m - 1) * p == m * p - p && m * (p - 1) == m * p - m;
    Scale(r, p - 1, m);
    if g + 1 >= m {
      Scale(m - 1, g, p);
    }
  }

  lemma {:induction false} FarIsQuotient(q: int, c0: nat, z: nat)
    requires q < -27 && z == LeastExponent(Pow5(-q), 0) && c0 == AboveQuotient(Pow2(2 * z + 128), Pow5(-q))
    requires Normalized(c0, z + 129)
    ensures Significand(q) == c0 / Pow2(z + 1) && Normalized(Significand(q), 128)
  {
    TruncatedIsQuotient(c0, 128, z + 1);
  }

  /** Non-negative exponents: the power itself, shifted up, or its leading 128 bits. */
  lemma {:induction false} PositiveEntry(q: nat) returns (up: nat, down: nat)
    ensures Normalized(Significand(q), 128)
    ensures Significand(q) == Pow5(q) * Pow2(up) / Pow2(down)
    ensures Pow5(q) < Pow2(128) ==> down == 0 && Significand(q) == Pow5(q) * Pow2(up)
    ensures Pow5(q) >= Pow2(128) ==> up == 0
    ensures WithinOne(Significand(q), Pow5(q) * Pow2(up), Pow2(down))
    ensures WithinHalf(Significand(q), Pow5(q) * Pow2(up), Pow2(down))
       <==> 2 * (Pow5(q) * Pow2(up) % Pow2(down)) <= Pow2(down)
  {
    up, down := ShiftedAndCut(Pow5(q), 128);
    CutPower(Pow5(q) * Pow2(up), Pow2(down));
  }

  /** Shifting a number up or cutting its low bits off leaves its leading `bits` bits. */
  lemma {:induction false} ShiftedAndCut(x: nat, bits: nat) returns (up: nat, down: nat)
    requires x > 0 && bits > 0
    ensures var c := Truncated(Doubled(x, bits - 1), bits);
            && Normalized(c, bits) && c == x * Pow2(up) / Pow2(down)
            && (x < Pow2(bits) ==> down == 0 && c == x * Pow2(up))
            && (x >= Pow2(bits) ==> up == 0)
  {
    up := DoublesTo(x, bits - 1);
    down := TruncatesTo(Doubled(x, bits - 1), bits);
  }

  lemma {:induction false} DoublesTo(c: nat, bits: nat) returns (j: nat)
    requires c > 0
    ensures Doubled(c, bits) == c * Pow2(j)
    ensures Doubled(c, bits) >= Pow2(bits)
    ensures c < 2 * Pow2(bits) ==> Doubled(c, bits) < 2 * Pow2(bits)
    ensures c >= Pow2(bits) ==> j == 0
    decreases Pow2(bits) - c
  {
    if c < Pow2(bits) {
      var i := DoublesTo(2 * c, bits);
      j := i + 1;
      assert (2 * c) * Pow2(i) == c * Pow2(j);
    } else {
      j := 0;
    }
  }

  lemma {:induction false} TruncatesTo(c: nat, bits: nat) returns (k: nat)
    requires bits > 0 && Pow2(bits - 1) <= c
    ensures Truncated(c, bits) == c / Pow2(k) && Normalized(c / Pow2(k), bits)
    ensures c < Pow2(bits) ==> k == 0
  {
    if c >= Pow2(bits) {
      var i := TruncatesTo(c / 2, bits);
      k := i + 1;
      HalfOfQuotient(c, Pow2(i));
    } else {
      k := 0;
      assert c / 1 == c;
    }
  }

  /** A power beyond 128 bits is cut off; rounding to nearest would differ exactly when the
      part cut off is more than half a unit. */
  lemma {:induction false} CutPower(x: nat, m: nat)
    requires m > 0
    ensures WithinOne(x / m, x, m)
    ensures WithinHalf(x / m, x, m) <==> 2 * (x % m) <= m
  {
    assert x == (x / m) * m + x % m;
  }

  /** The table is not rounded to nearest: the entry for `5^-3` is more than half a unit off. */
  lemma {:induction false} NotRoundedToNearest()
    ensures !WithinHalf(Significand(-3), ReciprocalScale(3), Pow5(3))
  {
    NearEntry(-3);
    assert Pow5(3) == 125;
    assert Pow2(6) == 64 && Pow2(7) == 128;
    assert LeastExponent(125, 0) == 7;
    RemainderOf134();
  }

  lemma {:induction false} RemainderOf134()
    ensures Pow2(134) % 125 == 59
  {
    WordCounts();
    assert Pow2(6) == 64;
    Pow2Add(128, 6);
    DivModUnique(174224571863520493293247799005065324265, 125, 59);
  }

  // ----- the generator

  /** The entries for the exponents from `lo` up to but not including `hi`. */
  function Entries(lo: int, hi: int): seq<(nat, int)>
    decreases if lo < hi then hi - lo else 0
  {
    if lo >= hi then [] else Entries(lo, hi - 1) + [(Significand(hi - 1), hi - 1)]
  }

  method NegativePower(q: int) returns (c: nat)
    requires q < 0
    ensures c == Significand(q)
  {
    var power5 := Pow5(-q);
    var z := 0;
    while Pow2(z) < power5
      invariant LeastExponent(power5, z) == LeastExponent(power5, 0)
      decreases power5 - Pow2(z)
    {
      z := z + 1;
    }
    if q >= -27 {
      c := AboveQuotient(Pow2(z + 127), power5);
    } else {
      c := AboveQuotient(Pow2(2 * z + 128), power5);
      while c >= Pow2(128)
        invariant Truncated(c, 128) == Significand(q)
      {
        c := c / 2;
      }
    }
  }

  method PositivePower(q: nat) returns (power5: nat)
    ensures power5 == Significand(q)
  {
    power5 := Pow5(q);
    while power5 < Pow2(127)
      invariant power5 > 0 && Doubled(power5, 127) == Doubled(Pow5(q), 127)
      decreases Pow2(127) - power5
    {
      power5 := power5 * 2;
    }
    while power5 >= Pow2(128)
      invariant Truncated(power5, 128) == Significand(q)
    {
      power5 := power5 / 2;
    }
  }

  method NegativePowers(minExp: int) returns (powers: seq<(nat, int)>)
    ensures powers == Entries(minExp, 0)
  {
    powers := [];
    var q := minExp;
    while q < 0
      invariant if minExp < 0 then q <= 0 else q == minExp
      invariant powers == Entries(minExp, q)
    {
      var c := NegativePower(q);
      powers := powers + [(c, q)];
      q := q + 1;
    }
  }

  method PositivePowers(maxExp: int) returns (powers: seq<(nat, int)>)
    ensures powers == Entries(0, maxExp + 1)
  {
    powers := [];
    var q := 0;
    while q < maxExp + 1
      invariant 0 <= q && if 0 <= maxExp then q <= maxExp + 1 else q == 0
      invariant powers == Entries(0, q)
    {
      var c := PositivePower(q);
      powers := powers + [(c, q)];
      q := q + 1;
    }
  }

  /** `print_proper_powers`, up to the printing. */
  method ProperPowers(minExp: int, maxExp: int) returns (powers: seq<(nat, int)>)
    ensures powers == Entries(minExp, 0) + Entries(0, maxExp + 1)
  {
    var negative := NegativePowers(minExp);
    var positive := PositivePowers(maxExp);
    return negative + positive;
  }
}
