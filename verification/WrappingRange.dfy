/** Inclusive wrap-around ranges of `n`-bit words (compiler/rustc_abi/src/wrapping_range.rs).

    Words are naturals below `2^n`; `u128` arithmetic is modulo `2^128`, and `Size::truncate`
    keeps the low `n` bits.
 */
module WrappingRanges {
  import opened PowersOfTwo

  /** A bit width that fits the `u128` words the source computes with. */
  predicate ValidWidth(n: nat) {
    1 <= n <= 128
  }

  function Truncate(v: nat, n: nat): nat {
    v % Pow2(n)
  }

  function WrappingSub(a: nat, b: nat): nat {
    (a - b) % U128
  }

  function WrappingAdd(a: nat, b: nat): nat {
    (a + b) % U128
  }

  datatype WrappingRange = WrappingRange(start: nat, end: nat) {

    predicate InWidth(n: nat) {
      start < Pow2(n) && end < Pow2(n)
    }

    predicate Contains(v: nat) {
      if start <= end then start <= v && v <= end else start <= v || v <= end
    }

    /** The wrapping distance from `start` to `end`. */
    function Width(n: nat): nat {
      Truncate(WrappingSub(end, start), n)
    }

    predicate IsFullFor(n: nat) {
      start == Truncate(WrappingAdd(end, 1), n)
    }

    predicate ContainsRange(other: WrappingRange, n: nat) {
      if IsFullFor(n) then true
      else
        var max := Truncate(WrappingSub(end, start), n);
        var otherStart := Truncate(WrappingSub(other.start, start), n);
        var otherEnd := Truncate(WrappingSub(other.end, start), n);
        otherStart <= otherEnd && otherEnd <= max
    }
  }

  /** Truncating after arithmetic modulo `2^128` is arithmetic modulo `2^n`. */
  lemma {:induction false} TruncateAfterWrap(x: int, n: nat)
    requires n <= 128
    ensures x % U128 % Pow2(n) == x % Pow2(n)
  {
    WordCounts();
    Pow2Add(128 - n, n);
    ModMod(x, Pow2(128 - n), Pow2(n));
  }

  /** The truncated wrapping difference of two words is their clockwise distance. */
  lemma {:induction false} ClockwiseDistance(from: nat, to: nat, n: nat)
    requires n <= 128 && from < Pow2(n) && to < Pow2(n)
    ensures Truncate(WrappingSub(to, from), n) == if from <= to then to - from else to - from + Pow2(n)
  {
    TruncateAfterWrap(to - from, n);
    ModNear(to - from, Pow2(n));
  }

  /** Adding to a word and truncating wraps at most once for addends below `2^n`. */
  lemma {:induction false} WrapOnce(v: nat, c: nat, n: nat)
    requires n <= 128 && v < Pow2(n) && c <= Pow2(n)
    ensures Truncate(WrappingAdd(v, c), n) == if v + c < Pow2(n) then v + c else v + c - Pow2(n)
  {
    TruncateAfterWrap(v + c, n);
    ModNear(v + c, Pow2(n));
  }

  lemma {:induction false} WidthValue(r: WrappingRange, n: nat)
    requires n <= 128 && r.InWidth(n)
    ensures r.Width(n) == if r.start <= r.end then r.end - r.start else r.end - r.start + Pow2(n)
  {
    ClockwiseDistance(r.start, r.end, n);
  }

  /** A range holds the words from its start on, up to and including its width. */
  lemma {:induction false} ContainsByWidth(r: WrappingRange, n: nat, v: nat)
    requires ValidWidth(n) && r.InWidth(n) && v < Pow2(n)
    ensures r.Contains(v) <==> Truncate(WrappingSub(v, r.start), n) <= r.Width(n)
  {
    ClockwiseDistance(r.start, v, n);
    WidthValue(r, n);
  }

  /** `is_full_for` holds of exactly the ranges that contain every word, canonical or not. */
  lemma {:induction false} FullRangesContainEverything(r: WrappingRange, n: nat)
    requires ValidWidth(n) && r.InWidth(n)
    ensures r.IsFullFor(n) <==> forall v: nat :: v < Pow2(n) ==> r.Contains(v)
  {
    Pow2Monotone(1, n);
    WrapOnce(r.end, 1, n);
    var next := Truncate(WrappingAdd(r.end, 1), n);
    assert next < Pow2(n) && (r.Contains(next) ==> next == r.start);
  }

  /** The clockwise distance in closed form. */
  function Clockwise(from: nat, to: nat, m: nat): int {
    if from <= to then to - from else to - from + m
  }

  /** The subset test is exact, for wrapping ranges and non-canonical full ones too. */
  lemma {:induction false} ContainsRangeIsSubset(self: WrappingRange, other: WrappingRange, n: nat)
    requires ValidWidth(n) && self.InWidth(n) && other.InWidth(n)
    ensures self.ContainsRange(other, n)
       <==> forall v: nat :: v < Pow2(n) && other.Contains(v) ==> self.Contains(v)
  {
    var m := Pow2(n);
    Pow2Monotone(1, n);
    FullRangesContainEverything(self, n);
    if !self.IsFullFor(n) {
      WrapOnce(self.end, 1, n);
      ClockwiseDistance(self.start, self.end, n);
      ClockwiseDistance(self.start, other.start, n);
      ClockwiseDistance(self.start, other.end, n);
      var inside := Clockwise(self.start, other.start, m) <= Clockwise(self.start, other.end, m)
                 && Clockwise(self.start, other.end, m) <= Clockwise(self.start, self.end, m);
      assert self.ContainsRange(other, n) <==> inside;
      ShiftedSubset(self, other, m);
    }
  }

  /** The shifted comparison, once `self` is known not to be full. */
  lemma {:induction false} ShiftedSubset(self: WrappingRange, other: WrappingRange, m: nat)
    requires self.start < m && self.end < m && other.start < m && other.end < m
    requires Clockwise(self.start, self.end, m) < m - 1
    ensures (Clockwise(self.start, other.start, m) <= Clockwise(self.start, other.end, m)
             && Clockwise(self.start, other.end, m) <= Clockwise(self.start, self.end, m))
       <==> forall v: nat :: v < m && other.Contains(v) ==> self.Contains(v)
  {
    // The word just before `self` is outside it; a range that wraps past it is no subset.
    var before := if self.start == 0 then m - 1 else self.start - 1;
    assert !self.Contains(before);
    assert other.Contains(other.start) && other.Contains(other.end);
  }
}
