/** Niches: the invalid bit patterns of a scalar, and handing them out to enum variants
    (`Niche` in compiler/rustc_abi/src/lib.rs).
 */
module Niches {
  import opened Intervals
  import opened PowersOfTwo
  import opened Wrappers
  import opened WrappingRanges

  /** A scalar of `bytes` bytes at `offset`, valid for the words in `range`. */
  datatype Niche = Niche(offset: nat, bytes: nat, range: WrappingRange) {

    function Bits(): nat {
      8 * bytes
    }

    predicate Valid() {
      1 <= bytes <= 16 && range.InWidth(Bits())
    }

    /** How many words lie outside the valid range. */
    function Available(): nat {
      Truncate(WrappingSub(range.start, WrappingAdd(range.end, 1)), Bits())
    }

    /** `Niche::reserve`: the first of `count` consecutive words that become valid, and the
        valid range extended by them. */
    function Reserve(count: nat): Option<(nat, WrappingRange)> {
      var v, n := range, Bits();
      if count > Truncate(WrappingSub(WrappingSub(v.start, v.end), 1), n) then None
      else if count == 1 && v != WrappingRange(0, 1) then
        var nextUp := Abs(SignExtend(WrappingAdd(v.end, 1), n));
        var nextDown := Abs(SignExtend(WrappingSub(v.start, 1), n));
        if nextDown <= nextUp then MoveStart(count) else MoveEnd(count)
      else if v.start > v.end then MoveEnd(count)
      else if v.start <= Pow2(n) - 1 - v.end then
        if count <= v.start then MoveStart(count) else MoveEnd(count)
      else
        var end := Truncate(WrappingAdd(v.end, count), n);
        if 1 <= end <= v.end then MoveStart(count) else MoveEnd(count)
    }

    function MoveStart(count: nat): Option<(nat, WrappingRange)> {
      var start := Truncate(WrappingSub(range.start, count), Bits());
      Some((start, WrappingRange(start, range.end)))
    }

    function MoveEnd(count: nat): Option<(nat, WrappingRange)> {
      var start := Truncate(WrappingAdd(range.end, 1), Bits());
      var end := Truncate(WrappingAdd(range.end, count), Bits());
      Some((start, WrappingRange(range.start, end)))
    }
  }

  function Abs(x: int): nat {
    if x < 0 then -x else x
  }

  /** `Size::sign_extend`: the low `n` bits read as two's complement. */
  function SignExtend(v: nat, n: nat): int {
    if n == 0 then 0
    else
      var t := Truncate(v, n);
      if t < Pow2(n - 1) then t else t - Pow2(n)
  }

  /** `Niche::from_scalar`: a scalar without invalid words has no niche. */
  function FromScalar(offset: nat, bytes: nat, range: WrappingRange): Option<Niche> {
    var niche := Niche(offset, bytes, range);
    if niche.Available() > 0 then Some(niche) else None
  }

  /** The `i`-th word handed out from `start`, wrapping around the width. */
  function Nth(start: nat, i: nat, n: nat): nat {
    (start + i) % Pow2(n)
  }

  lemma {:induction false} NthNear(start: nat, i: nat, n: nat)
    requires start < Pow2(n) && i < Pow2(n)
    ensures Nth(start, i, n) == if start + i < Pow2(n) then start + i else start + i - Pow2(n)
  {
    ModNear(start + i, Pow2(n));
  }

  lemma {:induction false} WrapsTwice(a: nat, b: nat, m: nat)
    requires m > 0
    ensures (a - (b + 1) % m) % m == (a - b - 1) % m == ((a - b) % m - 1) % m
  {
    ModInner(a, b + 1, m);
    ModInner(-1, a - b, m);
  }

  lemma {:induction false} AvailableValue(niche: Niche)
    requires niche.Valid()
    ensures var v, m := niche.range, Pow2(niche.Bits());
            && niche.Available() == (if v.start <= v.end then m - 1 - (v.end - v.start) else v.start - v.end - 1)
            && niche.Available() == Truncate(WrappingSub(WrappingSub(v.start, v.end), 1), niche.Bits())
  {
    WordsBetween(niche.range.end, niche.range.start, niche.Bits());
  }

  /** How many words lie strictly between two words, computed in either way. */
  lemma {:induction false} WordsBetween(from: nat, to: nat, n: nat)
    requires n <= 128 && from < Pow2(n) && to < Pow2(n)
    ensures var between := Truncate(WrappingSub(to, WrappingAdd(from, 1)), n);
            && between == (if to <= from then Pow2(n) - 1 - (from - to) else to - from - 1)
            && between == Truncate(WrappingSub(WrappingSub(to, from), 1), n)
  {
    WrapsTwice(to, from, U128);
    TruncateAfterWrap(to - from - 1, n);
    ModNear(to - from - 1, Pow2(n));
  }

  /** `available` is the number of words outside the valid range. */
  lemma {:induction false} AvailableCountsInvalidWords(niche: Niche)
    requires niche.Valid()
    ensures |set v: nat | v < Pow2(niche.Bits()) && !niche.range.Contains(v)| == niche.Available()
  {
    AvailableValue(niche);
    var v, m := niche.range, Pow2(niche.Bits());
    var invalid := set w: nat | w < m && !v.Contains(w);
    var gap: set<int> := if v.start <= v.end then Span(0, v.start) + Span(v.end + 1, m) else Span(v.end + 1, v.start);
    assert invalid == gap;
  }

  /** What `reserve` does to a valid range when it succeeds: it makes exactly `count`
      consecutive words valid, none of which was valid before, and conserves the rest. */
  ghost predicate Reserved(niche: Niche, count: nat, start: nat, range: WrappingRange) {
    var n := niche.Bits();
    && start < Pow2(n) && range.InWidth(n)
    && (forall i: nat :: i < count ==> !niche.range.Contains(Nth(start, i, n)))
    && (forall w: nat :: w < Pow2(n) ==>
          (range.Contains(w) <==> niche.range.Contains(w) || exists i: nat :: i < count && w == Nth(start, i, n)))
    && niche.(range := range).Available() + count == niche.Available()
  }

  lemma {:induction false} MoveStartReserves(niche: Niche, count: nat)
    requires niche.Valid() && 0 < count <= niche.Available()
    ensures niche.MoveStart(count).Some?
    ensures Reserved(niche, count, niche.MoveStart(count).value.0, niche.MoveStart(count).value.1)
  {
    var v, n := niche.range, niche.Bits();
    var m := Pow2(n);
    AvailableValue(niche);
    TruncateAfterWrap(v.start - count, n);
    ModNear(v.start - count, m);
    var start := niche.MoveStart(count).value.0;
    var range := WrappingRange(start, v.end);
    AvailableValue(niche.(range := range));
    ReservedWords(niche, count, start, range);
  }

  lemma {:induction false} MoveEndReserves(niche: Niche, count: nat)
    requires niche.Valid() && 0 < count <= niche.Available()
    ensures niche.MoveEnd(count).Some?
    ensures Reserved(niche, count, niche.MoveEnd(count).value.0, niche.MoveEnd(count).value.1)
  {
    var v, n := niche.range, niche.Bits();
    var m := Pow2(n);
    AvailableValue(niche);
    WrapOnce(v.end, 1, n);
    WrapOnce(v.end, count, n);
    var (start, range) := niche.MoveEnd(count).value;
    AvailableValue(niche.(range := range));
    ReservedWords(niche, count, start, range);
  }

  /** One bound of `v` moved outwards by `count` words, the first of them `start`, of a width
      with `m` words of which at least `count` were invalid. */
  predicate Extends(v: WrappingRange, range: WrappingRange, start: nat, count: nat, m: nat) {
    && v.start < m && v.end < m && 0 < count
    && count <= (if v.start <= v.end then m - 1 - (v.end - v.start) else v.start - v.end - 1)
    && (|| (start == (if count <= v.start then v.start - count else v.start - count + m)
            && range == WrappingRange(start, v.end))
        || (start == (if v.end + 1 < m then v.end + 1 else 0)
            && range == WrappingRange(v.start, if v.end + count < m then v.end + count else v.end + count - m)))
  }

  lemma {:induction false} ExtensionIsNew(
      v: WrappingRange, range: WrappingRange, start: nat, count: nat, m: nat, i: nat)
    requires Extends(v, range, start, count, m) && i < count
    ensures var w := if start + i < m then start + i else start + i - m;
            w >= 0 && !v.Contains(w) && range.Contains(w)
  {
  }

  lemma {:induction false} ExtensionIsAll(
      v: WrappingRange, range: WrappingRange, start: nat, count: nat, m: nat, w: nat)
    requires Extends(v, range, start, count, m) && w < m
    ensures v.Contains(w) ==> range.Contains(w)
    ensures range.Contains(w) && !v.Contains(w) ==> (if start <= w then w - start else w - start + m) < count
  {
  }

  /** The words between the old and the new bound are the `count` words from `start`. */
  lemma {:induction false} ReservedWords(niche: Niche, count: nat, start: nat, range: WrappingRange)
    requires niche.Valid() && Extends(niche.range, range, start, count, Pow2(niche.Bits()))
    requires niche.(range := range).Available() + count == niche.Available()
    ensures Reserved(niche, count, start, range)
  {
    var v, n := niche.range, niche.Bits();
    var m := Pow2(n);
    forall i: nat | i < count
      ensures !v.Contains(Nth(start, i, n)) && range.Contains(Nth(start, i, n))
    {
      NthNear(start, i, n);
      ExtensionIsNew(v, range, start, count, m, i);
    }
    forall w: nat | w < m
      ensures range.Contains(w) <==> v.Contains(w) || exists i: nat :: i < count && w == Nth(start, i, n)
    {
      ExtensionIsAll(v, range, start, count, m, w);
      if range.Contains(w) && !v.Contains(w) {
        var i := if start <= w then w - start else w - start + m;
        NthNear(start, i, n);
        assert i < count && w == Nth(start, i, n);
      }
    }
  }

  /** `reserve` fails exactly when too few words are free, and otherwise hands out `count`
      consecutive invalid words, whichever bound it moves. */
  lemma {:induction false} ReserveContract(niche: Niche, count: nat)
    requires niche.Valid() && count > 0
    ensures niche.Reserve(count).None? <==> count > niche.Available()
    ensures niche.Reserve(count).Some? ==>
              Reserved(niche, count, niche.Reserve(count).value.0, niche.Reserve(count).value.1)
  {
    AvailableValue(niche);
    if count <= niche.Available() {
      MoveStartReserves(niche, count);
      MoveEndReserves(niche, count);
    }
  }

  /** A single reservation (of anything but `bool`) takes the free neighbour of the valid
      range that is closest to zero; zero itself whenever it borders the range. */
  lemma {:induction false} ReserveOneIsClosestToZero(niche: Niche)
    requires niche.Valid() && niche.Available() > 0 && niche.range != WrappingRange(0, 1)
    ensures var v, n := niche.range, niche.Bits();
            var below := if v.start == 0 then Pow2(n) - 1 else v.start - 1;
            var above := if v.end == Pow2(n) - 1 then 0 else v.end + 1;
            && niche.Reserve(1).Some?
            && niche.Reserve(1).value.0 in {below, above}
            && Abs(SignExtend(niche.Reserve(1).value.0, n)) <= Abs(SignExtend(below, n))
            && Abs(SignExtend(niche.Reserve(1).value.0, n)) <= Abs(SignExtend(above, n))
  {
    AvailableValue(niche);
    NeighboursAreWords(niche);
  }

  /** Other reservations from a range that does not wrap move a bound past zero only if both
      would have to be; when neither would, the one closer to zero is moved. */
  lemma {:induction false} ReserveAvoidsPassingZero(niche: Niche, count: nat)
    requires niche.Valid() && 0 < count <= niche.Available() && niche.range.start <= niche.range.end
    requires count > 1 || niche.range == WrappingRange(0, 1)
    ensures niche.Reserve(count).Some?
    ensures var v, m, range := niche.range, Pow2(niche.Bits()), niche.Reserve(count).value.1;
            var down, up := count <= v.start, v.end + count <= m;
            var end := if v.end + count == m then 0 else v.end + count;
            && (down || up ==>
                  || (down && range == WrappingRange(v.start - count, v.end))
                  || (up && range == WrappingRange(v.start, end)))
            && (down && up ==> (range.end == v.end <==> v.start <= m - 1 - v.end))
  {
    var v, n := niche.range, niche.Bits();
    AvailableValue(niche);
    WrapOnce(v.end, count, n);
    TruncateAfterWrap(v.start - count, n);
    ModNear(v.start - count, Pow2(n));
  }

  /** How far a word is from zero, counted in either direction. */
  function FromZero(w: nat, m: nat): int {
    if w <= m - w then w else m - w
  }

  /** Which bound a reservation moves. A single one takes the neighbour closest to zero, below the
      range if both are as close. Otherwise the end of a range that wraps is moved; of other ranges
      the bound that is closer to zero (the start if both are as close), unless it would pass it. */
  predicate MovesStart(niche: Niche, count: nat)
    requires niche.Valid()
  {
    var v, m := niche.range, Pow2(niche.Bits());
    if count == 1 && v != WrappingRange(0, 1) then
      FromZero(if v.start == 0 then m - 1 else v.start - 1, m)
        <= FromZero(if v.end == m - 1 then 0 else v.end + 1, m)
    else if v.end < v.start then false
    else if v.start <= m - 1 - v.end then count <= v.start
    else m < v.end + count
  }

  /** What a reservation returns, in unbounded numbers: the bound it moves is moved by `count` words,
      around zero if need be. */
  lemma {:induction false} ReserveMovesOneBound(niche: Niche, count: nat)
    requires niche.Valid() && 0 < count <= niche.Available()
    ensures var v, m := niche.range, Pow2(niche.Bits());
            var below := if count <= v.start then v.start - count else v.start - count + m;
            var next := if v.end + 1 < m then v.end + 1 else 0;
            var above := if v.end + count < m then v.end + count else v.end + count - m;
            niche.Reserve(count) == if MovesStart(niche, count) then Some((below, WrappingRange(below, v.end)))
                                    else Some((next, WrappingRange(v.start, above)))
  {
    AvailableValue(niche);
    ReserveChooses(niche, count);
    MovedBounds(niche, count);
  }

  lemma {:induction false} MovedBounds(niche: Niche, count: nat)
    requires niche.Valid() && 0 < count <= Pow2(niche.Bits())
    ensures var v, m := niche.range, Pow2(niche.Bits());
            var below := if count <= v.start then v.start - count else v.start - count + m;
            var next := if v.end + 1 < m then v.end + 1 else 0;
            var above := if v.end + count < m then v.end + count else v.end + count - m;
            && niche.MoveStart(count) == Some((below, WrappingRange(below, v.end)))
            && niche.MoveEnd(count) == Some((next, WrappingRange(v.start, above)))
  {
    MovedStart(niche, count);
    MovedEnd(niche, count);
  }

  lemma {:induction false} MovedEnd(niche: Niche, count: nat)
    requires niche.Valid() && 0 < count <= Pow2(niche.Bits())
    ensures var v, m := niche.range, Pow2(niche.Bits());
            var next := if v.end + 1 < m then v.end + 1 else 0;
            var above := if v.end + count < m then v.end + count else v.end + count - m;
            niche.MoveEnd(count) == Some((next, WrappingRange(v.start, above)))
  {
    WrapOnce(niche.range.end, 1, niche.Bits());
    WrapOnce(niche.range.end, count, niche.Bits());
  }

  lemma {:induction false} MovedStart(niche: Niche, count: nat)
    requires niche.Valid() && 0 < count <= Pow2(niche.Bits())
    ensures var v := niche.range;
            var below := if count <= v.start then v.start - count else v.start - count + Pow2(niche.Bits());
            niche.MoveStart(count) == Some((below, WrappingRange(below, v.end)))
  {
    TruncateAfterWrap(niche.range.start - count, niche.Bits());
    ModNear(niche.range.start - count, Pow2(niche.Bits()));
  }

  lemma {:induction false} ReserveChooses(niche: Niche, count: nat)
    requires niche.Valid() && 0 < count <= niche.Available()
    ensures niche.Reserve(count) == if MovesStart(niche, count) then niche.MoveStart(count) else niche.MoveEnd(count)
  {
    var v, n := niche.range, niche.Bits();
    AvailableValue(niche);
    if count == 1 && v != WrappingRange(0, 1) {
      NeighboursAreWords(niche);
      FromZeroIsAbs(if v.start == 0 then Pow2(n) - 1 else v.start - 1, n);
      FromZeroIsAbs(if v.end == Pow2(n) - 1 then 0 else v.end + 1, n);
    } else if v.start <= v.end {
      WrapOnce(v.end, count, n);
    }
  }

  lemma {:induction false} FromZeroIsAbs(w: nat, n: nat)
    requires n > 0 && w < Pow2(n)
    ensures Abs(SignExtend(w, n)) == FromZero(w, Pow2(n))
  {
    ModNear(w, Pow2(n));
  }

  lemma {:induction false} NeighboursAreWords(niche: Niche)
    requires niche.Valid()
    ensures var v, n := niche.range, niche.Bits();
            var below := if v.start == 0 then Pow2(n) - 1 else v.start - 1;
            var above := if v.end == Pow2(n) - 1 then 0 else v.end + 1;
            && Truncate(WrappingSub(v.start, 1), n) == below && Truncate(WrappingAdd(v.end, 1), n) == above
            && SignExtend(WrappingSub(v.start, 1), n) == SignExtend(below, n)
            && SignExtend(WrappingAdd(v.end, 1), n) == SignExtend(above, n)
  {
    var v, n := niche.range, niche.Bits();
    WrapOnce(v.end, 1, n);
    TruncateAfterWrap(v.start - 1, n);
    ModNear(v.start - 1, Pow2(n));
    SignExtendTruncated(WrappingSub(v.start, 1), n);
    SignExtendTruncated(WrappingAdd(v.end, 1), n);
  }

  lemma {:induction false} SignExtendTruncated(v: nat, n: nat)
    ensures SignExtend(v, n) == SignExtend(Truncate(v, n), n)
  {
    ModNear(v % Pow2(n), Pow2(n));
  }
}
