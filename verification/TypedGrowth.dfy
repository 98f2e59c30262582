/** How many slots the typed arena asks the allocator for, and when
    (compiler/rustc_arena/src/lib.rs).
 */
module TypedGrowth {
  import opened PowersOfTwo
  import opened Wrappers
  import opened TypedArena

  /** The usual number of slots of the next chunk: at first as many as a page holds, then twice the last
      chunk's, but no more than the even number that a huge page holds. */
  predicate IsUsual(last: Option<nat>, size: nat, n: nat) {
    if last.None? then n * size <= PAGE < (n + 1) * size
    else
      && n * size <= HUGE_PAGE && n % 2 == 0 && n <= 2 * last.value
      && (n == 2 * last.value || HUGE_PAGE < (n + 2) * size)
  }

  function LastLength<T>(a: Arena<T>): Option<nat> {
    if a.chunks == [] then None else Some(|a.chunks[|a.chunks| - 1].slots|)
  }

  lemma {:induction false} QuotientBounds(x: nat, size: nat)
    requires size > 0
    ensures x / size * size <= x < (x / size + 1) * size
  {
    WholeTurns(x, size);
    assert (x / size + 1) * size == x / size * size + size;
  }

  lemma {:induction false} UsualIsUnique(last: Option<nat>, size: nat, m: nat, n: nat)
    requires size > 0 && IsUsual(last, size, m) && IsUsual(last, size, n)
    ensures m == n
  {
    if m < n {
      FewerIsNotUsual(last, size, m, n);
    } else if n < m {
      FewerIsNotUsual(last, size, n, m);
    }
  }

  lemma {:induction false} FewerIsNotUsual(last: Option<nat>, size: nat, m: nat, n: nat)
    requires size > 0 && m < n && IsUsual(last, size, n)
    ensures !IsUsual(last, size, m)
  {
    if last.None? {
      Scale(m + 1, n, size);
    } else if m % 2 == 0 {
      assert m + 2 <= n;
      Scale(m + 2, n, size);
    }
  }

  /** The next chunk has that many slots, or as many as are asked for if these are more. */
  lemma {:induction false} NextCapIsUsual<T>(a: Arena<T>, e: Element, additional: nat) returns (usual: nat)
    requires e.size > 0
    ensures IsUsual(LastLength(a), e.size, usual)
    ensures a.NextCap(e, additional) == if usual < additional then additional else usual
  {
    if a.chunks == [] {
      usual := FirstIsUsual(e.size);
    } else {
      usual := NextIsUsual(|a.Last().slots|, e.size);
    }
  }

  lemma {:induction false} FirstIsUsual(size: nat) returns (usual: nat)
    requires size > 0
    ensures usual == PAGE / size && IsUsual(None, size, usual)
  {
    usual := PAGE / size;
    QuotientBounds(PAGE, size);
  }

  lemma {:induction false} NextIsUsual(last: nat, size: nat) returns (usual: nat)
    requires size > 0
    ensures usual == 2 * Min(last, HUGE_PAGE / size / 2) && IsUsual(Some(last), size, usual)
  {
    usual := 2 * Min(last, HUGE_PAGE / size / 2);
    QuotientBounds(HUGE_PAGE, size);
    HalvesAndDoubles(last, size, HUGE_PAGE / size, usual);
  }

  lemma {:induction false} HalvesAndDoubles(last: nat, size: nat, q: nat, usual: nat)
    requires q * size <= HUGE_PAGE < (q + 1) * size && usual == 2 * Min(last, q / 2)
    ensures IsUsual(Some(last), size, usual)
  {
    Scale(usual, q, size);
    if usual < 2 * last {
      assert usual + 2 >= q + 1;
      Scale(q + 1, usual + 2, size);
    }
  }

  // ----- when it grows

  /** A new chunk is asked for exactly when the last one has no room for the object. */
  lemma {:induction false} AllocGrowsWhenFull<T>(a: Arena<T>, e: Element, value: T, base: nat)
    requires e.size > 0 && a.Placed(e) && Alloc(a, e, value, base).Some?
    ensures |Alloc(a, e, value, base).value.chunks| == if HasRoom(a, e, 1) then |a.chunks| else |a.chunks| + 1
  {
    RoomByAddress(a, e, 1);
    RecordedLength(a, e);
  }

  /** ... or for the slice; an empty one takes no room. */
  lemma {:induction false} SliceGrowsWhenFull<T>(a: Arena<T>, e: Element, objects: seq<T>, base: nat)
    requires e.size > 0 && a.Placed(e) && AllocSlice(a, e, objects, base).Some?
    ensures |AllocSlice(a, e, objects, base).value.chunks|
         == if objects == [] || HasRoom(a, e, |objects|) then |a.chunks| else |a.chunks| + 1
  {
    if objects != [] {
      RoomByAddress(a, e, |objects|);
      RecordedLength(a, e);
    }
  }

  lemma {:induction false} RecordedLength<T>(a: Arena<T>, e: Element)
    requires e.size > 0
    ensures |a.Recorded(e)| == |a.chunks|
  {
  }
}
