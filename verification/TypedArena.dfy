/** The typed arena (compiler/rustc_arena/src/lib.rs): it fills its chunks upwards with objects of
    one type, and drops each of them once when it is dropped itself.
 */
module TypedArena {
  import opened PowersOfTwo
  import opened Wrappers
  import opened Intervals

  const PAGE := 4096
  const HUGE_PAGE := 2 * 1024 * 1024

  /** A chunk at address `base`; a slot is `None` until it is initialized. `entries` is what the
      arena recorded when it moved on to the next chunk. */
  datatype Chunk<T> = Chunk(base: nat, entries: nat, slots: seq<Option<T>>)

  /** The element type: its size, and whether it has a destructor. */
  datatype Element = Element(size: nat, needsDrop: bool)

  /** The initialized objects among the first `n` slots. */
  function Values<T>(slots: seq<Option<T>>, n: nat): seq<T>
    requires n <= |slots|
  {
    if n == 0 then []
    else
      var before := Values(slots, n - 1);
      if slots[n - 1].Some? then before + [slots[n - 1].value] else before
  }

  function Somes<T>(objects: seq<T>): (r: seq<Option<T>>)
    ensures |r| == |objects|
  {
    seq(|objects|, i requires 0 <= i < |objects| => Some(objects[i]))
  }

  function Uninit<T>(n: nat): (r: seq<Option<T>>)
    ensures |r| == n
  {
    seq(n, _ => None)
  }

  /** The slots with the objects written from slot `k` on. */
  function Filled<T>(slots: seq<Option<T>>, k: nat, objects: seq<T>): (r: seq<Option<T>>)
    requires k + |objects| <= |slots|
    ensures |r| == |slots|
  {
    slots[..k] + Somes(objects) + slots[k + |objects|..]
  }

  /** What the first `k` chunks drop, by their recorded counts. */
  function DroppedUpTo<T>(chunks: seq<Chunk<T>>, k: nat): seq<T>
    requires k <= |chunks|
  {
    if k == 0 then []
    else DroppedUpTo(chunks, k - 1) + ChunkDrops(chunks[k - 1])
  }

  function ChunkDrops<T>(chunk: Chunk<T>): seq<T> {
    if chunk.entries <= |chunk.slots| then Values(chunk.slots, chunk.entries) else []
  }

  /** What the chunks before the last one drop, by their records. */
  function OthersDropped<T>(chunks: seq<Chunk<T>>, e: Element): seq<T>
    requires chunks != []
  {
    if e.needsDrop then DroppedUpTo(chunks, |chunks| - 1) else []
  }

  /** What the last chunk drops, by the pointer. */
  function LastDropped<T>(a: Arena<T>, e: Element): seq<T>
    requires e.size > 0 && a.chunks != []
  {
    if e.needsDrop && 0 <= a.Used(e) <= |a.Last().slots| then Values(a.Last().slots, a.Used(e)) else []
  }

  lemma {:induction false} DroppedSum<T>(a: Arena<T>, e: Element)
    requires e.size > 0 && a.chunks != []
    ensures a.Dropped(e) == LastDropped(a, e) + OthersDropped(a.chunks, e)
  {
  }

  datatype Arena<T> = Arena(ptr: nat, end: nat, chunks: seq<Chunk<T>>) {

    function Last(): Chunk<T>
      requires chunks != []
    {
      chunks[|chunks| - 1]
    }

    /** How many slots of the last chunk lie before `ptr`, from the addresses. */
    function Used(e: Element): int
      requires chunks != [] && e.size > 0
    {
      (ptr - Last().base) / e.size
    }

    function NextCap(e: Element, additional: nat): nat
      requires e.size > 0
    {
      var doubled :=
        if chunks == [] then PAGE / e.size
        else 2 * Min(|Last().slots|, HUGE_PAGE / e.size / 2);
      Max(additional, doubled)
    }

    /** The chunks with the count of the last one recorded. */
    function Recorded(e: Element): seq<Chunk<T>>
      requires e.size > 0
    {
      if chunks == [] || !e.needsDrop || Used(e) < 0 then chunks
      else chunks[|chunks| - 1 := Last().(entries := Used(e))]
    }

    /** `grow`, with the chunk placed at `base`. */
    function Grow(e: Element, additional: nat, base: nat): Arena<T>
      requires e.size > 0
    {
      var cap := NextCap(e, additional);
      Arena(base, base + cap * e.size, Recorded(e) + [Chunk(base, 0, Uninit(cap))])
    }

    /** Writes the objects at `ptr` and advances it. */
    function Put(e: Element, objects: seq<T>): Arena<T>
      requires chunks != [] && e.size > 0 && 0 <= Used(e) && Used(e) + |objects| <= |Last().slots|
    {
      var k, slots := Used(e), Last().slots;
      Arena(ptr + |objects| * e.size, end, chunks[|chunks| - 1 := Last().(slots := Filled(slots, k, objects))])
    }

    // ----- what every operation keeps

    /** The pointers delimit whole slots of the last chunk. */
    predicate Placed(e: Element)
      requires e.size > 0
    {
      if chunks == [] then ptr == 0 && end == 0
      else
        && Last().base <= ptr
        && ptr == Last().base + Used(e) * e.size && Used(e) <= |Last().slots|
        && end == Last().base + |Last().slots| * e.size
    }

    /** In each chunk exactly the counted slots are initialized. */
    predicate Counted(e: Element)
      requires e.size > 0
    {
      && (forall c :: 0 <= c < |chunks| - 1 ==> Initialized(chunks[c].slots, chunks[c].entries))
      && (chunks != [] ==> 0 <= Used(e) && Initialized(Last().slots, Used(e)))
    }

    /** `Drop for TypedArena`: the last chunk by the pointer, the others by their counts. */
    function Dropped(e: Element): seq<T>
      requires e.size > 0
    {
      if chunks == [] || !e.needsDrop then []
      else
        var used := Used(e);
        (if 0 <= used <= |Last().slots| then Values(Last().slots, used) else []) + DroppedUpTo(chunks, |chunks| - 1)
    }
  }

  /** Exactly the first `n` slots are initialized. */
  predicate Initialized<T>(slots: seq<Option<T>>, n: nat) {
    n <= |slots| && forall i :: 0 <= i < |slots| ==> (slots[i].Some? <==> i < n)
  }

  /** In the last chunk exactly the slots before the pointer are initialized. */
  predicate LastFilled<T>(a: Arena<T>, e: Element)
    requires e.size > 0
  {
    a.chunks != [] ==> 0 <= a.Used(e) && Initialized(a.Last().slots, a.Used(e))
  }

  /** The arena is sound, and dropping it drops exactly the objects of `history`. */
  ghost predicate Sound<T>(a: Arena<T>, e: Element, history: multiset<T>) {
    && e.size > 0 && a.Placed(e) && LastFilled(a, e)
    && (e.needsDrop ==> a.Counted(e) && multiset(a.Dropped(e)) == history)
  }

  // ----- what is never overwritten

  ghost predicate KeepsChunk<T>(before: Chunk<T>, after: Chunk<T>) {
    && after.base == before.base && |after.slots| == |before.slots|
    && (forall i :: 0 <= i < |before.slots| && before.slots[i].Some? ==> after.slots[i] == before.slots[i])
  }

  /** All chunks stay where they are, and every initialized slot keeps its object. */
  ghost predicate Keeps<T>(before: Arena<T>, after: Arena<T>) {
    && |before.chunks| <= |after.chunks|
    && (forall c :: 0 <= c < |before.chunks| ==> KeepsChunk(before.chunks[c], after.chunks[c]))
  }

  lemma {:induction false} KeepsTwice<T>(a: Arena<T>, b: Arena<T>, c: Arena<T>)
    requires Keeps(a, b) && Keeps(b, c)
    ensures Keeps(a, c)
  {
    forall i | 0 <= i < |a.chunks|
      ensures KeepsChunk(a.chunks[i], c.chunks[i])
    {
      assert KeepsChunk(a.chunks[i], b.chunks[i]) && KeepsChunk(b.chunks[i], c.chunks[i]);
    }
  }

  lemma {:induction false} GrowKeeps<T>(a: Arena<T>, e: Element, additional: nat, base: nat)
    requires e.size > 0
    ensures Keeps(a, a.Grow(e, additional, base))
  {
  }

  lemma {:induction false} PutKeeps<T>(a: Arena<T>, e: Element, objects: seq<T>)
    requires HasRoom(a, e, |objects|) && LastFilled(a, e)
    ensures Keeps(a, a.Put(e, objects))
  {
    var k, slots := a.Used(e), a.Last().slots;
    FilledKeeps(slots, k, objects);
    assert a.Put(e, objects).chunks == a.chunks[|a.chunks| - 1 := a.Last().(slots := Filled(slots, k, objects))];
  }

  lemma {:induction false} FilledKeeps<T>(slots: seq<Option<T>>, k: nat, objects: seq<T>)
    requires k + |objects| <= |slots| && Initialized(slots, k)
    ensures forall i :: 0 <= i < |slots| && slots[i].Some? ==> Filled(slots, k, objects)[i] == slots[i]
  {
  }

  /** The objects lie one after the other from `at` up to the pointer. */
  ghost predicate StoredAt<T>(a: Arena<T>, e: Element, at: nat, objects: seq<T>) {
    && a.chunks != [] && e.size > 0 && at + |objects| * e.size == a.ptr
    && |objects| <= a.Used(e) <= |a.Last().slots|
    && forall i :: 0 <= i < |objects| ==> a.Last().slots[a.Used(e) - |objects| + i] == Some(objects[i])
  }

  // ----- operations

  predicate HasRoom<T>(a: Arena<T>, e: Element, n: nat) {
    a.chunks != [] && e.size > 0 && 0 <= a.Used(e) && a.Used(e) + n <= |a.Last().slots|
  }

  lemma {:induction false} UsedFromPtr(base: nat, used: nat, size: nat)
    requires size > 0
    ensures (base + used * size - base) / size == used
  {
    DivModUnique(used, size, 0);
  }

  /** Growing makes room, and hands the count of the last chunk over to its record. */
  lemma {:induction false} GrowKeepsSound<T>(a: Arena<T>, e: Element, history: multiset<T>, additional: nat, base: nat)
    requires Sound(a, e, history)
    ensures Sound(a.Grow(e, additional, base), e, history)
    ensures HasRoom(a.Grow(e, additional, base), e, additional) && Keeps(a, a.Grow(e, additional, base))
  {
    GrowKeeps(a, e, additional, base);
    var g := a.Grow(e, additional, base);
    UsedFromPtr(base, 0, e.size);
    assert g.Used(e) == 0;
    if e.needsDrop {
      GrowKeepsCounted(a, e, additional, base);
      GrowKeepsDrops(a, e, additional, base);
    }
  }

  lemma {:induction false} GrowKeepsCounted<T>(a: Arena<T>, e: Element, additional: nat, base: nat)
    requires e.size > 0 && e.needsDrop && a.Counted(e) && a.Grow(e, additional, base).Used(e) == 0
    ensures a.Grow(e, additional, base).Counted(e)
  {
  }

  lemma {:induction false} GrowKeepsDrops<T>(a: Arena<T>, e: Element, additional: nat, base: nat)
    requires e.size > 0 && e.needsDrop && a.Counted(e) && a.Grow(e, additional, base).Used(e) == 0
    ensures multiset(a.Grow(e, additional, base).Dropped(e)) == multiset(a.Dropped(e))
  {
    var g := a.Grow(e, additional, base);
    assert Values(g.Last().slots, 0) == [];
    var others := DroppedUpTo(g.chunks, |g.chunks| - 1);
    DroppedParts(g, e, [], others);
    assert [] + others == others;
    if a.chunks != [] {
      RecordKeepsDrops(a.chunks, a.Used(e), g.Last());
    }
  }

  /** The record of the last chunk stands for what the pointer said. */
  lemma {:induction false} RecordKeepsDrops<T>(chunks: seq<Chunk<T>>, used: nat, next: Chunk<T>)
    requires chunks != [] && used <= |chunks[|chunks| - 1].slots|
    ensures var last := chunks[|chunks| - 1];
            multiset(DroppedUpTo(chunks[|chunks| - 1 := last.(entries := used)] + [next], |chunks|))
            == multiset(Values(last.slots, used) + DroppedUpTo(chunks, |chunks| - 1))
  {
    var n := |chunks|;
    var last := chunks[n - 1];
    var recorded := chunks[n - 1 := last.(entries := used)] + [next];
    SameDrops(chunks, recorded, n - 1);
    assert DroppedUpTo(recorded, n) == DroppedUpTo(recorded, n - 1) + ChunkDrops(recorded[n - 1]);
    SwapInMultiset(DroppedUpTo(chunks, n - 1), Values(last.slots, used));
  }

  lemma {:induction false} SwapInMultiset<T>(a: seq<T>, b: seq<T>)
    ensures multiset(a + b) == multiset(b + a)
  {
  }

  lemma {:induction false} SameDrops<T>(a: seq<Chunk<T>>, b: seq<Chunk<T>>, k: nat)
    requires k <= |a| && k <= |b| && forall c :: 0 <= c < k ==> a[c] == b[c]
    ensures DroppedUpTo(a, k) == DroppedUpTo(b, k)
  {
    if k > 0 {
      SameDrops(a, b, k - 1);
    }
  }

  lemma {:induction false} ValuesOfSame<T>(s: seq<Option<T>>, t: seq<Option<T>>, n: nat)
    requires n <= |s| && n <= |t| && s[..n] == t[..n]
    ensures Values(s, n) == Values(t, n)
  {
    if n > 0 {
      assert s[..n - 1] == s[..n][..n - 1] && t[..n - 1] == t[..n][..n - 1];
      assert s[n - 1] == s[..n][n - 1] && t[n - 1] == t[..n][n - 1];
      ValuesOfSame(s, t, n - 1);
    }
  }

  lemma {:induction false} ValuesAppend<T>(slots: seq<Option<T>>, k: nat, objects: seq<T>)
    requires k + |objects| <= |slots| && slots[k..k + |objects|] == Somes(objects)
    ensures Values(slots, k + |objects|) == Values(slots, k) + objects
    decreases |objects|
  {
    if objects != [] {
      var last := |objects| - 1;
      assert slots[k..k + last] == slots[k..k + |objects|][..last] == Somes(objects[..last]);
      ValuesAppend(slots, k, objects[..last]);
      assert slots[k + last] == slots[k..k + |objects|][last] == Some(objects[last]);
      assert objects == objects[..last] + [objects[last]];
    }
  }

  lemma {:induction false} FilledValues<T>(slots: seq<Option<T>>, k: nat, objects: seq<T>)
    requires k + |objects| <= |slots|
    ensures Filled(slots, k, objects)[k..k + |objects|] == Somes(objects)
    ensures Initialized(slots, k) ==> Initialized(Filled(slots, k, objects), k + |objects|)
    ensures Values(Filled(slots, k, objects), k + |objects|) == Values(slots, k) + objects
  {
    var filled := Filled(slots, k, objects);
    assert filled[..k] == slots[..k];
    assert filled[k..k + |objects|] == Somes(objects);
    ValuesOfSame(filled, slots, k);
    ValuesAppend(filled, k, objects);
  }

  /** Writing behind the initialized slots adds exactly the objects to what will be dropped. */
  lemma {:induction false} PutKeepsSound<T>(a: Arena<T>, e: Element, history: multiset<T>, objects: seq<T>)
    requires Sound(a, e, history) && HasRoom(a, e, |objects|)
    ensures Sound(a.Put(e, objects), e, history + multiset(objects))
    ensures Keeps(a, a.Put(e, objects)) && StoredAt(a.Put(e, objects), e, a.ptr, objects)
  {
    PutKeepsPlaced(a, e, objects);
    PutKeeps(a, e, objects);
    FilledValues(a.Last().slots, a.Used(e), objects);
    if e.needsDrop {
      PutKeepsCounted(a, e, objects);
      PutAddsDrops(a, e, objects);
    }
  }

  lemma {:induction false} PutKeepsPlaced<T>(a: Arena<T>, e: Element, objects: seq<T>)
    requires HasRoom(a, e, |objects|) && a.Placed(e)
    ensures a.Put(e, objects).Placed(e) && a.Put(e, objects).Used(e) == a.Used(e) + |objects|
  {
    PutAdvances(a.ptr, a.Last().base, a.Used(e), |objects|, e.size);
  }

  lemma {:induction false} PutAdvances(ptr: nat, base: nat, k: nat, n: nat, size: nat)
    requires size > 0 && ptr == base + k * size
    ensures (ptr + n * size - base) / size == k + n && ptr + n * size == base + (k + n) * size
  {
    assert (k + n) * size == k * size + n * size;
    UsedFromPtr(base, k + n, size);
  }

  lemma {:induction false} PutKeepsCounted<T>(a: Arena<T>, e: Element, objects: seq<T>)
    requires HasRoom(a, e, |objects|) && a.Counted(e)
    requires a.Put(e, objects).Used(e) == a.Used(e) + |objects|
    ensures a.Put(e, objects).Counted(e)
  {
    var p, k := a.Put(e, objects), a.Used(e);
    FilledValues(a.Last().slots, k, objects);
    assert p.Last().slots == Filled(a.Last().slots, k, objects);
    forall c | 0 <= c < |p.chunks| - 1
      ensures Initialized(p.chunks[c].slots, p.chunks[c].entries)
    {
      assert p.chunks[c] == a.chunks[c];
    }
  }

  lemma {:induction false} PutAddsDrops<T>(a: Arena<T>, e: Element, objects: seq<T>)
    requires HasRoom(a, e, |objects|) && e.needsDrop
    requires a.Put(e, objects).Used(e) == a.Used(e) + |objects|
    ensures multiset(a.Put(e, objects).Dropped(e)) == multiset(a.Dropped(e)) + multiset(objects)
  {
    var p := a.Put(e, objects);
    var last, rest := Values(a.Last().slots, a.Used(e)), DroppedUpTo(a.chunks, |a.chunks| - 1);
    PutInChunks(a, p, a.Used(e), objects);
    DroppedParts(p, e, last + objects, rest);
    DroppedParts(a, e, last, rest);
    InsertInMultiset(last, objects, rest);
  }

  lemma {:induction false} PutInChunks<T>(a: Arena<T>, p: Arena<T>, used: nat, objects: seq<T>)
    requires a.chunks != [] && used + |objects| <= |a.Last().slots|
    requires p.chunks == a.chunks[|a.chunks| - 1 := a.Last().(slots := Filled(a.Last().slots, used, objects))]
    ensures |p.Last().slots| == |a.Last().slots|
    ensures Values(p.Last().slots, used + |objects|) == Values(a.Last().slots, used) + objects
    ensures DroppedUpTo(p.chunks, |p.chunks| - 1) == DroppedUpTo(a.chunks, |a.chunks| - 1)
  {
    FilledValues(a.Last().slots, used, objects);
    SameDrops(a.chunks, p.chunks, |a.chunks| - 1);
  }

  lemma {:induction false} DroppedParts<T>(a: Arena<T>, e: Element, last: seq<T>, rest: seq<T>)
    requires e.size > 0 && e.needsDrop && a.chunks != [] && 0 <= a.Used(e) <= |a.Last().slots|
    requires last == Values(a.Last().slots, a.Used(e)) && rest == DroppedUpTo(a.chunks, |a.chunks| - 1)
    ensures a.Dropped(e) == last + rest
  {
  }

  lemma {:induction false} InsertInMultiset<T>(a: seq<T>, b: seq<T>, c: seq<T>)
    ensures multiset((a + b) + c) == multiset(a + c) + multiset(b)
  {
  }

  // ----- allocation

  /** `can_allocate`, on addresses. */
  predicate CanAllocate<T>(a: Arena<T>, e: Element, additional: nat) {
    a.end - a.ptr >= additional * e.size
  }

  /** `alloc`. */
  function Alloc<T>(a: Arena<T>, e: Element, value: T, base: nat): (r: Option<Arena<T>>)
    requires e.size > 0
  {
    var room := if a.ptr == a.end then a.Grow(e, 1, base) else a;
    if HasRoom(room, e, 1) then Some(room.Put(e, [value])) else None
  }

  /** `alloc_raw_slice` together with the copy that initializes it, as `try_alloc_from_iter`
      does once everything is collected. */
  function AllocSlice<T>(a: Arena<T>, e: Element, objects: seq<T>, base: nat): (r: Option<Arena<T>>)
    requires e.size > 0
  {
    if objects == [] then Some(a)
    else
      var room := if CanAllocate(a, e, |objects|) then a else a.Grow(e, |objects|, base);
      if HasRoom(room, e, |objects|) then Some(room.Put(e, objects)) else None
  }

  lemma {:induction false} RoomByAddress<T>(a: Arena<T>, e: Element, n: nat)
    requires e.size > 0 && a.Placed(e) && n > 0
    ensures CanAllocate(a, e, n) <==> HasRoom(a, e, n)
    ensures a.ptr == a.end <==> !HasRoom(a, e, 1)
  {
    if a.chunks == [] {
      Scale(1, n, e.size);
    } else {
      var used, cap := a.Used(e), |a.Last().slots|;
      UsedIsNat(a.ptr - a.Last().base, e.size);
      RoomInBytes(used, cap, n, e.size);
      RoomInBytes(used, cap, 1, e.size);
    }
  }

  lemma {:induction false} UsedIsNat(x: int, size: nat)
    requires size > 0 && x >= 0
    ensures x / size >= 0
  {
  }

  lemma {:induction false} RoomInBytes(used: nat, cap: nat, n: nat, size: nat)
    requires size > 0 && used <= cap && n > 0
    ensures cap * size - used * size >= n * size <==> used + n <= cap
    ensures cap * size == used * size <==> used == cap
  {
    assert cap * size - used * size - n * size == (cap - used - n) * size;
    ProductBounds(cap - used - n, size);
    assert cap * size - used * size == (cap - used) * size;
    ProductBounds(cap - used, size);
  }

  /** `alloc` always finds room, writes the object, and keeps the arena sound. */
  lemma {:induction false} AllocKeepsSound<T>(a: Arena<T>, e: Element, history: multiset<T>, value: T, base: nat)
    requires Sound(a, e, history)
    ensures Alloc(a, e, value, base).Some?
    ensures var after := Alloc(a, e, value, base).value;
            && Sound(after, e, history + multiset{value}) && Keeps(a, after)
            && e.size <= after.ptr && StoredAt(after, e, after.ptr - e.size, [value])
  {
    RoomByAddress(a, e, 1);
    GrowKeepsSound(a, e, history, 1, base);
    var room := if a.ptr == a.end then a.Grow(e, 1, base) else a;
    PutKeepsSound(room, e, history, [value]);
    KeepsItself(a);
    KeepsTwice(a, room, room.Put(e, [value]));
  }

  lemma {:induction false} KeepsItself<T>(a: Arena<T>)
    ensures Keeps(a, a)
  {
  }

  lemma {:induction false} SliceKeepsSound<T>(a: Arena<T>, e: Element, history: multiset<T>, objects: seq<T>, base: nat)
    requires Sound(a, e, history)
    ensures AllocSlice(a, e, objects, base).Some?
    ensures var after := AllocSlice(a, e, objects, base).value;
            && Sound(after, e, history + multiset(objects)) && Keeps(a, after)
            && (objects != [] ==> exists at: nat :: StoredAt(after, e, at, objects))
  {
    KeepsItself(a);
    if objects != [] {
      RoomByAddress(a, e, |objects|);
      GrowKeepsSound(a, e, history, |objects|, base);
      var room := if CanAllocate(a, e, |objects|) then a else a.Grow(e, |objects|, base);
      PutKeepsSound(room, e, history, objects);
      KeepsTwice(a, room, room.Put(e, objects));
    } else {
      assert history + multiset(objects) == history;
    }
  }

  // ----- where slices lie

  /** A slice that was handed out: so many slots of a chunk from one on. */
  datatype Slice = Slice(chunk: nat, first: nat, count: nat)

  predicate SlotsApart(s: Slice, t: Slice) {
    s.chunk != t.chunk || s.first + s.count <= t.first || t.first + t.count <= s.first
  }

  predicate InArena<T>(a: Arena<T>, used: int, s: Slice) {
    && s.chunk < |a.chunks| && s.first + s.count <= |a.chunks[s.chunk].slots|
    && (s.chunk == |a.chunks| - 1 ==> s.first + s.count <= used)
  }

  /** The slices lie in the chunks, behind the pointer in the last one, and share no slot. */
  ghost predicate HandedOut<T>(a: Arena<T>, e: Element, slices: seq<Slice>)
    requires e.size > 0
  {
    && (slices != [] ==> a.chunks != [])
    && (forall i :: 0 <= i < |slices| ==> a.chunks != [] && InArena(a, a.Used(e), slices[i]))
    && (forall i, j :: 0 <= i < j < |slices| ==> SlotsApart(slices[i], slices[j]))
  }

  lemma {:induction false} GrowKeepsSlices<T>(a: Arena<T>, e: Element, additional: nat, base: nat, slices: seq<Slice>)
    requires e.size > 0 && HandedOut(a, e, slices)
    ensures HandedOut(a.Grow(e, additional, base), e, slices)
  {
    var g := a.Grow(e, additional, base);
    forall i | 0 <= i < |slices|
      ensures InArena(g, g.Used(e), slices[i])
    {
      assert InArena(a, a.Used(e), slices[i]);
    }
  }

  lemma {:induction false} PutHandsOut<T>(a: Arena<T>, e: Element, objects: seq<T>, slices: seq<Slice>)
    requires HasRoom(a, e, |objects|) && a.Placed(e) && HandedOut(a, e, slices)
    ensures HandedOut(a.Put(e, objects), e, slices + [Slice(|a.chunks| - 1, a.Used(e), |objects|)])
  {
    PutKeepsPlaced(a, e, objects);
    PutSlices(a, a.Put(e, objects), a.Used(e), |objects|, slices);
  }

  lemma {:induction false} PutSlices<T>(a: Arena<T>, p: Arena<T>, used: nat, n: nat, slices: seq<Slice>)
    requires a.chunks != [] && |p.chunks| == |a.chunks| && used + n <= |a.Last().slots|
    requires forall c :: 0 <= c < |a.chunks| ==> |p.chunks[c].slots| == |a.chunks[c].slots|
    requires forall i :: 0 <= i < |slices| ==> InArena(a, used, slices[i])
    requires forall i, j :: 0 <= i < j < |slices| ==> SlotsApart(slices[i], slices[j])
    ensures var more := slices + [Slice(|a.chunks| - 1, used, n)];
            && (forall i :: 0 <= i < |more| ==> InArena(p, used + n, more[i]))
            && (forall i, j :: 0 <= i < j < |more| ==> SlotsApart(more[i], more[j]))
  {
    var more := slices + [Slice(|a.chunks| - 1, used, n)];
    forall i | 0 <= i < |more|
      ensures InArena(p, used + n, more[i])
      ensures i < |slices| ==> SlotsApart(more[i], more[|slices|])
    {
      if i < |slices| {
        assert InArena(a, used, slices[i]);
      }
    }
  }

  function Address<T>(a: Arena<T>, e: Element, s: Slice): nat
    requires s.chunk < |a.chunks|
  {
    a.chunks[s.chunk].base + s.first * e.size
  }

  /** What the allocator answers: chunks that are aligned for the element and do not overlap. */
  ghost predicate GoodBases<T>(a: Arena<T>, e: Element, align: nat)
    requires align > 0
  {
    && (forall c :: 0 <= c < |a.chunks| ==> a.chunks[c].base % align == 0)
    && (forall b, c :: 0 <= b < c < |a.chunks| ==>
          Apart(a.chunks[b].base, |a.chunks[b].slots| * e.size, a.chunks[c].base, |a.chunks[c].slots| * e.size))
  }

  /** With such chunks, all slices handed out are aligned for the element, lie in their chunks, and
      do not overlap in memory. */
  lemma {:induction false} SlicesAreApart<T>(a: Arena<T>, e: Element, slices: seq<Slice>, align: nat)
    requires e.size > 0 && align > 0 && e.size % align == 0 && GoodBases(a, e, align) && HandedOut(a, e, slices)
    ensures forall i :: 0 <= i < |slices| ==>
              && InArena(a, a.Used(e), slices[i]) && Address(a, e, slices[i]) % align == 0
              && var chunk := a.chunks[slices[i].chunk];
                 Address(a, e, slices[i]) + slices[i].count * e.size <= chunk.base + |chunk.slots| * e.size
    ensures forall i, j :: 0 <= i < j < |slices| ==>
              Apart(Address(a, e, slices[i]), slices[i].count * e.size,
                    Address(a, e, slices[j]), slices[j].count * e.size)
  {
    forall i | 0 <= i < |slices|
      ensures InArena(a, a.Used(e), slices[i]) && Address(a, e, slices[i]) % align == 0
      ensures var chunk := a.chunks[slices[i].chunk];
              Address(a, e, slices[i]) + slices[i].count * e.size <= chunk.base + |chunk.slots| * e.size
    {
      var s := slices[i];
      SliceIsAligned(a.chunks[s.chunk].base, s.first, e.size, align);
      SliceIsInside(s.first, s.count, |a.chunks[s.chunk].slots|, e.size);
    }
    forall i, j | 0 <= i < j < |slices|
      ensures Apart(Address(a, e, slices[i]), slices[i].count * e.size,
                    Address(a, e, slices[j]), slices[j].count * e.size)
    {
      TwoSlicesApart(a, e, slices[i], slices[j], align);
    }
  }

  lemma {:induction false} SliceIsAligned(base: nat, first: nat, size: nat, align: nat)
    requires align > 0 && base % align == 0 && size % align == 0
    ensures (base + first * size) % align == 0
  {
    assert first * size == (first * (size / align)) * align;
    ModTurns(base, first * (size / align), align);
  }

  lemma {:induction false} SliceIsInside(first: nat, count: nat, slots: nat, size: nat)
    requires first + count <= slots
    ensures first * size + count * size <= slots * size
  {
    Scale(first + count, slots, size);
    assert (first + count) * size == first * size + count * size;
  }

  lemma {:induction false} TwoSlicesApart<T>(a: Arena<T>, e: Element, s: Slice, t: Slice, align: nat)
    requires align > 0 && GoodBases(a, e, align) && SlotsApart(s, t) && s.chunk < |a.chunks| && t.chunk < |a.chunks|
    requires s.first + s.count <= |a.chunks[s.chunk].slots| && t.first + t.count <= |a.chunks[t.chunk].slots|
    ensures Apart(Address(a, e, s), s.count * e.size, Address(a, e, t), t.count * e.size)
  {
    if s.chunk != t.chunk {
      var b, c := if s.chunk < t.chunk then s.chunk else t.chunk, if s.chunk < t.chunk then t.chunk else s.chunk;
      assert Apart(a.chunks[b].base, |a.chunks[b].slots| * e.size, a.chunks[c].base, |a.chunks[c].slots| * e.size);
      OtherChunks(a.chunks[s.chunk].base, |a.chunks[s.chunk].slots|, s.first, s.count,
                  a.chunks[t.chunk].base, |a.chunks[t.chunk].slots|, t.first, t.count, e.size);
    } else {
      SameChunk(a.chunks[s.chunk].base, s.first, s.count, t.first, t.count, e.size);
    }
  }

  lemma {:induction false} OtherChunks(
      base: nat, slots: nat, first: nat, count: nat, base': nat, slots': nat, first': nat, count': nat, size: nat)
    requires Apart(base, slots * size, base', slots' * size) || Apart(base', slots' * size, base, slots * size)
    requires first + count <= slots && first' + count' <= slots'
    ensures Apart(base + first * size, count * size, base' + first' * size, count' * size)
  {
    SliceIsInside(first, count, slots, size);
    SliceIsInside(first', count', slots', size);
    ApartInside(base, slots * size, first * size, count * size, base', slots' * size, first' * size, count' * size);
  }

  lemma {:induction false} ApartInside(
      base: nat, len: nat, from: nat, n: nat, base': nat, len': nat, from': nat, n': nat)
    requires Apart(base, len, base', len') || Apart(base', len', base, len)
    requires from + n <= len && from' + n' <= len'
    ensures Apart(base + from, n, base' + from', n')
  {
  }

  lemma {:induction false} SameChunk(base: nat, first: nat, count: nat, first': nat, count': nat, size: nat)
    requires first + count <= first' || first' + count' <= first
    ensures Apart(base + first * size, count * size, base + first' * size, count' * size)
  {
    if first + count <= first' {
      SliceIsInside(first, count, first', size);
    } else {
      SliceIsInside(first', count', first, size);
    }
  }
}
