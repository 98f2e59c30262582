/** How much the dropless arena asks the allocator for, and when
    (compiler/rustc_arena/src/lib.rs).
 */
module DroplessGrowth {
  import opened PowersOfTwo
  import opened DroplessArena

  // ----- where a block goes

  /** The block can start at `x`: inside the free space, aligned as asked and to DROPLESS_ALIGNMENT. */
  predicate CanStart(arena: Arena, request: Request, log: nat, x: nat) {
    && arena.start <= x && x + request.size <= arena.end
    && IsMultiple(x, request.align) && IsMultiple(x, log)
  }

  /** A block fits exactly when it can start somewhere, and then starts at the highest such place. */
  lemma {:induction false} FitIsHighest(arena: Arena, request: Request, log: nat, x: nat)
    requires IsMultiple(arena.end, log)
    ensures var fit := arena.Fit(request, log);
            && (fit.Some? ==> CanStart(arena, request, log, fit.value))
            && (CanStart(arena, request, log, x) ==> fit.Some? && x <= fit.value)
  {
    if arena.Fit(request, log).Some? {
      FitIsFree(arena, request, log);
    }
    if CanStart(arena, request, log, x) {
      var bytes := AlignTo(request.size, log);
      MultipleAdd(arena.end, x, log);
      AlignToLeast(request.size, log, arena.end - x);
      AlignDownGreatest(arena.end - bytes, request.align, x);
    }
  }

  // ----- when it grows

  /** While the block can start somewhere, no chunk is asked for. */
  lemma {:induction false} NoGrowWhileRoom(arena: Arena, request: Request, log: nat, bases: seq<nat>)
    requires IsMultiple(arena.end, log)
    ensures (exists x: nat :: CanStart(arena, request, log, x)) <==> arena.Fit(request, log).Some?
    ensures arena.Fit(request, log).Some? ==>
              var addr := arena.Fit(request, log).value;
              arena.AllocRaw(request, log, bases) == Done(addr, Arena(arena.start, addr, arena.chunks), bases)
    ensures arena.Fit(request, log).None? && arena.AllocRaw(request, log, bases).Done? ==>
              |arena.chunks| < |arena.AllocRaw(request, log, bases).arena.chunks|
  {
    forall x: nat
      ensures CanStart(arena, request, log, x) ==> arena.Fit(request, log).Some?
    {
      FitIsHighest(arena, request, log, x);
    }
    if arena.Fit(request, log).Some? {
      FitIsHighest(arena, request, log, arena.Fit(request, log).value);
    } else if arena.AllocRaw(request, log, bases).Done? {
      ChunksStay(arena.Grow(request, log, bases[0]), request, log, bases[1..]);
    }
  }

  lemma {:induction false} ChunksStay(arena: Arena, request: Request, log: nat, bases: seq<nat>)
    requires arena.AllocRaw(request, log, bases).Done?
    ensures arena.chunks <= arena.AllocRaw(request, log, bases).arena.chunks
    decreases |bases|
  {
    if arena.Fit(request, log).None? {
      ChunksStay(arena.Grow(request, log, bases[0]), request, log, bases[1..]);
    }
  }

  // ----- by how much

  /** What a chunk must hold at least: the request with its padding, and one page at first, then twice
      the last chunk, but no more than a huge page on that account. */
  function Needed(arena: Arena, request: Request, log: nat): nat {
    request.size + (if request.align < log then Pow2(log) else Pow2(request.align)) - 1
  }

  function Usual(chunks: seq<Chunk>): nat {
    if chunks == [] then PAGE
    else if 2 * chunks[|chunks| - 1].cap <= HUGE_PAGE then 2 * chunks[|chunks| - 1].cap
    else HUGE_PAGE
  }

  /** The next chunk is the least number of whole pages that holds both. */
  lemma {:induction false} NextCapIsLeast(arena: Arena, request: Request, log: nat, cap: nat)
    requires request.size > 0
    ensures var next := arena.NextCap(request, log);
            && next % PAGE == 0 && Needed(arena, request, log) <= next && Usual(arena.chunks) <= next
            && (cap % PAGE == 0 && Needed(arena, request, log) <= cap && Usual(arena.chunks) <= cap ==> next <= cap)
  {
    assert Pow2(PAGE_LOG) == PAGE;
    if request.align < log {
      Pow2Monotone(request.align, log);
    } else {
      Pow2Monotone(log, request.align);
    }
    var least := Max(Needed(arena, request, log), Usual(arena.chunks));
    assert arena.NextCap(request, log) == AlignTo(least, PAGE_LOG);
    if cap % PAGE == 0 && least <= cap {
      AlignToLeast(least, PAGE_LOG, cap);
    }
  }

  // ----- over every run

  /** Each chunk is at least twice the one before, up to a huge page; the first is at least a page. */
  ghost predicate Doubling(chunks: seq<Chunk>) {
    forall c :: 0 <= c < |chunks| ==> Usual(chunks[..c]) <= chunks[c].cap && chunks[c].cap % PAGE == 0
  }

  lemma {:induction false} GrowKeepsDoubling(arena: Arena, request: Request, log: nat, base: nat)
    requires Doubling(arena.chunks) && request.size > 0
    ensures Doubling(arena.Grow(request, log, base).chunks)
  {
    var grown, n := arena.Grow(request, log, base).chunks, |arena.chunks|;
    NextCapIsLeast(arena, request, log, 0);
    forall c | 0 <= c < |grown|
      ensures Usual(grown[..c]) <= grown[c].cap && grown[c].cap % PAGE == 0
    {
      assert grown[..c] == arena.chunks[..c];
      assert arena.chunks[..n] == arena.chunks;
    }
  }

  lemma {:induction false} AllocKeepsDoubling(arena: Arena, request: Request, log: nat, bases: seq<nat>)
    requires Doubling(arena.chunks) && request.size > 0 && arena.AllocRaw(request, log, bases).Done?
    ensures Doubling(arena.AllocRaw(request, log, bases).arena.chunks)
    decreases |bases|
  {
    if arena.Fit(request, log).None? {
      GrowKeepsDoubling(arena, request, log, bases[0]);
      AllocKeepsDoubling(arena.Grow(request, log, bases[0]), request, log, bases[1..]);
    }
  }

  lemma {:induction false} RunKeepsDoubling(steps: seq<Step>, log: nat, k: nat)
    requires k <= |steps| && RunSteps(steps, log, k).Running?
    ensures Doubling(RunSteps(steps, log, k).arena.chunks)
  {
    if k > 0 {
      RunKeepsDoubling(steps, log, k - 1);
      AllocKeepsDoubling(RunSteps(steps, log, k - 1).arena, steps[k - 1].request, log, steps[k - 1].bases);
    }
  }

  /** In a doubling list chunk `c` has at least `2^c` pages, or is a huge page at least. */
  lemma {:induction false} DoublingGrows(chunks: seq<Chunk>, c: nat)
    requires Doubling(chunks) && c < |chunks|
    ensures chunks[c].cap >= HUGE_PAGE || chunks[c].cap >= PAGE * Pow2(c)
  {
    if c > 0 {
      DoublingGrows(chunks, c - 1);
      assert chunks[..c][|chunks[..c]| - 1] == chunks[c - 1];
      assert PAGE * Pow2(c) == 2 * (PAGE * Pow2(c - 1));
    }
  }

  /** In every run, chunk `c` has at least `2^c` pages until they are huge pages, so that the number of
      chunks is logarithmic in their size up to there. */
  lemma {:induction false} EveryRunDoubles(steps: seq<Step>, log: nat, k: nat, c: nat)
    requires k <= |steps| && RunSteps(steps, log, k).Running? && c < |RunSteps(steps, log, k).arena.chunks|
    ensures var cap := RunSteps(steps, log, k).arena.chunks[c].cap;
            cap >= HUGE_PAGE || cap >= PAGE * Pow2(c)
  {
    RunKeepsDoubling(steps, log, k);
    DoublingGrows(RunSteps(steps, log, k).arena.chunks, c);
  }
}
