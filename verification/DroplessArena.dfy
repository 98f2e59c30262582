/** The dropless arena (compiler/rustc_arena/src/lib.rs): a bump allocator that hands out memory
    downwards from the end of its last chunk.

    Addresses are naturals. The global allocator is the environment: it answers each request for
    a chunk with a base address; a run in which it has no answer, or one that overlaps a live
    chunk, aborts there.
 */
module DroplessArena {
  import opened PowersOfTwo
  import opened Wrappers
  import opened Intervals

  const PAGE_LOG := 12
  const PAGE := 4096
  const HUGE_PAGE := 2 * 1024 * 1024

  datatype Chunk = Chunk(base: nat, cap: nat)

  /** `std::alloc::Layout`, with the alignment as an exponent. */
  datatype Request = Request(size: nat, align: nat)

  /** A block of memory that was handed out. */
  datatype Block = Block(addr: nat, request: Request)

  /** The arena; `log` is the exponent of DROPLESS_ALIGNMENT. */
  datatype Arena = Arena(start: nat, end: nat, chunks: seq<Chunk>) {

    /** The size of the next chunk: at least twice the last one up to huge pages, and with room
        for the request and its padding. */
    function NextCap(request: Request, log: nat): nat {
      var additional := request.size + Max(Pow2(log), Pow2(request.align)) - 1;
      var doubled := if chunks == [] then PAGE else 2 * Min(chunks[|chunks| - 1].cap, HUGE_PAGE / 2);
      AlignTo(Max(additional, doubled), PAGE_LOG)
    }

    /** `grow`, with the chunk placed at `base`. */
    function Grow(request: Request, log: nat, base: nat): Arena {
      var cap := NextCap(request, log);
      Arena(base, AlignDown(base + cap, log), chunks + [Chunk(base, cap)])
    }

    /** One round of `alloc_raw`: where the block goes, if it fits the last chunk. */
    function Fit(request: Request, log: nat): Option<nat> {
      var bytes := AlignTo(request.size, log);
      if end < bytes then None
      else
        var newEnd := AlignDown(end - bytes, request.align);
        if start <= newEnd then Some(newEnd) else None
    }

    predicate IsFree(base: nat, cap: nat) {
      forall c :: 0 <= c < |chunks| ==> Apart(chunks[c].base, chunks[c].cap, base, cap)
    }

    /** `alloc_raw`, given the allocator's answers. */
    function AllocRaw(request: Request, log: nat, bases: seq<nat>): Allocated
      decreases |bases|
    {
      var fit := Fit(request, log);
      if fit.Some? then Done(fit.value, this.(end := fit.value), bases)
      else if bases == [] || !IsFree(bases[0], NextCap(request, log)) then Aborted
      else Grow(request, log, bases[0]).AllocRaw(request, log, bases[1..])
    }
  }

  datatype Allocated = Done(addr: nat, arena: Arena, bases: seq<nat>) | Aborted

  /** `DroplessArena::default`. */
  const EMPTY := Arena(0, 0, [])

  /** DROPLESS_ALIGNMENT is a power of two that divides the page size. */
  predicate ValidLog(log: nat) {
    log <= PAGE_LOG
  }

  // ----- what every step keeps

  /** The block lies in one of the chunks, aligned as it was asked for. */
  ghost predicate InChunk(arena: Arena, block: Block) {
    && IsMultiple(block.addr, block.request.align)
    && exists c :: 0 <= c < |arena.chunks|
                   && arena.chunks[c].base <= block.addr
                   && block.addr + block.request.size <= arena.chunks[c].base + arena.chunks[c].cap
  }

  ghost predicate Disjoint(a: Block, b: Block) {
    Apart(a.addr, a.request.size, b.addr, b.request.size)
  }

  ghost predicate Valid(arena: Arena, blocks: seq<Block>, log: nat) {
    && IsMultiple(arena.end, log)
    && arena.start <= arena.end
    && (if arena.chunks == [] then arena.end == 0
        else
          var last := arena.chunks[|arena.chunks| - 1];
          arena.start == last.base && arena.end <= last.base + last.cap)
    && (forall b, c :: 0 <= b < c < |arena.chunks| ==>
          Apart(arena.chunks[b].base, arena.chunks[b].cap, arena.chunks[c].base, arena.chunks[c].cap))
    && (forall i :: 0 <= i < |blocks| ==> InChunk(arena, blocks[i]))
    && (forall i, j :: 0 <= i < j < |blocks| ==> Disjoint(blocks[i], blocks[j]))
    && (forall i :: 0 <= i < |blocks| ==>
          Apart(blocks[i].addr, blocks[i].request.size, arena.start, arena.end - arena.start))
  }

  /** A page is a multiple of DROPLESS_ALIGNMENT. */
  lemma {:induction false} PageIsMultiple(x: nat, log: nat)
    requires ValidLog(log) && IsMultiple(x, PAGE_LOG)
    ensures IsMultiple(x, log)
  {
    MultipleWeaken(x, log, PAGE_LOG);
  }

  lemma {:induction false} CapBounds(arena: Arena, request: Request, log: nat)
    requires ValidLog(log) && request.size > 0
    ensures var cap := arena.NextCap(request, log);
            && IsMultiple(cap, log) && Pow2(log) <= cap
            && request.size + Max(Pow2(log), Pow2(request.align)) - 1 <= cap
  {
    PageIsMultiple(arena.NextCap(request, log), log);
  }

  /** The chunk holds DROPLESS_ALIGNMENT bytes at least, so aligning its end stays inside. */
  lemma {:induction false} GrowKeepsValid(arena: Arena, blocks: seq<Block>, request: Request, log: nat, base: nat)
    requires Valid(arena, blocks, log) && ValidLog(log) && request.size > 0
    requires arena.IsFree(base, arena.NextCap(request, log))
    ensures Valid(arena.Grow(request, log, base), blocks, log)
  {
    var grown, cap := arena.Grow(request, log, base), arena.NextCap(request, log);
    CapBounds(arena, request, log);
    assert base <= grown.end <= base + cap;
    forall i | 0 <= i < |blocks|
      ensures InChunk(grown, blocks[i])
      ensures Apart(blocks[i].addr, blocks[i].request.size, grown.start, grown.end - grown.start)
    {
      GrowKeepsBlock(arena, blocks[i], request, log, base);
    }
  }

  lemma {:induction false} GrowKeepsBlock(arena: Arena, block: Block, request: Request, log: nat, base: nat)
    requires InChunk(arena, block) && arena.IsFree(base, arena.NextCap(request, log))
    ensures InChunk(arena.Grow(request, log, base), block)
    ensures Apart(block.addr, block.request.size, base, arena.NextCap(request, log))
  {
    var grown := arena.Grow(request, log, base);
    var c :| 0 <= c < |arena.chunks|
             && arena.chunks[c].base <= block.addr
             && block.addr + block.request.size <= arena.chunks[c].base + arena.chunks[c].cap;
    assert grown.chunks[c] == arena.chunks[c];
    assert Apart(arena.chunks[c].base, arena.chunks[c].cap, base, arena.NextCap(request, log));
  }

  /** Where a fitting block goes: inside the free space, aligned as asked, and leaving the end
      aligned to DROPLESS_ALIGNMENT. */
  lemma {:induction false} FitIsFree(arena: Arena, request: Request, log: nat)
    requires IsMultiple(arena.end, log) && arena.Fit(request, log).Some?
    ensures var addr := arena.Fit(request, log).value;
            && arena.start <= addr && addr + request.size <= arena.end
            && IsMultiple(addr, request.align) && IsMultiple(addr, log)
  {
    var bytes := AlignTo(request.size, log);
    MultipleAdd(arena.end, bytes, log);
    var addr := arena.Fit(request, log).value;
    if log <= request.align {
      MultipleWeaken(addr, log, request.align);
    } else {
      MultipleWeaken(arena.end - bytes, request.align, log);
      AlignDownGreatest(arena.end - bytes, request.align, arena.end - bytes);
    }
  }

  lemma {:induction false} FitKeepsValid(arena: Arena, blocks: seq<Block>, request: Request, log: nat)
    requires Valid(arena, blocks, log) && request.size > 0 && arena.Fit(request, log).Some?
    ensures var addr := arena.Fit(request, log).value;
            Valid(arena.(end := addr), blocks + [Block(addr, request)], log)
  {
    FitIsFree(arena, request, log);
    var addr := arena.Fit(request, log).value;
    var after, more := arena.(end := addr), blocks + [Block(addr, request)];
    forall i | 0 <= i < |more|
      ensures InChunk(after, more[i])
      ensures Apart(more[i].addr, more[i].request.size, after.start, after.end - after.start)
      ensures i < |blocks| ==> Disjoint(more[i], Block(addr, request))
    {
      if i < |blocks| {
        assert InChunk(arena, blocks[i]);
      } else {
        var last := |arena.chunks| - 1;
        assert arena.chunks[last].base <= addr;
      }
    }
  }

  /** An allocation keeps everything that was handed out before, and adds its own block. */
  lemma {:induction false} AllocKeepsValid(
      arena: Arena, blocks: seq<Block>, request: Request, log: nat, bases: seq<nat>)
    requires Valid(arena, blocks, log) && ValidLog(log) && request.size > 0
    ensures var r := arena.AllocRaw(request, log, bases);
            r.Done? ==> Valid(r.arena, blocks + [Block(r.addr, request)], log)
    decreases |bases|
  {
    if arena.Fit(request, log).Some? {
      FitKeepsValid(arena, blocks, request, log);
    } else if bases != [] && arena.IsFree(bases[0], arena.NextCap(request, log)) {
      GrowKeepsValid(arena, blocks, request, log, bases[0]);
      AllocKeepsValid(arena.Grow(request, log, bases[0]), blocks, request, log, bases[1..]);
    }
  }

  // ----- every run

  /** A run: requests, each with the allocator's answers while it is served. */
  datatype Step = Step(request: Request, bases: seq<nat>)

  datatype Run = Running(arena: Arena, blocks: seq<Block>) | Stopped

  function AfterStep(before: Run, step: Step, log: nat): Run {
    if before.Stopped? || step.request.size == 0 then Stopped
    else
      var r := before.arena.AllocRaw(step.request, log, step.bases);
      if r.Aborted? then Stopped
      else Running(r.arena, before.blocks + [Block(r.addr, step.request)])
  }

  function RunSteps(steps: seq<Step>, log: nat, k: nat): Run
    requires k <= |steps|
  {
    if k == 0 then Running(EMPTY, [])
    else AfterStep(RunSteps(steps, log, k - 1), steps[k - 1], log)
  }

  /** The arena is valid, and there is a block for each of the first `k` requests. */
  ghost predicate Safe(run: Run, steps: seq<Step>, log: nat, k: nat)
    requires k <= |steps|
  {
    run.Running? ==>
      && Valid(run.arena, run.blocks, log)
      && |run.blocks| == k
      && (forall i :: 0 <= i < k ==> run.blocks[i].request == steps[i].request)
  }

  /** In every run, the end stays aligned to DROPLESS_ALIGNMENT, every block is
      aligned as asked and lies inside a chunk, and no two blocks ever handed out overlap. */
  lemma {:induction false} EveryRunIsSafe(steps: seq<Step>, log: nat, k: nat)
    requires ValidLog(log) && k <= |steps|
    ensures Safe(RunSteps(steps, log, k), steps, log, k)
  {
    if k == 0 {
      ProductIsMultiple(0, log);
    } else {
      EveryRunIsSafe(steps, log, k - 1);
      StepKeepsSafe(RunSteps(steps, log, k - 1), steps, log, k);
    }
  }

  lemma {:induction false} StepKeepsSafe(before: Run, steps: seq<Step>, log: nat, k: nat)
    requires ValidLog(log) && 0 < k <= |steps| && Safe(before, steps, log, k - 1)
    ensures Safe(AfterStep(before, steps[k - 1], log), steps, log, k)
  {
    var step := steps[k - 1];
    if before.Running? && step.request.size > 0 {
      AllocKeepsValid(before.arena, before.blocks, step.request, log, step.bases);
      var r := before.arena.AllocRaw(step.request, log, step.bases);
      if r.Done? {
        SafeWithBlock(before, r.arena, Block(r.addr, step.request), steps, log, k);
      }
    }
  }

  lemma {:induction false} SafeWithBlock(before: Run, arena: Arena, block: Block, steps: seq<Step>, log: nat, k: nat)
    requires 0 < k <= |steps| && before.Running? && Safe(before, steps, log, k - 1)
    requires Valid(arena, before.blocks + [block], log) && block.request == steps[k - 1].request
    ensures Safe(Running(arena, before.blocks + [block]), steps, log, k)
  {
  }

  /** The hint that `alloc_raw` gives to the optimizer without checking it is true. */
  lemma {:induction false} HintIsTrue(arena: Arena, blocks: seq<Block>, log: nat)
    requires Valid(arena, blocks, log)
    ensures arena.end == AlignDown(arena.end, log)
  {
    AlignDownGreatest(arena.end, log, arena.end);
  }

  // ----- one grow suffices

  /** When chunks are aligned, the request fits right after growing for it. */
  lemma {:induction false} OneGrowSuffices(arena: Arena, request: Request, log: nat, base: nat)
    requires ValidLog(log) && request.size > 0 && IsMultiple(base, log)
    ensures arena.Grow(request, log, base).Fit(request, log).Some?
  {
    var cap := arena.NextCap(request, log);
    CapBounds(arena, request, log);
    MultipleAdd(base, cap, log);
    AlignDownFixed(base + cap, log);
    GrownBounds(arena, request, log, base, cap);
    FitsWholeChunk(base, cap, request, log);
    FitByBounds(arena.Grow(request, log, base), Arena(base, base + cap, []), request, log);
  }

  lemma {:induction false} GrownBounds(arena: Arena, request: Request, log: nat, base: nat, cap: nat)
    requires cap == arena.NextCap(request, log)
    ensures arena.Grow(request, log, base).start == base
    ensures arena.Grow(request, log, base).end == AlignDown(base + cap, log)
  {
  }

  lemma {:induction false} FitByBounds(a: Arena, b: Arena, request: Request, log: nat)
    requires a.start == b.start && a.end == b.end
    ensures a.Fit(request, log) == b.Fit(request, log)
  {
  }

  lemma {:induction false} FitsWholeChunk(base: nat, cap: nat, request: Request, log: nat)
    requires IsMultiple(base, log) && IsMultiple(cap, log) && request.size > 0
    requires request.size + Max(Pow2(log), Pow2(request.align)) - 1 <= cap
    ensures Arena(base, base + cap, []).Fit(request, log).Some?
  {
    var bytes := AlignTo(request.size, log);
    AlignToLeast(request.size, log, cap);
    if request.align <= log {
      MultipleAdd(cap, bytes, log);
      MultipleAdd(base, cap - bytes, log);
      MultipleWeaken(base + cap - bytes, request.align, log);
      AlignDownFixed(base + cap - bytes, request.align);
    } else {
      SlackCovers(base, cap, request, log, bytes);
    }
  }

  /** A larger alignment costs at most itself less DROPLESS_ALIGNMENT. */
  lemma {:induction false} SlackCovers(base: nat, cap: nat, request: Request, log: nat, bytes: nat)
    requires IsMultiple(base, log) && IsMultiple(cap, log) && request.size > 0 && log < request.align
    requires bytes == AlignTo(request.size, log) && bytes <= cap && request.size + Pow2(request.align) - 1 <= cap
    ensures base <= AlignDown(base + cap - bytes, request.align)
  {
    var big := Pow2(request.align);
    Pow2IsMultiple(log, request.align);
    // The slack is a multiple of DROPLESS_ALIGNMENT above `big` less that alignment.
    MultipleAdd(cap, bytes, log);
    MultipleAdd(cap - bytes, Pow2(request.align), log);
    MultipleAdd(cap - bytes - big, Pow2(log), log) by {
      ProductIsMultiple(1, log);
    }
    var short := cap - bytes - big + Pow2(log);
    if short < 0 {
      ProductIsMultiple(0, log);
      MultiplesApart(short, 0, log);
    }
    var down := AlignDown(base + cap - bytes, request.align);
    MultipleWeaken(down, log, request.align);
    if down < base {
      MultiplesApart(down, base, log);
    }
  }

  /** `alloc_raw` asks for at most one chunk when chunks are aligned. */
  lemma {:induction false} AtMostOneGrow(arena: Arena, request: Request, log: nat, bases: seq<nat>)
    requires ValidLog(log) && request.size > 0 && (bases != [] ==> IsMultiple(bases[0], log))
    ensures var r := arena.AllocRaw(request, log, bases);
            r.Done? ==> r.bases == bases || r.bases == bases[1..]
    ensures bases != [] && arena.IsFree(bases[0], arena.NextCap(request, log)) ==>
              arena.AllocRaw(request, log, bases).Done?
  {
    if arena.Fit(request, log).None? && bases != [] {
      OneGrowSuffices(arena, request, log, bases[0]);
    }
  }

  /** A request that fills a chunk of `cap` bytes but for the padding. */
  function TightRequest(log: nat, cap: nat): Request
    requires Pow2(log) <= cap
  {
    Request(cap - Pow2(log) + 1, 0)
  }

  /** The premise is needed: with a chunk that is not aligned, a tight first request still
      does not fit after growing for it. */
  lemma {:induction false} UnalignedGrowFails(log: nat, base: nat)
    requires ValidLog(log) && !IsMultiple(base, log)
    ensures Pow2(log) <= PAGE
    ensures EMPTY.Grow(TightRequest(log, PAGE), log, base).Fit(TightRequest(log, PAGE), log).None?
  {
    PageBounds(log, 1);
    AlignToFixed(PAGE, PAGE_LOG) by {
      PageBounds(PAGE_LOG, 1);
    }
    TightFails(EMPTY, log, PAGE, base);
  }

  /** A number of pages is a multiple of each alignment up to the page's. */
  lemma {:induction false} PageBounds(log: nat, pages: nat)
    requires ValidLog(log) && pages > 0
    ensures Pow2(log) <= PAGE * pages && IsMultiple(PAGE * pages, log)
  {
    Pow2Monotone(log, PAGE_LOG);
    Pow2IsMultiple(log, PAGE_LOG);
    assert Pow2(PAGE_LOG) == PAGE;
    MultipleScale(PAGE, pages, log);
    Scale(1, pages, PAGE);
  }

  /** Growing for a tight request by just its chunk does not make room for it. */
  lemma {:induction false} TightFails(arena: Arena, log: nat, cap: nat, base: nat)
    requires Pow2(log) <= cap && IsMultiple(cap, log) && !IsMultiple(base, log)
    requires arena.NextCap(TightRequest(log, cap), log) == cap
    ensures arena.Grow(TightRequest(log, cap), log, base).Fit(TightRequest(log, cap), log).None?
  {
    GrownBounds(arena, TightRequest(log, cap), log, base, cap);
    TightBytes(log, cap);
    DownShift(base, cap, log);
    TightMisses(arena.Grow(TightRequest(log, cap), log, base), log, cap, base);
  }

  lemma {:induction false} TightMisses(grown: Arena, log: nat, cap: nat, base: nat)
    requires Pow2(log) <= cap && !IsMultiple(base, log) && AlignTo(TightRequest(log, cap).size, log) == cap
    requires grown.start == base && grown.end == AlignDown(base, log) + cap
    ensures grown.Fit(TightRequest(log, cap), log).None?
  {
    AlignDownFixed(AlignDown(base, log), 0);
  }

  lemma {:induction false} TightBytes(log: nat, cap: nat)
    requires Pow2(log) <= cap && IsMultiple(cap, log)
    ensures AlignTo(TightRequest(log, cap).size, log) == cap
  {
    var size := TightRequest(log, cap).size;
    AlignToLeast(size, log, cap);
    if AlignTo(size, log) < cap {
      MultiplesApart(AlignTo(size, log), cap, log);
    }
  }

  /** It can be worse: chunks do not become larger than a huge page on their own, so with chunks
      that are never aligned a request that is tight for a huge page is never served. The loop of
      `alloc_raw` grows until the allocator gives up. */
  lemma {:induction false} UnalignedNeverServes(arena: Arena, log: nat, bases: seq<nat>)
    requires ValidLog(log) && forall i :: 0 <= i < |bases| ==> !IsMultiple(bases[i], log)
    requires Pow2(log) <= HUGE_PAGE && arena.Fit(TightRequest(log, HUGE_PAGE), log).None?
    ensures arena.AllocRaw(TightRequest(log, HUGE_PAGE), log, bases).Aborted?
    decreases |bases|
  {
    if bases != [] {
      PageBounds(log, 512);
      HugeCap(arena, log);
      TightFails(arena, log, HUGE_PAGE, bases[0]);
      UnalignedNeverServes(arena.Grow(TightRequest(log, HUGE_PAGE), log, bases[0]), log, bases[1..]);
    }
  }

  lemma {:induction false} HugeCap(arena: Arena, log: nat)
    requires Pow2(log) <= HUGE_PAGE
    ensures arena.NextCap(TightRequest(log, HUGE_PAGE), log) == HUGE_PAGE
  {
    AlignToFixed(HUGE_PAGE, PAGE_LOG) by {
      PageBounds(PAGE_LOG, 512);
    }
  }

  lemma {:induction false} DownShift(x: nat, y: nat, log: nat)
    requires IsMultiple(y, log)
    ensures AlignDown(x + y, log) == AlignDown(x, log) + y
  {
    MultipleAdd(AlignDown(x, log), y, log);
    AlignDownGreatest(x + y, log, AlignDown(x, log) + y);
    if AlignDown(x, log) + y < AlignDown(x + y, log) {
      MultiplesApart(AlignDown(x, log) + y, AlignDown(x + y, log), log);
    }
  }

  /** One grow suffices for every arena and request exactly when the chunk is aligned. */
  lemma {:induction false} OneGrowExactly(log: nat, base: nat)
    requires ValidLog(log)
    ensures IsMultiple(base, log) <==>
              forall arena: Arena, request: Request :: request.size > 0 ==>
                arena.Grow(request, log, base).Fit(request, log).Some?
  {
    if IsMultiple(base, log) {
      forall arena: Arena, request: Request | request.size > 0
        ensures arena.Grow(request, log, base).Fit(request, log).Some?
      {
        OneGrowSuffices(arena, request, log, base);
      }
    } else {
      UnalignedGrowFails(log, base);
      assert TightRequest(log, PAGE).size > 0;
    }
  }
}
