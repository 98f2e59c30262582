/** The dropless arena as the source keeps it, updated in place and used reentrantly: while an
    iterator is written into the arena, it may itself allocate there
    (`alloc_raw`, `alloc_slice`, `alloc_from_iter`, `write_from_iter`, `try_alloc_from_iter`).
 */
module ReentrantArena {
  import opened PowersOfTwo
  import opened Wrappers
  import opened Intervals
  import opened DroplessArena
  import opened DroplessIterators

  // ----- memory

  predicate HoldsAt(memory: map<nat, Byte>, addr: nat, bytes: seq<Byte>) {
    forall x: nat {:trigger x in memory} :: addr <= x < addr + |bytes| ==> x in memory && memory[x] == bytes[x - addr]
  }

  function Written(memory: map<nat, Byte>, addr: nat, bytes: seq<Byte>): (r: map<nat, Byte>)
    ensures forall x: nat :: x in r <==> x in memory || addr <= x < addr + |bytes|
    ensures forall x: nat :: x in r ==> r[x] == if addr <= x < addr + |bytes| then bytes[x - addr] else memory[x]
  {
    if bytes == [] then memory
    else
      var last := |bytes| - 1;
      Written(memory, addr, bytes[..last])[addr + last := bytes[last]]
  }

  /** The memory is the same in the block. */
  predicate SameIn(before: map<nat, Byte>, after: map<nat, Byte>, block: Block) {
    forall x: nat :: block.addr <= x < block.addr + block.request.size ==>
      (x in before <==> x in after) && (x in before ==> before[x] == after[x])
  }

  lemma {:induction false} WriteElsewhere(memory: map<nat, Byte>, addr: nat, bytes: seq<Byte>, block: Block)
    requires Apart(addr, |bytes|, block.addr, block.request.size)
    ensures SameIn(memory, Written(memory, addr, bytes), block)
  {
  }

  lemma {:induction false} SameHolds(
      before: map<nat, Byte>, after: map<nat, Byte>, block: Block, addr: nat, bytes: seq<Byte>)
    requires SameIn(before, after, block) && HoldsAt(before, addr, bytes)
    requires block.addr <= addr && addr + |bytes| <= block.addr + block.request.size
    ensures HoldsAt(after, addr, bytes)
  {
    forall x: nat | addr <= x < addr + |bytes|
      ensures x in after && after[x] == bytes[x - addr]
    {
      assert x in before;
    }
  }

  /** Writing behind what is there already extends it. */
  lemma {:induction false} WriteAppends(memory: map<nat, Byte>, addr: nat, head: seq<Byte>, tail: seq<Byte>)
    requires HoldsAt(memory, addr, head)
    ensures HoldsAt(Written(memory, addr + |head|, tail), addr, head + tail)
  {
    var after := Written(memory, addr + |head|, tail);
    forall x: nat | addr <= x < addr + |head + tail|
      ensures x in after && after[x] == (head + tail)[x - addr]
    {
      if x < addr + |head| {
        assert x in memory;
      }
    }
  }

  /** What was returned to a user: the bytes at the start of a block. */
  datatype Returned = Returned(block: nat, bytes: seq<Byte>)

  datatype Snapshot = Snapshot(blocks: seq<Block>, returned: seq<Returned>, memory: map<nat, Byte>)

  /** What a call leaves alone: blocks handed out before stay, with their contents (but for the
      block that is being written), and so does what was returned; what is returned anew is in
      new blocks. */
  ghost predicate Extended(before: Snapshot, after: Snapshot, writing: Option<nat>) {
    && before.blocks <= after.blocks && before.returned <= after.returned
    && (forall b :: 0 <= b < |before.blocks| && writing != Some(b) ==>
          SameIn(before.memory, after.memory, before.blocks[b]))
    && (forall r :: |before.returned| <= r < |after.returned| ==> after.returned[r].block >= |before.blocks|)
  }

  lemma {:induction false} ExtendedTwice(
      first: Snapshot, second: Snapshot, third: Snapshot, writing: Option<nat>, writing': Option<nat>)
    requires Extended(first, second, writing) && Extended(second, third, writing')
    requires writing' == writing || writing'.None? || writing'.value >= |first.blocks|
    ensures Extended(first, third, writing)
  {
    forall b | 0 <= b < |first.blocks| && writing != Some(b)
      ensures SameIn(first.memory, third.memory, first.blocks[b])
    {
      SameInTwice(first.memory, second.memory, third.memory, first.blocks[b]);
    }
    forall r | |first.returned| <= r < |third.returned|
      ensures third.returned[r].block >= |first.blocks|
    {
      if r < |second.returned| {
        assert third.returned[r] == second.returned[r];
      }
    }
  }

  lemma {:induction false} MoreBlocks(first: Snapshot, blocks: seq<Block>)
    requires first.blocks <= blocks
    ensures Extended(first, first.(blocks := blocks), None)
  {
  }

  lemma {:induction false} ReturnedMore(first: Snapshot, second: Snapshot, r: Returned)
    requires Extended(first, second, None) && r.block >= |first.blocks|
    ensures Extended(first, second.(returned := second.returned + [r]), None)
  {
  }

  /** Nothing that was returned lies in block `b`. */
  ghost predicate NoneIn(returned: seq<Returned>, b: nat) {
    forall r :: 0 <= r < |returned| ==> returned[r].block != b
  }

  lemma {:induction false} StillNoneIn(first: Snapshot, second: Snapshot, b: nat)
    requires Extended(first, second, Some(b)) && b < |first.blocks| && NoneIn(first.returned, b)
    ensures NoneIn(second.returned, b) && b < |second.blocks| && second.blocks[b] == first.blocks[b]
  {
    forall r | 0 <= r < |second.returned|
      ensures second.returned[r].block != b
    {
      if r < |first.returned| {
        assert second.returned[r] == first.returned[r];
      }
    }
  }

  lemma {:induction false} AllocFits(a: DroplessArena.Arena, request: Request, log: nat, bases: seq<nat>)
    requires a.Fit(request, log).Some?
    ensures var addr := a.Fit(request, log).value;
            a.AllocRaw(request, log, bases) == Done(addr, a.(end := addr), bases)
  {
  }

  lemma {:induction false} AllocGrows(a: DroplessArena.Arena, request: Request, log: nat, bases: seq<nat>)
    requires a.Fit(request, log).None? && bases != [] && a.IsFree(bases[0], a.NextCap(request, log))
    ensures a.AllocRaw(request, log, bases) == a.Grow(request, log, bases[0]).AllocRaw(request, log, bases[1..])
  {
  }

  /** What became of a fallible iterator: the allocator gave up, an item was an error, or all
      items were stored. */
  datatype Tried = OutOfMemory | Rejected | Stored(addr: nat, n: nat)

  class Arena {
    const log: nat
    var start: nat
    var end: nat
    var chunks: seq<Chunk>
    var memory: map<nat, Byte>
    /** What the global allocator will answer. */
    var bases: seq<nat>
    ghost var blocks: seq<Block>
    ghost var returned: seq<Returned>

    ghost function View(): DroplessArena.Arena
      reads this
    {
      DroplessArena.Arena(start, end, chunks)
    }

    /** The arena is safe, and every slice ever returned still holds what was written. */
    ghost predicate Valid()
      reads this
    {
      && ValidLog(log)
      && DroplessArena.Valid(View(), blocks, log)
      && (forall r :: 0 <= r < |returned| ==> Intact(returned[r]))
    }

    ghost predicate Intact(r: Returned)
      reads this
    {
      && r.block < |blocks| && |r.bytes| <= blocks[r.block].request.size
      && HoldsAt(memory, blocks[r.block].addr, r.bytes)
    }

    ghost function At(): State
      reads this
    {
      State(View(), bases)
    }

    /** Whether a call succeeded and where it left the arena is as specified. */
    ghost predicate Follows(ok: bool, spec: Option<State>)
      reads this
    {
      spec == if ok then Some(At()) else None
    }

    ghost function Snap(): Snapshot
      reads this
    {
      Snapshot(blocks, returned, memory)
    }

    constructor (log: nat, bases: seq<nat>)
      requires ValidLog(log)
      ensures Valid() && blocks == [] && returned == [] && this.log == log && this.bases == bases
    {
      this.log := log;
      this.start, this.end, this.chunks, this.memory := 0, 0, [], map[];
      this.bases := bases;
      this.blocks, this.returned := [], [];
      new;
      ProductIsMultiple(0, log);
    }

    method NextCapacity(request: Request) returns (cap: nat)
      ensures cap == View().NextCap(request, log)
    {
      var additional := request.size + Max(Pow2(log), Pow2(request.align)) - 1;
      var newCap := PAGE;
      if chunks != [] {
        newCap := 2 * Min(chunks[|chunks| - 1].cap, HUGE_PAGE / 2);
      }
      return AlignTo(Max(additional, newCap), PAGE_LOG);
    }

    method StartChunk(request: Request, base: nat, cap: nat)
      requires cap == View().NextCap(request, log)
      modifies this`start, this`end, this`chunks
      ensures View() == old(View()).Grow(request, log, base)
    {
      chunks := chunks + [Chunk(base, cap)];
      start := base;
      end := AlignDown(base + cap, log);
    }

    /** `grow`. */
    method Grow(request: Request, base: nat, cap: nat)
      requires Valid() && request.size > 0 && cap == View().NextCap(request, log) && View().IsFree(base, cap)
      modifies this`start, this`end, this`chunks
      ensures Valid() && View() == old(View()).Grow(request, log, base)
    {
      GrowKeepsValid(View(), blocks, request, log, base);
      StartChunk(request, base, cap);
      assert forall r :: 0 <= r < |returned| ==> old(Intact(returned[r]));
    }

    /** One attempt of `alloc_raw`, with the hint about `end` that it relies on. */
    method TryFit(request: Request) returns (newEnd: Option<nat>)
      requires Valid()
      ensures newEnd == View().Fit(request, log)
    {
      HintIsTrue(View(), blocks, log);
      assert end == AlignDown(end, log);
      var bytes := AlignTo(request.size, log);
      if end < bytes {
        return None;
      }
      var candidate := AlignDown(end - bytes, request.align);
      return if start <= candidate then Some(candidate) else None;
    }

    /** Asks the allocator for a chunk that has room for the request. */
    method GrowOnce(request: Request) returns (ok: bool)
      requires Valid() && request.size > 0 && View().Fit(request, log).None?
      modifies this`start, this`end, this`chunks, this`bases
      ensures Valid()
      ensures !ok ==> old(View()).AllocRaw(request, log, old(bases)).Aborted?
      ensures ok ==> |bases| < |old(bases)|
                     && View().AllocRaw(request, log, bases) == old(View()).AllocRaw(request, log, old(bases))
    {
      var cap := NextCapacity(request);
      if bases == [] || !DroplessArena.Arena(start, end, chunks).IsFree(bases[0], cap) {
        return false;
      }
      AllocGrows(View(), request, log, bases);
      var base := bases[0];
      bases := bases[1..];
      Grow(request, base, cap);
      return true;
    }

    /** The loop of `alloc_raw`: grows until the request fits. */
    method FindRoom(request: Request) returns (r: Option<nat>)
      requires Valid() && request.size > 0
      modifies this`start, this`end, this`chunks, this`bases
      ensures Valid()
      ensures r.Some? ==> r == View().Fit(request, log)
      ensures old(View()).AllocRaw(request, log, old(bases))
           == if r.None? then Aborted else Done(r.value, View().(end := r.value), bases)
    {
      r := TryFit(request);
      while r.None?
        invariant Valid() && r == View().Fit(request, log)
        invariant View().AllocRaw(request, log, bases) == old(View()).AllocRaw(request, log, old(bases))
        decreases |bases|
      {
        var ok := GrowOnce(request);
        if !ok {
          return None;
        }
        r := TryFit(request);
      }
      AllocFits(View(), request, log, bases);
    }

    /** Moves the end down below the new block. */
    method Take(request: Request, addr: nat)
      requires Valid() && request.size > 0 && View().Fit(request, log) == Some(addr)
      modifies this`end, this`blocks
      ensures Valid() && View() == old(View()).(end := addr) && blocks == old(blocks) + [Block(addr, request)]
    {
      FitKeepsValid(View(), blocks, request, log);
      end := addr;
      blocks := blocks + [Block(addr, request)];
      assert forall r :: 0 <= r < |returned| ==> old(Intact(returned[r]));
    }

    /** `alloc_raw`. A failed run leaves a valid arena behind. */
    method AllocRaw(request: Request) returns (r: Option<nat>)
      requires Valid() && request.size > 0
      modifies this`start, this`end, this`chunks, this`bases, this`blocks
      ensures Valid()
      ensures var spec := old(View()).AllocRaw(request, log, old(bases));
              if spec.Aborted? then r.None? && blocks == old(blocks)
              else r == Some(spec.addr) && View() == spec.arena && bases == spec.bases
                   && blocks == old(blocks) + [Block(spec.addr, request)]
      ensures Extended(old(Snap()), Snap(), None)
      ensures NoneIn(returned, |old(blocks)|)
    {
      assert NoneIn(returned, |blocks|) by {
        assert forall r :: 0 <= r < |returned| ==> Intact(returned[r]);
      }
      ghost var before := Snap();
      r := FindRoom(request);
      if r.Some? {
        Take(request, r.value);
      }
      MoreBlocks(before, blocks);
      assert Snap() == before.(blocks := blocks);
    }

    /** `alloc_raw`, with what its callers rely on. */
    method Reserve(request: Request) returns (r: Option<nat>)
      requires Valid() && request.size > 0
      modifies this`start, this`end, this`chunks, this`bases, this`blocks
      ensures Valid() && Extended(old(Snap()), Snap(), None) && NoneIn(returned, |old(blocks)|)
      ensures Follows(r.Some?, AfterRequest(Some(old(At())), request, log))
      ensures r.Some? ==> blocks == old(blocks) + [Block(r.value, request)]
    {
      r := AllocRaw(request);
    }

    /** Writes into block `b` behind the `done` bytes it holds. Nothing that was returned is in
        that block. */
    method WriteInto(ghost b: nat, addr: nat, ghost done: seq<Byte>, bytes: seq<Byte>)
      requires Valid() && b < |blocks| && addr == blocks[b].addr + |done| && HoldsAt(memory, blocks[b].addr, done)
      requires |done| + |bytes| <= blocks[b].request.size
      requires NoneIn(returned, b)
      modifies this`memory
      ensures Valid() && HoldsAt(memory, blocks[b].addr, done + bytes)
      ensures Extended(old(Snap()), Snap(), Some(b)) && At() == old(At())
    {
      WriteAppends(memory, blocks[b].addr, done, bytes);
      ghost var before := memory;
      memory := Written(memory, addr, bytes);
      forall c | 0 <= c < |blocks| && c != b
        ensures SameIn(before, memory, blocks[c])
      {
        if c < b {
          assert Disjoint(blocks[c], blocks[b]);
        } else {
          assert Disjoint(blocks[b], blocks[c]);
        }
        WriteElsewhere(before, addr, bytes, blocks[c]);
      }
      forall r | 0 <= r < |returned|
        ensures Intact(returned[r])
      {
        var at := returned[r].block;
        SameHolds(before, memory, blocks[at], blocks[at].addr, returned[r].bytes);
      }
    }

    // ----- slices

    /** `alloc_slice`: copies the bytes into a new block. */
    method AllocSlice(bytes: seq<Byte>, align: nat) returns (r: Option<nat>)
      requires Valid() && bytes != []
      modifies this
      ensures Valid() && Extended(old(Snap()), Snap(), None)
      ensures Follows(r.Some?, AfterRequest(Some(old(At())), Request(|bytes|, align), log))
      ensures r.Some? ==>
                && |blocks| == |old(blocks)| + 1 && blocks[|old(blocks)|].addr == r.value
                && blocks[|old(blocks)|].request == Request(|bytes|, align)
                && returned == old(returned) + [Returned(|old(blocks)|, bytes)]
    {
      ghost var before := Snap();
      r := Reserve(Request(|bytes|, align));
      if r.Some? {
        ghost var b, reserved := |blocks| - 1, Snap();
        WriteInto(b, r.value, [], bytes);
        assert [] + bytes == bytes;
        ExtendedTwice(before, reserved, Snap(), None, Some(b));
        Hand(b, bytes);
      }
    }

    /** Records that the first bytes of a block are returned to the user. */
    ghost method Hand(b: nat, bytes: seq<Byte>)
      requires Valid() && Intact(Returned(b, bytes))
      modifies this`returned
      ensures Valid() && At() == old(At()) && returned == old(returned) + [Returned(b, bytes)]
      ensures forall first: Snapshot :: Extended(first, old(Snap()), None) && b >= |first.blocks|
                                        ==> Extended(first, Snap(), None)
    {
      returned := returned + [Returned(b, bytes)];
      forall first: Snapshot | Extended(first, old(Snap()), None) && b >= |first.blocks|
        ensures Extended(first, Snap(), None)
      {
        ReturnedMore(first, old(Snap()), Returned(b, bytes));
      }
    }

    // ----- iterators

    method RunAction(a: Action) returns (ok: bool)
      requires Valid() && Proper(a)
      modifies this
      ensures Valid() && Extended(old(Snap()), Snap(), None)
      ensures Follows(ok, AfterAction(Some(old(At())), a, log))
      decreases a, 1
    {
      match a {
        case Slice(bytes, align) =>
          var addr := AllocSlice(bytes, align);
          ok := addr.Some?;
        case FromIter(iter) =>
          var slice := AllocFromIter(iter);
          ok := slice.Some?;
      }
    }

    method RunActions(actions: seq<Action>) returns (ok: bool)
      requires Valid() && forall i :: 0 <= i < |actions| ==> Proper(actions[i])
      modifies this
      ensures Valid() && Extended(old(Snap()), Snap(), None)
      ensures Follows(ok, AfterActions(Some(old(At())), actions, |actions|, log))
      decreases actions, 2
    {
      ghost var first := At();
      for i := 0 to |actions|
        invariant Valid() && Extended(old(Snap()), Snap(), None)
        invariant AfterActions(Some(first), actions, i, log) == Some(At())
      {
        ghost var before := Snap();
        NextAction(Some(first), actions, i, log);
        ok := RunAction(actions[i]);
        ExtendedTwice(old(Snap()), before, Snap(), None, None);
        if !ok {
          ActionsStop(Some(first), actions, i + 1, |actions|, log);
          return;
        }
      }
      ok := true;
    }

    /** What a call of `next` does to the arena before it yields. */
    method RunCall(call: Call) returns (ok: bool)
      requires Valid() && ProperCall(call)
      modifies this
      ensures Valid() && Extended(old(Snap()), Snap(), None)
      ensures Follows(ok, AfterCall(Some(old(At())), call, log))
      decreases call, 3
    {
      match call {
        case Call(actions, _) => ok := RunActions(actions);
      }
    }

    /** One round of `write_from_iter`: lets the iterator act, and writes what it yields behind
        the items that are there already. */
    method WriteNext(call: Call, ghost b: nat, addr: nat, ghost done: seq<Byte>, wanted: bool) returns (ok: bool)
      requires Valid() && ProperCall(call)
      requires b < |blocks| && addr == blocks[b].addr + |done| && HoldsAt(memory, blocks[b].addr, done)
      requires |done| + (if wanted then |call.item| else 0) <= blocks[b].request.size
      requires NoneIn(returned, b)
      modifies this
      ensures Valid() && Extended(old(Snap()), Snap(), Some(b))
      ensures Follows(ok, AfterCall(Some(old(At())), call, log))
      ensures ok ==> HoldsAt(memory, blocks[b].addr, if wanted then done + call.item else done)
      decreases call, 4
    {
      ok := RunCall(call);
      SameHolds(old(memory), memory, blocks[b], blocks[b].addr, done);
      if ok && wanted {
        ghost var acted := Snap();
        WriteInto(b, addr, done, call.item);
        ExtendedTwice(old(Snap()), acted, Snap(), Some(b), Some(b));
      }
    }

    /** Call `n` of `next`: its item is written if there is room for it. */
    method WriteRound(
        steps: seq<Call>, itemSize: nat, len: nat, n: nat, addr: nat,
        ghost b: nat, ghost start: Snapshot, ghost first: State)
      returns (ok: bool, more: bool)
      requires Valid() && forall i :: 0 <= i < |steps| ==> ProperCall(steps[i]) && |steps[i].item| == itemSize
      requires n < |steps| && n <= len && HoldsAt(memory, addr, Joined(steps, n))
      requires b < |start.blocks| && start.blocks[b].addr == addr && start.blocks[b].request.size == len * itemSize
      requires Extended(start, Snap(), Some(b)) && NoneIn(start.returned, b)
      requires AfterCalls(Some(first), steps, n, log) == Some(At())
      modifies this
      ensures Valid() && Extended(start, Snap(), Some(b)) && more == (n < len)
      ensures Follows(ok, AfterCalls(Some(first), steps, n + 1, log))
      ensures ok ==> HoldsAt(memory, addr, Joined(steps, if more then n + 1 else n))
      decreases steps, 4
    {
      ItemsFit(steps, n, itemSize, len);
      StillNoneIn(start, Snap(), b);
      NextCall(Some(first), steps, n, log);
      more := n < len;
      ok := WriteNext(steps[n], b, addr + n * itemSize, Joined(steps, n), more);
      ExtendedTwice(start, old(Snap()), Snap(), Some(b), Some(b));
    }

    /** The loop of `write_from_iter` until the iterator has yielded one item too many, or has
        no more; `more` tells which. */
    method WriteItems(steps: seq<Call>, itemSize: nat, len: nat, addr: nat, ghost b: nat)
      returns (ok: bool, n: nat, more: bool)
      requires Valid() && forall i :: 0 <= i < |steps| ==> ProperCall(steps[i]) && |steps[i].item| == itemSize
      requires b < |blocks| && blocks[b].addr == addr && blocks[b].request.size == len * itemSize
      requires NoneIn(returned, b)
      modifies this
      ensures Valid() && Extended(old(Snap()), Snap(), Some(b))
      ensures Follows(ok, AfterCalls(Some(old(At())), steps, Min(len + 1, |steps|), log))
      ensures ok ==> n == Min(len, |steps|) && HoldsAt(memory, addr, Joined(steps, n)) && (more <==> |steps| <= len)
      decreases steps, 5
    {
      n, more, ok := 0, true, true;
      ghost var first, start := At(), Snap();
      while more && n < |steps|
        invariant n <= |steps| && n <= len && (!more ==> n == len && n < |steps|)
        invariant Valid() && Extended(start, Snap(), Some(b)) && HoldsAt(memory, addr, Joined(steps, n)) && ok
        invariant AfterCalls(Some(first), steps, if more then n else n + 1, log) == Some(At())
        decreases |steps| - n, more
      {
        ok, more := WriteRound(steps, itemSize, len, n, addr, b, start, first);
        if !ok {
          CallsStop(Some(first), steps, n + 1, Min(len + 1, |steps|), log);
          return;
        }
        if more {
          n := n + 1;
        }
      }
    }

    /** `write_from_iter`: writes the first `len` items, or as many as there are, into the block
        that was reserved for them, while the iterator may go on allocating. */
    method WriteFromIter(iter: Iter, len: nat, addr: nat, ghost b: nat) returns (ok: bool, n: nat)
      requires Valid() && ProperIter(iter)
      requires b < |blocks| && blocks[b].addr == addr && blocks[b].request.size == len * iter.itemSize
      requires NoneIn(returned, b)
      modifies this
      ensures Valid() && Extended(old(Snap()), Snap(), Some(b))
      ensures Follows(ok, AfterWriting(Some(old(At())), iter, len, log))
      ensures ok ==> n == Min(len, |iter.steps|) && HoldsAt(memory, addr, Joined(iter.steps, n))
      decreases iter, 6
    {
      match iter {
        case Iter(itemSize, _, _, steps, closing) =>
          var more;
          ok, n, more := WriteItems(steps, itemSize, len, addr, b);
          if ok && more {
            ghost var before := Snap();
            ItemsFit(steps, n, itemSize, len);
            StillNoneIn(old(Snap()), before, b);
            ok := RunCall(closing);
            ExtendedTwice(old(Snap()), before, Snap(), Some(b), None);
            SameHolds(before.memory, memory, blocks[b], addr, Joined(steps, n));
          }
      }
    }

    /** Collects what the iterator yields, letting it act before each item; gives up at an item
        that is an error. */
    method Collect(iter: Iter, failing: Option<nat>) returns (ok: bool, items: Option<seq<Byte>>)
      requires Valid() && ProperIter(iter)
      modifies this
      ensures Valid() && Extended(old(Snap()), Snap(), None)
      ensures Follows(ok, AfterCollect(Some(old(At())), iter, failing, log))
      ensures ok ==> items == if Fails(iter, failing) then None else Some(Joined(iter.steps, |iter.steps|))
      decreases iter, 6
    {
      match iter {
        case Iter(_, _, _, steps, closing) =>
          ok, items := CollectSteps(steps, if Fails(iter, failing) then failing else None);
          if ok && items.Some? {
            ghost var before := Snap();
            ok := RunCall(closing);
            ExtendedTwice(old(Snap()), before, Snap(), None, None);
          }
      }
    }

    method CollectSteps(steps: seq<Call>, failing: Option<nat>) returns (ok: bool, items: Option<seq<Byte>>)
      requires Valid() && forall i :: 0 <= i < |steps| ==> ProperCall(steps[i])
      requires failing.Some? ==> failing.value < |steps|
      modifies this
      ensures Valid() && Extended(old(Snap()), Snap(), None)
      ensures Follows(ok, AfterCalls(Some(old(At())), steps, if failing.Some? then failing.value + 1 else |steps|, log))
      ensures ok ==> items == if failing.Some? then None else Some(Joined(steps, |steps|))
      decreases steps, 5
    {
      var bytes := [];
      ghost var first, last := At(), if failing.Some? then failing.value + 1 else |steps|;
      for i := 0 to |steps|
        invariant Valid() && Extended(old(Snap()), Snap(), None) && bytes == Joined(steps, i)
        invariant AfterCalls(Some(first), steps, i, log) == Some(At())
        invariant failing.Some? ==> i <= failing.value
      {
        ghost var before := Snap();
        NextCall(Some(first), steps, i, log);
        ok := RunCall(steps[i]);
        ExtendedTwice(old(Snap()), before, Snap(), None, None);
        if !ok {
          CallsStop(Some(first), steps, i + 1, last, log);
          return ok, None;
        }
        if failing == Some(i) {
          return ok, None;
        }
        bytes := bytes + steps[i].item;
      }
      ok, items := true, Some(bytes);
    }

    /** The exact-size path of `alloc_from_iter`: reserves room for `len` items and has the
        iterator fill it. */
    method AllocExact(iter: Iter, len: nat) returns (r: Option<(nat, nat)>)
      requires Valid() && ProperIter(iter) && len > 0
      modifies this
      ensures Valid() && Extended(old(Snap()), Snap(), None)
      ensures Follows(r.Some?, AfterExact(Some(old(At())), iter, len, log))
      ensures r.Some? ==> Handed(r.value.0, r.value.1, iter, Min(len, |iter.steps|), len, |old(returned)|)
      decreases iter, 7
    {
      Scale(1, len, iter.itemSize);
      var addr := Reserve(Request(len * iter.itemSize, iter.align));
      if addr.None? {
        NothingWritten(iter, len, log);
        return None;
      }
      ghost var b, reserved := |blocks| - 1, Snap();
      var ok, n := WriteFromIter(iter, len, addr.value, b);
      ExtendedTwice(old(Snap()), reserved, Snap(), None, Some(b));
      if !ok {
        return None;
      }
      ItemsFit(iter.steps, n, iter.itemSize, len);
      Hand(b, Joined(iter.steps, n));
      assert InChunk(View(), blocks[b]);
      return Some((addr.value, n));
    }

    /** The slice at `addr` holds the first `n` items, and if it is not empty it is what was
        returned last: aligned for its items, and in a block with room for `room` of them. */
    ghost predicate Handed(addr: nat, n: nat, iter: Iter, expected: nat, room: nat, before: nat)
      reads this
    {
      && n == expected <= |iter.steps|
      && HoldsAt(memory, addr, Joined(iter.steps, n))
      && (n > 0 ==>
            && |returned| > before && returned[|returned| - 1].block < |blocks|
            && returned[|returned| - 1].bytes == Joined(iter.steps, n)
            && var block := blocks[returned[|returned| - 1].block];
               && block.addr == addr && block.request == Request(room * iter.itemSize, iter.align)
               && IsMultiple(addr, iter.align))
    }

    /** `try_alloc_from_iter`: collects first, then copies. The item at `failing` is an error,
        after which nothing of the iterator is kept. */
    method TryAllocFromIter(iter: Iter, failing: Option<nat>) returns (t: Tried)
      requires Valid() && ProperIter(iter)
      modifies this
      ensures Valid() && Extended(old(Snap()), Snap(), None)
      ensures Follows(!t.OutOfMemory?, AfterTry(Some(old(At())), iter, failing, log))
      ensures t.OutOfMemory? || (t.Rejected? <==> Fails(iter, failing))
      ensures t.Stored? ==> Handed(t.addr, t.n, iter, |iter.steps|, |iter.steps|, |old(returned)|)
      decreases iter, 7
    {
      var ok, items := Collect(iter, failing);
      if !ok {
        return OutOfMemory;
      }
      if items.None? {
        return Rejected;
      }
      JoinedLength(iter.steps, |iter.steps|, iter.itemSize);
      if items.value == [] {
        ProductBounds(|iter.steps|, iter.itemSize);
        return Stored(0, 0);
      }
      ghost var before := Snap();
      var addr := AllocSlice(items.value, iter.align);
      ExtendedTwice(old(Snap()), before, Snap(), None, None);
      if addr.None? {
        return OutOfMemory;
      }
      assert Intact(returned[|returned| - 1]) && InChunk(View(), blocks[|blocks| - 1]);
      return Stored(addr.value, |iter.steps|);
    }

    /** `alloc_from_iter`. */
    method AllocFromIter(iter: Iter) returns (r: Option<(nat, nat)>)
      requires Valid() && ProperIter(iter)
      modifies this
      ensures Valid() && Extended(old(Snap()), Snap(), None)
      ensures Follows(r.Some?, AfterFromIter(Some(old(At())), iter, log))
      ensures r.Some? ==> Handed(r.value.0, r.value.1, iter, Yielded(iter), Announced(iter), |old(returned)|)
      decreases iter, 8
    {
      if iter.hint.None? {
        var t := TryAllocFromIter(iter, None);
        r := if t.Stored? then Some((t.addr, t.n)) else None;
      } else if iter.hint.value == 0 {
        r := Some((0, 0));
      } else {
        r := AllocExact(iter, iter.hint.value);
      }
    }
  }

  /** The first `n` of at most `len` items fit, and so does the next one when `n` is less. */
  lemma {:induction false} ItemsFit(steps: seq<Call>, n: nat, itemSize: nat, len: nat)
    requires n <= |steps| && n <= len && forall i :: 0 <= i < |steps| ==> |steps[i].item| == itemSize
    ensures |Joined(steps, n)| == n * itemSize
    ensures n * itemSize <= len * itemSize
    ensures n < len ==> n * itemSize + itemSize <= len * itemSize
  {
    JoinedLength(steps, n, itemSize);
    Scale(n, len, itemSize);
    if n < len {
      Scale(n + 1, len, itemSize);
      assert (n + 1) * itemSize == n * itemSize + itemSize;
    }
  }

  lemma {:induction false} SameInTwice(
      first: map<nat, Byte>, second: map<nat, Byte>, third: map<nat, Byte>, block: Block)
    requires SameIn(first, second, block) && SameIn(second, third, block)
    ensures SameIn(first, third, block)
  {
  }
}
