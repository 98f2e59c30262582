/** The typed arena as the source keeps it, updated in place. */
module TypedArenaObject {
  import opened PowersOfTwo
  import opened Wrappers
  import opened TypedArena
  import opened TypedIterators

  class Cell<T> {
    const element: Element
    var ptr: nat
    var end: nat
    var chunks: seq<Chunk<T>>
    /** All objects that were moved into the arena. */
    ghost var history: multiset<T>
    /** All slices that were handed out. */
    ghost var slices: seq<Slice>

    ghost function View(): Arena<T>
      reads this
    {
      Arena(ptr, end, chunks)
    }

    ghost predicate Valid()
      reads this
    {
      Sound(View(), element, history) && HandedOut(View(), element, slices)
    }

    /** Slice `i` starts at `at` and has `n` objects. */
    ghost predicate IsSlice(i: nat, at: nat, n: nat)
      reads this
    {
      && i < |slices| && slices[i].chunk < |chunks|
      && Address(View(), element, slices[i]) == at && slices[i].count == n
    }

    constructor (element: Element)
      requires element.size > 0
      ensures Valid() && this.element == element && history == multiset{} && slices == [] && View() == Arena(0, 0, [])
    {
      this.element := element;
      this.ptr, this.end, this.chunks := 0, 0, [];
      this.history, this.slices := multiset{}, [];
    }

    method NextCapacity(additional: nat) returns (newCap: nat)
      requires element.size > 0
      ensures newCap == View().NextCap(element, additional)
    {
      newCap := PAGE / element.size;
      if chunks != [] {
        newCap := 2 * Min(|chunks[|chunks| - 1].slots|, HUGE_PAGE / element.size / 2);
      }
      newCap := Max(additional, newCap);
    }

    /** Without a destructor there is no need to keep track of the entries. */
    method RecordEntries()
      requires element.size > 0 && View().Placed(element)
      modifies this`chunks
      ensures chunks == old(View()).Recorded(element)
    {
      if chunks != [] && element.needsDrop {
        var last := chunks[|chunks| - 1];
        var usedBytes := ptr - last.base;
        UsedIsNat(usedBytes, element.size);
        chunks := chunks[|chunks| - 1 := last.(entries := usedBytes / element.size)];
      }
    }

    /** Replaces the chunk that is being filled by one at `base`. */
    method StartChunk(additional: nat, base: nat)
      requires element.size > 0 && View().Placed(element)
      modifies this`ptr, this`end, this`chunks
      ensures View() == old(View()).Grow(element, additional, base)
    {
      var newCap := NextCapacity(additional);
      RecordEntries();
      chunks := chunks + [Chunk(base, 0, Uninit(newCap))];
      ptr := base;
      end := base + newCap * element.size;
    }

    /** `grow`: records the count of the last chunk, and goes on in a new one at `base`. */
    method Grow(additional: nat, base: nat)
      requires Valid()
      modifies this`ptr, this`end, this`chunks
      ensures Valid() && View() == old(View()).Grow(element, additional, base)
      ensures HasRoom(View(), element, additional)
    {
      GrowKeepsSound(View(), element, history, additional, base);
      GrowKeepsSlices(View(), element, additional, base, slices);
      StartChunk(additional, base);
    }

    /** Writes into uninitialized memory behind the pointer that was advanced. */
    method Write(objects: seq<T>) returns (at: nat)
      requires Valid() && HasRoom(View(), element, |objects|)
      modifies this`ptr, this`chunks, this`history, this`slices
      ensures Valid() && View() == old(View()).Put(element, objects)
      ensures history == old(history) + multiset(objects)
      ensures StoredAt(View(), element, at, objects) && Keeps(old(View()), View())
      ensures |slices| == |old(slices)| + 1 && old(slices) <= slices && IsSlice(|old(slices)|, at, |objects|)
    {
      PutKeepsSound(View(), element, history, objects);
      PutHandsOut(View(), element, objects, slices);
      ghost var slice := Slice(|chunks| - 1, View().Used(element), |objects|);
      at := ptr;
      Fill(objects);
      history, slices := history + multiset(objects), slices + [slice];
    }

    method Fill(objects: seq<T>)
      requires HasRoom(View(), element, |objects|)
      modifies this`ptr, this`chunks
      ensures View() == old(View()).Put(element, objects)
    {
      var last := chunks[|chunks| - 1];
      var k := (ptr - last.base) / element.size;
      ptr := ptr + |objects| * element.size;
      chunks := chunks[|chunks| - 1 := last.(slots := Filled(last.slots, k, objects))];
    }

    /** `alloc`. */
    method AllocObject(value: T, base: nat) returns (at: nat)
      requires Valid()
      modifies this
      ensures Valid() && Alloc(old(View()), element, value, base) == Some(View())
      ensures history == old(history) + multiset{value}
      ensures StoredAt(View(), element, at, [value]) && Keeps(old(View()), View())
      ensures |slices| == |old(slices)| + 1 && old(slices) <= slices && IsSlice(|old(slices)|, at, 1)
    {
      RoomByAddress(View(), element, 1);
      AllocKeepsSound(View(), element, history, value, base);
      if ptr == end {
        Grow(1, base);
      }
      at := Write([value]);
    }

    /** `alloc_raw_slice` and the copy into it, for what was collected. */
    method AllocCollected(objects: seq<T>, base: nat) returns (at: nat)
      requires Valid() && objects != []
      modifies this
      ensures Valid() && AllocSlice(old(View()), element, objects, base) == Some(View())
      ensures history == old(history) + multiset(objects)
      ensures StoredAt(View(), element, at, objects) && Keeps(old(View()), View())
      ensures |slices| == |old(slices)| + 1 && old(slices) <= slices && IsSlice(|old(slices)|, at, |objects|)
    {
      RoomByAddress(View(), element, |objects|);
      SliceKeepsSound(View(), element, history, objects, base);
      if end - ptr < |objects| * element.size {
        Grow(|objects|, base);
      }
      at := Write(objects);
    }

    // ----- iterators

    /** The arena has become `now`, the history has grown by what was moved in, and the slices by
        those that were handed out. */
    ghost predicate Ran(past: multiset<T>, before: seq<Slice>, now: Option<Arena<T>>, moved: seq<T>)
      reads this
    {
      Valid() && now == Some(View()) && history == past + multiset(moved) && before <= slices
    }

    /** What a user does with the arena; an iterator does such things while it is collected. */
    method Act(action: Action<T>)
      requires Valid()
      modifies this
      ensures Valid() && AfterAction(Some(old(View())), element, action) == Some(View())
      ensures history == old(history) + multiset(MovedByAction(action)) && Keeps(old(View()), View())
      ensures old(slices) <= slices
      decreases action, 3
    {
      ActionMoves(View(), element, history, action);
      match action {
        case AllocOne(value, base) => var _ := AllocObject(value, base);
        case FromIter(iter, base) => var _ := TryAllocFromIter(iter, base);
      }
    }

    method ActAll(actions: seq<Action<T>>)
      requires Valid()
      modifies this
      ensures Ran(old(history), old(slices), AfterActions(Some(old(View())), element, actions, |actions|),
                  MovedByActions(actions, |actions|))
      decreases actions, 2
    {
      ghost var first, past, had := View(), history, slices;
      for i := 0 to |actions|
        invariant Ran(past, had, AfterActions(Some(first), element, actions, i), MovedByActions(actions, i))
      {
        ActNext(actions, i, first, past, had);
      }
    }

    method ActNext(actions: seq<Action<T>>, i: nat, ghost first: Arena<T>, ghost past: multiset<T>,
        ghost had: seq<Slice>)
      requires i < |actions| && element.size > 0
      requires Ran(past, had, AfterActions(Some(first), element, actions, i), MovedByActions(actions, i))
      modifies this
      ensures Ran(past, had, AfterActions(Some(first), element, actions, i + 1), MovedByActions(actions, i + 1))
      decreases actions, 1
    {
      ghost var before, objects := View(), history;
      Act(actions[i]);
      NextAction(first, before, View(), element, actions, i, past, objects, history);
    }

    /** One call of `next`. */
    method Next(call: Call<T>) returns (item: Option<T>)
      requires Valid()
      modifies this
      ensures Ran(old(history), old(slices), AfterCall(Some(old(View())), element, call), MovedByCall(call))
      ensures item == call.item
      decreases call, 3
    {
      match call {
        case Call(actions, yielded) =>
          ActAll(actions);
          item := yielded;
      }
    }

    method CallNext(
        calls: seq<Call<T>>, i: nat, ghost first: Arena<T>, ghost past: multiset<T>, ghost had: seq<Slice>)
      returns (item: Option<T>)
      requires i < |calls| && element.size > 0
      requires Ran(past, had, AfterCalls(Some(first), element, calls, i), MovedByCalls(calls, i))
      modifies this
      ensures Ran(past, had, AfterCalls(Some(first), element, calls, i + 1), MovedByCalls(calls, i + 1))
      ensures item == calls[i].item
      decreases calls, 1
    {
      ghost var before, objects := View(), history;
      item := Next(calls[i]);
      NextCall(first, before, View(), element, calls, i, past, objects, history);
    }

    /** The calls of `collect` until an error or the end. */
    method CollectCalls(calls: seq<Call<T>>) returns (items: Option<seq<T>>)
      requires Valid()
      modifies this
      ensures Ran(old(history), old(slices), AfterCalls(Some(old(View())), element, calls, CallsMade(calls, 0)),
                  MovedByCalls(calls, CallsMade(calls, 0)))
      ensures items == if Fails(calls) then None else Some(Items(calls, |calls|))
      decreases calls, 2
    {
      var vec: seq<T> := [];
      ghost var first, past, had := View(), history, slices;
      for i := 0 to |calls|
        invariant Ran(past, had, AfterCalls(Some(first), element, calls, i), MovedByCalls(calls, i))
        invariant Collected(calls, i, vec)
      {
        CollectNext(calls, i, vec);
        var item := CallNext(calls, i, first, past, had);
        if item.None? {
          return None;
        }
        vec := vec + [item.value];
      }
      CollectAll(calls, vec);
      items := Some(vec);
    }

    method Collect(iter: Iter<T>) returns (items: Option<seq<T>>)
      requires Valid()
      modifies this
      ensures Valid() && AfterIter(Some(old(View())), element, iter) == Some(View())
      ensures history == old(history) + multiset(MovedByIter(iter)) && old(slices) <= slices
      ensures items == if Fails(iter.calls) then None else Some(Items(iter.calls, |iter.calls|))
      decreases iter, 2
    {
      match iter {
        case Iter(calls, closing) =>
          items := CollectCalls(calls);
          if items.Some? {
            ActAll(closing);
          }
      }
    }

    /** The objects, if there are any, lie at `at` and are the slice handed out last, after `had`
        others. */
    ghost predicate Returned(at: nat, objects: seq<T>, had: nat)
      reads this
    {
      objects != [] ==>
        StoredAt(View(), element, at, objects) && |slices| > had && IsSlice(|slices| - 1, at, |objects|)
    }

    /** Moves in what was collected; nothing is allocated for nothing. */
    method StoreItems(items: seq<T>, base: nat) returns (at: nat)
      requires Valid()
      modifies this
      ensures Valid() && AllocSlice(old(View()), element, items, base) == Some(View())
      ensures history == old(history) + multiset(items) && old(slices) <= slices
      ensures Returned(at, items, |old(slices)|)
    {
      if items == [] {
        return 0;
      }
      at := AllocCollected(items, base);
    }

    /** `try_alloc_from_iter`: collects everything, and keeps none of it when an item was an
        error; what the iterator allocated itself stays. */
    method TryAllocFromIter(iter: Iter<T>, base: nat) returns (at: Option<nat>)
      requires Valid()
      modifies this
      ensures Valid() && AfterFromIter(Some(old(View())), element, iter, base) == Some(View())
      ensures history == old(history) + multiset(MovedByFromIter(iter)) && Keeps(old(View()), View())
      ensures at.None? <==> Fails(iter.calls)
      ensures at.Some? ==> Returned(at.value, Items(iter.calls, |iter.calls|), |old(slices)|)
      ensures old(slices) <= slices
      decreases iter, 3
    {
      FromIterMoves(View(), element, history, iter, base);
      var vec := Collect(iter);
      if vec.None? {
        assert MovedByIter(iter) + [] == MovedByIter(iter);
        return None;
      }
      var start := StoreItems(vec.value, base);
      assert MovedByFromIter(iter) == MovedByIter(iter) + vec.value;
      at := Some(start);
    }

    /** `ArenaChunk::destroy`: its caller must see to it that the first `len` slots are
        initialized, if objects are to be dropped. */
    method Destroy(chunk: Chunk<T>, len: nat) returns (dropped: seq<T>)
      requires element.needsDrop ==> Initialized(chunk.slots, len)
      ensures dropped == if element.needsDrop then Values(chunk.slots, len) else []
    {
      dropped := [];
      if element.needsDrop {
        for i := 0 to len
          invariant dropped == Values(chunk.slots, i)
        {
          dropped := dropped + [chunk.slots[i].value];
        }
      }
    }

    method DestroyRecorded(chunk: Chunk<T>) returns (dropped: seq<T>)
      requires element.needsDrop ==> Initialized(chunk.slots, chunk.entries)
      ensures dropped == if element.needsDrop then ChunkDrops(chunk) else []
    {
      dropped := Destroy(chunk, chunk.entries);
    }

    /** In the chunks before the last one the recorded slots are initialized, if that matters. */
    ghost predicate OthersRecorded()
      requires chunks != []
      reads this
    {
      element.needsDrop ==>
        forall c :: 0 <= c < |chunks| - 1 ==> Initialized(chunks[c].slots, chunks[c].entries)
    }

    /** In the last chunk the slots before the pointer are initialized, if that matters. */
    ghost predicate LastReady()
      requires chunks != []
      reads this
    {
      && element.size > 0 && View().Last().base <= ptr
      && (element.needsDrop ==> View().Used(element) >= 0 && Initialized(View().Last().slots, View().Used(element)))
    }

    /** Destroys the chunks before the last one, by their recorded counts. */
    method DestroyOthers() returns (dropped: seq<T>)
      requires chunks != [] && OthersRecorded()
      ensures dropped == OthersDropped(chunks, element)
    {
      dropped := [];
      var all := chunks;
      for c := 0 to |all| - 1
        invariant dropped == if element.needsDrop then DroppedUpTo(all, c) else []
      {
        var more := DestroyRecorded(all[c]);
        if element.needsDrop {
          assert DroppedUpTo(all, c + 1) == DroppedUpTo(all, c) + ChunkDrops(all[c]);
        }
        dropped := dropped + more;
      }
    }

    /** `clear_last_chunk`: how much was filled follows from the pointer. */
    method ClearLastChunk() returns (dropped: seq<T>)
      requires chunks != [] && LastReady()
      modifies this`ptr
      ensures dropped == LastDropped(old(View()), element) && ptr == chunks[|chunks| - 1].base
    {
      var last := chunks[|chunks| - 1];
      UsedIsNat(ptr - last.base, element.size);
      dropped := Destroy(last, (ptr - last.base) / element.size);
      ptr := last.base;
    }

    method DropChunks() returns (dropped: seq<T>)
      requires chunks != [] && LastReady() && OthersRecorded()
      modifies this`ptr, this`chunks
      ensures chunks == [] && dropped == LastDropped(old(View()), element) + OthersDropped(old(chunks), element)
    {
      dropped := ClearLastChunk();
      var others := DestroyOthers();
      dropped := dropped + others;
      chunks := [];
    }

    /** `Drop`: every object that was ever moved into the arena is dropped once, if it has a
        destructor at all. */
    method Drop() returns (dropped: seq<T>)
      requires Valid()
      modifies this`ptr, this`chunks
      ensures dropped == old(View()).Dropped(element)
      ensures multiset(dropped) == if element.needsDrop then history else multiset{}
      ensures chunks == []
    {
      if chunks == [] {
        return [];
      }
      UsedIsNat(ptr - View().Last().base, element.size);
      DroppedSum(View(), element);
      dropped := DropChunks();
    }
  }
}
