/** Reentrant use of the dropless arena (compiler/rustc_arena/src/lib.rs): iterators that allocate
    while their items are written into the arena, and what that does to the arena's pointers.
 */
module DroplessIterators {
  import opened PowersOfTwo
  import opened Wrappers
  import opened DroplessArena

  type Byte = nat

  /** What a user of the arena may do: copy a slice into it, or write an iterator's items. */
  datatype Action = Slice(bytes: seq<Byte>, align: nat) | FromIter(iter: Iter)

  /** An iterator over items of `itemSize` bytes. `hint` is the length it announces when its
      lower and upper bound agree. Each call of `next` first does the actions of its step; the
      call that ends the iteration does those of `closing`. */
  datatype Iter = Iter(itemSize: nat, align: nat, hint: Option<nat>, steps: seq<Call>, closing: Call)

  datatype Call = Call(actions: seq<Action>, item: seq<Byte>)

  /** No zero-sized items, no empty slices, as the source asserts. */
  predicate Proper(a: Action)
    decreases a, 0
  {
    match a
    case Slice(bytes, _) => bytes != []
    case FromIter(iter) => ProperIter(iter)
  }

  predicate ProperIter(iter: Iter)
    decreases iter, 1
  {
    match iter
    case Iter(itemSize, _, _, steps, closing) =>
      && itemSize > 0 && ProperCall(closing)
      && forall i :: 0 <= i < |steps| ==> ProperCall(steps[i]) && |steps[i].item| == itemSize
  }

  predicate ProperCall(call: Call)
    decreases call, 2
  {
    match call
    case Call(actions, _) => forall i :: 0 <= i < |actions| ==> Proper(actions[i])
  }

  /** The items of the first `n` calls, one after the other. */
  function Joined(steps: seq<Call>, n: nat): seq<Byte>
    requires n <= |steps|
  {
    if n == 0 then [] else Joined(steps, n - 1) + steps[n - 1].item
  }

  lemma {:induction false} JoinedLength(steps: seq<Call>, n: nat, itemSize: nat)
    requires n <= |steps| && forall i :: 0 <= i < |steps| ==> |steps[i].item| == itemSize
    ensures |Joined(steps, n)| == n * itemSize
  {
    if n > 0 {
      JoinedLength(steps, n - 1, itemSize);
      assert n * itemSize == (n - 1) * itemSize + itemSize;
    }
  }

  /** Each item keeps its place. */
  lemma {:induction false} JoinedItems(steps: seq<Call>, n: nat, itemSize: nat, i: nat)
    requires i < n <= |steps| && forall j :: 0 <= j < |steps| ==> |steps[j].item| == itemSize
    ensures i * itemSize + itemSize <= |Joined(steps, n)| == n * itemSize
    ensures Joined(steps, n)[i * itemSize..i * itemSize + itemSize] == steps[i].item
  {
    JoinedLength(steps, n - 1, itemSize);
    JoinedLength(steps, n, itemSize);
    if i < n - 1 {
      JoinedItems(steps, n - 1, itemSize, i);
      assert Joined(steps, n)[..(n - 1) * itemSize] == Joined(steps, n - 1);
    }
  }

  predicate Fails(iter: Iter, failing: Option<nat>) {
    failing.Some? && failing.value < |iter.steps|
  }

  /** How many items the slice gets: all, or no more than were announced. An honest hint
      announces all, and then both paths return the same bytes. */
  function Yielded(iter: Iter): (n: nat)
    ensures n <= |iter.steps|
    ensures iter.hint in {None, Some(|iter.steps|)} ==> n == |iter.steps|
  {
    if iter.hint.Some? then Min(iter.hint.value, |iter.steps|) else |iter.steps|
  }

  /** For how many items room is reserved. */
  function Announced(iter: Iter): nat {
    if iter.hint.Some? then iter.hint.value else |iter.steps|
  }

  // ----- what happens to the arena

  /** The arena and what the allocator will still answer. */
  datatype State = State(arena: Arena, bases: seq<nat>)

  /** `alloc_raw`. Once the allocator has given up there is no state any more. */
  function AfterRequest(st: Option<State>, request: Request, log: nat): Option<State> {
    if st.None? then None
    else
      var r := st.value.arena.AllocRaw(request, log, st.value.bases);
      if r.Aborted? then None else Some(State(r.arena, r.bases))
  }

  function AfterAction(st: Option<State>, a: Action, log: nat): Option<State>
    decreases a, 3
  {
    match a
    case Slice(bytes, align) => AfterRequest(st, Request(|bytes|, align), log)
    case FromIter(iter) => AfterFromIter(st, iter, log)
  }

  /** `alloc_from_iter`: by the size hint. */
  function AfterFromIter(st: Option<State>, iter: Iter, log: nat): Option<State>
    decreases iter, 5
  {
    if iter.hint.None? then AfterTry(st, iter, None, log)
    else if iter.hint.value == 0 then st
    else AfterExact(st, iter, iter.hint.value, log)
  }

  /** The exact-size path: room is reserved before the iterator is asked for anything. */
  function AfterExact(st: Option<State>, iter: Iter, len: nat, log: nat): Option<State>
    decreases iter, 4
  {
    AfterWriting(AfterRequest(st, Request(len * iter.itemSize, iter.align), log), iter, len, log)
  }

  /** `write_from_iter`: asks for one item more than there is room for, or until there are no more. */
  function AfterWriting(st: Option<State>, iter: Iter, len: nat, log: nat): Option<State>
    decreases iter, 3
  {
    match iter
    case Iter(_, _, _, steps, closing) =>
      var called := AfterCalls(st, steps, Min(len + 1, |steps|), log);
      if len < |steps| then called else AfterCall(called, closing, log)
  }

  /** `try_alloc_from_iter`: everything is collected first. */
  function AfterTry(st: Option<State>, iter: Iter, failing: Option<nat>, log: nat): Option<State>
    decreases iter, 4
  {
    var collected := AfterCollect(st, iter, failing, log);
    if Fails(iter, failing) || iter.steps == [] then collected
    else AfterRequest(collected, Request(|iter.steps| * iter.itemSize, iter.align), log)
  }

  function AfterCollect(st: Option<State>, iter: Iter, failing: Option<nat>, log: nat): Option<State>
    decreases iter, 3
  {
    match iter
    case Iter(_, _, _, steps, closing) =>
      if Fails(iter, failing) then AfterCalls(st, steps, failing.value + 1, log)
      else AfterCall(AfterCalls(st, steps, |steps|, log), closing, log)
  }

  /** The first `k` calls of `next`. */
  function AfterCalls(st: Option<State>, steps: seq<Call>, k: nat, log: nat): Option<State>
    requires k <= |steps|
    decreases steps, 1, k
  {
    if k == 0 then st else AfterCall(AfterCalls(st, steps, k - 1, log), steps[k - 1], log)
  }

  function AfterCall(st: Option<State>, call: Call, log: nat): Option<State>
    decreases call, 2
  {
    if st.None? then None
    else
      match call
      case Call(actions, _) => AfterActions(st, actions, |actions|, log)
  }

  function AfterActions(st: Option<State>, actions: seq<Action>, k: nat, log: nat): Option<State>
    requires k <= |actions|
    decreases actions, 1, k
  {
    if k == 0 then st
    else
      var before := AfterActions(st, actions, k - 1, log);
      if before.None? then None else AfterAction(before, actions[k - 1], log)
  }

  lemma {:induction false} CallsStop(st: Option<State>, steps: seq<Call>, j: nat, k: nat, log: nat)
    requires j <= k <= |steps| && AfterCalls(st, steps, j, log).None?
    ensures AfterCalls(st, steps, k, log).None?
  {
    if j < k {
      CallsStop(st, steps, j, k - 1, log);
    }
  }

  lemma {:induction false} NothingWritten(iter: Iter, len: nat, log: nat)
    ensures AfterWriting(None, iter, len, log).None?
  {
    CallsStop(None, iter.steps, 0, Min(len + 1, |iter.steps|), log);
  }

  lemma {:induction false} ActionsStop(st: Option<State>, actions: seq<Action>, j: nat, k: nat, log: nat)
    requires j <= k <= |actions| && AfterActions(st, actions, j, log).None?
    ensures AfterActions(st, actions, k, log).None?
  {
    if j < k {
      ActionsStop(st, actions, j, k - 1, log);
    }
  }

  lemma {:induction false} NextCall(st: Option<State>, steps: seq<Call>, k: nat, log: nat)
    requires k < |steps|
    ensures AfterCalls(st, steps, k + 1, log) == AfterCall(AfterCalls(st, steps, k, log), steps[k], log)
  {
  }

  lemma {:induction false} NextAction(st: Option<State>, actions: seq<Action>, k: nat, log: nat)
    requires k < |actions| && AfterActions(st, actions, k, log).Some?
    ensures AfterActions(st, actions, k + 1, log) == AfterAction(AfterActions(st, actions, k, log), actions[k], log)
  {
  }
}
