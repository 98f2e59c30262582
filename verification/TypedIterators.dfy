/** Reentrant use of the typed arena (compiler/rustc_arena/src/lib.rs): an iterator whose items are
    moved into the arena may allocate there itself. Everything is collected first.
 */
module TypedIterators {
  import opened Wrappers
  import opened TypedArena

  /** What a user of the arena may do, with the address of the chunk should one be needed. */
  datatype Action<T> = AllocOne(value: T, base: nat) | FromIter(iter: Iter<T>, base: nat)

  /** An iterator: its calls of `next` that yield, and what the one that ends it does. */
  datatype Iter<T> = Iter(calls: seq<Call<T>>, closing: seq<Action<T>>)

  /** A call of `next`: first its actions, then the item; `None` is an error. */
  datatype Call<T> = Call(actions: seq<Action<T>>, item: Option<T>)

  /** How many calls `collect` makes: up to the first error, and that one too. */
  function CallsMade<T>(calls: seq<Call<T>>, k: nat): (n: nat)
    requires k <= |calls|
    ensures n <= |calls|
    decreases |calls| - k
  {
    if k == |calls| then k else if calls[k].item.None? then k + 1 else CallsMade(calls, k + 1)
  }

  predicate Fails<T>(calls: seq<Call<T>>) {
    exists i :: 0 <= i < |calls| && calls[i].item.None?
  }

  /** The items before the first error among the first `n`. */
  function Items<T>(calls: seq<Call<T>>, n: nat): seq<T>
    requires n <= |calls|
  {
    if n == 0 then []
    else if calls[n - 1].item.Some? then Items(calls, n - 1) + [calls[n - 1].item.value]
    else Items(calls, n - 1)
  }

  /** Without an error the items are those of the calls, in order. */
  lemma {:induction false} ItemsAre<T>(calls: seq<Call<T>>, n: nat)
    requires n <= |calls| && forall i :: 0 <= i < n ==> calls[i].item.Some?
    ensures |Items(calls, n)| == n && forall i :: 0 <= i < n ==> calls[i].item == Some(Items(calls, n)[i])
  {
    if n > 0 {
      ItemsAre(calls, n - 1);
    }
  }

  /** Calls are made up to the first error, or all of them. */
  lemma {:induction false} CallsMadeAre<T>(calls: seq<Call<T>>, k: nat)
    requires k <= |calls|
    ensures var n := CallsMade(calls, k);
            && k <= n <= |calls| && (k < |calls| ==> k < n)
            && (forall i :: k <= i < n - 1 ==> calls[i].item.Some?)
            && (n == |calls| || calls[n - 1].item.None?)
    decreases |calls| - k
  {
    if k < |calls| {
      CallsMadeAre(calls, k + 1);
    }
  }

  // ----- what happens to the arena

  function AfterAction<T>(a: Option<Arena<T>>, e: Element, action: Action<T>): Option<Arena<T>>
    requires e.size > 0
    decreases action, 3
  {
    match action
    case AllocOne(value, base) => if a.None? then None else Alloc(a.value, e, value, base)
    case FromIter(iter, base) => AfterFromIter(a, e, iter, base)
  }

  /** `try_alloc_from_iter`. */
  function AfterFromIter<T>(a: Option<Arena<T>>, e: Element, iter: Iter<T>, base: nat): Option<Arena<T>>
    requires e.size > 0
    decreases iter, 3
  {
    var collected := AfterIter(a, e, iter);
    if collected.None? || Fails(iter.calls) then collected
    else AllocSlice(collected.value, e, Items(iter.calls, |iter.calls|), base)
  }

  /** What the iterator itself does while it is collected. */
  function AfterIter<T>(a: Option<Arena<T>>, e: Element, iter: Iter<T>): Option<Arena<T>>
    requires e.size > 0
    decreases iter, 2
  {
    match iter
    case Iter(calls, closing) =>
      var called := AfterCalls(a, e, calls, CallsMade(calls, 0));
      if Fails(calls) then called else AfterActions(called, e, closing, |closing|)
  }

  function AfterCalls<T>(a: Option<Arena<T>>, e: Element, calls: seq<Call<T>>, k: nat): Option<Arena<T>>
    requires e.size > 0 && k <= |calls|
    decreases calls, 1, k
  {
    if k == 0 then a else AfterCall(AfterCalls(a, e, calls, k - 1), e, calls[k - 1])
  }

  function AfterCall<T>(a: Option<Arena<T>>, e: Element, call: Call<T>): Option<Arena<T>>
    requires e.size > 0
    decreases call, 2
  {
    match call
    case Call(actions, _) => AfterActions(a, e, actions, |actions|)
  }

  function AfterActions<T>(a: Option<Arena<T>>, e: Element, actions: seq<Action<T>>, k: nat): Option<Arena<T>>
    requires e.size > 0 && k <= |actions|
    decreases actions, 1, k
  {
    if k == 0 then a else AfterAction(AfterActions(a, e, actions, k - 1), e, actions[k - 1])
  }

  // ----- what is moved into the arena

  function MovedByAction<T>(action: Action<T>): seq<T>
    decreases action, 3
  {
    match action
    case AllocOne(value, _) => [value]
    case FromIter(iter, _) => MovedByFromIter(iter)
  }

  /** The items come last, and not at all when one of them is an error. */
  function MovedByFromIter<T>(iter: Iter<T>): seq<T>
    decreases iter, 3
  {
    MovedByIter(iter) + if Fails(iter.calls) then [] else Items(iter.calls, |iter.calls|)
  }

  function MovedByIter<T>(iter: Iter<T>): seq<T>
    decreases iter, 2
  {
    match iter
    case Iter(calls, closing) =>
      MovedByCalls(calls, CallsMade(calls, 0)) + if Fails(calls) then [] else MovedByActions(closing, |closing|)
  }

  function MovedByCalls<T>(calls: seq<Call<T>>, k: nat): seq<T>
    requires k <= |calls|
    decreases calls, 1, k
  {
    if k == 0 then [] else MovedByCalls(calls, k - 1) + MovedByCall(calls[k - 1])
  }

  function MovedByCall<T>(call: Call<T>): seq<T>
    decreases call, 2
  {
    match call
    case Call(actions, _) => MovedByActions(actions, |actions|)
  }

  function MovedByActions<T>(actions: seq<Action<T>>, k: nat): seq<T>
    requires k <= |actions|
    decreases actions, 1, k
  {
    if k == 0 then [] else MovedByActions(actions, k - 1) + MovedByAction(actions[k - 1])
  }

  // ----- one step of a loop

  lemma {:induction false} NextCall<T>(
    a: Arena<T>, b: Arena<T>, c: Arena<T>, e: Element, calls: seq<Call<T>>, k: nat,
    past: multiset<T>, before: multiset<T>, after: multiset<T>)
    requires e.size > 0 && k < |calls| && AfterCalls(Some(a), e, calls, k) == Some(b)
    requires AfterCall(Some(b), e, calls[k]) == Some(c)
    requires before == past + multiset(MovedByCalls(calls, k)) && after == before + multiset(MovedByCall(calls[k]))
    ensures AfterCalls(Some(a), e, calls, k + 1) == Some(c)
    ensures after == past + multiset(MovedByCalls(calls, k + 1))
  {
    assert AfterCalls(Some(a), e, calls, k + 1) == AfterCall(AfterCalls(Some(a), e, calls, k), e, calls[k]);
    assert MovedByCalls(calls, k + 1) == MovedByCalls(calls, k) + MovedByCall(calls[k]);
  }

  lemma {:induction false} NextAction<T>(
    a: Arena<T>, b: Arena<T>, c: Arena<T>, e: Element, actions: seq<Action<T>>, k: nat,
    past: multiset<T>, before: multiset<T>, after: multiset<T>)
    requires e.size > 0 && k < |actions| && AfterActions(Some(a), e, actions, k) == Some(b)
    requires AfterAction(Some(b), e, actions[k]) == Some(c)
    requires before == past + multiset(MovedByActions(actions, k))
    requires after == before + multiset(MovedByAction(actions[k]))
    ensures AfterActions(Some(a), e, actions, k + 1) == Some(c)
    ensures after == past + multiset(MovedByActions(actions, k + 1))
  {
    assert AfterActions(Some(a), e, actions, k + 1) == AfterAction(AfterActions(Some(a), e, actions, k), e, actions[k]);
    assert MovedByActions(actions, k + 1) == MovedByActions(actions, k) + MovedByAction(actions[k]);
  }

  /** What `collect` holds after `k` calls without an error. */
  ghost predicate Collected<T>(calls: seq<Call<T>>, k: nat, vec: seq<T>)
    requires k <= |calls|
  {
    vec == Items(calls, k) && forall j :: 0 <= j < k ==> calls[j].item.Some?
  }

  /** An error ends the collection, an item is appended. */
  lemma {:induction false} CollectNext<T>(calls: seq<Call<T>>, k: nat, vec: seq<T>)
    requires k < |calls| && Collected(calls, k, vec)
    ensures var item := calls[k].item;
            if item.None? then CallsMade(calls, 0) == k + 1 && Fails(calls)
            else Collected(calls, k + 1, vec + [item.value])
  {
    MadeFrom(calls, 0, k);
  }

  lemma {:induction false} CollectAll<T>(calls: seq<Call<T>>, vec: seq<T>)
    requires Collected(calls, |calls|, vec)
    ensures CallsMade(calls, 0) == |calls| && !Fails(calls) && vec == Items(calls, |calls|)
  {
    MadeFrom(calls, 0, |calls|);
  }

  lemma {:induction false} MadeFrom<T>(calls: seq<Call<T>>, i: nat, k: nat)
    requires i <= k <= |calls| && forall j :: i <= j < k ==> calls[j].item.Some?
    ensures CallsMade(calls, i) == CallsMade(calls, k)
    ensures k < |calls| ==> CallsMade(calls, i) > k
    decreases k - i
  {
    if i < k {
      MadeFrom(calls, i + 1, k);
    } else if k < |calls| {
      CallsMadeAre(calls, k);
    }
  }

  // ----- every run

  /** From a sound arena: there is room, the objects moved in join the history, and nothing that is
      there already is touched. */
  ghost predicate Moves<T>(before: Arena<T>, after: Option<Arena<T>>, e: Element, history: multiset<T>, moved: seq<T>) {
    after.Some? && Sound(after.value, e, history + multiset(moved)) && Keeps(before, after.value)
  }

  lemma {:induction false} MovesTwice<T>(
    a: Arena<T>, b: Option<Arena<T>>, c: Option<Arena<T>>, e: Element, history: multiset<T>,
    first: seq<T>, second: seq<T>)
    requires Moves(a, b, e, history, first) && Moves(b.value, c, e, history + multiset(first), second)
    ensures Moves(a, c, e, history, first + second)
  {
    KeepsTwice(a, b.value, c.value);
    assert history + multiset(first + second) == history + multiset(first) + multiset(second);
  }

  lemma {:induction false} MovesNothing<T>(a: Arena<T>, e: Element, history: multiset<T>)
    requires Sound(a, e, history)
    ensures Moves(a, Some(a), e, history, [])
  {
    KeepsItself(a);
    assert history + multiset([]) == history;
  }

  lemma {:induction false} ActionMoves<T>(a: Arena<T>, e: Element, history: multiset<T>, action: Action<T>)
    requires Sound(a, e, history)
    ensures Moves(a, AfterAction(Some(a), e, action), e, history, MovedByAction(action))
    decreases action, 3
  {
    match action
    case AllocOne(value, base) => AllocKeepsSound(a, e, history, value, base);
    case FromIter(iter, base) => FromIterMoves(a, e, history, iter, base);
  }

  lemma {:induction false} FromIterMoves<T>(a: Arena<T>, e: Element, history: multiset<T>, iter: Iter<T>, base: nat)
    requires Sound(a, e, history)
    ensures Moves(a, AfterFromIter(Some(a), e, iter, base), e, history, MovedByFromIter(iter))
    decreases iter, 3
  {
    IterMoves(a, e, history, iter);
    var collected, moved := AfterIter(Some(a), e, iter), MovedByIter(iter);
    if Fails(iter.calls) {
      assert moved + [] == moved;
    } else {
      var items := Items(iter.calls, |iter.calls|);
      SliceKeepsSound(collected.value, e, history + multiset(moved), items, base);
      MovesTwice(a, collected, AfterFromIter(Some(a), e, iter, base), e, history, moved, items);
    }
  }

  lemma {:induction false} IterMoves<T>(a: Arena<T>, e: Element, history: multiset<T>, iter: Iter<T>)
    requires Sound(a, e, history)
    ensures Moves(a, AfterIter(Some(a), e, iter), e, history, MovedByIter(iter))
    decreases iter, 2
  {
    match iter
    case Iter(calls, closing) =>
      var n := CallsMade(calls, 0);
      CallsMove(a, e, history, calls, n);
      var called, moved := AfterCalls(Some(a), e, calls, n), MovedByCalls(calls, n);
      if Fails(calls) {
        assert moved + [] == moved;
      } else {
        ActionsMove(called.value, e, history + multiset(moved), closing, |closing|);
        MovesTwice(a, called, AfterIter(Some(a), e, iter), e, history, moved, MovedByActions(closing, |closing|));
      }
  }

  lemma {:induction false} CallsMove<T>(a: Arena<T>, e: Element, history: multiset<T>, calls: seq<Call<T>>, k: nat)
    requires Sound(a, e, history) && k <= |calls|
    ensures Moves(a, AfterCalls(Some(a), e, calls, k), e, history, MovedByCalls(calls, k))
    decreases calls, 1, k
  {
    if k == 0 {
      MovesNothing(a, e, history);
    } else {
      CallsMove(a, e, history, calls, k - 1);
      var before, moved := AfterCalls(Some(a), e, calls, k - 1), MovedByCalls(calls, k - 1);
      CallMoves(before.value, e, history + multiset(moved), calls[k - 1]);
      MovesTwice(a, before, AfterCalls(Some(a), e, calls, k), e, history, moved, MovedByCall(calls[k - 1]));
    }
  }

  lemma {:induction false} CallMoves<T>(a: Arena<T>, e: Element, history: multiset<T>, call: Call<T>)
    requires Sound(a, e, history)
    ensures Moves(a, AfterCall(Some(a), e, call), e, history, MovedByCall(call))
    decreases call, 2
  {
    match call
    case Call(actions, _) => ActionsMove(a, e, history, actions, |actions|);
  }

  lemma {:induction false} ActionsMove<T>(
      a: Arena<T>, e: Element, history: multiset<T>, actions: seq<Action<T>>, k: nat)
    requires Sound(a, e, history) && k <= |actions|
    ensures Moves(a, AfterActions(Some(a), e, actions, k), e, history, MovedByActions(actions, k))
    decreases actions, 1, k
  {
    if k == 0 {
      MovesNothing(a, e, history);
    } else {
      ActionsMove(a, e, history, actions, k - 1);
      var before, moved := AfterActions(Some(a), e, actions, k - 1), MovedByActions(actions, k - 1);
      ActionMoves(before.value, e, history + multiset(moved), actions[k - 1]);
      MovesTwice(a, before, AfterActions(Some(a), e, actions, k), e, history, moved, MovedByAction(actions[k - 1]));
    }
  }

  /** After any sequence of allocations, reentrant ones included, dropping the arena drops every
      object once: what is dropped is, with multiplicities, what was moved in, and only initialized
      slots are touched. */
  lemma {:induction false} DropsExactlyOnce<T>(actions: seq<Action<T>>, e: Element)
    requires e.size > 0
    ensures var arena := AfterActions(Some(Arena(0, 0, [])), e, actions, |actions|);
            var moved := MovedByActions(actions, |actions|);
            && arena.Some? && Sound(arena.value, e, multiset(moved))
            && multiset(arena.value.Dropped(e)) == if e.needsDrop then multiset(moved) else multiset{}
  {
    var empty: Arena<T> := Arena(0, 0, []);
    ActionsMove(empty, e, multiset{}, actions, |actions|);
    var moved := MovedByActions(actions, |actions|);
    assert multiset{} + multiset(moved) == multiset(moved);
  }
}
