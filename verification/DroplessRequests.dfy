/** Reentrant use of the dropless arena is a plain sequence of requests: which ones reach `alloc_raw`,
    and in which order, follows from what the user does (compiler/rustc_arena/src/lib.rs).
 */
module DroplessRequests {
  import opened Wrappers
  import opened DroplessArena
  import opened DroplessIterators

  // ----- the requests

  function RequestsBy(a: Action): seq<Request>
    decreases a, 3
  {
    match a
    case Slice(bytes, align) => [Request(|bytes|, align)]
    case FromIter(iter) => RequestsByIter(iter)
  }

  /** With an exact hint the room comes first, and then one call more than there is room for, the one
      that ends the iteration included. Otherwise every call is made before room for the items is. */
  function RequestsByIter(iter: Iter): seq<Request>
    decreases iter, 2
  {
    match iter
    case Iter(itemSize, align, hint, steps, closing) =>
      if hint == Some(0) then []
      else if hint.Some? then
        [Request(hint.value * itemSize, align)]
        + (if hint.value < |steps| then RequestsByCalls(steps, hint.value + 1)
           else RequestsByCalls(steps, |steps|) + RequestsByCall(closing))
      else
        RequestsByCalls(steps, |steps|) + RequestsByCall(closing)
        + if steps == [] then [] else [Request(|steps| * itemSize, align)]
  }

  function RequestsByCalls(steps: seq<Call>, k: nat): seq<Request>
    requires k <= |steps|
    decreases steps, 1, k
  {
    if k == 0 then [] else RequestsByCalls(steps, k - 1) + RequestsByCall(steps[k - 1])
  }

  function RequestsByCall(call: Call): seq<Request>
    decreases call, 2
  {
    match call
    case Call(actions, _) => RequestsByActions(actions, |actions|)
  }

  function RequestsByActions(actions: seq<Action>, k: nat): seq<Request>
    requires k <= |actions|
    decreases actions, 1, k
  {
    if k == 0 then [] else RequestsByActions(actions, k - 1) + RequestsBy(actions[k - 1])
  }

  /** One request after the other. */
  function Served(st: Option<State>, requests: seq<Request>, log: nat): Option<State> {
    if requests == [] then st
    else AfterRequest(Served(st, requests[..|requests| - 1], log), requests[|requests| - 1], log)
  }

  // ----- one after the other

  lemma {:induction false} ServedTwice(st: Option<State>, a: seq<Request>, b: seq<Request>, log: nat)
    ensures Served(st, a + b, log) == Served(Served(st, a, log), b, log)
    decreases |b|
  {
    if b == [] {
      assert a + b == a;
    } else {
      var n := |b| - 1;
      assert (a + b)[..|a| + n] == a + b[..n];
      ServedTwice(st, a, b[..n], log);
    }
  }

  lemma {:induction false} ServedOne(st: Option<State>, request: Request, log: nat)
    ensures Served(st, [request], log) == AfterRequest(st, request, log)
  {
    assert [request][..0] == [];
  }

  lemma {:induction false} NoneIsServed(requests: seq<Request>, log: nat)
    ensures Served(None, requests, log).None?
    decreases |requests|
  {
    if requests != [] {
      NoneIsServed(requests[..|requests| - 1], log);
    }
  }

  // ----- an action serves its requests

  lemma {:induction false} ActionIsServed(st: Option<State>, a: Action, log: nat)
    ensures AfterAction(st, a, log) == Served(st, RequestsBy(a), log)
    decreases a, 3
  {
    match a
    case Slice(bytes, align) => ServedOne(st, Request(|bytes|, align), log);
    case FromIter(iter) => IterIsServed(st, iter, log);
  }

  lemma {:induction false} IterIsServed(st: Option<State>, iter: Iter, log: nat)
    ensures AfterFromIter(st, iter, log) == Served(st, RequestsByIter(iter), log)
    decreases iter, 2
  {
    if iter.hint.None? {
      CollectingIsServed(st, iter, log);
    } else if iter.hint.value > 0 {
      WritingIsServed(st, iter, log);
    }
  }

  /** Everything is collected before room is asked for. */
  lemma {:induction false} CollectingIsServed(st: Option<State>, iter: Iter, log: nat)
    requires iter.hint.None?
    ensures AfterTry(st, iter, None, log) == Served(st, RequestsByIter(iter), log)
    decreases iter, 1
  {
    CallsAndClosing(st, iter, log);
    TryEnds(st, iter, log);
    CollectingAsksLast(iter);
    ServedLast(st, RequestsByCalls(iter.steps, |iter.steps|) + RequestsByCall(iter.closing),
               Request(|iter.steps| * iter.itemSize, iter.align), log);
  }

  lemma {:induction false} ServedLast(st: Option<State>, requests: seq<Request>, last: Request, log: nat)
    ensures Served(st, requests + [last], log) == AfterRequest(Served(st, requests, log), last, log)
  {
    assert (requests + [last])[..|requests|] == requests;
  }

  lemma {:induction false} TryEnds(st: Option<State>, iter: Iter, log: nat)
    ensures var collected := AfterCall(AfterCalls(st, iter.steps, |iter.steps|, log), iter.closing, log);
            AfterTry(st, iter, None, log)
            == if iter.steps == [] then collected
               else AfterRequest(collected, Request(|iter.steps| * iter.itemSize, iter.align), log)
  {
  }

  lemma {:induction false} CollectingAsksLast(iter: Iter)
    requires iter.hint.None?
    ensures var calls := RequestsByCalls(iter.steps, |iter.steps|) + RequestsByCall(iter.closing);
            RequestsByIter(iter)
            == if iter.steps == [] then calls else calls + [Request(|iter.steps| * iter.itemSize, iter.align)]
  {
  }

  /** Room is asked for first. */
  lemma {:induction false} WritingIsServed(st: Option<State>, iter: Iter, log: nat)
    requires iter.hint.Some? && iter.hint.value > 0
    ensures AfterExact(st, iter, iter.hint.value, log) == Served(st, RequestsByIter(iter), log)
    decreases iter, 1
  {
    var room := Request(iter.hint.value * iter.itemSize, iter.align);
    var reserved := AfterRequest(st, room, log);
    ServedOne(st, room, log);
    if iter.hint.value < |iter.steps| {
      match iter
      case Iter(_, _, hint, steps, _) =>
        CallsAreServed(reserved, steps, hint.value + 1, log);
        ServedTwice(st, [room], RequestsByCalls(steps, hint.value + 1), log);
    } else {
      CallsAndClosing(reserved, iter, log);
      ServedTwice(st, [room], RequestsByCalls(iter.steps, |iter.steps|) + RequestsByCall(iter.closing), log);
    }
  }

  lemma {:induction false} CallsAndClosing(st: Option<State>, iter: Iter, log: nat)
    ensures AfterCall(AfterCalls(st, iter.steps, |iter.steps|, log), iter.closing, log)
         == Served(st, RequestsByCalls(iter.steps, |iter.steps|) + RequestsByCall(iter.closing), log)
    decreases iter, 0
  {
    match iter
    case Iter(_, _, _, steps, closing) =>
      CallsAreServed(st, steps, |steps|, log);
      CallIsServed(AfterCalls(st, steps, |steps|, log), closing, log);
      ServedTwice(st, RequestsByCalls(steps, |steps|), RequestsByCall(closing), log);
  }

  lemma {:induction false} CallsAreServed(st: Option<State>, steps: seq<Call>, k: nat, log: nat)
    requires k <= |steps|
    ensures AfterCalls(st, steps, k, log) == Served(st, RequestsByCalls(steps, k), log)
    decreases steps, 1, k
  {
    if k > 0 {
      CallsAreServed(st, steps, k - 1, log);
      CallIsServed(AfterCalls(st, steps, k - 1, log), steps[k - 1], log);
      ServedTwice(st, RequestsByCalls(steps, k - 1), RequestsByCall(steps[k - 1]), log);
    }
  }

  lemma {:induction false} CallIsServed(st: Option<State>, call: Call, log: nat)
    ensures AfterCall(st, call, log) == Served(st, RequestsByCall(call), log)
    decreases call, 2
  {
    NoneIsServed(RequestsByCall(call), log);
    match call
    case Call(actions, _) => ActionsAreServed(st, actions, |actions|, log);
  }

  lemma {:induction false} ActionsAreServed(st: Option<State>, actions: seq<Action>, k: nat, log: nat)
    requires k <= |actions|
    ensures AfterActions(st, actions, k, log) == Served(st, RequestsByActions(actions, k), log)
    decreases actions, 1, k
  {
    if k > 0 {
      ActionsAreServed(st, actions, k - 1, log);
      ActionIsServed(AfterActions(st, actions, k - 1, log), actions[k - 1], log);
      ServedTwice(st, RequestsByActions(actions, k - 1), RequestsBy(actions[k - 1]), log);
      NoneIsServed(RequestsBy(actions[k - 1]), log);
    }
  }
}
