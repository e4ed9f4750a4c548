/**
 The two-state refresh machine on values: the reference definition that the
 `Refresher` class (module Refreshable) is proved against.

 A refresher is either idle (`false`) or refreshing (`true`). Two kinds of
 event drive it: `perform(action)` on the refresher, and `end()` on a
 handle kept from an earlier `perform`. Every assignment to the published
 `isRefreshing` property is emitted to observers, including assignments that
 do not change its value; `Changes` keeps only the emissions that do.
 */
module RefreshMachine {

  /** What an application-supplied action does with the handle it is given,
      in order: end the refresh (`refresh.wrappedValue.end()`), or assign a
      new value to the handle binding (a write its setter discards). */
  datatype ActionStep = EndRefresh | ReplaceHandle

  /** A refresh action, `(Binding<Refresh>) -> Void`. The `id` tells two
      actions apart; `steps` is what the action does before it returns. */
  datatype Action = Action(id: nat, steps: seq<ActionStep>)

  /** Does the action end the refresh before it returns? */
  predicate CallsEnd(a: Action) {
    EndRefresh in a.steps
  }

  /** The values the steps write to the refresher's flag: one `false` per
      `end()`; a replaced handle writes nothing. */
  function EndWrites(steps: seq<ActionStep>): (w: seq<bool>)
    ensures forall i :: 0 <= i < |w| ==> !w[i]
    ensures w == [] <==> EndRefresh !in steps
  {
    if steps == [] then []
    else
      var init := steps[..|steps| - 1];
      assert steps == init + [steps[|steps| - 1]];
      EndWrites(init) + (if steps[|steps| - 1] == EndRefresh then [false] else [])
  }

  /** An action writes through its handle once per `end()` it calls. */
  lemma {:induction false} EndWritesCountsEnds(steps: seq<ActionStep>)
    ensures |EndWrites(steps)| == multiset(steps)[EndRefresh]
    decreases |steps|
  {
    if steps != [] {
      var init := steps[..|steps| - 1];
      assert steps == init + [steps[|steps| - 1]];
      assert multiset(steps) == multiset(init) + multiset{steps[|steps| - 1]};
      EndWritesCountsEnds(init);
    }
  }

  /** Taking one more step of an action: its writes and whether it has
      called `end()` so far extend by that step's. */
  lemma EndWritesPrefix(steps: seq<ActionStep>, i: nat)
    requires i < |steps|
    ensures EndWrites(steps[..i + 1]) == EndWrites(steps[..i]) + EndWrites([steps[i]])
    ensures (EndRefresh in steps[..i + 1]) == (EndRefresh in steps[..i] || steps[i] == EndRefresh)
  {
    assert steps[..i + 1][..i] == steps[..i];
    assert [steps[i]][..0] == [];
    assert steps[..i + 1] == steps[..i] + [steps[i]];
  }

  datatype Event =
    | Perform(action: Action)   // `Refresher.perform(action)`
    | End                       // `end()` on a handle kept from an earlier perform

  /** The values one event assigns to the published flag, in order. A perform
      while refreshing assigns nothing; otherwise it assigns `true`, the sink
      writes back the handle's live value (again `true`), and then the
      action's own writes follow. */
  function Emitted(refreshing: bool, e: Event): (r: seq<bool>)
    ensures e.End? ==> r == [false]
    ensures e.Perform? ==> (r == [] <==> refreshing)
    ensures e.Perform? && !refreshing ==>
              |r| == 2 + multiset(e.action.steps)[EndRefresh] && r[0] && r[1]
              && forall i :: 2 <= i < |r| ==> !r[i]
  {
    match e
    case Perform(a) =>
      if refreshing then []
      else
        EndWritesCountsEnds(a.steps);
        [true, true] + EndWrites(a.steps)
    case End => [false]
  }

  /** The flag after one event, stated independently of `Emitted`: it is the
      last value the event emitted, or the old flag when it emitted nothing. */
  function After(refreshing: bool, e: Event): (r: bool)
    ensures Emitted(refreshing, e) == [] ==> r == refreshing
    ensures Emitted(refreshing, e) != [] ==> r == Emitted(refreshing, e)[|Emitted(refreshing, e)| - 1]
  {
    match e
    case Perform(a) => refreshing || !CallsEnd(a)
    case End => false
  }

  /** The flag after a sequence of events. */
  function Run(refreshing: bool, events: seq<Event>): bool
    decreases |events|
  {
    if events == [] then refreshing else Run(After(refreshing, events[0]), events[1..])
  }

  /** Everything a sequence of events emits on the published flag. */
  function Trace(refreshing: bool, events: seq<Event>): seq<bool>
    decreases |events|
  {
    if events == [] then []
    else Emitted(refreshing, events[0]) + Trace(After(refreshing, events[0]), events[1..])
  }

  /** The actions a sequence of events actually invokes, in order. */
  function Invoked(refreshing: bool, events: seq<Event>): seq<Action>
    decreases |events|
  {
    if events == [] then []
    else
      (if events[0].Perform? && !refreshing then [events[0].action] else [])
      + Invoked(After(refreshing, events[0]), events[1..])
  }

  /** The emissions that change the value, starting from `prev`. */
  function Changes(prev: bool, values: seq<bool>): seq<bool>
    decreases |values|
  {
    if values == [] then []
    else if values[0] == prev then Changes(prev, values[1..])
    else [values[0]] + Changes(values[0], values[1..])
  }

  /** The sequence of distinct states an observer sees, starting from `start`. */
  function Observed(start: bool, events: seq<Event>): seq<bool> {
    [start] + Changes(start, Trace(start, events))
  }

  /** `n` calls of `end()` on a kept handle. */
  function EndCalls(n: nat): (es: seq<Event>)
    ensures |es| == n
  {
    if n == 0 then [] else [End] + EndCalls(n - 1)
  }

  // ---------------------------------------------------------------------
  // Single events

  /** The re-entrancy guard: a perform while refreshing invokes nothing and
      emits nothing, and the flag stays `true`. */
  lemma PerformWhileRefreshingIsRejected(a: Action)
    ensures Emitted(true, Perform(a)) == [] && After(true, Perform(a))
    ensures Invoked(true, [Perform(a)]) == []
  {
  }

  /** A perform while idle invokes its action, and the flag is published as
      `true` twice (the assignment, then the sink's write-back of the
      handle's value) before any write the action makes. */
  lemma PerformWhileIdleRaisesFirst(a: Action)
    ensures Invoked(false, [Perform(a)]) == [a]
    ensures Emitted(false, Perform(a))[..2] == [true, true]
    ensures Emitted(false, Perform(a))[2..] == EndWrites(a.steps)
  {
  }

  // ---------------------------------------------------------------------
  // Sequences of events

  lemma {:induction false} RunIsLastOfTrace(refreshing: bool, events: seq<Event>)
    ensures Trace(refreshing, events) == [] ==> Run(refreshing, events) == refreshing
    ensures Trace(refreshing, events) != [] ==>
              Run(refreshing, events) == Trace(refreshing, events)[|Trace(refreshing, events)| - 1]
    decreases |events|
  {
    if events != [] {
      var next := After(refreshing, events[0]);
      RunIsLastOfTrace(next, events[1..]);
    }
  }

  lemma {:induction false} RunAppend(refreshing: bool, xs: seq<Event>, ys: seq<Event>)
    ensures Run(refreshing, xs + ys) == Run(Run(refreshing, xs), ys)
    decreases |xs|
  {
    if xs == [] {
      assert xs + ys == ys;
    } else {
      assert (xs + ys)[0] == xs[0] && (xs + ys)[1..] == xs[1..] + ys;
      RunAppend(After(refreshing, xs[0]), xs[1..], ys);
    }
  }

  lemma {:induction false} InvokedAppend(refreshing: bool, xs: seq<Event>, ys: seq<Event>)
    ensures Invoked(refreshing, xs + ys) == Invoked(refreshing, xs) + Invoked(Run(refreshing, xs), ys)
    decreases |xs|
  {
    if xs == [] {
      assert xs + ys == ys;
    } else {
      assert (xs + ys)[0] == xs[0] && (xs + ys)[1..] == xs[1..] + ys;
      InvokedAppend(After(refreshing, xs[0]), xs[1..], ys);
    }
  }

  // Taking the next event off the calls still to run, for a driver that has
  // already published `published` and seen `ran` run.

  lemma RunFirst(now: bool, rest: seq<Event>)
    requires rest != []
    ensures Run(now, rest) == Run(After(now, rest[0]), rest[1..])
  {
  }

  lemma TraceFirst(now: bool, published: seq<bool>, rest: seq<Event>)
    requires rest != []
    ensures published + Trace(now, rest)
              == (published + Emitted(now, rest[0])) + Trace(After(now, rest[0]), rest[1..])
  {
  }

  lemma InvokedFirst(now: bool, ran: seq<Action>, rest: seq<Event>, ranNow: seq<Action>)
    requires rest != []
    requires ranNow == if rest[0].Perform? && !now then [rest[0].action] else []
    ensures ran + Invoked(now, rest) == (ran + ranNow) + Invoked(After(now, rest[0]), rest[1..])
  {
  }

  /** Once a refresh has ended, the guard lets the next perform through,
      whatever happened before. */
  lemma GuardResetsAfterEnd(refreshing: bool, before: seq<Event>, a: Action)
    ensures Run(refreshing, before + [End]) == false
    ensures Invoked(refreshing, before + [End, Perform(a)]) == Invoked(refreshing, before) + [a]
  {
    RunAppend(refreshing, before, [End]);
    InvokedAppend(refreshing, before, [End, Perform(a)]);
    assert [End, Perform(a)][1..] == [Perform(a)];
    assert [Perform(a)][1..] == [];
    assert Invoked(false, [Perform(a)]) == [a];
    assert Invoked(Run(refreshing, before), [End, Perform(a)]) == Invoked(false, [Perform(a)]);
  }

  /** While refreshing, performs without an `end()` in between invoke
      nothing, emit nothing and leave the flag `true`. */
  lemma {:induction false} StaysRejectedWithoutEnd(events: seq<Event>)
    requires forall i :: 0 <= i < |events| ==> events[i].Perform?
    ensures Run(true, events) && Invoked(true, events) == [] && Trace(true, events) == []
    decreases |events|
  {
    if events != [] {
      StaysRejectedWithoutEnd(events[1..]);
    }
  }

  /** At most one refresh is in flight: performs whose actions keep the
      handle, with no `end()` anywhere, invoke at most one action, and none
      if the refresher was already refreshing. */
  lemma {:induction false} AtMostOneInFlight(refreshing: bool, events: seq<Event>)
    requires forall i :: 0 <= i < |events| ==> events[i].Perform? && !CallsEnd(events[i].action)
    ensures |Invoked(refreshing, events)| <= 1
    ensures refreshing ==> Invoked(refreshing, events) == []
    ensures events != [] && !refreshing ==> Invoked(refreshing, events) == [events[0].action]
  {
    if events != [] {
      StaysRejectedWithoutEnd(events[1..]);
      if refreshing {
        StaysRejectedWithoutEnd(events);
      }
    }
  }

  /** `end()` is idempotent: any positive number of calls leaves the same
      state, emissions aside, as one call, and an observer sees the same. */
  lemma {:induction false} EndIsIdempotent(refreshing: bool, n: nat)
    requires n >= 1
    ensures Run(refreshing, EndCalls(n)) == Run(refreshing, [End]) == false
    ensures Trace(refreshing, EndCalls(n)) == seq(n, _ => false)
    ensures Observed(refreshing, EndCalls(n)) == Observed(refreshing, [End])
  {
    EndTrace(refreshing, n);
    ChangesOfConstant(refreshing, false, Trace(refreshing, EndCalls(n)));
    ChangesOfConstant(refreshing, false, [false]);
    RunIsLastOfTrace(refreshing, EndCalls(n));
  }

  lemma {:induction false} EndTrace(refreshing: bool, n: nat)
    ensures Trace(refreshing, EndCalls(n)) == seq(n, _ => false)
  {
    if n > 0 {
      EndTrace(false, n - 1);
      assert EndCalls(n)[1..] == EndCalls(n - 1);
    }
  }

  /** Emitting one value over and over changes the observed state at most once. */
  lemma {:induction false} ChangesOfConstant(prev: bool, v: bool, values: seq<bool>)
    requires forall i :: 0 <= i < |values| ==> values[i] == v
    ensures Changes(prev, values) == if values == [] || prev == v then [] else [v]
    decreases |values|
  {
    if values != [] {
      ChangesOfConstant(v, v, values[1..]);
    }
  }

  /** `Changes` reports transitions only: its first value differs from the
      starting state and no two neighbours are equal. */
  lemma {:induction false} ChangesAlternate(prev: bool, values: seq<bool>)
    ensures Changes(prev, values) != [] ==> Changes(prev, values)[0] != prev
    ensures forall i :: 0 < i < |Changes(prev, values)| ==>
              Changes(prev, values)[i] != Changes(prev, values)[i - 1]
    decreases |values|
  {
    if values != [] {
      ChangesAlternate(prev, values[1..]);
      ChangesAlternate(values[0], values[1..]);
    }
  }

  /** The state observed last is the value emitted last, or the starting
      state when nothing was emitted. */
  lemma {:induction false} ChangesEndAtLast(prev: bool, values: seq<bool>)
    ensures var seen := [prev] + Changes(prev, values);
            seen[|seen| - 1] == if values == [] then prev else values[|values| - 1]
    decreases |values|
  {
    if values != [] {
      var rest := values[1..];
      if values[0] == prev {
        ChangesEndAtLast(prev, rest);
      } else {
        ChangesEndAtLast(values[0], rest);
      }
      if rest != [] {
        assert values[|values| - 1] == rest[|rest| - 1];
      }
    }
  }

  /** What observers of the published flag see over any sequence of calls:
      it starts at the initial state, every step is a real transition (no
      state is reported twice in a row), and it ends at the refresher's
      current state. */
  lemma ObservedIsTransitions(start: bool, events: seq<Event>)
    ensures Observed(start, events)[0] == start
    ensures forall i :: 0 < i < |Observed(start, events)| ==>
              Observed(start, events)[i] != Observed(start, events)[i - 1]
    ensures Observed(start, events)[|Observed(start, events)| - 1] == Run(start, events)
  {
    var trace := Trace(start, events);
    var changes := Changes(start, trace);
    ChangesAlternate(start, trace);
    ChangesEndAtLast(start, trace);
    RunIsLastOfTrace(start, events);
    forall i | 0 < i < |Observed(start, events)|
      ensures Observed(start, events)[i] != Observed(start, events)[i - 1]
    {
      assert Observed(start, events)[i] == changes[i - 1];
      if i > 1 {
        assert Observed(start, events)[i - 1] == changes[i - 2];
      }
    }
  }

  /** The round trip: a perform whose action ends the refresh before it
      returns is observed as `false -> true -> false`, with no other
      transition, although `true` is emitted twice. */
  lemma RoundTripEndImmediately(a: Action)
    requires CallsEnd(a)
    ensures Trace(false, [Perform(a)])[..2] == [true, true]
    ensures Observed(false, [Perform(a)]) == [false, true, false]
    ensures Run(false, [Perform(a)]) == false
  {
    var w := EndWrites(a.steps);
    assert Trace(false, [Perform(a)]) == [true, true] + w;
    assert ([true, true] + w)[1..] == [true] + w;
    assert ([true] + w)[1..] == w;
    ChangesOfConstant(true, false, w);
    assert Changes(false, [true, true] + w) == [true] + Changes(true, w);
  }

  /** An action that keeps the handle leaves the refresher refreshing; a
      later `end()` on the kept handle completes the same round trip. */
  lemma KeepHandleThenEnd(a: Action)
    requires !CallsEnd(a)
    ensures Run(false, [Perform(a)]) == true
    ensures Run(false, [Perform(a), End]) == false
    ensures Observed(false, [Perform(a)]) == [false, true]
    ensures Observed(false, [Perform(a), End]) == [false, true, false]
  {
    assert EndWrites(a.steps) == [];
    assert Trace(false, [Perform(a)]) == [true, true];
    assert [Perform(a), End][1..] == [End];
    assert Trace(true, [End]) == [false];
    assert Trace(false, [Perform(a), End]) == [true, true, false];
    assert Changes(false, [true, true]) == [true];
    assert Changes(true, [false]) == [false];
    assert Changes(true, [true, false]) == [false];
  }
}
