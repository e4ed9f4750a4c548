/**
 Clients of the refresher that exercise the documented behaviour through
 the class contracts alone: a kept handle, a rejected second perform, the
 live read through the handle, a handle kept across two refreshes, the
 end-immediately round trip, any number of rejected performs during a
 kept-handle refresh, the guard resetting after arbitrary calls, and the
 phases a view goes through.
 */
module RefreshScenarios {

  import opened Wrappers
  import opened RefreshMachine
  import opened Refreshable
  import opened RefreshableView

  /** An action keeps its handle; the refresher stays refreshing until the
      kept handle is ended, after which a new perform runs its action. */
  method StoredHandleScenario(first: Action, second: Action)
    returns (afterFirst: bool, afterEnd: bool, secondRan: bool)
    requires !CallsEnd(first)
    ensures afterFirst && !afterEnd && secondRan
  {
    var r := new Refresher();
    var ran, handle := r.Perform(first);
    afterFirst := r.isRefreshing;
    handle.value.End();
    afterEnd := r.isRefreshing;
    secondRan, handle := r.Perform(second);
  }

  /** A second perform while the first refresh is in progress does not run
      its action and leaves the refresher refreshing. */
  method RejectedWhileRefreshingScenario(first: Action, second: Action)
    returns (secondRan: bool, stillRefreshing: bool)
    requires !CallsEnd(first)
    ensures !secondRan && stillRefreshing
  {
    var r := new Refresher();
    var ran, handle := r.Perform(first);
    var rejected;
    secondRan, rejected := r.Perform(second);
    stillRefreshing := r.isRefreshing;
  }

  /** A `Refresh` read from the handle before the refresh ends reports the
      end afterwards: it reads the refresher's flag, it holds no copy. */
  method LiveHandleScenario(a: Action) returns (before: bool, after: bool)
    requires !CallsEnd(a)
    ensures before && !after
  {
    var r := new Refresher();
    var ran, handle := r.Perform(a);
    var early := handle.value.WrappedValue();
    before := early.IsRefreshing();
    handle.value.End();
    after := early.IsRefreshing();
  }

  /** A handle kept from an ended refresh still aliases the refresher's
      flag: ending it again ends whichever refresh is in progress now. */
  method StaleHandleScenario(first: Action, second: Action)
    returns (secondRan: bool, refreshingAfterStaleEnd: bool)
    requires !CallsEnd(first) && !CallsEnd(second)
    ensures secondRan && !refreshingAfterStaleEnd
  {
    var r := new Refresher();
    var ran, stale := r.Perform(first);
    stale.value.End();
    var current;
    secondRan, current := r.Perform(second);
    stale.value.End();
    refreshingAfterStaleEnd := r.isRefreshing;
  }

  /** An action that ends the refresh before returning: the action runs, the
      refresher is idle again, and observers see `false -> true -> false`. */
  method EndImmediatelyScenario(a: Action) returns (ran: bool, refreshing: bool, observed: seq<bool>)
    requires CallsEnd(a)
    ensures ran && !refreshing
    ensures observed == [false, true, false]
  {
    var r := new Refresher();
    var handle;
    ran, handle := r.Perform(a);
    refreshing := r.isRefreshing;
    observed := [false] + Changes(false, r.published);
    assert Trace(false, [Event.Perform(a)]) == r.published;
    RoundTripEndImmediately(a);
  }

  /** A view with an action cycles idle -> refreshing -> idle as the action
      starts a refresh and the kept handle ends it. */
  method PhaseCycleScenario(a: Action) returns (p0: RefreshPhase, p1: RefreshPhase, p2: RefreshPhase)
    requires !CallsEnd(a)
    ensures p0.Idle? && p0.action == a && p1 == Refreshing && p2 == p0
  {
    var r := new Refresher();
    p0 := Phase(Some(a), r);
    var ran, handle := r.Perform(a);
    p1 := Phase(Some(a), r);
    handle.value.End();
    p2 := Phase(Some(a), r);
  }

  /** While a kept-handle refresh is in progress, any further performs on
      the refresher are rejected: none of their actions runs and nothing is
      published. */
  method PerformsRejectedWhileInFlight(first: Action, later: seq<Event>)
    returns (ran: seq<Action>, stillRefreshing: bool)
    requires !CallsEnd(first)
    requires forall i :: 0 <= i < |later| ==> later[i].Perform?
    ensures ran == [] && stillRefreshing
  {
    var r := new Refresher();
    var firstRan, handle := r.Perform(first);
    StaysRejectedWithoutEnd(later);
    ran := RunCalls(r, handle.value, later);
    stillRefreshing := r.isRefreshing;
  }

  /** Whatever calls follow a kept-handle perform, once the kept handle is
      ended the next perform runs its action. */
  method GuardResetsOnRefresher(first: Action, before: seq<Event>, next: Action)
    returns (ran: seq<Action>, refreshing: bool)
    requires !CallsEnd(first)
    ensures ran != [] && ran[|ran| - 1] == next
    ensures refreshing == !CallsEnd(next)
  {
    var r := new Refresher();
    var firstRan, handle := r.Perform(first);
    var calls := before + [End, Event.Perform(next)];
    GuardResetsAfterEnd(true, before, next);
    RunAppend(true, before + [End], [Event.Perform(next)]);
    assert calls == (before + [End]) + [Event.Perform(next)];
    ran := RunCalls(r, handle.value, calls);
    refreshing := r.isRefreshing;
  }
}
