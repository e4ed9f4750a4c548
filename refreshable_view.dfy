/**
 The phase a refresh-aware view renders, chosen from the refresh action the
 environment provides (absent when no ancestor attached one) and the view's
 own refresher.
 */
module RefreshableView {

  import opened Wrappers
  import opened RefreshMachine
  import opened Refreshable

  datatype RefreshPhase =
    | Idle(refresher: Refresher, action: Action)   // `refresher.perform(action)` may start a refresh
    | Refreshing                                   // a refresh is in progress
    | NotSupported                                 // no refresh action in the environment

  /** The phase `body` hands to the content. It only reads the refresher. */
  function Phase(action: Option<Action>, refresher: Refresher): (p: RefreshPhase)
    reads refresher
    ensures p.NotSupported? <==> action.None?
    ensures p.Refreshing? <==> action.Some? && refresher.isRefreshing
    ensures p.Idle? <==> action.Some? && !refresher.isRefreshing
    ensures p.Idle? ==> p.refresher == refresher && p.action == action.value
  {
    if action.Some? then
      if refresher.isRefreshing then Refreshing else Idle(refresher, action.value)
    else
      NotSupported
  }

  /** With no refresh action attached anywhere above the view, the view is
      told refresh is not supported, whatever its refresher's state. */
  lemma NoAttachedActionIsNotSupported(refresher: Refresher)
    ensures Phase(DefaultRefreshAction, refresher) == NotSupported
  {
  }

  /** Starting a refresh from a current idle phase, as the phase's
      documentation suggests (`refresher.perform(action)`), runs the action. */
  method PerformFromIdle(p: RefreshPhase) returns (ran: bool)
    requires p.Idle? && p.refresher.Valid() && !p.refresher.isRefreshing
    modifies p.refresher
    ensures ran
    ensures p.refresher.Valid()
    ensures p.refresher.isRefreshing == After(false, Event.Perform(p.action))
    ensures p.refresher.published == old(p.refresher.published) + Emitted(false, Event.Perform(p.action))
  {
    var handle;
    ran, handle := p.refresher.Perform(p.action);
  }
}
