/**
 The refresh coordinator and the handle it hands to an action.

 `Refresher` owns the one mutable flag. `FlagBinding` is the read/write
 accessor pair over that flag (a `Binding<Bool>` whose getter and setter
 close over the refresher), `Refresh` is the value-type handle wrapping it,
 and `HandleBinding` is the `Binding<Refresh>` actually passed to the
 action: its getter builds a fresh `Refresh` over the same flag binding and
 its setter discards what it is given, so every effect of `end()` travels
 through the inner flag binding.
 */
module Refreshable {

  import opened Wrappers
  import opened RefreshMachine

  /** The default of the environment's refresh action: none attached. */
  const DefaultRefreshAction: Option<Action> := None

  class Refresher {

    /** `true` while a refresh is in progress. */
    var isRefreshing: bool

    /** Every value the `$isRefreshing` publisher has emitted, in order: one
        per assignment to the published property. */
    var published: seq<bool>

    /** The flag is the last value published, `false` before any. */
    predicate Valid()
      reads this
    {
      isRefreshing == (published != [] && published[|published| - 1])
    }

    constructor ()
      ensures Valid()
      ensures !isRefreshing && published == []
    {
      isRefreshing := false;
      published := [];
    }

    /** The private setter of `isRefreshing`; it publishes every assignment. */
    method Assign(value: bool)
      requires Valid()
      modifies this
      ensures Valid()
      ensures isRefreshing == value
      ensures published == old(published) + [value]
    {
      isRefreshing := value;
      published := published + [value];
    }

    /** Begins a refresh with `action` unless one is already in progress.
        `ran` tells whether the action was invoked; `handle` is the binding
        it was given, which the caller may keep and end later. */
    method Perform(action: Action) returns (ran: bool, handle: Option<HandleBinding>)
      requires Valid()
      modifies this
      ensures Valid()
      ensures ran == !old(isRefreshing)
      ensures ran <==> handle.Some?
      ensures handle.Some? ==> handle.value.inner.owner == this && fresh(handle.value.inner)
      ensures isRefreshing == After(old(isRefreshing), Event.Perform(action))
      ensures published == old(published) + Emitted(old(isRefreshing), Event.Perform(action))
    {
      if isRefreshing {
        return false, None;
      }
      Assign(true);
      var refresh := new FlagBinding(this);
      var binding := HandleBinding(refresh);
      SinkWriteBack(binding);
      assert isRefreshing && published == old(published) + [true, true];
      RunAction(action, binding);
      return true, Some(binding);
    }

    /** The synchronous `Just(binding).sink` subscription: it fires once and
        assigns the handle's live value back to the flag, which leaves the
        flag as it was but publishes it once more. */
    method SinkWriteBack(binding: HandleBinding)
      requires Valid() && binding.inner.owner == this
      modifies this
      ensures Valid()
      ensures isRefreshing == old(isRefreshing)
      ensures published == old(published) + [old(isRefreshing)]
    {
      Assign(binding.WrappedValue().IsRefreshing());
    }
  }

  /** The accessor pair whose getter reads, and whose setter assigns, the
      owner's flag. */
  class FlagBinding {

    const owner: Refresher

    constructor (owner: Refresher)
      ensures this.owner == owner
    {
      this.owner := owner;
    }

    /** The getter closure: the owner's flag, which a valid owner has last published. */
    function Get(): (r: bool)
      reads owner
      ensures owner.Valid() ==> r == (owner.published != [] && owner.published[|owner.published| - 1])
    {
      owner.isRefreshing
    }

    method Set(value: bool)
      requires owner.Valid()
      modifies owner
      ensures owner.Valid()
      ensures owner.isRefreshing == value
      ensures owner.published == old(owner.published) + [value]
    {
      owner.Assign(value);
    }
  }

  /** The handle an action uses to end the refresh. It stores no flag of its
      own: it reads and writes the owner's flag through its binding. */
  datatype Refresh = Refresh(binding: FlagBinding) {

    /** The live value of the owner's flag, not a copy taken at construction. */
    function IsRefreshing(): (r: bool)
      reads binding.owner
      ensures binding.owner.Valid() ==>
                r == (binding.owner.published != [] && binding.owner.published[|binding.owner.published| - 1])
    {
      binding.Get()
    }

    /** Ends the refresh: writes `false` to the owner's flag and nothing else. */
    method End()
      requires binding.owner.Valid()
      modifies binding.owner
      ensures binding.owner.Valid()
      ensures binding.owner.isRefreshing == After(old(binding.owner.isRefreshing), Event.End)
      ensures binding.owner.published == old(binding.owner.published) + Emitted(old(binding.owner.isRefreshing), Event.End)
    {
      binding.Set(false);
    }
  }

  /** The handle binding: its getter wraps the flag binding in a new
      `Refresh`, and its setter ignores its argument. */
  datatype HandleBinding = HandleBinding(inner: FlagBinding) {

    /** Every read builds a new handle over the same flag binding. */
    function WrappedValue(): Refresh {
      Refresh(inner)
    }

    /** The setter discards the value it is given. */
    method SetWrappedValue(r: Refresh) {
    }

    /** `binding.wrappedValue.end()`: read a handle, end it, write the
        mutated handle back through the discarding setter. */
    method End()
      requires inner.owner.Valid()
      modifies inner.owner
      ensures inner.owner.Valid()
      ensures inner.owner.isRefreshing == After(old(inner.owner.isRefreshing), Event.End)
      ensures inner.owner.published == old(inner.owner.published) + Emitted(old(inner.owner.isRefreshing), Event.End)
    {
      var r := WrappedValue();
      r.End();
      SetWrappedValue(r);
    }
  }

  /** Invokes `action` with `binding`: its steps run in order. */
  method RunAction(action: Action, binding: HandleBinding)
    requires binding.inner.owner.Valid()
    modifies binding.inner.owner
    ensures binding.inner.owner.Valid()
    ensures binding.inner.owner.isRefreshing == (old(binding.inner.owner.isRefreshing) && !CallsEnd(action))
    ensures binding.inner.owner.published == old(binding.inner.owner.published) + EndWrites(action.steps)
  {
    var owner := binding.inner.owner;
    var i := 0;
    while i < |action.steps|
      invariant 0 <= i <= |action.steps|
      invariant owner.Valid()
      invariant owner.isRefreshing == (old(owner.isRefreshing) && EndRefresh !in action.steps[..i])
      invariant owner.published == old(owner.published) + EndWrites(action.steps[..i])
    {
      EndWritesPrefix(action.steps, i);
      RunStep(action.steps[i], binding);
      i := i + 1;
    }
    assert action.steps[..i] == action.steps;
  }

  /** One step of an action: `end()` writes `false`; replacing the handle
      writes nothing. */
  method RunStep(step: ActionStep, binding: HandleBinding)
    requires binding.inner.owner.Valid()
    modifies binding.inner.owner
    ensures binding.inner.owner.Valid()
    ensures binding.inner.owner.isRefreshing == (old(binding.inner.owner.isRefreshing) && step != EndRefresh)
    ensures binding.inner.owner.published == old(binding.inner.owner.published) + EndWrites([step])
  {
    assert [step][..0] == [];
    match step {
      case EndRefresh =>
        binding.End();
      case ReplaceHandle =>
        binding.SetWrappedValue(binding.WrappedValue());
    }
  }

  /** A caller's sequence of calls on one refresher: `Perform(a)` calls
      `perform(a)`, and `End` calls `end()` on `kept`, a handle of this
      refresher kept from an earlier perform. `ran` lists the actions that
      ran. The lemmas about `Run`, `Trace` and `Invoked` carry over to the
      refresher through this contract. */
  method RunCalls(r: Refresher, kept: HandleBinding, events: seq<Event>) returns (ran: seq<Action>)
    requires r.Valid() && kept.inner.owner == r
    modifies r
    ensures r.Valid()
    ensures r.isRefreshing == Run(old(r.isRefreshing), events)
    ensures r.published == old(r.published) + Trace(old(r.isRefreshing), events)
    ensures ran == Invoked(old(r.isRefreshing), events)
  {
    ghost var start, before := r.isRefreshing, r.published;
    ran := [];
    var rest := events;
    while rest != []
      invariant r.Valid()
      invariant Run(start, events) == Run(r.isRefreshing, rest)
      invariant before + Trace(start, events) == r.published + Trace(r.isRefreshing, rest)
      invariant Invoked(start, events) == ran + Invoked(r.isRefreshing, rest)
      decreases |rest|
    {
      ghost var now, published := r.isRefreshing, r.published;
      var ranNow := RunCall(r, kept, rest[0]);
      RunFirst(now, rest);
      TraceFirst(now, published, rest);
      InvokedFirst(now, ran, rest, ranNow);
      ran := ran + ranNow;
      rest := rest[1..];
    }
  }

  /** One call of such a sequence. */
  method RunCall(r: Refresher, kept: HandleBinding, e: Event) returns (ran: seq<Action>)
    requires r.Valid() && kept.inner.owner == r
    modifies r
    ensures r.Valid()
    ensures r.isRefreshing == After(old(r.isRefreshing), e)
    ensures r.published == old(r.published) + Emitted(old(r.isRefreshing), e)
    ensures ran == if e.Perform? && !old(r.isRefreshing) then [e.action] else []
  {
    match e {
      case Perform(a) =>
        var ok, handle := r.Perform(a);
        ran := if ok then [a] else [];
      case End =>
        kept.End();
        ran := [];
    }
  }
}
