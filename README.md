# Refreshable — a verified model of the pull-to-refresh core

The library lets an ancestor view attach a refresh action and lets a
descendant run it. This model covers three parts of the library:

- **`Refresher`**: the coordinator. It holds one `isRefreshing` flag. Its
  `perform(action)` refuses to start while a refresh is in progress.
  Otherwise it raises the flag, builds a handle that aliases the flag,
  writes the handle's live value back once (the synchronous Combine sink),
  and invokes the action with the handle.
- **`Refresh`**: the handle. It is a value wrapping a read/write binding to
  the refresher's flag. `isRefreshing` reads the live flag and `end()`
  writes `false` through the binding. The action receives an outer binding
  whose getter builds a fresh `Refresh` and whose setter discards what it
  is given, so `end()` only takes effect through the inner binding.
- **Phase selection**: `RefreshableView.body` picks `idle(refresher,
  action)`, `refreshing` or `notSupported` from the optional environment
  action and the refresher's flag.

Files and modules:

- `wrappers.dfy` (`Wrappers`): `Option`, standing for Swift optionals.
- `refresh_machine.dfy` (`RefreshMachine`): the two-state machine on
  values. It is the reference definition, and the lemmas over sequences of
  `perform` and `end()` calls are proved about it.
  - An action is a datatype: an identity and the list of steps it takes
    with its handle before it returns. A step either ends the refresh or
    writes a new handle through the discarding setter.
  - `Emitted` gives every value an event assigns to the published flag.
    `Changes` keeps only the emissions an observer sees as a change of state.
- `refreshable.dfy` (`Refreshable`): the classes. `Refresher` has a field
  `isRefreshing` and a history `published` of the values its publisher emits, one per assignment.
  `FlagBinding` is the `Binding<Bool>` over the refresher's flag. `Refresh`
  is the handle. `HandleBinding` is the `Binding<Refresh>` passed to the
  action. `RunAction` runs an action's steps against the handle, one
  `RunStep` at a time. `Refresher.Valid()` is the class invariant: the flag
  equals the last value published, or `false` before any. Every mutating
  method requires and keeps it. The contracts of `Perform`, both `End`
  methods, `RunAction` and `RunStep` state the new flag and history through
  `RefreshMachine`'s functions. `RunCalls` runs a whole sequence of calls on a
  refresher, one `RunCall` at a time. Its contract carries the lemmas about
  call sequences over to the class.
- `refreshable_view.dfy` (`RefreshableView`): `RefreshPhase` and `Phase`.
- `scenarios.dfy` (`RefreshScenarios`): client methods checked against the
  class contracts alone. They cover a kept handle, a rejected second
  perform, a live read, a handle kept across two refreshes, the
  end-immediately round trip, any number of rejected performs during a
  kept-handle refresh, the guard resetting after arbitrary calls and a
  view's phase cycle.

Two behaviours of the code are easy to miss:

- The doc comment of `end()` (Sources/Refreshable/Refreshable.swift:25)
  calls it a no-op when the refresher is idle. The flag does stay `false`,
  but line 27 still assigns it, and `@Published` emits every assignment.
- Handles are not retired when their refresh ends. A handle kept from an
  earlier refresh still aliases the refresher's flag, so calling its
  `end()` ends whatever refresh is running at that moment
  (`StaleHandleScenario`).

`Phase` is a function that only `reads` the refresher, so computing the
phase cannot change it.

## Model

| member | source | states |
|---|---|---|
| `Refreshable.Refresher.constructor` | Sources/Refreshable/RefreshObserver.swift:10-13 | a new refresher is not refreshing and has published nothing |
| `Refreshable.Refresher.Assign` | Sources/Refreshable/RefreshObserver.swift:10 | the private setter: sets the flag and publishes that assignment, even when the value is unchanged |
| `Refreshable.Refresher.Perform` | Sources/Refreshable/RefreshObserver.swift:17-29 | the action runs exactly when the refresher was idle; otherwise the flag and the history stay as they were and no handle is made. On a run, the handle is a fresh binding over this refresher's own flag, and the new flag and the published values follow `RefreshMachine.After` and `RefreshMachine.Emitted` |
| `Refreshable.Refresher.SinkWriteBack` | Sources/Refreshable/RefreshObserver.swift:24-26 | writing back the handle's live value keeps the flag unchanged and publishes it once more |
| `Refreshable.FlagBinding.constructor` | Sources/Refreshable/RefreshObserver.swift:21 | the binding is bound to the refresher that built it |
| `Refreshable.FlagBinding.Set` | Sources/Refreshable/RefreshObserver.swift:21 | a write through the binding sets the owner's flag and is published by it |
| `Refreshable.FlagBinding.Get` | Sources/Refreshable/RefreshObserver.swift:21 | the getter closure reads the owner's flag, which for a valid owner is the last value published |
| `Refreshable.Refresh.IsRefreshing` | Sources/Refreshable/Refreshable.swift:19-21 | the handle reads the owner's current flag through its binding; for a valid owner that is the last value published |
| `Refreshable.Refresh.End` | Sources/Refreshable/Refreshable.swift:23-28 | keeps the owner valid and changes only the owner. Its new flag and publications are those `RefreshMachine` gives the `End` event: the flag is `false` and one `false` is published, also when already idle |
| `Refreshable.HandleBinding.WrappedValue` | Sources/Refreshable/RefreshObserver.swift:22 | each read builds a new `Refresh` over the same inner flag binding |
| `Refreshable.HandleBinding.SetWrappedValue` | Sources/Refreshable/RefreshObserver.swift:22 | the setter discards its argument; with no `modifies` clause it changes nothing |
| `Refreshable.HandleBinding.End` | Sources/Refreshable/Refreshable.swift:13-14 | `refresh.wrappedValue.end()` has the effect `RefreshMachine` gives the `End` event. It acts through the inner binding only: the mutated handle is then written to the outer setter at RefreshObserver.swift:22, which discards it |
| `Refreshable.RunAction` | Sources/Refreshable/RefreshObserver.swift:28 | after the action returns, the flag is cleared exactly when the action ended the refresh, and the action has published exactly `EndWrites` of its steps: one `false` per `end()` |
| `Refreshable.RunStep` | Sources/Refreshable/RefreshObserver.swift:22 | one step of an action: `end()` clears the flag and publishes `false`; a write to the outer binding changes neither |
| `RefreshMachine.EndWrites` | Sources/Refreshable/Refreshable.swift:26-28 | every value an action writes through `end()` is `false`, and it writes at least one exactly when it calls `end()` |
| `RefreshMachine.EndWritesCountsEnds` | Sources/Refreshable/Refreshable.swift:26-28 | an action writes through its handle exactly once per `end()` it calls |
| `RefreshMachine.Emitted` | Sources/Refreshable/RefreshObserver.swift:17-29 | `end()` publishes one `false`. A perform publishes nothing exactly when a refresh is in progress. Otherwise it publishes `true` twice, then one `false` per `end()` the action calls (Refreshable.swift:27) |
| `RefreshMachine.After` | Sources/Refreshable/RefreshObserver.swift:17-29 | the state after one call is the last value it published, or the old state if it published nothing |
| `RefreshMachine.PerformWhileRefreshingIsRejected` | Sources/Refreshable/RefreshObserver.swift:18 | a perform while refreshing invokes nothing, publishes nothing and leaves the flag `true` |
| `RefreshMachine.PerformWhileIdleRaisesFirst` | Sources/Refreshable/RefreshObserver.swift:19-28 | a perform while idle invokes its action; `true` is published twice, by the assignment and by the sink, before any write of the action |
| `RefreshMachine.RunIsLastOfTrace` | Sources/Refreshable/RefreshObserver.swift:10 | over any sequence of calls, the flag is the last value published |
| `RefreshMachine.RunAppend` | Sources/Refreshable/RefreshObserver.swift:17-29 | running two call sequences one after the other is the same as running their concatenation |
| `RefreshMachine.InvokedAppend` | Sources/Refreshable/RefreshObserver.swift:18-28 | the actions invoked by a concatenation are those of the first part followed by those of the second part, run from the intermediate state |
| `RefreshMachine.GuardResetsAfterEnd` | Sources/Refreshable/RefreshObserver.swift:18-19 | after any history ending in `end()`, the flag is `false` and the next perform invokes its action |
| `RefreshMachine.StaysRejectedWithoutEnd` | Sources/Refreshable/RefreshObserver.swift:18 | while refreshing, any number of performs without an `end()` invoke nothing, publish nothing and leave the flag `true` |
| `RefreshMachine.AtMostOneInFlight` | Sources/Refreshable/RefreshObserver.swift:18-19 | performs whose actions keep the handle, with no `end()` between them, invoke at most the first action, and none if already refreshing |
| `RefreshMachine.EndIsIdempotent` | Sources/Refreshable/Refreshable.swift:23-28 | any positive number of `end()` calls leaves the flag `false`, like one call, and an observer sees the same states |
| `RefreshMachine.EndTrace` | Sources/Refreshable/Refreshable.swift:26-28 | `n` calls of `end()` publish exactly `n` times `false` |
| `RefreshMachine.ChangesOfConstant` | Sources/Refreshable/RefreshObserver.swift:10 | republishing one value over and over changes the observed state at most once |
| `RefreshMachine.ChangesAlternate` | Sources/Refreshable/RefreshObserver.swift:10 | the observed transitions start from a change of the initial state, and no two neighbouring ones are equal |
| `RefreshMachine.ChangesEndAtLast` | Sources/Refreshable/RefreshObserver.swift:10 | the last observed state is the last value published, or the starting state if nothing was published |
| `RefreshMachine.ObservedIsTransitions` | Sources/Refreshable/RefreshObserver.swift:10 | over any sequence of calls, observers see the initial state first, a real change at every step and the refresher's current state last |
| `RefreshMachine.RoundTripEndImmediately` | Sources/Refreshable/RefreshObserver.swift:19-28 | an action that ends before it returns is observed as `false -> true -> false` with no other transition, although `true` is published twice |
| `RefreshMachine.KeepHandleThenEnd` | Sources/Refreshable/RefreshObserver.swift:21-28 | an action that keeps its handle leaves the refresher refreshing; a later `end()` on the kept handle completes the `false -> true -> false` trip |
| `Refreshable.RunCalls` | Sources/Refreshable/RefreshObserver.swift:17-29 | a caller's sequence of `perform` calls and `end()` calls on a kept handle keeps the refresher valid. It leaves the flag, the publications and the list of actions that ran exactly as `Run`, `Trace` and `Invoked` give them |
| `Refreshable.RunCall` | Sources/Refreshable/RefreshObserver.swift:17-29 | one such call: a perform or an `end()` on the kept handle, with the effect `After` and `Emitted` give it; the action runs exactly when a perform finds the refresher idle |
| `RefreshableView.Phase` | Sources/Refreshable/RefreshableView.swift:29-42 | `notSupported` exactly when there is no action; `refreshing` exactly when there is one and the refresher is refreshing; `idle` exactly when there is one and the refresher is idle, and then it carries this refresher and the same action |
| `RefreshableView.NoAttachedActionIsNotSupported` | Sources/Refreshable/Refreshable.swift:36-38 | the default environment value is `nil`, and with it the phase is `notSupported` whatever the refresher's state |
| `RefreshableView.PerformFromIdle` | Sources/Refreshable/RefreshableView.swift:11-16 | performing the action of a current idle phase on its refresher runs it. The refresher stays valid, so it can be used again, and its new flag and publications are those of a perform from idle |
| `RefreshScenarios.StoredHandleScenario` | Sources/Refreshable/RefreshObserver.swift:18-28 | after a kept-handle perform the refresher is refreshing; ending the kept handle clears it; a new perform then runs |
| `RefreshScenarios.RejectedWhileRefreshingScenario` | Sources/Refreshable/RefreshObserver.swift:18 | a second perform during a refresh does not run, and the refresher stays refreshing |
| `RefreshScenarios.LiveHandleScenario` | Sources/Refreshable/Refreshable.swift:19-21 | a handle read before the refresh ends reports the end afterwards |
| `RefreshScenarios.StaleHandleScenario` | Sources/Refreshable/RefreshObserver.swift:21-22 | a handle kept from an ended refresh ends the refresh that is running now |
| `RefreshScenarios.EndImmediatelyScenario` | Sources/Refreshable/RefreshObserver.swift:17-29 | an action that ends immediately runs and leaves the refresher idle; the observed states are `false, true, false` |
| `RefreshScenarios.PerformsRejectedWhileInFlight` | Sources/Refreshable/RefreshObserver.swift:18 | on a refresher, any number of performs during a kept-handle refresh run no action, and the refresher stays refreshing |
| `RefreshScenarios.GuardResetsOnRefresher` | Sources/Refreshable/RefreshObserver.swift:18-19 | on a refresher, whatever calls follow a kept-handle perform, ending the kept handle lets the next perform run its action |
| `RefreshScenarios.PhaseCycleScenario` | Sources/Refreshable/RefreshableView.swift:29-42 | a view with an action goes idle -> refreshing -> idle, carrying the same refresher and action |

## Left out

- Access control: Dafny here has no export sets, so `private(set)` on `isRefreshing` (Sources/Refreshable/RefreshObserver.swift:10) and the `internal init` of `Refresh` (Sources/Refreshable/Refreshable.swift:30) are not enforced. A client could assign the fields directly. The model's own members change the flag only through `Assign`, from `Perform`, the sink and the handle's binding, and they all keep `Refresher.Valid()`.
- View-tree propagation of the action (`onRefresh`, `environment(\.refreshAction, …)`, the `EnvironmentValues` accessor): it is the UI framework's tree-scoped lookup. The action a view reads is an `Option<Action>` input to `Phase`, and only the default value `nil` is modelled.
- Combine's `Just`, `sink`, the stored `AnyCancellable` and `[weak self]`: only their net effect is modelled, one synchronous write-back of the handle's live value. The refresher is always alive when the sink fires.
- `@Published` / `@ObservedObject` re-rendering and building views with `content(...)`: the published values are recorded as a history field, and a phase is a value rather than rendered output.
- Actions are closures in the source. Here an action is a list of steps, each of them either `end()` or a write to the discarding handle setter. Other code an action may run, including an action that calls `perform` again on the same refresher, is not modelled. An `end()` made later, after the action returned, is modelled as a call to `End` on the kept handle.
- Asynchronous and multi-threaded completion: the source has no concurrency logic of its own and relies on a single UI update context.
- The preview code in `RefreshableView.swift` (demo UI) and `Package.swift` (build metadata).
