# ember-test-waiters: the test waiter and its registry, in Dafny

This project models the `TestWaiter<T>` class of ember-test-waiters. A test
waiter records the asynchronous operations of one kind that are in flight, so
that a test harness can wait until all of them have settled:

- `beginAsync(item, label?)` registers the waiter with the waiter registry
  the first time it is called. It then records `item` as pending, with its
  debug information.
- `endAsync(item)` takes the item off again, or fails when the item is not
  pending.
- `waitUntil()` tells whether nothing is pending.
- `debugInfo()` lists the debug information of the pending items in the
  order they began.

The registry collects the waiters. It answers the harness's aggregate
questions: is anything pending anywhere (`hasPendingWaiters`), and what is
pending (`getPendingWaiterState`). The registry's own source file
(`addon/waiter-manager.ts`) is not part of this model. The registry is
modelled from the behaviour its unit tests assert, and nothing more.

Files:

- `wrappers.dfy`: `Option` (the optional label) and `Outcome` (the result of
  `endAsync`, which fails instead of throwing).
- `ordered_map.dfy`: the JavaScript `Map` that holds a waiter's items. It is
  a sequence of (item, debug info) pairs in insertion order, with distinct
  keys. `set` appends a new key and overwrites an existing key in place.
  `delete` removes exactly one entry and keeps the order of the rest. The
  lemmas here state what `set` and `delete` promise.
- `pending_state.dfy`: the debug-info record, and the registry's aggregate
  queries as pure functions over snapshots of the registered waiters.
- `test_waiter.dfy`: the classes `TestWaiter` and `Registry`. Their fields
  are updated in place by methods with `modifies` clauses. Both classes are
  in one module because each class uses the other.
- `waiter_manager_test.dfy`: the registry's unit tests, one method per test,
  each proving what that test observes. Also `BeginThenEnd`, the same
  begin/end round trip stated for any waiter and any idle registry.

## Model

| member | source | states |
|---|---|---|
| OrderedMap.Get | addon/test-waiter.ts:76 | the map has a value for a key exactly when the key is one of its keys, and the value is the one stored at the key's first entry |
| OrderedMap.Set | addon/test-waiter.ts:58-63 | a new key is appended at the end; an existing key keeps its position and only its value changes |
| OrderedMap.Delete | addon/test-waiter.ts:80 | an absent key leaves the map unchanged; a present key's entry is cut out and all other entries keep their relative order |
| OrderedMap.Values | addon/test-waiter.ts:103 | one value per entry, in insertion order |
| OrderedMap.NoKeysIffEmpty | addon/test-waiter.ts:92 | size 0 means that no key at all is in the map |
| OrderedMap.SetKeys | addon/test-waiter.ts:58-63 | after `set(k, v)` the keys are the old keys plus `k` |
| OrderedMap.SetGetSame | addon/test-waiter.ts:58-63 | after `set(k, v)`, `k` maps to `v` |
| OrderedMap.SetGetOther | addon/test-waiter.ts:58-63 | `set(k, v)` leaves the entry of every other key unchanged |
| OrderedMap.SetDistinct | addon/test-waiter.ts:58-63 | `set` keeps every key at most once |
| OrderedMap.SetSize | addon/test-waiter.ts:58-63 | the size stays the same when the key was present (overwrite) and grows by one when it was new |
| OrderedMap.SetOverwrites | addon/test-waiter.ts:58-63 | a second `set` of the same key wins over the first (last begin wins) |
| OrderedMap.DeleteKeys | addon/test-waiter.ts:80 | after `delete(k)` the keys are the old keys minus `k` |
| OrderedMap.DeleteGetSame | addon/test-waiter.ts:80 | after `delete(k)`, `k` has no value |
| OrderedMap.DeleteGetOther | addon/test-waiter.ts:80 | `delete(k)` leaves the entry of every other key unchanged |
| OrderedMap.DeleteDistinct | addon/test-waiter.ts:80 | `delete` keeps the keys distinct |
| OrderedMap.DeleteSize | addon/test-waiter.ts:80 | the size drops by one exactly when the key was present |
| OrderedMap.SetThenDelete | addon/test-waiter.ts:53-81 | setting a new key and then deleting it gives back the map from before |
| PendingState.PendingCount | tests/unit/waiter-manager-test.ts:64-106 | the total is 0 exactly when no waiter has a pending item, and it is at least any one waiter's count |
| PendingState.AnyPending | tests/unit/waiter-manager-test.ts:115-127 | true exactly when some waiter has a pending item, and exactly when the total count is positive |
| PendingState.PendingOnly | tests/unit/waiter-manager-test.ts:65-106 | keeps exactly the waiters with a pending item, drops none of the pending count, and is no longer than its input |
| PendingState.Aggregate | tests/unit/waiter-manager-test.ts:64-106 | the pending count is 0 exactly when nothing is pending, and exactly when the listed waiters are an empty list; the listed waiters are exactly the pending ones |
| PendingState.PendingCountAppend | tests/unit/waiter-manager-test.ts:87-106 | the count of a concatenation is the sum of the two counts |
| PendingState.PendingCountUpdate | tests/unit/waiter-manager-test.ts:87-106 | changing one waiter changes the total by that waiter's own change only; the other waiters' contributions stay as they were |
| PendingState.OnlyOnePending | tests/unit/waiter-manager-test.ts:67-80 | when only one waiter may have pending items, the count is that waiter's count and the listed waiters are just that waiter, or nothing |
| TestWaiters.Without | tests/unit/waiter-manager-test.ts:36-39 | removes the waiter and keeps every other one; a waiter that is absent leaves the list unchanged; distinctness is kept; a distinct list shrinks by one |
| TestWaiters.TestWaiter.constructor | addon/test-waiter.ts:11-23 | a new waiter keeps its name, is not registered and has no items |
| TestWaiters.TestWaiter.Register | addon/test-waiter.ts:36-41 | calls the registry's register only while the flag is false, then sets the flag; the items do not change |
| TestWaiters.TestWaiter.BeginAsync | addon/test-waiter.ts:53-64 | registers at most once; afterwards the item maps to the given label and stack, the size grows only for a new item, the waiter is not idle, and the new items equal `Set` on the old ones |
| TestWaiters.TestWaiter.EndAsync | addon/test-waiter.ts:75-81 | fails exactly when the item is not pending, and then changes nothing; otherwise the items equal `Delete` on the old ones, the item is gone and the size drops by one |
| TestWaiters.TestWaiter.WaitUntil | addon/test-waiter.ts:91-93 | true exactly when no entry is left, and exactly when the debug info is empty |
| TestWaiters.TestWaiter.WaitUntilIffNothingPending | addon/test-waiter.ts:91-93 | `waitUntil` holds exactly when no item at all is pending |
| TestWaiters.TestWaiter.DebugInfo | addon/test-waiter.ts:102-104 | one entry per pending item, holding that item's debug info, in insertion order |
| TestWaiters.Registry.constructor | tests/unit/waiter-manager-test.ts:42-45 | a new registry holds no waiters |
| TestWaiters.Registry.Register | tests/unit/waiter-manager-test.ts:19-26 | appends the waiter unless it is already registered; no waiter ever appears twice |
| TestWaiters.Registry.Unregister | tests/unit/waiter-manager-test.ts:28-40 | removes the waiter if present and clears its flag; otherwise it does nothing |
| TestWaiters.Registry.GetWaiters | tests/unit/waiter-manager-test.ts:42-54 | the registered waiters in registration order, each at most once |
| TestWaiters.Registry.HasPendingWaiters | tests/unit/waiter-manager-test.ts:109-128 | true exactly when some registered waiter is not idle |
| TestWaiters.Registry.GetPendingWaiterState | tests/unit/waiter-manager-test.ts:56-107 | pending is 0 exactly when `HasPendingWaiters` is false, and exactly when no waiter is listed; it lists only waiters with pending items, and every waiter with pending items |
| TestWaiters.Registry.Reset | tests/unit/waiter-manager-test.ts:14-17 | afterwards no waiter is registered, the removed waiters' flags are cleared, their items are untouched, and nothing is pending |
| WaiterManagerTests.BeginOnIdle | addon/test-waiter.ts:53-64 | beginning an item while nothing is pending registers the waiter; the registry then reports that one item under the waiter's name |
| WaiterManagerTests.ObserveOnlyPending | tests/unit/waiter-manager-test.ts:67-80 | while one item is the only pending one, `hasPendingWaiters` is true and the state is exactly `{pending: 1, that waiter: [its info]}` |
| WaiterManagerTests.EndOnlyPending | addon/test-waiter.ts:75-81 | ending the only pending item succeeds, and the registry then reports nothing pending |
| WaiterManagerTests.BeginThenEnd | tests/unit/waiter-manager-test.ts:64-85 | for any waiter and any idle registry, begin then end of an item returns the waiter's items to empty; pending goes 0 → 1 → 0 and `hasPendingWaiters` goes false → true → false |
| WaiterManagerTests.RegisterAddsWaiter | tests/unit/waiter-manager-test.ts:19-26 | after registering "first", the names of the registered waiters are `["first"]` |
| WaiterManagerTests.UnregisterRemovesWaiter | tests/unit/waiter-manager-test.ts:28-40 | the names go from `["first"]` to `[]`; a second unregister also leaves `[]` and does not fail |
| WaiterManagerTests.GetWaitersCounts | tests/unit/waiter-manager-test.ts:42-54 | the number of registered waiters goes 0, 1, 1 (registering twice counts once), 0 |
| WaiterManagerTests.PendingStateFollowsItems | tests/unit/waiter-manager-test.ts:56-107 | the sequence of reported states is exactly empty, first's one unlabelled item, empty, second's one unlabelled item, empty |
| WaiterManagerTests.HasPendingFollowsItems | tests/unit/waiter-manager-test.ts:109-128 | `hasPendingWaiters` reads false, true, false, true, false |
| WaiterManagerTests.RepeatedBeginRegistersOnce | addon/test-waiter.ts:36-63 | two begins of one item register the waiter once and keep one entry, which carries the second label |
| WaiterManagerTests.UnmatchedEndFails | addon/test-waiter.ts:75-78 | ending an item that never began fails with that item, and nothing is left pending |
| WaiterManagerTests.ResetIsolates | tests/unit/waiter-manager-test.ts:14-17 | after a reset no waiter is registered and nothing is pending; the next begin registers the waiter again |

## Modelling decisions

- The registry is one object that is passed to `BeginAsync`. In the source
  it is module-level state of `./waiter-manager`, reached through the
  imported `register` (addon/test-waiter.ts:2, 38).
- The source hides the stack behind a lazy getter over `new Error()`
  (addon/test-waiter.ts:56-61). Here `stack` is a string parameter of
  `BeginAsync`, supplied by the host. The scenarios pass `"STACK"`, the
  value the tests fix with a stable error.
- `label` is a Dafny keyword, so the field is called `itemLabel`.
- Items in the scenarios are integers. The tests use fresh empty objects,
  and only their distinctness matters.
- `pending` in `getPendingWaiterState` counts pending items over all
  waiters. The tests only ever have one item pending, so they would also
  accept a count of pending waiters; the item count is the documented
  meaning.
- `Unregister` and `Reset` clear the flag of each waiter they remove, so
  that the waiter's next `beginAsync` registers it again. The code of
  `addon/test-waiter.ts` only ever sets the flag. Clearing it on removal is
  the registry's side of the contract, as documented for this system.

## Left out

- Lazy stack capture (addon/test-waiter.ts:56-61): the stack is an input
  string, because JavaScript error stacks are host runtime behaviour.
- The text of the unmatched-end error (addon/test-waiter.ts:77): the failure
  carries the offending item and no message.
- The internals of `addon/waiter-manager.ts`, which is not part of this
  model: the registry is modelled from its tests only.
- TestWaiters.Registry.GetPendingWaiterState: the source returns an object
  keyed by waiter name. Here the result is a list of (name, debug info)
  rows in registration order. The policy for two waiters with the same
  name is left out.
- One registry holds waiters of one item type `T`. Waiters with different
  item types in one registry would need traits, which this model does not
  use.
- Reference identity of object keys in a JavaScript `Map`: Dafny equality
  on `T` stands for it.
- `name` is a public, assignable field in the source. Nothing in the core
  assigns it, so here it is a constant.
- The QUnit harness, its hooks and the stable-error mock
  (tests/unit/waiter-manager-test.ts:1-17, 62).
- TestWaiters.TestWaiter.BeginAsync and TestWaiters.TestWaiter.EndAsync do
  not restate, in their own postconditions, that other items keep their
  entries. Each method ties the new items to `OrderedMap.Set` or
  `OrderedMap.Delete`, and `OrderedMap.SetGetOther` and
  `OrderedMap.DeleteGetOther` prove that fact for all inputs.
- Concurrency: every operation is modelled as one atomic step of a single
  thread.
