/** The registry's behaviour as its unit tests exercise it: each method runs
    one test's sequence of calls on a fresh registry and fresh waiters, and
    its postcondition is what that test observes. Items are integers here,
    where the tests use fresh empty objects; the stack string "STACK" stands
    for the one the tests fix with a stable error. */
module WaiterManagerTests {
  import opened Wrappers
  import opened PendingState
  import opened TestWaiters
  import OrderedMap

  /** The names of some waiters, in order. */
  function Names<T>(ws: seq<TestWaiter<T>>): (r: seq<string>)
    ensures |r| == |ws| && forall i :: 0 <= i < |ws| ==> r[i] == ws[i].name
  {
    if ws == [] then [] else [ws[0].name] + Names(ws[1..])
  }

  /** The state reported when nothing is pending. */
  const Idle := PendingWaiterState(0, [])

  /** The state reported when only the waiter `name` has one pending item,
      begun without a label. */
  function OneUnlabelled(name: string): PendingWaiterState {
    PendingWaiterState(1, [WaiterSnapshot(name, [ItemDebugInfo(None, "STACK")])])
  }

  /** Nothing is pending in any registered waiter. */
  ghost predicate AllIdle<T>(registry: Registry<T>)
    reads registry, registry.waiters
  {
    forall i :: 0 <= i < |registry.waiters| ==> registry.waiters[i].items == []
  }

  /** Nothing is pending in any registered waiter other than `w`. */
  ghost predicate OthersIdle<T>(registry: Registry<T>, w: TestWaiter<T>)
    reads registry, registry.waiters
  {
    forall i :: 0 <= i < |registry.waiters| && registry.waiters[i] != w ==> registry.waiters[i].items == []
  }

  /** `w` begins an item while nothing is pending: `w` is registered and the
      registry reports exactly that item, pending under `w`'s name. */
  method BeginOnIdle<T(==)>(registry: Registry<T>, w: TestWaiter<T>, item: T, itemLabel: Option<string>, stack: string)
    returns (hasDuring: bool, during: PendingWaiterState)
    requires registry.Valid() && w.Valid() && w.RegisteredWith(registry)
    requires w.items == [] && AllIdle(registry)
    modifies registry, w
    ensures registry.Valid() && w.Valid() && w.isRegistered && w in registry.waiters
    ensures registry.waiters == if w in old(registry.waiters) then old(registry.waiters) else old(registry.waiters) + [w]
    ensures w.items == [(item, ItemDebugInfo(itemLabel, stack))] && OthersIdle(registry, w)
    ensures hasDuring && during == PendingWaiterState(1, [WaiterSnapshot(w.name, [ItemDebugInfo(itemLabel, stack)])])
  {
    var info := ItemDebugInfo(itemLabel, stack);
    w.BeginAsync(item, itemLabel, stack, registry);
    assert w.items == [(item, info)];
    assert OthersIdle(registry, w) by {
      forall i | 0 <= i < |registry.waiters| && registry.waiters[i] != w
        ensures registry.waiters[i].items == []
      {
        assert registry.waiters[i] in old(registry.waiters);
      }
    }
    hasDuring, during := ObserveOnlyPending(registry, w, item, info);
  }

  /** While `w`'s one item is the only thing pending, the registry reports
      exactly that item, pending under `w`'s name. */
  method ObserveOnlyPending<T(==)>(registry: Registry<T>, w: TestWaiter<T>, item: T, info: ItemDebugInfo)
    returns (hasDuring: bool, during: PendingWaiterState)
    requires registry.Valid() && w in registry.waiters
    requires w.items == [(item, info)] && OthersIdle(registry, w)
    ensures hasDuring && during == PendingWaiterState(1, [WaiterSnapshot(w.name, [info])])
  {
    ghost var k :| 0 <= k < |registry.waiters| && registry.waiters[k] == w;
    ghost var ss := registry.Snapshots();
    assert ss[k] == WaiterSnapshot(w.name, [info]);
    assert !registry.waiters[k].WaitUntil();
    assert forall i :: 0 <= i < |ss| && i != k ==> ss[i].debugInfo == [];
    OnlyOnePending(ss, k);
    hasDuring := registry.HasPendingWaiters();
    during := registry.GetPendingWaiterState();
  }

  /** `w` ends its one pending item while nothing else is pending: the end
      succeeds and the registry reports nothing pending again. */
  method EndOnlyPending<T(==)>(registry: Registry<T>, w: TestWaiter<T>, item: T, info: ItemDebugInfo)
    returns (r: Outcome<EndAsyncError<T>>, hasAfter: bool, after: PendingWaiterState)
    requires registry.Valid() && w.Valid() && w in registry.waiters
    requires w.items == [(item, info)] && OthersIdle(registry, w)
    modifies w
    ensures w.Valid() && w.isRegistered == old(w.isRegistered)
    ensures w.items == [] && AllIdle(registry)
    ensures r == Pass && !hasAfter && after == PendingWaiterState(0, [])
  {
    assert OrderedMap.HasKey(w.items, item) by { assert w.items[0].0 == item; }
    r := w.EndAsync(item);
    assert w.items == [];
    hasAfter := registry.HasPendingWaiters();
    after := registry.GetPendingWaiterState();
  }

  /** One waiter begins and ends an item while nothing else is pending. The
      waiter ends up registered and its items back as they were; while the
      item is open the registry reports exactly that item, pending under the
      waiter's name, and afterwards it reports nothing pending again. */
  method BeginThenEnd<T(==)>(registry: Registry<T>, w: TestWaiter<T>, item: T, itemLabel: Option<string>, stack: string)
    returns (hasDuring: bool, during: PendingWaiterState, r: Outcome<EndAsyncError<T>>, hasAfter: bool, after: PendingWaiterState)
    requires registry.Valid() && w.Valid() && w.RegisteredWith(registry)
    requires w.items == [] && AllIdle(registry)
    modifies registry, w
    ensures registry.Valid() && w.Valid() && w.RegisteredWith(registry)
    ensures registry.waiters == if w in old(registry.waiters) then old(registry.waiters) else old(registry.waiters) + [w]
    ensures w.items == [] && AllIdle(registry)
    ensures hasDuring && during == PendingWaiterState(1, [WaiterSnapshot(w.name, [ItemDebugInfo(itemLabel, stack)])])
    ensures r == Pass
    ensures !hasAfter && after == PendingWaiterState(0, [])
  {
    hasDuring, during := BeginOnIdle(registry, w, item, itemLabel, stack);
    r, hasAfter, after := EndOnlyPending(registry, w, item, ItemDebugInfo(itemLabel, stack));
  }

  /** Registering a waiter makes it the one registered waiter. */
  method RegisterAddsWaiter() returns (names: seq<string>)
    ensures names == ["first"]
  {
    var registry := new Registry<int>();
    var waiter := new TestWaiter<int>("first");
    registry.Register(waiter);
    names := Names(registry.GetWaiters());
  }

  /** Unregistering the one registered waiter leaves none; unregistering it
      again changes nothing and does not fail. */
  method UnregisterRemovesWaiter() returns (before: seq<string>, after: seq<string>, again: seq<string>)
    ensures before == ["first"] && after == [] && again == []
  {
    var registry := new Registry<int>();
    var waiter := new TestWaiter<int>("first");
    registry.Register(waiter);
    before := Names(registry.GetWaiters());
    registry.Unregister(waiter);
    after := Names(registry.GetWaiters());
    registry.Unregister(waiter);
    again := Names(registry.GetWaiters());
  }

  /** The number of registered waiters goes 0, 1, 0 over register and
      unregister; registering the same waiter twice counts it once. */
  method GetWaitersCounts() returns (counts: seq<nat>)
    ensures counts == [0, 1, 1, 0]
  {
    var registry := new Registry<int>();
    var waiter := new TestWaiter<int>("first");
    counts := [|registry.GetWaiters()|];
    registry.Register(waiter);
    counts := counts + [|registry.GetWaiters()|];
    registry.Register(waiter);
    counts := counts + [|registry.GetWaiters()|];
    registry.Unregister(waiter);
    counts := counts + [|registry.GetWaiters()|];
  }

  /** The pending state goes from empty to one unlabelled item of "first",
      back to empty, to one unlabelled item of "second", and back to empty. */
  method PendingStateFollowsItems() returns (states: seq<PendingWaiterState>)
    ensures states == [Idle, OneUnlabelled("first"), Idle, OneUnlabelled("second"), Idle]
  {
    var registry := new Registry<int>();
    var first := new TestWaiter<int>("first");
    var second := new TestWaiter<int>("second");
    var s0 := registry.GetPendingWaiterState();
    var _, s1, _, _, s2 := BeginThenEnd(registry, first, 1, None, "STACK");
    var _, s3, _, _, s4 := BeginThenEnd(registry, second, 2, None, "STACK");
    states := [s0, s1, s2, s3, s4];
  }

  /** `HasPendingWaiters` goes false, true, false, true, false as first one
      waiter and then the other begins and ends an item. */
  method HasPendingFollowsItems() returns (observed: seq<bool>)
    ensures observed == [false, true, false, true, false]
  {
    var registry := new Registry<int>();
    var first := new TestWaiter<int>("first");
    var second := new TestWaiter<int>("second");
    var h0 := registry.HasPendingWaiters();
    var h1, _, _, h2, _ := BeginThenEnd(registry, first, 1, None, "STACK");
    var h3, _, _, h4, _ := BeginThenEnd(registry, second, 2, None, "STACK");
    observed := [h0, h1, h2, h3, h4];
  }

  /** Two begins of one item on one waiter register the waiter once and keep
      one entry, with the label of the second begin. */
  method RepeatedBeginRegistersOnce() returns (registered: nat, entries: nat, labels: seq<Option<string>>)
    ensures registered == 1 && entries == 1
    ensures labels == [Some("again")]
  {
    var registry := new Registry<int>();
    var waiter := new TestWaiter<int>("first");
    waiter.BeginAsync(1, Some("once"), "STACK", registry);
    waiter.BeginAsync(1, Some("again"), "STACK", registry);
    registered := |registry.GetWaiters()|;
    var infos := waiter.DebugInfo();
    entries := |infos|;
    labels := [infos[0].itemLabel];
  }

  /** Ending an item that never began fails and leaves nothing pending. */
  method UnmatchedEndFails() returns (r: Outcome<EndAsyncError<int>>, pending: nat)
    ensures r == Fail(UnmatchedEnd(7)) && pending == 0
  {
    var registry := new Registry<int>();
    var waiter := new TestWaiter<int>("first");
    waiter.BeginAsync(1, None, "STACK", registry);
    var ok := waiter.EndAsync(1);
    r := waiter.EndAsync(7);
    pending := registry.GetPendingWaiterState().pending;
  }

  /** After a reset no waiter is registered and nothing is pending, even
      with an item left open; the waiter registers again on its next begin. */
  method ResetIsolates() returns (afterReset: nat, pendingAfterReset: bool, afterBegin: nat)
    ensures afterReset == 0 && !pendingAfterReset && afterBegin == 1
  {
    var registry := new Registry<int>();
    var waiter := new TestWaiter<int>("first");
    waiter.BeginAsync(1, None, "STACK", registry);
    registry.Reset();
    afterReset := |registry.GetWaiters()|;
    pendingAfterReset := registry.HasPendingWaiters();
    waiter.BeginAsync(2, None, "STACK", registry);
    afterBegin := |registry.GetWaiters()|;
  }
}
