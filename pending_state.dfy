/** The debug information a waiter keeps per pending item, and the
    aggregate pending state the registry reports over all its waiters.

    The registry's aggregate queries are defined here on snapshots: one
    `WaiterSnapshot` per registered waiter, in registration order, holding
    the waiter's name and the debug information of its pending items. */
module PendingState {
  import opened Wrappers

  /** What a waiter records for one pending item: the optional label (`label` in the source, a keyword here) given
      to `beginAsync`, and the call stack captured when it was called. */
  datatype ItemDebugInfo = ItemDebugInfo(itemLabel: Option<string>, stack: string)

  /** One registered waiter as the aggregate queries see it. */
  datatype WaiterSnapshot = WaiterSnapshot(name: string, debugInfo: seq<ItemDebugInfo>)

  /** The result of `getPendingWaiterState`: the number of pending items over
      all waiters, and the waiters that have any, with their debug
      information, in registration order. */
  datatype PendingWaiterState = PendingWaiterState(pending: nat, waiters: seq<WaiterSnapshot>)

  /** The total number of pending items over all waiters. */
  function PendingCount(ws: seq<WaiterSnapshot>): (n: nat)
    ensures n == 0 <==> forall i :: 0 <= i < |ws| ==> ws[i].debugInfo == []
    ensures forall i :: 0 <= i < |ws| ==> |ws[i].debugInfo| <= n
  {
    if ws == [] then 0 else |ws[0].debugInfo| + PendingCount(ws[1..])
  }

  /** Whether any waiter has a pending item. */
  function AnyPending(ws: seq<WaiterSnapshot>): (b: bool)
    ensures b <==> exists i :: 0 <= i < |ws| && ws[i].debugInfo != []
    ensures b <==> PendingCount(ws) > 0
  {
    if ws == [] then false
    else
      assert forall i :: 0 < i < |ws| ==> ws[i] == ws[1..][i - 1];
      ws[0].debugInfo != [] || AnyPending(ws[1..])
  }

  /** The waiters that have a pending item, in registration order. */
  function PendingOnly(ws: seq<WaiterSnapshot>): (r: seq<WaiterSnapshot>)
    ensures forall w :: w in r <==> w in ws && w.debugInfo != []
    ensures |r| <= |ws|
    ensures PendingCount(r) == PendingCount(ws)
  {
    if ws == [] then []
    else if ws[0].debugInfo == [] then PendingOnly(ws[1..])
    else [ws[0]] + PendingOnly(ws[1..])
  }

  /** `getPendingWaiterState` over the snapshots of the registered waiters. */
  function Aggregate(ws: seq<WaiterSnapshot>): (st: PendingWaiterState)
    ensures st.pending == 0 <==> !AnyPending(ws)
    ensures st.pending == 0 <==> st.waiters == []
    ensures forall w :: w in st.waiters <==> w in ws && w.debugInfo != []
  {
    PendingWaiterState(PendingCount(ws), PendingOnly(ws))
  }

  /** The pending count of a list of waiters is the sum of its parts. */
  lemma {:induction false} PendingCountAppend(a: seq<WaiterSnapshot>, b: seq<WaiterSnapshot>)
    ensures PendingCount(a + b) == PendingCount(a) + PendingCount(b)
  {
    if a != [] {
      PendingCountAppend(a[1..], b);
      assert (a + b)[1..] == a[1..] + b;
    } else {
      assert a + b == b;
    }
  }

  /** Replacing one waiter's snapshot changes the pending count by the change
      in that waiter's own count and no more: what one waiter does leaves the
      contribution of the others alone. */
  lemma PendingCountUpdate(ws: seq<WaiterSnapshot>, i: nat, w: WaiterSnapshot)
    requires i < |ws|
    ensures PendingCount(ws[i := w]) + |ws[i].debugInfo| == PendingCount(ws) + |w.debugInfo|
  {
    assert ws == ws[..i] + [ws[i]] + ws[i + 1..];
    assert ws[i := w] == ws[..i] + [w] + ws[i + 1..];
    PendingCountAppend(ws[..i] + [ws[i]], ws[i + 1..]);
    PendingCountAppend(ws[..i], [ws[i]]);
    PendingCountAppend(ws[..i] + [w], ws[i + 1..]);
    PendingCountAppend(ws[..i], [w]);
  }

  /** When only the waiter at position `k` may have pending items, the
      pending state is that waiter's alone. */
  lemma {:induction false} OnlyOnePending(ws: seq<WaiterSnapshot>, k: nat)
    requires k < |ws|
    requires forall i :: 0 <= i < |ws| && i != k ==> ws[i].debugInfo == []
    ensures PendingCount(ws) == |ws[k].debugInfo|
    ensures PendingOnly(ws) == if ws[k].debugInfo == [] then [] else [ws[k]]
  {
    if k == 0 {
      assert forall i :: 0 <= i < |ws[1..]| ==> ws[1..][i] == ws[i + 1];
    } else {
      assert forall i :: 0 <= i < |ws[1..]| && i != k - 1 ==> ws[1..][i] == ws[i + 1];
      OnlyOnePending(ws[1..], k - 1);
    }
  }
}
