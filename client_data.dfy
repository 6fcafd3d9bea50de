/**
 * The server's per-connection record and its id counter
 * (apps/presence/src/client.ts).
 *
 * `nextClientId` keeps the last id in module state: once the counter has
 * reached 65535 it is reset to 0, and the call returns the counter and then
 * increments it. Ids therefore run 0, 1, ..., 65534, 0, 1, ...
 */
module PresenceClient {
  import opened Wrappers
  import opened Borsh

  /** The counter is reset once it reaches this value; no id equals it. */
  const ID_LIMIT: nat := 65535

  /** The data attached to one connection; `id` is fixed, the rest changes in place. */
  class ClientData {
    const id: nat
    var roomName: Option<string>
    var pointerXPercent: Option<F32>
    var pointerYPercent: Option<F32>

    /** A new connection's data: in no room, no pointer position known. */
    constructor (id: nat)
      ensures this.id == id
      ensures roomName == None && pointerXPercent == None && pointerYPercent == None
    {
      this.id := id;
      roomName := None;
      pointerXPercent := None;
      pointerYPercent := None;
    }
  }

  /** One call of `nextClientId` on counter value `last`: the id it returns and the new counter. */
  function NextId(last: nat): (r: (nat, nat))
    ensures r.0 < ID_LIMIT
    ensures r.1 == r.0 + 1
    ensures last < ID_LIMIT ==> r.0 == last
    ensures last >= ID_LIMIT ==> r.0 == 0
  {
    var current := if last >= ID_LIMIT then 0 else last;
    (current, current + 1)
  }

  /** The counter after `calls` calls, starting from its initial value 0. */
  function CounterAfter(calls: nat): nat {
    if calls == 0 then 0 else NextId(CounterAfter(calls - 1)).1
  }

  /** Counting on by one from k - 1 wraps the remainder modulo 65535. */
  lemma ModSucc(k: nat)
    requires k > 0
    ensures k % ID_LIMIT == if (k - 1) % ID_LIMIT + 1 == ID_LIMIT then 0 else (k - 1) % ID_LIMIT + 1
  {
    var q, m := (k - 1) / ID_LIMIT, (k - 1) % ID_LIMIT;
    assert k == q * ID_LIMIT + m + 1;
    if m + 1 == ID_LIMIT {
      assert k == (q + 1) * ID_LIMIT;
    }
  }

  /** The `k`-th call (counting from 0) returns `k % 65535`, and leaves the counter at that id + 1. */
  lemma {:induction false} IdsCycle(k: nat)
    ensures NextId(CounterAfter(k)).0 == k % ID_LIMIT
    ensures CounterAfter(k + 1) == k % ID_LIMIT + 1
  {
    if k > 0 {
      IdsCycle(k - 1);
      ModSucc(k);
    }
  }

  /** The module-level counter behind `nextClientId`. */
  class IdAllocator {
    var lastClientId: nat
    /** How many ids have been handed out. */
    ghost var calls: nat

    ghost predicate Valid()
      reads this
    {
      lastClientId == CounterAfter(calls)
    }

    constructor ()
      ensures Valid() && calls == 0 && lastClientId == 0
    {
      lastClientId := 0;
      calls := 0;
    }

    /** nextClientId: reset at 65535, then return the counter and increment it. */
    method NextClientId() returns (id: nat)
      requires Valid()
      modifies this
      ensures Valid() && calls == old(calls) + 1
      ensures (id, lastClientId) == NextId(old(lastClientId))
      ensures id == old(calls) % ID_LIMIT
    {
      if lastClientId >= ID_LIMIT {
        lastClientId := 0;
      }
      id := lastClientId;
      lastClientId := lastClientId + 1;
      calls := calls + 1;
      IdsCycle(old(calls));
    }
  }
}
