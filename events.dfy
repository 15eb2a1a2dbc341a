/**
 * Pool events and the task queue that serialises decision cycles.
 *
 * `pair.on("Mint" | "Burn" | "Swap")` handlers enqueue one cycle each, except
 * for a `Swap` whose recipient is the bot's own wallet. The promise chain of
 * `Queue.add` is modelled as a FIFO sequence of pending tasks; what running a
 * task does is modelled where the cycle is (module Bot).
 */
module Events {

  type Address = string

  /** The pair events the bot subscribes to; `Swap` carries its `to` argument. */
  datatype PoolEvent = Mint | Burn | Swap(to: Address)

  /** An event enqueues a cycle unless it is a swap paid out to the bot itself. */
  predicate TriggersCycle(e: PoolEvent, wallet: Address)
  {
    !(e.Swap? && e.to == wallet)
  }

  /** The events that enqueue a cycle, in arrival order. */
  function Triggered(events: seq<PoolEvent>, wallet: Address): seq<PoolEvent>
  {
    if events == [] then []
    else Triggered(events[..|events| - 1], wallet)
         + (if TriggersCycle(events[|events| - 1], wallet) then [events[|events| - 1]] else [])
  }

  /** Number of swaps paid out to the bot itself. */
  function SelfSwaps(events: seq<PoolEvent>, wallet: Address): nat
  {
    if events == [] then 0
    else SelfSwaps(events[..|events| - 1], wallet)
         + (if TriggersCycle(events[|events| - 1], wallet) then 0 else 1)
  }

  /**
   * Every event but the bot's own swaps enqueues exactly one cycle, and only
   * those events do.
   */
  lemma {:induction false} TriggeredExactly(events: seq<PoolEvent>, wallet: Address)
    ensures |Triggered(events, wallet)| + SelfSwaps(events, wallet) == |events|
    ensures forall e :: e in Triggered(events, wallet) <==> e in events && TriggersCycle(e, wallet)
  {
    if events != [] {
      var init := events[..|events| - 1];
      TriggeredExactly(init, wallet);
      assert events == init + [events[|events| - 1]];
    }
  }

  /** The bot's own swap is ignored; Mint, Burn and anyone else's Swap are not. */
  lemma SelfSwapIgnored(wallet: Address, other: Address)
    requires other != wallet
    ensures Triggered([Swap(wallet)], wallet) == []
    ensures Triggered([Mint, Burn, Swap(other)], wallet) == [Mint, Burn, Swap(other)]
  {
    assert [Mint, Burn, Swap(other)][..2] == [Mint, Burn];
    assert [Mint, Burn][..1] == [Mint];
    assert [Mint][..0] == [];
    assert Triggered([Mint], wallet) == [Mint];
    assert Triggered([Mint, Burn], wallet) == [Mint, Burn];
  }

  /** `Queue`: tasks waiting to run, oldest first. */
  class TaskQueue {
    var pending: seq<PoolEvent>

    constructor ()
      ensures pending == []
    {
      pending := [];
    }

    /** `add`: chain one more task after the ones already queued. */
    method Add(e: PoolEvent)
      modifies this
      ensures pending == old(pending) + [e]
    {
      pending := pending + [e];
    }

    /** The event handlers of `listenAndSwap`, fed a sequence of events in order. */
    method Listen(events: seq<PoolEvent>, wallet: Address)
      modifies this
      ensures pending == old(pending) + Triggered(events, wallet)
    {
      var i := 0;
      while i < |events|
        invariant 0 <= i <= |events|
        invariant pending == old(pending) + Triggered(events[..i], wallet)
      {
        assert events[..i + 1][..i] == events[..i];
        if TriggersCycle(events[i], wallet) {
          Add(events[i]);
        }
        i := i + 1;
      }
      assert events[..i] == events;
    }
  }
}
