/**
 * The defaults every pipeline processor inherits: no set-up or tear-down for a
 * batch, results delivered at once, and a failed batch retried after a second.
 */
module Processors {

  /** Milliseconds before a failed batch is redelivered. */
  const DefaultRetryDelay: int := 1000

  /**
   * `initialise(tenantId, items)`: `S` is whatever state a processor keeps for a batch;
   * the default opens nothing.
   */
  function Initialise<S, T>(s: S, tenantId: string, items: seq<T>): S
  {
    s
  }

  /** `cleanup(tenantId, items)`: the default releases nothing. */
  function Cleanup<S, T>(s: S, tenantId: string, items: seq<T>): S
  {
    s
  }

  /** `getDeliveryDelay(results)`: results go to the next stage without delay. */
  function DeliveryDelay<R>(results: seq<R>): int
  {
    0
  }

  /** `getRetryDelay(items)`: a failed batch is retried after the default delay. */
  function RetryDelay<T>(items: seq<T>): int
  {
    DefaultRetryDelay
  }

  /** Whatever the batch, results are delivered after 0 ms and a failed batch is retried after 1000 ms. */
  lemma DefaultDelays<T, R>(items: seq<T>, results: seq<R>)
    ensures DeliveryDelay(results) == 0
    ensures RetryDelay(items) == 1000
  {
  }

  /** The default hooks change no state, whatever the tenant and batch. */
  lemma DefaultHooksKeepState<S, T>(s: S, tenantId: string, items: seq<T>)
    ensures Initialise(s, tenantId, items) == s
    ensures Cleanup(s, tenantId, items) == s
  {
  }

  /** A batch run with the default hooks leaves the processor's state as it found it. */
  lemma LifecycleKeepsState<S, T>(s: S, tenantId: string, items: seq<T>)
    ensures Cleanup(Initialise(s, tenantId, items), tenantId, items) == s
  {
  }
}
