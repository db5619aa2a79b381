/** Two requests of the backend that the store refuses as written. Each is
    modelled here as written, next to the intended behaviour that Lease and
    Backend implement, with a lemma showing where the two part ways. */
module Findings {
  import opened Wrappers
  import opened Codec
  import opened Lease

  /** Heartbeat as written (app/dynamo_backend.go:164): the update expression
      "SET HeartbeatTime :now, ExpireTime = :expire" has no '=' after
      HeartbeatTime. The store rejects the request as malformed before it
      evaluates the condition; that is not a failed condition, so Heartbeat
      returns it as a plain error, and nothing is written. */
  function HeartbeatAsWritten(t: Table, name: string, fence: Int64, extension: Int64, now: Int64,
                              unavailable: bool): (s: Transition<()>)
  {
    Transition(Err(StoreError), t)
  }

  /** The holder of a live lease, calling Heartbeat with its own fence, is
      renewed by the intended update but gets a store error from the request
      as written, and its lease is not extended. */
  lemma HeartbeatAsWrittenFailsHolder(t: Table, name: string, fence: Int64, extension: Int64, now: Int64)
    requires HolderCondition(Entry(t, name), fence, now)
    ensures HeartbeatStep(t, name, fence, extension, now, false).result == Ok(())
    ensures HeartbeatStep(t, name, fence, extension, now, false).table[name].expireTime == Wrap64(now + extension)
    ensures HeartbeatAsWritten(t, name, fence, extension, now, false) == Transition(Err(StoreError), t)
  {
  }

  /** Release as written (app/dynamo_backend.go:218-222): the condition
      "attribute_exists(LockName) AND Fence = :fence" names `:fence`, but the
      request binds only `:zero`. The store rejects a request that uses an
      undefined value before it evaluates the condition, so every Release
      returns a plain error and nothing is written. */
  function ReleaseAsWritten(t: Table, name: string, fence: Int64, unavailable: bool): (s: Transition<()>)
  {
    Transition(Err(StoreError), t)
  }

  /** The holder releasing with its own fence frees the lock under the
      intended request, but as written it gets an error and the lock stays
      held: another client is still refused until the lease runs out. */
  lemma ReleaseAsWrittenKeepsLockHeld(t: Table, name: string, fence: Int64, nonce: string,
                                      duration: Int64, now: Int64)
    requires ReleaseCondition(Entry(t, name), fence)
    requires t[name].expireTime >= now > 0 && t[name].nonce != nonce
    ensures ReleaseStep(t, name, fence, false).result == Ok(())
    ensures AcquireCondition(Entry(ReleaseStep(t, name, fence, false).table, name), nonce, now)
    ensures ReleaseAsWritten(t, name, fence, false).result == Err(StoreError)
    ensures AcquireStep(ReleaseAsWritten(t, name, fence, false).table, name, nonce, duration, now, false).result
              == Err(ExpectedError(LockInUse))
  {
  }
}
