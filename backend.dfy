/** `DynamoBackend`: the four lock operations as in-place conditional updates
    of one entry of the lock table. The clock reading `now` and the store's
    availability are parameters: `unavailable` stands for any store error that
    is not a failed condition (network, throttling), after which nothing
    changed. */
module Backend {
  import opened Wrappers
  import opened Codec
  import opened Lease

  class DynamoBackend {
    /** The contents of the lock table, keyed by `LockName`. */
    var items: Table

    ghost predicate Valid()
      reads this
    {
      ValidTable(items)
    }

    constructor ()
      ensures Valid() && items == map[]
    {
      items := map[];
    }

    /** Takes the lock when it is free, expired or already held under `nonce`,
        and reads the new item back. */
    method Acquire(name: string, nonce: string, duration: Int64, now: Int64, unavailable: bool)
      returns (r: Result<Acquisition, Failure>)
      requires Valid()
      modifies this
      ensures Valid()
      ensures Transition(r, items) == AcquireStep(old(items), name, nonce, duration, now, unavailable)
      ensures r.Ok? ==> r.value.fence == old(FenceOf(items, name)) + 1 && r.value.acquireTime == now
      ensures r.Ok? ==> r.value.fence >= 1
      ensures r.Err? && r.error.ExpectedError? ==> items == old(items)
    {
      if unavailable {
        return Err(StoreError);
      }
      var entry := Entry(items, name);
      if !AcquireCondition(entry, nonce, now) {
        return Err(ExpectedError(LockInUse));
      }
      var updated := AcquireUpdate(entry, nonce, now, Wrap64(now + duration));
      items := items[name := updated];

      var attrs := ItemAttributes(name, updated);
      ItemFields(name, updated);
      var acquireTime := ExtractInt(attrs, "AcquireTime");
      if acquireTime.Err? {
        return Err(AttributeError(acquireTime.error));
      }
      var expireTime := ExtractInt(attrs, "ExpireTime");
      if expireTime.Err? {
        return Err(AttributeError(expireTime.error));
      }
      var fence := ExtractInt(attrs, "Fence");
      if fence.Err? {
        return Err(AttributeError(fence.error));
      }
      var body := ExtractString(attrs, "Body");
      r := Ok(Acquisition(acquireTime.value, expireTime.value, fence.value, if body.Ok? then body.value else ""));
    }

    /** Renews the lease of the current holder. The update modelled is the
        intended one (HeartbeatTime := now, ExpireTime := now + extension); the
        source's update expression lacks an '=' and would be refused by the
        store, see Findings.HeartbeatAsWritten. */
    method Heartbeat(name: string, fence: Int64, extension: Int64, now: Int64, unavailable: bool)
      returns (r: Result<(), Failure>)
      requires Valid()
      modifies this
      ensures Valid()
      ensures Transition(r, items) == HeartbeatStep(old(items), name, fence, extension, now, unavailable)
      ensures r.Ok? ==> items[name].fence == fence && items[name].expireTime == Wrap64(now + extension)
      ensures r.Err? ==> items == old(items)
    {
      if unavailable {
        return Err(StoreError);
      }
      var entry := Entry(items, name);
      if !HolderCondition(entry, fence, now) {
        return Err(ExpectedError(LockExpired));
      }
      items := items[name := HeartbeatUpdate(entry.value, now, Wrap64(now + extension))];
      r := Ok(());
    }

    /** Stores `value` as the body and renews the lease of the current holder. */
    method UpdateValue(name: string, fence: Int64, extension: Int64, value: string, now: Int64,
                       unavailable: bool)
      returns (r: Result<(), Failure>)
      requires Valid()
      modifies this
      ensures Valid()
      ensures Transition(r, items) == UpdateValueStep(old(items), name, fence, extension, value, now, unavailable)
      ensures r.Ok? ==> items[name].body == Some(value) && items[name].fence == fence
      ensures r.Err? ==> items == old(items)
    {
      if unavailable {
        return Err(StoreError);
      }
      var entry := Entry(items, name);
      if !HolderCondition(entry, fence, now) {
        return Err(ExpectedError(LockExpired));
      }
      items := items[name := UpdateValueUpdate(entry.value, value, now, Wrap64(now + extension))];
      r := Ok(());
    }

    /** Ends the lease of the holder of `fence`; a wrong fence or a missing
        record is not an error. The condition is modelled with `:fence` bound
        to the argument, as intended; the source never binds it, see
        Findings.ReleaseAsWritten. */
    method Release(name: string, fence: Int64, unavailable: bool) returns (r: Result<(), Failure>)
      requires Valid()
      modifies this
      ensures Valid()
      ensures Transition(r, items) == ReleaseStep(old(items), name, fence, unavailable)
      ensures r.Ok? <==> !unavailable
      ensures items.Keys == old(items.Keys)
    {
      if unavailable {
        return Err(StoreError);
      }
      var entry := Entry(items, name);
      if ReleaseCondition(entry, fence) {
        items := items[name := ReleaseUpdate(entry.value)];
      }
      r := Ok(());
    }
  }
}
