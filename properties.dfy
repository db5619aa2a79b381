/** Safety rules of the lease protocol, over single operations and over any
    sequence of operations on the lock table. */
module Properties {
  import opened Wrappers
  import opened Codec
  import opened Lease

  /** A call of one of the backend's four operations. */
  datatype Call =
    | AcquireCall(name: string, nonce: string, duration: Int64)
    | HeartbeatCall(name: string, fence: Int64, extension: Int64)
    | UpdateValueCall(name: string, fence: Int64, extension: Int64, value: string)
    | ReleaseCall(name: string, fence: Int64)

  /** A call made at clock reading `now`, against a store that may fail. */
  datatype Event = Event(call: Call, now: Int64, unavailable: bool)

  function Apply(t: Table, ev: Event): Table
  {
    match ev.call
    case AcquireCall(name, nonce, duration) => AcquireStep(t, name, nonce, duration, ev.now, ev.unavailable).table
    case HeartbeatCall(name, fence, extension) => HeartbeatStep(t, name, fence, extension, ev.now, ev.unavailable).table
    case UpdateValueCall(name, fence, extension, value) =>
      UpdateValueStep(t, name, fence, extension, value, ev.now, ev.unavailable).table
    case ReleaseCall(name, fence) => ReleaseStep(t, name, fence, ev.unavailable).table
  }

  /** The table after the events, one after the other. */
  function Run(t: Table, evs: seq<Event>): Table
    decreases |evs|
  {
    if evs == [] then t else Run(Apply(t, evs[0]), evs[1..])
  }

  /** The event is an Acquire of `name` whose condition holds, so the store applies its update. */
  predicate AcquiresAt(t: Table, ev: Event, name: string)
  {
    ev.call.AcquireCall? && ev.call.name == name && !ev.unavailable
    && AcquireCondition(Entry(t, name), ev.call.nonce, ev.now)
  }

  /** The fences the store hands out for `name` along the events, in order. */
  function Issued(t: Table, evs: seq<Event>, name: string): seq<int>
    decreases |evs|
  {
    if evs == [] then []
    else (if AcquiresAt(t, evs[0], name) then [FenceOf(t, name) + 1] else [])
         + Issued(Apply(t, evs[0]), evs[1..], name)
  }

  /** One operation: only a successful Acquire moves a fence, by exactly one;
      Heartbeat, UpdateValue and Release leave it alone; no record disappears. */
  lemma ApplyFence(t: Table, ev: Event, name: string)
    ensures FenceOf(Apply(t, ev), name) == FenceOf(t, name) + (if AcquiresAt(t, ev, name) then 1 else 0)
    ensures t.Keys <= Apply(t, ev).Keys
  {
  }

  /** One operation keeps every record well formed. */
  lemma ApplyPreservesValid(t: Table, ev: Event)
    requires ValidTable(t)
    ensures ValidTable(Apply(t, ev))
  {
  }

  /** Fence monotonicity: along any sequence of operations the fence of a name
      grows by exactly the number of successful Acquires of that name, and a
      record once created is never removed. */
  lemma {:induction false} FenceCountsAcquires(t: Table, evs: seq<Event>, name: string)
    ensures FenceOf(Run(t, evs), name) == FenceOf(t, name) + |Issued(t, evs, name)|
    ensures FenceOf(Run(t, evs), name) >= FenceOf(t, name)
    ensures t.Keys <= Run(t, evs).Keys
    decreases |evs|
  {
    if evs != [] {
      ApplyFence(t, evs[0], name);
      FenceCountsAcquires(Apply(t, evs[0]), evs[1..], name);
    }
  }

  /** Fences are never reused: the k-th successful Acquire of a name along any
      sequence of operations receives the starting fence plus k + 1, so the
      fences handed out are consecutive and strictly increasing. */
  lemma {:induction false} IssuedFencesConsecutive(t: Table, evs: seq<Event>, name: string)
    ensures forall k :: 0 <= k < |Issued(t, evs, name)| ==> Issued(t, evs, name)[k] == FenceOf(t, name) + k + 1
    decreases |evs|
  {
    if evs != [] {
      var t' := Apply(t, evs[0]);
      ApplyFence(t, evs[0], name);
      IssuedFencesConsecutive(t', evs[1..], name);
    }
  }

  /** Every record the protocol writes keeps a positive fence and int64 times. */
  lemma {:induction false} RunPreservesValid(t: Table, evs: seq<Event>)
    requires ValidTable(t)
    ensures ValidTable(Run(t, evs))
    decreases |evs|
  {
    if evs != [] {
      ApplyPreservesValid(t, evs[0]);
      RunPreservesValid(Apply(t, evs[0]), evs[1..]);
    }
  }

  /** A lock never acquired before is granted with fence 1 and an empty body. */
  lemma FirstAcquire(t: Table, name: string, nonce: string, duration: Int64, now: Int64)
    requires name !in t
    ensures AcquireStep(t, name, nonce, duration, now, false).result ==
              Ok(Acquisition(now, Wrap64(now + duration), 1, ""))
  {
  }

  /** While the lease is held (its expiry not strictly before now), Acquire
      under another nonce is refused with "Lock in use" and nothing changes. */
  lemma HeldExcludesOthers(t: Table, name: string, nonce: string, duration: Int64, now: Int64)
    requires name in t && t[name].expireTime >= now && t[name].nonce != nonce
    ensures AcquireStep(t, name, nonce, duration, now, false) == Transition(Err(ExpectedError(LockInUse)), t)
  {
  }

  /** The holder may acquire again at any instant, even before expiry, and
      gets the next fence. */
  lemma ReacquireSameNonce(t: Table, name: string, nonce: string, d1: Int64, d2: Int64, now1: Int64, now2: Int64)
    requires AcquireStep(t, name, nonce, d1, now1, false).table != t
    ensures var t1 := AcquireStep(t, name, nonce, d1, now1, false).table;
            && AcquireCondition(Entry(t1, name), nonce, now2)
            && AcquireStep(t1, name, nonce, d2, now2, false).table[name].fence == FenceOf(t, name) + 2
  {
  }

  /** Boundary instant: when the stored expiry equals now, the lease counts as
      held for Acquire (strict '<') and as expired for Heartbeat and
      UpdateValue (strict '>'), so all three fail. */
  lemma BoundaryInstant(t: Table, name: string, nonce: string, duration: Int64, fence: Int64,
                        extension: Int64, value: string, now: Int64)
    requires name in t && t[name].expireTime == now && t[name].nonce != nonce
    ensures AcquireStep(t, name, nonce, duration, now, false).result == Err(ExpectedError(LockInUse))
    ensures HeartbeatStep(t, name, fence, extension, now, false).result == Err(ExpectedError(LockExpired))
    ensures UpdateValueStep(t, name, fence, extension, value, now, false).result == Err(ExpectedError(LockExpired))
  {
  }

  /** A stale fence is refused even while the lease is live. */
  lemma StaleFenceRefused(t: Table, name: string, fence: Int64, extension: Int64, value: string, now: Int64)
    requires name in t && t[name].fence != fence
    ensures HeartbeatStep(t, name, fence, extension, now, false) == Transition(Err(ExpectedError(LockExpired)), t)
    ensures UpdateValueStep(t, name, fence, extension, value, now, false) == Transition(Err(ExpectedError(LockExpired)), t)
  {
  }

  /** After Release with the current fence the lock is free: any nonce
      acquires it at a positive instant with the next fence, and the released
      fence can no longer renew the lease. */
  lemma ReleaseFreesLock(t: Table, name: string, fence: Int64, nonce: string, duration: Int64,
                         extension: Int64, now: Int64)
    requires ReleaseCondition(Entry(t, name), fence) && now > 0
    ensures var t1 := ReleaseStep(t, name, fence, false).table;
            && t1[name] == t[name].(expireTime := 0)
            && HeartbeatStep(t1, name, fence, extension, now, false).result == Err(ExpectedError(LockExpired))
            && AcquireCondition(Entry(t1, name), nonce, now)
            && AcquireStep(t1, name, nonce, duration, now, false).table[name].fence == t[name].fence + 1
  {
  }

  /** Release is idempotent and never reports a logical failure: with a wrong
      fence or no record it succeeds and changes nothing, and releasing twice
      is the same as releasing once. */
  lemma ReleaseIdempotent(t: Table, name: string, fence: Int64)
    ensures !ReleaseCondition(Entry(t, name), fence) ==> ReleaseStep(t, name, fence, false) == Transition(Ok(()), t)
    ensures var t1 := ReleaseStep(t, name, fence, false).table;
            ReleaseStep(t1, name, fence, false) == Transition(Ok(()), t1)
  {
  }

  /** A value written by UpdateValue is what the record holds afterwards, with
      the lease refreshed from the instant of the write. */
  lemma UpdateValueStores(t: Table, name: string, fence: Int64, extension: Int64, value: string, now: Int64)
    requires HolderCondition(Entry(t, name), fence, now)
    requires MinInt64 <= now + extension <= MaxInt64
    ensures var t1 := UpdateValueStep(t, name, fence, extension, value, now, false).table;
            t1[name].body == Some(value) && t1[name].expireTime == now + extension
            && t1[name].fence == t[name].fence && t1[name].nonce == t[name].nonce
            && t1[name].acquireTime == t[name].acquireTime
  {
  }

  /** The walk-through of a job lock: acquire, checkpoint a value, renew,
      release, then a new holder gets the next fence and the checkpoint. */
  lemma JobScenario()
    ensures
      var second: Int64 := 1_000_000_000;
      var d: Int64 := 30 * second;
      var a1 := AcquireStep(map[], "job1", "n1", d, 100 * second, false);
      var u := UpdateValueStep(a1.table, "job1", 1, d, "rollback", 101 * second, false);
      var h := HeartbeatStep(u.table, "job1", 1, d, 102 * second, false);
      var r := ReleaseStep(h.table, "job1", 1, false);
      var h2 := HeartbeatStep(r.table, "job1", 1, d, 103 * second, false);
      var a2 := AcquireStep(h2.table, "job1", "n2", d, 104 * second, false);
      && a1.result == Ok(Acquisition(100 * second, 130 * second, 1, ""))
      && u.result.Ok? && h.result.Ok? && r.result.Ok?
      && h2.result == Err(ExpectedError(LockExpired))
      && a2.result == Ok(Acquisition(104 * second, 134 * second, 2, "rollback"))
  {
  }
}
