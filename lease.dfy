/** The lease protocol of the DynamoDB backend, on values. The table keyed by
    `LockName` is a map from lock name to record; each of the four operations is
    one atomic conditional update of a single entry: a condition on the current
    entry (or on its absence) and, when it holds, an update of that entry. */
module Lease {
  import opened Wrappers
  import opened Codec

  /** One item of the table. Numbers are the store's own, so they are not
      bounded by int64; `Body` is absent until an UpdateValue stores one. */
  datatype Record = Record(
    nonce: string,
    fence: int,
    acquireTime: int,
    heartbeatTime: int,
    expireTime: int,
    body: Option<string>)

  type Table = map<string, Record>

  /** What Acquire returns: times in Unix nanoseconds, the fencing token and the body. */
  datatype Acquisition = Acquisition(acquireTime: Int64, expireTime: Int64, fence: Int64, body: string)

  /** The errors the backend returns: an `ExpectedError` with its message, an
      error of the store that is not a failed condition (opaque), and an
      attribute that could not be read back after a successful update. */
  datatype Failure = ExpectedError(message: string) | StoreError | AttributeError(message: string)

  /** A step of the table: what the caller gets back and the table afterwards. */
  datatype Transition<+T> = Transition(result: Result<T, Failure>, table: Table)

  const LockInUse: string := "Lock in use"
  const LockExpired: string := "Lock expired"

  function Entry(t: Table, name: string): Option<Record>
  {
    if name in t then Some(t[name]) else None
  }

  /** Fence of a name, 0 while it has no record (`if_not_exists(Fence, :zero)`). */
  function FenceOf(t: Table, name: string): int
  {
    if name in t then t[name].fence else 0
  }

  /** Every record the protocol writes: a positive fence and int64 times. */
  predicate ValidRecord(r: Record)
  {
    r.fence >= 1
    && MinInt64 <= r.acquireTime <= MaxInt64
    && MinInt64 <= r.heartbeatTime <= MaxInt64
    && MinInt64 <= r.expireTime <= MaxInt64
  }

  predicate ValidTable(t: Table)
  {
    forall name :: name in t ==> ValidRecord(t[name])
  }

  // ------------------------------------------------------------ conditions

  /** Acquire's condition: the lock has no record, its lease ran out strictly
      before now, or the caller's nonce is the stored one. */
  predicate AcquireCondition(e: Option<Record>, nonce: string, now: Int64)
  {
    e.None? || e.value.expireTime < now || e.value.nonce == nonce
  }

  /** Heartbeat's and UpdateValue's condition: the record exists, its lease is
      live strictly after now, and the caller holds the current fence. */
  predicate HolderCondition(e: Option<Record>, fence: Int64, now: Int64)
  {
    e.Some? && e.value.expireTime > now && e.value.fence == fence
  }

  /** Release's condition: the record exists and the caller holds its fence. */
  predicate ReleaseCondition(e: Option<Record>, fence: Int64)
  {
    e.Some? && e.value.fence == fence
  }

  // ------------------------------------------------------------ updates

  /** Acquire's update: new nonce, fence one higher (1 for a new record), all
      three times restarted; the body is kept. */
  function AcquireUpdate(e: Option<Record>, nonce: string, now: Int64, expire: Int64): (r: Record)
    ensures r.fence == (if e.Some? then e.value.fence + 1 else 1)
    ensures r.nonce == nonce && r.acquireTime == now && r.heartbeatTime == now && r.expireTime == expire
    ensures r.body == (if e.Some? then e.value.body else None)
  {
    match e
    case None => Record(nonce, 1, now, now, expire, None)
    case Some(old_) => old_.(nonce := nonce, fence := old_.fence + 1, acquireTime := now,
                             heartbeatTime := now, expireTime := expire)
  }

  /** Heartbeat's update, as intended: renew the lease and nothing else.
      The source's expression reads "SET HeartbeatTime :now, ExpireTime = :expire",
      which lacks the '=' after HeartbeatTime (see Findings.HeartbeatAsWritten). */
  function HeartbeatUpdate(r: Record, now: Int64, expire: Int64): Record
  {
    r.(heartbeatTime := now, expireTime := expire)
  }

  /** UpdateValue's update: store the body and renew the lease. */
  function UpdateValueUpdate(r: Record, value: string, now: Int64, expire: Int64): Record
  {
    r.(body := Some(value), heartbeatTime := now, expireTime := expire)
  }

  /** Release's update: force the lease into the past (ExpireTime = 0). */
  function ReleaseUpdate(r: Record): Record
  {
    r.(expireTime := 0)
  }

  // ------------------------------------------------------------ read back

  /** The item as the store returns it with ALL_NEW. */
  function ItemAttributes(name: string, r: Record): Attributes
  {
    var base := map[
      "LockName" := StringAttr(name),
      "Nonce" := StringAttr(r.nonce),
      "Fence" := NumberAttr(AwsInt(r.fence)),
      "AcquireTime" := NumberAttr(AwsInt(r.acquireTime)),
      "HeartbeatTime" := NumberAttr(AwsInt(r.heartbeatTime)),
      "ExpireTime" := NumberAttr(AwsInt(r.expireTime))];
    if r.body.Some? then base["Body" := StringAttr(r.body.value)] else base
  }

  /** Acquire's reading of the returned item: three numbers that must parse,
      and the body, which reads as "" when it is missing. */
  function DecodeAcquisition(attrs: Attributes): Result<Acquisition, Failure>
  {
    match ExtractInt(attrs, "AcquireTime")
    case Err(m) => Err(AttributeError(m))
    case Ok(acquireTime) =>
      match ExtractInt(attrs, "ExpireTime")
      case Err(m) => Err(AttributeError(m))
      case Ok(expireTime) =>
        match ExtractInt(attrs, "Fence")
        case Err(m) => Err(AttributeError(m))
        case Ok(fence) =>
          var body := match ExtractString(attrs, "Body") case Ok(b) => b case Err(_) => "";
          Ok(Acquisition(acquireTime, expireTime, fence, body))
  }

  function BodyText(body: Option<string>): string
  {
    if body.Some? then body.value else ""
  }

  /** The attributes Acquire reads, as they sit in the returned item. */
  lemma ItemFields(name: string, r: Record)
    ensures var attrs := ItemAttributes(name, r);
            && "AcquireTime" in attrs && attrs["AcquireTime"] == NumberAttr(AwsInt(r.acquireTime))
            && "ExpireTime" in attrs && attrs["ExpireTime"] == NumberAttr(AwsInt(r.expireTime))
            && "Fence" in attrs && attrs["Fence"] == NumberAttr(AwsInt(r.fence))
            && ("Body" in attrs <==> r.body.Some?)
            && (r.body.Some? ==> attrs["Body"] == StringAttr(r.body.value))
  {
  }

  /** Reading back a written record gives exactly its times, fence and body
      ("" when none was stored); only a fence beyond int64 fails to read. */
  lemma DecodeItem(name: string, r: Record)
    requires MinInt64 <= r.acquireTime <= MaxInt64 && MinInt64 <= r.expireTime <= MaxInt64
    ensures DecodeAcquisition(ItemAttributes(name, r)) ==
              if MinInt64 <= r.fence <= MaxInt64
              then Ok(Acquisition(r.acquireTime, r.expireTime, r.fence, BodyText(r.body)))
              else Err(AttributeError(ConversionError("Fence")))
  {
    var attrs := ItemAttributes(name, r);
    ItemFields(name, r);
    ExtractAwsInt(attrs, "AcquireTime", r.acquireTime);
    ExtractAwsInt(attrs, "ExpireTime", r.expireTime);
    ExtractAwsInt(attrs, "Fence", r.fence);
    var body := match ExtractString(attrs, "Body") case Ok(b) => b case Err(_) => "";
    assert body == BodyText(r.body);
  }

  // ------------------------------------------------------------ steps

  /** Acquire(name, nonce, duration) at instant `now`; `unavailable` stands for
      any store error other than a failed condition. */
  function AcquireStep(t: Table, name: string, nonce: string, duration: Int64, now: Int64,
                       unavailable: bool): (s: Transition<Acquisition>)
    ensures unavailable ==> s == Transition(Err(StoreError), t)
    ensures !unavailable && !AcquireCondition(Entry(t, name), nonce, now) ==>
              s == Transition(Err(ExpectedError(LockInUse)), t)
    ensures !unavailable && AcquireCondition(Entry(t, name), nonce, now) ==>
              && name in s.table
              && s.table == t[name := s.table[name]]
              && s.table[name].fence == FenceOf(t, name) + 1
              && s.table[name].nonce == nonce
              && s.table[name].acquireTime == now
              && s.table[name].heartbeatTime == now
              && s.table[name].expireTime == Wrap64(now + duration)
              && s.table[name].body == (if name in t then t[name].body else None)
              && (s.result.Ok? <==> MinInt64 <= s.table[name].fence <= MaxInt64)
              && (s.result.Err? ==> s.result == Err(AttributeError(ConversionError("Fence"))))
              && (s.result.Ok? ==>
                    s.result.value == Acquisition(now, Wrap64(now + duration), s.table[name].fence,
                                                  BodyText(s.table[name].body)))
    ensures s.result.Ok? ==> !unavailable && AcquireCondition(Entry(t, name), nonce, now)
  {
    if unavailable then Transition(Err(StoreError), t)
    else
      var e := Entry(t, name);
      if !AcquireCondition(e, nonce, now) then Transition(Err(ExpectedError(LockInUse)), t)
      else
        var r := AcquireUpdate(e, nonce, now, Wrap64(now + duration));
        DecodeItem(name, r);
        Transition(DecodeAcquisition(ItemAttributes(name, r)), t[name := r])
  }

  /** Heartbeat(name, fence, extension) at `now`, with the update as intended. */
  function HeartbeatStep(t: Table, name: string, fence: Int64, extension: Int64, now: Int64,
                         unavailable: bool): (s: Transition<()>)
    ensures s.result.Ok? <==> !unavailable && HolderCondition(Entry(t, name), fence, now)
    ensures s.result.Err? ==> s.table == t
    ensures !unavailable && !HolderCondition(Entry(t, name), fence, now) ==> s.result == Err(ExpectedError(LockExpired))
    ensures unavailable ==> s.result == Err(StoreError)
    ensures s.result.Ok? ==>
              && name in s.table
              && s.table == t[name := s.table[name]]
              && s.table[name] == t[name].(heartbeatTime := now, expireTime := Wrap64(now + extension))
  {
    if unavailable then Transition(Err(StoreError), t)
    else
      var e := Entry(t, name);
      if !HolderCondition(e, fence, now) then Transition(Err(ExpectedError(LockExpired)), t)
      else Transition(Ok(()), t[name := HeartbeatUpdate(e.value, now, Wrap64(now + extension))])
  }

  /** UpdateValue(name, fence, extension, value) at `now`. */
  function UpdateValueStep(t: Table, name: string, fence: Int64, extension: Int64, value: string,
                           now: Int64, unavailable: bool): (s: Transition<()>)
    ensures s.result.Ok? <==> !unavailable && HolderCondition(Entry(t, name), fence, now)
    ensures s.result.Err? ==> s.table == t
    ensures !unavailable && !HolderCondition(Entry(t, name), fence, now) ==> s.result == Err(ExpectedError(LockExpired))
    ensures unavailable ==> s.result == Err(StoreError)
    ensures s.result.Ok? ==>
              && name in s.table
              && s.table == t[name := s.table[name]]
              && s.table[name] == t[name].(body := Some(value), heartbeatTime := now,
                                           expireTime := Wrap64(now + extension))
  {
    if unavailable then Transition(Err(StoreError), t)
    else
      var e := Entry(t, name);
      if !HolderCondition(e, fence, now) then Transition(Err(ExpectedError(LockExpired)), t)
      else Transition(Ok(()), t[name := UpdateValueUpdate(e.value, value, now, Wrap64(now + extension))])
  }

  /** Release(name, fence), with `:fence` bound as intended: a failed condition
      is reported as success, so only a store error surfaces. */
  function ReleaseStep(t: Table, name: string, fence: Int64, unavailable: bool): (s: Transition<()>)
    ensures s.result.Ok? <==> !unavailable
    ensures unavailable ==> s.result == Err(StoreError)
    ensures s.table == if !unavailable && ReleaseCondition(Entry(t, name), fence)
                       then t[name := t[name].(expireTime := 0)] else t
  {
    if unavailable then Transition(Err(StoreError), t)
    else
      var e := Entry(t, name);
      if !ReleaseCondition(e, fence) then Transition(Ok(()), t)
      else Transition(Ok(()), t[name := ReleaseUpdate(e.value)])
  }
}
