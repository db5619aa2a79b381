# Lease protocol of glock's DynamoDB backend, in Dafny

glock hands out named, time-bounded locks ("leases") with fencing tokens. Its
DynamoDB backend (`app/dynamo_backend.go`) keeps one item per lock name and
implements each operation as one atomic conditional `UpdateItem`:

- **Acquire** takes the lock when it has no record, when its lease ran out
  strictly before now, or when the caller's nonce is the stored one; it bumps the
  fence, restarts the times and reads the new item back.
- **Heartbeat** and **UpdateValue** renew the lease (UpdateValue also stores a
  body) only for the holder of the current fence while the lease is live
  (Heartbeat as intended; see Findings).
- **Release** forces the expiry to 0 for the holder of the current fence, and
  reports success whether or not the condition held (as intended; see
  Findings).

The model keeps that shape:

- `codec.dfy` (module `Codec`): the attribute codec. `AwsInt` is the decimal
  spelling of `awsInt`/`awsTime`. `ParseInt` is `strconv.ParseInt(s, 10, 64)`.
  `ExtractInt` and `ExtractString` read attributes, and the round trip between
  writing and reading is proved.
- `lease.dfy` (module `Lease`): the table is a `map<string, Record>`. Each
  `ConditionExpression` is a predicate on the entry or its absence
  (`AcquireCondition`, `HolderCondition`, `ReleaseCondition`). Each
  `UpdateExpression` is an update of that one entry. The pure step functions
  (`AcquireStep`, …) state, in their contracts, when each operation succeeds and
  what it writes.
- `backend.dfy` (module `Backend`): class `DynamoBackend`, whose field `items` is
  the table. Its four methods update it in place, and each method's contract ties
  it to its step function.
- `properties.dfy` (module `Properties`): the protocol's safety rules. Over any
  sequence of calls, the fence grows by exactly one per successful Acquire and
  fences are never reused. The file also covers the boundary instant, nonce-based
  re-acquisition, idempotent release, and the job walk-through.
- `findings.dfy` (module `Findings`): the two requests the store would refuse as
  written (see Findings).

Time is an `Int64` of Unix nanoseconds, as `awsTime` writes it. The clock
reading `now` is a parameter instead of `time.Now()`. `now + duration` is
wrapped to int64 (`Wrap64`), because `now.Add(d).UnixNano()` wraps. A store
error that is not a failed condition (network, throttling) is an opaque
`StoreError`, chosen by the parameter `unavailable`; nothing is written when it
occurs. Store numbers are unbounded, so a fence can pass int64. The update is
then applied, but Acquire's read-back of `Fence` fails, which is what the source
does.

## Model

| member | source | states |
|---|---|---|
| Codec.Wrap64 | app/dynamo_backend.go:82 | the expiry instant equals now + duration when that fits in int64 and is congruent to it modulo 2^64 otherwise |
| Codec.NatDigits | app/dynamo_backend.go:241-243 | the decimal digits of a natural are non-empty, all digits, with a leading '0' exactly for zero |
| Codec.NatDigitsValue | app/dynamo_backend.go:241-243 | the digits written for n read back as n |
| Codec.AwsInt | app/dynamo_backend.go:237-243 | `%d` writes a minus sign exactly for negative values, followed by a non-empty run of digits |
| Codec.ParseInt | app/dynamo_backend.go:147 | a successful parse comes from an optional sign followed by at least one digit and digits only, so a lone sign is refused |
| Codec.ParseAwsInt | app/dynamo_backend.go:147 | parsing what `awsInt` wrote gives back the same value for every int64 and an error outside int64 |
| Codec.ExtractString | app/dynamo_backend.go:134-140 | succeeds exactly when the attribute exists with a string member, returning it; otherwise the "No string" error |
| Codec.ExtractInt | app/dynamo_backend.go:142-152 | a missing attribute or number gives "No int"; an unparsable number gives the conversion error; a success is the parsed number |
| Codec.ExtractAwsInt | app/dynamo_backend.go:142-152 | round trip: extractInt of an attribute written by awsInt returns the value for every int64 (conversion error beyond int64) |
| Codec.ExtractIntRejectsNonInteger | app/dynamo_backend.go:147-150 | a number with any character other than a leading sign and digits is refused with the conversion error |
| Lease.AcquireUpdate | app/dynamo_backend.go:90 | the new record has the caller's nonce, fence old + 1 (1 when absent), acquire = heartbeat = now, the given expiry, and the old body |
| Lease.ItemFields | app/dynamo_backend.go:98 | the item returned with ALL_NEW carries the record's three numbers as N attributes and a Body attribute exactly when a body is stored |
| Lease.DecodeItem | app/dynamo_backend.go:109-131 | reading the returned item gives exactly the stored times and fence and the body ("" when none), and fails only when the fence is outside int64 |
| Lease.AcquireStep | app/dynamo_backend.go:80-132 | store error: nothing changes; condition false: "Lock in use" and nothing changes; otherwise only this name's record is rewritten with fence + 1, nonce, times now and now + duration, the body kept, and the Acquisition carries exactly those values; a fence beyond int64 gives the Fence conversion error after the write |
| Lease.HeartbeatStep | app/dynamo_backend.go:154-181 | succeeds iff the record exists, expires strictly after now and has the caller's fence; on success only HeartbeatTime and ExpireTime of this record change; otherwise "Lock expired" (or a store error) and nothing changes |
| Lease.UpdateValueStep | app/dynamo_backend.go:183-210 | same condition as Heartbeat; on success only Body, HeartbeatTime and ExpireTime of this record change; otherwise "Lock expired" (or a store error) and nothing changes |
| Lease.ReleaseStep | app/dynamo_backend.go:212-235 | succeeds unless the store fails; with an existing record and matching fence only ExpireTime becomes 0, otherwise nothing changes |
| Backend.DynamoBackend.constructor | app/dynamo_backend.go:40-43 | a backend starts with an empty lock table |
| Backend.DynamoBackend.Acquire | app/dynamo_backend.go:80-132 | the in-place update and result are those of AcquireStep; a success returns the old fence + 1, which is at least 1; "Lock in use" leaves the table unchanged |
| Backend.DynamoBackend.Heartbeat | app/dynamo_backend.go:154-181 | the in-place update and result are those of HeartbeatStep; success means the fence matched and the expiry is now + extension; failure changes nothing |
| Backend.DynamoBackend.UpdateValue | app/dynamo_backend.go:183-210 | the in-place update and result are those of UpdateValueStep; success stores the value under the caller's fence; failure changes nothing |
| Backend.DynamoBackend.Release | app/dynamo_backend.go:212-235 | the in-place update and result are those of ReleaseStep; it fails only on a store error and never removes a record |
| Properties.ApplyFence | app/dynamo_backend.go:90 | one operation moves a fence only by a successful Acquire of that name, by exactly 1, and removes no record |
| Properties.ApplyPreservesValid | app/dynamo_backend.go:90 | every operation keeps each record's fence positive and its times int64 |
| Properties.FenceCountsAcquires | app/dynamo_backend.go:90 | over any sequence of operations a fence never decreases and grows by exactly the number of successful Acquires; records are never deleted |
| Properties.IssuedFencesConsecutive | app/dynamo_backend.go:90 | the k-th successful Acquire of a name receives the starting fence + k + 1: fences are strictly increasing and never reused |
| Properties.RunPreservesValid | app/dynamo_backend.go:89-95 | any sequence of operations keeps every record well formed |
| Properties.FirstAcquire | app/dynamo_backend.go:89-131 | a never-acquired lock is granted with fence 1, body "", acquire time now and expiry now + duration |
| Properties.HeldExcludesOthers | app/dynamo_backend.go:89-104 | while the expiry is not strictly before now, another nonce gets "Lock in use" and the table is unchanged |
| Properties.ReacquireSameNonce | app/dynamo_backend.go:89-90 | after a successful Acquire the same nonce acquires again at any instant, and the fence rises once more |
| Properties.BoundaryInstant | app/dynamo_backend.go:163 | with the stored expiry equal to now, Acquire under another nonce fails (strict '<' at :89) and Heartbeat and UpdateValue fail (strict '>' at :163 and :192) |
| Properties.StaleFenceRefused | app/dynamo_backend.go:163-175 | a fence other than the stored one is refused with "Lock expired" by Heartbeat and UpdateValue even before expiry, and nothing changes |
| Properties.ReleaseFreesLock | app/dynamo_backend.go:218-219 | release with the current fence only zeroes the expiry; afterwards any nonce acquires at now > 0 with the next fence, and Heartbeat with the released fence fails |
| Properties.ReleaseIdempotent | app/dynamo_backend.go:224-230 | with a wrong fence or no record Release succeeds and changes nothing; releasing twice equals releasing once |
| Properties.UpdateValueStores | app/dynamo_backend.go:193 | after UpdateValue the record holds the value and expires at now + extension, with nonce, fence and acquire time unchanged |
| Properties.JobScenario | app/dynamo_backend.go:80-235 | acquire, update, heartbeat, release, heartbeat, re-acquire on "job1" give fence 1 and body "", then success, success, success, "Lock expired", and fence 2 with body "rollback" |
| Findings.HeartbeatAsWrittenFailsHolder | app/dynamo_backend.go:163-178 | a live holder with the right fence is renewed by the intended update but gets a store error from the request as written |
| Findings.ReleaseAsWrittenKeepsLockHeld | app/dynamo_backend.go:218-233 | the holder's release frees the lock under the intended request, but as written it returns an error and another nonce is still refused with "Lock in use" |

## Left out

- `BuildDynamodbClient` and `EnsureTableExists`: AWS session and table creation, foreign calls with no protocol logic.
- `awsString`: the identity on strings (a pointer to its argument).
- The DynamoDB expression language and `awserr` code inspection. Conditions and updates are modelled by meaning; "condition check failed" is the condition being false, and every other store error is the opaque `StoreError`.
- A store error after which the write was in fact applied (a lost response) is not modelled: `StoreError` always leaves the table unchanged.
- The 38-digit precision limit of DynamoDB numbers: store numbers are unbounded integers.
- `time.Now()` and the monotonic clock: `now` is a parameter; `time.Time` values are their Unix nanoseconds, and `time.Unix(0, n)` is taken as that same number.
- `ExpectedError`'s wrapped `Cause`: only its message is kept.
- Codec.ExtractInt: the conversion error's message leaves out the strconv error text that Go appends after a colon, and does not distinguish a syntax error from a range error.
- app/server.go (HTTP routing, parameter parsing, status codes) and main.go (process lifecycle, signals, goroutines): transport and I/O. This includes the transport's own defects: no `return` after an over-long nonce, `ExpectedError` asserted by value where the backend returns a pointer, and a DELETE route without `{fence}`.
- Concurrency between clients: the store makes each `UpdateItem` atomic, so each operation is one sequential step of the table.

## Findings

| source | as written | input that shows it | evidently intended | confidence | as-written member | corrected member |
|---|---|---|---|---|---|---|
| app/dynamo_backend.go:164 | update expression `SET HeartbeatTime :now, ExpireTime = :expire` has no `=` after HeartbeatTime, so the store rejects every Heartbeat as malformed and the caller gets a plain (non-expected) error | any Heartbeat by the live holder with its fence, e.g. Heartbeat("job1", 1, 30s) right after Acquire("job1", "n1", 30s) | `SET HeartbeatTime = :now, ExpireTime = :expire`: renew the holder's lease | high (not executed) | Findings.HeartbeatAsWrittenFailsHolder | Lease.HeartbeatStep |
| app/dynamo_backend.go:218-222 | the condition uses `:fence` but ExpressionAttributeValues binds only `:zero`, so the store rejects every Release and the caller gets a plain error; the lock stays held | Release("job1", 1) by the holder of fence 1, followed by Acquire("job1", "n2") before expiry, which is still refused | bind `:fence` to the argument: zero the expiry for the holder and report success otherwise | high (not executed) | Findings.ReleaseAsWrittenKeepsLockHeld | Properties.ReleaseFreesLock |

The model of Heartbeat and Release used by `Lease` and `Backend` is the
intended one.
