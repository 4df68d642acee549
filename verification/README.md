# IP tracking: request interception and hourly anomaly scan

This project is a Dafny model of the two decision procedures of the
`ip_tracking` Django application.

- **The request interceptor** is `IPLoggingMiddleware` in
  `ip_tracking/ip_tracking/middleware.py`. For each request it extracts the
  client address. A blocked address gets a forbidden response. Any other
  address gets one best-effort attempt to append a request-log record, and
  then the request is passed to the downstream handler.
- **The hourly anomaly scan** is `detect_anomalies` in
  `ip_tracking/ip_tracking/tasks.py`. It keeps the request-log records of the
  trailing hour and counts them per address. It flags every address that
  requested `/admin` or `/login`. It also flags every address with more than
  100 requests. Flags go in through get-or-create.

The model is functional. Records, flag stores and request logs are immutable
values. The datastore, the clock and the write outcome become parameters.

Files:

- `common.dfy` (module `Common`): the `LogRecord` type, `Option`, duplicate
  freedom, and the decimal rendering of counts used in flag reasons.
- `anomaly.dfy` (module `Anomaly`): the window filter, the per-address
  counter, get-or-create, and the scan, written two ways. `DetectAnomalies`
  is the pure function. `ScanLoops` has the source's two loops and is
  proved equal to `DetectAnomalies`. The contents of the resulting store
  are proved equal to reference definitions that do not depend on iteration
  order (`WindowCount`, `ExpectedSensitiveFlags`, `ExpectedRateFlags`).
- `middleware.dfy` (module `Middleware`): `str.split(',')`, address
  extraction, the per-request transition and runs of many requests.

Modelling decisions:

- Timestamps are integer seconds, so the one-hour window is 3600.
- The flag store is a sequence in insertion order. Get-or-create appends a
  flag only when it is absent. "At most one flag per (address, reason)" is
  therefore `NoDup`, and "no flag is removed" means the old store is a
  prefix of the new one.
- A flag reason is the datatype `Reason`. `ReasonText` renders it exactly as
  the source's f-strings do. `ReasonTextInjective` proves that keying by
  `Reason` is the same as keying by the text.
- The scan visits the rate phase in the counter dictionary's insertion order.
  That is the order in which each address first appears in the window. The
  window query's order is taken to be the stored order of `logs`.
- `Handle` returns an `Outcome`, which holds the decision and the new state.
  `Deny` stands for the forbidden response, which is returned without calling
  `get_response`. `Allow` stands for calling `get_response`.
- `x_forwarded_for.split(',')[0]` does not trim whitespace; see
  `ForwardedNotTrimmedExample`.

## Model

| member | source | states |
|---|---|---|
| Common.NatToString | ip_tracking/ip_tracking/tasks.py:55 | the `{count}` rendering is a non-empty string of decimal digits with no leading zero unless the count is 0 |
| Common.NatToStringRoundTrip | ip_tracking/ip_tracking/tasks.py:55 | the decimal text of a count, read back as digits, gives the count |
| Common.NatToStringInjective | ip_tracking/ip_tracking/tasks.py:55 | different counts give different texts |
| Anomaly.ReasonTextInjective | ip_tracking/ip_tracking/tasks.py:45-56 | two reasons with the same stored text are the same reason. The sensitive-path and volume texts never collide, and each kind is injective |
| Anomaly.Recent | ip_tracking/ip_tracking/tasks.py:33-36 | a record is returned exactly when it is stored and its timestamp is at least `now - 3600` |
| Anomaly.RecentMultiplicity | ip_tracking/ip_tracking/tasks.py:33-36 | each in-window record is returned as many times as it is stored, and no other record is returned |
| Anomaly.RecentConcat | ip_tracking/ip_tracking/tasks.py:36 | filtering a concatenation gives the concatenation of the filtered parts |
| Anomaly.RecentOfStale | ip_tracking/ip_tracking/tasks.py:33-36 | records that are all older than the window filter to nothing |
| Anomaly.StaleRecordsIgnored | ip_tracking/ip_tracking/tasks.py:33-36 | inserting older-than-window records anywhere in the log leaves the scan's result unchanged |
| Anomaly.CountPerIpFacts | ip_tracking/ip_tracking/tasks.py:39-41 | the counter's keys are exactly the addresses present, and each value is that address's number of records |
| Anomaly.OccurrencesPositive | ip_tracking/ip_tracking/tasks.py:41 | an address occurs in the records exactly when its count is positive |
| Anomaly.OccurrencesRecent | ip_tracking/ip_tracking/tasks.py:36-41 | counting the filtered records equals counting the in-window positions of the full log |
| Anomaly.CountIsWindowCount | ip_tracking/ip_tracking/tasks.py:39-41 | after the loop, an address is a key exactly when it has an in-window record, and its value is the number of such records |
| Anomaly.WindowIndicesSnoc | ip_tracking/ip_tracking/tasks.py:40-41 | one more record adds one to the in-window count of its address when it is in the window, and nothing otherwise |
| Anomaly.FirstAppearanceFacts | ip_tracking/ip_tracking/tasks.py:39-51 | the dictionary's iteration order has no repeats and holds exactly the counted addresses |
| Anomaly.GetOrCreateFacts | ip_tracking/ip_tracking/tasks.py:45-48 | get-or-create adds exactly the one flag, keeps the old store as a prefix, and never creates a duplicate |
| Anomaly.GetOrCreateAllFacts | ip_tracking/ip_tracking/tasks.py:45-56 | a series of get-or-creates yields the old flags plus the requested ones, keeps the old store as a prefix, keeps it duplicate-free, and changes nothing when every requested flag already exists |
| Anomaly.SensitiveCandidatesElems | ip_tracking/ip_tracking/tasks.py:44-48 | the first loop requests exactly one flag per record whose path is sensitive |
| Anomaly.RateCandidatesElems | ip_tracking/ip_tracking/tasks.py:51-56 | the second loop requests exactly one flag per visited address whose count is above 100, naming that count |
| Anomaly.RateCandidatesMatch | ip_tracking/ip_tracking/tasks.py:39-56 | the volume flags requested equal the reference set: one per in-window address whose in-window count exceeds 100 |
| Anomaly.ScanContents | ip_tracking/ip_tracking/tasks.py:30-56 | the store after a scan holds exactly the old flags, the expected sensitive-path flags and the expected volume flags |
| Anomaly.ScanKeepsStore | ip_tracking/ip_tracking/tasks.py:45-56 | the old store is a prefix of the store after a scan, and a duplicate-free store stays duplicate-free |
| Anomaly.SensitiveCandidatesMatch | ip_tracking/ip_tracking/tasks.py:36-48 | the sensitive-path flags requested equal the reference set: one per in-window record whose path is exactly `/admin` or `/login` |
| Anomaly.WindowIpOfPositiveCount | ip_tracking/ip_tracking/tasks.py:36-41 | an address with a positive in-window count has an in-window record |
| Anomaly.ScanDependsOnlyOnWindow | ip_tracking/ip_tracking/tasks.py:33-36 | two logs with the same in-window records give the same scan result |
| Anomaly.SensitiveFlagIff | ip_tracking/ip_tracking/tasks.py:44-48 | a sensitive-path flag for (address, path) is present after the scan exactly when it was present before, or the path is `/admin` or `/login` (exact match) and an in-window record has that address and path |
| Anomaly.RateFlagIff | ip_tracking/ip_tracking/tasks.py:51-56 | a volume flag naming count c is present after the scan exactly when it was present before, or c is the address's in-window count and c > 100 |
| Anomaly.BothFlagsForHeavySensitiveUser | ip_tracking/ip_tracking/tasks.py:44-56 | an address that hits a sensitive path and exceeds 100 requests gets both flags, and their reason texts differ |
| Anomaly.ScanIdempotent | ip_tracking/ip_tracking/tasks.py:45-56 | a second scan over the same records at the same time leaves the store exactly as the first scan left it |
| Anomaly.RepeatRecent | ip_tracking/ip_tracking/tasks.py:33-36 | n in-window copies of one record are all kept by the window filter |
| Anomaly.RepeatCounts | ip_tracking/ip_tracking/tasks.py:39-41 | n copies of one record are counted n times and listed under one key |
| Anomaly.UniformSensitivePhase | ip_tracking/ip_tracking/tasks.py:44-48 | n copies of a record give one sensitive-path flag if the path is sensitive and n > 0, and no flag otherwise |
| Anomaly.UniformRateCandidates | ip_tracking/ip_tracking/tasks.py:51-56 | n copies of a record give one volume flag naming n if n > 100, and none otherwise |
| Anomaly.UniformTraffic | ip_tracking/ip_tracking/tasks.py:30-56 | n in-window copies of one request give a sensitive-path flag if the path is sensitive, then a volume flag naming n if n > 100, and nothing else |
| Anomaly.ScenarioExcessiveRequests | ip_tracking/ip_tracking/tasks.py:51-56 | 101 requests from 1.2.3.4 to /home give exactly one flag, a volume flag naming 101 |
| Anomaly.ScenarioAtThreshold | ip_tracking/ip_tracking/tasks.py:52 | 100 such requests give no flag |
| Anomaly.ScenarioSensitivePath | ip_tracking/ip_tracking/tasks.py:44-48 | one request from 5.6.7.8 to /admin gives exactly one sensitive-path flag |
| Anomaly.ScenarioPathPrefixNotSensitive | ip_tracking/ip_tracking/tasks.py:28 | a request to /admin/users is not flagged, because matching is by exact membership |
| Anomaly.SensitivePathText | ip_tracking/ip_tracking/tasks.py:47 | the stored reason for a request to /admin is "Accessed sensitive path: /admin" |
| Anomaly.ExcessiveRequestsText | ip_tracking/ip_tracking/tasks.py:55 | the stored reason for 101 requests is "Excessive requests (101) in last hour" |
| Anomaly.CountStep | ip_tracking/ip_tracking/tasks.py:41 | one more record sets its address's counter to the old value plus one, starting from 0 when the address is not yet a key |
| Anomaly.KeyOrderStep | ip_tracking/ip_tracking/tasks.py:41-51 | one more record appends its address to the dictionary's key order exactly when the address was not yet counted |
| Anomaly.SensitiveStep | ip_tracking/ip_tracking/tasks.py:43-48 | one more record requests a flag exactly when its path is sensitive |
| Anomaly.RateStep | ip_tracking/ip_tracking/tasks.py:51-56 | one more visited address requests a flag naming its count exactly when that count is above 100 |
| Anomaly.CountingLoop | ip_tracking/ip_tracking/tasks.py:39-48 | the first loop leaves the counter, its key order and the flag store as the reference functions say |
| Anomaly.RateLoop | ip_tracking/ip_tracking/tasks.py:51-56 | the second loop get-or-creates exactly the volume flags, visiting addresses in key order |
| Anomaly.ScanLoops | ip_tracking/ip_tracking/tasks.py:30-56 | the loop version equals the functional scan. Its store holds the old flags plus the expected sensitive-path and volume flags |
| Middleware.Split | ip_tracking/ip_tracking/middleware.py:40 | splitting at commas gives at least one piece, no piece holds a comma, and rejoining with commas gives the header back |
| Middleware.SplitFirstIsPrefix | ip_tracking/ip_tracking/middleware.py:40 | the first piece is a prefix of the header, followed by a comma or by the end of the header |
| Middleware.FirstPieceUnique | ip_tracking/ip_tracking/middleware.py:40 | any comma-free prefix followed by a comma or by the end is the first piece |
| Middleware.ClientIp | ip_tracking/ip_tracking/middleware.py:36-43 | a non-empty forwarded header yields its untrimmed prefix before the first comma, which holds no comma. An absent or empty header yields the connection address |
| Middleware.Handle | ip_tracking/ip_tracking/middleware.py:14-34 | the decision is Deny exactly when the address is blocked, and then the log is unchanged. An allowed request with a successful write appends exactly (address, path, now). A failed write leaves the log unchanged. The blocklist is never modified |
| Middleware.PersistenceIsNotAGate | ip_tracking/ip_tracking/middleware.py:25-34 | the decision is the same whether the write succeeds or fails, and a failed write leaves the state untouched |
| Middleware.RunAppendsExpected | ip_tracking/ip_tracking/middleware.py:14-34 | over any sequence of requests, the blocklist is unchanged and the log becomes the old log plus one record per non-blocked request whose write succeeded, in order |
| Middleware.NoBlockedAddressLogged | ip_tracking/ip_tracking/middleware.py:20-27 | the blocklist check comes before the write, so a run never logs a record from a blocked address |
| Middleware.ExpectedRecordsNotBlocked | ip_tracking/ip_tracking/middleware.py:20-27 | no expected record carries a blocked address |
| Middleware.ForwardedListExample | ip_tracking/ip_tracking/middleware.py:40 | header "a, b, c" gives address "a" |
| Middleware.ForwardedNotTrimmedExample | ip_tracking/ip_tracking/middleware.py:40 | header " a ,b" gives " a ", with the whitespace kept |
| Middleware.EmptyForwardedExample | ip_tracking/ip_tracking/middleware.py:39-42 | an empty header falls back to the connection address |

## Left out

- Celery app and beat schedule (`tasks.py` lines 9-23): this is scheduler wiring. The scan is a function of `now`.
- Django ORM calls (`filter`, `exists`, `create`, `get_or_create`): these become sequences, sets and the append-if-absent function. The datastore is responsible for transactional and concurrent safety.
- Logger calls and their message texts: they are side effects with no behaviour.
- The `HttpResponseForbidden` body and the `get_response` call: they appear only as `Deny` and `Allow`.
- `views.py`: its login and rate-limit decorators wrap libraries outside this model and have no logic of their own.
- Geolocation lookup and its 24-hour cache: the middleware has no code for them.
- Real clock and time zones: timestamps are integer seconds, and `now` is a parameter.
- Why a log write fails: the model only takes a boolean saying whether it fails.
- `REMOTE_ADDR` missing from `request.META` (Python `None`): the connection address is always a string here.
- The middleware writes `RequestLog` and the scan reads `IPLog`. The source keeps these as two models. Both use the same record shape here, and no lemma links them.
- Scan failures and their reporting to the scheduler: the model treats the store operations as total.
- Middleware.Handle — the blocklist lookup is treated as total: in the source it sits outside the `try`, so a failing `BlockedIP` query raises out of `__call__` with neither a forbidden response nor a call to `get_response`, and the model has no outcome for that.
- Anomaly.ReasonTextInjective — flag reasons are only the two generated kinds: a `SuspiciousIP` row with any other reason text (one entered by hand, say) cannot be part of the existing store, so keying by `Reason` matches keying by the text only over those two kinds.
