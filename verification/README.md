# Memmy notifications service: polling scheduler model

This Dafny project models the two pieces of decision logic in the Memmy push
notification service.

- **Pool supervisor** (`src/index.ts`, `setupWorkers`). For every row
  `(instance, cnt)` of the grouped account count, it computes the polling
  interval with the step function `11 - ceil(cnt / 10)`. It floors that at
  `MIN_INTERVAL`. It then creates or replaces the instance's worker only when
  there is none, or when the new interval is strictly faster.
- **Per-instance worker** (`src/worker/Worker.ts`). It keeps a buffer of due
  accounts and refills it only when it is empty. It pops the buffer from the
  end, so the account checked longest ago is polled first. Each poll step
  stamps the check time, fetches the latest reply, suppresses a reply already
  notified, emits at most one push dispatch to all of the account's device
  tokens, and advances the account's last notified identifier.

Intervals are integers counting tenths of a second. The workers map is a
`map<string, int>` from instance to the interval of its worker. The store is a
`seq<Account>`. Its due-accounts query is a filter followed by a sort, newest
check first. The latest-reply fetch is a function parameter `fetch(instance,
authToken)`. A failed fetch returns `None`, the same as "no reply". Saving
returns the updated record, and a push send is an emitted `Dispatch` value.
The clock (`now`, `time`, and `times` with one reading per poll tick),
`CHECK_INTERVAL` and `MIN_INTERVAL` are parameters.

Files:

- `entities.dfy`: module `Entities`. Holds `Option`, `Account`, `Token` and
  `Reply`, mirroring the fields of `src/entity/*.ts` and the reply summary.
- `supervisor.dfy`: module `Supervisor`. Holds the step function, the floor,
  the replace-or-keep decision, one row step, and the whole run as a fold over
  the rows, both as intended and as the code is written.
- `account_query.dfy`: module `AccountQuery`. Holds the refill query: the due
  filter and a stable insertion sort on `lastCheck`, descending.
- `worker.dfy`: module `Workers`. Holds the worker state, the refill guard,
  pop, the poll step, the notification text and token list, one tick, and
  draining the buffer.

The query orders by `lastCheck` descending (Worker.ts:44) and `getNext` pops
from the end (Worker.ts:117), so the account checked longest ago is polled
first (`GetNextOldest`, `DrainBuffer`).

The supervisor is modelled twice. `Supervisor.Pass` is the intended run, in
which a faster worker replaces the existing one. `Supervisor.PassAsWritten` is
the run as the code is written, in which that replacement throws (see
Findings). `Pass` is the one the rest of the model states its properties about.

## Model

| member | source | states |
|---|---|---|
| Supervisor.CeilTenth | src/index.ts:76 | `Math.ceil(cnt / 10)` is the least `k` with `cnt <= 10k` |
| Supervisor.NeededInterval | src/index.ts:76 | the needed interval in tenths is `11 - ceil(cnt/10)`, characterised by `cnt <= 10*(11 - r) < cnt + 10` |
| Supervisor.NeededIntervalTable | src/index.ts:76 | boundary values: cnt 1 and 10 give 10 tenths, 11 gives 9, 25 gives 8, 100 gives 1, 101 gives 0, 111 gives -1 |
| Supervisor.NeededIntervalMonotone | src/index.ts:76 | the needed interval never grows as the account count grows |
| Supervisor.AllowedInterval | src/index.ts:78 | the allowed interval is the larger of the needed interval and `MIN_INTERVAL`: at least both, and equal to one of them |
| Supervisor.AllowedIntervalMonotone | src/index.ts:76-78 | the floored interval also never grows as the account count grows |
| Supervisor.Decide | src/index.ts:83-91 | a worker is (re)created iff there is none for the instance or the allowed interval is strictly less than the current one, and the new worker gets the allowed interval |
| Supervisor.Step | src/index.ts:72-97 | after one row, the instance has an entry, no other entry changes, the entry is at most its previous value (never slowed down) and at most the allowed interval, and the map is unchanged when the allowed interval is not faster |
| Supervisor.Pass | src/index.ts:72-97 | after a full run every row's instance has an entry, instances absent from the rows keep their entries, no entry grows, and each row's instance ends at or below its allowed interval |
| Supervisor.PassSettles | src/index.ts:72-97 | over distinct rows, each row's instance ends exactly at the faster of its previous interval and its allowed interval (the allowed one when it had no worker) |
| Supervisor.PassAt | src/index.ts:72-97 | the same settled value, stated per instance through the row that names it |
| Supervisor.PassMatchesSpec | src/index.ts:72-97 | over distinct rows, a run equals an independent map-comprehension description of its outcome |
| Supervisor.PassIdempotent | src/index.ts:72-97 | repeating a run over the same distinct rows changes nothing more |
| Supervisor.StepAsWritten | src/index.ts:81-95 | as written, one row throws exactly when the instance already has a worker and the allowed interval is strictly faster, and then leaves the map as it was; otherwise it does what `Step` does and keeps every existing entry |
| Supervisor.PassAsWritten | src/index.ts:72-97 | as written, a run never changes an existing worker's interval and only adds entries for listed instances; if it completes, it equals the intended run `Pass`; if it throws, it throws at a listed row whose instance has a slower worker |
| Supervisor.AsWrittenCompletesIff | src/index.ts:72-97 | over distinct rows, the run as written completes exactly when the intended run would leave every existing worker's interval unchanged |
| Supervisor.AsWrittenSkipsLaterRows | src/index.ts:81-95 | on workers `{x.example: 10}`, rows `(x.example, 25)` then `(y.example, 5)` and a floor of 1, the run as written throws at the first row with the map unchanged, while the intended run gives `{x.example: 8, y.example: 10}` |
| Supervisor.EndToEnd | src/index.ts:76-91 | with 25 accounts and a floor of 1 tenth, a worker at 10 tenths is replaced by one at 8, and one at 5 tenths is kept; counts of 101 and 500 are clamped to the floor |
| AccountQuery.Filter | src/worker/Worker.ts:38-42 | the result holds exactly the store's accounts of this instance with `lastCheck <= threshold`, each with its multiplicity |
| AccountQuery.InsertDesc | src/worker/Worker.ts:43-45 | inserting into a descending sequence keeps it descending and adds exactly the one account |
| AccountQuery.SortDesc | src/worker/Worker.ts:43-45 | the result is ordered by `lastCheck` descending and is a permutation of the input |
| AccountQuery.FindDue | src/worker/Worker.ts:36-47 | the query result is sorted descending and is exactly the due accounts of the instance, as a multiset |
| Workers.LoadAccounts | src/worker/Worker.ts:25-48 | with accounts still buffered the worker is unchanged; otherwise the buffer becomes exactly the instance's accounts with `lastCheck <= time - CHECK_INTERVAL`, sorted descending |
| Workers.GetNext | src/worker/Worker.ts:112-120 | an absent or empty buffer gives none and stays unchanged; otherwise the popped account is the last one and the remaining buffer is the unchanged prefix |
| Workers.GetNextOldest | src/worker/Worker.ts:112-120 | on a buffer sorted descending, the popped account has the oldest `lastCheck` in the buffer |
| Workers.Alert | src/worker/Worker.ts:90 | the alert text splits into the sender name, `" said: "` and the reply content |
| Workers.TokenValues | src/worker/Worker.ts:100 | the dispatch targets are the accounts' token strings, one per token, in order |
| Workers.SendNotification | src/worker/Worker.ts:82-110 | the notification carries the alert text, badge 1, sound `ping.aiff`, topic `com.gkasdorf.memmyapp` and the reply as payload, and goes to every token string of the account in order |
| Workers.Work | src/worker/Worker.ts:50-80 | the saved account always has `lastCheck = now` and no other field changes except `lastNotifiedId`; there is a dispatch iff the reply exists and its `commentId` differs from `lastNotifiedId`; with no dispatch `lastNotifiedId` is kept; with one it becomes `commentId` and the dispatch is the reply sent to the account's tokens |
| Workers.Tick | src/worker/Worker.ts:50-59 | a tick is idle iff nothing is buffered, and then changes nothing; otherwise it pops the last buffered account and runs the poll step on it |
| Workers.SentNoneIff | src/worker/Worker.ts:68-79 | a sequence of poll steps sends nothing exactly when none of its steps dispatches |
| Workers.DrainBuffer | src/worker/Worker.ts:50-140 | repeated ticks, each with its own clock reading, poll exactly the buffered accounts, last first (the reverse of the buffer), and leave the buffer empty; the `i`-th outcome is the poll step on the `i`-th polled account at the `i`-th clock reading, and the dispatches sent are exactly those outcomes' dispatches, in order |
| Workers.ReverseDescAsc | src/worker/Worker.ts:112-120 | the reverse of a buffer ordered by `lastCheck` descending, which is the order a drain polls it in, is ordered by `lastCheck` ascending |
| Workers.NotifiedIdFollowsDispatch | src/worker/Worker.ts:68-79 | `lastNotifiedId` changes only to the comment id of the reply just dispatched |
| Workers.DedupIdempotent | src/worker/Worker.ts:68-79 | polling the same account twice against an unchanged latest reply dispatches at most once |
| Workers.FetchFailureIsolated | src/worker/Worker.ts:61-70 | a failed or empty fetch still stamps and saves the account without a dispatch, and the next tick polls the next buffered account |
| Workers.StampedNotDue | src/worker/Worker.ts:41-62 | because the check time is stamped before the fetch, with a positive check interval the saved account is not due at the same moment |
| Workers.LoadedNeverRewound | src/worker/Worker.ts:34-62 | an account from a refill at `time` holds `lastCheck <= time - CHECK_INTERVAL`, so a poll step at a clock reading no earlier than `time` moves its `lastCheck` forward by at least `CHECK_INTERVAL`, and never back |

## Left out

- Database access (`src/data-source.ts`, TypeORM `find`, `save`, the query builder). The store is a sequence and `save` returns the updated record. The grouped count query is an input sequence of rows.
- Ties in `ORDER BY lastCheck DESC`. The database leaves their order open; the model fixes one (a stable insertion sort).
- The `cnt` column arrives from the raw query as the database returns it. The model takes a natural number.
- Timers (`setInterval` in `initialize`, `startFetching`, `startWorking`), the 60-second refill cadence, overlapping ticks and fire-and-forget `void` calls. Only single, sequential steps are modelled. `DrainBuffer` is the sequence of poll ticks with no refill in between. Refill cannot change a non-empty buffer in any case (`LoadAccounts`).
- Worker teardown. What `quit` would stop (the replaced worker's timers) is not modelled. `Pass` models replacement as the map update alone. The code as written, which throws at that call, is `PassAsWritten` (see Findings). Instances that vanish from the count keep their map entries, as in the code.
- Floating point. The source computes `(11 - ceil(cnt/10)) * 0.1` seconds in binary floating point (`9 * 0.1` is `0.9000000000000001`). The model counts integer tenths, and `MIN_INTERVAL` is in tenths too, so a floor that is not a whole number of tenths (0.25 s) cannot be expressed. Rounding can also change a comparison: with `MIN_INTERVAL` 0.3 the code replaces a worker running at `3 * 0.1` (`0.30000000000000004`) by one at `0.3`, while the model sees equal intervals and keeps it. A non-numeric `MIN_INTERVAL` (a NaN from `Number(...)`) is not modelled.
- Units of time. `Date.now()` and `CHECK_INTERVAL * 1000` are milliseconds in the source. The model takes `time`, `now` and `checkInterval` as integers in one common unit.
- The push provider (`apnProvider.send` and its promise callbacks, Worker.ts:97-109). A dispatch is an emitted value. The notification `expiry` depends on the wall clock and is omitted.
- `getLastReply` (src/lemmy/getNotifications.ts) is the abstract `fetch` parameter. Its catch branch returns `null`, so a failed fetch and "no reply" are the same `None`.
- Logging (`log`, `debug`, `console.log`), process bootstrap, environment parsing and APN provider initialisation.
- The `Token.account` back-reference and the entity decorators. Only the entity fields are mirrored.

## Findings

| source | as written | input that shows it | evidently intended | confidence | as-written member | corrected member |
|---|---|---|---|---|---|---|
| src/index.ts:83-91 | replacing an existing worker first calls `currentInstance?.quit()`, a method the `Worker` class (src/worker/Worker.ts) does not define; the TypeError leaves the `forEach`, so the worker is not replaced and later rows are not handled, and `setupWorkers` is started with `void` (src/index.ts:48, 52), so the rejection goes unhandled | workers `{x.example: 10 tenths}`, rows `(x.example, 25)` then `(y.example, 5)`, `MIN_INTERVAL` 1 tenth: `x.example` stays at 10 tenths and `y.example` gets no worker | `x.example` is replaced by a worker at 8 tenths and `y.example` gets one at 10 tenths | not executed; medium: src/types/WorkerList.ts is not part of this model, and if it types the entries as `Worker` a type-checked build rejects the call instead, so this holds for a build that skips type checking | Supervisor.PassAsWritten, Supervisor.AsWrittenSkipsLaterRows | Supervisor.Pass |
