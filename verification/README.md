# custom-git-watcher: buffer-and-flush core in Dafny

The watcher receives git commit notifications over HTTP. For each one it
attaches a snapshot of the other activity watchers' latest data and buffers
the composite record in the `git-commits-bucket` bucket of an activity store.
A background loop periodically posts the whole buffer to a remote endpoint.
When the remote answers with status 200, the loop deletes exactly the events
it posted.

This project models that core as a sequential state machine. One process-wide
lock guards both the ingest handler's insert and the whole list-post-delete
sequence of a sync round, so each operation is one atomic transition on a
`State`. A `State` is the activity store plus the error log.

- `Values`: `Option`, `Result` and a JSON value type.
- `EventStore`: the activity store as the client sees it. Buckets hold ordered
  events. Each insert gets a fresh id. Deleting an id that is absent changes
  nothing.
- `Service`: the commit bucket name, the error-log entries with the location
  tags the code attaches (55, 81, 83, 85), `State`, its invariant, and
  start-up (which creates the commit bucket).
- `DefaultWatchers`: the snapshot of the other buckets (`query_default_watchers`).
- `Ingest`: the commit endpoint (`receive_git_commit`).
- `Sync`: one sync round (`sync_to_external_server`) and the scheduler
  (`run_sync`) as iterated rounds.
- `Watcher`: arbitrary interleavings of commits and sync rounds, and the
  no-silent-loss guarantee over them.

The outside world appears as inputs:

- The remote's answer is a `Remote` value: a status code or a request
  exception, plus an optional position at which deleting a listed event raises.
- Converting the client's timestamp to ISO-8601 text is a function parameter
  `toIso`. `None` stands for the conversion raising.
- Exceptions of the store client while reading the snapshot or inserting are a
  `Fault` input.

Behaviour of the code worth noting:

- A missing body or a missing field is answered with 500 "Internal server
  error", not with a 400 validation error. The lookup raises, and the generic
  handler catches it. `Ingest.MissingAuthorIsInternalError` pins this down.
- Only status exactly 200 counts as delivery, not every 2xx status.
- No timeout, backoff or graceful shutdown exists in the code, so none is
  modelled.

## Model

| member | source | states |
|---|---|---|
| EventStore.CreateBucket | custom-git-watcher.py:15 | creating the commit bucket at start-up keeps an existing bucket's events and every other bucket, and keeps the store well-formed |
| Service.Startup | custom-git-watcher.py:13-15 | after start-up the commit bucket exists and holds whatever was buffered before, the log is empty, and a well-formed store gives a valid state |
| EventStore.Insert | custom-git-watcher.py:50 | an insert adds exactly one event with the next fresh id as the newest of the bucket, heading its listing, and changes no other bucket; inserting into a missing bucket is refused |
| EventStore.InsertWellFormed | custom-git-watcher.py:50 | inserting under a fresh id keeps ids unique per bucket and below the next fresh id |
| EventStore.InsertThenDelete | custom-git-watcher.py:80 | deleting a freshly inserted event by its id restores the bucket exactly: insert and delete-by-id are inverse |
| EventStore.LatestAfterInsert | custom-git-watcher.py:64-66 | the latest event of a bucket is the one inserted into it last, and an insert into another bucket does not change it |
| EventStore.Delete | custom-git-watcher.py:80 | a delete removes exactly the events carrying that id from that bucket and nothing else; an absent id or bucket leaves the store unchanged |
| EventStore.DeleteAll | custom-git-watcher.py:79-80 | deleting a list of ids one by one leaves exactly the events whose id is not in the list, touching no other bucket |
| EventStore.DeleteListedPrefix | custom-git-watcher.py:74-80 | with unique ids, deleting the ids of the first k listed events, in order, leaves exactly the listing from position k on, in order |
| DefaultWatchers.QueryDefaultWatchers | custom-git-watcher.py:59-67 | the loop over the buckets yields a map that never has the commit bucket as a key, has a bucket as a key if and only if that bucket has an event, maps it to its newest event's data, and equals the whole-store definition |
| DefaultWatchers.Snapshot | custom-git-watcher.py:59-67 | the whole-store definition of the snapshot: the commit bucket is excluded, and exactly the non-empty other buckets map to their newest event's data |
| Ingest.ExtractFields | custom-git-watcher.py:30-34 | the four fields are read exactly when the body is an object carrying all of them; a non-object body fails as such, and otherwise the failure names the first missing field in reading order |
| Ingest.CommitRecord | custom-git-watcher.py:38-46 | the composite record gives back the commit unchanged under "git_commit" and the snapshot under "default_data" |
| Ingest.Receive | custom-git-watcher.py:28-57 | the reply is 200 success if and only if all four fields are present, the backend does not raise, the timestamp converts and the commit bucket exists; then exactly one event is appended with the fresh id, duration 0, the converted timestamp, the commit and the snapshot, and nothing else changes; otherwise the reply is 500 "Internal server error", the store is unchanged and exactly one ingestion error tagged 55 is logged |
| Ingest.ReceiveKeepsValid | custom-git-watcher.py:48-50 | handling a notification keeps the state valid |
| Ingest.MissingAuthorIsInternalError | custom-git-watcher.py:54-57 | a body without "author" gets status 500, buffers nothing and logs the missing field with tag 55 |
| Sync.Flush | custom-git-watcher.py:69-86 | a round posts a batch exactly when the buffer is non-empty, and that batch is the whole buffer; an empty buffer changes nothing and logs nothing; without status 200 nothing is deleted and exactly one entry (tag 83 with the status, or tag 85 for a request exception) is logged; with 200 exactly the listed events up to the first failing delete are removed, a failing delete logs one entry tagged 81, and other buckets are untouched |
| Sync.FlushKeepsValid | custom-git-watcher.py:69-86 | a sync round keeps the state valid |
| Sync.AcknowledgedFlushLeavesSuffix | custom-git-watcher.py:77-82 | after an acknowledged round the buffer is exactly the listing from the first failed delete on, and the next round posts exactly those events again |
| Sync.FlushLeavesSuffix | custom-git-watcher.py:69-86 | whatever the remote does, a round keeps the state valid and leaves a suffix of the buffer |
| Sync.RunSync | custom-git-watcher.py:88-91 | repeated rounds only remove buffered events, change no other bucket, and add at most one log entry per round |
| Sync.UnacknowledgedRoundsLoseNothing | custom-git-watcher.py:83-86 | when no round is acknowledged, the store is unchanged after any number of rounds and each round with a non-empty buffer logs exactly once |
| Sync.RunSyncLeavesSuffix | custom-git-watcher.py:88-91 | under repeated rounds the buffer only ever loses a prefix of itself and the state stays valid |
| Sync.CleanRoundDrains | custom-git-watcher.py:77-80 | one acknowledged round without a delete failure empties the buffer, and it stays empty for the rest of the schedule |
| Sync.EmptyStaysEmpty | custom-git-watcher.py:72 | rounds over an empty buffer keep it empty |
| Watcher.StepKeepsValid | custom-git-watcher.py:48-86 | every step, commit or sync round, keeps the state valid |
| Watcher.RunKeepsValid | custom-git-watcher.py:48-91 | any interleaving of steps keeps the state valid |
| Watcher.StepRemovesOnlyDelivered | custom-git-watcher.py:77-80 | a step removes a buffered event only if it is a sync round that posted the whole buffer and got status 200 |
| Watcher.LeavesOnlyByDelivery | custom-git-watcher.py:69-86 | in any interleaving, an event that leaves the buffer left it through a sync round that posted it and was acknowledged with 200 |
| Watcher.BufferedIsKeptOrDelivered | custom-git-watcher.py:69-86 | an event buffered at any point of an interleaving is still buffered at its end, or a later sync round posted it and was acknowledged with 200 |
| Watcher.AcceptedCommitIsKeptOrDelivered | custom-git-watcher.py:48-52 | an accepted notification appends exactly one event under the fresh id, and that event is still buffered at the end of any interleaving, or a later round posted it and was acknowledged |

## Left out

- HTTP routing, `request.json` parsing and `jsonify` are not modelled. The body is an optional JSON value and the reply is a status plus a string map. An unparsable body is `None`, which fails like a non-object body.
- The store client is not a network here. It is the abstract `EventStore`. Exceptions while reading the snapshot or inserting are the `Fault` input.
- An exception from listing the commit bucket at the start of a sync round is not modelled. In the code it is outside the `try` and ends the sync thread. A missing commit bucket lists as empty; no reachable state has one, because start-up creates it and nothing deletes buckets.
- The remote URL and `requests.post` are not modelled; only their outcome is, as the `Remote` input. Exceptions other than request exceptions are not modelled.
- Threads, the lock, the 1800-second sleep and the main keep-alive loop are not modelled. Locked sections are atomic steps. The snapshot is read outside the lock in the code; here it is read atomically with the insert, so a snapshot one write behind the store cannot occur here.
- The float conversion and ISO formatting of the timestamp are the `toIso` parameter (floating point and date library work).
- The error-log file is an append-only sequence. Message texts and tracebacks are abstracted to a `Cause`. The file-system behaviour is not modelled. Because the `~` in the log path is never expanded, creating the log directory raises on every call unless the working directory holds a directory named `~`; the first sync round that logs would then end the sync thread, and the ingest handler's 500 reply would come from the web framework instead. The model's logger always succeeds.
- `to_json_dict` serialisation is not modelled: the posted batch is the listed events themselves.
- The store lists each bucket newest first, as the real store does, so a sync round deletes the newest events first and a failing delete keeps the older ones. Newest here means inserted last; the real store orders by the events' timestamps, which is not modelled.
- JSON numbers are integers; fractional numbers are not modelled.
- The error log holds only the entries of this run (start-up gives an empty log). The real file is opened in append mode and keeps earlier runs' lines; every log property here is stated relative to the log before the operation.
