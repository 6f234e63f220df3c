/** The watcher's one piece of owned state: the backing store (through its
    client) and the error log, both guarded by the single process-wide lock.
    Because every operation holds that lock for its whole critical section,
    each is modelled as one atomic transition on a `State`. */
module Service {
  import opened Values
  import opened EventStore

  /** The bucket that buffers commits until they are synced. */
  const CommitBucket: BucketId := "git-commits-bucket"

  /** Why an error-log entry was written. */
  datatype Cause =
    // ingestion path
    | NotAnObject                   // the request body is absent or not a JSON object
    | MissingField(name: string)    // a required commit field is missing
    | SnapshotFailed                // reading the other watchers' buckets raised
    | BadTimestamp                  // the timestamp could not be turned into an instant
    | InsertFailed                  // the store refused or failed the insert
    // sync path
    | SendRejected(status: int)     // the remote answered with a status other than 200
    | RequestFailed                 // the request to the remote raised
    | DeleteFailed(id: EventId)     // deleting an acknowledged event raised

  predicate IsIngestCause(c: Cause)
  {
    c.NotAnObject? || c.MissingField? || c.SnapshotFailed? || c.BadTimestamp? || c.InsertFailed?
  }

  /** One line of the error log: a message and the location tag the code
      attaches to it. */
  datatype LogEntry = LogEntry(cause: Cause, tag: nat)

  /** The location tags the handlers pass along with each message. */
  const IngestTag: nat := 55
  const DeleteTag: nat := 81
  const StatusTag: nat := 83
  const RequestTag: nat := 85

  datatype State = State(store: Store, log: seq<LogEntry>)

  /** The events buffered for sync. */
  function Buffer(st: State): seq<Event>
  {
    Events(st.store, CommitBucket)
  }

  /** The invariant every reachable state keeps. */
  predicate Valid(st: State)
  {
    WellFormed(st.store) && CommitBucket in st.store.buckets
  }

  /** Process start: make sure the commit bucket exists (keeping whatever an
      earlier run left buffered in it); the log starts empty. */
  function Startup(store: Store): (st: State)
    ensures CommitBucket in st.store.buckets
    ensures Buffer(st) == Events(store, CommitBucket)
    ensures forall b :: b in store.buckets ==> b in st.store.buckets && st.store.buckets[b] == store.buckets[b]
    ensures st.log == []
    ensures WellFormed(store) ==> Valid(st)
  {
    State(CreateBucket(store, CommitBucket), [])
  }
}
