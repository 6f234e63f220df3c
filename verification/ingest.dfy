/** The commit endpoint: take the four commit fields from the request body,
    attach the snapshot of the other watchers, and append the composite record
    to the commit bucket. Any failure on the way is logged and answered with a
    generic internal-error reply, and nothing is appended. */
module Ingest {
  import opened Values
  import opened EventStore
  import opened Service
  import opened DefaultWatchers

  /** The fields a commit notification must carry, in the order they are read. */
  const RequiredFields: seq<string> := ["commit_hash", "commit_message", "author", "timestamp"]

  /** The reply sent back to the client: a status code and a JSON object of strings. */
  datatype Reply = Reply(status: int, body: map<string, string>)

  const SuccessReply: Reply := Reply(200, map["status" := "success"])
  const InternalErrorReply: Reply := Reply(500, map["status" := "error", "message" := "Internal server error"])

  /** What the backing store does to this request: nothing unusual, or an
      exception while reading the snapshot, or while inserting the record. */
  datatype Fault = NoFault | SnapshotRaises | InsertRaises

  /** The commit as the client sent it; the values are kept as given. */
  datatype CommitFields = CommitFields(commitHash: Json, commitMessage: Json, author: Json, timestamp: Json)

  /** The body is a JSON object carrying every required field. */
  predicate HasAllFields(body: Option<Json>)
  {
    && body.Some? && body.value.JObj?
    && "commit_hash" in body.value.fields
    && "commit_message" in body.value.fields
    && "author" in body.value.fields
    && "timestamp" in body.value.fields
  }

  /** Read the four fields, in order, failing on the first one that is missing. */
  function ExtractFields(body: Option<Json>): (r: Result<CommitFields, Cause>)
    ensures r.Success? <==> HasAllFields(body)
    ensures r.Success? ==>
      var f := body.value.fields;
      r.value == CommitFields(f["commit_hash"], f["commit_message"], f["author"], f["timestamp"])
    ensures !(body.Some? && body.value.JObj?) ==> r == Failure(NotAnObject)
    ensures body.Some? && body.value.JObj? && r.Failure? ==>
      exists i :: 0 <= i < |RequiredFields| && r.error == MissingField(RequiredFields[i])
        && RequiredFields[i] !in body.value.fields
        && forall j :: 0 <= j < i ==> RequiredFields[j] in body.value.fields
  {
    match body
    case Some(JObj(f)) =>
      if "commit_hash" !in f then
        assert RequiredFields[0] == "commit_hash";
        Failure(MissingField("commit_hash"))
      else if "commit_message" !in f then
        assert RequiredFields[1] == "commit_message";
        Failure(MissingField("commit_message"))
      else if "author" !in f then
        assert RequiredFields[2] == "author";
        Failure(MissingField("author"))
      else if "timestamp" !in f then
        assert RequiredFields[3] == "timestamp";
        Failure(MissingField("timestamp"))
      else Success(CommitFields(f["commit_hash"], f["commit_message"], f["author"], f["timestamp"]))
    case _ => Failure(NotAnObject)
  }

  /** The composite record stored for a commit: the commit itself under
      "git_commit" and the snapshot under "default_data". */
  function CommitRecord(c: CommitFields, snapshot: map<BucketId, Json>): (data: Json)
    ensures data.JObj? && data.fields.Keys == {"git_commit", "default_data"}
    ensures data.fields["git_commit"].JObj?
    ensures data.fields["git_commit"].fields.Keys == {"commit_hash", "commit_message", "author", "timestamp"}
    ensures CommitOf(data) == Some(c)
    ensures DefaultDataOf(data) == Some(snapshot)
  {
    JObj(map[
      "git_commit" := JObj(map[
        "commit_hash" := c.commitHash,
        "commit_message" := c.commitMessage,
        "author" := c.author,
        "timestamp" := c.timestamp]),
      "default_data" := JObj(snapshot)])
  }

  /** Read the commit back out of a stored record, as the receiving side would. */
  function CommitOf(data: Json): Option<CommitFields>
  {
    if data.JObj? && "git_commit" in data.fields && data.fields["git_commit"].JObj? then
      var g := data.fields["git_commit"].fields;
      if "commit_hash" in g && "commit_message" in g && "author" in g && "timestamp" in g then
        Some(CommitFields(g["commit_hash"], g["commit_message"], g["author"], g["timestamp"]))
      else None
    else None
  }

  /** Read the snapshot back out of a stored record. */
  function DefaultDataOf(data: Json): Option<map<BucketId, Json>>
  {
    if data.JObj? && "default_data" in data.fields && data.fields["default_data"].JObj? then
      Some(data.fields["default_data"].fields)
    else None
  }

  /** Everything the handler does inside its try block: the new store, or the
      cause of the first failure. `toIso` stands for turning the client's
      timestamp into ISO-8601 text; `None` means that conversion raises. */
  function Attempt(s: Store, body: Option<Json>, toIso: Json -> Option<string>, fault: Fault): Result<Store, Cause>
  {
    match ExtractFields(body)
    case Failure(cause) => Failure(cause)
    case Success(c) =>
      if fault == SnapshotRaises then Failure(SnapshotFailed)
      else
        var data := CommitRecord(c, Snapshot(s));
        match toIso(c.timestamp)
        case None => Failure(BadTimestamp)
        case Some(iso) =>
          if fault == InsertRaises then Failure(InsertFailed)
          else
            match Insert(s, CommitBucket, iso, 0, data)
            case None => Failure(InsertFailed)
            case Some(s') => Success(s')
  }

  /** When a commit notification is accepted. */
  predicate Accepted(st: State, body: Option<Json>, toIso: Json -> Option<string>, fault: Fault)
  {
    && HasAllFields(body)
    && fault == NoFault
    && toIso(body.value.fields["timestamp"]).Some?
    && CommitBucket in st.store.buckets
  }

  datatype IngestOutcome = IngestOutcome(state: State, reply: Reply)

  /** Handle one commit notification. */
  function Receive(st: State, body: Option<Json>, toIso: Json -> Option<string>, fault: Fault): (r: IngestOutcome)
    ensures r.reply == SuccessReply || r.reply == InternalErrorReply
    ensures r.reply == SuccessReply <==> Accepted(st, body, toIso, fault)
    // accepted: exactly one event appended to the buffer, everything else unchanged
    ensures r.reply == SuccessReply ==>
      && |Buffer(r.state)| == |Buffer(st)| + 1
      && Buffer(r.state)[1..] == Buffer(st)
      && var e := Buffer(r.state)[0];
      && var f := body.value.fields;
      && var c := CommitFields(f["commit_hash"], f["commit_message"], f["author"], f["timestamp"]);
      && e.id == st.store.nextId
      && e.duration == 0
      && Some(e.timestamp) == toIso(f["timestamp"])
      && e.data == CommitRecord(c, Snapshot(st.store))
      && CommitOf(e.data) == Some(c)
      && DefaultDataOf(e.data) == Some(Snapshot(st.store))
    ensures r.reply == SuccessReply ==>
      && r.state.log == st.log
      && r.state.store.buckets.Keys == st.store.buckets.Keys
      && forall b :: b in st.store.buckets && b != CommitBucket ==> r.state.store.buckets[b] == st.store.buckets[b]
    // refused: the store is untouched and exactly one ingestion error is logged
    ensures r.reply == InternalErrorReply ==>
      && r.state.store == st.store
      && |r.state.log| == |st.log| + 1
      && r.state.log[..|st.log|] == st.log
      && r.state.log[|st.log|].tag == IngestTag
      && IsIngestCause(r.state.log[|st.log|].cause)
    // which cause is logged: the first check that fails, in the handler's order
    ensures !HasAllFields(body) ==>
      r.state.log == st.log + [LogEntry(ExtractFields(body).error, IngestTag)]
    ensures HasAllFields(body) && fault == SnapshotRaises ==>
      r.state.log == st.log + [LogEntry(SnapshotFailed, IngestTag)]
    ensures HasAllFields(body) && fault != SnapshotRaises && toIso(body.value.fields["timestamp"]).None? ==>
      r.state.log == st.log + [LogEntry(BadTimestamp, IngestTag)]
    ensures (&& HasAllFields(body) && fault != SnapshotRaises && toIso(body.value.fields["timestamp"]).Some?
             && (fault == InsertRaises || CommitBucket !in st.store.buckets)) ==>
      r.state.log == st.log + [LogEntry(InsertFailed, IngestTag)]
  {
    match Attempt(st.store, body, toIso, fault)
    case Success(s') => IngestOutcome(State(s', st.log), SuccessReply)
    case Failure(cause) => IngestOutcome(State(st.store, st.log + [LogEntry(cause, IngestTag)]), InternalErrorReply)
  }

  /** An accepted notification keeps the state valid; a refused one does too. */
  lemma ReceiveKeepsValid(st: State, body: Option<Json>, toIso: Json -> Option<string>, fault: Fault)
    requires Valid(st)
    ensures Valid(Receive(st, body, toIso, fault).state)
  {
    match Attempt(st.store, body, toIso, fault)
    case Failure(_) =>
    case Success(s') =>
      var c := ExtractFields(body).value;
      InsertWellFormed(st.store, CommitBucket, toIso(c.timestamp).value, 0, CommitRecord(c, Snapshot(st.store)));
  }

  /** Any object body that carries the hash and the message but no "author"
      is answered with the internal-error reply, not a validation error,
      nothing is buffered, and the missing field is what gets logged. */
  lemma MissingAuthorIsInternalError(st: State, fields: map<string, Json>, toIso: Json -> Option<string>, fault: Fault)
    requires "commit_hash" in fields && "commit_message" in fields && "author" !in fields
    ensures
      var r := Receive(st, Some(JObj(fields)), toIso, fault);
      && r.reply.status == 500
      && r.state.store == st.store
      && r.state.log == st.log + [LogEntry(MissingField("author"), IngestTag)]
  {
  }
}
