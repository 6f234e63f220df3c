/** The background sync: list the buffered commits, post them as one batch to
    the remote, and once the remote acknowledges with status 200 delete exactly
    the events that were listed. Any failure is logged once and leaves the
    remaining events buffered for the next round (at-least-once delivery). */
module Sync {
  import opened Values
  import opened EventStore
  import opened Service

  /** What `post` returned: a status code, or an exception from the request. */
  datatype PostResult = Responded(status: int) | RequestException

  /** Everything the outside world decides during one flush: the outcome of
      the post and, optionally, the position in the listing at which deleting
      an acknowledged event raises. */
  datatype Remote = Remote(post: PostResult, deleteFault: Option<nat>)

  /** The only status that counts as delivery. */
  const Delivered: int := 200

  predicate Acknowledged(remote: Remote)
  {
    remote.post == Responded(Delivered)
  }

  /** Acknowledged, and every delete succeeds. */
  predicate Clean(remote: Remote)
  {
    Acknowledged(remote) && remote.deleteFault.None?
  }

  /** How many of `n` listed events an acknowledged flush deletes: all of them,
      or those before the one whose deletion raises. */
  function DeletedCount(remote: Remote, n: nat): (k: nat)
    ensures k <= n
    ensures k < n <==> remote.deleteFault.Some? && remote.deleteFault.value < n
    ensures k < n ==> k == remote.deleteFault.value
  {
    match remote.deleteFault
    case Some(k) => if k < n then k else n
    case None => n
  }

  datatype FlushOutcome = FlushOutcome(state: State, posted: Option<seq<Event>>)

  /** One sync round, under the lock. `posted` is the batch handed to the
      remote, if any. */
  function Flush(st: State, remote: Remote): (r: FlushOutcome)
    ensures OnlyBucketChanged(st.store, r.state.store, CommitBucket)
    // a batch is posted exactly when something is buffered, and it is the whole buffer
    ensures r.posted.Some? <==> Buffer(st) != []
    ensures r.posted.Some? ==> r.posted.value == Buffer(st)
    ensures Buffer(st) == [] ==> r.state == st
    // nothing is deleted without an acknowledgement
    ensures !Acknowledged(remote) ==> r.state.store == st.store
    // only listed events are deleted, and after an acknowledgement exactly the listed prefix
    ensures forall e :: e in Buffer(r.state) ==> e in Buffer(st)
    ensures Acknowledged(remote) ==>
      var k := DeletedCount(remote, |Buffer(st)|);
      forall e :: e in Buffer(r.state) <==> e in Buffer(st) && e.id !in IdsOf(Buffer(st))[..k]
    ensures Clean(remote) ==> Buffer(r.state) == []
    // the log gains at most one entry, and which one
    ensures |st.log| <= |r.state.log| <= |st.log| + 1 && r.state.log[..|st.log|] == st.log
    ensures Buffer(st) != [] && remote.post == RequestException ==>
      r.state.log == st.log + [LogEntry(RequestFailed, RequestTag)]
    ensures Buffer(st) != [] && remote.post.Responded? && remote.post.status != Delivered ==>
      r.state.log == st.log + [LogEntry(SendRejected(remote.post.status), StatusTag)]
    ensures Buffer(st) != [] && Acknowledged(remote) ==>
      var k := DeletedCount(remote, |Buffer(st)|);
      r.state.log == if k < |Buffer(st)| then st.log + [LogEntry(DeleteFailed(Buffer(st)[k].id), DeleteTag)] else st.log
  {
    var events := Buffer(st);
    if events == [] then FlushOutcome(st, None)
    else
      var ids := IdsOf(events);
      match remote.post
      case RequestException =>
        FlushOutcome(State(st.store, st.log + [LogEntry(RequestFailed, RequestTag)]), Some(events))
      case Responded(status) =>
        if status == Delivered then
          var k := DeletedCount(remote, |ids|);
          var store' := DeleteAll(st.store, CommitBucket, ids[..k]);
          assert k == |ids| ==> forall e :: e in events ==> e.id in ids[..k] by {
            if k == |ids| {
              forall e | e in events
                ensures e.id in ids[..k]
              {
                var i :| 0 <= i < |events| && events[i] == e;
                assert ids[..k][i] == e.id;
              }
            }
          }
          if k < |ids| then
            FlushOutcome(State(store', st.log + [LogEntry(DeleteFailed(ids[k]), DeleteTag)]), Some(events))
          else
            NothingLeft(Events(store', CommitBucket), events, ids[..k]);
            FlushOutcome(State(store', st.log), Some(events))
        else
          FlushOutcome(State(st.store, st.log + [LogEntry(SendRejected(status), StatusTag)]), Some(events))
  }

  lemma FlushKeepsValid(st: State, remote: Remote)
    requires Valid(st)
    ensures Valid(Flush(st, remote).state)
  {
    var events := Buffer(st);
    if events != [] && Acknowledged(remote) {
      DeleteAllWellFormed(st.store, CommitBucket, IdsOf(events)[..DeletedCount(remote, |events|)]);
    }
  }

  /** After an acknowledgement the buffer is exactly the part of the listing
      whose deletion was not reached, and the next round posts exactly that
      part again: a failed delete causes a re-send, never a loss. */
  lemma AcknowledgedFlushLeavesSuffix(st: State, remote: Remote, next: Remote)
    requires Valid(st)
    requires Acknowledged(remote)
    ensures
      var k := DeletedCount(remote, |Buffer(st)|);
      var r := Flush(st, remote);
      && Buffer(r.state) == Buffer(st)[k..]
      && Flush(r.state, next).posted == (if k < |Buffer(st)| then Some(Buffer(st)[k..]) else None)
  {
    var events := Buffer(st);
    if events != [] {
      var k := DeletedCount(remote, |events|);
      var ids := IdsOf(events);
      assert ids[..k] == IdsOf(events[..k]);
      DeleteListedPrefix(st.store, CommitBucket, ids[..k]);
    }
  }

  /** Whatever the remote does, a round keeps the state valid and leaves a
      suffix of the buffer, `k` events having been removed from its front. */
  lemma FlushLeavesSuffix(st: State, remote: Remote) returns (k: nat)
    requires Valid(st)
    ensures Valid(Flush(st, remote).state)
    ensures k <= |Buffer(st)| && Buffer(Flush(st, remote).state) == Buffer(st)[k..]
  {
    FlushKeepsValid(st, remote);
    if Acknowledged(remote) {
      AcknowledgedFlushLeavesSuffix(st, remote, remote);
      k := DeletedCount(remote, |Buffer(st)|);
    } else {
      k := 0;
      assert Buffer(st) == Buffer(st)[0..];
    }
  }

  /** The scheduler: one flush per remote outcome, in order. */
  function RunSync(st: State, remotes: seq<Remote>): (r: State)
    ensures OnlyBucketChanged(st.store, r.store, CommitBucket)
    ensures forall e :: e in Buffer(r) ==> e in Buffer(st)
    ensures |st.log| <= |r.log| <= |st.log| + |remotes| && r.log[..|st.log|] == st.log
    decreases |remotes|
  {
    if remotes == [] then st else RunSync(Flush(st, remotes[0]).state, remotes[1..])
  }

  /** If the remote never acknowledges, any number of rounds keeps every
      buffered event, and each round with something buffered logs exactly once. */
  lemma {:induction false} UnacknowledgedRoundsLoseNothing(st: State, remotes: seq<Remote>)
    requires forall i :: 0 <= i < |remotes| ==> !Acknowledged(remotes[i])
    ensures RunSync(st, remotes).store == st.store
    ensures |RunSync(st, remotes).log| == |st.log| + (if Buffer(st) == [] then 0 else |remotes|)
    decreases |remotes|
  {
    if remotes != [] {
      UnacknowledgedRoundsLoseNothing(Flush(st, remotes[0]).state, remotes[1..]);
    }
  }

  /** Under repeated rounds the buffer only ever loses a prefix of its
      listing: the newest events leave first and the rest stay in order. */
  lemma {:induction false} RunSyncLeavesSuffix(st: State, remotes: seq<Remote>)
    requires Valid(st)
    ensures Valid(RunSync(st, remotes))
    ensures exists k :: 0 <= k <= |Buffer(st)| && Buffer(RunSync(st, remotes)) == Buffer(st)[k..]
    decreases |remotes|
  {
    if remotes == [] {
      assert Buffer(st) == Buffer(st)[0..];
    } else {
      var mid := Flush(st, remotes[0]).state;
      var k1 := FlushLeavesSuffix(st, remotes[0]);
      RunSyncLeavesSuffix(mid, remotes[1..]);
      var k2 :| 0 <= k2 <= |Buffer(mid)| && Buffer(RunSync(mid, remotes[1..])) == Buffer(mid)[k2..];
      assert Buffer(st)[k1..][k2..] == Buffer(st)[k1 + k2..];
    }
  }

  /** One clean round anywhere in the schedule drains the buffer for good,
      since the scheduler alone adds nothing. */
  lemma {:induction false} CleanRoundDrains(st: State, remotes: seq<Remote>, i: nat)
    requires i < |remotes|
    requires Clean(remotes[i])
    ensures Buffer(RunSync(st, remotes)) == []
    decreases |remotes|
  {
    var mid := Flush(st, remotes[0]).state;
    if i == 0 {
      assert Buffer(mid) == [];
      EmptyStaysEmpty(mid, remotes[1..]);
    } else {
      CleanRoundDrains(mid, remotes[1..], i - 1);
    }
  }

  lemma EmptyStaysEmpty(st: State, remotes: seq<Remote>)
    requires Buffer(st) == []
    ensures Buffer(RunSync(st, remotes)) == []
  {
  }

  /** A listing all of whose events were among those deleted is empty. */
  lemma NothingLeft(rest: seq<Event>, events: seq<Event>, deleted: seq<EventId>)
    requires forall e :: e in rest ==> e in events && e.id !in deleted
    requires forall e :: e in events ==> e.id in deleted
    ensures rest == []
  {
    if rest != [] {
      HeadIsMember(rest);
      assert false;
    }
  }

  lemma HeadIsMember(s: seq<Event>)
    ensures s != [] ==> s[0] in s
  {
  }
}
