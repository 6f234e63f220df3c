/** The watcher as a whole: commit notifications and sync rounds interleaved
    in any order. The one lock serialises them, so a run is a sequence of
    atomic steps. */
module Watcher {
  import opened Values
  import opened EventStore
  import opened Service
  import opened Ingest
  import opened Sync

  /** One serialised step: a commit notification (with what the timestamp
      conversion and the backend do to it), or a sync round (with what the
      remote does). */
  datatype Op =
    | Commit(body: Option<Json>, toIso: Json -> Option<string>, fault: Fault)
    | Tick(remote: Remote)

  function Step(st: State, op: Op): State
  {
    match op
    case Commit(body, toIso, fault) => Receive(st, body, toIso, fault).state
    case Tick(remote) => Flush(st, remote).state
  }

  function Run(st: State, ops: seq<Op>): State
    decreases |ops|
  {
    if ops == [] then st else Run(Step(st, ops[0]), ops[1..])
  }

  lemma RunOne(st: State, ops: seq<Op>)
    requires ops != []
    ensures Run(st, ops[..1]) == Step(st, ops[0])
  {
    assert ops[..1][1..] == [];
  }

  /** Running two schedules back to back is running their concatenation. */
  lemma {:induction false} RunAppend(st: State, a: seq<Op>, b: seq<Op>)
    ensures Run(st, a + b) == Run(Run(st, a), b)
    decreases |a|
  {
    if a != [] {
      assert (a + b)[0] == a[0];
      assert (a + b)[1..] == a[1..] + b;
      RunAppend(Step(st, a[0]), a[1..], b);
    } else {
      assert a + b == b;
    }
  }

  lemma {:induction false} RunKeepsValid(st: State, ops: seq<Op>)
    requires Valid(st)
    ensures Valid(Run(st, ops))
    decreases |ops|
  {
    if ops != [] {
      StepKeepsValid(st, ops[0]);
      RunKeepsValid(Step(st, ops[0]), ops[1..]);
    }
  }

  lemma StepKeepsValid(st: State, op: Op)
    requires Valid(st)
    ensures Valid(Step(st, op))
  {
    match op
    case Commit(body, toIso, fault) => ReceiveKeepsValid(st, body, toIso, fault);
    case Tick(remote) => FlushKeepsValid(st, remote);
  }

  /** A step removes a buffered event only if it is a sync round that posted
      the whole buffer, the event included, and got status 200 back. */
  lemma StepRemovesOnlyDelivered(st: State, op: Op, e: Event)
    requires e in Buffer(st)
    requires e !in Buffer(Step(st, op))
    ensures op.Tick? && Acknowledged(op.remote)
    ensures Flush(st, op.remote).posted == Some(Buffer(st))
  {
  }

  /** `op`, applied to `pre`, is an acknowledged sync round whose posted batch
      is the whole buffer and contains `e`. */
  predicate DeliveredBy(pre: State, op: Op, e: Event)
  {
    && op.Tick?
    && Acknowledged(op.remote)
    && Flush(pre, op.remote).posted == Some(Buffer(pre))
    && e in Buffer(pre)
  }

  /** Step `j` of `ops`, run from `st`, delivered `e`. */
  predicate DeliveredAt(st: State, ops: seq<Op>, j: int, e: Event)
  {
    0 <= j < |ops| && DeliveredBy(Run(st, ops[..j]), ops[j], e)
  }

  /** A delivery found in the tail of a schedule is a delivery in the whole schedule. */
  lemma DeliveredLater(st: State, ops: seq<Op>, i: nat, j: int, e: Event)
    requires i <= |ops|
    requires DeliveredAt(Run(st, ops[..i]), ops[i..], j, e)
    ensures DeliveredAt(st, ops, i + j, e)
  {
    SliceJoin(ops, i, j);
    RunAppend(st, ops[..i], ops[i..][..j]);
  }

  lemma SliceJoin(ops: seq<Op>, i: nat, j: nat)
    requires i + j < |ops|
    ensures ops[..i] + ops[i..][..j] == ops[..i + j]
    ensures ops[i..][j] == ops[i + j]
  {
  }

  /** No silent loss: whatever leaves the buffer during any interleaving left
      it through a sync round that posted it and was acknowledged with 200. */
  lemma {:induction false} LeavesOnlyByDelivery(st: State, ops: seq<Op>, e: Event)
    requires e in Buffer(st)
    requires e !in Buffer(Run(st, ops))
    ensures exists j :: DeliveredAt(st, ops, j, e)
    decreases |ops|
  {
    // ops is not empty, since Run(st, []) == st
    var mid := Step(st, ops[0]);
    if e !in Buffer(mid) {
      StepRemovesOnlyDelivered(st, ops[0], e);
      assert ops[..0] == [];
      assert DeliveredAt(st, ops, 0, e);
    } else {
      LeavesOnlyByDelivery(mid, ops[1..], e);
      var j :| DeliveredAt(mid, ops[1..], j, e);
      RunOne(st, ops);
      DeliveredLater(st, ops, 1, j, e);
    }
  }

  /** At-least-once delivery: an event buffered after the first `i` steps (in
      particular the event an accepted commit notification appended) is still
      buffered at the end of the run, or a later sync round posted it and was
      acknowledged with 200. */
  lemma BufferedIsKeptOrDelivered(st: State, ops: seq<Op>, i: nat, e: Event)
    requires i <= |ops|
    requires e in Buffer(Run(st, ops[..i]))
    ensures e in Buffer(Run(st, ops)) || exists j :: i <= j < |ops| && DeliveredAt(st, ops, j, e)
  {
    var mid := Run(st, ops[..i]);
    assert ops == ops[..i] + ops[i..];
    RunAppend(st, ops[..i], ops[i..]);
    if e !in Buffer(Run(st, ops)) {
      LeavesOnlyByDelivery(mid, ops[i..], e);
      var j :| DeliveredAt(mid, ops[i..], j, e);
      DeliveredLater(st, ops, i, j, e);
    }
  }

  /** The accepted commit notification at step `i` appends one event under a
      fresh id, and that event is still buffered at the end of the run or a
      later sync round posted it and was acknowledged with 200. */
  lemma AcceptedCommitIsKeptOrDelivered(st: State, ops: seq<Op>, i: nat)
    requires i < |ops| && ops[i].Commit?
    requires Accepted(Run(st, ops[..i]), ops[i].body, ops[i].toIso, ops[i].fault)
    ensures |Buffer(Run(st, ops[..i + 1]))| == |Buffer(Run(st, ops[..i]))| + 1
    ensures
      var e := Buffer(Run(st, ops[..i + 1]))[0];
      && e.id == Run(st, ops[..i]).store.nextId
      && (e in Buffer(Run(st, ops)) || exists j :: i < j < |ops| && DeliveredAt(st, ops, j, e))
  {
    var pre := Run(st, ops[..i]);
    RunNext(st, ops, i);
    var post := Run(st, ops[..i + 1]);
    var e := Buffer(post)[0];
    BufferedIsKeptOrDelivered(st, ops, i + 1, e);
  }

  /** Running one more step of a schedule. */
  lemma RunNext(st: State, ops: seq<Op>, i: nat)
    requires i < |ops|
    ensures Run(st, ops[..i + 1]) == Step(Run(st, ops[..i]), ops[i])
  {
    assert ops[..i + 1] == ops[..i] + [ops[i]];
    RunAppend(st, ops[..i], [ops[i]]);
    assert [ops[i]][1..] == [];
  }
}
