/** The snapshot of the other watchers' activity that is attached to every
    commit: for each bucket except the commit bucket, the payload of its most
    recent event. It only reads the store. */
module DefaultWatchers {
  import opened Values
  import opened EventStore
  import opened Service

  /** Whether bucket `b` contributes to the snapshot of `s`. */
  predicate Contributes(s: Store, b: BucketId)
  {
    b in s.buckets && b != CommitBucket && |s.buckets[b]| > 0
  }

  /** The snapshot as a whole-store definition. */
  function Snapshot(s: Store): (snap: map<BucketId, Json>)
    ensures CommitBucket !in snap
    ensures forall b :: b in snap <==> Contributes(s, b)
    ensures forall b :: b in snap ==> |Events(s, b)| > 0 && snap[b] == Events(s, b)[0].data
  {
    map b | b in s.buckets && Contributes(s, b) :: Latest(s, b).value.data
  }

  /** The collector as the watcher runs it: walk the known buckets one at a
      time, skip the commit bucket, and ask each other bucket for its latest
      event; a bucket with no events adds no key. */
  method QueryDefaultWatchers(s: Store) returns (snap: map<BucketId, Json>)
    ensures CommitBucket !in snap
    ensures forall b :: b in snap <==> b in s.buckets && b != CommitBucket && |Events(s, b)| > 0
    ensures forall b :: b in snap ==> snap[b] == Events(s, b)[0].data
    ensures snap == Snapshot(s)
  {
    snap := map[];
    var todo := s.buckets.Keys;
    while todo != {}
      invariant todo <= s.buckets.Keys
      invariant forall b :: b in snap <==> Contributes(s, b) && b !in todo
      invariant forall b :: b in snap ==> snap[b] == Latest(s, b).value.data
      decreases todo
    {
      var b :| b in todo;
      todo := todo - {b};
      if b != CommitBucket {
        var latest := Latest(s, b);
        if latest.Some? {
          snap := snap[b := latest.value.data];
        }
      }
    }
  }
}
