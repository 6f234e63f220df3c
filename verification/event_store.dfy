/** The backing activity store the watcher talks to through its client: named
    buckets, each an ordered sequence of events, with ids handed out by the
    store. Only the operations the watcher uses are modelled: create a bucket,
    insert an event, list a bucket, read its latest event and delete an event
    by id. */
module EventStore {
  import opened Values

  type BucketId = string
  type EventId = nat

  /** An event as the store keeps it. The timestamp is the ISO-8601 text the
      watcher supplies; it is carried, never interpreted. */
  datatype Event = Event(id: EventId, timestamp: string, duration: int, data: Json)

  /** Each bucket's events in the order the store lists them, newest first,
      and the id the store will assign to the next inserted event. */
  datatype Store = Store(buckets: map<BucketId, seq<Event>>, nextId: EventId)

  /** The events of bucket `b`; a bucket that does not exist lists nothing. */
  function Events(s: Store, b: BucketId): seq<Event>
  {
    if b in s.buckets then s.buckets[b] else []
  }

  /** The ids of a listing, position by position. */
  function IdsOf(evs: seq<Event>): (ids: seq<EventId>)
    ensures |ids| == |evs|
    ensures forall i :: 0 <= i < |evs| ==> ids[i] == evs[i].id
  {
    seq(|evs|, i requires 0 <= i < |evs| => evs[i].id)
  }

  /** No two events of a listing share an id. */
  predicate UniqueIds(evs: seq<Event>)
  {
    forall i, j :: 0 <= i < j < |evs| ==> evs[i].id != evs[j].id
  }

  /** Every id of a listing was already handed out by a store whose next id is `next`. */
  predicate IdsBelow(evs: seq<Event>, next: EventId)
  {
    forall i :: 0 <= i < |evs| ==> evs[i].id < next
  }

  /** The store's own guarantee: ids are unique within a bucket and every id in
      use is below the next fresh one. */
  predicate WellFormed(s: Store)
  {
    forall b :: b in s.buckets ==> UniqueIds(s.buckets[b]) && IdsBelow(s.buckets[b], s.nextId)
  }

  /** Bucket `b` of `r` may differ from `s`; every other bucket, the set of
      buckets and the id counter are as in `s`. */
  predicate OnlyBucketChanged(s: Store, r: Store, b: BucketId)
  {
    && r.buckets.Keys == s.buckets.Keys
    && r.nextId == s.nextId
    && forall c :: c in s.buckets && c != b ==> r.buckets[c] == s.buckets[c]
  }

  /** Creating a bucket that already exists leaves the store as it is. */
  function CreateBucket(s: Store, b: BucketId): (r: Store)
    ensures b in r.buckets
    ensures r.buckets.Keys == s.buckets.Keys + {b}
    ensures Events(r, b) == Events(s, b)
    ensures forall c :: c in s.buckets ==> r.buckets[c] == s.buckets[c]
    ensures r.nextId == s.nextId
    ensures WellFormed(s) ==> WellFormed(r)
  {
    if b in s.buckets then s else s.(buckets := s.buckets[b := []])
  }

  /** Insert an event as the newest of bucket `b`, so that it heads the
      bucket's listing, under a fresh id. Inserting into a bucket that does
      not exist is refused by the store. */
  function Insert(s: Store, b: BucketId, timestamp: string, duration: int, data: Json): (r: Option<Store>)
    ensures r.Some? <==> b in s.buckets
    ensures r.Some? ==> Events(r.value, b) == [Event(s.nextId, timestamp, duration, data)] + Events(s, b)
    ensures r.Some? ==> r.value.buckets.Keys == s.buckets.Keys && r.value.nextId == s.nextId + 1
    ensures r.Some? ==> forall c :: c in s.buckets && c != b ==> r.value.buckets[c] == s.buckets[c]
  {
    if b in s.buckets then
      Some(Store(s.buckets[b := [Event(s.nextId, timestamp, duration, data)] + s.buckets[b]], s.nextId + 1))
    else
      None
  }

  lemma InsertWellFormed(s: Store, b: BucketId, timestamp: string, duration: int, data: Json)
    requires WellFormed(s)
    requires b in s.buckets
    ensures WellFormed(Insert(s, b, timestamp, duration, data).value)
  {
  }

  /** The bucket's most recent event: the first of a listing limited to one
      event. */
  function Latest(s: Store, b: BucketId): (r: Option<Event>)
    ensures r.Some? <==> |Events(s, b)| > 0
    ensures r.Some? ==> r.value in Events(s, b)
  {
    var evs := Events(s, b);
    if |evs| == 0 then None else Some(evs[0])
  }

  /** The latest event of a bucket is the one inserted last into it; an insert
      into another bucket does not change it. */
  lemma LatestAfterInsert(s: Store, b: BucketId, c: BucketId, timestamp: string, duration: int, data: Json)
    requires c in s.buckets
    ensures c == b ==> Latest(Insert(s, c, timestamp, duration, data).value, b) == Some(Event(s.nextId, timestamp, duration, data))
    ensures c != b ==> Latest(Insert(s, c, timestamp, duration, data).value, b) == Latest(s, b)
  {
  }

  /** A listing without the events that carry `id`, order kept. */
  function RemoveId(evs: seq<Event>, id: EventId): (r: seq<Event>)
    ensures |r| <= |evs|
    ensures forall e :: e in r <==> e in evs && e.id != id
  {
    if evs == [] then []
    else if evs[0].id == id then RemoveId(evs[1..], id)
    else [evs[0]] + RemoveId(evs[1..], id)
  }

  /** Delete the event `id` from bucket `b`. Deleting an id that is not there,
      or from a bucket that does not exist, changes nothing. */
  function Delete(s: Store, b: BucketId, id: EventId): (r: Store)
    ensures OnlyBucketChanged(s, r, b)
    ensures forall e :: e in Events(r, b) <==> e in Events(s, b) && e.id != id
    ensures (forall e :: e in Events(s, b) ==> e.id != id) ==> r == s
  {
    if b in s.buckets then
      RemoveAbsent(s.buckets[b], id);
      s.(buckets := s.buckets[b := RemoveId(s.buckets[b], id)])
    else s
  }

  /** Delete the ids one after the other, in the order given. */
  function DeleteAll(s: Store, b: BucketId, ids: seq<EventId>): (r: Store)
    ensures OnlyBucketChanged(s, r, b)
    ensures forall e :: e in Events(r, b) <==> e in Events(s, b) && e.id !in ids
    decreases |ids|
  {
    if ids == [] then s else DeleteAll(Delete(s, b, ids[0]), b, ids[1..])
  }

  /** Filtering out an id that no event carries leaves the listing as it is. */
  lemma {:induction false} RemoveAbsent(evs: seq<Event>, id: EventId)
    ensures (forall e :: e in evs ==> e.id != id) ==> RemoveId(evs, id) == evs
  {
    if evs != [] && (forall e :: e in evs ==> e.id != id) {
      assert forall e :: e in evs[1..] ==> e in evs;
      RemoveAbsent(evs[1..], id);
      assert evs == [evs[0]] + evs[1..];
    }
  }

  /** Filtering keeps ids unique. */
  lemma {:induction false} RemoveKeepsUnique(evs: seq<Event>, id: EventId)
    requires UniqueIds(evs)
    ensures UniqueIds(RemoveId(evs, id))
  {
    if evs != [] {
      var rest := RemoveId(evs[1..], id);
      RemoveKeepsUnique(evs[1..], id);
      if evs[0].id != id {
        forall j | 0 <= j < |rest|
          ensures evs[0].id != rest[j].id
        {
          assert rest[j] in evs[1..];
          var k :| 0 <= k < |evs[1..]| && evs[1..][k] == rest[j];
          assert evs[k + 1] == rest[j];
        }
        var r := [evs[0]] + rest;
        forall i, j | 0 <= i < j < |r|
          ensures r[i].id != r[j].id
        {
          if i > 0 {
            assert r[i] == rest[i - 1] && r[j] == rest[j - 1];
          } else {
            assert r[j] == rest[j - 1];
          }
        }
      }
    }
  }

  /** When the ids are unique, deleting the id of the first event removes just
      that event. */
  lemma RemoveHead(evs: seq<Event>)
    requires |evs| > 0
    requires UniqueIds(evs)
    ensures RemoveId(evs, evs[0].id) == evs[1..]
  {
    forall e | e in evs[1..]
      ensures e.id != evs[0].id
    {
      var k :| 0 <= k < |evs[1..]| && evs[1..][k] == e;
      assert evs[k + 1] == e;
    }
    RemoveAbsent(evs[1..], evs[0].id);
  }

  lemma DeleteWellFormed(s: Store, b: BucketId, id: EventId)
    requires WellFormed(s)
    ensures WellFormed(Delete(s, b, id))
  {
    if b in s.buckets {
      RemoveKeepsUnique(s.buckets[b], id);
      var r := Delete(s, b, id);
      var kept := r.buckets[b];
      forall i | 0 <= i < |kept|
        ensures kept[i].id < r.nextId
      {
        assert kept[i] in s.buckets[b];
      }
    }
  }

  lemma {:induction false} DeleteAllWellFormed(s: Store, b: BucketId, ids: seq<EventId>)
    requires WellFormed(s)
    ensures WellFormed(DeleteAll(s, b, ids))
    decreases |ids|
  {
    if ids != [] {
      DeleteWellFormed(s, b, ids[0]);
      DeleteAllWellFormed(Delete(s, b, ids[0]), b, ids[1..]);
    }
  }

  /** Deleting, in order, the ids of the first `k` events of a bucket whose ids
      are unique leaves exactly the remaining `|evs| - k` events, in order. */
  lemma {:induction false} DeleteListedPrefix(s: Store, b: BucketId, ids: seq<EventId>)
    requires UniqueIds(Events(s, b))
    requires |ids| <= |Events(s, b)|
    requires ids == IdsOf(Events(s, b)[..|ids|])
    ensures Events(DeleteAll(s, b, ids), b) == Events(s, b)[|ids|..]
    decreases |ids|
  {
    var evs := Events(s, b);
    if ids != [] {
      assert ids[0] == evs[0].id;
      RemoveHead(evs);
      var s' := Delete(s, b, ids[0]);
      assert Events(s', b) == evs[1..];
      assert UniqueIds(evs[1..]) by {
        forall i, j | 0 <= i < j < |evs[1..]|
          ensures evs[1..][i].id != evs[1..][j].id
        {
          assert evs[1..][i] == evs[i + 1] && evs[1..][j] == evs[j + 1];
        }
      }
      assert ids[1..] == IdsOf(evs[1..][..|ids| - 1]);
      DeleteListedPrefix(s', b, ids[1..]);
      assert evs[1..][|ids| - 1..] == evs[|ids|..];
    }
  }

  /** Deleting a freshly inserted event by its id restores the bucket: insert
      and delete-by-id are inverse. */
  lemma InsertThenDelete(s: Store, b: BucketId, timestamp: string, duration: int, data: Json)
    requires WellFormed(s)
    requires b in s.buckets
    ensures Events(Delete(Insert(s, b, timestamp, duration, data).value, b, s.nextId), b) == Events(s, b)
  {
    var e := Event(s.nextId, timestamp, duration, data);
    forall x | x in s.buckets[b]
      ensures x.id != s.nextId
    {
      var k :| 0 <= k < |s.buckets[b]| && s.buckets[b][k] == x;
    }
    RemoveAbsent(s.buckets[b], s.nextId);
    assert ([e] + s.buckets[b])[1..] == s.buckets[b];
  }
}
