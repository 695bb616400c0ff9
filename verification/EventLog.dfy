/** The event log: events hang off a chain of time buckets, newest first, and a search
    walks the chain. The chain is an index over the plain map of events, and a search
    finds exactly what a scan of all events would. */
module EventLog {
  import opened Types

  type ID = InstanceID

  const SECOND := 1_000_000_000
  const BUCKET_MAX_AGE := 5 * SECOND

  datatype Event = Event(when: int, topic: string, content: string)

  /** `prev` is `None` for the catch-all bucket at the end of the chain. */
  datatype Bucket = Bucket(start: int, prev: Option<ID>, refs: seq<ID>)

  datatype Query = Query(from: int, to: int, topic: string)

  predicate Matches(q: Query, e: Event) {
    q.from <= e.when < q.to && (q.topic == "" || q.topic == e.topic)
  }

  type Buckets = map<ID, Bucket>
  type Events = map<ID, Event>

  // ---------------------------------------------------------------- the bucket chain

  ghost predicate Stored(bs: Buckets, chain: seq<ID>) {
    forall i :: 0 <= i < |chain| ==> chain[i] in bs
  }

  /** The event references in the order of a search: oldest bucket first. */
  ghost function Refs(bs: Buckets, chain: seq<ID>): (ids: seq<ID>)
    requires Stored(bs, chain)
  {
    if chain == [] then [] else Refs(bs, chain[1..]) + bs[chain[0]].refs
  }

  ghost predicate NoDup(ids: seq<ID>) {
    forall i, j :: 0 <= i < j < |ids| ==> ids[i] != ids[j]
  }

  /** `chain` follows the Prev links down to the catch-all bucket, and bucket starts
      strictly decrease along it. */
  ghost predicate Linked(bs: Buckets, chain: seq<ID>) {
    && Stored(bs, chain) && |chain| >= 2 && NoDup(chain)
    && (forall i :: 0 <= i < |chain| - 1 ==> bs[chain[i]].prev == Some(chain[i + 1]))
    && bs[chain[|chain| - 1]].prev == None && bs[chain[|chain| - 1]].start == 0
    && (forall i, j :: 0 <= i < j < |chain| ==> bs[chain[i]].start > bs[chain[j]].start)
  }

  /** An event lies in the period of its bucket, which ends where the next one starts. The
      head bucket takes events up to its maximal age, so a later head starts after them. */
  ghost predicate InPeriod(bs: Buckets, evs: Events, chain: seq<ID>, i: nat, e: ID)
    requires Stored(bs, chain) && i < |chain|
  {
    && e in evs && bs[chain[i]].start <= evs[e].when
    && (if i > 0 then evs[e].when < bs[chain[i - 1]].start else evs[e].when <= bs[chain[0]].start + BUCKET_MAX_AGE)
  }

  ghost predicate Indexed(bs: Buckets, evs: Events, chain: seq<ID>)
    requires Stored(bs, chain)
  {
    && (forall i, e :: 0 <= i < |chain| && e in bs[chain[i]].refs ==> InPeriod(bs, evs, chain, i, e))
    && NoDup(Refs(bs, chain))
    && (forall e :: e in Refs(bs, chain) <==> e in evs)
  }

  lemma {:induction false} RefsIn(bs: Buckets, chain: seq<ID>, e: ID)
    requires Stored(bs, chain)
    ensures e in Refs(bs, chain) <==> exists i :: 0 <= i < |chain| && e in bs[chain[i]].refs
    decreases |chain|
  {
    if chain != [] {
      RefsIn(bs, chain[1..], e);
      if i :| 0 <= i < |chain| && e in bs[chain[i]].refs {
        if i > 0 {
          assert chain[1..][i - 1] == chain[i];
        }
      }
      if j :| 0 <= j < |chain[1..]| && e in bs[chain[1..][j]].refs {
        assert chain[j + 1] == chain[1..][j];
      }
    }
  }

  /** Another map with the same buckets on the chain gives the same references. */
  lemma {:induction false} RefsFrame(bs: Buckets, bs': Buckets, chain: seq<ID>)
    requires Stored(bs, chain) && Stored(bs', chain)
    requires forall i :: 0 <= i < |chain| ==> bs[chain[i]].refs == bs'[chain[i]].refs
    ensures Refs(bs, chain) == Refs(bs', chain)
    decreases |chain|
  {
    if chain != [] {
      RefsFrame(bs, bs', chain[1..]);
    }
  }

  /** Appending one reference to one bucket inserts it somewhere. */
  lemma {:induction false} RefsInsert(bs: Buckets, bs': Buckets, chain: seq<ID>, k: nat, e: ID) returns (pre: seq<ID>, post: seq<ID>)
    requires Stored(bs, chain) && Stored(bs', chain) && NoDup(chain) && k < |chain|
    requires bs'[chain[k]].refs == bs[chain[k]].refs + [e]
    requires forall i :: 0 <= i < |chain| && i != k ==> bs'[chain[i]].refs == bs[chain[i]].refs
    ensures Refs(bs, chain) == pre + post && Refs(bs', chain) == pre + [e] + post
    decreases |chain|
  {
    var refs := bs[chain[0]].refs;
    if k == 0 {
      RefsFrame(bs, bs', chain[1..]);
      Reassociate(Refs(bs, chain[1..]), refs, [e]);
      pre, post := Refs(bs, chain), [];
      assert pre + [e] + [] == pre + [e] && pre + [] == pre;
    } else {
      pre, post := RefsInsert(bs, bs', chain[1..], k - 1, e);
      Reassociate(pre, post, refs);
      Reassociate(pre + [e], post, refs);
      post := post + refs;
    }
  }

  lemma InsertNoDup(pre: seq<ID>, post: seq<ID>, e: ID)
    requires NoDup(pre + post) && e !in pre + post
    ensures NoDup(pre + [e] + post)
    ensures forall x :: x in pre + [e] + post <==> x == e || x in pre + post
  {
    var s, s' := pre + post, pre + [e] + post;
    forall i, j | 0 <= i < j < |s'| ensures s'[i] != s'[j] {
      var i', j' := if i <= |pre| then i else i - 1, if j <= |pre| then j else j - 1;
      assert i < |pre| ==> s'[i] == s[i];
      assert i > |pre| ==> s'[i] == s[i - 1];
      assert j < |pre| ==> s'[j] == s[j];
      assert j > |pre| ==> s'[j] == s[j - 1];
      assert s'[|pre|] == e;
    }
  }

  // --------------------------------------------------------------------- selection

  /** The references whose events match, in order. */
  function Select(q: Query, evs: Events, ids: seq<ID>): (r: seq<ID>)
    ensures forall e :: e in r <==> e in ids && e in evs && Matches(q, evs[e])
    ensures |r| <= |ids|
  {
    if ids == [] then []
    else if ids[0] in evs && Matches(q, evs[ids[0]]) then [ids[0]] + Select(q, evs, ids[1..])
    else Select(q, evs, ids[1..])
  }

  lemma {:induction false} SelectConcat(q: Query, evs: Events, a: seq<ID>, b: seq<ID>)
    ensures Select(q, evs, a + b) == Select(q, evs, a) + Select(q, evs, b)
    decreases |a|
  {
    if a == [] {
      assert a + b == b;
    } else {
      assert (a + b)[1..] == a[1..] + b;
      SelectConcat(q, evs, a[1..], b);
    }
  }

  lemma {:induction false} SelectNoDup(q: Query, evs: Events, ids: seq<ID>)
    requires NoDup(ids)
    ensures NoDup(Select(q, evs, ids))
    decreases |ids|
  {
    if ids != [] {
      SelectNoDup(q, evs, ids[1..]);
      assert ids[0] !in ids[1..];
    }
  }

  lemma {:induction false} RefsConcat(bs: Buckets, a: seq<ID>, b: seq<ID>)
    requires Stored(bs, a) && Stored(bs, b)
    ensures Stored(bs, a + b) && Refs(bs, a + b) == Refs(bs, b) + Refs(bs, a)
    decreases |a|
  {
    if a == [] {
      assert a + b == b;
    } else {
      assert (a + b)[1..] == a[1..] + b;
      RefsConcat(bs, a[1..], b);
    }
  }

  function EventsOf(evs: Events, ids: seq<ID>): (r: seq<Event>)
    requires forall e :: e in ids ==> e in evs
    ensures |r| == |ids|
  {
    seq(|ids|, i requires 0 <= i < |ids| => evs[ids[i]])
  }

  // ----------------------------------------------------------------- the contract

  ghost predicate Answers(evs: Events, reply: seq<Event>, found: seq<ID>) {
    (forall e :: e in found ==> e in evs) && reply == EventsOf(evs, found)
  }

  /** The filter loop over the references of one bucket. */
  method ScanBucket(q: Query, evs: Events, refs: seq<ID>, max: nat, before: seq<Event>, ghost foundBefore: seq<ID>)
      returns (reply: seq<Event>, truncated: bool, ghost found: seq<ID>)
    requires (forall e :: e in refs ==> e in evs) && Answers(evs, before, foundBefore) && |foundBefore| < max
    ensures Answers(evs, reply, found) && found <= foundBefore + Select(q, evs, refs)
    ensures truncated <==> |foundBefore + Select(q, evs, refs)| >= max
    ensures if truncated then |found| == max else found == foundBefore + Select(q, evs, refs)
  {
    reply, truncated, found := before, false, foundBefore;
    var j := 0;
    assert refs[0..] == refs;
    while j < |refs|
      invariant 0 <= j <= |refs| && |found| < max && !truncated && Answers(evs, reply, found)
      invariant foundBefore + Select(q, evs, refs) == found + Select(q, evs, refs[j..])
    {
      var e := refs[j];
      SelectNext(q, evs, refs, j, found);
      if Matches(q, evs[e]) {
        reply, found := reply + [evs[e]], found + [e];
        if |reply| >= max {
          truncated := true;
          return;
        }
      }
      j := j + 1;
    }
  }

  lemma SelectNext(q: Query, evs: Events, refs: seq<ID>, j: nat, found: seq<ID>)
    requires j < |refs| && refs[j] in evs
    ensures found + Select(q, evs, refs[j..]) ==
            (if Matches(q, evs[refs[j]]) then found + [refs[j]] else found) + Select(q, evs, refs[j + 1..])
  {
    assert refs[j..][1..] == refs[j + 1..];
  }

  lemma PrefixOfTotal(total: seq<ID>, before: seq<ID>, mid: seq<ID>, rest: seq<ID>, found: seq<ID>)
    requires total == before + (mid + rest) && found <= before + mid
    ensures found <= total && before + mid <= total
    ensures found == before + mid ==> total == found + rest
  {
    assert total == (before + mid) + rest;
  }

  class EventLog {
    var latest: Option<ID>
    var buckets: Buckets
    var events: Events
    ghost var chain: seq<ID>

    ghost predicate Ok()
      reads this
    {
      && Stored(buckets, chain)
      && (chain == [] ==> latest == None && events == map[])
      && (chain != [] ==> latest == Some(chain[0]) && Linked(buckets, chain))
      && Indexed(buckets, events, chain)
    }

    constructor ()
      ensures Ok() && events == map[]
    {
      latest, buckets, events, chain := None, map[], map[], [];
    }

    ghost function HeadStart(): (t: int)
      requires Ok() && latest != None
      reads this
    {
      buckets[latest.value].start
    }

    /** Invoke with the command "log". The event needs its own identifier, that of a new head if
        there is none or it is too old, and that of the catch-all bucket before the first head.
        An identifier that is already in use makes the
        transaction fail, as creating an existing instance does. */
    method Log(event: Event, eventID: ID, newBid: ID, catchID: ID, now: int) returns (ok: bool)
      requires Ok() && now > 30 * SECOND
      modifies this
      ensures Ok()
      ensures ok <==>
        && now - 30 * SECOND <= event.when <= now + 5 * SECOND
        && eventID !in old(events)
        && (old(latest) == None ==> catchID !in old(buckets) && newBid !in old(buckets) && catchID != newBid)
        && (old(latest) != None && event.when > old(HeadStart()) + BUCKET_MAX_AGE ==> newBid !in old(buckets))
      ensures ok ==> events == old(events)[eventID := event]
      ensures !ok ==> events == old(events) && buckets == old(buckets) && latest == old(latest)
    {
      if event.when < now - 30 * SECOND || event.when > now + 5 * SECOND || eventID in events {
        return false;
      }
      if latest == None {
        if catchID in buckets || newBid in buckets || catchID == newBid {
          return false;
        }
        FirstEvent(event, eventID, newBid, catchID);
        return true;
      }
      var bID, isHead, k := FindBucket(event.when);
      var b := buckets[bID];
      if isHead && event.when - b.start > BUCKET_MAX_AGE {
        if newBid in buckets {
          return false;
        }
        NewHead(event, eventID, newBid);
      } else {
        AddToBucket(event, eventID, bID, k);
      }
      ok := true;
    }

    /** The walk of Invoke: the newest bucket that starts by then, or the catch-all. */
    method FindBucket(when: int) returns (bID: ID, isHead: bool, ghost k: nat)
      requires Ok() && latest != None && when > 0
      ensures k < |chain| && bID == chain[k] && (isHead <==> k == 0)
      ensures buckets[bID].start <= when && (k > 0 ==> when < buckets[chain[k - 1]].start)
    {
      bID := latest.value;
      var b := buckets[bID];
      isHead, k := true, 0;
      FollowLink(buckets, chain, k);
      while b.prev != None
        invariant k < |chain| && bID == chain[k] && b == buckets[bID] && (isHead <==> k == 0)
        invariant k > 0 ==> when < buckets[chain[k - 1]].start
        invariant if k + 1 < |chain| then b.prev == Some(chain[k + 1]) else b.prev == None && b.start == 0
        decreases |chain| - k
      {
        if b.start <= when {
          break;
        }
        bID := b.prev.value;
        b := buckets[bID];
        isHead, k := false, k + 1;
        FollowLink(buckets, chain, k);
      }
    }

    /** Search at time `now` with at most `max` results; `to == 0` means until now. For a
        range that does not start in the future it finds every matching event exactly
        once, oldest bucket first, and truncates the newest; a range that starts in the
        future yields nothing. */
    method Search(from: int, to: int, topic: string, now: int, max: nat)
        returns (reply: seq<Event>, truncated: bool, ghost found: seq<ID>)
      requires Ok() && max > 0
      ensures NoDup(found) && (forall e :: e in found ==> e in events) && reply == EventsOf(events, found)
      ensures
        var q := Query(from, if to == 0 then now else to, topic);
        && (forall e :: e in found ==> Matches(q, events[e]))
        && (from <= now && !truncated ==> forall e :: e in found <==> e in events && Matches(q, events[e]))
        && (from <= now && !truncated ==> forall e :: e in found <==>
              e in events && from <= events[e].when < q.to && (topic == "" || topic == events[e].topic))
        && (from <= now ==> found <= Select(q, events, Refs(buckets, chain)))
        && (from <= now ==> (truncated <==> |Select(q, events, Refs(buckets, chain))| >= max))
      ensures truncated ==> |found| == max
      ensures from > now ==> reply == [] && !truncated
    {
      var q := Query(from, if to == 0 then now else to, topic);
      found := [];
      if latest == None {
        return [], false, [];
      }
      var picked := PickBuckets(q, now);
      SelectNoDup(q, events, Refs(buckets, chain));
      reply, truncated, found := CollectEvents(q, picked, max);
      if from <= now {
        PrefixNoDup(found, Select(q, events, Refs(buckets, chain)));
      }
    }

    /** The backward walk: it skips buckets after the range and stops at the first one
        before it. Nothing that matches is lost. */
    method PickBuckets(q: Query, now: int) returns (picked: seq<ID>)
      requires Ok() && chain != []
      ensures Stored(buckets, picked) && (forall i, e :: 0 <= i < |picked| && e in buckets[picked[i]].refs ==> e in events)
      ensures q.from <= now ==> Select(q, events, Refs(buckets, picked)) == Select(q, events, Refs(buckets, chain))
      ensures q.from > now ==> picked == []
    {
      picked := WalkBuckets(buckets, events, chain, latest.value, q, now);
    }

    /** The filter loop over the picked buckets, oldest first. */
    method CollectEvents(q: Query, picked: seq<ID>, max: nat)
        returns (reply: seq<Event>, truncated: bool, ghost found: seq<ID>)
      requires Ok() && Stored(buckets, picked) && max > 0
      requires forall i, e :: 0 <= i < |picked| && e in buckets[picked[i]].refs ==> e in events
      ensures (forall e :: e in found ==> e in events) && reply == EventsOf(events, found)
      ensures found <= Select(q, events, Refs(buckets, picked))
      ensures truncated <==> |Select(q, events, Refs(buckets, picked))| >= max
      ensures if truncated then |found| == max else found == Select(q, events, Refs(buckets, picked))
    {
      reply, truncated, found := [], false, [];
      ghost var total := Select(q, events, Refs(buckets, picked));
      var i := |picked|;
      assert picked[..i] == picked;
      while i > 0
        invariant 0 <= i <= |picked| && |found| < max && !truncated
        invariant Answers(events, reply, found)
        invariant total == found + Select(q, events, Refs(buckets, picked[..i]))
      {
        i := i - 1;
        BucketFirst(buckets, events, picked, i, q);
        ghost var before, rest := found, Select(q, events, Refs(buckets, picked[..i]));
        var refs := buckets[picked[i]].refs;
        reply, truncated, found := ScanBucket(q, events, refs, max, reply, found);
        PrefixOfTotal(total, before, Select(q, events, refs), rest, found);
        if truncated {
          return;
        }
      }
      assert picked[..0] == [];
    }

    /** No bucket yet: a catch-all bucket and a head that starts with this event. */
    method FirstEvent(event: Event, eventID: ID, newBid: ID, catchID: ID)
      requires Ok() && chain == [] && event.when > 0
      requires catchID !in buckets && newBid !in buckets && catchID != newBid
      modifies this
      ensures Ok() && events == old(events)[eventID := event]
    {
      FirstIsOrdered(buckets, newBid, catchID, eventID, event);
      events := events[eventID := event];
      buckets := buckets[catchID := Bucket(0, None, [])];
      buckets := buckets[newBid := Bucket(event.when, Some(catchID), [eventID])];
      latest := Some(newBid);
      chain := [newBid, catchID];
    }

    /** The head is too old: a new head that starts with this event. */
    method NewHead(event: Event, eventID: ID, newBid: ID)
      requires Ok() && chain != [] && eventID !in events && newBid !in buckets
      requires event.when > buckets[chain[0]].start + BUCKET_MAX_AGE
      modifies this
      ensures Ok() && events == old(events)[eventID := event]
    {
      HeadKeepsOrder(buckets, events, chain, newBid, eventID, event);
      events := events[eventID := event];
      buckets := buckets[newBid := Bucket(event.when, latest, [eventID])];
      latest := Some(newBid);
      chain := [newBid] + chain;
    }

    /** The event joins the bucket of its period. */
    method AddToBucket(event: Event, eventID: ID, bID: ID, ghost k: nat)
      requires Ok() && eventID !in events && k < |chain| && chain[k] == bID
      requires buckets[bID].start <= event.when
      requires if k > 0 then event.when < buckets[chain[k - 1]].start
               else event.when <= buckets[bID].start + BUCKET_MAX_AGE
      modifies this
      ensures Ok() && events == old(events)[eventID := event]
    {
      BucketKeepsOrder(buckets, events, chain, k, eventID, event);
      events := events[eventID := event];
      buckets := buckets[bID := buckets[bID].(refs := buckets[bID].refs + [eventID])];
    }
  }

  /** The bucket loop of Search: from the head down to the first bucket that ends before the
      query begins. */
  method WalkBuckets(bs: Buckets, ghost evs: Events, ghost chain: seq<ID>, head: ID, q: Query, now: int)
      returns (picked: seq<ID>)
    requires chain != [] && Linked(bs, chain) && Indexed(bs, evs, chain) && head == chain[0]
    ensures Stored(bs, picked) && (forall i, e :: 0 <= i < |picked| && e in bs[picked[i]].refs ==> e in evs)
    ensures q.from <= now ==> Select(q, evs, Refs(bs, picked)) == Select(q, evs, Refs(bs, chain))
    ensures q.from > now ==> picked == []
  {
    var id, b, bEnd := head, bs[head], now;
    picked := [];
    ghost var k := 0;
    ghost var all := Select(q, evs, Refs(bs, chain));
    WalkStart(bs, evs, chain, q, all);
    while q.from <= bEnd
      invariant k < |chain| && id == chain[k] && b == bs[id]
      invariant bEnd == if k == 0 then now else bs[chain[k - 1]].start
      invariant k == 0 ==> picked == []
      invariant k > 0 ==> q.from <= now
      invariant Walked(bs, evs, chain, k, q, picked, all)
      decreases |chain| - k
    {
      ghost var next := k + 1;
      if q.to < b.start {
        SkipBucket(bs, evs, chain, k, next, q, picked, all);
      } else {
        PickBucket(bs, evs, chain, k, next, q, picked, all);
        picked := picked + [id];
      }
      FollowLink(bs, chain, k);
      if b.prev == None {
        WalkEnds(bs, evs, chain, next, q, picked, all);
        return;
      }
      id, bEnd := b.prev.value, b.start;
      b := bs[id];
      k := next;
    }
    if k > 0 {
      OlderDoNotMatch(bs, evs, chain, k, q);
    }
  }

  lemma WalkStart(bs: Buckets, evs: Events, chain: seq<ID>, q: Query, all: seq<ID>)
    requires Linked(bs, chain) && all == Select(q, evs, Refs(bs, chain))
    ensures Walked(bs, evs, chain, 0, q, [], all)
  {
    assert chain[0..] == chain;
    assert all + [] == all;
  }

  lemma WalkEnds(bs: Buckets, evs: Events, chain: seq<ID>, k: nat, q: Query, picked: seq<ID>, all: seq<ID>)
    requires Walked(bs, evs, chain, k, q, picked, all) && k == |chain|
    ensures all == Select(q, evs, Refs(bs, picked))
  {
    assert chain[k..] == [];
  }

  /** Only the catch-all bucket has no predecessor. */
  lemma FollowLink(bs: Buckets, chain: seq<ID>, k: nat)
    requires Linked(bs, chain) && k < |chain|
    ensures if k + 1 < |chain| then bs[chain[k]].prev == Some(chain[k + 1]) && chain[k + 1] in bs
            else bs[chain[k]].prev == None && bs[chain[k]].start == 0
  {
  }

  /** What the walk has kept after `k` buckets: all matches are in what it picked and in
      what lies ahead. */
  ghost predicate Walked(bs: Buckets, evs: Events, chain: seq<ID>, k: nat, q: Query, picked: seq<ID>, all: seq<ID>) {
    && k <= |chain| && Stored(bs, chain[k..]) && Stored(bs, picked)
    && (forall i, e :: 0 <= i < |picked| && e in bs[picked[i]].refs ==> e in evs)
    && all == Select(q, evs, Refs(bs, chain[k..])) + Select(q, evs, Refs(bs, picked))
  }

  lemma SplitHead(bs: Buckets, evs: Events, chain: seq<ID>, k: nat, q: Query)
    requires k < |chain| && Stored(bs, chain)
    ensures Stored(bs, chain[k..]) && Stored(bs, chain[k + 1..])
    ensures Select(q, evs, Refs(bs, chain[k..]))
         == Select(q, evs, Refs(bs, chain[k + 1..])) + Select(q, evs, bs[chain[k]].refs)
  {
    assert chain[k..][1..] == chain[k + 1..] && chain[k..][0] == chain[k];
    SelectConcat(q, evs, Refs(bs, chain[k + 1..]), bs[chain[k]].refs);
  }

  /** The oldest of the first `i + 1` picked buckets comes first in the search order. */
  lemma BucketFirst(bs: Buckets, evs: Events, picked: seq<ID>, i: nat, q: Query)
    requires i < |picked| && Stored(bs, picked)
    ensures Select(q, evs, Refs(bs, picked[..i + 1])) ==
            Select(q, evs, bs[picked[i]].refs) + Select(q, evs, Refs(bs, picked[..i]))
  {
    var x := picked[i];
    assert picked[..i + 1] == picked[..i] + [x];
    RefsConcat(bs, picked[..i], [x]);
    assert [x][1..] == [] && Refs(bs, []) == [];
    assert Refs(bs, [x]) == bs[x].refs;
    SelectConcat(q, evs, bs[x].refs, Refs(bs, picked[..i]));
  }

  lemma SkipBucket(bs: Buckets, evs: Events, chain: seq<ID>, k: nat, n: nat, q: Query, picked: seq<ID>, all: seq<ID>)
    requires chain != [] && Linked(bs, chain) && Indexed(bs, evs, chain) && k < |chain|
    requires n == k + 1 && Walked(bs, evs, chain, k, q, picked, all) && q.to < bs[chain[k]].start
    ensures Walked(bs, evs, chain, n, q, picked, all)
  {
    forall e | e in bs[chain[k]].refs && e in evs ensures !Matches(q, evs[e]) {
      assert InPeriod(bs, evs, chain, k, e);
    }
    NoneSelected(q, evs, bs[chain[k]].refs);
    SplitHead(bs, evs, chain, k, q);
  }

  lemma PickBucket(bs: Buckets, evs: Events, chain: seq<ID>, k: nat, n: nat, q: Query, picked: seq<ID>, all: seq<ID>)
    requires chain != [] && Linked(bs, chain) && Indexed(bs, evs, chain) && k < |chain|
    requires n == k + 1 && Walked(bs, evs, chain, k, q, picked, all)
    ensures Walked(bs, evs, chain, n, q, picked + [chain[k]], all)
  {
    var picked' := picked + [chain[k]];
    PickedKnown(bs, evs, chain, k, picked);
    SplitHead(bs, evs, chain, k, q);
    BucketFirst(bs, evs, picked', |picked|, q);
    assert picked'[..|picked| + 1] == picked' && picked'[..|picked|] == picked;
    Reassociate(Select(q, evs, Refs(bs, chain[k + 1..])), Select(q, evs, bs[chain[k]].refs), Select(q, evs, Refs(bs, picked)));
  }

  lemma PickedKnown(bs: Buckets, evs: Events, chain: seq<ID>, k: nat, picked: seq<ID>)
    requires chain != [] && Linked(bs, chain) && Indexed(bs, evs, chain) && k < |chain| && Stored(bs, picked)
    requires forall i, e :: 0 <= i < |picked| && e in bs[picked[i]].refs ==> e in evs
    ensures Stored(bs, picked + [chain[k]])
    ensures forall i, e :: 0 <= i < |picked + [chain[k]]| && e in bs[(picked + [chain[k]])[i]].refs ==> e in evs
  {
    forall e | e in bs[chain[k]].refs ensures e in evs {
      assert InPeriod(bs, evs, chain, k, e);
    }
  }

  lemma Reassociate<T>(a: seq<T>, b: seq<T>, c: seq<T>)
    ensures a + b + c == a + (b + c)
  {
  }

  lemma {:induction false} NoneSelected(q: Query, evs: Events, ids: seq<ID>)
    requires forall e :: e in ids && e in evs ==> !Matches(q, evs[e])
    ensures Select(q, evs, ids) == []
    decreases |ids|
  {
    if ids != [] {
      assert ids[0] in ids;
      NoneSelected(q, evs, ids[1..]);
    }
  }

  /** Buckets before one that starts before the range hold nothing in the range. */
  lemma OlderDoNotMatch(bs: Buckets, evs: Events, chain: seq<ID>, k: nat, q: Query)
    requires chain != [] && Linked(bs, chain) && Indexed(bs, evs, chain) && 0 < k < |chain|
    requires Stored(bs, chain[k..]) && q.from > bs[chain[k - 1]].start
    ensures Select(q, evs, Refs(bs, chain[k..])) == []
  {
    forall e | e in Refs(bs, chain[k..]) && e in evs ensures !Matches(q, evs[e]) {
      RefsIn(bs, chain[k..], e);
      var i :| 0 <= i < |chain[k..]| && e in bs[chain[k..][i]].refs;
      assert chain[k..][i] == chain[k + i];
      assert InPeriod(bs, evs, chain, k + i, e);
    }
    NoneSelected(q, evs, Refs(bs, chain[k..]));
  }

  lemma PrefixNoDup(a: seq<ID>, b: seq<ID>)
    requires a <= b && NoDup(b)
    ensures NoDup(a)
  {
  }

  lemma FirstIsOrdered(bs: Buckets, newBid: ID, catchID: ID, eventID: ID, event: Event)
    requires catchID != newBid && event.when > 0
    ensures
      var bs' := bs[catchID := Bucket(0, None, [])][newBid := Bucket(event.when, Some(catchID), [eventID])];
      var chain' := [newBid, catchID];
      Linked(bs', chain') && Indexed(bs', map[eventID := event], chain')
  {
    var bs' := bs[catchID := Bucket(0, None, [])][newBid := Bucket(event.when, Some(catchID), [eventID])];
    var chain' := [newBid, catchID];
    assert chain'[1..] == [catchID] && [catchID][1..] == [];
    assert Refs(bs', []) == [];
    assert Refs(bs', [catchID]) == [];
    assert Refs(bs', chain') == [eventID];
  }

  lemma HeadKeepsOrder(bs: Buckets, evs: Events, chain: seq<ID>, newBid: ID, eventID: ID, event: Event)
    requires chain != [] && Linked(bs, chain) && Indexed(bs, evs, chain) && eventID !in evs && newBid !in bs
    requires event.when > bs[chain[0]].start + BUCKET_MAX_AGE
    ensures
      var bs' := bs[newBid := Bucket(event.when, Some(chain[0]), [eventID])];
      var chain' := [newBid] + chain;
      Linked(bs', chain') && Indexed(bs', evs[eventID := event], chain')
  {
    var bs' := bs[newBid := Bucket(event.when, Some(chain[0]), [eventID])];
    var chain', evs' := [newBid] + chain, evs[eventID := event];
    assert forall i :: 0 < i < |chain'| ==> chain'[i] == chain[i - 1];
    HeadLinked(bs, bs', chain, newBid);
    assert chain'[1..] == chain;
    RefsFrame(bs, bs', chain);
    var refs := Refs(bs, chain);
    assert refs + [] == refs && refs + [eventID] + [] == refs + [eventID];
    InsertNoDup(refs, [], eventID);
    assert Refs(bs', chain') == refs + [eventID];
    forall i, e | 0 <= i < |chain'| && e in bs'[chain'[i]].refs ensures InPeriod(bs', evs', chain', i, e) {
    }
  }

  lemma HeadLinked(bs: Buckets, bs': Buckets, chain: seq<ID>, newBid: ID)
    requires chain != [] && Linked(bs, chain) && newBid !in bs && newBid in bs' && bs' == bs[newBid := bs'[newBid]]
    requires bs'[newBid].prev == Some(chain[0]) && bs'[newBid].start > bs[chain[0]].start
    ensures Linked(bs', [newBid] + chain)
  {
    var chain' := [newBid] + chain;
    assert forall i :: 0 < i < |chain'| ==> chain'[i] == chain[i - 1] && chain'[i] in bs;
    forall i, j | 0 <= i < j < |chain'| ensures bs'[chain'[i]].start > bs'[chain'[j]].start && chain'[i] != chain'[j] {
      if i > 0 {
        assert chain'[i] == chain[i - 1] && chain'[j] == chain[j - 1];
      } else {
        assert j > 1 ==> bs[chain[0]].start > bs[chain[j - 1]].start;
        assert chain'[j] == chain[j - 1];
      }
    }
  }

  lemma BucketKeepsOrder(bs: Buckets, evs: Events, chain: seq<ID>, k: nat, eventID: ID, event: Event)
    requires chain != [] && Linked(bs, chain) && Indexed(bs, evs, chain) && eventID !in evs && k < |chain|
    requires bs[chain[k]].start <= event.when
    requires if k > 0 then event.when < bs[chain[k - 1]].start
             else event.when <= bs[chain[0]].start + BUCKET_MAX_AGE
    ensures
      var bs' := bs[chain[k] := bs[chain[k]].(refs := bs[chain[k]].refs + [eventID])];
      Linked(bs', chain) && Indexed(bs', evs[eventID := event], chain)
  {
    var bs' := bs[chain[k] := bs[chain[k]].(refs := bs[chain[k]].refs + [eventID])];
    var evs' := evs[eventID := event];
    var pre, post := RefsInsert(bs, bs', chain, k, eventID);
    InsertNoDup(pre, post, eventID);
    forall i, e | 0 <= i < |chain| && e in bs'[chain[i]].refs ensures InPeriod(bs', evs', chain, i, e) {
      BucketPeriods(bs, bs', evs, chain, k, eventID, event, i, e);
    }
  }

  lemma BucketPeriods(bs: Buckets, bs': Buckets, evs: Events, chain: seq<ID>, k: nat, eventID: ID, event: Event, i: nat, e: ID)
    requires chain != [] && Linked(bs, chain) && Indexed(bs, evs, chain) && eventID !in evs && k < |chain| && i < |chain|
    requires bs[chain[k]].start <= event.when
    requires if k > 0 then event.when < bs[chain[k - 1]].start
             else event.when <= bs[chain[0]].start + BUCKET_MAX_AGE
    requires bs' == bs[chain[k] := bs[chain[k]].(refs := bs[chain[k]].refs + [eventID])] && e in bs'[chain[i]].refs
    ensures InPeriod(bs', evs[eventID := event], chain, i, e)
  {
    if e in bs[chain[i]].refs {
      assert InPeriod(bs, evs, chain, i, e);
    }
  }
}
