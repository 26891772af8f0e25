/** The offline analytics queue: events are queued while offline (or when a
    send fails) and flushed later, after dropping repeats of the same event
    within one second. */
module AnalyticsQueue {
  import opened Text

  /** An `AnalyticsEvent`; `type` is spelt `kind`, the payload values are
      kept as text. */
  datatype AnalyticsEvent = AnalyticsEvent(
    kind: string,
    payload: map<string, string>,
    timestamp: int,
    eventId: Option<string>)

  /** `event.eventId || "anonymous"`: a missing or empty id is anonymous. */
  function IdOrAnonymous(eventId: Option<string>): (r: string)
    ensures r != ""
    ensures Truthy(eventId) ==> r == eventId.value
    ensures !Truthy(eventId) ==> r == "anonymous"
  {
    if eventId.Some? && eventId.value != "" then eventId.value else "anonymous"
  }

  /** `Math.floor(timestamp / 1000)`: the whole second of a millisecond time
      (Dafny's division by a positive divisor rounds down, as `floor` does). */
  function Second(timestamp: int): int
  {
    timestamp / 1000
  }

  /** The duplicate key `${id}_${type}_${second}`. */
  function Key(e: AnalyticsEvent): string
  {
    IdOrAnonymous(e.eventId) + "_" + e.kind + "_" + IntToString(Second(e.timestamp))
  }

  // The deduplication below is stated for any key function; the queue uses
  // it with `Key`.

  /** The keys of a list. */
  function KeysOf<T>(q: seq<T>, key: T -> string): set<string>
  {
    set i | 0 <= i < |q| :: key(q[i])
  }

  /** No two elements of the list share a key. */
  predicate DistinctKeys<T>(q: seq<T>, key: T -> string)
  {
    forall i, j :: 0 <= i < j < |q| ==> key(q[i]) != key(q[j])
  }

  /** `deduplicateQueue`'s filter: an element is kept exactly when no
      earlier element has its key. */
  function Dedup<T>(q: seq<T>, key: T -> string): seq<T>
  {
    if q == [] then []
    else
      var init, last := q[..|q| - 1], q[|q| - 1];
      Dedup(init, key) + (if key(last) in KeysOf(init, key) then [] else [last])
  }

  /** The module-level `queue` and the functions that use it. */
  class AnalyticsQueue {
    var queue: seq<AnalyticsEvent>

    constructor()
      ensures queue == []
    {
      queue := [];
    }

    /** `track(event)`: queued when offline, or when the immediate send
        rejects. */
    method Track(event: AnalyticsEvent, online: bool, sendRejects: bool)
      modifies this
      ensures queue == old(queue) + (if !online || sendRejects then [event] else [])
    {
      if !online {
        queue := queue + [event];
        return;
      }
      if sendRejects {
        queue := queue + [event];
      }
    }

    /** `deduplicateQueue`: the filter with its `seen` set. */
    method Deduplicate() returns (r: seq<AnalyticsEvent>)
      ensures r == Dedup(queue, Key)
    {
      var seen: set<string> := {};
      r := [];
      var i := 0;
      while i < |queue|
        invariant 0 <= i <= |queue|
        invariant r == Dedup(queue[..i], Key)
        invariant seen == KeysOf(queue[..i], Key)
      {
        var event := queue[i];
        var key := Key(event);
        DedupStep(queue, i, Key);
        if key !in seen {
          seen := seen + {key};
          r := r + [event];
        }
        i := i + 1;
      }
      assert queue[..i] == queue;
    }

    /** `flushAnalyticsQueue`: nothing happens to an empty queue; otherwise
        every deduplicated event is sent and the queue becomes the ones whose
        send failed. */
    method Flush(sendFails: AnalyticsEvent -> bool)
      modifies this
      ensures queue == if old(queue) == [] then [] else Filter(Dedup(old(queue), Key), sendFails)
    {
      if |queue| == 0 {
        return;
      }
      var deduplicated := Deduplicate();
      var failures: seq<AnalyticsEvent> := [];
      for i := 0 to |deduplicated|
        invariant failures == Filter(deduplicated[..i], sendFails)
      {
        FilterStep(deduplicated, i, sendFails);
        if sendFails(deduplicated[i]) {
          failures := failures + [deduplicated[i]];
        }
      }
      assert deduplicated[..|deduplicated|] == deduplicated;
      queue := failures;
    }

    /** `clearAnalyticsQueue`. */
    method Clear()
      modifies this
      ensures queue == []
    {
      queue := [];
    }

    /** `getQueueLength`. */
    function Length(): (n: nat)
      reads this
      ensures n == 0 <==> queue == []
    {
      |queue|
    }
  }

  /** Adding one element adds its key. */
  lemma KeysSnoc<T>(q: seq<T>, e: T, key: T -> string)
    ensures KeysOf(q + [e], key) == KeysOf(q, key) + {key(e)}
  {
    var p := q + [e];
    forall k | k in KeysOf(p, key)
      ensures k in KeysOf(q, key) + {key(e)}
    {
      var i :| 0 <= i < |p| && key(p[i]) == k;
      if i < |q| {
        assert p[i] == q[i];
      }
    }
    forall k | k in KeysOf(q, key)
      ensures k in KeysOf(p, key)
    {
      var i :| 0 <= i < |q| && key(q[i]) == k;
      assert p[i] == q[i];
    }
    assert p[|q|] == e;
  }

  /** Dropping the last element of a list without repeated keys leaves one
      whose keys are distinct and do not include the dropped key. */
  lemma DistinctInit<T>(q: seq<T>, key: T -> string)
    requires q != [] && DistinctKeys(q, key)
    ensures DistinctKeys(q[..|q| - 1], key)
    ensures key(q[|q| - 1]) !in KeysOf(q[..|q| - 1], key)
  {
    var init := q[..|q| - 1];
    forall i, j | 0 <= i < j < |init|
      ensures key(init[i]) != key(init[j])
    {
      assert init[i] == q[i] && init[j] == q[j];
    }
    forall i | 0 <= i < |init|
      ensures key(init[i]) != key(q[|q| - 1])
    {
      assert init[i] == q[i];
    }
  }

  /** Deduplicating a list with one more element at the end. */
  lemma DedupSnoc<T>(q: seq<T>, e: T, key: T -> string)
    ensures Dedup(q + [e], key) == Dedup(q, key) + (if key(e) in KeysOf(q, key) then [] else [e])
  {
    assert (q + [e])[..|q|] == q;
  }

  /** One more element considered. */
  lemma DedupStep<T>(q: seq<T>, i: nat, key: T -> string)
    requires i < |q|
    ensures Dedup(q[..i + 1], key) == Dedup(q[..i], key) + (if key(q[i]) in KeysOf(q[..i], key) then [] else [q[i]])
    ensures KeysOf(q[..i + 1], key) == KeysOf(q[..i], key) + {key(q[i])}
  {
    assert q[..i + 1][..i] == q[..i];
    assert q[..i + 1] == q[..i] + [q[i]];
    KeysSnoc(q[..i], q[i], key);
  }

  /** Deduplicating loses no key and adds none. */
  lemma {:induction false} DedupKeys<T>(q: seq<T>, key: T -> string)
    ensures KeysOf(Dedup(q, key), key) == KeysOf(q, key)
  {
    if q != [] {
      var init, last := q[..|q| - 1], q[|q| - 1];
      assert q == init + [last];
      assert Dedup(q, key) == Dedup(init, key) + (if key(last) in KeysOf(init, key) then [] else [last]);
      DedupKeys(init, key);
      KeysSnoc(init, last, key);
      if key(last) !in KeysOf(init, key) {
        KeysSnoc(Dedup(init, key), last, key);
      } else {
        assert KeysOf(q, key) == KeysOf(init, key);
        assert Dedup(q, key) == Dedup(init, key);
      }
    }
  }

  /** Appending an element whose key is new keeps the keys distinct. */
  lemma DistinctSnoc<T>(q: seq<T>, e: T, key: T -> string)
    requires DistinctKeys(q, key) && key(e) !in KeysOf(q, key)
    ensures DistinctKeys(q + [e], key)
  {
    var p := q + [e];
    forall i, j | 0 <= i < j < |p|
      ensures key(p[i]) != key(p[j])
    {
      assert p[i] == q[i];
      if j < |q| {
        assert p[j] == q[j];
      }
    }
  }

  /** No two deduplicated elements share a key. */
  lemma {:induction false} DedupDistinct<T>(q: seq<T>, key: T -> string)
    ensures DistinctKeys(Dedup(q, key), key)
  {
    if q != [] {
      var init, last := q[..|q| - 1], q[|q| - 1];
      DedupDistinct(init, key);
      if key(last) !in KeysOf(init, key) {
        DedupKeys(init, key);
        DistinctSnoc(Dedup(init, key), last, key);
      }
    }
  }

  /** Deduplicating keeps the survivors in their order. */
  lemma {:induction false} DedupSubsequence<T>(q: seq<T>, key: T -> string)
    ensures IsSubsequence(Dedup(q, key), q)
  {
    if q != [] {
      var init, last := q[..|q| - 1], q[|q| - 1];
      DedupSubsequence(init, key);
      var d := Dedup(q, key);
      if key(last) !in KeysOf(init, key) {
        assert d == Dedup(init, key) + [last];
        assert d[..|d| - 1] == Dedup(init, key);
      } else {
        assert d == Dedup(init, key);
      }
    }
  }

  /** A list without repeated keys is left as it is. */
  lemma {:induction false} DistinctUnchanged<T>(q: seq<T>, key: T -> string)
    requires DistinctKeys(q, key)
    ensures Dedup(q, key) == q
  {
    if q != [] {
      var init, last := q[..|q| - 1], q[|q| - 1];
      assert q == init + [last];
      DistinctInit(q, key);
      DistinctUnchanged(init, key);
      DedupSnoc(init, last, key);
    }
  }

  /** Deduplicating twice is deduplicating once. */
  lemma DedupIdempotent<T>(q: seq<T>, key: T -> string)
    ensures Dedup(Dedup(q, key), key) == Dedup(q, key)
  {
    DedupDistinct(q, key);
    DistinctUnchanged(Dedup(q, key), key);
  }

  /** What is picked brings no new key, and keys distinct before stay so. */
  lemma {:induction false} FilterKeys<T>(events: seq<T>, fails: T -> bool, key: T -> string)
    ensures KeysOf(Filter(events, fails), key) <= KeysOf(events, key)
    ensures DistinctKeys(events, key) ==> DistinctKeys(Filter(events, fails), key)
  {
    if events != [] {
      var init, last := events[..|events| - 1], events[|events| - 1];
      assert events == init + [last];
      FilterKeys(init, fails, key);
      KeysSnoc(init, last, key);
      var f := Filter(init, fails);
      if fails(last) {
        KeysSnoc(f, last, key);
        if DistinctKeys(events, key) {
          DistinctInit(events, key);
          DistinctSnoc(f, last, key);
        }
      }
    }
  }

  /** After a flush the queue holds no two events with the same key. */
  lemma FlushLeavesDistinct(q: seq<AnalyticsEvent>, sendFails: AnalyticsEvent -> bool)
    ensures DistinctKeys(Filter(Dedup(q, Key), sendFails), Key)
  {
    DedupDistinct(q, Key);
    FilterKeys(Dedup(q, Key), sendFails, Key);
  }

  /** When every send goes through, a flush empties the queue. */
  lemma AllSentEmpties(q: seq<AnalyticsEvent>, sendFails: AnalyticsEvent -> bool)
    requires forall e :: !sendFails(e)
    ensures Filter(Dedup(q, Key), sendFails) == []
  {
    NonePicked(Dedup(q, Key), sendFails);
  }

  /** Offline, a flush only drops duplicates, and a second flush changes
      nothing. */
  lemma SecondFlushStable(q: seq<AnalyticsEvent>, sendFails: AnalyticsEvent -> bool)
    requires forall e :: sendFails(e)
    ensures Filter(Dedup(q, Key), sendFails) == Dedup(q, Key)
    ensures Filter(Dedup(Filter(Dedup(q, Key), sendFails), Key), sendFails) == Filter(Dedup(q, Key), sendFails)
  {
    AllPicked(Dedup(q, Key), sendFails);
    DedupIdempotent(q, Key);
  }

  /** A missing id, an empty id and the id `anonymous` share their keys. */
  lemma AnonymousKeysAgree(kind: string, payload: map<string, string>, timestamp: int)
    ensures Key(AnalyticsEvent(kind, payload, timestamp, None)) == Key(AnalyticsEvent(kind, payload, timestamp, Some("")))
    ensures Key(AnalyticsEvent(kind, payload, timestamp, None)) == Key(AnalyticsEvent(kind, payload, timestamp, Some("anonymous")))
  {
  }

  /** Keys are glued with `_`, so moving an underscore-separated part between
      the id and the type gives the same key: ("a_b", "c") and ("a", "b_c")
      collide. */
  lemma UnderscoreCollision(a: string, b: string, c: string, timestamp: int)
    requires a != ""
    ensures Key(AnalyticsEvent(c, map[], timestamp, Some(a + "_" + b)))
         == Key(AnalyticsEvent(b + "_" + c, map[], timestamp, Some(a)))
  {
    var t := IntToString(Second(timestamp));
    assert (a + "_" + b) + "_" + c + "_" + t == a + "_" + (b + "_" + c) + "_" + t;
  }

  /** Events within the same second are duplicates; a second apart they are
      not. */
  lemma SameSecondSameKey(e: AnalyticsEvent, f: AnalyticsEvent)
    requires e.kind == f.kind && IdOrAnonymous(e.eventId) == IdOrAnonymous(f.eventId)
    ensures Second(e.timestamp) == Second(f.timestamp) ==> Key(e) == Key(f)
    ensures Key(e) == Key(f) ==> Second(e.timestamp) == Second(f.timestamp)
  {
    if Key(e) == Key(f) {
      var p := IdOrAnonymous(e.eventId) + "_" + e.kind + "_";
      assert Key(e) == p + IntToString(Second(e.timestamp));
      assert Key(f) == p + IntToString(Second(f.timestamp));
      assert IntToString(Second(e.timestamp)) == Key(e)[|p|..];
      IntToStringInjective(Second(e.timestamp), Second(f.timestamp));
    }
  }
}
