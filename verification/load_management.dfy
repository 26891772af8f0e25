/** The circuit breaker, the TTL cache and the `Cache-Control` header builder
    of the load-management library. The clock is an input: every operation
    that reads `Date.now()` takes the readings as parameters. */
module LoadManagement {
  import opened Text

  // ---------------------------------------------------------------------------
  // Circuit breaker
  // ---------------------------------------------------------------------------

  datatype BreakerState = Closed | Open | HalfOpen

  /** `CircuitBreakerConfig`: the slow-response threshold, the number of
      failures that opens the breaker, and how long it stays open. */
  datatype BreakerConfig = BreakerConfig(thresholdMs: int, failureCount: int, resetTimeMs: int)

  /** The four fields a breaker updates. */
  datatype Breaker = Breaker(state: BreakerState, failureCount: int, lastFailureTime: int, responseTime: int)

  /** How the wrapped call `fn` settled. */
  datatype Outcome<T> = Resolved(value: T) | Rejected(error: string)

  /** How `execute` settles: with `fn`'s value, with whatever the fallback
      gives, or with an error. */
  datatype Reply<T> = Value(value: T) | FromFallback | Failed(error: string)

  /** What one `execute` call does to the breaker, whether it ran `fn`, and
      its reply. */
  datatype Executed<T> = Executed(after: Breaker, called: bool, reply: Reply<T>)

  const OpenMessage := "Circuit breaker OPEN"

  /** An open breaker is still cooling down at time `now`. */
  predicate Blocks(b: Breaker, c: BreakerConfig, now: int)
  {
    b.state == Open && now - b.lastFailureTime <= c.resetTimeMs
  }

  /** One `execute`: `now` is the clock when the call starts, `finish` the
      clock once `fn` has settled with `outcome`; `hasFallback` says whether a
      fallback was passed. */
  function AfterExecute<T>(b: Breaker, c: BreakerConfig, now: int, finish: int, outcome: Outcome<T>, hasFallback: bool): Executed<T>
  {
    if Blocks(b, c, now) then
      Executed(b, false, if hasFallback then FromFallback else Failed(OpenMessage))
    else
      var trial := if b.state == Open then b.(state := HalfOpen) else b;
      match outcome
      case Resolved(v) =>
        var timed := trial.(responseTime := finish - now);
        if finish - now > c.thresholdMs then
          var n := trial.failureCount + 1;
          if n >= c.failureCount then
            Executed(timed.(failureCount := n, state := Open, lastFailureTime := finish), true, Value(v))
          else
            Executed(timed.(failureCount := n), true, Value(v))
        else
          Executed(timed.(failureCount := 0, state := Closed), true, Value(v))
      case Rejected(e) =>
        var n := trial.failureCount + 1;
        var failed := trial.(failureCount := n, lastFailureTime := finish,
                             state := if n >= c.failureCount then Open else trial.state);
        Executed(failed, true, if hasFallback && failed.state == Open then FromFallback else Failed(e))
  }

  /** The invariant the breaker keeps: the count is never negative, and a
      breaker that is not closed has seen at least the configured number of
      failures. */
  predicate Consistent(b: Breaker, c: BreakerConfig)
  {
    b.failureCount >= 0 && (b.state != Closed ==> b.failureCount >= c.failureCount)
  }

  /** What `getState` reports. */
  datatype BreakerReport = BreakerReport(state: BreakerState, failureCount: int, responseTime: int)

  class CircuitBreaker {
    var state: BreakerState
    var failureCount: int
    var lastFailureTime: int
    var responseTime: int
    const config: BreakerConfig

    function Fields(): Breaker
      reads this
    {
      Breaker(state, failureCount, lastFailureTime, responseTime)
    }

    predicate Valid()
      reads this
    {
      Consistent(Fields(), config)
    }

    constructor(config: BreakerConfig)
      ensures Fields() == Breaker(Closed, 0, 0, 0) && this.config == config
      ensures Valid()
    {
      state := Closed;
      failureCount := 0;
      lastFailureTime := 0;
      responseTime := 0;
      this.config := config;
    }

    /** `execute(fn, fallback)`. */
    method Execute<T>(now: int, finish: int, outcome: Outcome<T>, hasFallback: bool) returns (called: bool, reply: Reply<T>)
      modifies this
      ensures Executed(Fields(), called, reply) == AfterExecute(old(Fields()), config, now, finish, outcome, hasFallback)
      ensures old(Valid()) ==> Valid()
    {
      if Valid() {
        ExecuteKeepsConsistent(Fields(), config, now, finish, outcome, hasFallback);
      }
      if state == Open {
        if now - lastFailureTime > config.resetTimeMs {
          state := HalfOpen;
        } else {
          called := false;
          reply := if hasFallback then FromFallback else Failed(OpenMessage);
          return;
        }
      }
      called := true;
      match outcome {
        case Resolved(v) =>
          responseTime := finish - now;
          if responseTime > config.thresholdMs {
            failureCount := failureCount + 1;
            if failureCount >= config.failureCount {
              state := Open;
              lastFailureTime := finish;
            }
          } else {
            failureCount := 0;
            state := Closed;
          }
          reply := Value(v);
        case Rejected(e) =>
          failureCount := failureCount + 1;
          lastFailureTime := finish;
          if failureCount >= config.failureCount {
            state := Open;
          }
          reply := if hasFallback && state == Open then FromFallback else Failed(e);
      }
    }

    /** `getState()`. */
    function GetState(): (r: BreakerReport)
      reads this
      ensures Valid() ==> r.failureCount >= 0 && (r.state != Closed ==> r.failureCount >= config.failureCount)
    {
      BreakerReport(state, failureCount, responseTime)
    }

    /** `reset()`: closed with a zero count; the time of the last failure and
        the last response time are kept. */
    method Reset()
      modifies this
      ensures Fields() == old(Fields()).(state := Closed, failureCount := 0)
      ensures Valid()
    {
      state := Closed;
      failureCount := 0;
    }
  }

  /** Every call keeps the breaker consistent. */
  lemma ExecuteKeepsConsistent<T>(b: Breaker, c: BreakerConfig, now: int, finish: int, outcome: Outcome<T>, hasFallback: bool)
    requires Consistent(b, c)
    ensures Consistent(AfterExecute(b, c, now, finish, outcome, hasFallback).after, c)
  {
  }

  /** `fn` runs exactly when the breaker is not cooling down; while it is,
      nothing changes and the call is answered by the fallback or rejected. */
  lemma CoolingDownSkipsCall<T>(b: Breaker, c: BreakerConfig, now: int, finish: int, outcome: Outcome<T>, hasFallback: bool)
    ensures var r := AfterExecute(b, c, now, finish, outcome, hasFallback);
      && (r.called <==> !(b.state == Open && now - b.lastFailureTime <= c.resetTimeMs))
      && (!r.called ==> r.after == b && r.reply == if hasFallback then FromFallback else Failed(OpenMessage))
  {
  }

  /** A response within the threshold closes the breaker and clears the
      count, from any state the call was let through in. */
  lemma FastResponseCloses<T>(b: Breaker, c: BreakerConfig, now: int, finish: int, v: T, hasFallback: bool)
    requires !Blocks(b, c, now) && finish - now <= c.thresholdMs
    ensures var r := AfterExecute(b, c, now, finish, Resolved(v), hasFallback);
      r.after == b.(state := Closed, failureCount := 0, responseTime := finish - now) && r.reply == Value(v)
  {
  }

  /** A slow response counts as a failure and may open the breaker, but its
      value is still returned. */
  lemma SlowResponseCounts<T>(b: Breaker, c: BreakerConfig, now: int, finish: int, v: T, hasFallback: bool)
    requires !Blocks(b, c, now) && finish - now > c.thresholdMs
    ensures var r := AfterExecute(b, c, now, finish, Resolved(v), hasFallback);
      && r.reply == Value(v)
      && r.after.failureCount == b.failureCount + 1
      && r.after.responseTime == finish - now
      && (r.after.state == Open <==> b.failureCount + 1 >= c.failureCount)
      && (r.after.lastFailureTime == if b.failureCount + 1 >= c.failureCount then finish else b.lastFailureTime)
  {
  }

  /** A rejected call counts as a failure and records its time; the fallback
      answers only if the breaker is open afterwards, otherwise the error is
      passed on. */
  lemma ErrorCounts<T>(b: Breaker, c: BreakerConfig, now: int, finish: int, e: string, hasFallback: bool)
    requires !Blocks(b, c, now)
    ensures var r := AfterExecute<T>(b, c, now, finish, Rejected(e), hasFallback);
      && r.after.failureCount == b.failureCount + 1
      && r.after.lastFailureTime == finish
      && r.after.responseTime == b.responseTime
      && (b.failureCount + 1 >= c.failureCount ==> r.after.state == Open)
      && (r.reply == FromFallback <==> hasFallback && r.after.state == Open)
      && (r.reply != FromFallback ==> r.reply == Failed(e))
  {
  }

  /** The half-open trial does not clear the count, so one slow or failed
      trial opens the breaker again at once. */
  lemma TrialFailureReopens<T>(b: Breaker, c: BreakerConfig, now: int, finish: int, outcome: Outcome<T>, hasFallback: bool)
    requires Consistent(b, c) && b.state == Open && now - b.lastFailureTime > c.resetTimeMs
    requires outcome.Rejected? || finish - now > c.thresholdMs
    ensures AfterExecute(b, c, now, finish, outcome, hasFallback).after.state == Open
  {
  }

  /** A consistent breaker never ends a call half-open. */
  lemma NeverLeftHalfOpen<T>(b: Breaker, c: BreakerConfig, now: int, finish: int, outcome: Outcome<T>, hasFallback: bool)
    requires Consistent(b, c)
    ensures AfterExecute(b, c, now, finish, outcome, hasFallback).after.state != HalfOpen
  {
  }

  // ---------------------------------------------------------------------------
  // TTL cache
  // ---------------------------------------------------------------------------

  /** A cached value, the time it was stored and its lifetime in
      milliseconds. */
  datatype CacheEntry<T> = CacheEntry(data: T, timestamp: int, ttl: int)

  /** The cache's map after a `get`, and what the `get` returns. */
  datatype Lookup<T> = Lookup(entries: map<string, CacheEntry<T>>, data: Option<T>, isStale: bool)

  /** Entries older than 80% of their lifetime are served as stale. */
  const StaleThreshold: real := 0.8

  /** `get(key)` at time `now`: a missing key gives nothing; an entry past
      its lifetime is deleted and gives nothing; otherwise the value, marked
      stale once its age exceeds 80% of the lifetime. */
  function LookupAt<T>(entries: map<string, CacheEntry<T>>, key: string, now: int): Lookup<T>
  {
    if key !in entries then Lookup(entries, None, false)
    else
      var entry := entries[key];
      var age := now - entry.timestamp;
      if age > entry.ttl then Lookup(entries - {key}, None, false)
      else Lookup(entries, Some(entry.data), age as real > entry.ttl as real * StaleThreshold)
  }

  /** `clear(key?)`: a non-empty key removes that entry; no key, or the
      empty string, which is falsy, empties the cache. */
  function Cleared<T>(entries: map<string, CacheEntry<T>>, key: Option<string>): map<string, CacheEntry<T>>
  {
    if key.Some? && key.value != "" then entries - {key.value} else map[]
  }

  class SmartCache<T> {
    var entries: map<string, CacheEntry<T>>

    constructor()
      ensures entries == map[]
    {
      entries := map[];
    }

    /** `set(key, data, ttlSeconds)` at time `now`. */
    method Set(key: string, data: T, ttlSeconds: int, now: int)
      modifies this
      ensures entries == old(entries)[key := CacheEntry(data, now, ttlSeconds * 1000)]
    {
      entries := entries[key := CacheEntry(data, now, ttlSeconds * 1000)];
    }

    /** `get(key)` at time `now`. */
    method Get(key: string, now: int) returns (data: Option<T>, isStale: bool)
      modifies this
      ensures Lookup(entries, data, isStale) == LookupAt(old(entries), key, now)
    {
      if key !in entries {
        return None, false;
      }
      var entry := entries[key];
      var age := now - entry.timestamp;
      var isExpired := age > entry.ttl;
      isStale := age as real > entry.ttl as real * StaleThreshold;
      if isExpired {
        entries := entries - {key};
        return None, false;
      }
      data := Some(entry.data);
    }

    method Clear(key: Option<string>)
      modifies this
      ensures entries == Cleared(old(entries), key)
    {
      if key.Some? && key.value != "" {
        entries := entries - {key.value};
      } else {
        entries := map[];
      }
    }

    /** `size()`. */
    function Size(): nat
      reads this
    {
      |entries|
    }
  }

  /** The 80% rule on whole milliseconds: stale exactly when five times the
      age exceeds four times the lifetime. */
  lemma StaleInWholeNumbers(age: int, ttl: int)
    ensures (age as real > ttl as real * StaleThreshold) <==> 5 * age > 4 * ttl
  {
  }

  /** What a `get` returns and leaves behind, case by case. */
  lemma LookupCases<T>(entries: map<string, CacheEntry<T>>, key: string, now: int)
    ensures var r := LookupAt(entries, key, now);
      && (key !in entries ==> r == Lookup(entries, None, false))
      && (key in entries && now - entries[key].timestamp > entries[key].ttl ==>
            r == Lookup(entries - {key}, None, false))
      && (key in entries && now - entries[key].timestamp <= entries[key].ttl ==>
            && r.entries == entries
            && r.data == Some(entries[key].data)
            && (r.isStale <==> 5 * (now - entries[key].timestamp) > 4 * entries[key].ttl))
  {
    if key in entries {
      StaleInWholeNumbers(now - entries[key].timestamp, entries[key].ttl);
    }
  }

  /** A value stored for `ttlSeconds` is returned for that many seconds and
      is fresh for the first four fifths of them. */
  lemma SetThenGet<T>(entries: map<string, CacheEntry<T>>, key: string, data: T, ttlSeconds: int, at: int, now: int)
    requires at <= now <= at + ttlSeconds * 1000
    ensures var r := LookupAt(entries[key := CacheEntry(data, at, ttlSeconds * 1000)], key, now);
      r.data == Some(data) && (r.isStale <==> 5 * (now - at) > 4000 * ttlSeconds)
  {
    LookupCases(entries[key := CacheEntry(data, at, ttlSeconds * 1000)], key, now);
  }

  /** A `get` of one key neither drops nor changes any other entry. */
  lemma LookupKeepsOthers<T>(entries: map<string, CacheEntry<T>>, key: string, other: string, now: int)
    requires other != key
    ensures var r := LookupAt(entries, key, now);
      (other in r.entries <==> other in entries) && (other in entries ==> r.entries[other] == entries[other])
  {
  }

  /** Clearing a present non-empty key shrinks the cache by one; clearing
      with no key or the empty key empties it. */
  lemma ClearSizes<T>(entries: map<string, CacheEntry<T>>, key: Option<string>)
    ensures key.Some? && key.value != "" && key.value in entries ==> |Cleared(entries, key)| == |entries| - 1
    ensures key.Some? && key.value != "" && key.value !in entries ==> Cleared(entries, key) == entries
    ensures key.None? || key == Some("") ==> |Cleared(entries, key)| == 0
  {
  }

  // ---------------------------------------------------------------------------
  // Cache-Control header
  // ---------------------------------------------------------------------------

  /** The options of `createCachedResponse`: `max-age` in seconds, the
      optional `s-maxage`, and whether to add `stale-while-revalidate`. */
  datatype CacheOptions = CacheOptions(maxAge: int, sMaxAge: Option<int>, revalidate: bool)

  /** The directives that survive `.filter(Boolean)`: `s-maxage` only when it
      is present and non-zero, `stale-while-revalidate` only when asked for. */
  function Directives(o: CacheOptions): (r: seq<string>)
    ensures |r| >= 2 && r[0] == "public" && r[1] == "max-age=" + IntToString(o.maxAge)
    ensures |r| == 2 + (if o.sMaxAge.Some? && o.sMaxAge.value != 0 then 1 else 0) + (if o.revalidate then 1 else 0)
    ensures o.sMaxAge.Some? && o.sMaxAge.value != 0 ==> r[2] == "s-maxage=" + IntToString(o.sMaxAge.value)
    ensures o.revalidate ==> r[|r| - 1] == "stale-while-revalidate"
    ensures !o.revalidate ==> forall k :: 0 <= k < |r| ==> r[k] != "stale-while-revalidate"
  {
    var m := "max-age=" + IntToString(o.maxAge);
    var sm := if o.sMaxAge.Some? then "s-maxage=" + IntToString(o.sMaxAge.value) else "";
    assert m[0] != 's' && (sm != [] ==> sm[1] != 't');
    ["public", m]
    + (if o.sMaxAge.Some? && o.sMaxAge.value != 0 then ["s-maxage=" + IntToString(o.sMaxAge.value)] else [])
    + (if o.revalidate then ["stale-while-revalidate"] else [])
  }

  /** The `Cache-Control` value: the directives joined with `", "`. */
  function CacheControl(o: CacheOptions): string
  {
    Join(Directives(o), ", ")
  }

  /** How a cache reads the header: split at commas, with the optional
      whitespace around each directive removed. */
  function ReadDirectives(header: string): seq<string>
  {
    var parts := SplitOn(header, ',');
    seq(|parts|, k requires 0 <= k < |parts| => Trim(parts[k]))
  }

  lemma IntToStringNoComma(n: int)
    ensures ',' !in IntToString(n) && !IsJsSpace(IntToString(n)[|IntToString(n)| - 1])
  {
    var s := NatToString(if n >= 0 then n else -n);
    assert ',' !in s by {
      forall i | 0 <= i < |s| ensures s[i] != ',' { assert IsDigit(s[i]); }
    }
    assert IsDigit(s[|s| - 1]);
    if n < 0 {
      assert IntToString(n) == "-" + s;
    }
  }

  /** A directive free of commas that neither starts nor ends with
      whitespace. */
  predicate BareDirective(d: string)
  {
    ',' !in d && d != [] && !IsJsSpace(d[0]) && !IsJsSpace(d[|d| - 1])
  }

  predicate Bare(ds: seq<string>)
  {
    forall k :: 0 <= k < |ds| ==> BareDirective(ds[k])
  }

  lemma BareAppend(ds: seq<string>, d: string)
    requires Bare(ds) && BareDirective(d)
    ensures Bare(ds + [d])
  {
  }

  /** A name, `=` and a number. */
  lemma NumberedBare(name: string, n: int)
    requires name != [] && !IsJsSpace(name[0]) && ',' !in name
    ensures BareDirective(name + "=" + IntToString(n))
  {
    IntToStringNoComma(n);
    var s := name + "=" + IntToString(n);
    assert s[|s| - 1] == IntToString(n)[|IntToString(n)| - 1];
  }

  lemma DirectivesBare(o: CacheOptions)
    ensures Bare(Directives(o))
  {
    assert BareDirective("public");
    NumberedBare("max-age", o.maxAge);
    var ds := ["public", "max-age=" + IntToString(o.maxAge)];
    assert Bare(ds);
    if o.sMaxAge.Some? && o.sMaxAge.value != 0 {
      NumberedBare("s-maxage", o.sMaxAge.value);
      BareAppend(ds, "s-maxage=" + IntToString(o.sMaxAge.value));
      ds := ds + ["s-maxage=" + IntToString(o.sMaxAge.value)];
    }
    if o.revalidate {
      assert BareDirective("stale-while-revalidate");
      BareAppend(ds, "stale-while-revalidate");
      ds := ds + ["stale-while-revalidate"];
    }
    assert ds == Directives(o);
  }

  /** Joining bare directives with `", "` and reading them back is lossless. */
  lemma {:induction false} ReadJoined(ds: seq<string>)
    requires |ds| >= 1 && Bare(ds)
    ensures ReadDirectives(Join(ds, ", ")) == ds
  {
    assert [','] + " " == ", ";
    SplitJoin(ds, ',', " ");
    var parts := SplitOn(Join(ds, ", "), ',');
    assert parts == [ds[0]] + Padded(" ", ds[1..]);
    forall k | 0 <= k < |ds|
      ensures Trim(parts[k]) == ds[k]
    {
      if k == 0 {
        TrimFixed(ds[k]);
      } else {
        assert parts[k] == " " + ds[k];
        PaddedTrim(ds[k]);
      }
    }
  }

  /** Reading the header back gives exactly the directives that were
      written, in order. */
  lemma CacheControlReadsBack(o: CacheOptions)
    ensures ReadDirectives(CacheControl(o)) == Directives(o)
  {
    DirectivesBare(o);
    ReadJoined(Directives(o));
  }

  lemma PaddedTrim(d: string)
    requires d != [] && !IsJsSpace(d[0]) && !IsJsSpace(d[|d| - 1])
    ensures Trim(" " + d) == d
  {
    var s := " " + d;
    assert SkipSpace(s, 1) == 1;
    assert SkipSpace(s, 0) == 1;
    assert BackSpace(s, |s|) == |s|;
  }

  /** A zero `s-maxage` is dropped as if it were absent. */
  lemma ZeroSharedAgeDropped(maxAge: int, revalidate: bool)
    ensures CacheControl(CacheOptions(maxAge, Some(0), revalidate)) == CacheControl(CacheOptions(maxAge, None, revalidate))
  {
  }

  /** `stale-while-revalidate` is written bare, with no delta-seconds. */
  lemma RevalidateIsBare(o: CacheOptions)
    requires o.revalidate
    ensures Directives(o)[|Directives(o)| - 1] == "stale-while-revalidate"
  {
  }
}
