/** Offline support: retrying an action with exponential backoff, and the
    queue of actions saved while offline, replayed when the connection is
    back. The IndexedDB store is a map from action id to action. */
module Offline {
  import opened Text

  // ---------------------------------------------------------------------------
  // Retry with backoff
  // ---------------------------------------------------------------------------

  /** `retryConfig.maxAttempts`. */
  const MaxAttempts: nat := 3
  /** `retryConfig.backoff`, in milliseconds. */
  const InitialDelay: real := 1200.0
  const Multiplier: real := 1.8
  const MaxDelay: real := 5000.0

  /** What one call of `fn` does: resolve with a value or reject. */
  datatype Attempt<T> = Succeeded(value: T) | Failed(error: string)

  function Pow(x: real, n: nat): (r: real)
    ensures x >= 1.0 ==> r >= 1.0
  {
    if n == 0 then 1.0 else x * Pow(x, n - 1)
  }

  /** The wait after the `attempt`-th failure:
      `min(initial * multiplier^(attempt - 1), max)`. */
  function Delay(attempt: nat): (d: real)
    requires attempt >= 1
    ensures InitialDelay <= d <= MaxDelay
  {
    var grown := InitialDelay * Pow(Multiplier, attempt - 1);
    if grown < MaxDelay then grown else MaxDelay
  }

  /** The waits after failures 1 to `n`, in order. */
  function Schedule(n: nat): (s: seq<real>)
    ensures |s| == n
  {
    if n == 0 then [] else Schedule(n - 1) + [Delay(n)]
  }

  /** The number of times the `while` loop may run. */
  function Budget(maxAttempts: int): nat
  {
    if maxAttempts < 0 then 0 else maxAttempts
  }

  /** The first of the first `n` attempts that succeeds, or `n` when none
      does. */
  function FirstSuccess<T>(fn: nat -> Attempt<T>, n: nat): (k: nat)
    ensures k <= n
    ensures k < n ==> fn(k).Succeeded?
    ensures forall j :: 0 <= j < k ==> fn(j).Failed?
  {
    if n == 0 then 0
    else
      var k := FirstSuccess(fn, n - 1);
      if k < n - 1 then k
      else if fn(n - 1).Succeeded? then n - 1
      else n
  }

  /** What `retryWithBackoff` ends with: the outcome it returns or throws,
      how many times it called `fn`, and the waits it made. */
  datatype RetryRun<T> = RetryRun(result: Attempt<T>, calls: nat, delays: seq<real>)

  /** The error of line 105, thrown when the loop never runs. */
  function ExhaustedError(actionName: string): string
  {
    actionName + " exhausted all retry attempts"
  }

  /** The run of `retryWithBackoff`, stated without its loop: the first
      success is returned; after `maxAttempts` failures the last error is
      rethrown; between attempts the schedule is followed. */
  function Retry<T>(fn: nat -> Attempt<T>, maxAttempts: int, actionName: string): RetryRun<T>
  {
    var b := Budget(maxAttempts);
    var k := FirstSuccess(fn, b);
    if k < b then RetryRun(fn(k), k + 1, Schedule(k))
    else if b >= 1 then RetryRun(fn(b - 1), b, Schedule(b - 1))
    else RetryRun(Failed(ExhaustedError(actionName)), 0, [])
  }

  /** `retryWithBackoff(fn, actionName)`: `fn(i)` is the outcome of the
      `i`-th call (from 0); the waits are recorded instead of slept. */
  method RetryWithBackoff<T>(fn: nat -> Attempt<T>, maxAttempts: int, actionName: string)
    returns (result: Attempt<T>, calls: nat, delays: seq<real>)
    ensures RetryRun(result, calls, delays) == Retry(fn, maxAttempts, actionName)
  {
    var attempt: nat := 0;
    calls := 0;
    delays := [];
    while attempt < maxAttempts
      invariant attempt <= Budget(maxAttempts)
      invariant attempt == 0 || attempt < maxAttempts
      invariant calls == attempt
      invariant FirstSuccess(fn, attempt) == attempt
      invariant delays == Schedule(attempt)
    {
      var outcome := fn(attempt);
      calls := calls + 1;
      if outcome.Succeeded? {
        return outcome, calls, delays;
      }
      attempt := attempt + 1;
      if attempt >= maxAttempts {
        return outcome, calls, delays;
      }
      var delay := Delay(attempt);
      delays := delays + [delay];
    }
    return Failed(ExhaustedError(actionName)), calls, delays;
  }

  /** `fn` is called at most `maxAttempts` times, and at least once when
      that is positive. */
  lemma RetryCalls<T>(fn: nat -> Attempt<T>, maxAttempts: int, actionName: string)
    ensures Retry(fn, maxAttempts, actionName).calls <= Budget(maxAttempts)
    ensures maxAttempts >= 1 ==> Retry(fn, maxAttempts, actionName).calls >= 1
  {
  }

  /** The first success is what is returned, after failures only. */
  lemma RetryReturnsFirstSuccess<T>(fn: nat -> Attempt<T>, maxAttempts: int, actionName: string, k: nat)
    requires k < maxAttempts && fn(k).Succeeded?
    requires forall j :: 0 <= j < k ==> fn(j).Failed?
    ensures Retry(fn, maxAttempts, actionName) == RetryRun(fn(k), k + 1, Schedule(k))
  {
  }

  /** When every allowed attempt fails, the last error is rethrown. */
  lemma RetryRethrowsLast<T>(fn: nat -> Attempt<T>, maxAttempts: int, actionName: string)
    requires maxAttempts >= 1
    requires forall j :: 0 <= j < maxAttempts ==> fn(j).Failed?
    ensures Retry(fn, maxAttempts, actionName).result == fn(maxAttempts - 1)
    ensures Retry(fn, maxAttempts, actionName).calls == maxAttempts
  {
  }

  /** With at least one attempt allowed, every outcome comes from `fn`: the
      error of line 105 is thrown only when `maxAttempts` is below 1. */
  lemma ExhaustedOnlyWithoutAttempts<T>(fn: nat -> Attempt<T>, maxAttempts: int, actionName: string)
    ensures maxAttempts >= 1 ==> Retry(fn, maxAttempts, actionName).result == fn(Retry(fn, maxAttempts, actionName).calls - 1)
    ensures maxAttempts < 1 ==> Retry(fn, maxAttempts, actionName).result == Failed(ExhaustedError(actionName))
  {
  }

  /** Waits grow with the attempt number and never exceed `backoff.max`. */
  lemma DelaysGrow(attempt: nat)
    requires attempt >= 1
    ensures Delay(attempt) <= Delay(attempt + 1) <= MaxDelay
  {
    var p := Pow(Multiplier, attempt - 1);
    assert Pow(Multiplier, attempt) == Multiplier * p;
  }

  /** With the configured three attempts, the waits are 1200 ms and then
      2160 ms. */
  lemma ConfiguredSchedule()
    ensures Schedule(MaxAttempts - 1) == [1200.0, 2160.0]
  {
    assert Pow(Multiplier, 1) == 1.8;
  }

  // ---------------------------------------------------------------------------
  // The action queue
  // ---------------------------------------------------------------------------

  datatype ActionType = RegisterEvent | SaveProfile | AddMembership

  /** A `QueuedAction`; the payload is kept as text. */
  datatype QueuedAction = QueuedAction(
    id: string,
    kind: ActionType,
    payload: string,
    createdAt: int,
    retryCount: int)

  /** The store is keyed by `id` (`keyPath: 'id'`). */
  predicate KeyedById(actions: map<string, QueuedAction>)
  {
    forall id :: id in actions ==> actions[id].id == id
  }

  /** `getAll` lists every stored action once. */
  predicate Lists(snapshot: seq<QueuedAction>, actions: map<string, QueuedAction>)
  {
    && |snapshot| == |actions|
    && (forall i :: 0 <= i < |snapshot| ==> snapshot[i].id in actions && actions[snapshot[i].id] == snapshot[i])
    && (forall i, j :: 0 <= i < j < |snapshot| ==> snapshot[i].id != snapshot[j].id)
  }

  /** What `processQueue` does with one listed action. */
  function Step(actions: map<string, QueuedAction>, a: QueuedAction, handled: set<ActionType>, succeeds: QueuedAction -> bool): map<string, QueuedAction>
  {
    if a.kind !in handled then actions
    else if succeeds(a) then actions - {a.id}
    else
      var updated := a.(retryCount := a.retryCount + 1);
      if updated.retryCount >= MaxAttempts then actions - {a.id}
      else actions[a.id := updated]
  }

  /** The store after the listed actions were handled in order. */
  function Processed(actions: map<string, QueuedAction>, listed: seq<QueuedAction>, handled: set<ActionType>, succeeds: QueuedAction -> bool): map<string, QueuedAction>
  {
    if listed == [] then actions
    else Step(Processed(actions, listed[..|listed| - 1], handled, succeeds), listed[|listed| - 1], handled, succeeds)
  }

  /** What becomes of one action: kept as it is when no handler takes it,
      removed after a success or its last allowed failure, written back with
      one more retry otherwise. */
  function Fate(a: QueuedAction, handled: set<ActionType>, succeeds: QueuedAction -> bool): Option<QueuedAction>
  {
    if a.kind !in handled then Some(a)
    else if succeeds(a) || a.retryCount + 1 >= MaxAttempts then None
    else Some(a.(retryCount := a.retryCount + 1))
  }

  function Lookup(actions: map<string, QueuedAction>, id: string): Option<QueuedAction>
  {
    if id in actions then Some(actions[id]) else None
  }

  /** The IndexedDB object store of queued actions. */
  class ActionStore {
    var actions: map<string, QueuedAction>

    constructor()
      ensures actions == map[] && Valid()
    {
      actions := map[];
    }

    predicate Valid()
      reads this
    {
      KeyedById(actions)
    }

    /** `addToQueue(action)`: `idTime` and `createdAt` are the two readings
        of the clock the source takes (they may differ), and `suffix` stands
        for the random part of the id. `db.add` refuses an id already stored,
        and the failure is only logged. */
    method AddToQueue(kind: ActionType, payload: string, idTime: nat, createdAt: nat, suffix: string)
      modifies this
      ensures var a := QueuedAction(NatToString(idTime) + "_" + suffix, kind, payload, createdAt, 0);
        actions == if a.id in old(actions) then old(actions) else old(actions)[a.id := a]
      ensures old(Valid()) ==> Valid()
    {
      var a := QueuedAction(NatToString(idTime) + "_" + suffix, kind, payload, createdAt, 0);
      if a.id !in actions {
        actions := actions[a.id := a];
      }
    }

    /** `removeFromQueue(actionId)`. */
    method RemoveFromQueue(actionId: string)
      modifies this
      ensures actions == old(actions) - {actionId}
      ensures old(Valid()) ==> Valid()
    {
      actions := actions - {actionId};
    }

    /** `clearQueue`. */
    method ClearQueue()
      modifies this
      ensures actions == map[] && Valid()
    {
      actions := map[];
    }

    /** `processQueue(handlers)`: `snapshot` is what `getActionQueue`
        listed, `handled` the action types that have a handler and
        `succeeds` whether the handler resolves for an action. */
    method ProcessQueue(snapshot: seq<QueuedAction>, handled: set<ActionType>, succeeds: QueuedAction -> bool)
      modifies this
      ensures actions == Processed(old(actions), snapshot, handled, succeeds)
      ensures old(Valid()) ==> Valid()
    {
      for i := 0 to |snapshot|
        invariant actions == Processed(old(actions), snapshot[..i], handled, succeeds)
        invariant old(Valid()) ==> Valid()
      {
        var action := snapshot[i];
        assert snapshot[..i + 1][..i] == snapshot[..i];
        if action.kind !in handled {
          continue;
        }
        if succeeds(action) {
          actions := actions - {action.id};
        } else {
          var updatedAction := action.(retryCount := action.retryCount + 1);
          if updatedAction.retryCount >= MaxAttempts {
            actions := actions - {action.id};
          } else {
            actions := actions[action.id := updatedAction];
          }
        }
      }
      assert snapshot[..|snapshot|] == snapshot;
    }
  }

  /** Handling an action touches its own entry only. */
  lemma StepOthers(actions: map<string, QueuedAction>, a: QueuedAction, handled: set<ActionType>, succeeds: QueuedAction -> bool, id: string)
    requires id != a.id
    ensures Lookup(Step(actions, a, handled, succeeds), id) == Lookup(actions, id)
  {
  }

  /** Handling an action leaves its fate in its entry. */
  lemma StepOwn(actions: map<string, QueuedAction>, a: QueuedAction, handled: set<ActionType>, succeeds: QueuedAction -> bool)
    requires Lookup(actions, a.id) == Some(a)
    ensures Lookup(Step(actions, a, handled, succeeds), a.id) == Fate(a, handled, succeeds)
  {
  }

  /** After the listed actions were handled, each listed action's entry is
      its fate, and every other entry is as it was. */
  lemma {:induction false} ProcessedEntries(actions: map<string, QueuedAction>, listed: seq<QueuedAction>, handled: set<ActionType>, succeeds: QueuedAction -> bool, id: string)
    requires forall i :: 0 <= i < |listed| ==> Lookup(actions, listed[i].id) == Some(listed[i])
    requires forall i, j :: 0 <= i < j < |listed| ==> listed[i].id != listed[j].id
    ensures (forall i :: 0 <= i < |listed| ==> listed[i].id != id) ==>
      Lookup(Processed(actions, listed, handled, succeeds), id) == Lookup(actions, id)
    ensures forall i :: 0 <= i < |listed| && listed[i].id == id ==>
      Lookup(Processed(actions, listed, handled, succeeds), id) == Fate(listed[i], handled, succeeds)
  {
    if listed != [] {
      var init, last := listed[..|listed| - 1], listed[|listed| - 1];
      ProcessedEntries(actions, init, handled, succeeds, id);
      var before := Processed(actions, init, handled, succeeds);
      if last.id == id {
        ProcessedEntries(actions, init, handled, succeeds, last.id);
        assert forall i :: 0 <= i < |init| ==> init[i].id != id by {
          forall i | 0 <= i < |init|
            ensures init[i].id != id
          {
            assert init[i] == listed[i];
          }
        }
        StepOwn(before, last, handled, succeeds);
        forall i | 0 <= i < |listed| && listed[i].id == id
          ensures listed[i] == last
        {
        }
      } else {
        StepOthers(before, last, handled, succeeds, id);
        forall i | 0 <= i < |listed| && listed[i].id == id
          ensures i < |init| && init[i] == listed[i]
        {
        }
      }
    }
  }

  /** `processQueue` as a whole: every stored action ends up as its fate
      says; in particular an action with no handler is left untouched. */
  lemma ProcessQueueOutcome(actions: map<string, QueuedAction>, snapshot: seq<QueuedAction>, handled: set<ActionType>, succeeds: QueuedAction -> bool, id: string)
    requires Lists(snapshot, actions)
    requires id in actions
    ensures Lookup(Processed(actions, snapshot, handled, succeeds), id) == Fate(actions[id], handled, succeeds)
  {
    ListedOnce(snapshot, actions, id);
    ProcessedEntries(actions, snapshot, handled, succeeds, id);
  }

  /** A stored id appears in the listing. */
  lemma ListedOnce(snapshot: seq<QueuedAction>, actions: map<string, QueuedAction>, id: string)
    requires Lists(snapshot, actions)
    requires id in actions
    ensures exists i :: 0 <= i < |snapshot| && snapshot[i].id == id
  {
    var ids := set i | 0 <= i < |snapshot| :: snapshot[i].id;
    if id !in ids {
      assert ids <= actions.Keys - {id};
      IdsCount(snapshot);
      assert |actions.Keys - {id}| == |actions| - 1;
      SubsetCard(ids, actions.Keys - {id});
      assert false;
    }
  }

  /** Distinct ids count the listing. */
  lemma {:induction false} IdsCount(snapshot: seq<QueuedAction>)
    requires forall i, j :: 0 <= i < j < |snapshot| ==> snapshot[i].id != snapshot[j].id
    ensures |set i | 0 <= i < |snapshot| :: snapshot[i].id| == |snapshot|
  {
    if snapshot != [] {
      var init := snapshot[..|snapshot| - 1];
      IdsCount(init);
      var before := set i | 0 <= i < |init| :: init[i].id;
      var after := set i | 0 <= i < |snapshot| :: snapshot[i].id;
      assert after == before + {snapshot[|snapshot| - 1].id} by {
        forall x | x in after
          ensures x in before + {snapshot[|snapshot| - 1].id}
        {
          var i :| 0 <= i < |snapshot| && snapshot[i].id == x;
          if i < |init| {
            assert init[i] == snapshot[i];
          }
        }
        forall x | x in before
          ensures x in after
        {
          var i :| 0 <= i < |init| && init[i].id == x;
          assert init[i] == snapshot[i];
        }
      }
      assert snapshot[|snapshot| - 1].id !in before by {
        forall i | 0 <= i < |init|
          ensures init[i].id != snapshot[|snapshot| - 1].id
        {
          assert init[i] == snapshot[i];
        }
      }
    }
  }

  lemma SubsetCard(a: set<string>, b: set<string>)
    requires a <= b
    ensures |a| <= |b|
  {
    if a != {} {
      var x :| x in a;
      SubsetCard(a - {x}, b - {x});
    }
  }

  /** `processQueue` adds no action. */
  lemma {:induction false} ProcessedAddsNothing(actions: map<string, QueuedAction>, listed: seq<QueuedAction>, handled: set<ActionType>, succeeds: QueuedAction -> bool)
    requires forall i :: 0 <= i < |listed| ==> listed[i].id in actions
    ensures Processed(actions, listed, handled, succeeds).Keys <= actions.Keys
  {
    if listed != [] {
      ProcessedAddsNothing(actions, listed[..|listed| - 1], handled, succeeds);
    }
  }

  /** `getLastRegistrationIntent`: the payload of the first listed
      `REGISTER_EVENT` action, if any. */
  function LastRegistrationIntent(snapshot: seq<QueuedAction>): Option<string>
  {
    if snapshot == [] then None
    else if snapshot[0].kind == RegisterEvent then Some(snapshot[0].payload)
    else LastRegistrationIntent(snapshot[1..])
  }

  /** The intent is found exactly when a registration is listed, and it is
      the payload of the first one. */
  lemma {:induction false} RegistrationIntentFound(snapshot: seq<QueuedAction>)
    ensures LastRegistrationIntent(snapshot).None? <==> forall i :: 0 <= i < |snapshot| ==> snapshot[i].kind != RegisterEvent
    ensures LastRegistrationIntent(snapshot).Some? ==>
      exists k :: (0 <= k < |snapshot| && snapshot[k].kind == RegisterEvent
        && LastRegistrationIntent(snapshot).value == snapshot[k].payload
        && forall i :: 0 <= i < k ==> snapshot[i].kind != RegisterEvent)
  {
    if snapshot != [] && snapshot[0].kind != RegisterEvent {
      var rest := snapshot[1..];
      RegistrationIntentFound(rest);
      assert forall i :: 1 <= i < |snapshot| ==> snapshot[i] == rest[i - 1];
      if LastRegistrationIntent(rest).Some? {
        var k :| 0 <= k < |rest| && rest[k].kind == RegisterEvent && LastRegistrationIntent(rest).value == rest[k].payload
          && forall i :: 0 <= i < k ==> rest[i].kind != RegisterEvent;
        assert snapshot[k + 1] == rest[k];
      }
    }
  }
}
