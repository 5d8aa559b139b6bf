/**
 * The avatar signature cache: concurrent requests for one key share a signing
 * in flight, a signature is reused for a bounded time from its start, and the
 * least recently used key goes when there are too many.
 *
 * Signing is asynchronous. A call returns a promise at once; whether and when
 * it settles is up to the signer, so runs interleave calls with settlements.
 */
module AvatarUrlCache {
  import opened Wrappers
  import opened OrderedMaps

  const MAX_ENTRIES := 1024
  const MAX_REUSE_MS := 60000.0
  const EXPIRY_MARGIN_SECONDS := 30.0

  datatype Status = Pending | Resolved | Failed

  /** A promise handed out for `key`, with the time its signing was started. */
  datatype Promise = Promise(key: string, startedAt: real, status: Status)

  /** Promises are named by their index in the list of all promises ever made. */
  datatype Entry = Entry(promise: nat, reuseUntil: real)

  datatype State = State(entries: OrderedMap<string, Entry>, promises: seq<Promise>)

  datatype Event = Call(key: string, now: real) | Resolve(promise: nat) | Reject(promise: nat)

  /** The reuse time is at most a minute, and leaves the margin of the lifetime. */
  function ReuseMs(expiresInSeconds: real): (ms: real)
    ensures 0.0 <= ms <= MAX_REUSE_MS
    ensures ms > 0.0 ==> ms + EXPIRY_MARGIN_SECONDS * 1000.0 <= expiresInSeconds * 1000.0
    ensures ms == 0.0 <==> expiresInSeconds <= EXPIRY_MARGIN_SECONDS
    ensures 0.0 < ms < MAX_REUSE_MS ==> ms + EXPIRY_MARGIN_SECONDS * 1000.0 == expiresInSeconds * 1000.0
  {
    var allowed := (expiresInSeconds - EXPIRY_MARGIN_SECONDS) * 1000.0;
    var capped := if allowed < MAX_REUSE_MS then allowed else MAX_REUSE_MS;
    if capped < 0.0 then 0.0 else capped
  }

  // ------------------------------------------------------------------- steps

  function Start(st: State, key: string, now: real): State {
    st.(promises := st.promises + [Promise(key, now, Pending)])
  }

  predicate Reusable(st: State, key: string, now: real) {
    key in st.entries.vals && now < st.entries.vals[key].reuseUntil
  }

  /** The state after a call, and the promise it returns. */
  function CallStep(st: State, reuseMs: real, key: string, now: real): (State, nat) {
    if reuseMs == 0.0 then (Start(st, key, now), |st.promises|)
    else if Reusable(st, key, now) then
      var entry := st.entries.vals[key];
      (st.(entries := Touch(st.entries, key, entry, MAX_ENTRIES)), entry.promise)
    else
      var entry := Entry(|st.promises|, now + reuseMs);
      (Start(st, key, now).(entries := Touch(st.entries, key, entry, MAX_ENTRIES)), entry.promise)
  }

  /** Settling is final: a promise that is not pending stays as it is. */
  function SettleStep(st: State, p: nat, ok: bool): State {
    if p >= |st.promises| || !st.promises[p].status.Pending? then st
    else
      var key := st.promises[p].key;
      var settled := st.(promises := st.promises[p := st.promises[p].(status := if ok then Resolved else Failed)]);
      if !ok && key in st.entries.vals && st.entries.vals[key].promise == p
      then settled.(entries := st.entries.Delete(key))
      else settled
  }

  function Step(st: State, reuseMs: real, e: Event): State {
    match e
    case Call(key, now) => CallStep(st, reuseMs, key, now).0
    case Resolve(p) => SettleStep(st, p, true)
    case Reject(p) => SettleStep(st, p, false)
  }

  function Run(events: seq<Event>, reuseMs: real): State {
    if events == [] then State(Empty(), [])
    else Step(Run(events[..|events| - 1], reuseMs), reuseMs, events[|events| - 1])
  }

  // ------------------------------------------------------------------ signer

  class AvatarUrlSigner {
    const reuseMs: real
    var st: State

    ghost predicate Valid()
      reads this
    {
      st.entries.Wf() && |st.entries.keys| <= MAX_ENTRIES
    }

    constructor (expiresInSeconds: real)
      ensures Valid() && reuseMs == ReuseMs(expiresInSeconds) && st == Run([], reuseMs)
    {
      reuseMs := ReuseMs(expiresInSeconds);
      st := State(Empty(), []);
    }

    method Call(key: string, now: real) returns (promise: nat)
      requires Valid()
      modifies this
      ensures Valid() && (st, promise) == CallStep(old(st), reuseMs, key, now)
    {
      hide Touch, OrderedMap.Wf, OrderedMap.Delete, OrderedMap.Set, OrderedMap.DropOldest;
      promise := |st.promises|;
      if reuseMs == 0.0 {
        st := Start(st, key, now);
        return;
      }
      var entries := st.entries;
      var existing := if key in entries.vals then Some(entries.vals[key]) else None;
      entries := entries.Delete(key);
      if existing.Some? && now < existing.value.reuseUntil {
        ReplaceIsTouch(st.entries, key, existing.value, MAX_ENTRIES);
        TouchWf(st.entries, key, existing.value, MAX_ENTRIES);
        st := st.(entries := entries.Set(key, existing.value));
        promise := existing.value.promise;
      } else {
        var entry := Entry(promise, now + reuseMs);
        MoveIsTouch(st.entries, key, entry, MAX_ENTRIES);
        TouchWf(st.entries, key, entry, MAX_ENTRIES);
        entries := entries.Set(key, entry);
        if |entries.keys| > MAX_ENTRIES {
          entries := entries.DropOldest(1);
        }
        st := Start(st, key, now).(entries := entries);
      }
    }

    /** The signer's completion, and the rejection handler of the entry it belongs to. */
    method Settle(promise: nat, ok: bool)
      requires Valid() && promise < |st.promises| && st.promises[promise].status.Pending?
      modifies this
      ensures Valid() && st == SettleStep(old(st), promise, ok)
    {
      var key := st.promises[promise].key;
      if !ok && key in st.entries.vals && st.entries.vals[key].promise == promise {
        DeleteWf(st.entries, key);
        st := st.(entries := st.entries.Delete(key));
      }
      st := st.(promises := st.promises[promise := st.promises[promise].(status := if ok then Resolved else Failed)]);
    }
  }

  // --------------------------------------------------------------- invariant

  /** An entry names a promise for its key that has not failed; its deadline is fixed at the start. */
  ghost predicate Sound(st: State, reuseMs: real) {
    && st.entries.Wf() && |st.entries.keys| <= MAX_ENTRIES
    && forall k :: k in st.entries.vals ==>
         var e := st.entries.vals[k];
         && e.promise < |st.promises| && st.promises[e.promise].key == k
         && e.reuseUntil == st.promises[e.promise].startedAt + reuseMs
         && !st.promises[e.promise].status.Failed?
  }

  lemma TouchHolds(m: OrderedMap<string, Entry>, k: string, e: Entry)
    requires m.Wf()
    ensures forall j :: j in Touch(m, k, e, MAX_ENTRIES).vals ==>
              if j == k then Touch(m, k, e, MAX_ENTRIES).vals[j] == e
              else j in m.vals && Touch(m, k, e, MAX_ENTRIES).vals[j] == m.vals[j]
  {}

  lemma SoundCall(st: State, reuseMs: real, key: string, now: real)
    requires Sound(st, reuseMs)
    ensures Sound(CallStep(st, reuseMs, key, now).0, reuseMs)
  {
    hide Touch, OrderedMap.Wf;
    var entry := if Reusable(st, key, now) then st.entries.vals[key] else Entry(|st.promises|, now + reuseMs);
    TouchWf(st.entries, key, entry, MAX_ENTRIES);
    TouchHolds(st.entries, key, entry);
  }

  lemma SoundSettle(st: State, reuseMs: real, p: nat, ok: bool)
    requires Sound(st, reuseMs)
    ensures Sound(SettleStep(st, p, ok), reuseMs)
  {
    if p < |st.promises| {
      DeleteWf(st.entries, st.promises[p].key);
    }
  }

  /** At most 1024 entries are held, none of them failed, at every point of every run. */
  lemma {:induction false} RunIsSound(events: seq<Event>, reuseMs: real)
    ensures Sound(Run(events, reuseMs), reuseMs)
  {
    if events != [] {
      var before := Run(events[..|events| - 1], reuseMs);
      RunIsSound(events[..|events| - 1], reuseMs);
      match events[|events| - 1]
      case Call(key, now) => SoundCall(before, reuseMs, key, now);
      case Resolve(p) => SoundSettle(before, reuseMs, p, true);
      case Reject(p) => SoundSettle(before, reuseMs, p, false);
    }
  }

  ghost predicate ClockReaches(events: seq<Event>, now: real) {
    forall e :: e in events && e.Call? ==> e.now <= now
  }

  lemma {:induction false} StartsAreCalls(events: seq<Event>, reuseMs: real, now: real)
    requires ClockReaches(events, now)
    ensures forall p :: p in Run(events, reuseMs).promises ==> p.startedAt <= now
  {
    if events != [] {
      var earlier := events[..|events| - 1];
      assert events[|events| - 1] in events;
      StartsAreCalls(earlier, reuseMs, now);
      var before := Run(earlier, reuseMs);
      forall p | p in Run(events, reuseMs).promises ensures p.startedAt <= now {
        var i :| 0 <= i < |Run(events, reuseMs).promises| && Run(events, reuseMs).promises[i] == p;
        assert i < |before.promises| ==> before.promises[i] in before.promises;
      }
    }
  }

  /**
   * What any call returns, after any run: a promise for its own key that has not
   * failed, either started now or started less than `reuseMs` ago. Hits in between
   * have not moved that deadline, and reuse leaves the expiry margin of the lifetime.
   */
  lemma CallReturnsUsablePromise(events: seq<Event>, expiresInSeconds: real, key: string, now: real)
    requires ClockReaches(events, now)
    ensures var reuseMs := ReuseMs(expiresInSeconds);
            var before := Run(events, reuseMs);
            var (after, p) := CallStep(before, reuseMs, key, now);
            && p < |after.promises| && after.promises[p].key == key && !after.promises[p].status.Failed?
            && 0.0 <= now - after.promises[p].startedAt
            && (p == |before.promises| ==> after.promises[p] == Promise(key, now, Pending))
            && (p != |before.promises| ==>
                  && after.promises == before.promises
                  && now - after.promises[p].startedAt < reuseMs
                  && now - after.promises[p].startedAt < (expiresInSeconds - EXPIRY_MARGIN_SECONDS) * 1000.0)
  {
    var reuseMs := ReuseMs(expiresInSeconds);
    RunIsSound(events, reuseMs);
    StartsAreCalls(events, reuseMs, now);
    var before := Run(events, reuseMs);
    var (after, p) := CallStep(before, reuseMs, key, now);
    if p < |before.promises| {
      assert before.promises[p] in before.promises;
    }
  }

  /** A call starts a signing exactly when no entry of the key is fresh, and only one. */
  lemma CallStartsAtMostOne(st: State, reuseMs: real, key: string, now: real)
    requires reuseMs >= 0.0
    ensures var (after, p) := CallStep(st, reuseMs, key, now);
            if reuseMs > 0.0 && key in st.entries.vals && now < st.entries.vals[key].reuseUntil
            then after.promises == st.promises && p == st.entries.vals[key].promise
            else after.promises == st.promises + [Promise(key, now, Pending)] && p == |st.promises|
  {}

  /** A lifetime within the margin is never reused: nothing is held. */
  lemma {:induction false} NothingHeldWithoutReuse(events: seq<Event>)
    ensures Run(events, 0.0).entries == Empty()
  {
    if events != [] {
      NothingHeldWithoutReuse(events[..|events| - 1]);
    }
  }

  /** A pending promise settles as the signer ended, once and for all, and no other promise changes. */
  lemma SettlesOnce(st: State, p: nat, ok: bool)
    ensures var after := SettleStep(st, p, ok);
            && |after.promises| == |st.promises|
            && (forall q :: 0 <= q < |st.promises| ==>
                  after.promises[q] ==
                  if q == p && st.promises[q].status == Pending
                  then Promise(st.promises[q].key, st.promises[q].startedAt, if ok then Resolved else Failed)
                  else st.promises[q])
            && (ok ==> after.entries == st.entries)
  {}

  /** A failure takes away its own entry and nothing else; everything kept keeps its order. */
  lemma FailureRemovesOnlyItself(events: seq<Event>, reuseMs: real, p: nat)
    ensures var before := Run(events, reuseMs);
            var after := SettleStep(before, p, false);
            && (forall k :: k in before.entries.vals && before.entries.vals[k].promise != p ==>
                  k in after.entries.vals && after.entries.vals[k] == before.entries.vals[k])
            && (forall k :: k in after.entries.vals ==>
                  k in before.entries.vals && after.entries.vals[k] == before.entries.vals[k])
            && (p < |before.promises| && before.promises[p].status.Pending? ==>
                  forall k :: k in after.entries.vals ==> after.entries.vals[k].promise != p)
            && (after.entries.keys == before.entries.keys ||
                exists k :: after.entries.keys == Without(before.entries.keys, k))
  {
    RunIsSound(events, reuseMs);
    var before := Run(events, reuseMs);
    if p < |before.promises| {
      assert SettleStep(before, p, false).entries.keys in
          [before.entries.keys, Without(before.entries.keys, before.promises[p].key)];
    }
  }

  // ------------------------------------------------------------ single flight

  /** The other keys called since the start of `mid`. */
  function OthersCalled(mid: seq<Event>, key: string): set<string> {
    if mid == [] then {}
    else
      var others := OthersCalled(mid[..|mid| - 1], key);
      match mid[|mid| - 1]
      case Call(k, _) => if k == key then {} else others + {k}
      case _ => others
  }

  /** Nothing in `mid` fails `p` or crowds `key` out. */
  ghost predicate Undisturbed(mid: seq<Event>, key: string, p: nat) {
    && Reject(p) !in mid
    && forall i :: 0 <= i <= |mid| ==> |OthersCalled(mid[..i], key)| < MAX_ENTRIES
  }

  ghost predicate Holds(st: State, key: string, entry: Entry, others: set<string>) {
    && FollowedBy(st.entries.keys, key, others)
    && key in st.entries.vals && st.entries.vals[key] == entry
  }

  lemma HoldsStep(st: State, reuseMs: real, key: string, entry: Entry, others: set<string>, e: Event)
    requires reuseMs > 0.0 && Sound(st, reuseMs) && Holds(st, key, entry, others)
    requires e.Call? && e.key == key ==> e.now < entry.reuseUntil
    requires e.Call? && e.key != key ==> |others + {e.key}| < MAX_ENTRIES
    requires e.Reject? ==> e.promise != entry.promise
    ensures Holds(Step(st, reuseMs, e), key, entry,
                  if !e.Call? then others else if e.key == key then {} else others + {e.key})
  {
    match e
    case Call(k, now) =>
      var touched := if Reusable(st, k, now) then st.entries.vals[k] else Entry(|st.promises|, now + reuseMs);
      if k == key {
        TouchedIsLast(st.entries, key, entry, MAX_ENTRIES);
      } else {
        TouchKeeps(st.entries, k, touched, MAX_ENTRIES, key, others);
      }
    case Resolve(p) =>
    case Reject(p) =>
      if p < |st.promises| {
        DeleteFollowedBy(st.entries, st.promises[p].key, key, others);
      }
  }

  lemma EarlierUndisturbed(mid: seq<Event>, key: string, p: nat)
    requires mid != [] && Undisturbed(mid, key, p)
    ensures Undisturbed(mid[..|mid| - 1], key, p)
    ensures |OthersCalled(mid, key)| < MAX_ENTRIES
  {
    var earlier := mid[..|mid| - 1];
    forall i | 0 <= i <= |earlier| ensures |OthersCalled(earlier[..i], key)| < MAX_ENTRIES {
      assert earlier[..i] == mid[..i];
    }
    assert mid[..|mid|] == mid;
  }

  lemma {:induction false} EntryIsKept(events: seq<Event>, mid: seq<Event>, reuseMs: real, key: string, entry: Entry)
    requires reuseMs > 0.0 && Holds(Run(events, reuseMs), key, entry, {})
    requires Undisturbed(mid, key, entry.promise)
    requires forall e :: e in mid && e.Call? && e.key == key ==> e.now < entry.reuseUntil
    ensures Holds(Run(events + mid, reuseMs), key, entry, OthersCalled(mid, key))
  {
    if mid == [] {
      assert events + [] == events;
    } else {
      var earlier, e := mid[..|mid| - 1], mid[|mid| - 1];
      EarlierUndisturbed(mid, key, entry.promise);
      EntryIsKept(events, earlier, reuseMs, key, entry);
      RunIsSound(events + earlier, reuseMs);
      assert (events + mid)[..|events + mid| - 1] == events + earlier && (events + mid)[|events + mid| - 1] == e;
      assert e in mid;
      HoldsStep(Run(events + earlier, reuseMs), reuseMs, key, entry, OthersCalled(earlier, key), e);
    }
  }

  /**
   * Single flight: after a call returned `p`, later calls for the key return `p`
   * too, pending or resolved, for as long as it is fresh, it has not failed, and
   * fewer than 1024 other keys were called since the key's last call.
   */
  lemma SharedWhileFresh(events: seq<Event>, mid: seq<Event>, reuseMs: real, key: string, now: real, later: real)
    requires reuseMs > 0.0
    requires var (after, p) := CallStep(Run(events, reuseMs), reuseMs, key, now);
             && Undisturbed(mid, key, p) && ClockReaches(mid, later)
             && p < |after.promises| && later - after.promises[p].startedAt < reuseMs
    ensures var p := CallStep(Run(events, reuseMs), reuseMs, key, now).1;
            var atThen := Run(events + [Call(key, now)] + mid, reuseMs);
            var (after, q) := CallStep(atThen, reuseMs, key, later);
            q == p && after.promises == atThen.promises
  {
    var before := Run(events, reuseMs);
    var (after, p) := CallStep(before, reuseMs, key, now);
    RunIsSound(events, reuseMs);
    SoundCall(before, reuseMs, key, now);
    var entry := if Reusable(before, key, now) then before.entries.vals[key] else Entry(p, now + reuseMs);
    TouchedIsLast(before.entries, key, entry, MAX_ENTRIES);
    assert (events + [Call(key, now)])[..|events|] == events;
    assert Run(events + [Call(key, now)], reuseMs) == after;
    EntryIsKept(events + [Call(key, now)], mid, reuseMs, key, entry);
  }
}
