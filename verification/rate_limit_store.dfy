/**
 * Fixed-window rate limiting: the in-memory store, an insertion-ordered map
 * with least-recently-used eviction, and the PostgreSQL store, one upsert per
 * request with batched cleanup. Both are measured against one unbounded
 * counter per key that is never evicted and never cleaned up.
 *
 * Times are whole milliseconds.
 */
module RateLimitStore {
  import opened Wrappers
  import opened OrderedMaps

  const MAX_SAFE_INTEGER := 9007199254740991
  const MAX_RATE_LIMIT_REQUESTS := MAX_SAFE_INTEGER - 1
  const MAX_RATE_LIMIT_WINDOW_SECONDS := MAX_SAFE_INTEGER / 1000

  datatype Op =
    | Increment(key: string, limit: int, windowSeconds: int, now: int)
    | Reset(key: string)
    | Clear

  datatype Outcome =
    | Decision(allowed: bool, currentCount: int, limit: int, resetAt: int, retryAfter: int)
    | RangeError
    | Done

  datatype Counter = Counter(count: int, windowStart: int)

  predicate ArgumentsOk(limit: int, windowSeconds: int) {
    0 < limit <= MAX_RATE_LIMIT_REQUESTS && 0 < windowSeconds <= MAX_RATE_LIMIT_WINDOW_SECONDS
  }

  function Min(a: int, b: int): int {
    if a < b then a else b
  }

  /** `Math.ceil(ms / 1000)`. */
  function CeilSeconds(ms: int): int {
    -(-ms / 1000)
  }

  function Bump(counter: Option<Counter>, limit: int, windowSeconds: int, now: int): Counter {
    match counter
    case None => Counter(1, now)
    case Some(c) =>
      if now - c.windowStart >= windowSeconds * 1000 then Counter(1, now)
      else Counter(Min(c.count + 1, limit + 1), c.windowStart)
  }

  function Decide(c: Counter, limit: int, windowSeconds: int, now: int): Outcome {
    var resetAtMs := c.windowStart + windowSeconds * 1000;
    var wait := CeilSeconds(resetAtMs - now);
    Decision(c.count <= limit, c.count, limit, resetAtMs / 1000, if wait < 0 then 0 else wait)
  }

  function Lookup<V>(m: map<string, V>, k: string): Option<V> {
    if k in m then Some(m[k]) else None
  }

  predicate Uses(op: Op, k: string) {
    op.Increment? && op.key == k && ArgumentsOk(op.limit, op.windowSeconds)
  }

  predicate Forgets(op: Op, k: string) {
    op.Clear? || (op.Reset? && op.key == k)
  }

  // ------------------------------------------------------ reference limiter

  function RefStep(m: map<string, Counter>, op: Op): (map<string, Counter>, Outcome) {
    match op
    case Increment(k, limit, seconds, now) =>
      if !ArgumentsOk(limit, seconds) then (m, RangeError)
      else
        var c := Bump(Lookup(m, k), limit, seconds, now);
        (m[k := c], Decide(c, limit, seconds, now))
    case Reset(k) => (m - {k}, Done)
    case Clear => (map[], Done)
  }

  function RefRun(ops: seq<Op>): map<string, Counter> {
    if ops == [] then map[] else RefStep(RefRun(ops[..|ops| - 1]), ops[|ops| - 1]).0
  }

  /** The answer to the last operation of a run. */
  function RefAnswer(ops: seq<Op>): Outcome
    requires ops != []
  {
    RefStep(RefRun(ops[..|ops| - 1]), ops[|ops| - 1]).1
  }

  // --------------------------------------------------------- in-memory store

  type Store = OrderedMap<string, Counter>

  function MemStep(m: Store, maxItems: int, op: Op): (Store, Outcome) {
    match op
    case Increment(k, limit, seconds, now) =>
      if !ArgumentsOk(limit, seconds) then (m, RangeError)
      else
        var c := Bump(Lookup(m.vals, k), limit, seconds, now);
        (Touch(m, k, c, maxItems), Decide(c, limit, seconds, now))
    case Reset(k) => (m.Delete(k), Done)
    case Clear => (Empty(), Done)
  }

  function MemRun(ops: seq<Op>, maxItems: int): Store {
    if ops == [] then Empty() else MemStep(MemRun(ops[..|ops| - 1], maxItems), maxItems, ops[|ops| - 1]).0
  }

  function MemAnswer(ops: seq<Op>, maxItems: int): Outcome
    requires ops != []
  {
    MemStep(MemRun(ops[..|ops| - 1], maxItems), maxItems, ops[|ops| - 1]).1
  }

  class MemoryRateLimitStore {
    const maxItems: int
    var counters: Store

    ghost predicate Valid()
      reads this
    {
      counters.Wf() && |counters.keys| <= Cap(maxItems)
    }

    constructor (maxItems: int)
      ensures Valid() && this.maxItems == maxItems && counters == MemRun([], maxItems)
    {
      this.maxItems := maxItems;
      this.counters := Empty();
    }

    method Increment(key: string, limit: int, windowSeconds: int, now: int) returns (r: Outcome)
      requires Valid()
      modifies this
      ensures Valid()
      ensures (counters, r) == MemStep(old(counters), maxItems, Op.Increment(key, limit, windowSeconds, now))
    {
      hide Touch, OrderedMap.Evicted, OrderedMap.Delete, OrderedMap.Set, OrderedMap.Wf, CeilSeconds;
      if !ArgumentsOk(limit, windowSeconds) {
        return RangeError;
      }
      var windowMs := windowSeconds * 1000;
      var entry;
      ghost var before := counters;
      if key !in counters.vals {
        entry := Counter(1, now);
        SetWf(counters, key, entry);
        FreshKey(before, key, entry, maxItems);
        counters := counters.Set(key, entry);
        EvictIfNeeded();
      } else {
        entry := counters.vals[key];
        var windowElapsed := now - entry.windowStart;
        if windowElapsed >= windowMs {
          entry := Counter(1, now);
        } else {
          entry := entry.(count := Min(entry.count + 1, limit + 1));
        }
        ReplaceIsTouch(before, key, entry, maxItems);
        counters := counters.Delete(key);
        counters := counters.Set(key, entry);
      }
      assert entry == Bump(Lookup(before.vals, key), limit, windowSeconds, now);
      TouchWf(before, key, entry, maxItems);
      var resetAtMs := entry.windowStart + windowMs;
      var retryAfter := CeilSeconds(resetAtMs - now);
      if retryAfter < 0 {
        retryAfter := 0;
      }
      r := Decision(entry.count <= limit, entry.count, limit, resetAtMs / 1000, retryAfter);
    }

    method EvictIfNeeded()
      requires counters.Wf()
      modifies this
      ensures counters == old(counters).Evicted(maxItems)
    {
      hide OrderedMap.Wf, OrderedMap.DropOldest, OrderedMap.Evicted;
      ghost var all, dropped := counters, 0;
      DropNothing(all);
      while |counters.keys| > maxItems && counters.keys != []
        invariant dropped <= |all.keys| && counters == all.DropOldest(dropped) && |counters.keys| == |all.keys| - dropped
        invariant dropped == 0 || |all.keys| - dropped >= Cap(maxItems)
        decreases |all.keys| - dropped
      {
        DropOneMore(all, dropped);
        counters := counters.DropOldest(1);
        dropped := dropped + 1;
      }
      DropsToCap(all, dropped, maxItems);
    }

    method Reset(key: string)
      requires Valid()
      modifies this
      ensures Valid() && counters == MemStep(old(counters), maxItems, Op.Reset(key)).0
    {
      DeleteWf(counters, key);
      counters := counters.Delete(key);
    }

    method Clear()
      modifies this
      ensures Valid() && counters == MemStep(old(counters), maxItems, Op.Clear).0
    {
      counters := Empty();
    }
  }

  lemma FreshKey(m: Store, k: string, c: Counter, maxItems: int)
    requires m.Wf() && k !in m.vals
    ensures m.Set(k, c).Evicted(maxItems) == Touch(m, k, c, maxItems)
  {
    DeleteAbsent(m, k);
  }

  lemma DropNothing(m: Store)
    requires m.Wf()
    ensures m.DropOldest(0) == m
  {
    assert m.DropOldest(0).vals == m.vals;
  }

  lemma DropsToCap(m: Store, n: nat, maxItems: int)
    requires m.Wf() && n <= |m.keys| && (|m.keys| - n <= maxItems || n == |m.keys|)
    requires n == 0 || |m.keys| - n >= Cap(maxItems)
    ensures m.DropOldest(n) == m.Evicted(maxItems)
  {
    DropNothing(m);
  }

  lemma DropOneMore(m: Store, n: nat)
    requires m.Wf() && n < |m.keys|
    ensures |m.DropOldest(n).keys| == |m.keys| - n && |m.DropOldest(n + 1).keys| == |m.keys| - (n + 1)
    ensures m.DropOldest(n + 1) == m.DropOldest(n).DropOldest(1)
  {
    assert m.keys[..n + 1] == m.keys[..n] + [m.keys[n]];
    assert m.keys[n..][..1] == [m.keys[n]];
    assert m.DropOldest(n + 1).vals == m.DropOldest(n).DropOldest(1).vals;
  }

  /** The store is well formed and never over its capacity. */
  lemma {:induction false} MemRunBounded(ops: seq<Op>, maxItems: int)
    ensures MemRun(ops, maxItems).Wf() && |MemRun(ops, maxItems).keys| <= Cap(maxItems)
  {
    if ops != [] {
      var before := MemRun(ops[..|ops| - 1], maxItems);
      MemRunBounded(ops[..|ops| - 1], maxItems);
      match ops[|ops| - 1]
      case Increment(k, limit, seconds, now) =>
        TouchWf(before, k, Bump(Lookup(before.vals, k), limit, seconds, now), maxItems);
      case Reset(k) => DeleteWf(before, k);
      case Clear =>
    }
  }

  // ------------------------------------------------------------ recency order

  /** Index of the last use of `k` that no reset or clear has forgotten; -1 if none. */
  function LastUse(ops: seq<Op>, k: string): (i: int)
    ensures -1 <= i < |ops|
  {
    if ops == [] then -1
    else if Uses(ops[|ops| - 1], k) then |ops| - 1
    else if Forgets(ops[|ops| - 1], k) then -1
    else LastUse(ops[..|ops| - 1], k)
  }

  ghost predicate InUseOrder(ops: seq<Op>, keys: seq<string>) {
    forall i, j :: 0 <= i < j < |keys| ==> LastUse(ops, keys[i]) < LastUse(ops, keys[j])
  }

  ghost predicate RecencyOrder(ops: seq<Op>, keys: seq<string>) {
    && InUseOrder(ops, keys)
    && (forall k :: k in keys ==> LastUse(ops, k) >= 0)
    && (forall x, k :: k in keys && x !in keys ==> LastUse(ops, x) < LastUse(ops, k))
  }

  /**
   * The store iterates in order of last use, and what it has dropped was
   * last used before everything it still holds.
   */
  lemma {:induction false} IterationIsRecency(ops: seq<Op>, maxItems: int)
    ensures RecencyOrder(ops, MemRun(ops, maxItems).keys)
  {
    if ops != [] {
      var earlier, op := ops[..|ops| - 1], ops[|ops| - 1];
      var before := MemRun(earlier, maxItems);
      IterationIsRecency(earlier, maxItems);
      MemRunBounded(earlier, maxItems);
      assert earlier + [op] == ops;
      match op
      case Clear =>
      case Reset(k) =>
        DeleteRecency(earlier, op, before.keys);
      case Increment(k, limit, seconds, now) =>
        if ArgumentsOk(limit, seconds) {
          TouchRecency(earlier, op, before, Bump(Lookup(before.vals, k), limit, seconds, now), maxItems);
        } else {
          assert forall x :: LastUse(ops, x) == LastUse(earlier, x);
        }
    }
  }

  lemma LastUseOfOthers(earlier: seq<Op>, op: Op, x: string)
    requires !Uses(op, x) && !Forgets(op, x)
    ensures LastUse(earlier + [op], x) == LastUse(earlier, x)
  {
    assert (earlier + [op])[..|earlier|] == earlier;
  }

  lemma WithoutInUseOrder(ops: seq<Op>, keys: seq<string>, k: string)
    requires Distinct(keys) && InUseOrder(ops, keys)
    ensures InUseOrder(ops, Without(keys, k))
  {
    var rank := (x: string) => LastUse(ops, x);
    assert Ascending(keys, rank);
    WithoutAscending(keys, k, rank);
    var rest := Without(keys, k);
    forall i, j | 0 <= i < j < |rest| ensures LastUse(ops, rest[i]) < LastUse(ops, rest[j]) {
      assert rank(rest[i]) < rank(rest[j]);
    }
  }

  /** Without `k`, the keys are in order of use before and after an operation on `k` alone. */
  lemma WithoutRecency(earlier: seq<Op>, op: Op, k: string, keys: seq<string>)
    requires Distinct(keys) && RecencyOrder(earlier, keys)
    requires forall x :: x != k ==> !Uses(op, x) && !Forgets(op, x)
    ensures var rest := Without(keys, k);
            && InUseOrder(earlier + [op], rest) && k !in rest
            && (forall x :: x in rest ==> LastUse(earlier + [op], x) >= 0)
            && (forall x, y :: y in rest && x !in rest && x != k ==> LastUse(earlier + [op], x) < LastUse(earlier + [op], y))
            && (forall x :: x != k ==> LastUse(earlier + [op], x) < |earlier|)
  {
    WithoutKeepsOthers(keys, k);
    WithoutInUseOrder(earlier, keys, k);
    forall x | x != k ensures LastUse(earlier + [op], x) == LastUse(earlier, x) {
      LastUseOfOthers(earlier, op, x);
    }
  }

  lemma DeleteRecency(earlier: seq<Op>, op: Op, keys: seq<string>)
    requires op.Reset? && Distinct(keys) && RecencyOrder(earlier, keys)
    ensures RecencyOrder(earlier + [op], Without(keys, op.key))
  {
    WithoutRecency(earlier, op, op.key, keys);
  }

  lemma MovedRecency(earlier: seq<Op>, op: Op, keys: seq<string>)
    requires op.Increment? && Uses(op, op.key) && Distinct(keys) && RecencyOrder(earlier, keys)
    ensures RecencyOrder(earlier + [op], Without(keys, op.key) + [op.key])
  {
    WithoutRecency(earlier, op, op.key, keys);
    var ops, moved := earlier + [op], Without(keys, op.key) + [op.key];
    assert LastUse(ops, op.key) == |earlier|;
    forall x, y | y in moved && x !in moved ensures LastUse(ops, x) < LastUse(ops, y) {}
  }

  lemma TouchRecency(earlier: seq<Op>, op: Op, before: Store, c: Counter, maxItems: int)
    requires before.Wf() && RecencyOrder(earlier, before.keys) && op.Increment? && Uses(op, op.key)
    ensures RecencyOrder(earlier + [op], Touch(before, op.key, c, maxItems).keys)
  {
    MovedRecency(earlier, op, before.keys);
    var moved := before.Delete(op.key).Set(op.key, c).keys;
    assert moved == Without(before.keys, op.key) + [op.key];
    var over := |moved| - Cap(maxItems);
    if over > 0 {
      SuffixRecency(earlier + [op], moved, over);
    }
  }

  lemma SuffixRecency(ops: seq<Op>, keys: seq<string>, n: nat)
    requires RecencyOrder(ops, keys) && n <= |keys|
    ensures RecencyOrder(ops, keys[n..])
  {
    var kept := keys[n..];
    forall x, k | k in kept && x !in kept ensures LastUse(ops, x) < LastUse(ops, k) {
      if x in keys {
        var i :| 0 <= i < |keys| && keys[i] == x;
        var j :| n <= j < |keys| && keys[j] == k;
        assert forall p :: n <= p < |keys| ==> keys[p] in kept;
      }
    }
  }

  // ----------------------------------------------- agreement with the reference

  function OthersNow(others: set<string>, op: Op, k: string): set<string> {
    if Uses(op, k) || Forgets(op, k) then {}
    else if op.Increment? && Uses(op, op.key) then others + {op.key}
    else others
  }

  /** The other keys used since the last remembered use of `k`. */
  function OthersSince(ops: seq<Op>, k: string): set<string> {
    if ops == [] then {} else OthersNow(OthersSince(ops[..|ops| - 1], k), ops[|ops| - 1], k)
  }

  /** Between two consecutive uses of `k`, fewer than `maxItems` other keys are used. */
  ghost predicate WellSpaced(ops: seq<Op>, k: string, maxItems: int) {
    forall i {:trigger ops[i]} :: 0 <= i < |ops| && Uses(ops[i], k) && LastUse(ops[..i], k) >= 0 ==>
      |OthersSince(ops[..i], k)| < maxItems
  }

  /** What the store knows of `k` is what the reference knows, unless it was crowded out. */
  ghost predicate Tracks(m: Store, ref: map<string, Counter>, k: string, others: set<string>, maxItems: int) {
    && FollowedBy(m.keys, k, others)
    && (k in m.vals ==> k in ref && m.vals[k] == ref[k])
    && (k in ref && |others| < maxItems ==> k in m.vals)
  }

  lemma TracksOtherUse(m: Store, ref: map<string, Counter>, k: string, others: set<string>, maxItems: int,
                       j: string, c: Counter, d: Counter)
    requires m.Wf() && Tracks(m, ref, k, others, maxItems) && j != k
    ensures Tracks(Touch(m, j, c, maxItems), ref[j := d], k, others + {j}, maxItems)
  {
    TouchKeeps(m, j, c, maxItems, k, others);
    CardSubset(others, others + {j});
  }

  lemma TracksOwnUse(m: Store, ref: map<string, Counter>, k: string, maxItems: int, c: Counter)
    requires m.Wf()
    ensures Tracks(Touch(m, k, c, maxItems), ref[k := c], k, {}, maxItems)
  {
    TouchedIsLast(m, k, c, maxItems);
  }

  lemma TracksReset(m: Store, ref: map<string, Counter>, k: string, others: set<string>, maxItems: int, j: string)
    requires m.Wf() && Tracks(m, ref, k, others, maxItems)
    ensures Tracks(m.Delete(j), ref - {j}, k, if j == k then {} else others, maxItems)
  {
    DeleteWf(m, j);
    DeleteFollowedBy(m, j, k, others);
    if j == k {
      assert k !in m.Delete(k).keys;
    }
  }

  lemma TracksStep(m: Store, ref: map<string, Counter>, k: string, others: set<string>, maxItems: int, op: Op)
    requires m.Wf() && Tracks(m, ref, k, others, maxItems)
    requires Uses(op, k) && k in ref ==> |others| < maxItems
    ensures Tracks(MemStep(m, maxItems, op).0, RefStep(ref, op).0, k, OthersNow(others, op, k), maxItems)
  {
    match op
    case Clear =>
    case Reset(j) => TracksReset(m, ref, k, others, maxItems, j);
    case Increment(j, limit, seconds, now) =>
      if ArgumentsOk(limit, seconds) {
        var c := Bump(Lookup(m.vals, j), limit, seconds, now);
        if j == k {
          TracksOwnUse(m, ref, k, maxItems, c);
        } else {
          TracksOtherUse(m, ref, k, others, maxItems, j, c, Bump(Lookup(ref, j), limit, seconds, now));
        }
      }
  }

  lemma {:induction false} StoreTracksReference(ops: seq<Op>, k: string, maxItems: int)
    requires WellSpaced(ops, k, maxItems)
    ensures Tracks(MemRun(ops, maxItems), RefRun(ops), k, OthersSince(ops, k), maxItems)
    ensures k in RefRun(ops) <==> LastUse(ops, k) >= 0
  {
    if ops != [] {
      var earlier, op := ops[..|ops| - 1], ops[|ops| - 1];
      PrefixWellSpaced(ops, |ops| - 1, k, maxItems);
      StoreTracksReference(earlier, k, maxItems);
      MemRunBounded(earlier, maxItems);
      TracksStep(MemRun(earlier, maxItems), RefRun(earlier), k, OthersSince(earlier, k), maxItems, op);
    }
  }

  lemma PrefixWellSpaced(ops: seq<Op>, n: nat, k: string, maxItems: int)
    requires n <= |ops| && WellSpaced(ops, k, maxItems)
    ensures WellSpaced(ops[..n], k, maxItems)
  {
    forall i | 0 <= i < n && Uses(ops[..n][i], k) && LastUse(ops[..n][..i], k) >= 0
      ensures |OthersSince(ops[..n][..i], k)| < maxItems
    {
      assert ops[..n][..i] == ops[..i] && ops[..n][i] == ops[i];
    }
  }

  /** A key that is never crowded out gets the answers of the unbounded limiter. */
  lemma MemoryAnswersLikeReference(ops: seq<Op>, k: string, maxItems: int)
    requires ops != [] && Uses(ops[|ops| - 1], k) && WellSpaced(ops, k, maxItems)
    ensures MemAnswer(ops, maxItems) == RefAnswer(ops)
  {
    var earlier := ops[..|ops| - 1];
    PrefixWellSpaced(ops, |ops| - 1, k, maxItems);
    StoreTracksReference(earlier, k, maxItems);
    MemRunBounded(earlier, maxItems);
    assert LastUse(ops[..|ops| - 1], k) >= 0 ==> |OthersSince(earlier, k)| < maxItems;
  }

  // -------------------------------------------------------- windows of a key

  /** `k` is only ever used with this limit and window, in time order, and never forgotten. */
  ghost predicate Steady(ops: seq<Op>, k: string, limit: int, seconds: int) {
    && ArgumentsOk(limit, seconds)
    && (forall i {:trigger ops[i]} :: 0 <= i < |ops| ==> !Forgets(ops[i], k))
    && (forall i {:trigger ops[i]} :: 0 <= i < |ops| && Uses(ops[i], k) ==>
          ops[i].limit == limit && ops[i].windowSeconds == seconds)
    && (forall i, j :: 0 <= i < j < |ops| && Uses(ops[i], k) && Uses(ops[j], k) ==> ops[i].now <= ops[j].now)
  }

  lemma EarlierSteady(ops: seq<Op>, k: string, limit: int, seconds: int)
    requires ops != [] && Steady(ops, k, limit, seconds)
    ensures Steady(ops[..|ops| - 1], k, limit, seconds)
  {}

  /** How many requests for `k` were admitted at times in `[from, to)`. */
  function AdmittedIn(ops: seq<Op>, k: string, from: int, to: int): nat {
    if ops == [] then 0
    else
      var op := ops[|ops| - 1];
      AdmittedIn(ops[..|ops| - 1], k, from, to) +
      if Uses(op, k) && from <= op.now < to && RefAnswer(ops).allowed then 1 else 0
  }

  /** How many requests for `k` were made at `from` or later. */
  function UsesFrom(ops: seq<Op>, k: string, from: int): nat {
    if ops == [] then 0
    else
      var op := ops[|ops| - 1];
      UsesFrom(ops[..|ops| - 1], k, from) + if Uses(op, k) && op.now >= from then 1 else 0
  }

  lemma {:induction false} NoUsesAfterTheLast(ops: seq<Op>, k: string, from: int)
    requires forall i {:trigger ops[i]} :: 0 <= i < |ops| && Uses(ops[i], k) ==> ops[i].now < from
    ensures UsesFrom(ops, k, from) == 0
  {
    if ops != [] {
      var earlier := ops[..|ops| - 1];
      assert Uses(ops[|ops| - 1], k) ==> ops[|ops| - 1].now < from;
      forall i | 0 <= i < |earlier| && Uses(earlier[i], k) ensures earlier[i].now < from {
        assert earlier[i] == ops[i];
      }
      NoUsesAfterTheLast(earlier, k, from);
    }
  }

  /** The counter's view of a steady key. */
  ghost predicate WindowKnown(ops: seq<Op>, k: string, limit: int, seconds: int) {
    var last := LastUse(ops, k);
    match Lookup(RefRun(ops), k)
    case None => last == -1
    case Some(c) =>
      && last >= 0 && Uses(ops[last], k)
      && c.windowStart <= ops[last].now < c.windowStart + seconds * 1000
      && (forall i {:trigger ops[i]} :: 0 <= i < |ops| && Uses(ops[i], k) ==> ops[i].now <= ops[last].now)
      && c.count == Min(UsesFrom(ops, k, c.windowStart), limit + 1) >= 1
  }

  lemma {:induction false} CountIsUsesInWindow(ops: seq<Op>, k: string, limit: int, seconds: int)
    requires Steady(ops, k, limit, seconds)
    ensures WindowKnown(ops, k, limit, seconds)
  {
    if ops != [] {
      var earlier, op := ops[..|ops| - 1], ops[|ops| - 1];
      EarlierSteady(ops, k, limit, seconds);
      CountIsUsesInWindow(earlier, k, limit, seconds);
      assert !Forgets(ops[|ops| - 1], k);
      if Uses(op, k) {
        forall i | 0 <= i < |ops| && Uses(ops[i], k) ensures ops[i].now <= op.now {
          assert Uses(ops[|ops| - 1], k);
        }
        var last := LastUse(earlier, k);
        if last >= 0 && op.now - RefRun(earlier)[k].windowStart >= seconds * 1000 {
          NoUsesAfterTheLast(earlier, k, op.now);
        } else if last == -1 {
          NeverUsed(earlier, k);
          NoUsesAfterTheLast(earlier, k, op.now);
        }
      } else {
        NoUseKeepsCounter(earlier, op, k);
      }
    }
  }

  lemma {:induction false} NeverUsed(ops: seq<Op>, k: string)
    requires LastUse(ops, k) == -1
    requires forall i {:trigger ops[i]} :: 0 <= i < |ops| ==> !Forgets(ops[i], k)
    ensures forall i {:trigger ops[i]} :: 0 <= i < |ops| ==> !Uses(ops[i], k)
  {
    if ops != [] {
      var earlier := ops[..|ops| - 1];
      assert !Forgets(ops[|ops| - 1], k);
      forall i | 0 <= i < |earlier| ensures !Forgets(earlier[i], k) {
        assert earlier[i] == ops[i];
      }
      NeverUsed(earlier, k);
      forall i | 0 <= i < |ops| ensures !Uses(ops[i], k) {
        assert i < |earlier| ==> earlier[i] == ops[i];
      }
    }
  }

  lemma NoUseKeepsCounter(ops: seq<Op>, op: Op, k: string)
    requires !Uses(op, k) && !Forgets(op, k)
    ensures Lookup(RefRun(ops + [op]), k) == Lookup(RefRun(ops), k)
  {
    assert (ops + [op])[..|ops|] == ops;
  }

  /** What may have been admitted so far in an interval one window long. */
  ghost predicate Budgeted(ops: seq<Op>, k: string, limit: int, window: int, from: int) {
    var admitted := AdmittedIn(ops, k, from, from + window);
    match Lookup(RefRun(ops), k)
    case None => admitted == 0
    case Some(c) =>
      && LastUse(ops, k) >= 0 && ops[LastUse(ops, k)].Increment?
      && (ops[LastUse(ops, k)].now < from ==> admitted == 0)
      && (c.windowStart < from ==> admitted <= Min(c.count, limit) - 1)
      && (from <= c.windowStart < from + window ==> admitted <= limit - 1 + Min(c.count, limit))
      && admitted <= 2 * limit - 1
  }

  lemma BudgetedStep(earlier: seq<Op>, op: Op, k: string, limit: int, seconds: int, from: int)
    requires Steady(earlier + [op], k, limit, seconds)
    requires Budgeted(earlier, k, limit, seconds * 1000, from) && WindowKnown(earlier, k, limit, seconds)
    ensures Budgeted(earlier + [op], k, limit, seconds * 1000, from)
  {
    hide RefRun, AdmittedIn, LastUse, UsesFrom;
    var ops := earlier + [op];
    assert ops[|ops| - 1] == op;
    assert !Forgets(ops[|ops| - 1], k);
    RefRunNext(earlier, op, k, from, from + seconds * 1000);
    if !Uses(op, k) {
      NoUseKeepsCounter(earlier, op, k);
      LastUseOfOthers(earlier, op, k);
    } else {
      assert op.limit == limit && op.windowSeconds == seconds by {
        assert Uses(ops[|ops| - 1], k);
      }
      OneMore(earlier, k, limit, seconds, op.now, from, from + seconds * 1000);
      LastUseOfUser(earlier, op, k);
      var last := LastUse(earlier, k);
      if last >= 0 {
        assert ops[last] == earlier[last];
        assert Uses(earlier[last], k) ==> Uses(ops[last], k) && Uses(ops[|ops| - 1], k);
      }
    }
  }

  lemma LastUseOfUser(earlier: seq<Op>, op: Op, k: string)
    requires Uses(op, k)
    ensures LastUse(earlier + [op], k) == |earlier|
  {}

  lemma {:induction false} BudgetedRun(ops: seq<Op>, k: string, limit: int, seconds: int, from: int)
    requires Steady(ops, k, limit, seconds)
    ensures Budgeted(ops, k, limit, seconds * 1000, from)
  {
    if ops != [] {
      var earlier := ops[..|ops| - 1];
      EarlierSteady(ops, k, limit, seconds);
      BudgetedRun(earlier, k, limit, seconds, from);
      CountIsUsesInWindow(earlier, k, limit, seconds);
      assert ops == earlier + [ops[|ops| - 1]];
      BudgetedStep(earlier, ops[|ops| - 1], k, limit, seconds, from);
    }
  }

  /**
   * Any interval one window long admits fewer than twice the limit: the second
   * of the two windows it can meet starts inside it, the first before it.
   */
  lemma AtMostTwiceTheLimit(ops: seq<Op>, k: string, limit: int, seconds: int, from: int)
    requires Steady(ops, k, limit, seconds)
    ensures AdmittedIn(ops, k, from, from + seconds * 1000) <= 2 * limit - 1
  {
    BudgetedRun(ops, k, limit, seconds, from);
  }

  lemma RefRunNext(ops: seq<Op>, op: Op, k: string, from: int, to: int)
    ensures RefRun(ops + [op]) == RefStep(RefRun(ops), op).0
    ensures AdmittedIn(ops + [op], k, from, to) ==
            AdmittedIn(ops, k, from, to) +
            if Uses(op, k) && from <= op.now < to && RefStep(RefRun(ops), op).1.allowed then 1 else 0
  {
    assert (ops + [op])[..|ops|] == ops;
  }

  // ------------------------------------------------------ the bound is reached

  /** `n` requests for `k` at one time. */
  function Burst(k: string, limit: int, seconds: int, now: int, n: nat): (ops: seq<Op>)
    ensures |ops| == n && forall i :: 0 <= i < n ==> ops[i] == Increment(k, limit, seconds, now)
  {
    if n == 0 then [] else Burst(k, limit, seconds, now, n - 1) + [Increment(k, limit, seconds, now)]
  }

  lemma BurstGrows(ops: seq<Op>, k: string, limit: int, seconds: int, now: int, n: nat)
    ensures ops + Burst(k, limit, seconds, now, 0) == ops
    ensures n > 0 ==>
              ops + Burst(k, limit, seconds, now, n) ==
              ops + Burst(k, limit, seconds, now, n - 1) + [Increment(k, limit, seconds, now)]
  {}

  /** One more request for `k`, told by the counter it finds. */
  lemma OneMore(ops: seq<Op>, k: string, limit: int, seconds: int, now: int, from: int, to: int)
    requires ArgumentsOk(limit, seconds)
    ensures var all, c := ops + [Increment(k, limit, seconds, now)], Bump(Lookup(RefRun(ops), k), limit, seconds, now);
            && Lookup(RefRun(all), k) == Some(c)
            && AdmittedIn(all, k, from, to) ==
               AdmittedIn(ops, k, from, to) + if from <= now < to && c.count <= limit then 1 else 0
  {
    RefRunNext(ops, Increment(k, limit, seconds, now), k, from, to);
  }

  /** A burst that fits in the window and under the limit is admitted in full. */
  lemma {:induction false} BurstIsAdmitted(ops: seq<Op>, k: string, limit: int, seconds: int, now: int, n: nat, c: Counter,
                                           from: int, to: int)
    requires ArgumentsOk(limit, seconds) && Lookup(RefRun(ops), k) == Some(c)
    requires now - c.windowStart < seconds * 1000 && c.count + n <= limit
    ensures var all := ops + Burst(k, limit, seconds, now, n);
            && Lookup(RefRun(all), k) == Some(Counter(c.count + n, c.windowStart))
            && AdmittedIn(all, k, from, to) == AdmittedIn(ops, k, from, to) + if from <= now < to then n else 0
  {
    hide RefRun, AdmittedIn, Burst, Lookup;
    BurstGrows(ops, k, limit, seconds, now, n);
    if n > 0 {
      BurstIsAdmitted(ops, k, limit, seconds, now, n - 1, c, from, to);
      OneMore(ops + Burst(k, limit, seconds, now, n - 1), k, limit, seconds, now, from, to);
    }
  }

  /** One request opens a window, `limit - 1` fill it at its last instant, `limit` more come with the next. */
  function StraddlingRun(k: string, limit: int, seconds: int): seq<Op>
    requires ArgumentsOk(limit, seconds)
  {
    FirstWindow(k, limit, seconds) + [Increment(k, limit, seconds, seconds * 1000)]
      + Burst(k, limit, seconds, seconds * 1000, limit - 1)
  }

  function FirstWindow(k: string, limit: int, seconds: int): seq<Op>
    requires ArgumentsOk(limit, seconds)
  {
    [Increment(k, limit, seconds, 0)] + Burst(k, limit, seconds, seconds * 1000 - 1, limit - 1)
  }

  lemma FirstWindowAdmits(k: string, limit: int, seconds: int, from: int, to: int)
    requires ArgumentsOk(limit, seconds) && 0 < from <= seconds * 1000 - 1 < to
    ensures Lookup(RefRun(FirstWindow(k, limit, seconds)), k) == Some(Counter(limit, 0))
    ensures AdmittedIn(FirstWindow(k, limit, seconds), k, from, to) == limit - 1
  {
    assert RefRun([]) == map[] && AdmittedIn([], k, from, to) == 0;
    var opening := [Increment(k, limit, seconds, 0)];
    assert [] + opening == opening;
    hide RefRun, AdmittedIn, Burst;
    OneMore([], k, limit, seconds, 0, from, to);
    BurstIsAdmitted(opening, k, limit, seconds, seconds * 1000 - 1, limit - 1, Counter(1, 0), from, to);
  }

  /** For every limit and window, a run admits twice the limit less one within one window's length. */
  lemma TwiceTheLimitLessOneIsReached(k: string, limit: int, seconds: int)
    requires ArgumentsOk(limit, seconds)
    ensures Steady(StraddlingRun(k, limit, seconds), k, limit, seconds)
    ensures var window := seconds * 1000;
            AdmittedIn(StraddlingRun(k, limit, seconds), k, window - 1, window - 1 + window) == 2 * limit - 1
  {
    hide RefRun, AdmittedIn, Burst, FirstWindow;
    var window := seconds * 1000;
    var from, to := window - 1, window - 1 + window;
    var half := FirstWindow(k, limit, seconds);
    var reopened := half + [Increment(k, limit, seconds, window)];
    FirstWindowAdmits(k, limit, seconds, from, to);
    OneMore(half, k, limit, seconds, window, from, to);
    BurstIsAdmitted(reopened, k, limit, seconds, window, limit - 1, Counter(1, window), from, to);
    StraddlingIsSteady(k, limit, seconds);
  }

  lemma StraddlingIsSteady(k: string, limit: int, seconds: int)
    requires ArgumentsOk(limit, seconds)
    ensures Steady(StraddlingRun(k, limit, seconds), k, limit, seconds)
  {
    var ops := StraddlingRun(k, limit, seconds);
    forall i | 0 <= i < |ops|
      ensures ops[i] == Increment(k, limit, seconds,
                                  if i == 0 then 0 else if i < limit then seconds * 1000 - 1 else seconds * 1000)
    {}
  }

  /** The interval of one window from `from` admits at most the limit. */
  ghost predicate RollsAt(ops: seq<Op>, k: string, limit: int, seconds: int, from: int) {
    AdmittedIn(ops, k, from, from + seconds * 1000) <= limit
  }

  /**
   * The window is a rolling one, so that no interval of its length admits more
   * than the limit, for a limit of one only.
   */
  lemma RollingBoundIff(k: string, limit: int, seconds: int)
    requires ArgumentsOk(limit, seconds)
    ensures (forall ops, from :: Steady(ops, k, limit, seconds) ==> RollsAt(ops, k, limit, seconds, from)) <==> limit == 1
  {
    if limit == 1 {
      forall ops, from | Steady(ops, k, limit, seconds) ensures RollsAt(ops, k, limit, seconds, from) {
        AtMostTwiceTheLimit(ops, k, limit, seconds, from);
      }
    } else {
      TwiceTheLimitLessOneIsReached(k, limit, seconds);
      assert !RollsAt(StraddlingRun(k, limit, seconds), k, limit, seconds, seconds * 1000 - 1);
    }
  }

  // ---------------------------------------------------------------- retry after

  lemma {:induction false} OthersKeepCounter(ops: seq<Op>, mid: seq<Op>, k: string)
    requires forall op :: op in mid ==> !Uses(op, k) && !Forgets(op, k)
    ensures Lookup(RefRun(ops + mid), k) == Lookup(RefRun(ops), k)
  {
    if mid == [] {
      assert ops + [] == ops;
    } else {
      var rest, op := mid[..|mid| - 1], mid[|mid| - 1];
      OthersKeepCounter(ops, rest, k);
      assert ops + mid == ops + rest + [op];
      NoUseKeepsCounter(ops + rest, op, k);
    }
  }

  /** The run `ops`, then `mid`, then the last request of `ops` again after `delay` milliseconds. */
  function Retried(ops: seq<Op>, mid: seq<Op>, delay: nat): seq<Op>
    requires ops != [] && ops[|ops| - 1].Increment?
  {
    var op := ops[|ops| - 1];
    ops + mid + [op.(now := op.now + delay)]
  }

  /** The waiting time of an answer is exact for a request that comes `delay` milliseconds later. */
  ghost predicate ExactRetry(answer: Outcome, again: Outcome, seconds: int, delay: nat) {
    && answer.Decision? && again.Decision? && 1 <= answer.retryAfter <= seconds
    && (!answer.allowed && delay >= 1000 * answer.retryAfter ==> again.allowed)
    && (!answer.allowed && delay % 1000 == 0 && delay < 1000 * answer.retryAfter ==> !again.allowed)
  }

  /**
   * `retryAfter` is between one second and the window, and for a denied request
   * it is the least whole number of seconds after which the next one for that
   * key is admitted, whatever other keys do in between.
   */
  lemma RetryAfterIsExact(ops: seq<Op>, mid: seq<Op>, k: string, limit: int, seconds: int, delay: nat)
    requires ops != [] && Uses(ops[|ops| - 1], k) && Steady(ops, k, limit, seconds)
    requires forall op :: op in mid ==> !Uses(op, k) && !Forgets(op, k)
    ensures ExactRetry(RefAnswer(ops), RefAnswer(Retried(ops, mid, delay)), seconds, delay)
  {
    hide Retried, RefAnswer, Uses, Forgets, Steady;
    var c := AnswersOf(ops, mid, k, limit, seconds, delay);
  }

  lemma SteadyLast(ops: seq<Op>, k: string, limit: int, seconds: int)
    requires ops != [] && Uses(ops[|ops| - 1], k) && Steady(ops, k, limit, seconds)
    ensures ops[|ops| - 1].limit == limit && ops[|ops| - 1].windowSeconds == seconds
  {}

  /** Both answers, told by the counter the first one leaves. */
  lemma AnswersOf(ops: seq<Op>, mid: seq<Op>, k: string, limit: int, seconds: int, delay: nat) returns (c: Counter)
    requires ops != [] && Uses(ops[|ops| - 1], k) && Steady(ops, k, limit, seconds)
    requires forall op :: op in mid ==> !Uses(op, k) && !Forgets(op, k)
    ensures Lookup(RefRun(ops), k) == Some(c) && 1 <= c.count <= limit + 1 && 0 < limit
    ensures var now := ops[|ops| - 1].now;
            && c.windowStart <= now < c.windowStart + 1000 * seconds
            && RefAnswer(ops) == Decide(c, limit, seconds, now)
            && RefAnswer(Retried(ops, mid, delay)) ==
               Decide(Bump(Some(c), limit, seconds, now + delay), limit, seconds, now + delay)
  {
    CountIsUsesInWindow(ops, k, limit, seconds);
    OthersKeepCounter(ops, mid, k);
    SteadyLast(ops, k, limit, seconds);
    c := RefRun(ops)[k];
    var retry := Retried(ops, mid, delay);
    assert retry[..|retry| - 1] == ops + mid;
  }

  // --------------------------------------------------- what an answer says

  /** How the reset time of a window that ends at `end` is given: in whole seconds, rounded down or up. */
  predicate GivenAs(end: int, resetAt: int, roundedUp: bool) {
    if roundedUp then 1000 * (resetAt - 1) < end <= 1000 * resetAt else 1000 * resetAt <= end < 1000 * (resetAt + 1)
  }

  /**
   * Every field of an answer to the last of `ops`, in terms of the requests for
   * `k` and of when its window ends.
   */
  ghost predicate TellsWindow(answer: Outcome, ops: seq<Op>, k: string, limit: int, seconds: int, end: int, roundedUp: bool)
    requires ops != [] && ops[|ops| - 1].Increment?
  {
    var now := ops[|ops| - 1].now;
    && answer.Decision? && answer.limit == limit
    && now < end <= now + 1000 * seconds
    && answer.currentCount == Min(UsesFrom(ops, k, end - 1000 * seconds), limit + 1)
    && (answer.allowed <==> answer.currentCount <= limit)
    && GivenAs(end, answer.resetAt, roundedUp)
    && 1000 * (answer.retryAfter - 1) < end - now <= 1000 * answer.retryAfter
  }

  /** A later request at `then` starts a new window exactly when this one has ended, and is counted in it before. */
  predicate Continues(answer: Outcome, again: Outcome, limit: int, end: int, then_: int) {
    && answer.Decision? && again.Decision?
    && again.currentCount == if then_ >= end then 1 else Min(answer.currentCount + 1, limit + 1)
  }

  lemma AnswerTellsWindow(ops: seq<Op>, k: string, limit: int, seconds: int) returns (end: int)
    requires ops != [] && Uses(ops[|ops| - 1], k) && Steady(ops, k, limit, seconds)
    ensures k in RefRun(ops) && end == RefRun(ops)[k].windowStart + 1000 * seconds
    ensures TellsWindow(RefAnswer(ops), ops, k, limit, seconds, end, false)
  {
    CountIsUsesInWindow(ops, k, limit, seconds);
    assert ops[|ops| - 1].limit == limit && ops[|ops| - 1].windowSeconds == seconds;
    var c := RefRun(ops)[k];
    end := c.windowStart + 1000 * seconds;
    assert RefAnswer(ops) == Decide(c, limit, seconds, ops[|ops| - 1].now);
  }

  lemma LaterRequestContinues(ops: seq<Op>, mid: seq<Op>, k: string, limit: int, seconds: int, delay: nat)
    requires ops != [] && Uses(ops[|ops| - 1], k) && Steady(ops, k, limit, seconds)
    requires forall op :: op in mid ==> !Uses(op, k) && !Forgets(op, k)
    requires k in RefRun(ops)
    ensures Continues(RefAnswer(ops), RefAnswer(Retried(ops, mid, delay)), limit,
                      RefRun(ops)[k].windowStart + 1000 * seconds, ops[|ops| - 1].now + delay)
  {
    hide Retried, RefAnswer, Uses, Forgets, Steady;
    var c := AnswersOf(ops, mid, k, limit, seconds, delay);
  }

  /** What is refused, and that refusing changes nothing: limits and windows that are not positive or too large. */
  lemma RefusedIff(m: Store, rows: map<string, Row>, maxItems: int, k: string, limit: int, seconds: int, now: int)
    ensures var op := Increment(k, limit, seconds, now);
            var refused := !(1 <= limit <= 9007199254740990 && 1 <= seconds <= 9007199254740);
            && (MemStep(m, maxItems, op).1.RangeError? <==> refused) && (refused ==> MemStep(m, maxItems, op).0 == m)
            && (PgStep(rows, Call(op)).1.RangeError? <==> refused) && (refused ==> PgStep(rows, Call(op)).0 == rows)
  {}

  // --------------------------------------------------------- PostgreSQL store

  datatype Row = Row(requestCount: int, windowStartedAt: int, expiresAt: int)

  datatype Event = Call(op: Op) | Cleanup(at: int, victims: set<string>)

  /** The upsert of one request, as one atomic statement. */
  function Upsert(row: Option<Row>, limit: int, seconds: int, now: int): Row {
    match row
    case None => Row(1, now, now + seconds * 1000)
    case Some(r) =>
      if r.expiresAt <= now then Row(1, now, now + seconds * 1000)
      else Row(if r.requestCount >= limit + 1 then limit + 1 else r.requestCount + 1, r.windowStartedAt, r.expiresAt)
  }

  function Answer(r: Row, limit: int, now: int): Outcome {
    var wait := CeilSeconds(r.expiresAt - now);
    Decision(r.requestCount <= limit, r.requestCount, limit, CeilSeconds(r.expiresAt), if wait < 0 then 0 else wait)
  }

  function PgStep(rows: map<string, Row>, e: Event): (map<string, Row>, Outcome) {
    match e
    case Cleanup(_, victims) => (rows - victims, Done)
    case Call(Increment(k, limit, seconds, now)) =>
      if !ArgumentsOk(limit, seconds) then (rows, RangeError)
      else
        var r := Upsert(Lookup(rows, k), limit, seconds, now);
        (rows[k := r], Answer(r, limit, now))
    case Call(Reset(k)) => (rows - {k}, Done)
    case Call(Clear) => (map[], Done)
  }

  function PgRun(events: seq<Event>): map<string, Row> {
    if events == [] then map[] else PgStep(PgRun(events[..|events| - 1]), events[|events| - 1]).0
  }

  function PgAnswer(events: seq<Event>): Outcome
    requires events != []
  {
    PgStep(PgRun(events[..|events| - 1]), events[|events| - 1]).1
  }

  /** One cleanup batch: the oldest expired rows that no one else has locked. */
  ghost predicate IsCleanupBatch(rows: map<string, Row>, now: int, locked: set<string>, batch: nat, victims: set<string>) {
    && victims <= rows.Keys && victims !! locked && |victims| <= batch
    && (forall k :: k in victims ==> rows[k].expiresAt <= now)
    && (forall k, j :: k in victims && j in rows && j !in locked && j !in victims ==>
          rows[k].expiresAt <= rows[j].expiresAt)
    && (|victims| < batch ==> forall j :: j in rows && j !in locked && j !in victims ==> rows[j].expiresAt > now)
  }

  class PostgresRateLimitStore {
    const cleanupBatchSize: nat
    var rows: map<string, Row>

    constructor (cleanupBatchSize: nat)
      ensures rows == PgRun([]) && this.cleanupBatchSize == cleanupBatchSize
    {
      this.cleanupBatchSize := cleanupBatchSize;
      this.rows := map[];
    }

    method Increment(key: string, limit: int, windowSeconds: int, now: int) returns (r: Outcome)
      modifies this
      ensures (rows, r) == PgStep(old(rows), Call(Op.Increment(key, limit, windowSeconds, now)))
    {
      if !ArgumentsOk(limit, windowSeconds) {
        return RangeError;
      }
      var cappedCount := limit + 1;
      var row := Row(1, now, now + windowSeconds * 1000);
      if key in rows {
        var existing := rows[key];
        if existing.expiresAt > now {
          row := existing.(requestCount :=
            if existing.requestCount >= cappedCount then cappedCount else existing.requestCount + 1);
        }
      }
      rows := rows[key := row];
      var retryAfter := CeilSeconds(row.expiresAt - now);
      r := Decision(row.requestCount <= limit, row.requestCount, limit, CeilSeconds(row.expiresAt),
                    if retryAfter < 0 then 0 else retryAfter);
    }

    method Reset(key: string)
      modifies this
      ensures rows == PgStep(old(rows), Call(Op.Reset(key))).0
    {
      rows := rows - {key};
    }

    method Clear()
      modifies this
      ensures rows == PgStep(old(rows), Call(Op.Clear)).0
    {
      rows := map[];
    }

    method CleanupExpiredBuckets(now: int, locked: set<string>) returns (deleted: nat, ghost victims: set<string>)
      modifies this
      ensures IsCleanupBatch(old(rows), now, locked, cleanupBatchSize, victims)
      ensures deleted == |victims| && rows == old(rows) - victims
      ensures rows == PgStep(old(rows), Cleanup(now, victims)).0
    {
      deleted, victims := 0, {};
      while deleted < cleanupBatchSize
        invariant deleted == |victims| <= cleanupBatchSize
        invariant victims <= old(rows).Keys && victims !! locked
        invariant rows == old(rows) - victims
        invariant forall k :: k in victims ==> old(rows)[k].expiresAt <= now
        invariant forall k, j :: k in victims && j in rows && j !in locked ==>
                    old(rows)[k].expiresAt <= rows[j].expiresAt
      {
        var open := rows.Keys - locked;
        if forall j :: j in open ==> rows[j].expiresAt > now {
          break;
        }
        OldestExists(rows, open);
        var oldest :| IsOldest(rows, open, oldest);
        rows := rows - {oldest};
        victims := victims + {oldest};
        deleted := deleted + 1;
      }
    }
  }

  predicate IsOldest(rows: map<string, Row>, open: set<string>, k: string)
    requires open <= rows.Keys
  {
    k in open && forall j :: j in open ==> rows[k].expiresAt <= rows[j].expiresAt
  }

  lemma {:induction false} OldestExists(rows: map<string, Row>, open: set<string>)
    requires open != {} && open <= rows.Keys
    ensures exists k :: IsOldest(rows, open, k)
    decreases |open|
  {
    var k :| k in open;
    var rest := open - {k};
    if rest == {} {
      assert open == {k};
      assert IsOldest(rows, open, k);
    } else {
      OldestExists(rows, rest);
      var o :| IsOldest(rows, rest, o);
      assert open == rest + {k};
      assert IsOldest(rows, open, if rows[o].expiresAt <= rows[k].expiresAt then o else k);
    }
  }

  function Calls(events: seq<Event>): (ops: seq<Op>)
    ensures events != [] && events[|events| - 1].Call? ==> ops != [] && ops[|ops| - 1] == events[|events| - 1].op
  {
    if events == [] then []
    else
      var calls := Calls(events[..|events| - 1]);
      if events[|events| - 1].Call? then calls + [events[|events| - 1].op] else calls
  }

  function TimeOf(e: Event): Option<int> {
    match e
    case Cleanup(at, _) => Some(at)
    case Call(op) => if op.Increment? then Some(op.now) else None
  }

  ghost predicate ConstantWindows(events: seq<Event>, seconds: string -> int) {
    forall e :: e in events && e.Call? && e.op.Increment? && ArgumentsOk(e.op.limit, e.op.windowSeconds) ==>
      e.op.windowSeconds == seconds(e.op.key)
  }

  /** Every cleanup removes only rows that have expired by its own time. */
  ghost predicate CleansOnlyExpired(events: seq<Event>) {
    forall i {:trigger events[i]} :: 0 <= i < |events| && events[i].Cleanup? ==>
      forall k :: k in events[i].victims && k in PgRun(events[..i]) ==>
        PgRun(events[..i])[k].expiresAt <= events[i].at
  }

  /** The latest time read so far. */
  function Clock(events: seq<Event>): Option<int> {
    if events == [] then None
    else if TimeOf(events[|events| - 1]).Some? then TimeOf(events[|events| - 1])
    else Clock(events[..|events| - 1])
  }

  predicate NotBefore(clock: Option<int>, time: Option<int>) {
    clock.Some? && time.Some? ==> clock.value <= time.value
  }

  ghost predicate ClockNeverDecreases(events: seq<Event>) {
    forall i {:trigger events[i]} :: 0 <= i < |events| ==> NotBefore(Clock(events[..i]), TimeOf(events[i]))
  }

  ghost predicate NeverCleaned(events: seq<Event>) {
    forall e :: e in events ==> !e.Cleanup?
  }

  ghost predicate Legal(events: seq<Event>, seconds: string -> int) {
    && ConstantWindows(events, seconds) && CleansOnlyExpired(events)
    && (NeverCleaned(events) || ClockNeverDecreases(events))
  }

  lemma PrefixLegal(events: seq<Event>, n: nat, seconds: string -> int)
    requires n <= |events| && Legal(events, seconds)
    ensures Legal(events[..n], seconds)
  {
    var earlier := events[..n];
    forall i | 0 <= i < n ensures earlier[i] == events[i] && earlier[..i] == events[..i] {}
    assert forall e :: e in earlier ==> e in events;
  }

  /** Rows and counters say the same, and a missing row stands for an expired counter. */
  ghost predicate Represents(rows: map<string, Row>, counters: map<string, Counter>, seconds: string -> int,
                             cleaned: bool, clock: Option<int>) {
    && (forall k :: k in rows ==>
          k in counters &&
          rows[k] == Row(counters[k].count, counters[k].windowStart, counters[k].windowStart + seconds(k) * 1000))
    && (forall k :: k in counters && k !in rows ==>
          cleaned && clock.Some? && counters[k].windowStart + seconds(k) * 1000 <= clock.value)
  }

  /** Both stores bump a key to the same count and window. */
  lemma SameBump(rows: map<string, Row>, counters: map<string, Counter>, seconds: string -> int,
                 cleaned: bool, clock: Option<int>, op: Op)
    requires Represents(rows, counters, seconds, cleaned, clock)
    requires op.Increment? && op.windowSeconds == seconds(op.key)
    requires cleaned ==> NotBefore(clock, Some(op.now))
    ensures var r := Upsert(Lookup(rows, op.key), op.limit, op.windowSeconds, op.now);
            var c := Bump(Lookup(counters, op.key), op.limit, op.windowSeconds, op.now);
            r == Row(c.count, c.windowStart, c.windowStart + op.windowSeconds * 1000)
  {}

  /** Everything but the rounding of the reset time agrees. */
  ghost predicate SameAnswer(pg: Outcome, ref: Outcome) {
    if ref.RangeError? then pg == ref else pg.Decision? && ref.Decision? && pg == ref.(resetAt := pg.resetAt)
  }

  lemma SameStepAnswer(rows: map<string, Row>, counters: map<string, Counter>, seconds: string -> int,
                       cleaned: bool, clock: Option<int>, op: Op)
    requires Represents(rows, counters, seconds, cleaned, clock)
    requires op.Increment? && (ArgumentsOk(op.limit, op.windowSeconds) ==> op.windowSeconds == seconds(op.key))
    requires cleaned ==> NotBefore(clock, Some(op.now))
    ensures SameAnswer(PgStep(rows, Call(op)).1, RefStep(counters, op).1)
  {
    if ArgumentsOk(op.limit, op.windowSeconds) {
      SameBump(rows, counters, seconds, cleaned, clock, op);
    }
  }

  lemma RepresentsStep(rows: map<string, Row>, counters: map<string, Counter>, seconds: string -> int,
                       cleaned: bool, clock: Option<int>, e: Event)
    requires Represents(rows, counters, seconds, cleaned, clock)
    requires cleaned || e.Cleanup? ==> NotBefore(clock, TimeOf(e))
    requires e.Cleanup? ==> forall k :: k in e.victims && k in rows ==> rows[k].expiresAt <= e.at
    requires e.Call? && e.op.Increment? && ArgumentsOk(e.op.limit, e.op.windowSeconds) ==>
               e.op.windowSeconds == seconds(e.op.key)
    ensures Represents(PgStep(rows, e).0, if e.Call? then RefStep(counters, e.op).0 else counters, seconds,
                       cleaned || e.Cleanup?, if TimeOf(e).Some? then TimeOf(e) else clock)
  {
    if e.Call? && e.op.Increment? && ArgumentsOk(e.op.limit, e.op.windowSeconds) {
      SameBump(rows, counters, seconds, cleaned, clock, e.op);
    }
  }

  lemma CallsOfLast(events: seq<Event>)
    requires events != []
    ensures var earlier, e := events[..|events| - 1], events[|events| - 1];
            && RefRun(Calls(events)) ==
               (if e.Call? then RefStep(RefRun(Calls(earlier)), e.op).0 else RefRun(Calls(earlier)))
            && (e.Call? ==>
                  && Calls(events) != []
                  && RefAnswer(Calls(events)) == RefStep(RefRun(Calls(earlier)), e.op).1)
  {
    if events[|events| - 1].Call? {
      assert Calls(events)[..|Calls(events)| - 1] == Calls(events[..|events| - 1]);
    }
  }

  lemma LegalLast(events: seq<Event>, seconds: string -> int)
    requires events != [] && Legal(events, seconds)
    ensures var earlier, e := events[..|events| - 1], events[|events| - 1];
            && (NeverCleaned(events) <==> NeverCleaned(earlier) && !e.Cleanup?)
            && (!NeverCleaned(events) ==> NotBefore(Clock(earlier), TimeOf(e)))
            && (e.Cleanup? ==> forall k :: k in e.victims && k in PgRun(earlier) ==> PgRun(earlier)[k].expiresAt <= e.at)
            && (e.Call? && e.op.Increment? && ArgumentsOk(e.op.limit, e.op.windowSeconds) ==>
                  e.op.windowSeconds == seconds(e.op.key))
  {
    var earlier, e := events[..|events| - 1], events[|events| - 1];
    assert events == earlier + [e] && e in events;
  }

  lemma {:induction false} RowsRepresentCounters(events: seq<Event>, seconds: string -> int)
    requires Legal(events, seconds)
    ensures Represents(PgRun(events), RefRun(Calls(events)), seconds, !NeverCleaned(events), Clock(events))
  {
    if events != [] {
      hide Represents, Calls, Legal;
      var earlier, e := events[..|events| - 1], events[|events| - 1];
      PrefixLegal(events, |events| - 1, seconds);
      LegalLast(events, seconds);
      RowsRepresentCounters(earlier, seconds);
      CallsOfLast(events);
      RepresentsStep(PgRun(earlier), RefRun(Calls(earlier)), seconds, !NeverCleaned(earlier), Clock(earlier), e);
    }
  }

  /**
   * The shared store answers as the unbounded in-memory counter does, on any
   * timestamps while nothing is cleaned up, and with any cleanup batches of
   * expired rows in between while the clock does not run backwards.
   */
  lemma PostgresAnswersLikeReference(events: seq<Event>, seconds: string -> int)
    requires events != [] && Legal(events, seconds)
    requires var e := events[|events| - 1]; e.Call? && e.op.Increment?
    ensures Calls(events) != []
    ensures SameAnswer(PgAnswer(events), RefAnswer(Calls(events)))
  {
    var earlier, e := events[..|events| - 1], events[|events| - 1];
    PrefixLegal(events, |events| - 1, seconds);
    RowsRepresentCounters(earlier, seconds);
    CallsOfLast(events);
    assert e in events;
    assert NeverCleaned(events) ==> NeverCleaned(earlier);
    assert PgAnswer(events) == PgStep(PgRun(earlier), Call(e.op)).1;
    SameStepAnswer(PgRun(earlier), RefRun(Calls(earlier)), seconds, !NeverCleaned(earlier), Clock(earlier), e.op);
  }

  // --------------------------------------------- the bounds, of the two stores

  /** How many requests for `k` the in-memory store admitted at times in `[from, to)`. */
  function AdmittedByMemory(ops: seq<Op>, k: string, from: int, to: int, maxItems: int): nat {
    if ops == [] then 0
    else
      var op := ops[|ops| - 1];
      AdmittedByMemory(ops[..|ops| - 1], k, from, to, maxItems) +
      if Uses(op, k) && from <= op.now < to && MemAnswer(ops, maxItems).allowed then 1 else 0
  }

  lemma {:induction false} MemoryAdmitsAlike(ops: seq<Op>, k: string, from: int, to: int, maxItems: int)
    requires WellSpaced(ops, k, maxItems)
    ensures AdmittedByMemory(ops, k, from, to, maxItems) == AdmittedIn(ops, k, from, to)
  {
    if ops != [] {
      PrefixWellSpaced(ops, |ops| - 1, k, maxItems);
      MemoryAdmitsAlike(ops[..|ops| - 1], k, from, to, maxItems);
      if Uses(ops[|ops| - 1], k) {
        MemoryAnswersLikeReference(ops, k, maxItems);
      }
    }
  }

  /** The in-memory store admits a key that is not crowded out at most twice the limit less one. */
  lemma MemoryAdmitsAtMost(ops: seq<Op>, k: string, limit: int, seconds: int, from: int, maxItems: int)
    requires Steady(ops, k, limit, seconds) && WellSpaced(ops, k, maxItems)
    ensures AdmittedByMemory(ops, k, from, from + seconds * 1000, maxItems) <= 2 * limit - 1
  {
    hide WellSpaced, Steady;
    MemoryAdmitsAlike(ops, k, from, from + seconds * 1000, maxItems);
    AtMostTwiceTheLimit(ops, k, limit, seconds, from);
  }

  lemma RetriedStarts(ops: seq<Op>, mid: seq<Op>, delay: nat)
    requires ops != [] && ops[|ops| - 1].Increment?
    ensures var retry, op := Retried(ops, mid, delay), ops[|ops| - 1];
            && |ops| < |retry| && retry[..|ops|] == ops && retry[|retry| - 1] == op.(now := op.now + delay)
  {}

  /** The waiting time the in-memory store gives is exact, for a key that is not crowded out. */
  lemma MemoryRetryAfterIsExact(ops: seq<Op>, mid: seq<Op>, k: string, limit: int, seconds: int, delay: nat, maxItems: int)
    requires ops != [] && Uses(ops[|ops| - 1], k) && Steady(ops, k, limit, seconds)
    requires forall op :: op in mid ==> !Uses(op, k) && !Forgets(op, k)
    requires WellSpaced(Retried(ops, mid, delay), k, maxItems)
    ensures ExactRetry(MemAnswer(ops, maxItems), MemAnswer(Retried(ops, mid, delay), maxItems), seconds, delay)
  {
    hide ExactRetry, Steady, WellSpaced, Retried, MemAnswer, RefAnswer;
    RetriedStarts(ops, mid, delay);
    PrefixWellSpaced(Retried(ops, mid, delay), |ops|, k, maxItems);
    MemoryAnswersLikeReference(ops, k, maxItems);
    MemoryAnswersLikeReference(Retried(ops, mid, delay), k, maxItems);
    RetryAfterIsExact(ops, mid, k, limit, seconds, delay);
  }

  /** What the in-memory store's answer says of the window, for a key that is not crowded out. */
  lemma MemoryTellsWindow(ops: seq<Op>, mid: seq<Op>, k: string, limit: int, seconds: int, delay: nat, maxItems: int)
    returns (end: int)
    requires ops != [] && Uses(ops[|ops| - 1], k) && Steady(ops, k, limit, seconds)
    requires forall op :: op in mid ==> !Uses(op, k) && !Forgets(op, k)
    requires WellSpaced(Retried(ops, mid, delay), k, maxItems)
    ensures end == RefRun(ops)[k].windowStart + 1000 * seconds
    ensures TellsWindow(MemAnswer(ops, maxItems), ops, k, limit, seconds, end, false)
    ensures Continues(MemAnswer(ops, maxItems), MemAnswer(Retried(ops, mid, delay), maxItems), limit, end,
                      ops[|ops| - 1].now + delay)
  {
    hide TellsWindow, Continues, Steady, WellSpaced, Retried, MemAnswer, RefAnswer;
    RetriedStarts(ops, mid, delay);
    PrefixWellSpaced(Retried(ops, mid, delay), |ops|, k, maxItems);
    MemoryAnswersLikeReference(ops, k, maxItems);
    MemoryAnswersLikeReference(Retried(ops, mid, delay), k, maxItems);
    end := AnswerTellsWindow(ops, k, limit, seconds);
    LaterRequestContinues(ops, mid, k, limit, seconds, delay);
  }

  /** How many requests for `k` the shared store admitted at times in `[from, to)`. */
  function AdmittedByPostgres(events: seq<Event>, k: string, from: int, to: int): nat {
    if events == [] then 0
    else
      var e := events[|events| - 1];
      AdmittedByPostgres(events[..|events| - 1], k, from, to) +
      if e.Call? && Uses(e.op, k) && from <= e.op.now < to && PgAnswer(events).allowed then 1 else 0
  }

  lemma {:induction false} PostgresAdmitsAlike(events: seq<Event>, seconds: string -> int, k: string, from: int, to: int)
    requires Legal(events, seconds)
    ensures AdmittedByPostgres(events, k, from, to) == AdmittedIn(Calls(events), k, from, to)
  {
    if events != [] {
      var earlier, e := events[..|events| - 1], events[|events| - 1];
      PrefixLegal(events, |events| - 1, seconds);
      PostgresAdmitsAlike(earlier, seconds, k, from, to);
      if e.Call? {
        assert Calls(events)[..|Calls(events)| - 1] == Calls(earlier);
        if Uses(e.op, k) {
          PostgresAnswersLikeReference(events, seconds);
        }
      }
    }
  }

  /** The shared store admits at most twice the limit less one, whatever is cleaned up in between. */
  lemma PostgresAdmitsAtMost(events: seq<Event>, windows: string -> int, k: string, limit: int, seconds: int, from: int)
    requires Legal(events, windows) && Steady(Calls(events), k, limit, seconds)
    ensures AdmittedByPostgres(events, k, from, from + seconds * 1000) <= 2 * limit - 1
  {
    hide Legal, Calls, Steady;
    PostgresAdmitsAlike(events, windows, k, from, from + seconds * 1000);
    AtMostTwiceTheLimit(Calls(events), k, limit, seconds, from);
  }

  lemma {:induction false} CallsConcat(a: seq<Event>, b: seq<Event>)
    ensures Calls(a + b) == Calls(a) + Calls(b)
  {
    if b == [] {
      assert a + b == a;
    } else {
      CallsConcat(a, b[..|b| - 1]);
      assert (a + b)[..|a + b| - 1] == a + b[..|b| - 1];
    }
  }

  /** The same of a run of events. */
  function RetriedEvents(events: seq<Event>, mid: seq<Event>, delay: nat): seq<Event>
    requires events != [] && events[|events| - 1].Call? && events[|events| - 1].op.Increment?
  {
    var op := events[|events| - 1].op;
    events + mid + [Call(op.(now := op.now + delay))]
  }

  /** The waiting time the shared store gives is exact, whatever is cleaned up in between. */
  lemma PostgresRetryAfterIsExact(events: seq<Event>, mid: seq<Event>, windows: string -> int, k: string, limit: int,
                                  seconds: int, delay: nat)
    requires events != [] && events[|events| - 1].Call? && Uses(events[|events| - 1].op, k)
    requires Steady(Calls(events), k, limit, seconds)
    requires forall op :: op in Calls(mid) ==> !Uses(op, k) && !Forgets(op, k)
    requires Legal(RetriedEvents(events, mid, delay), windows)
    ensures ExactRetry(PgAnswer(events), PgAnswer(RetriedEvents(events, mid, delay)), seconds, delay)
  {
    hide Legal, Calls, Steady, PgAnswer, RefAnswer, SameAnswer, ExactRetry, Retried, RetriedEvents;
    var retry := RetriedEvents(events, mid, delay);
    CallsOfRetry(events, mid, delay);
    PrefixLegal(retry, |events|, windows);
    PostgresAnswersLikeReference(events, windows);
    PostgresAnswersLikeReference(retry, windows);
    RetryAfterIsExact(Calls(events), Calls(mid), k, limit, seconds, delay);
    SameRetry(PgAnswer(events), RefAnswer(Calls(events)), PgAnswer(retry), RefAnswer(Calls(retry)), seconds, delay);
  }

  /** What the shared store's answer says of the window: the same, with the reset time rounded up. */
  lemma PostgresTellsWindow(events: seq<Event>, mid: seq<Event>, windows: string -> int, k: string, limit: int, seconds: int,
                            delay: nat)
    returns (end: int)
    requires events != [] && events[|events| - 1].Call? && Uses(events[|events| - 1].op, k)
    requires Steady(Calls(events), k, limit, seconds)
    requires forall op :: op in Calls(mid) ==> !Uses(op, k) && !Forgets(op, k)
    requires Legal(RetriedEvents(events, mid, delay), windows)
    ensures TellsWindow(PgAnswer(events), Calls(events), k, limit, seconds, end, true)
    ensures Continues(PgAnswer(events), PgAnswer(RetriedEvents(events, mid, delay)), limit, end,
                      events[|events| - 1].op.now + delay)
  {
    hide Legal, Calls, Steady, PgAnswer, RefAnswer, SameAnswer, TellsWindow, Continues, Retried, RetriedEvents;
    var retry, calls := RetriedEvents(events, mid, delay), Calls(events);
    SteadyLast(calls, k, limit, seconds);
    CallsOfRetry(events, mid, delay);
    PrefixLegal(retry, |events|, windows);
    PostgresAnswersLikeReference(events, windows);
    PostgresAnswersLikeReference(retry, windows);
    end := AnswerTellsWindow(calls, k, limit, seconds);
    LaterRequestContinues(calls, Calls(mid), k, limit, seconds, delay);
    PostgresResetAt(events, windows, k);
    SameTelling(PgAnswer(events), RefAnswer(calls), calls, k, limit, seconds, end);
    SameContinuing(PgAnswer(events), RefAnswer(calls), PgAnswer(retry), RefAnswer(Calls(retry)), limit, end,
                   events[|events| - 1].op.now + delay);
  }

  lemma PostgresResetAt(events: seq<Event>, windows: string -> int, k: string)
    requires events != [] && events[|events| - 1].Call? && Uses(events[|events| - 1].op, k) && Legal(events, windows)
    ensures PgAnswer(events).Decision? && k in RefRun(Calls(events))
    ensures GivenAs(RefRun(Calls(events))[k].windowStart + 1000 * events[|events| - 1].op.windowSeconds,
                    PgAnswer(events).resetAt, true)
  {
    RowsRepresentCounters(events, windows);
    assert events[|events| - 1] in events;
    var e := events[|events| - 1];
    assert PgAnswer(events) == Answer(PgRun(events)[k], e.op.limit, e.op.now);
  }

  lemma SameTelling(pg: Outcome, ref: Outcome, ops: seq<Op>, k: string, limit: int, seconds: int, end: int)
    requires ops != [] && ops[|ops| - 1].Increment? && SameAnswer(pg, ref)
    requires TellsWindow(ref, ops, k, limit, seconds, end, false)
    requires pg.Decision? && GivenAs(end, pg.resetAt, true)
    ensures TellsWindow(pg, ops, k, limit, seconds, end, true)
  {}

  lemma SameContinuing(pg: Outcome, ref: Outcome, pgAgain: Outcome, refAgain: Outcome, limit: int, end: int, then_: int)
    requires SameAnswer(pg, ref) && SameAnswer(pgAgain, refAgain) && Continues(ref, refAgain, limit, end, then_)
    ensures Continues(pg, pgAgain, limit, end, then_)
  {}

  lemma SameRetry(pg: Outcome, ref: Outcome, pgAgain: Outcome, refAgain: Outcome, seconds: int, delay: nat)
    requires SameAnswer(pg, ref) && SameAnswer(pgAgain, refAgain) && ExactRetry(ref, refAgain, seconds, delay)
    ensures ExactRetry(pg, pgAgain, seconds, delay)
  {}

  lemma CallsOfRetry(events: seq<Event>, mid: seq<Event>, delay: nat)
    requires events != [] && events[|events| - 1].Call? && events[|events| - 1].op.Increment?
    ensures var retry := RetriedEvents(events, mid, delay);
            && |events| <= |retry| && retry != []
            && retry[..|events|] == events && retry[|retry| - 1].Call? && retry[|retry| - 1].op.Increment?
            && Calls(events) != [] && Calls(events)[|Calls(events)| - 1] == events[|events| - 1].op
            && Calls(retry) == Retried(Calls(events), Calls(mid), delay)
  {
    hide Calls;
    CallsEnd(events);
    CallsConcat(events, mid);
    CallsEnd(RetriedEvents(events, mid, delay));
    var retry := RetriedEvents(events, mid, delay);
    assert retry[..|retry| - 1] == events + mid;
  }

  lemma CallsEnd(events: seq<Event>)
    requires events != [] && events[|events| - 1].Call?
    ensures Calls(events) == Calls(events[..|events| - 1]) + [events[|events| - 1].op]
  {}
}
