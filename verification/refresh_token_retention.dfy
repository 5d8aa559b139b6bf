/**
 * Retention of just-superseded refresh-token hashes. Each rotation retires one
 * hash with a deadline of its own; at most five live ones are kept, so a client
 * that lost the reply to a rotation can still come back for a short while.
 *
 * Times and deadlines are whole milliseconds.
 */
module RefreshTokenRetention {
  const MAX_RETAINED_REFRESH_TOKENS := 5

  datatype Retired = Retired(hash: string, expiresAt: int)

  function Prune(entries: seq<Retired>, now: int): (live: seq<Retired>) {
    if entries == [] then []
    else if entries[0].expiresAt > now then [entries[0]] + Prune(entries[1..], now)
    else Prune(entries[1..], now)
  }

  predicate Accepted(entries: seq<Retired>, hash: string, now: int) {
    exists i :: 0 <= i < |entries| && entries[i].hash == hash && entries[i].expiresAt > now
  }

  /** `slice(-5)`. */
  function LastFive<T>(s: seq<T>): seq<T> {
    if |s| > MAX_RETAINED_REFRESH_TOKENS then s[|s| - MAX_RETAINED_REFRESH_TOKENS..] else s
  }

  /** One rotation: `hash` is superseded at `now`. */
  function Retain(entries: seq<Retired>, hash: string, now: int, grace: int): seq<Retired> {
    var live := Prune(entries, now);
    if grace <= 0 then live else LastFive(live + [Retired(hash, now + grace)])
  }

  method PruneRetiredRefreshTokens(entries: seq<Retired>, nowMs: int) returns (live: seq<Retired>)
    ensures live == Prune(entries, nowMs)
    ensures forall e :: e in live <==> e in entries && e.expiresAt > nowMs
  {
    PruneKeepsExactlyTheLive(entries, nowMs);
    live := [];
    for i := 0 to |entries|
      invariant live + Prune(entries[i..], nowMs) == Prune(entries, nowMs)
    {
      assert entries[i..][1..] == entries[i + 1..];
      if entries[i].expiresAt > nowMs {
        live := live + [entries[i]];
      }
    }
  }

  method RetainSupersededRefreshToken(entries: seq<Retired>, retiredHash: string, nowMs: int, graceMs: int)
    returns (next: seq<Retired>)
    ensures next == Retain(entries, retiredHash, nowMs, graceMs)
    ensures graceMs <= 0 ==> forall e :: e in next <==> e in entries && e.expiresAt > nowMs
    ensures graceMs > 0 ==>
              && 0 < |next| <= 5 && next[|next| - 1] == Retired(retiredHash, nowMs + graceMs)
              && forall e :: e in next[..|next| - 1] ==> e in entries && e.expiresAt > nowMs
  {
    hide Prune;
    var live := PruneRetiredRefreshTokens(entries, nowMs);
    if graceMs <= 0 {
      return live;
    }
    live := live + [Retired(retiredHash, nowMs + graceMs)];
    next := if |live| > MAX_RETAINED_REFRESH_TOKENS then live[|live| - MAX_RETAINED_REFRESH_TOKENS..] else live;
  }

  // ---------------------------------------------------------- pruning alone

  lemma {:induction false} PruneKeepsExactlyTheLive(entries: seq<Retired>, now: int)
    ensures forall e :: e in Prune(entries, now) <==> e in entries && e.expiresAt > now
    ensures |Prune(entries, now)| <= |entries|
  {
    if entries != [] {
      PruneKeepsExactlyTheLive(entries[1..], now);
      assert entries == [entries[0]] + entries[1..];
    }
  }

  lemma PruneOne(first: Retired, rest: seq<Retired>, now: int)
    ensures Prune([first] + rest, now) == (if first.expiresAt > now then [first] else []) + Prune(rest, now)
  {
    assert ([first] + rest)[1..] == rest;
  }

  lemma Associative(a: seq<Retired>, b: seq<Retired>, c: seq<Retired>)
    ensures a + b + c == a + (b + c)
  {}

  lemma {:induction false} PruneConcat(a: seq<Retired>, b: seq<Retired>, now: int)
    ensures Prune(a + b, now) == Prune(a, now) + Prune(b, now)
  {
    if a == [] {
      assert [] + b == b;
    } else {
      hide Prune;
      var first, rest := a[0], a[1..];
      assert a == [first] + rest && a + b == [first] + (rest + b);
      PruneConcat(rest, b, now);
      PruneOne(first, rest, now);
      PruneOne(first, rest + b, now);
      Associative(if first.expiresAt > now then [first] else [], Prune(rest, now), Prune(b, now));
    }
  }

  lemma {:induction false} PruneAllLive(entries: seq<Retired>, now: int)
    requires forall e :: e in entries ==> e.expiresAt > now
    ensures Prune(entries, now) == entries
  {
    if entries != [] {
      assert entries[0] in entries;
      PruneAllLive(entries[1..], now);
    }
  }

  lemma {:induction false} PruneTwice(entries: seq<Retired>, earlier: int, now: int)
    requires earlier <= now
    ensures Prune(Prune(entries, earlier), now) == Prune(entries, now)
  {
    if entries != [] {
      PruneTwice(entries[1..], earlier, now);
      if entries[0].expiresAt > earlier {
        assert Prune(entries, earlier)[1..] == Prune(entries[1..], earlier);
      }
    }
  }

  // ----------------------------------------------------- runs of rotations

  datatype Rotation = Rotation(hash: string, at: int, grace: int)

  /** The stored list after a run of rotations of a new session. */
  function Stored(rotations: seq<Rotation>): seq<Retired> {
    if rotations == [] then []
    else
      var r := rotations[|rotations| - 1];
      Retain(Stored(rotations[..|rotations| - 1]), r.hash, r.at, r.grace)
  }

  /** Every retirement of the run, with its deadline; a rotation without grace retires nothing. */
  function Retirements(rotations: seq<Rotation>): seq<Retired> {
    if rotations == [] then []
    else
      var r := rotations[|rotations| - 1];
      Retirements(rotations[..|rotations| - 1]) + if r.grace > 0 then [Retired(r.hash, r.at + r.grace)] else []
  }

  lemma {:induction false} RetirementsAt(rotations: seq<Rotation>)
    requires forall i :: 0 <= i < |rotations| ==> rotations[i].grace > 0
    ensures var all := Retirements(rotations);
            && |all| == |rotations|
            && forall i :: 0 <= i < |all| ==> all[i] == Retired(rotations[i].hash, rotations[i].at + rotations[i].grace)
  {
    if rotations != [] {
      RetirementsAt(rotations[..|rotations| - 1]);
    }
  }

  /** Rotation times never go back and the grace is one positive constant. */
  ghost predicate Regular(rotations: seq<Rotation>) {
    && (forall i, j :: 0 <= i < j < |rotations| ==> rotations[i].at <= rotations[j].at)
    && (forall i, j :: 0 <= i < j < |rotations| ==> rotations[i].grace == rotations[j].grace)
    && (forall i :: 0 <= i < |rotations| ==> rotations[i].grace > 0)
  }

  ghost predicate DeadlinesAscend(entries: seq<Retired>) {
    forall i, j :: 0 <= i < j < |entries| ==> entries[i].expiresAt <= entries[j].expiresAt
  }

  /** With five kept, one more retirement pushes the first out, alive or not. */
  lemma PruneFiveThenCap(first: Retired, four: seq<Retired>, last: Retired, now: int)
    requires |four| == MAX_RETAINED_REFRESH_TOKENS - 1 && DeadlinesAscend([first] + four) && last.expiresAt > now
    ensures LastFive(Prune([first] + four, now) + [last]) == Prune(four + [last], now)
  {
    hide Prune;
    var five := [first] + four;
    PruneAllLive([last], now);
    PruneConcat(four, [last], now);
    PruneKeepsExactlyTheLive(four, now);
    PruneOne(first, four, now);
    assert five[1..] == four;
    if first.expiresAt > now {
      forall e | e in four ensures e.expiresAt > now {
        var i :| 0 <= i < |four| && four[i] == e;
        assert five[0].expiresAt <= five[i + 1].expiresAt;
      }
      PruneAllLive(four, now);
      assert ([first] + four + [last])[1..] == four + [last];
    }
  }

  lemma PruneFewThenCap(entries: seq<Retired>, last: Retired, now: int)
    requires |entries| < MAX_RETAINED_REFRESH_TOKENS && last.expiresAt > now
    ensures LastFive(Prune(LastFive(entries), now) + [last]) == Prune(LastFive(entries + [last]), now)
  {
    hide Prune;
    PruneAllLive([last], now);
    PruneConcat(entries, [last], now);
    PruneKeepsExactlyTheLive(entries, now);
  }

  lemma LastFiveOfMany(entries: seq<Retired>, last: Retired)
    requires |entries| >= MAX_RETAINED_REFRESH_TOKENS
    ensures var five := entries[|entries| - MAX_RETAINED_REFRESH_TOKENS..];
            LastFive(entries) == five && LastFive(entries + [last]) == five[1..] + [last]
  {}

  /** Pruning before or after the cap is the same when deadlines ascend. */
  lemma PruneThenCap(entries: seq<Retired>, last: Retired, now: int)
    requires DeadlinesAscend(entries) && last.expiresAt > now
    ensures LastFive(Prune(LastFive(entries), now) + [last]) == Prune(LastFive(entries + [last]), now)
  {
    hide Prune, LastFive;
    if |entries| < MAX_RETAINED_REFRESH_TOKENS {
      PruneFewThenCap(entries, last, now);
    } else {
      var five := entries[|entries| - MAX_RETAINED_REFRESH_TOKENS..];
      LastFiveOfMany(entries, last);
      assert five == [five[0]] + five[1..];
      PruneFiveThenCap(five[0], five[1..], last, now);
    }
  }

  /** The stored list is exactly the last five retirements that are still alive. */
  lemma {:induction false} StoredIsLastFiveAlive(rotations: seq<Rotation>)
    requires rotations != [] && Regular(rotations)
    ensures Stored(rotations) == Prune(LastFive(Retirements(rotations)), rotations[|rotations| - 1].at)
  {
    hide Prune;
    var earlier, r := rotations[..|rotations| - 1], rotations[|rotations| - 1];
    var past, last := Retirements(earlier), Retired(r.hash, r.at + r.grace);
    assert Retirements(rotations) == past + [last];
    RetirementsAt(earlier);
    if earlier == [] {
      assert past == [];
      PruneThenCap([], last, r.at);
    } else {
      StoredIsLastFiveAlive(earlier);
      PruneTwice(LastFive(past), earlier[|earlier| - 1].at, r.at);
      PruneThenCap(past, last, r.at);
    }
  }

  /** Retirement `i` is one of the last five, is `hash`, and `t` is before its deadline. */
  ghost predicate StillGood(rotations: seq<Rotation>, hash: string, t: int, i: int) {
    && |rotations| - MAX_RETAINED_REFRESH_TOKENS <= i < |rotations| && 0 <= i
    && rotations[i].hash == hash && t < rotations[i].at + rotations[i].grace
  }

  ghost predicate Recent(all: seq<Retired>, i: int, e: Retired) {
    |all| - MAX_RETAINED_REFRESH_TOKENS <= i < |all| && 0 <= i && all[i] == e
  }

  lemma LastFiveIsRecent(all: seq<Retired>, e: Retired)
    ensures e in LastFive(all) <==> exists i :: Recent(all, i, e)
  {
    var five := LastFive(all);
    var from := |all| - |five|;
    if e in five {
      var j :| 0 <= j < |five| && five[j] == e;
      assert Recent(all, from + j, e);
    }
    forall i | Recent(all, i, e) ensures e in five {
      assert five[i - from] == e;
    }
  }

  /**
   * From the last rotation on, a hash is accepted at `t` exactly when it is
   * among the last five retirements and `t` is before its own deadline.
   */
  lemma AcceptedIffAmongLastFive(rotations: seq<Rotation>, hash: string, t: int)
    requires rotations != [] && Regular(rotations) && rotations[|rotations| - 1].at <= t
    ensures Accepted(Stored(rotations), hash, t) <==> exists i :: StillGood(rotations, hash, t, i)
  {
    var stored, all := Stored(rotations), Retirements(rotations);
    StoredIsLastFiveAlive(rotations);
    RetirementsAt(rotations);
    PruneKeepsExactlyTheLive(LastFive(all), rotations[|rotations| - 1].at);
    forall i | StillGood(rotations, hash, t, i) ensures Accepted(stored, hash, t) {
      assert Recent(all, i, all[i]);
      LastFiveIsRecent(all, all[i]);
      assert all[i] in stored;
    }
    if Accepted(stored, hash, t) {
      var j :| 0 <= j < |stored| && stored[j].hash == hash && stored[j].expiresAt > t;
      assert stored[j] in stored;
      LastFiveIsRecent(all, stored[j]);
      var i :| Recent(all, i, stored[j]);
      assert StillGood(rotations, hash, t, i);
    }
  }

  /**
   * For any clocks and graces: never more than five, every entry is a
   * retirement of the run under its original deadline, and in its original order.
   */
  lemma {:induction false} StoredIsBoundedHistory(rotations: seq<Rotation>)
    ensures |Stored(rotations)| <= MAX_RETAINED_REFRESH_TOKENS
    ensures Subsequence(Stored(rotations), Retirements(rotations))
  {
    hide Prune;
    if rotations != [] {
      var earlier, r := rotations[..|rotations| - 1], rotations[|rotations| - 1];
      StoredIsBoundedHistory(earlier);
      var live, last := Prune(Stored(earlier), r.at), Retired(r.hash, r.at + r.grace);
      PruneKeepsExactlyTheLive(Stored(earlier), r.at);
      PruneSubsequence(Stored(earlier), Retirements(earlier), r.at);
      SubsequenceSnoc(live, Retirements(earlier), last);
      if r.grace <= 0 {
        assert Retirements(rotations) == Retirements(earlier);
      } else {
        SuffixSubsequence(live + [last], Retirements(rotations));
      }
    }
  }

  /** `s` is `t` with some elements left out. */
  predicate Subsequence<T(==)>(s: seq<T>, t: seq<T>) {
    if s == [] then true
    else if t == [] then false
    else if s[0] == t[0] then Subsequence(s[1..], t[1..])
    else Subsequence(s, t[1..])
  }

  lemma {:induction false} SubsequenceOfLonger<T>(s: seq<T>, x: T, t: seq<T>)
    requires Subsequence(s, t)
    ensures Subsequence(s, [x] + t)
    decreases |t|, 1
  {
    assert ([x] + t)[1..] == t;
    if s != [] && s[0] == x {
      SubsequenceTail(s, t);
    }
  }

  lemma {:induction false} SubsequenceTail<T>(s: seq<T>, t: seq<T>)
    requires s != [] && Subsequence(s, t)
    ensures Subsequence(s[1..], t)
    decreases |t|, 0
  {
    if s[0] == t[0] {
      SubsequenceOfLonger(s[1..], t[0], t[1..]);
      assert t == [t[0]] + t[1..];
    } else {
      SubsequenceTail(s, t[1..]);
      SubsequenceOfLonger(s[1..], t[0], t[1..]);
      assert t == [t[0]] + t[1..];
    }
  }

  lemma {:induction false} SuffixSubsequence(s: seq<Retired>, t: seq<Retired>)
    requires Subsequence(s, t)
    ensures Subsequence(LastFive(s), t)
    decreases |s|
  {
    if |s| > MAX_RETAINED_REFRESH_TOKENS {
      SubsequenceTail(s, t);
      SuffixSubsequence(s[1..], t);
      assert LastFive(s[1..]) == LastFive(s);
    }
  }

  lemma {:induction false} PruneSubsequence(s: seq<Retired>, t: seq<Retired>, now: int)
    requires Subsequence(s, t)
    ensures Subsequence(Prune(s, now), t)
    decreases |t|
  {
    if s != [] {
      assert t == [t[0]] + t[1..];
      if s[0] == t[0] {
        PruneSubsequence(s[1..], t[1..], now);
        var rest := Prune(s[1..], now);
        if s[0].expiresAt > now {
          assert Prune(s, now)[1..] == rest;
        } else {
          SubsequenceOfLonger(rest, t[0], t[1..]);
        }
      } else {
        PruneSubsequence(s, t[1..], now);
        SubsequenceOfLonger(Prune(s, now), t[0], t[1..]);
      }
    }
  }

  lemma {:induction false} SubsequenceSnoc(s: seq<Retired>, t: seq<Retired>, x: Retired)
    requires Subsequence(s, t)
    ensures Subsequence(s, t + [x]) && Subsequence(s + [x], t + [x])
    decreases |t|
  {
    if t == [] {
      assert (s + [x])[1..] == [] && (t + [x])[1..] == [];
    } else {
      assert (t + [x])[1..] == t[1..] + [x];
      if s == [] {
        SubsequenceSnoc([], t[1..], x);
        assert [] + [x] == [x];
        SubsequenceOfLonger([x], t[0], t[1..] + [x]);
        assert t + [x] == [t[0]] + (t[1..] + [x]);
      } else if s[0] == t[0] {
        SubsequenceSnoc(s[1..], t[1..], x);
        assert (s + [x])[1..] == s[1..] + [x];
      } else {
        SubsequenceSnoc(s, t[1..], x);
      }
    }
  }

  // ------------------------------------------------- one rotation, any entries

  /** Pruning takes entries away and changes nothing else: neither their order nor how often one is kept. */
  lemma {:induction false} PruneIsFilter(entries: seq<Retired>, now: int, e: Retired)
    ensures Subsequence(Prune(entries, now), entries)
    ensures multiset(Prune(entries, now))[e] == if e.expiresAt > now then multiset(entries)[e] else 0
  {
    if entries != [] {
      PruneIsFilter(entries[1..], now, e);
      assert entries == [entries[0]] + entries[1..];
      if entries[0].expiresAt > now {
        assert Prune(entries, now)[1..] == Prune(entries[1..], now);
      } else {
        SubsequenceOfLonger(Prune(entries[1..], now), entries[0], entries[1..]);
      }
    }
  }

  /** A rotation without grace retires nothing and drops only what has expired, each entry by its own deadline. */
  lemma NoGraceOnlyExpires(entries: seq<Retired>, hash: string, now: int, grace: int, e: Retired)
    requires grace <= 0
    ensures var next := Retain(entries, hash, now, grace);
            && (e in next <==> e in entries && e.expiresAt > now)
            && multiset(next)[e] == (if e.expiresAt > now then multiset(entries)[e] else 0)
            && Subsequence(next, entries)
  {
    PruneKeepsExactlyTheLive(entries, now);
    PruneIsFilter(entries, now, e);
  }

  /**
   * A rotation with grace appends its hash, and gives up a live entry only when
   * that, the later ones and the new one are more than five.
   */
  lemma GraceAppends(entries: seq<Retired>, hash: string, now: int, grace: int, i: nat)
    requires grace > 0 && i < |Prune(entries, now)|
    ensures var live, next := Prune(entries, now), Retain(entries, hash, now, grace);
            && 0 < |next| <= 5 && next[|next| - 1] == Retired(hash, now + grace)
            && |next| == (if |live| < 5 then |live| + 1 else 5)
            && (|live| - i < 5 ==> next[|next| - 1 - (|live| - i)] == live[i])
  {}

  /**
   * Narrowing the grace never turns a client away: a hash accepted before a
   * rotation without grace is accepted after it, until its own deadline, and no
   * other hash becomes accepted.
   */
  lemma NoGraceKeepsAccepted(rotations: seq<Rotation>, r: Rotation, hash: string, t: int)
    requires r.grace <= 0 && r.at <= t
    ensures Accepted(Stored(rotations + [r]), hash, t) <==> Accepted(Stored(rotations), hash, t)
  {
    var before, after := Stored(rotations), Stored(rotations + [r]);
    assert (rotations + [r])[..|rotations|] == rotations;
    PruneKeepsExactlyTheLive(before, r.at);
    forall i | 0 <= i < |before| && before[i].hash == hash && before[i].expiresAt > t ensures Accepted(after, hash, t) {
      assert before[i] in after;
    }
    forall i | 0 <= i < |after| && after[i].hash == hash && after[i].expiresAt > t ensures Accepted(before, hash, t) {
      assert after[i] in before;
    }
  }
}
