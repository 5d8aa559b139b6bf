/**
 * Normalising a Telegram reaction update: the difference between the old and
 * the new reactions becomes one upsert or delete event per changed reaction.
 */
module TelegramReactions {
  import opened Wrappers
  import opened OrderedMaps
  import opened Decimal
  import opened TelegramThreads

  datatype Reaction = Emoji(emoji: string) | CustomEmoji(customEmojiId: string) | Paid | Unsupported

  datatype Endpoint = Endpoint(identityScope: string, externalId: string)

  datatype Chat = Chat(id: int, kind: string)

  datatype Update = Update(
    updateId: nat, messageId: int, date: int, chat: Chat, messageThreadId: Option<int>,
    userId: Option<int>, actorChat: Option<Chat>, oldReactions: seq<Reaction>, newReactions: seq<Reaction>)

  datatype Event =
    | EndpointUpsert(eventId: string, endpoint: Endpoint)
    | ConversationUpsert(eventId: string, externalThreadId: string)
    | ReactionEvent(eventId: string, kind: string, externalReactionId: string, messageIdentityScope: string, emoji: string)

  const UPSERT := "reaction.upsert"
  const DELETE := "reaction.delete"

  function ReactionKey(r: Reaction): Result<string, string> {
    match r
    case Emoji(e) => if e == "" then Err("Invalid Telegram emoji reaction") else Ok("emoji:" + e)
    case CustomEmoji(id) => if id == "" then Err("Invalid Telegram custom emoji reaction") else Ok("custom:" + id)
    case Paid => Ok("paid")
    case Unsupported => Err("Unsupported Telegram reaction type")
  }

  function DisplayValue(r: Reaction): string {
    match r
    case Emoji(e) => e
    case CustomEmoji(id) => "custom_emoji:" + id
    case _ => "\U{2B50}"
  }

  /** The first thing that makes the list unreadable, if anything does. */
  function KeyError(rs: seq<Reaction>): Option<string> {
    if rs == [] then None
    else if ReactionKey(rs[0]).Err? then Some(ReactionKey(rs[0]).error)
    else KeyError(rs[1..])
  }

  ghost predicate Readable(rs: seq<Reaction>) {
    forall r :: r in rs ==> ReactionKey(r).Ok?
  }

  /** A key stands for one reaction only. */
  lemma KeysAreInjective(r: Reaction, s: Reaction)
    requires ReactionKey(r).Ok? && ReactionKey(r) == ReactionKey(s)
    ensures r == s
  {
    var k := ReactionKey(r).value;
    match r
    case Emoji(e) => assert k[0] == 'e' && k[6..] == e; assert s.Emoji? && ReactionKey(s).value[6..] == s.emoji;
    case CustomEmoji(id) => assert k[0] == 'c' && k[7..] == id; assert s.CustomEmoji? && ReactionKey(s).value[7..] == s.customEmojiId;
    case Paid => assert k[0] == 'p'; assert s.Paid?;
  }

  function Keys(rs: seq<Reaction>): (keys: seq<string>)
    requires Readable(rs)
    ensures |keys| == |rs|
    ensures forall i :: 0 <= i < |rs| ==> ReactionKey(rs[i]) == Ok(keys[i])
  {
    seq(|rs|, i requires 0 <= i < |rs| => assert rs[i] in rs; ReactionKey(rs[i]).value)
  }

  /** The descriptors of all keys, in the order in which keys first appear. */
  function Descriptors(rs: seq<Reaction>): OrderedMap<string, Reaction>
    requires Readable(rs)
  {
    if rs == [] then Empty()
    else Descriptors(rs[..|rs| - 1]).Set(Keys(rs)[|rs| - 1], rs[|rs| - 1])
  }

  datatype Change = Change(upsert: bool, key: string)

  function Repeat(c: Change, n: nat): (cs: seq<Change>)
    ensures |cs| == n && forall x :: x in cs ==> x == c
  {
    if n == 0 then [] else Repeat(c, n - 1) + [c]
  }

  function ChangesBy(key: string, difference: int): seq<Change> {
    Repeat(Change(difference > 0, key), if difference > 0 then difference else -difference)
  }

  function ChangesOf(key: string, before: multiset<string>, after: multiset<string>): seq<Change> {
    ChangesBy(key, after[key] as int - before[key])
  }

  /** The changes for the listed keys, key by key. */
  function Changes(keys: seq<string>, before: multiset<string>, after: multiset<string>): seq<Change> {
    if keys == [] then []
    else Changes(keys[..|keys| - 1], before, after) + ChangesOf(keys[|keys| - 1], before, after)
  }

  // --------------------------------------------------------- meaning of changes

  /** Applying one change; deleting a reaction that is not there is an error. */
  function ApplyOne(m: Option<multiset<string>>, c: Change): Option<multiset<string>> {
    if m.None? then None
    else if c.upsert then Some(m.value + multiset{c.key})
    else if c.key in m.value then Some(m.value - multiset{c.key})
    else None
  }

  function Apply(m: multiset<string>, cs: seq<Change>): Option<multiset<string>> {
    if cs == [] then Some(m) else ApplyOne(Apply(m, cs[..|cs| - 1]), cs[|cs| - 1])
  }

  lemma ApplySnoc(m: multiset<string>, cs: seq<Change>, c: Change)
    ensures Apply(m, cs + [c]) == ApplyOne(Apply(m, cs), c)
  {
    assert (cs + [c])[..|cs|] == cs;
  }

  lemma {:induction false} ApplyConcat(m: multiset<string>, a: seq<Change>, b: seq<Change>)
    requires Apply(m, a).Some?
    ensures Apply(m, a + b) == Apply(Apply(m, a).value, b)
  {
    if b == [] {
      assert a + b == a;
    } else {
      assert (a + b)[..|a + b| - 1] == a + b[..|b| - 1];
      ApplyConcat(m, a, b[..|b| - 1]);
    }
  }

  function Shifted(m: multiset<string>, c: Change, n: nat): multiset<string>
    requires !c.upsert ==> n <= m[c.key]
  {
    m[c.key := if c.upsert then m[c.key] + n else m[c.key] - n]
  }

  lemma ShiftedNext(m: multiset<string>, c: Change, n: nat)
    requires n > 0 && (!c.upsert ==> n <= m[c.key])
    ensures ApplyOne(Some(Shifted(m, c, n - 1)), c) == Some(Shifted(m, c, n))
  {
    if c.upsert {
      assert Shifted(m, c, n - 1) + multiset{c.key} == Shifted(m, c, n);
    } else {
      assert Shifted(m, c, n - 1)[c.key] > 0;
      assert Shifted(m, c, n - 1) - multiset{c.key} == Shifted(m, c, n);
    }
  }

  lemma ShiftedNone(m: multiset<string>, c: Change)
    ensures Shifted(m, c, 0) == m
  {}

  lemma {:induction false} ApplyRepeat(m: multiset<string>, c: Change, n: nat)
    requires !c.upsert ==> n <= m[c.key]
    ensures Apply(m, Repeat(c, n)) == Some(Shifted(m, c, n))
  {
    hide Shifted, ApplyOne;
    if n == 0 {
      ShiftedNone(m, c);
    } else {
      ApplyRepeat(m, c, n - 1);
      ApplySnoc(m, Repeat(c, n - 1), c);
      ShiftedNext(m, c, n);
    }
  }

  lemma ShiftedBy(m: multiset<string>, k: string, difference: int)
    requires m[k] + difference >= 0
    ensures Shifted(m, Change(difference > 0, k), if difference > 0 then difference else -difference)
            == m[k := (m[k] + difference) as nat]
  {}

  lemma ApplyChangesOf(m: multiset<string>, k: string, before: multiset<string>, after: multiset<string>)
    requires m[k] == before[k]
    ensures Apply(m, ChangesOf(k, before, after)) == Some(m[k := after[k]])
  {
    hide Apply, Shifted, Repeat;
    var d: int := after[k] as int - before[k];
    ApplyRepeat(m, Change(d > 0, k), if d > 0 then d else -d);
    ShiftedBy(m, k, d);
  }

  lemma {:induction false} ApplyChanges(keys: seq<string>, before: multiset<string>, after: multiset<string>)
    requires Distinct(keys)
    ensures var r := Apply(before, Changes(keys, before, after));
            r.Some? && forall k :: r.value[k] == if k in keys then after[k] else before[k]
  {
    if keys != [] {
      var init, k := keys[..|keys| - 1], keys[|keys| - 1];
      assert keys == init + [k] && k !in init;
      ApplyChanges(init, before, after);
      ApplyConcat(before, Changes(init, before, after), ChangesOf(k, before, after));
      ApplyChangesOf(Apply(before, Changes(init, before, after)).value, k, before, after);
    }
  }

  /** How many single additions and removals separate two multisets. */
  function Distance(a: multiset<string>, b: multiset<string>): nat {
    |a - b| + |b - a|
  }

  /** One change moves a multiset by at most one. */
  lemma DistanceStep(a: multiset<string>, b: multiset<string>, k: string)
    ensures Distance(a, b + multiset{k}) <= Distance(a, b) + 1
    ensures Distance(a, b - multiset{k}) <= Distance(a, b) + 1
  {
    var up, down := b + multiset{k}, b - multiset{k};
    assert a - up <= a - b;
    assert (up - a) <= (b - a) + multiset{k};
    assert (a - down) <= (a - b) + multiset{k};
    assert (down - a) <= (b - a);
    SubmultisetSize(a - up, a - b);
    SubmultisetSize(up - a, (b - a) + multiset{k});
    SubmultisetSize(a - down, (a - b) + multiset{k});
    SubmultisetSize(down - a, b - a);
  }

  lemma SubmultisetSize(a: multiset<string>, b: multiset<string>)
    requires a <= b
    ensures |a| <= |b|
  {
    assert b == a + (b - a);
  }

  /** No sequence of changes gets from one multiset to the other in fewer steps. */
  lemma {:induction false} NoShorterChanges(before: multiset<string>, after: multiset<string>, cs: seq<Change>)
    requires Apply(before, cs) == Some(after)
    ensures Distance(before, after) <= |cs|
    decreases |cs|
  {
    if cs == [] {
      assert before - after == multiset{} && after - before == multiset{};
    } else {
      var init := cs[..|cs| - 1];
      var mid := Apply(before, init).value;
      NoShorterChanges(before, mid, init);
      DistanceStep(before, mid, cs[|cs| - 1].key);
    }
  }

  lemma DistanceSettled(before: multiset<string>, after: multiset<string>, k: string)
    ensures Distance(before, after) ==
            Distance(before[k := after[k]], after) + |ChangesOf(k, before, after)|
  {
    var settled := before[k := after[k]];
    var d: int := after[k] as int - before[k];
    if d > 0 {
      assert after - before == (after - settled)[k := d];
      assert before - after == settled - after;
    } else {
      assert before - after == (settled - after)[k := -d];
      assert after - before == after - settled;
    }
  }

  lemma {:induction false} ChangesLength(keys: seq<string>, before: multiset<string>, after: multiset<string>)
    requires Distinct(keys)
    requires forall k :: before[k] != after[k] ==> k in keys
    ensures |Changes(keys, before, after)| == Distance(before, after)
    decreases |keys|
  {
    if keys == [] {
      assert before == after;
    } else {
      // Settle the last key, then the rest has one key less to settle.
      var init, k := keys[..|keys| - 1], keys[|keys| - 1];
      assert keys == init + [k] && k !in init;
      var settled := before[k := after[k]];
      ChangesLength(init, settled, after);
      SameChanges(init, k, before, settled, after);
      DistanceSettled(before, after, k);
    }
  }

  lemma {:induction false} SameChanges(keys: seq<string>, k: string, a: multiset<string>, b: multiset<string>,
                                       after: multiset<string>)
    requires k !in keys && forall x :: x != k ==> a[x] == b[x]
    ensures Changes(keys, a, after) == Changes(keys, b, after)
  {
    if keys != [] {
      SameChanges(keys[..|keys| - 1], k, a, b, after);
      assert keys[|keys| - 1] in keys;
    }
  }

  lemma {:induction false} DescriptorsHoldAllKeys(rs: seq<Reaction>)
    requires Readable(rs)
    ensures Descriptors(rs).Wf()
    ensures forall k :: k in Descriptors(rs).vals <==> k in Keys(rs)
    ensures forall k :: k in Descriptors(rs).vals ==> ReactionKey(Descriptors(rs).vals[k]) == Ok(k)
  {
    if rs != [] {
      var init := rs[..|rs| - 1];
      DescriptorsHoldAllKeys(init);
      assert Keys(rs) == Keys(init) + [Keys(rs)[|rs| - 1]];
      SetWf(Descriptors(init), Keys(rs)[|rs| - 1], rs[|rs| - 1]);
    }
  }

  function Before(u: Update): multiset<string>
    requires Readable(u.oldReactions)
  {
    multiset(Keys(u.oldReactions))
  }

  function After(u: Update): multiset<string>
    requires Readable(u.newReactions)
  {
    multiset(Keys(u.newReactions))
  }

  /** The changes of one update. */
  function UpdateChanges(u: Update): seq<Change>
    requires Readable(u.oldReactions + u.newReactions)
  {
    assert forall r :: r in u.oldReactions || r in u.newReactions ==> r in u.oldReactions + u.newReactions;
    Changes(Descriptors(u.oldReactions + u.newReactions).keys, Before(u), After(u))
  }

  /**
   * The emitted changes turn the old reactions into exactly the new ones, and
   * no other changes that do so are fewer.
   */
  lemma ChangesAreExactAndMinimal(u: Update, others: seq<Change>)
    requires Readable(u.oldReactions) && Readable(u.newReactions) && Readable(u.oldReactions + u.newReactions)
    ensures Apply(Before(u), UpdateChanges(u)) == Some(After(u))
    ensures |UpdateChanges(u)| == Distance(Before(u), After(u))
    ensures Apply(Before(u), others) == Some(After(u)) ==> |UpdateChanges(u)| <= |others|
  {
    var keys, before, after := Descriptors(u.oldReactions + u.newReactions).keys, Before(u), After(u);
    AllKeysAreListed(u);
    ExactAndMinimal(keys, before, after, others);
  }

  lemma ExactAndMinimal(keys: seq<string>, before: multiset<string>, after: multiset<string>, others: seq<Change>)
    requires Distinct(keys) && forall k :: before[k] != after[k] ==> k in keys
    ensures Apply(before, Changes(keys, before, after)) == Some(after)
    ensures |Changes(keys, before, after)| == Distance(before, after)
    ensures Apply(before, others) == Some(after) ==> |Changes(keys, before, after)| <= |others|
  {
    ApplyChanges(keys, before, after);
    assert Apply(before, Changes(keys, before, after)).value == after;
    ChangesLength(keys, before, after);
    if Apply(before, others) == Some(after) {
      NoShorterChanges(before, after, others);
    }
  }

  lemma AllKeysAreListed(u: Update)
    requires Readable(u.oldReactions) && Readable(u.newReactions) && Readable(u.oldReactions + u.newReactions)
    ensures var keys := Descriptors(u.oldReactions + u.newReactions).keys;
            Distinct(keys) && forall k :: Before(u)[k] != After(u)[k] ==> k in keys
  {
    var all := u.oldReactions + u.newReactions;
    DescriptorsHoldAllKeys(all);
    assert Keys(all) == Keys(u.oldReactions) + Keys(u.newReactions);
    forall k | Before(u)[k] != After(u)[k] ensures k in Descriptors(all).keys {
      assert k in Keys(u.oldReactions) || k in Keys(u.newReactions);
    }
  }

  // ------------------------------------------------------------------ events

  function Kind(c: Change): string {
    if c.upsert then UPSERT else DELETE
  }

  function Prefix(updateId: nat): string {
    "telegram:" + Digits(updateId) + ":"
  }

  /** The part of a reaction's external id that all reactions of the update share. */
  function ReactionScope(u: Update, reactor: Endpoint): string {
    reactor.identityScope + ":" + reactor.externalId + ":" + Text(u.messageId) + ":"
  }

  function EventOf(u: Update, reactor: Endpoint, descriptors: map<string, Reaction>, c: Change, ordinal: nat): Event
    requires c.key in descriptors
  {
    ReactionEvent(
      Prefix(u.updateId) + Kind(c) + ":" + Digits(ordinal),
      Kind(c),
      ReactionScope(u, reactor) + c.key,
      MessageIdentityScope(ExternalThreadId(u.chat.id, u.messageThreadId)),
      DisplayValue(descriptors[c.key]))
  }

  /** The changes as events, numbered from zero. */
  function EventsOf(u: Update, reactor: Endpoint, descriptors: map<string, Reaction>, cs: seq<Change>): (events: seq<Event>)
    requires forall c :: c in cs ==> c.key in descriptors
    ensures |events| == |cs|
  {
    if cs == [] then []
    else EventsOf(u, reactor, descriptors, cs[..|cs| - 1]) + [EventOf(u, reactor, descriptors, cs[|cs| - 1], |cs| - 1)]
  }

  lemma {:induction false} EventsOfAt(u: Update, reactor: Endpoint, descriptors: map<string, Reaction>, cs: seq<Change>, i: nat)
    requires i < |cs| && forall c :: c in cs ==> c.key in descriptors
    ensures EventsOf(u, reactor, descriptors, cs)[i] == EventOf(u, reactor, descriptors, cs[i], i)
    decreases |cs|
  {
    if i < |cs| - 1 {
      EventsOfAt(u, reactor, descriptors, cs[..|cs| - 1], i);
    }
  }

  /** What a reader of the events makes of one of them. */
  function Decode(u: Update, reactor: Endpoint, e: Event): Change
    requires e.ReactionEvent? && |ReactionScope(u, reactor)| <= |e.externalReactionId|
  {
    Change(e.kind == UPSERT, e.externalReactionId[|ReactionScope(u, reactor)|..])
  }

  /** The events carry their changes: kind and key can be read back from each. */
  lemma EventsCarryChanges(u: Update, reactor: Endpoint, descriptors: map<string, Reaction>, cs: seq<Change>, i: nat)
    requires i < |cs| && forall c :: c in cs ==> c.key in descriptors
    ensures var e := EventsOf(u, reactor, descriptors, cs)[i];
            && e.ReactionEvent? && |ReactionScope(u, reactor)| <= |e.externalReactionId|
            && Decode(u, reactor, e) == cs[i]
  {
    EventsOfAt(u, reactor, descriptors, cs, i);
    assert UPSERT[9] != DELETE[9];
  }

  predicate PositiveSafe(n: int) {
    0 < n <= MAX_SAFE_INTEGER
  }

  function ReferenceEvents(u: Update, reactor: Endpoint): seq<Event> {
    [EndpointUpsert(Prefix(u.updateId) + "endpoint.upsert", reactor),
     ConversationUpsert(Prefix(u.updateId) + "conversation.upsert", ExternalThreadId(u.chat.id, u.messageThreadId))]
  }

  /** What `requireChat` lets through. */
  predicate ValidChat(c: Chat) {
    ValidChatId(c.id) && c.kind != ""
  }

  /** Seconds since the epoch that a JavaScript date can hold. */
  const MAX_DATE_SECONDS := 8640000000000

  /** Who reacted: a user, or a chat when there is no user. */
  function Reactor(u: Update): Option<Endpoint> {
    if u.userId.Some? then Some(Endpoint("telegram-user", Text(u.userId.value)))
    else if u.actorChat.Some? then Some(Endpoint("telegram-chat", Text(u.actorChat.value.id)))
    else None
  }

  /** The error an update is refused with, in the order in which things are checked. */
  function UpdateError(u: Update): Option<string> {
    if !PositiveSafe(u.messageId) || (u.messageThreadId.Some? && !PositiveSafe(u.messageThreadId.value)) then
      Some("Invalid Telegram reaction update")
    else if u.userId.Some? && !PositiveSafe(u.userId.value) then Some("Invalid Telegram user")
    else if (u.actorChat.Some? && !ValidChat(u.actorChat.value)) || !ValidChat(u.chat) then
      Some("Invalid Telegram chat")
    else if Reactor(u).None? then Some("Telegram reaction has no actor")
    else if !(0 <= u.date <= MAX_DATE_SECONDS) then Some("Invalid Telegram reaction date")
    else if KeyError(u.oldReactions).Some? then KeyError(u.oldReactions)
    else KeyError(u.newReactions)
  }

  method ReactionCounts(reactions: seq<Reaction>) returns (r: Result<map<string, nat>, string>)
    ensures r.Err? <==> KeyError(reactions).Some?
    ensures r.Err? ==> KeyError(reactions) == Some(r.error)
    ensures r.Ok? ==>
              && Readable(reactions)
              && forall k :: multiset(Keys(reactions))[k] == if k in r.value then r.value[k] else 0
  {
    var counts: map<string, nat> := map[];
    for i := 0 to |reactions|
      invariant Readable(reactions[..i]) && KeyError(reactions) == KeyError(reactions[i..])
      invariant forall k :: multiset(Keys(reactions[..i]))[k] == if k in counts then counts[k] else 0
    {
      assert reactions[i..][1..] == reactions[i + 1..] && reactions[i..][0] == reactions[i];
      var key := ReactionKey(reactions[i]);
      if key.Err? {
        return Err(key.error);
      }
      assert reactions[..i + 1] == reactions[..i] + [reactions[i]];
      assert Keys(reactions[..i + 1]) == Keys(reactions[..i]) + [key.value];
      counts := counts[key.value := (if key.value in counts then counts[key.value] else 0) + 1];
    }
    assert reactions[..|reactions|] == reactions;
    r := Ok(counts);
  }

  method AllReactionDescriptors(reactions: seq<Reaction>) returns (descriptors: OrderedMap<string, Reaction>)
    requires Readable(reactions)
    ensures descriptors == Descriptors(reactions)
  {
    descriptors := Empty();
    for i := 0 to |reactions|
      invariant descriptors == Descriptors(reactions[..i])
    {
      assert reactions[i] in reactions;
      assert reactions[..i + 1][..i] == reactions[..i];
      descriptors := descriptors.Set(ReactionKey(reactions[i]).value, reactions[i]);
    }
    assert reactions[..|reactions|] == reactions;
  }

  /** The events so far are the reference events and then one event per change. */
  ghost predicate Emitted(u: Update, reactor: Endpoint, descriptors: map<string, Reaction>, cs: seq<Change>,
                          events: seq<Event>)
  {
    && (forall c :: c in cs ==> c.key in descriptors)
    && events == ReferenceEvents(u, reactor) + EventsOf(u, reactor, descriptors, cs)
  }

  method NormalizeReaction(u: Update) returns (r: Result<seq<Event>, string>)
    ensures r.Err? <==> UpdateError(u).Some?
    ensures r.Err? ==> UpdateError(u) == Some(r.error)
    ensures r.Ok? ==>
              && Reactor(u).Some? && Readable(u.oldReactions) && Readable(u.newReactions)
              && Readable(u.oldReactions + u.newReactions)
              && Emitted(u, Reactor(u).value, Descriptors(u.oldReactions + u.newReactions).vals,
                         UpdateChanges(u), r.value)
  {
    if !PositiveSafe(u.messageId) || (u.messageThreadId.Some? && !PositiveSafe(u.messageThreadId.value)) {
      return Err("Invalid Telegram reaction update");
    }
    if u.userId.Some? && !PositiveSafe(u.userId.value) {
      return Err("Invalid Telegram user");
    }
    if u.actorChat.Some? && !ValidChat(u.actorChat.value) {
      return Err("Invalid Telegram chat");
    }
    if !ValidChat(u.chat) {
      return Err("Invalid Telegram chat");
    }
    var reactor;
    if u.userId.Some? {
      reactor := Endpoint("telegram-user", Text(u.userId.value));
    } else if u.actorChat.Some? {
      reactor := Endpoint("telegram-chat", Text(u.actorChat.value.id));
    } else {
      return Err("Telegram reaction has no actor");
    }
    if u.date < 0 || u.date > MAX_DATE_SECONDS {
      return Err("Invalid Telegram reaction date");
    }
    var oldCounts := ReactionCounts(u.oldReactions);
    if oldCounts.Err? {
      return Err(oldCounts.error);
    }
    var newCounts := ReactionCounts(u.newReactions);
    if newCounts.Err? {
      return Err(newCounts.error);
    }
    var descriptors := AllReactionDescriptors(u.oldReactions + u.newReactions);
    DescriptorsHoldAllKeys(u.oldReactions + u.newReactions);
    var events := EmitChanges(u, reactor, descriptors.keys, descriptors.vals, oldCounts.value, newCounts.value,
                              Before(u), After(u));
    r := Ok(events);
  }

  /** `counts.get(key) ?? 0`. */
  function Count(counts: map<string, nat>, key: string): nat {
    if key in counts then counts[key] else 0
  }

  /** The outer loop, over the descriptors in order. */
  method EmitChanges(u: Update, reactor: Endpoint, keys: seq<string>, descriptors: map<string, Reaction>,
                     oldCounts: map<string, nat>, newCounts: map<string, nat>,
                     ghost before: multiset<string>, ghost after: multiset<string>)
    returns (events: seq<Event>)
    requires forall k :: k in keys ==> k in descriptors
    requires forall k :: before[k] == Count(oldCounts, k) && after[k] == Count(newCounts, k)
    ensures Emitted(u, reactor, descriptors, Changes(keys, before, after), events)
  {
    events := ReferenceEvents(u, reactor);
    var ordinal := 0;
    ghost var done: seq<Change> := [];
    for i := 0 to |keys|
      invariant done == Changes(keys[..i], before, after) && ordinal == |done|
      invariant Emitted(u, reactor, descriptors, done, events)
    {
      var key := keys[i];
      var difference: int := Count(newCounts, key) - Count(oldCounts, key);
      ChangesSnoc(keys, i, before, after, difference);
      events, ordinal := PushEvents(u, reactor, descriptors, key, difference, events, ordinal, done);
      done := done + ChangesBy(key, difference);
    }
    assert keys[..|keys|] == keys;
  }

  lemma ChangesSnoc(keys: seq<string>, i: nat, before: multiset<string>, after: multiset<string>, difference: int)
    requires i < |keys| && difference == after[keys[i]] as int - before[keys[i]]
    ensures Changes(keys[..i + 1], before, after) ==
            Changes(keys[..i], before, after) + ChangesBy(keys[i], difference)
  {
    assert keys[..i + 1][..i] == keys[..i];
  }

  /** The inner loop: as many events for one key as its count changed by. */
  method PushEvents(u: Update, reactor: Endpoint, descriptors: map<string, Reaction>, key: string, difference: int,
                    soFar: seq<Event>, from: nat, ghost done: seq<Change>)
    returns (events: seq<Event>, ordinal: nat)
    requires key in descriptors && from == |done| && Emitted(u, reactor, descriptors, done, soFar)
    ensures var now := done + ChangesBy(key, difference);
            ordinal == |now| && Emitted(u, reactor, descriptors, now, events)
  {
    events, ordinal := soFar, from;
    ghost var now := done;
    var kind := if difference > 0 then UPSERT else DELETE;
    ghost var c := Change(difference > 0, key);
    var total := if difference > 0 then difference else -difference;
    for index := 0 to total
      invariant now == done + Repeat(c, index) && ordinal == |now|
      invariant Emitted(u, reactor, descriptors, now, events)
    {
      var event := ReactionEvent(
        Prefix(u.updateId) + kind + ":" + Digits(ordinal), kind,
        ReactionScope(u, reactor) + key,
        MessageIdentityScope(ExternalThreadId(u.chat.id, u.messageThreadId)),
        DisplayValue(descriptors[key]));
      assert event == EventOf(u, reactor, descriptors, c, |now|);
      EmittedSnoc(u, reactor, descriptors, now, events, c);
      events := events + [event];
      now := now + [c];
      ordinal := ordinal + 1;
    }
  }

  lemma EmittedSnoc(u: Update, reactor: Endpoint, descriptors: map<string, Reaction>, cs: seq<Change>,
                    events: seq<Event>, c: Change)
    requires Emitted(u, reactor, descriptors, cs, events) && c.key in descriptors
    ensures Emitted(u, reactor, descriptors, cs + [c], events + [EventOf(u, reactor, descriptors, c, |cs|)])
  {
    assert (cs + [c])[..|cs|] == cs;
  }

  /** All event ids of one update differ. */
  lemma EventIdsAreDistinct(u: Update, reactor: Endpoint, descriptors: map<string, Reaction>, cs: seq<Change>, i: nat, j: nat)
    requires forall c :: c in cs ==> c.key in descriptors
    requires var events := ReferenceEvents(u, reactor) + EventsOf(u, reactor, descriptors, cs); i < j < |events|
    ensures var events := ReferenceEvents(u, reactor) + EventsOf(u, reactor, descriptors, cs);
            events[i].eventId != events[j].eventId
  {
    var p := Prefix(u.updateId);
    var events := ReferenceEvents(u, reactor) + EventsOf(u, reactor, descriptors, cs);
    IdShape(u, reactor, descriptors, cs, i);
    IdShape(u, reactor, descriptors, cs, j);
    if i >= 2 {
      var x, y := events[i].eventId, events[j].eventId;
      if x == y {
        DigitsInjective(i - 2, j - 2);
      }
    }
  }

  lemma IdShape(u: Update, reactor: Endpoint, descriptors: map<string, Reaction>, cs: seq<Change>, i: nat)
    requires forall c :: c in cs ==> c.key in descriptors
    requires i < |cs| + 2
    ensures var events := ReferenceEvents(u, reactor) + EventsOf(u, reactor, descriptors, cs);
            var p, id := Prefix(u.updateId), events[i].eventId;
            && |id| > |p| + 15 - 1
            && id[|p|] == (if i == 0 then 'e' else if i == 1 then 'c' else 'r')
            && (i >= 2 ==> |id| >= |p| + 16 && id[|p| + 16..] == Digits(i - 2))
  {
    var events := ReferenceEvents(u, reactor) + EventsOf(u, reactor, descriptors, cs);
    var p, id := Prefix(u.updateId), events[i].eventId;
    if i >= 2 {
      EventsOfAt(u, reactor, descriptors, cs, i - 2);
      var head := p + Kind(cs[i - 2]) + ":";
      assert id == head + Digits(i - 2) && |head| == |p| + 16;
    }
  }

  // ----------------------------------------------------- what an event tells

  lemma NumberBeforeColon(a: int, x: string, b: int, y: string)
    requires Text(a) + (":" + x) == Text(b) + (":" + y)
    ensures a == b && x == y
  {
    TextIsChatText(a);
    TextIsChatText(b);
    ChatSplits(Text(a), ":" + x);
    ChatSplits(Text(b), ":" + y);
    TextInjective(a, b);
    assert (":" + x)[1..] == x && (":" + y)[1..] == y;
  }

  lemma ScopeParts(u: Update, reactor: Endpoint, key: string, id: int)
    requires reactor.externalId == Text(id) && |reactor.identityScope| == 13
    ensures var whole := ReactionScope(u, reactor) + key;
            && |whole| > 14 && whole[..13] == reactor.identityScope
            && whole[14..] == Text(id) + (":" + (Text(u.messageId) + (":" + key)))
  {
    var whole := ReactionScope(u, reactor) + key;
    assert whole == reactor.identityScope + (":" + (Text(id) + (":" + (Text(u.messageId) + (":" + key)))));
  }

  /**
   * External reaction ids tell everything apart: the reactor, user or chat, the
   * message, and the reaction.
   */
  lemma ReactionIdsTellApart(u: Update, v: Update, r: Reaction, s: Reaction)
    requires Reactor(u).Some? && Reactor(v).Some? && ReactionKey(r).Ok? && ReactionKey(s).Ok?
    requires ReactionScope(u, Reactor(u).value) + ReactionKey(r).value == ReactionScope(v, Reactor(v).value) + ReactionKey(s).value
    ensures Reactor(u) == Reactor(v) && u.messageId == v.messageId && r == s
  {
    var a, b := ReactorId(u), ReactorId(v);
    var k, l := ReactionKey(r).value, ReactionKey(s).value;
    ScopeParts(u, Reactor(u).value, k, a);
    ScopeParts(v, Reactor(v).value, l, b);
    hide ReactionScope;
    NumberBeforeColon(a, Text(u.messageId) + (":" + k), b, Text(v.messageId) + (":" + l));
    NumberBeforeColon(u.messageId, k, v.messageId, l);
    KeysAreInjective(r, s);
  }

  function ReactorId(u: Update): (id: int)
    requires Reactor(u).Some?
    ensures Reactor(u).value.externalId == Text(id) && |Reactor(u).value.identityScope| == 13
    ensures Reactor(u).value.identityScope == if u.userId.Some? then "telegram-user" else "telegram-chat"
  {
    if u.userId.Some? then u.userId.value else u.actorChat.value.id
  }

  /** Reactors differ when their kind or their number does. */
  lemma ReactorsTellApart(u: Update, v: Update)
    requires Reactor(u).Some? && Reactor(u) == Reactor(v)
    ensures u.userId == v.userId
    ensures u.userId.None? ==> u.actorChat.Some? && v.actorChat.Some? && u.actorChat.value.id == v.actorChat.value.id
  {
    assert "telegram-user"[9] != "telegram-chat"[9];
    TextInjective(ReactorId(u), ReactorId(v));
  }

  /** What the text of a reaction hides: an emoji can look like a custom one, or like a paid one. */
  predicate LooksLike(r: Reaction, s: Reaction) {
    || (r.Emoji? && s.CustomEmoji? && r.emoji == "custom_emoji:" + s.customEmojiId)
    || (r.Emoji? && s.Paid? && r.emoji == "\U{2B50}")
  }

  /** The shown text tells two reactions apart, but for those that look alike. */
  lemma ShownAlikeIff(r: Reaction, s: Reaction)
    requires ReactionKey(r).Ok? && ReactionKey(s).Ok?
    ensures DisplayValue(r) == DisplayValue(s) <==> r == s || LooksLike(r, s) || LooksLike(s, r)
  {
    if r.CustomEmoji? {
      assert ("custom_emoji:" + r.customEmojiId)[13..] == r.customEmojiId && DisplayValue(r)[0] == 'c';
    }
    if s.CustomEmoji? {
      assert ("custom_emoji:" + s.customEmojiId)[13..] == s.customEmojiId && DisplayValue(s)[0] == 'c';
    }
  }

  /** Each reaction event shows the reaction its key stands for, in the thread of its message. */
  lemma EventShowsReaction(u: Update, reactor: Endpoint, rs: seq<Reaction>, cs: seq<Change>, i: nat, r: Reaction)
    requires Readable(rs) && i < |cs| && forall c :: c in cs ==> c.key in Descriptors(rs).vals
    requires ReactionKey(r) == Ok(cs[i].key)
    ensures var e := EventsOf(u, reactor, Descriptors(rs).vals, cs)[i];
            && e.ReactionEvent? && e.emoji == DisplayValue(r)
            && e.externalReactionId == ReactionScope(u, reactor) + cs[i].key
            && e.messageIdentityScope == MessageIdentityScope(ExternalThreadId(u.chat.id, u.messageThreadId))
  {
    EventsOfAt(u, reactor, Descriptors(rs).vals, cs, i);
    DescriptorsHoldAllKeys(rs);
    KeysAreInjective(r, Descriptors(rs).vals[cs[i].key]);
  }

  /** How often a reaction stands in a list. */
  function Times(rs: seq<Reaction>, r: Reaction): nat {
    if rs == [] then 0 else Times(rs[..|rs| - 1], r) + if rs[|rs| - 1] == r then 1 else 0
  }

  lemma {:induction false} KeysCount(rs: seq<Reaction>, r: Reaction)
    requires Readable(rs) && ReactionKey(r).Ok?
    ensures multiset(Keys(rs))[ReactionKey(r).value] == Times(rs, r)
  {
    if rs != [] {
      var init, last := rs[..|rs| - 1], rs[|rs| - 1];
      KeysCount(init, r);
      assert last in rs && Keys(rs) == Keys(init) + [ReactionKey(last).value];
      if ReactionKey(last) == ReactionKey(r) {
        KeysAreInjective(last, r);
      }
    }
  }

  /**
   * Applied to the old reactions, the changes leave each reaction as often as the
   * new ones have it: they start from how often the old ones have it.
   */
  lemma ChangesAreOfReactions(u: Update, r: Reaction)
    requires Readable(u.oldReactions) && Readable(u.newReactions) && Readable(u.oldReactions + u.newReactions)
    requires ReactionKey(r).Ok?
    ensures Before(u)[ReactionKey(r).value] == Times(u.oldReactions, r)
    ensures var result := Apply(Before(u), UpdateChanges(u));
            result.Some? && result.value[ReactionKey(r).value] == Times(u.newReactions, r)
  {
    KeysCount(u.oldReactions, r);
    KeysCount(u.newReactions, r);
    ChangesAreExactAndMinimal(u, []);
  }

  /** The events before them name the reactor, and a thread id that leads back to the chat and its thread. */
  lemma ReferenceEventsTell(u: Update, reactor: Endpoint)
    requires u.messageThreadId.Some? ==> u.messageThreadId.value >= 0
    ensures var events := ReferenceEvents(u, reactor);
            && |events| == 2 && events[0].EndpointUpsert? && events[0].endpoint == reactor
            && events[1].ConversationUpsert?
            && ParseThreadTarget(events[1].externalThreadId) ==
               Ok(TelegramThreads.Target(Text(u.chat.id), if u.messageThreadId.Some? then Some(u.messageThreadId.value as nat) else None))
  {
    ParseOfPrinted(u.chat.id, if u.messageThreadId.Some? then Some(u.messageThreadId.value as nat) else None);
  }

  // ------------------------------------------------------------- what is refused

  /**
   * An update goes through exactly when its ids are safe positive numbers, its
   * chats have an id and a type, someone reacted, the date can be told, and every
   * emoji has a text.
   */
  lemma RefusedIff(u: Update)
    ensures UpdateError(u).None? <==>
            && 1 <= u.messageId <= 9007199254740991
            && (u.messageThreadId.Some? ==> 1 <= u.messageThreadId.value <= 9007199254740991)
            && (u.userId.Some? ==> 1 <= u.userId.value <= 9007199254740991)
            && (u.actorChat.Some? ==>
                  && u.actorChat.value.id != 0 && -9007199254740991 <= u.actorChat.value.id <= 9007199254740991
                  && u.actorChat.value.kind != "")
            && u.chat.id != 0 && -9007199254740991 <= u.chat.id <= 9007199254740991 && u.chat.kind != ""
            && (u.userId.Some? || u.actorChat.Some?)
            && 0 <= u.date <= 8640000000000
            && forall r :: r in u.oldReactions + u.newReactions ==>
                 r == Paid || (r.Emoji? && r.emoji != "") || (r.CustomEmoji? && r.customEmojiId != "")
  {
    KeyErrorIff(u.oldReactions);
    KeyErrorIff(u.newReactions);
    assert forall r :: r in u.oldReactions + u.newReactions <==> r in u.oldReactions || r in u.newReactions;
  }

  /** Of several errors the first in this order is told: the update's numbers, the user, a chat, no actor, the date, a reaction. */
  lemma FirstErrorIsTold(u: Update)
    ensures var numbers := 1 <= u.messageId <= 9007199254740991 &&
                           (u.messageThreadId.Some? ==> 1 <= u.messageThreadId.value <= 9007199254740991);
            var user := u.userId.Some? ==> 1 <= u.userId.value <= 9007199254740991;
            var chats := ValidChat(u.chat) && (u.actorChat.Some? ==> ValidChat(u.actorChat.value));
            var actor := u.userId.Some? || u.actorChat.Some?;
            && (!numbers ==> UpdateError(u) == Some("Invalid Telegram reaction update"))
            && (numbers && !user ==> UpdateError(u) == Some("Invalid Telegram user"))
            && (numbers && user && !chats ==> UpdateError(u) == Some("Invalid Telegram chat"))
            && (numbers && user && chats && !actor ==> UpdateError(u) == Some("Telegram reaction has no actor"))
            && (numbers && user && chats && actor && !(0 <= u.date <= 8640000000000) ==>
                  UpdateError(u) == Some("Invalid Telegram reaction date"))
  {}

  lemma {:induction false} KeyErrorIff(rs: seq<Reaction>)
    ensures KeyError(rs).None? <==>
            forall r :: r in rs ==> r == Paid || (r.Emoji? && r.emoji != "") || (r.CustomEmoji? && r.customEmojiId != "")
  {
    if rs != [] {
      KeyErrorIff(rs[1..]);
      assert rs == [rs[0]] + rs[1..];
    }
  }

  // -------------------------------------------------------------------- order

  /** Where a key first appears; past the end if it does not. */
  function FirstAt(keys: seq<string>, k: string): (i: nat)
    ensures i <= |keys| && (i < |keys| ==> keys[i] == k) && (forall j :: 0 <= j < i ==> keys[j] != k)
    ensures k in keys <==> i < |keys|
  {
    if keys == [] then 0 else if keys[0] == k then 0 else FirstAt(keys[1..], k) + 1
  }

  ghost predicate InOrderOf(order: seq<string>, keys: seq<string>) {
    && (forall k :: k in order ==> k in keys)
    && forall i, j :: 0 <= i < j < |order| ==> FirstAt(keys, order[i]) < FirstAt(keys, order[j])
  }

  lemma InOrderSnoc(order: seq<string>, keys: seq<string>, last: string)
    requires InOrderOf(order, keys)
    ensures InOrderOf(order, keys + [last])
    ensures last !in keys ==> InOrderOf(order + [last], keys + [last])
  {
    var all, more := keys + [last], order + [last];
    forall k ensures FirstAt(all, k) == if k in keys then FirstAt(keys, k) else if k == last then |keys| else |keys| + 1 {
      FirstStays(keys, last, k);
    }
    forall i | 0 <= i < |order| ensures order[i] in keys {
      assert order[i] in order;
    }
    if last !in keys {
      forall k | k in more ensures k in all {}
      forall i, j | 0 <= i < j < |more| ensures FirstAt(all, more[i]) < FirstAt(all, more[j]) {
        assert more[i] == order[i];
      }
    }
  }

  /** The descriptors come in the order in which their keys first appear. */
  lemma {:induction false} DescriptorsInOrder(rs: seq<Reaction>)
    requires Readable(rs)
    ensures InOrderOf(Descriptors(rs).keys, Keys(rs))
  {
    if rs != [] {
      var init, k := rs[..|rs| - 1], ReactionKey(rs[|rs| - 1]).value;
      DescriptorsInOrder(init);
      DescriptorsHoldAllKeys(init);
      assert Keys(rs) == Keys(init) + [k];
      InOrderSnoc(Descriptors(init).keys, Keys(init), k);
    }
  }

  lemma FirstStays(keys: seq<string>, last: string, k: string)
    ensures FirstAt(keys + [last], k) == if k in keys then FirstAt(keys, k) else if k == last then |keys| else |keys| + 1
  {
    var i, all := FirstAt(keys, k), keys + [last];
    var j := FirstAt(all, k);
    if i < |keys| {
      assert all[i] == k;
    } else {
      assert all[|keys|] == last;
    }
  }

  /** The changes come key by key, in the order of the keys. */
  lemma {:induction false} ChangesInOrder(keys: seq<string>, before: multiset<string>, after: multiset<string>, i: nat, j: nat)
    requires Distinct(keys) && i <= j < |Changes(keys, before, after)|
    ensures var cs := Changes(keys, before, after);
            && cs[j].key in keys && FirstAt(keys, cs[i].key) <= FirstAt(keys, cs[j].key)
    decreases |keys|
  {
    var init, k := keys[..|keys| - 1], keys[|keys| - 1];
    assert keys == init + [k] && k !in init;
    var cs := Changes(init, before, after);
    ChangesOfOne(k, before, after);
    if i < |cs| {
      ChangesInOrder(init, before, after, i, i);
      FirstStays(init, k, cs[i].key);
    }
    if j < |cs| {
      ChangesInOrder(init, before, after, i, j);
      FirstStays(init, k, cs[j].key);
    }
    FirstStays(init, k, k);
  }

  lemma ChangesOfOne(k: string, before: multiset<string>, after: multiset<string>)
    ensures forall c :: c in ChangesOf(k, before, after) ==> c.key == k
  {}
}
