/**
 * Connection alerts: the triggers on a tenant's connections that queue one
 * alert per workspace owner or admin when a connection goes down, escalate it
 * on a logout, and close the incident when the connection recovers.
 *
 * Every statement and every trigger is one atomic step. The delivery worker
 * and the users reading their notices are the environment.
 */
module ConnectionAlerts {
  import opened Wrappers

  datatype Status = Connected | NotConnected(name: string)

  datatype Connection = Connection(status: Status, loggedOutAt: Option<int>, archivedAt: Option<int>)

  datatype Kind = Disconnected | LoggedOut

  datatype Alert = Alert(
    id: nat, kind: Kind, occurredAt: int, nextAttemptAt: int, attempts: nat,
    sentAt: Option<int>, notificationCreatedAt: Option<int>, messageId: Option<string>)

  datatype Origin = Incident(connection: nat, kind: Kind) | Reconnected(connection: nat, recoveredAlertId: nat) | Other

  datatype Notice = Notice(user: nat, isRead: bool, readAt: Option<int>, origin: Origin)

  /** Alerts are keyed by connection and user; `used` holds every id ever generated. */
  datatype Db = Db(
    connections: map<nat, Connection>, alerts: Alerts, history: map<nat, Notice>, used: set<nat>)

  const GRACE_MS := 300000

  /** One fresh id for each user that may need one. */
  type Mint = map<nat, nat>

  ghost predicate FreshMint(db: Db, mint: Mint, users: set<nat>) {
    users <= mint.Keys && mint.Values !! db.used && InjectiveMint(mint)
  }

  // ---------------------------------------------------------------- statements

  /** The `BEFORE UPDATE OF id` trigger on alerts. */
  function ResetNotification(before: Alert, after: Alert): Alert {
    if after.id != before.id then after.(notificationCreatedAt := None, messageId := None) else after
  }

  type Alerts = map<(nat, nat), Alert>

  predicate Surfaced(alerts: Alerts, c: nat, u: nat) {
    (c, u) in alerts && alerts[(c, u)].notificationCreatedAt.Some?
  }

  function SurfacedIds(alerts: Alerts, c: nat): set<nat> {
    set k | k in alerts && k.0 == c && Surfaced(alerts, c, k.1) :: alerts[k].id
  }

  function MarkRead(history: map<nat, Notice>, ids: set<nat>, now: int): map<nat, Notice> {
    map n | n in history ::
      if n in ids then history[n].(isRead := true, readAt := Some(if history[n].readAt.Some? then history[n].readAt.value else now))
      else history[n]
  }

  ghost predicate InjectiveMint(mint: Mint) {
    forall u, v :: u in mint && v in mint && u != v ==> mint[u] != mint[v]
  }

  function ReconnectedNotices(alerts: Alerts, c: nat, mint: Mint): map<nat, Notice>
    requires InjectiveMint(mint)
  {
    map u | u in mint && Surfaced(alerts, c, u) :: mint[u] := Notice(u, false, None, Reconnected(c, alerts[(c, u)].id))
  }

  function WithoutConnection(alerts: Alerts, c: nat): Alerts {
    map k | k in alerts && k.0 != c :: alerts[k]
  }

  predicate IsDown(row: Connection) {
    row.archivedAt.None? && row.status != Connected
  }

  predicate Recovers(before: Connection, after: Connection) {
    after.archivedAt.None? && after.status == Connected && before.status != Connected
  }

  /** The alert kind an update raises, on a connection that is down after it. */
  function Signal(before: Connection, after: Connection): Option<Kind> {
    if after.loggedOutAt.Some? && before.loggedOutAt.None? then Some(LoggedOut)
    else if before.status == Connected && after.status != Connected then Some(Disconnected)
    else None
  }

  function NewAlert(id: nat, kind: Kind, now: int): Alert {
    Alert(id, kind, now, if kind == LoggedOut then now else now + GRACE_MS, 0, None, None, None)
  }

  /** Insert an alert per recipient; a conflicting row changes only from disconnected to logged out. */
  function Upsert(alerts: Alerts, c: nat, recipients: set<nat>, kind: Kind, now: int, mint: Mint): Alerts
    requires recipients <= mint.Keys
  {
    map k | k in alerts.Keys + set u | u in recipients :: (c, u) ::
      if k.0 != c || k.1 !in recipients then alerts[k]
      else
        var excluded := NewAlert(mint[k.1], kind, now);
        if k !in alerts then excluded
        else if alerts[k].kind == Disconnected && kind == LoggedOut then
          ResetNotification(alerts[k], alerts[k].(
            id := mint[k.1], kind := excluded.kind, occurredAt := excluded.occurredAt,
            nextAttemptAt := excluded.nextAttemptAt, attempts := 0, sentAt := None))
        else alerts[k]
  }

  function RecoveredHistory(db: Db, c: nat, now: int, company: bool, mint: Mint): map<nat, Notice>
    requires InjectiveMint(mint)
  {
    MarkRead(db.history, SurfacedIds(db.alerts, c), now) +
    if company then ReconnectedNotices(db.alerts, c, mint) else map[]
  }

  /**
   * An update of a connection's status, logout or archive column, with the
   * trigger that follows it. `company` tells whether the schema has its company row.
   */
  function UpdateConnection(db: Db, c: nat, after: Connection, now: int, recipients: set<nat>, company: bool, mint: Mint): Db
    requires c in db.connections && FreshMint(db, mint, recipients)
  {
    var before := db.connections[c];
    var updated := db.(connections := db.connections[c := after], used := db.used + mint.Values);
    if !IsDown(after) then
      updated.(
        alerts := WithoutConnection(db.alerts, c),
        history :=
          if Recovers(before, after) then RecoveredHistory(db, c, now, company, mint) else db.history)
    else if Signal(before, after).None? then updated
    else updated.(alerts := Upsert(db.alerts, c, recipients, Signal(before, after).value, now, mint))
  }

  class TenantDatabase {
    var connections: map<nat, Connection>
    var alerts: Alerts
    var history: map<nat, Notice>
    ghost var used: set<nat>

    ghost function Snapshot(): Db
      reads this
    {
      Db(connections, alerts, history, used)
    }

    /** The update and `queue_connection_email_alert`, statement by statement. */
    method UpdateAndQueueAlert(c: nat, after: Connection, now: int, recipients: set<nat>, company: bool, mint: Mint)
      requires c in connections && FreshMint(Snapshot(), mint, recipients)
      requires forall k :: k in alerts && k.0 == c ==> k.1 in mint
      modifies this
      ensures Snapshot() == UpdateConnection(old(Snapshot()), c, after, now, recipients, company, mint)
    {
      var before := connections[c];
      connections := connections[c := after];
      used := used + mint.Values;
      if after.archivedAt.Some? || after.status == Connected {
        if after.archivedAt.None? && after.status == Connected && before.status != Connected {
          CloseSurfaced(c, now);
          if company {
            InsertReconnected(c, mint);
          }
        }
        DeleteAlerts(c);
        return;
      }
      var kind;
      if after.loggedOutAt.Some? && before.loggedOutAt.None? {
        kind := LoggedOut;
      } else if before.status == Connected && after.status != Connected {
        kind := Disconnected;
      } else {
        return;
      }
      UpsertAlerts(c, recipients, kind, now, mint);
    }

    /** `UPDATE ... FROM`: each surfaced alert of the connection closes the notice with its id. */
    method CloseSurfaced(c: nat, now: int)
      modifies this`history
      ensures history == MarkRead(old(history), SurfacedIds(alerts, c), now)
    {
      var todo := alerts.Keys;
      ghost var closed: set<nat> := {};
      while todo != {}
        invariant todo <= alerts.Keys
        invariant history == MarkRead(old(history), closed, now)
        invariant forall id :: id in closed <==> exists k :: k in alerts && k !in todo && SurfacedAs(alerts, c, k, id)
      {
        var k :| k in todo;
        if k.0 == c && alerts[k].notificationCreatedAt.Some? {
          var id := alerts[k].id;
          closed := closed + {id};
          if id in history {
            var notice := history[id];
            history := history[id := notice.(isRead := true,
              readAt := Some(if notice.readAt.Some? then notice.readAt.value else now))];
          }
        }
        todo := todo - {k};
      }
      assert closed == SurfacedIds(alerts, c);
    }

    /** `INSERT ... SELECT`: each surfaced alert of the connection gives a notice. */
    method InsertReconnected(c: nat, mint: Mint)
      requires InjectiveMint(mint)
      requires forall k :: k in alerts && k.0 == c ==> k.1 in mint
      modifies this`history
      ensures history == old(history) + ReconnectedNotices(alerts, c, mint)
    {
      hide ReconnectedNotices;
      var todo := alerts.Keys;
      ghost var done: Alerts := map[];
      NoNotices(history, c, mint);
      while todo != {}
        invariant todo <= alerts.Keys && done.Keys == alerts.Keys - todo
        invariant forall k :: k in done ==> done[k] == alerts[k]
        invariant history == old(history) + ReconnectedNotices(done, c, mint)
      {
        var k :| k in todo;
        NextNotice(old(history), done, k, alerts[k], c, mint);
        if k.0 == c && alerts[k].notificationCreatedAt.Some? {
          history := history[mint[k.1] := Notice(k.1, false, None, Reconnected(c, alerts[k].id))];
        }
        done := done[k := alerts[k]];
        todo := todo - {k};
      }
      assert done == alerts;
    }

    method DeleteAlerts(c: nat)
      modifies this`alerts
      ensures alerts == WithoutConnection(old(alerts), c)
    {
      var todo := alerts.Keys;
      while todo != {}
        invariant todo <= alerts.Keys <= old(alerts).Keys
        invariant forall k :: k in old(alerts) ==> (k in alerts <==> k in todo || k.0 != c)
        invariant forall k :: k in alerts ==> alerts[k] == old(alerts)[k]
      {
        var k :| k in todo;
        if k.0 == c {
          alerts := alerts - {k};
        }
        todo := todo - {k};
      }
    }

    /** `INSERT ... ON CONFLICT DO UPDATE ... WHERE`, one recipient after the other. */
    method UpsertAlerts(c: nat, recipients: set<nat>, kind: Kind, now: int, mint: Mint)
      requires recipients <= mint.Keys
      modifies this`alerts
      ensures alerts == Upsert(old(alerts), c, recipients, kind, now, mint)
    {
      hide Upsert, ResetNotification;
      var todo := recipients;
      ghost var done: set<nat> := {};
      NoUpsert(alerts, c, kind, now, mint);
      while todo != {}
        invariant todo <= recipients && done == recipients - todo
        invariant alerts == Upsert(old(alerts), c, done, kind, now, mint)
      {
        var u :| u in todo;
        NextUpsert(old(alerts), c, done, u, kind, now, mint);
        var excluded := Alert(mint[u], kind, now, if kind == LoggedOut then now else now + GRACE_MS, 0, None, None, None);
        if (c, u) !in alerts {
          alerts := alerts[(c, u) := excluded];
        } else if alerts[(c, u)].kind == Disconnected && excluded.kind == LoggedOut {
          var updated := alerts[(c, u)].(
            id := excluded.id, kind := excluded.kind, occurredAt := excluded.occurredAt,
            nextAttemptAt := excluded.nextAttemptAt, attempts := 0, sentAt := None);
          alerts := alerts[(c, u) := ResetNotification(alerts[(c, u)], updated)];
        }
        done := done + {u};
        todo := todo - {u};
      }
      assert done == recipients;
    }
  }

  lemma NoNotices(history: map<nat, Notice>, c: nat, mint: Mint)
    requires InjectiveMint(mint)
    ensures history + ReconnectedNotices(map[], c, mint) == history
  {}

  /** One alert more gives its notice, if it has surfaced. */
  lemma NextNotice(history: map<nat, Notice>, done: Alerts, k: (nat, nat), a: Alert, c: nat, mint: Mint)
    requires InjectiveMint(mint) && k !in done && (k.0 == c ==> k.1 in mint)
    ensures history + ReconnectedNotices(done[k := a], c, mint) ==
            if k.0 == c && a.notificationCreatedAt.Some?
            then (history + ReconnectedNotices(done, c, mint))[mint[k.1] := Notice(k.1, false, None, Reconnected(c, a.id))]
            else history + ReconnectedNotices(done, c, mint)
  {
    hide ReconnectedNotices, Surfaced;
    var all := done[k := a];
    var more, notices := ReconnectedNotices(all, c, mint), ReconnectedNotices(done, c, mint);
    var surfaced := k.0 == c && a.notificationCreatedAt.Some?;
    var expected := if surfaced then notices[mint[k.1] := Notice(k.1, false, None, Reconnected(c, a.id))] else notices;
    NextSurfaced(done, k, a, c);
    forall n ensures n in more <==> n in expected ensures n in more ==> more[n] == expected[n] {
      ReconnectedNoticesAre(all, c, mint, n);
      ReconnectedNoticesAre(done, c, mint, n);
    }
    assert more == expected;
  }

  lemma NextSurfaced(done: Alerts, k: (nat, nat), a: Alert, c: nat)
    requires k !in done
    ensures forall u: nat :: Surfaced(done[k := a], c, u) <==>
              Surfaced(done, c, u) || (k == (c, u) && a.notificationCreatedAt.Some?)
    ensures forall u: nat :: Surfaced(done, c, u) ==> (c, u) in done && done[k := a][(c, u)] == done[(c, u)]
    ensures k.0 == c && a.notificationCreatedAt.Some? ==> Surfaced(done[k := a], c, k.1)
  {}

  lemma NoUpsert(alerts: Alerts, c: nat, kind: Kind, now: int, mint: Mint)
    ensures Upsert(alerts, c, {}, kind, now, mint) == alerts
  {}

  /** One recipient more gets a new alert, an escalated one, or keeps the one there is. */
  lemma NextUpsert(alerts: Alerts, c: nat, done: set<nat>, u: nat, kind: Kind, now: int, mint: Mint)
    requires done <= mint.Keys && u in mint && u !in done
    ensures var before, k, excluded := Upsert(alerts, c, done, kind, now, mint), (c, u), NewAlert(mint[u], kind, now);
            Upsert(alerts, c, done + {u}, kind, now, mint) ==
            if k !in before then before[k := excluded]
            else if before[k].kind == Disconnected && kind == LoggedOut then
              before[k := ResetNotification(before[k], before[k].(
                id := mint[u], kind := excluded.kind, occurredAt := excluded.occurredAt,
                nextAttemptAt := excluded.nextAttemptAt, attempts := 0, sentAt := None))]
            else before
  {
    var before := Upsert(alerts, c, done, kind, now, mint);
    assert (c, u) in before <==> (c, u) in alerts;
  }

  ghost predicate SurfacedAs(alerts: Alerts, c: nat, k: (nat, nat), id: nat) {
    k in alerts && k.0 == c && alerts[k].notificationCreatedAt.Some? && alerts[k].id == id
  }

  // --------------------------------------------------------------------- steps

  datatype Event =
    | InsertRow(c: nat, row: Connection)
    | UpdateRow(c: nat, row: Connection, now: int, recipients: set<nat>, company: bool, mint: Mint)
    | Claim(key: (nat, nat), id: nat, nextAttemptAt: int)
    | Surface(key: (nat, nat), id: nat, now: int)
    | MarkSent(key: (nat, nat), id: nat, now: int, messageId: Option<string>)
    | Retry(key: (nat, nat), id: nat, nextAttemptAt: int)
    | Withdraw(key: (nat, nat), id: nat)
    | ReadNotice(notice: nat, now: int)
    | DeleteNotice(notice: nat)
    | OtherNotice(notice: nat, user: nat)

  ghost predicate Enabled(db: Db, e: Event) {
    match e
    case InsertRow(c, _) => c !in db.connections
    case UpdateRow(c, _, _, recipients, _, mint) =>
      c in db.connections && FreshMint(db, mint, recipients) && forall k :: k in db.alerts && k.0 == c ==> k.1 in mint
    case OtherNotice(n, _) => n !in db.used
    case _ => true
  }

  /** The worker finds an alert by its id; an id that has been rotated or removed is not found. */
  predicate Finds(db: Db, key: (nat, nat), id: nat) {
    key in db.alerts && db.alerts[key].id == id
  }

  function Step(db: Db, e: Event): Db
    requires Enabled(db, e)
  {
    match e
    case InsertRow(c, row) => db.(connections := db.connections[c := row])
    case UpdateRow(c, row, now, recipients, company, mint) => UpdateConnection(db, c, row, now, recipients, company, mint)
    case Claim(k, id, next) =>
      if !Finds(db, k, id) then db
      else db.(alerts := db.alerts[k := db.alerts[k].(nextAttemptAt := next, attempts := db.alerts[k].attempts + 1)])
    case Surface(k, id, now) =>
      if !Finds(db, k, id) || db.alerts[k].notificationCreatedAt.Some? then db
      else db.(
        history := if id in db.history then db.history
                   else db.history[id := Notice(k.1, false, None, Incident(k.0, db.alerts[k].kind))],
        alerts := db.alerts[k := db.alerts[k].(notificationCreatedAt := Some(now))])
    case MarkSent(k, id, now, message) =>
      if !Finds(db, k, id) then db
      else db.(alerts := db.alerts[k := db.alerts[k].(sentAt := Some(now), messageId := message)])
    case Retry(k, id, next) =>
      if !Finds(db, k, id) then db else db.(alerts := db.alerts[k := db.alerts[k].(nextAttemptAt := next)])
    case Withdraw(k, id) => if !Finds(db, k, id) then db else db.(alerts := db.alerts - {k})
    case ReadNotice(n, now) =>
      if n !in db.history then db
      else db.(history := db.history[n := db.history[n].(isRead := true, readAt := Some(now))])
    case DeleteNotice(n) => db.(history := db.history - {n})
    case OtherNotice(n, user) =>
      db.(history := db.history[n := Notice(user, false, None, Other)], used := db.used + {n})
  }

  const EMPTY := Db(map[], map[], map[], {})

  /** A run: the states it goes through, the first one empty. */
  ghost predicate IsRun(states: seq<Db>, events: seq<Event>) {
    && |states| == |events| + 1 && states[0] == EMPTY
    && forall i {:trigger events[i]} :: 0 <= i < |events| ==> Enabled(states[i], events[i]) && states[i + 1] == Step(states[i], events[i])
  }

  // ----------------------------------------------------------------- invariant

  ghost predicate OnlyDownHaveAlerts(db: Db) {
    forall k :: k in db.alerts ==> k.0 in db.connections && IsDown(db.connections[k.0])
  }

  ghost predicate IdsAreUnique(db: Db) {
    && (forall k :: k in db.alerts ==> db.alerts[k].id in db.used)
    && (forall j, k :: j in db.alerts && k in db.alerts && j != k ==> db.alerts[j].id != db.alerts[k].id)
    && db.history.Keys <= db.used
    && (forall k :: k in db.alerts && db.alerts[k].notificationCreatedAt.None? ==> db.alerts[k].id !in db.history)
  }

  ghost predicate IsRecoveryOf(db: Db, n: nat, id: nat) {
    n in db.history && db.history[n].origin.Reconnected? && db.history[n].origin.recoveredAlertId == id
  }

  /** Each alert gets at most one reconnected notice, and only after it is gone. */
  ghost predicate RecoveriesAreUnique(db: Db) {
    && (forall n, id :: IsRecoveryOf(db, n, id) ==> id in db.used)
    && (forall n, k :: k in db.alerts ==> !IsRecoveryOf(db, n, db.alerts[k].id))
    && (forall m, n, id :: IsRecoveryOf(db, m, id) && IsRecoveryOf(db, n, id) ==> m == n)
  }

  ghost predicate Inv(db: Db) {
    OnlyDownHaveAlerts(db) && IdsAreUnique(db) && RecoveriesAreUnique(db)
  }

  // ------------------------------------------------------ one update, per alert

  /** When an update raises a signal, and which. A recovery or archive raises none. */
  ghost predicate Raises(before: Connection, after: Connection, kind: Kind) {
    && after.archivedAt.None? && after.status != Connected
    && match kind
       case LoggedOut => after.loggedOutAt.Some? && before.loggedOutAt.None?
       case Disconnected => before.status == Connected && !(after.loggedOutAt.Some? && before.loggedOutAt.None?)
  }

  /** The alert of `(c, u)` is created by a signal that finds none. */
  ghost predicate Creates(db: Db, c: nat, u: nat, after: Connection, recipients: set<nat>, kind: Kind)
    requires c in db.connections
  {
    (c, u) !in db.alerts && u in recipients && Raises(db.connections[c], after, kind)
  }

  ghost predicate Escalates(db: Db, c: nat, u: nat, after: Connection, recipients: set<nat>)
    requires c in db.connections
  {
    && (c, u) in db.alerts && db.alerts[(c, u)].kind == Disconnected
    && u in recipients && Raises(db.connections[c], after, LoggedOut)
  }

  /**
   * What an update of connection `c` does to any alert: it removes the
   * connection's own on recovery or archive, creates one per recipient on a
   * signal, escalates a disconnected one on a logout, and leaves every other
   * alert untouched to its last field.
   */
  lemma AlertAfterUpdate(db: Db, c: nat, after: Connection, now: int, recipients: set<nat>, company: bool, mint: Mint,
                         key: (nat, nat))
    requires c in db.connections && FreshMint(db, mint, recipients)
    requires forall k :: k in db.alerts ==> db.alerts[k].id in db.used
    ensures var alerts := UpdateConnection(db, c, after, now, recipients, company, mint).alerts;
            var u := key.1;
            if key.0 != c then (key in alerts <==> key in db.alerts) && (key in alerts ==> alerts[key] == db.alerts[key])
            else if after.archivedAt.Some? || after.status == Connected then key !in alerts
            else if Escalates(db, c, u, after, recipients) then
              && key in alerts && mint[u] !in db.used
              && alerts[key] == Alert(mint[u], LoggedOut, now, now, 0, None, None, None)
            else if Creates(db, c, u, after, recipients, LoggedOut) then
              key in alerts && alerts[key] == Alert(mint[u], LoggedOut, now, now, 0, None, None, None)
            else if Creates(db, c, u, after, recipients, Disconnected) then
              key in alerts && alerts[key] == Alert(mint[u], Disconnected, now, now + 300000, 0, None, None, None)
            else (key in alerts <==> key in db.alerts) && (key in alerts ==> alerts[key] == db.alerts[key])
  {
    if key.1 in mint {
      assert mint[key.1] in mint.Values;
    }
  }

  // -------------------------------------------------------------- one recovery

  /** `n` is a new, unread notice for `u` that its alert on `c` recovered. */
  ghost predicate AnnouncesRecovery(db: Db, history: map<nat, Notice>, c: nat, u: nat, n: nat) {
    && (c, u) in db.alerts && n !in db.history && n in history
    && history[n] == Notice(u, false, None, Reconnected(c, db.alerts[(c, u)].id))
  }

  lemma SurfacedIdsAre(alerts: Alerts, c: nat, n: nat)
    ensures n in SurfacedIds(alerts, c) <==> exists u :: Surfaced(alerts, c, u) && alerts[(c, u)].id == n
  {
    if n in SurfacedIds(alerts, c) {
      var k :| k in alerts && k.0 == c && Surfaced(alerts, c, k.1) && alerts[k].id == n;
      assert k == (c, k.1);
    }
    forall u: nat | Surfaced(alerts, c, u) && alerts[(c, u)].id == n ensures n in SurfacedIds(alerts, c) {
      assert (c, u) in alerts && (c, u).0 == c && (c, u).1 == u;
    }
  }

  /** The reconnected notices are one per surfaced alert, under its minted id. */
  lemma ReconnectedNoticesAre(alerts: Alerts, c: nat, mint: Mint, n: nat)
    requires InjectiveMint(mint)
    ensures n in ReconnectedNotices(alerts, c, mint) <==> exists u :: u in mint && Surfaced(alerts, c, u) && mint[u] == n
    ensures forall u :: u in mint && Surfaced(alerts, c, u) && mint[u] == n ==>
              n in ReconnectedNotices(alerts, c, mint) &&
              ReconnectedNotices(alerts, c, mint)[n] == Notice(u, false, None, Reconnected(c, alerts[(c, u)].id))
  {}

  lemma MintedIsFresh(db: Db, mint: Mint, users: set<nat>, u: nat)
    requires FreshMint(db, mint, users) && u in mint
    ensures mint[u] !in db.used
  {
    assert mint[u] in mint.Values;
  }

  lemma ReconnectedIsFresh(db: Db, c: nat, mint: Mint, n: nat)
    requires FreshMint(db, mint, {}) && n in ReconnectedNotices(db.alerts, c, mint)
    ensures n !in db.used
  {
    var u :| u in mint && Surfaced(db.alerts, c, u) && mint[u] == n;
    MintedIsFresh(db, mint, {}, u);
  }

  /** One notice after a recovery: a reconnected one, one of the incident's, or unchanged. */
  lemma NoticeAfterRecovery(db: Db, c: nat, now: int, company: bool, mint: Mint, n: nat)
    requires FreshMint(db, mint, {}) && db.history.Keys <= db.used
    ensures var history := RecoveredHistory(db, c, now, company, mint);
            if n in db.history then
              && n in history
              && history[n] == (
                if exists u :: Surfaced(db.alerts, c, u) && db.alerts[(c, u)].id == n then
                  db.history[n].(isRead := true,
                    readAt := if db.history[n].readAt.Some? then db.history[n].readAt else Some(now))
                else db.history[n])
            else n in history <==> company && n in ReconnectedNotices(db.alerts, c, mint)
    ensures n !in db.history && n in RecoveredHistory(db, c, now, company, mint) ==>
              RecoveredHistory(db, c, now, company, mint)[n] == ReconnectedNotices(db.alerts, c, mint)[n]
  {
    SurfacedIdsAre(db.alerts, c, n);
    ReconnectedNoticesAre(db.alerts, c, mint, n);
    if n in ReconnectedNotices(db.alerts, c, mint) {
      ReconnectedIsFresh(db, c, mint, n);
    }
  }

  /**
   * A recovery adds exactly one reconnected notice per surfaced alert of the
   * connection: one under each alert's fresh id, and no other.
   */
  lemma OneNoticePerSurfacedAlert(db: Db, c: nat, after: Connection, now: int, recipients: set<nat>, mint: Mint, u: nat, n: nat)
    requires Inv(db) && c in db.connections && FreshMint(db, mint, recipients)
    requires forall k :: k in db.alerts && k.0 == c ==> k.1 in mint
    requires Recovers(db.connections[c], after)
    ensures var history := UpdateConnection(db, c, after, now, recipients, true, mint).history;
            && (Surfaced(db.alerts, c, u) ==>
                  u in mint && (AnnouncesRecovery(db, history, c, u, n) <==> n == mint[u]))
            && (n in history && n !in db.history ==>
                  exists v :: Surfaced(db.alerts, c, v) && AnnouncesRecovery(db, history, c, v, n))
  {
    NoticeAfterRecovery(db, c, now, true, mint, n);
    ReconnectedNoticesAre(db.alerts, c, mint, n);
    assert (c, u).0 == c && (c, u).1 == u;
    if Surfaced(db.alerts, c, u) {
      MintedIsFresh(db, mint, recipients, u);
    }
  }

  /**
   * A recovery marks as read exactly the notices that carry the id of a surfaced
   * alert of the connection, keeps an earlier reading time, and changes no other.
   */
  lemma RecoveryReadsOwnNotices(db: Db, c: nat, after: Connection, now: int, recipients: set<nat>, company: bool, mint: Mint, n: nat)
    requires Inv(db) && c in db.connections && FreshMint(db, mint, recipients)
    requires Recovers(db.connections[c], after) && n in db.history
    ensures var history := UpdateConnection(db, c, after, now, recipients, company, mint).history;
            n in history &&
            if exists u :: Surfaced(db.alerts, c, u) && db.alerts[(c, u)].id == n then
              history[n] == db.history[n].(isRead := true,
                readAt := if db.history[n].readAt.Some? then db.history[n].readAt else Some(now))
            else history[n] == db.history[n]
  {
    NoticeAfterRecovery(db, c, now, company, mint, n);
  }

  /**
   * Only a recovery touches the history: an archive, a disconnect, a logout or
   * any other update leaves every notice as it was and adds none.
   */
  lemma OnlyRecoveryTouchesHistory(db: Db, c: nat, after: Connection, now: int, recipients: set<nat>, company: bool, mint: Mint)
    requires c in db.connections && FreshMint(db, mint, recipients)
    requires !(after.archivedAt.None? && after.status == Connected && db.connections[c].status != Connected)
    ensures UpdateConnection(db, c, after, now, recipients, company, mint).history == db.history
  {}

  /** A schema without its company row gets no notice at all. */
  lemma NoCompanyNoNotice(db: Db, c: nat, after: Connection, now: int, recipients: set<nat>, mint: Mint)
    requires c in db.connections && FreshMint(db, mint, recipients)
    ensures UpdateConnection(db, c, after, now, recipients, false, mint).history.Keys == db.history.Keys
  {}

  lemma UpdateSetsRow(db: Db, c: nat, after: Connection, now: int, recipients: set<nat>, company: bool, mint: Mint, d: nat)
    requires c in db.connections && FreshMint(db, mint, recipients) && d in db.connections
    ensures var connections := UpdateConnection(db, c, after, now, recipients, company, mint).connections;
            d in connections && connections[d] == if d == c then after else db.connections[d]
  {}

  /** An incident that heals before any of its alerts surfaced leaves the history as it was. */
  lemma QuietRecovery(db: Db, c: nat, after: Connection, now: int, recipients: set<nat>, company: bool, mint: Mint)
    requires Inv(db) && c in db.connections && FreshMint(db, mint, recipients)
    requires forall u :: !Surfaced(db.alerts, c, u)
    ensures UpdateConnection(db, c, after, now, recipients, company, mint).history == db.history
  {
    if !IsDown(after) && Recovers(db.connections[c], after) {
      var history := RecoveredHistory(db, c, now, company, mint);
      forall n ensures n in history <==> n in db.history {
        NoticeAfterRecovery(db, c, now, company, mint, n);
        ReconnectedNoticesAre(db.alerts, c, mint, n);
      }
      forall n | n in db.history ensures history[n] == db.history[n] {
        NoticeAfterRecovery(db, c, now, company, mint, n);
      }
    }
  }

  // ------------------------------------------------------------------ invariant

  lemma UpdateKeepsOnlyDown(db: Db, c: nat, after: Connection, now: int, recipients: set<nat>, company: bool, mint: Mint)
    requires OnlyDownHaveAlerts(db) && c in db.connections && FreshMint(db, mint, recipients)
    ensures OnlyDownHaveAlerts(UpdateConnection(db, c, after, now, recipients, company, mint))
  {}

  /** An alert after an update is an old one or carries a fresh id. */
  lemma UpdatedAlertIds(db: Db, c: nat, after: Connection, now: int, recipients: set<nat>, company: bool, mint: Mint, k: (nat, nat))
    requires IdsAreUnique(db) && c in db.connections && FreshMint(db, mint, recipients)
    requires k in UpdateConnection(db, c, after, now, recipients, company, mint).alerts
    ensures var a := UpdateConnection(db, c, after, now, recipients, company, mint).alerts[k];
            || (k in db.alerts && a == db.alerts[k])
            || (k.0 == c && k.1 in mint && a.id == mint[k.1] && a.id !in db.used && a.notificationCreatedAt.None?)
  {
    if k.1 in mint {
      assert mint[k.1] in mint.Values;
    }
  }

  /** A notice after an update is an old one, perhaps read now, or a fresh reconnected one. */
  lemma UpdatedNotices(db: Db, c: nat, after: Connection, now: int, recipients: set<nat>, company: bool, mint: Mint, n: nat)
    requires c in db.connections && FreshMint(db, mint, recipients) && db.history.Keys <= db.used
    requires n in UpdateConnection(db, c, after, now, recipients, company, mint).history
    ensures var notice := UpdateConnection(db, c, after, now, recipients, company, mint).history[n];
            || (n in db.history && notice.origin == db.history[n].origin && (db.history[n].isRead ==> notice.isRead))
            || (n !in db.used && n in mint.Values && !IsDown(after) &&
                exists u :: u in mint && mint[u] == n && Surfaced(db.alerts, c, u) &&
                  notice.origin == Reconnected(c, db.alerts[(c, u)].id))
  {
    if !IsDown(after) && Recovers(db.connections[c], after) {
      NoticeAfterRecovery(db, c, now, company, mint, n);
      ReconnectedNoticesAre(db.alerts, c, mint, n);
      if n !in db.history {
        var u :| u in mint && Surfaced(db.alerts, c, u) && mint[u] == n;
        MintedIsFresh(db, mint, recipients, u);
      }
    }
  }

  lemma UpdateKeepsIds(db: Db, c: nat, after: Connection, now: int, recipients: set<nat>, company: bool, mint: Mint)
    requires IdsAreUnique(db) && c in db.connections && FreshMint(db, mint, recipients)
    ensures IdsAreUnique(UpdateConnection(db, c, after, now, recipients, company, mint))
  {
    var next := UpdateConnection(db, c, after, now, recipients, company, mint);
    forall k | k in next.alerts ensures next.alerts[k].id in next.used {
      UpdatedAlertIds(db, c, after, now, recipients, company, mint, k);
    }
    forall j, k | j in next.alerts && k in next.alerts && j != k ensures next.alerts[j].id != next.alerts[k].id {
      UpdatedAlertIds(db, c, after, now, recipients, company, mint, j);
      UpdatedAlertIds(db, c, after, now, recipients, company, mint, k);
    }
    forall n | n in next.history ensures n in next.used {
      UpdatedNotices(db, c, after, now, recipients, company, mint, n);
    }
    forall k | k in next.alerts && next.alerts[k].notificationCreatedAt.None? ensures next.alerts[k].id !in next.history {
      UpdatedAlertIds(db, c, after, now, recipients, company, mint, k);
      if next.alerts[k].id in next.history {
        UpdatedNotices(db, c, after, now, recipients, company, mint, next.alerts[k].id);
      }
    }
  }

  lemma UpdateKeepsRecoveries(db: Db, c: nat, after: Connection, now: int, recipients: set<nat>, company: bool, mint: Mint)
    requires Inv(db) && c in db.connections && FreshMint(db, mint, recipients)
    ensures RecoveriesAreUnique(UpdateConnection(db, c, after, now, recipients, company, mint))
  {
    var next := UpdateConnection(db, c, after, now, recipients, company, mint);
    forall n, id | IsRecoveryOf(next, n, id)
      ensures IsRecoveryOf(db, n, id) ||
              (!IsDown(after) && exists u :: u in mint && mint[u] == n && Surfaced(db.alerts, c, u) && id == db.alerts[(c, u)].id)
    {
      UpdatedNotices(db, c, after, now, recipients, company, mint, n);
    }
    forall n, k | k in next.alerts ensures !IsRecoveryOf(next, n, next.alerts[k].id) {
      UpdatedAlertIds(db, c, after, now, recipients, company, mint, k);
    }
  }

  lemma StepKeepsInv(db: Db, e: Event)
    requires Inv(db) && Enabled(db, e)
    ensures Inv(Step(db, e))
  {
    match e
    case UpdateRow(c, row, now, recipients, company, mint) =>
      UpdateKeepsOnlyDown(db, c, row, now, recipients, company, mint);
      UpdateKeepsIds(db, c, row, now, recipients, company, mint);
      UpdateKeepsRecoveries(db, c, row, now, recipients, company, mint);
    case Surface(k, id, now) => SurfaceKeepsInv(db, k, id, now);
    case Claim(k, id, _) => if Finds(db, k, id) { SameIdKeepsInv(db, k, Step(db, e).alerts[k]); }
    case MarkSent(k, id, _, _) => if Finds(db, k, id) { SameIdKeepsInv(db, k, Step(db, e).alerts[k]); }
    case Retry(k, id, _) => if Finds(db, k, id) { SameIdKeepsInv(db, k, Step(db, e).alerts[k]); }
    case Withdraw(k, _) => RemovalKeepsInv(db, k);
    case InsertRow(_, _) =>
      assert forall n, i :: IsRecoveryOf(Step(db, e), n, i) <==> IsRecoveryOf(db, n, i);
    case _ => HistoryKeepsInv(db, e);
  }

  lemma SurfaceKeepsInv(db: Db, k: (nat, nat), id: nat, now: int)
    requires Inv(db)
    ensures Inv(Step(db, Surface(k, id, now)))
  {
    var next := Step(db, Surface(k, id, now));
    assert forall n, i :: IsRecoveryOf(next, n, i) <==> IsRecoveryOf(db, n, i);
  }

  lemma SameIdKeepsInv(db: Db, k: (nat, nat), a: Alert)
    requires Inv(db) && k in db.alerts
    requires a.id == db.alerts[k].id && a.notificationCreatedAt == db.alerts[k].notificationCreatedAt
    ensures Inv(db.(alerts := db.alerts[k := a]))
  {
    var next := db.(alerts := db.alerts[k := a]);
    assert forall n, i :: IsRecoveryOf(next, n, i) <==> IsRecoveryOf(db, n, i);
    assert forall j :: j in next.alerts <==> j in db.alerts;
    assert forall j :: j in next.alerts ==> next.alerts[j].id == db.alerts[j].id;
  }

  lemma RemovalKeepsInv(db: Db, k: (nat, nat))
    requires Inv(db)
    ensures Inv(db.(alerts := db.alerts - {k}))
  {
    assert forall n, i :: IsRecoveryOf(db.(alerts := db.alerts - {k}), n, i) <==> IsRecoveryOf(db, n, i);
  }

  lemma HistoryKeepsInv(db: Db, e: Event)
    requires Inv(db) && Enabled(db, e) && (e.ReadNotice? || e.DeleteNotice? || e.OtherNotice?)
    ensures Inv(Step(db, e))
  {
    assert forall n, i :: IsRecoveryOf(Step(db, e), n, i) ==> IsRecoveryOf(db, n, i);
  }

  /**
   * In every reachable state only connections that are down have alerts, no id
   * is used twice, and no alert has more than one reconnected notice.
   */
  lemma {:induction false} ReachableInv(states: seq<Db>, events: seq<Event>, i: nat)
    requires IsRun(states, events) && i < |states|
    ensures Inv(states[i])
  {
    if i > 0 {
      ReachableInv(states, events, i - 1);
      assert Enabled(states[i - 1], events[i - 1]);
      StepKeepsInv(states[i - 1], events[i - 1]);
    }
  }

  // ------------------------------------------------------------- one incident

  /** From one alert to a later one of the same incident. */
  ghost predicate SameIncident(before: Alert, after: Alert) {
    || (after.id == before.id && after.kind == before.kind && after.occurredAt == before.occurredAt)
    || (after.id != before.id && before.kind == Disconnected && after.kind == LoggedOut)
  }

  lemma IncidentStep(db: Db, e: Event, key: (nat, nat))
    requires Inv(db) && Enabled(db, e) && key in db.alerts && key in Step(db, e).alerts
    ensures SameIncident(db.alerts[key], Step(db, e).alerts[key])
    ensures Step(db, e).alerts[key].id != db.alerts[key].id ==> Step(db, e).alerts[key].id !in db.used
    ensures db.used <= Step(db, e).used
  {
    if e.UpdateRow? {
      AlertAfterUpdate(db, e.c, e.row, e.now, e.recipients, e.company, e.mint, key);
    }
  }

  /**
   * While an alert lives, its kind moves only from disconnected to logged out,
   * at most once, and its id and time change only then, the id to a fresh one.
   */
  lemma {:induction false} KindMovesOnce(states: seq<Db>, events: seq<Event>, key: (nat, nat), i: nat, j: nat)
    requires IsRun(states, events) && i <= j < |states|
    requires forall m :: i <= m <= j ==> key in states[m].alerts
    ensures SameIncident(states[i].alerts[key], states[j].alerts[key])
    ensures states[j].alerts[key].id != states[i].alerts[key].id ==> states[j].alerts[key].id !in states[i].used
    ensures states[i].used <= states[j].used
    decreases j
  {
    if i < j {
      KindMovesOnce(states, events, key, i, j - 1);
      ReachableInv(states, events, j - 1);
      assert Enabled(states[j - 1], events[j - 1]);
      IncidentStep(states[j - 1], events[j - 1], key);
    }
  }

  // -------------------------------------------- what a recovery leaves unread

  ghost predicate HeldBy(db: Db, c: nat, u: nat, n: nat) {
    Surfaced(db.alerts, c, u) && db.alerts[(c, u)].id == n
  }

  /** `n` is the notice of an alert of `c` that is still there. */
  ghost predicate Held(db: Db, c: nat, n: nat) {
    exists u :: HeldBy(db, c, u, n)
  }

  /** The step takes the alert of notice `n` away without closing it: by withdrawal, archive or escalation. */
  ghost predicate TakesAway(db: Db, e: Event, c: nat, u: nat, n: nat)
    requires Enabled(db, e)
  {
    && HeldBy(db, c, u, n)
    && match e
       case Withdraw(k, id) => k == (c, u) && id == n
       case UpdateRow(d, row, _, recipients, _, _) =>
         d == c && (row.archivedAt.Some? || Escalates(db, c, u, row, recipients))
       case _ => false
  }

  ghost predicate Orphans(db: Db, e: Event, c: nat, n: nat)
    requires Enabled(db, e)
  {
    exists u :: TakesAway(db, e, c, u, n)
  }

  ghost predicate IsIncident(db: Db, c: nat, n: nat) {
    n in db.history && db.history[n].origin.Incident? && db.history[n].origin.connection == c
  }

  ghost predicate Gone(db: Db, n: nat) {
    n in db.used && forall k :: k in db.alerts ==> db.alerts[k].id != n
  }

  /** Each alert after a step is an old one, by its id, or carries a fresh id. */
  lemma StepAlertIds(db: Db, e: Event, k: (nat, nat))
    requires Inv(db) && Enabled(db, e) && k in Step(db, e).alerts
    ensures (k in db.alerts && Step(db, e).alerts[k].id == db.alerts[k].id) || Step(db, e).alerts[k].id !in db.used
    ensures db.used <= Step(db, e).used
  {
    if e.UpdateRow? {
      UpdatedAlertIds(db, e.c, e.row, e.now, e.recipients, e.company, e.mint, k);
    }
  }

  lemma GoneStaysGone(db: Db, e: Event, n: nat)
    requires Inv(db) && Enabled(db, e) && Gone(db, n)
    ensures Gone(Step(db, e), n)
  {
    assert db.used <= Step(db, e).used;
    forall k | k in Step(db, e).alerts ensures Step(db, e).alerts[k].id != n {
      StepAlertIds(db, e, k);
    }
  }

  lemma OrphanedIsGone(db: Db, e: Event, c: nat, n: nat)
    requires Inv(db) && Enabled(db, e) && Orphans(db, e, c, n)
    ensures Gone(Step(db, e), n)
  {
    var u: nat :| TakesAway(db, e, c, u, n);
    assert n in db.used && db.used <= Step(db, e).used;
    forall k | k in Step(db, e).alerts ensures Step(db, e).alerts[k].id != n {
      StepAlertIds(db, e, k);
      if k == (c, u) && e.UpdateRow? {
        AlertAfterUpdate(db, c, e.row, e.now, e.recipients, e.company, e.mint, k);
      }
    }
  }

  lemma {:induction false} OrphanedStaysGone(states: seq<Db>, events: seq<Event>, i: nat, m: nat, c: nat, n: nat)
    requires IsRun(states, events) && i < m < |states| && Enabled(states[i], events[i])
    requires Orphans(states[i], events[i], c, n)
    ensures Gone(states[m], n)
    decreases m
  {
    ReachableInv(states, events, m - 1);
    assert Enabled(states[m - 1], events[m - 1]);
    if i == m - 1 {
      OrphanedIsGone(states[i], events[i], c, n);
    } else {
      OrphanedStaysGone(states, events, i, m - 1, c, n);
      GoneStaysGone(states[m - 1], events[m - 1], n);
    }
  }

  /** An incident's notice keeps its origin and stays read, and is born with its alert there. */
  lemma StepNotice(db: Db, e: Event, c: nat, n: nat)
    requires Inv(db) && Enabled(db, e) && IsIncident(Step(db, e), c, n)
    ensures n !in db.history ==> Held(Step(db, e), c, n)
    ensures n in db.history ==> IsIncident(db, c, n) && (db.history[n].isRead ==> Step(db, e).history[n].isRead)
  {
    hide UpdateConnection;
    if e.UpdateRow? {
      UpdatedNotices(db, e.c, e.row, e.now, e.recipients, e.company, e.mint, n);
    } else if e.Surface? {
      SurfacedNotice(db, e, c, n);
    }
  }

  lemma SurfacedNotice(db: Db, e: Event, c: nat, n: nat)
    requires e.Surface? && IsIncident(Step(db, e), c, n)
    ensures n !in db.history ==> Held(Step(db, e), c, n)
    ensures n in db.history ==> Step(db, e).history[n] == db.history[n]
  {
    if n !in db.history {
      assert e.key == (c, e.key.1) && HeldBy(Step(db, e), c, e.key.1, n);
    }
  }

  /** A notice whose alert is there keeps it, is read, or is orphaned. */
  lemma HeldStep(db: Db, e: Event, c: nat, n: nat)
    requires Inv(db) && Enabled(db, e) && IsIncident(db, c, n) && IsIncident(Step(db, e), c, n) && Held(db, c, n)
    ensures Held(Step(db, e), c, n) || Step(db, e).history[n].isRead || Orphans(db, e, c, n)
  {
    var u: nat :| HeldBy(db, c, u, n);
    var next := Step(db, e);
    match e
    case UpdateRow(d, row, now, recipients, company, mint) =>
      assert IsDown(db.connections[c]);
      AlertAfterUpdate(db, d, row, now, recipients, company, mint, (c, u));
      assert TakesAway(db, e, c, u, n) ==> Orphans(db, e, c, n);
      if d == c && Recovers(db.connections[c], row) {
        assert Surfaced(db.alerts, c, u) && db.alerts[(c, u)].id == n;
        RecoveryReadsOwnNotices(db, c, row, now, recipients, company, mint, n);
      } else if (c, u) in next.alerts && next.alerts[(c, u)] == db.alerts[(c, u)] {
        assert HeldBy(next, c, u, n);
      }
    case Withdraw(k, id) =>
      if k == (c, u) && id == n {
        assert TakesAway(db, e, c, u, n);
      } else {
        assert HeldBy(next, c, u, n);
      }
    case _ => assert HeldBy(next, c, u, n);
  }

  lemma {:induction false} NoticeTraced(states: seq<Db>, events: seq<Event>, m: nat, c: nat, n: nat)
    requires IsRun(states, events) && m < |states| && IsIncident(states[m], c, n)
    ensures Held(states[m], c, n) || states[m].history[n].isRead || OrphanedBefore(states, events, m, c, n)
  {
    if m > 0 {
      var db, e := states[m - 1], events[m - 1];
      ReachableInv(states, events, m - 1);
      assert Enabled(db, e);
      StepNotice(db, e, c, n);
      if n in db.history {
        NoticeTraced(states, events, m - 1, c, n);
        if Held(db, c, n) {
          HeldStep(db, e, c, n);
        }
      }
    }
  }

  /** Some step before `m` took the alert of `n` away without closing it. */
  ghost predicate OrphanedBefore(states: seq<Db>, events: seq<Event>, m: nat, c: nat, n: nat)
    requires IsRun(states, events) && m < |states|
  {
    exists i :: 0 <= i < m && Enabled(states[i], events[i]) && Orphans(states[i], events[i], c, n)
  }

  /**
   * When a connection recovers, the notices of its incidents that are left
   * unread are exactly those whose alert was withdrawn, archived with the
   * connection, or given a new id by an escalation, before it.
   */
  lemma LeftUnreadIff(states: seq<Db>, events: seq<Event>, m: nat, c: nat, n: nat)
    requires IsRun(states, events) && m < |events|
    requires events[m].UpdateRow? && events[m].c == c && c in states[m].connections
    requires Recovers(states[m].connections[c], events[m].row)
    requires IsIncident(states[m], c, n) && !states[m].history[n].isRead
    ensures n in states[m + 1].history
    ensures !states[m + 1].history[n].isRead <==> OrphanedBefore(states, events, m, c, n)
  {
    var db, e := states[m], events[m];
    ReachableInv(states, events, m);
    assert Enabled(db, e);
    RecoveryReadsOwnNotices(db, c, e.row, e.now, e.recipients, e.company, e.mint, n);
    NoticeTraced(states, events, m, c, n);
    if OrphanedBefore(states, events, m, c, n) {
      var i :| 0 <= i < m && Enabled(states[i], events[i]) && Orphans(states[i], events[i], c, n);
      OrphanedStaysGone(states, events, i, m, c, n);
    } else {
      var u: nat :| HeldBy(db, c, u, n);
      assert Surfaced(db.alerts, c, u) && db.alerts[(c, u)].id == n;
    }
  }
}
