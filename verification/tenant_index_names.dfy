/**
 * The tenant index reconciler: bring the index names of one tenant schema to
 * their canonical form by renaming, adopting, creating or dropping duplicates.
 *
 * The catalog maps the index names of the schema to what they index. PostgreSQL
 * truncates names at 63 bytes, so historical names can coincide.
 */
module TenantIndexNames {
  import opened Wrappers

  const PG_IDENTIFIER_MAX_BYTES := 63
  const TENANT_SCHEMA_NAME_LENGTH := 43

  datatype Table =
    | BulkJobs | CatalogProducts | Contacts | ConversationStates | Messages | NatsOutbox | PushSubscriptions
    | ScheduledMessages | WhatsappConnectionSessions | WhatsappCatalogs | WhatsappConnections | WhatsappLabels
    | OtherTable(name: string)

  datatype Column =
    | IdempotencyKey | Status | ScheduledAt | ConnectionId | CatalogId | ProductId | Jid | ResolvedAt | ContactId
    | Timestamp | RowId | MediaDownloadStatus | CreatedAt | MessageId | NextAttemptAt | UserId | BulkJobId
    | PhoneNumber | LabelId | SyncedTagId | OtherColumn(name: string)

  /** What an index covers; its name is the catalog's key. */
  datatype Index = Index(table: Table, columns: seq<Column>, unique: bool)

  datatype Target = Target(suffix: string, legacySuffix: string, shape: Index)

  type Catalog = map<string, Index>

  /** The columns of the tables that exist, and the targets whose rows already conflict. */
  datatype Data = Data(columns: map<Table, set<Column>>, conflicts: set<string>)

  function Truncate(name: string): string {
    if |name| > PG_IDENTIFIER_MAX_BYTES then name[..PG_IDENTIFIER_MAX_BYTES] else name
  }

  function TargetIdentifier(schema: string, t: Target): string {
    schema + t.suffix
  }

  function LegacyIdentifier(schema: string, t: Target): string {
    Truncate(schema + t.legacySuffix)
  }

  predicate MatchesTarget(existing: Index, t: Target) {
    existing.unique == t.shape.unique && existing.columns == t.shape.columns
  }

  predicate Present(data: Data, t: Target) {
    t.shape.table in data.columns && forall c :: c in t.shape.columns ==> c in data.columns[t.shape.table]
  }

  // ------------------------------------------------------------- the decision

  datatype Action =
    | Skip
    | AlreadyCorrect(redundant: Option<string>)
    | Rename(from: string, to: string)
    | Create(name: string)
    | Blocked

  /** `existing.find(...)` over indexes listed in some order. */
  function FindMatch(cat: Catalog, rows: seq<string>, t: Target): (found: Option<string>)
    requires forall n :: n in rows ==> n in cat
  {
    if rows == [] then None
    else if MatchesTarget(cat[rows[0]], t) then Some(rows[0])
    else FindMatch(cat, rows[1..], t)
  }

  /** The plan for one target, given the indexes of its table in the order they were read. */
  function Plan(schema: string, data: Data, cat: Catalog, t: Target, rows: seq<string>): Action
    requires forall n :: n in rows ==> n in cat
  {
    if !Present(data, t) then Skip
    else
      var desired, legacy := TargetIdentifier(schema, t), LegacyIdentifier(schema, t);
      if desired in rows then
        if legacy in rows && legacy != desired && MatchesTarget(cat[legacy], t) then AlreadyCorrect(Some(legacy))
        else AlreadyCorrect(None)
      else if legacy in rows && MatchesTarget(cat[legacy], t) then Rename(legacy, desired)
      else if FindMatch(cat, rows, t).Some? then Rename(FindMatch(cat, rows, t).value, desired)
      else if t.shape.unique && t.suffix in data.conflicts then Blocked
      else Create(desired)
  }

  /** The indexes of one table, each once, in any order. */
  ghost predicate IsListing(cat: Catalog, table: Table, rows: seq<string>) {
    && (forall n :: n in rows <==> n in cat && cat[n].table == table)
    && (forall i, j :: 0 <= i < j < |rows| ==> rows[i] != rows[j])
  }

  // ------------------------------------------------------- order-free reading

  datatype Kind = Skipped | Correct | Redundant | Renames | Creates | Blocks

  ghost predicate HasShape(cat: Catalog, shape: Index) {
    exists n :: n in cat && cat[n] == shape
  }

  /** What the plan amounts to, whatever order the indexes are read in. */
  ghost function KindOf(schema: string, data: Data, cat: Catalog, t: Target): Kind {
    var desired, legacy := TargetIdentifier(schema, t), LegacyIdentifier(schema, t);
    if !Present(data, t) then Skipped
    else if desired in cat && cat[desired].table == t.shape.table then
      if legacy != desired && legacy in cat && cat[legacy] == t.shape then Redundant else Correct
    else if HasShape(cat, t.shape) then Renames
    else if t.shape.unique && t.suffix in data.conflicts then Blocks
    else Creates
  }

  function KindOfAction(a: Action): Kind {
    match a
    case Skip => Skipped
    case AlreadyCorrect(r) => if r.Some? then Redundant else Correct
    case Rename(_, _) => Renames
    case Create(_) => Creates
    case Blocked => Blocks
  }

  lemma {:induction false} FindMatchFinds(cat: Catalog, rows: seq<string>, t: Target)
    requires forall n :: n in rows ==> n in cat
    ensures var f := FindMatch(cat, rows, t);
            if f.Some? then f.value in rows && MatchesTarget(cat[f.value], t)
            else forall n :: n in rows ==> !MatchesTarget(cat[n], t)
  {
    if rows != [] && !MatchesTarget(cat[rows[0]], t) {
      FindMatchFinds(cat, rows[1..], t);
      assert rows == [rows[0]] + rows[1..];
    }
  }

  /** The kind of plan never depends on the order; only which index is adopted may. */
  lemma PlanHasKind(schema: string, data: Data, cat: Catalog, t: Target, rows: seq<string>)
    requires IsListing(cat, t.shape.table, rows)
    ensures var a := Plan(schema, data, cat, t, rows);
            && KindOfAction(a) == KindOf(schema, data, cat, t)
            && (a.Rename? ==>
                  && a.to == TargetIdentifier(schema, t) && a.from in cat && cat[a.from] == t.shape
                  && (LegacyIdentifier(schema, t) in cat && cat[LegacyIdentifier(schema, t)] == t.shape ==>
                        a.from == LegacyIdentifier(schema, t)))
            && (a.Create? ==> a.name == TargetIdentifier(schema, t))
            && (a.AlreadyCorrect? && a.redundant.Some? ==> a.redundant.value == LegacyIdentifier(schema, t))
  {
    FindMatchFinds(cat, rows, t);
    var f := FindMatch(cat, rows, t);
    if f.Some? {
      assert cat[f.value] == t.shape;
    } else {
      forall n | n in cat ensures cat[n] != t.shape {
        assert cat[n] == t.shape ==> n in rows;
      }
    }
  }

  /** The canonical name is taken by an index of the target's table. */
  ghost predicate Taken(schema: string, cat: Catalog, t: Target) {
    schema + t.suffix in cat && cat[schema + t.suffix].table == t.shape.table
  }

  /** The name PostgreSQL gave the historical index, where that index has the target's shape. */
  ghost predicate HistoricalHolds(schema: string, cat: Catalog, t: Target) {
    exists n :: n in cat && cat[n] == t.shape && n <= schema + t.legacySuffix &&
      (|n| == 63 || (|n| < 63 && n == schema + t.legacySuffix))
  }

  lemma HistoricalIs(schema: string, cat: Catalog, t: Target)
    ensures HistoricalHolds(schema, cat, t) <==>
            LegacyIdentifier(schema, t) in cat && cat[LegacyIdentifier(schema, t)] == t.shape
  {
    var long, legacy := schema + t.legacySuffix, LegacyIdentifier(schema, t);
    assert legacy <= long && (|legacy| == 63 || (|legacy| < 63 && legacy == long));
    forall n | n <= long && (|n| == 63 || (|n| < 63 && n == long)) ensures n == legacy {
      assert n == long[..|n|];
    }
  }

  /** When a target is skipped: its table is not there, or one of its columns is not. */
  lemma SkippedIff(schema: string, data: Data, cat: Catalog, t: Target)
    ensures KindOf(schema, data, cat, t) == Skipped <==>
            t.shape.table !in data.columns || exists c :: c in t.shape.columns && c !in data.columns[t.shape.table]
  {}

  /** What each other kind of plan says of the catalog and the data. */
  lemma KindMeans(schema: string, data: Data, cat: Catalog, t: Target)
    requires t.shape.table in data.columns && forall c :: c in t.shape.columns ==> c in data.columns[t.shape.table]
    ensures KindOf(schema, data, cat, t) == Redundant <==>
            && Taken(schema, cat, t) && HistoricalHolds(schema, cat, t)
            && LegacyIdentifier(schema, t) != TargetIdentifier(schema, t)
    ensures KindOf(schema, data, cat, t) in {Correct, Redundant} <==> Taken(schema, cat, t)
    ensures KindOf(schema, data, cat, t) == Renames <==> !Taken(schema, cat, t) && exists n :: n in cat && cat[n] == t.shape
    ensures KindOf(schema, data, cat, t) == Blocks <==>
            && !Taken(schema, cat, t) && (forall n :: n in cat ==> cat[n] != t.shape)
            && t.shape.unique && t.suffix in data.conflicts
    ensures KindOf(schema, data, cat, t) == Creates <==>
            && !Taken(schema, cat, t) && (forall n :: n in cat ==> cat[n] != t.shape)
            && !(t.shape.unique && t.suffix in data.conflicts)
  {
    HistoricalIs(schema, cat, t);
  }

  // --------------------------------------------------------------- the effect

  /** Carrying out an action; the statement fails when the wanted name is taken. */
  function Apply(cat: Catalog, t: Target, a: Action): Result<Catalog, string> {
    match a
    case AlreadyCorrect(Some(redundant)) => Ok(cat - {redundant})
    case Rename(from, to) =>
      if from !in cat || to in cat then Err("relation already exists")
      else Ok((cat - {from})[to := cat[from]])
    case Create(name) => if name in cat then Err("relation already exists") else Ok(cat[name := t.shape])
    case _ => Ok(cat)
  }

  /** Some order of reading the indexes leads from `cat` to `next`. */
  ghost predicate Acts(schema: string, data: Data, cat: Catalog, t: Target, next: Catalog) {
    exists rows :: IsListing(cat, t.shape.table, rows) && Apply(cat, t, Plan(schema, data, cat, t, rows)) == Ok(next)
  }

  /** A canonical name, where present, is on its target's table with its target's columns and uniqueness. */
  ghost predicate WellFormed(schema: string, targets: seq<Target>, cat: Catalog) {
    forall t :: t in targets && TargetIdentifier(schema, t) in cat ==> cat[TargetIdentifier(schema, t)] == t.shape
  }

  /** Targets differ in name and in what they index. */
  ghost predicate Separate(targets: seq<Target>) {
    forall i, j :: 0 <= i < j < |targets| ==>
      && targets[i].suffix != targets[j].suffix
      && targets[i].legacySuffix != targets[j].legacySuffix
      && targets[i].shape != targets[j].shape
  }

  lemma SuffixDecides(schema: string, t: Target, u: Target)
    requires t.suffix != u.suffix
    ensures TargetIdentifier(schema, t) != TargetIdentifier(schema, u)
  {
    assert TargetIdentifier(schema, t)[|schema|..] == t.suffix;
    assert TargetIdentifier(schema, u)[|schema|..] == u.suffix;
  }

  /** The canonical name, if taken, is taken by an index of the target's table. */
  ghost predicate OnTable(schema: string, cat: Catalog, t: Target) {
    TargetIdentifier(schema, t) in cat ==> cat[TargetIdentifier(schema, t)].table == t.shape.table
  }

  /** Over any catalog, a planned statement fails exactly when it needs the canonical name and another table has it. */
  lemma StepFailsIff(schema: string, data: Data, cat: Catalog, t: Target, rows: seq<string>)
    requires IsListing(cat, t.shape.table, rows)
    ensures Apply(cat, t, Plan(schema, data, cat, t, rows)).Err? <==>
            !OnTable(schema, cat, t) && KindOf(schema, data, cat, t) in {Renames, Creates}
  {
    PlanHasKind(schema, data, cat, t, rows);
  }

  /** Over any catalog, acting on a target adds no name but its own and removes none but indexes of its shape. */
  lemma ActsTouchesOwnShape(schema: string, data: Data, cat: Catalog, t: Target, next: Catalog)
    requires Acts(schema, data, cat, t, next)
    ensures forall n :: n in next ==>
              if n in cat then next[n] == cat[n] else n == TargetIdentifier(schema, t) && next[n] == t.shape
    ensures forall n :: n in cat && n !in next ==> cat[n] == t.shape
    ensures (TargetIdentifier(schema, t) in cat ==> cat[TargetIdentifier(schema, t)] == t.shape) && HasShape(cat, t.shape) ==>
              HasShape(next, t.shape)
  {
    var rows :| IsListing(cat, t.shape.table, rows) && Apply(cat, t, Plan(schema, data, cat, t, rows)) == Ok(next);
    PlanHasKind(schema, data, cat, t, rows);
    var desired := TargetIdentifier(schema, t);
    if desired in next && next[desired] == t.shape {
      assert HasShape(next, t.shape);
    }
  }

  /** Acting on a target keeps the catalog well formed and every shape in it. */
  lemma ActsKeepsCatalog(schema: string, data: Data, targets: seq<Target>, cat: Catalog, t: Target, next: Catalog)
    requires Separate(targets) && WellFormed(schema, targets, cat) && t in targets && Acts(schema, data, cat, t, next)
    ensures WellFormed(schema, targets, next)
    ensures forall shape :: HasShape(cat, shape) ==> HasShape(next, shape)
    ensures KindOf(schema, data, cat, t).Blocks? ==> next == cat
  {
    ActsTouchesOwnShape(schema, data, cat, t, next);
    forall u | u in targets && TargetIdentifier(schema, u) in next ensures next[TargetIdentifier(schema, u)] == u.shape {
      if u != t {
        DifferentTargets(targets, t, u);
        SuffixDecides(schema, t, u);
      }
    }
    forall shape | HasShape(cat, shape) ensures HasShape(next, shape) {
      var n :| n in cat && cat[n] == shape;
      assert shape != t.shape ==> n in next && next[n] == shape;
    }
    var rows :| IsListing(cat, t.shape.table, rows) && Apply(cat, t, Plan(schema, data, cat, t, rows)) == Ok(next);
    PlanHasKind(schema, data, cat, t, rows);
  }

  lemma DifferentTargets(targets: seq<Target>, t: Target, u: Target)
    requires Separate(targets) && t in targets && u in targets && t != u
    ensures t.suffix != u.suffix && t.legacySuffix != u.legacySuffix && t.shape != u.shape
  {
    var i :| 0 <= i < |targets| && targets[i] == t;
    var j :| 0 <= j < |targets| && targets[j] == u;
    assert i < j || j < i;
  }

  /**
   * The key: acting on one target never changes the plan of another, neither its
   * kind nor the indexes it may rename.
   */
  lemma PlanOfOthersIsUnchanged(schema: string, data: Data, targets: seq<Target>, cat: Catalog, t: Target, next: Catalog,
                                other: Data, u: Target)
    requires Separate(targets) && WellFormed(schema, targets, cat)
    requires t in targets && u in targets && t != u && Acts(schema, data, cat, t, next)
    ensures KindOf(schema, other, next, u) == KindOf(schema, other, cat, u)
    ensures forall n :: n in cat && cat[n] == u.shape <==> n in next && next[n] == u.shape
  {
    ActsTouchesOwnShape(schema, data, cat, t, next);
    DifferentTargets(targets, t, u);
    SuffixDecides(schema, t, u);
    assert forall n :: n in cat && cat[n] == u.shape <==> n in next && next[n] == u.shape;
    assert HasShape(cat, u.shape) <==> HasShape(next, u.shape);
    ActsKeepsCatalog(schema, data, targets, cat, t, next);
  }

  /** Once acted on, a target that is not skipped or blocked has nothing left to do. */
  lemma ActedIsCorrect(schema: string, data: Data, targets: seq<Target>, cat: Catalog, t: Target, next: Catalog, other: Data)
    requires WellFormed(schema, targets, cat) && t in targets && Acts(schema, data, cat, t, next)
    requires Present(other, t)
    ensures var kind := KindOf(schema, data, cat, t);
            kind != Skipped && kind != Blocks ==> KindOf(schema, other, next, t) == Correct
  {
    var rows :| IsListing(cat, t.shape.table, rows) && Apply(cat, t, Plan(schema, data, cat, t, rows)) == Ok(next);
    PlanHasKind(schema, data, cat, t, rows);
    var legacy := LegacyIdentifier(schema, t);
    if legacy in cat && cat[legacy] == t.shape {
      assert HasShape(cat, t.shape);
    }
  }

  /** Whatever index a step adds, its table and columns exist. */
  lemma AddedIsSupported(schema: string, data: Data, cat: Catalog, t: Target, next: Catalog, n: string)
    requires Acts(schema, data, cat, t, next) && n in next && n !in cat
    ensures next[n].table in data.columns && forall c :: c in next[n].columns ==> c in data.columns[next[n].table]
  {
    var rows :| IsListing(cat, t.shape.table, rows) && Apply(cat, t, Plan(schema, data, cat, t, rows)) == Ok(next);
    PlanHasKind(schema, data, cat, t, rows);
    SkippedIff(schema, data, cat, t);
  }

  // ---------------------------------------------------------- what may be lost

  /**
   * Some order of reading the indexes makes the plan of `t` take `name` away: as
   * the historical name it drops or renames, or as the index it adopts.
   */
  ghost predicate Removable(schema: string, data: Data, cat: Catalog, t: Target, name: string) {
    var desired, legacy := TargetIdentifier(schema, t), LegacyIdentifier(schema, t);
    && name in cat && cat[name] == t.shape && name != desired && Present(data, t)
    && (name == legacy || (desired !in cat && !(legacy in cat && cat[legacy] == t.shape)))
  }

  lemma ActsRemovesOnlyRemovable(schema: string, data: Data, cat: Catalog, t: Target, next: Catalog, name: string)
    requires Acts(schema, data, cat, t, next)
    requires name in cat && !Removable(schema, data, cat, t, name)
    ensures name in next && next[name] == cat[name]
  {
    var rows :| IsListing(cat, t.shape.table, rows) && Apply(cat, t, Plan(schema, data, cat, t, rows)) == Ok(next);
    PlanHasKind(schema, data, cat, t, rows);
  }

  lemma OthersRemovableAlike(schema: string, data: Data, targets: seq<Target>, cat: Catalog, t: Target, next: Catalog,
                             u: Target, name: string)
    requires Separate(targets) && WellFormed(schema, targets, cat)
    requires t in targets && u in targets && t != u && Acts(schema, data, cat, t, next)
    ensures Removable(schema, data, next, u, name) <==> Removable(schema, data, cat, u, name)
  {
    PlanOfOthersIsUnchanged(schema, data, targets, cat, t, next, data, u);
    ActsKeepsCatalog(schema, data, targets, cat, t, next);
  }

  lemma {:induction false} SomeOrder(names: set<string>) returns (rows: seq<string>)
    ensures forall n :: n in rows <==> n in names
    ensures forall i, j :: 0 <= i < j < |rows| ==> rows[i] != rows[j]
    decreases |names|
  {
    rows := [];
    if names != {} {
      var n :| n in names;
      rows := SomeOrder(names - {n});
      rows := rows + [n];
    }
  }

  /** Where its name is not taken by another table, a target can be acted on. */
  lemma SomeAct(schema: string, data: Data, cat: Catalog, t: Target) returns (next: Catalog)
    requires OnTable(schema, cat, t)
    ensures Acts(schema, data, cat, t, next)
  {
    var rows := SomeOrder(set n | n in cat && cat[n].table == t.shape.table);
    assert IsListing(cat, t.shape.table, rows);
    StepFailsIff(schema, data, cat, t, rows);
    next := Apply(cat, t, Plan(schema, data, cat, t, rows)).value;
  }

  /** A removable name is taken away when its index is read first. */
  lemma ActRemoving(schema: string, data: Data, cat: Catalog, t: Target, name: string) returns (next: Catalog)
    requires OnTable(schema, cat, t) && Removable(schema, data, cat, t, name)
    ensures Acts(schema, data, cat, t, next) && name !in next
  {
    var rest := SomeOrder(set n | n in cat && cat[n].table == t.shape.table && n != name);
    var rows := [name] + rest;
    forall i, j | 0 <= i < j < |rows| ensures rows[i] != rows[j] {
      assert rows[j] == rest[j - 1] && rest[j - 1] in rest;
    }
    assert IsListing(cat, t.shape.table, rows);
    StepFailsIff(schema, data, cat, t, rows);
    assert rows[0] == name && FindMatch(cat, rows, t) == Some(name);
    next := Apply(cat, t, Plan(schema, data, cat, t, rows)).value;
  }

  // ---------------------------------------------------------------- whole runs

  /** A reconciliation: one catalog before each target, and one at the end. */
  ghost predicate IsRun(schema: string, data: Data, targets: seq<Target>, cats: seq<Catalog>, n: nat) {
    && n <= |targets| && |cats| == n + 1
    && forall i {:trigger targets[i]} :: 0 <= i < n ==> Acts(schema, data, cats[i], targets[i], cats[i + 1])
  }

  lemma RunStarts(schema: string, data: Data, targets: seq<Target>, cats: seq<Catalog>, n: nat)
    requires n > 0 && IsRun(schema, data, targets, cats, n)
    ensures IsRun(schema, data, targets, cats[..n], n - 1)
    ensures Acts(schema, data, cats[n - 1], targets[n - 1], cats[n])
  {
    forall i | 0 <= i < n - 1 ensures Acts(schema, data, cats[..n][i], targets[i], cats[..n][i + 1]) {
      assert Acts(schema, data, cats[i], targets[i], cats[i + 1]);
    }
    assert Acts(schema, data, cats[n - 1], targets[n - 1], cats[n - 1 + 1]);
  }

  /**
   * Along a whole run from a well-formed catalog: the catalog stays well formed
   * and keeps every shape, each target still ahead is planned as in the first
   * catalog, and each target behind that was acted on is correct.
   */
  lemma {:induction false} RunFollowsFirstPlan(schema: string, data: Data, targets: seq<Target>, cats: seq<Catalog>, n: nat,
                                               other: Data, j: nat)
    requires Separate(targets) && IsRun(schema, data, targets, cats, n) && WellFormed(schema, targets, cats[0])
    requires j < |targets|
    ensures WellFormed(schema, targets, cats[n])
    ensures forall shape :: HasShape(cats[0], shape) ==> HasShape(cats[n], shape)
    ensures n <= j ==> KindOf(schema, other, cats[n], targets[j]) == KindOf(schema, other, cats[0], targets[j])
    ensures j < n && Present(other, targets[j]) ==>
              var kind := KindOf(schema, data, cats[0], targets[j]);
              kind != Skipped && kind != Blocks ==> KindOf(schema, other, cats[n], targets[j]) == Correct
    decreases n
  {
    if n > 0 {
      var t := targets[n - 1];
      RunStarts(schema, data, targets, cats, n);
      RunFollowsFirstPlan(schema, data, targets, cats[..n], n - 1, other, j);
      RunFollowsFirstPlan(schema, data, targets, cats[..n], n - 1, data, n - 1);
      ActsKeepsCatalog(schema, data, targets, cats[n - 1], t, cats[n]);
      if j == n - 1 {
        if Present(other, t) {
          ActedIsCorrect(schema, data, targets, cats[n - 1], t, cats[n], other);
        }
      } else {
        assert targets[j] != t by {
          assert j < n - 1 || n - 1 < j;
        }
        PlanOfOthersIsUnchanged(schema, data, targets, cats[n - 1], t, cats[n], other, targets[j]);
      }
    }
  }

  /** So over a whole run: an index that was not there before stands on a table and columns that exist. */
  lemma {:induction false} RunAddsSupported(schema: string, data: Data, targets: seq<Target>, cats: seq<Catalog>, n: nat, name: string)
    requires IsRun(schema, data, targets, cats, n) && name in cats[n] && name !in cats[0]
    ensures cats[n][name].table in data.columns
    ensures forall c :: c in cats[n][name].columns ==> c in data.columns[cats[n][name].table]
    decreases n
  {
    RunStarts(schema, data, targets, cats, n);
    if name in cats[n - 1] {
      RunAddsSupported(schema, data, targets, cats[..n], n - 1, name);
      ActsTouchesOwnShape(schema, data, cats[n - 1], targets[n - 1], cats[n]);
    } else {
      AddedIsSupported(schema, data, cats[n - 1], targets[n - 1], cats[n], name);
    }
  }

  /** The suffixes of the first `n` targets whose plan has one of the kinds. */
  ghost function Planned(schema: string, data: Data, targets: seq<Target>, cat: Catalog, n: nat, kinds: set<Kind>): seq<string>
    requires n <= |targets|
  {
    if n == 0 then []
    else
      Planned(schema, data, targets, cat, n - 1, kinds) +
      if KindOf(schema, data, cat, targets[n - 1]) in kinds then [targets[n - 1].suffix] else []
  }

  datatype Report = Report(
    renamed: seq<string>, created: seq<string>, alreadyCorrect: seq<string>, skipped: seq<string>,
    droppedRedundant: seq<string>, blocked: seq<string>)

  /** What a catalog, as it is, calls for. */
  ghost function ReportOf(schema: string, data: Data, targets: seq<Target>, cat: Catalog, n: nat): Report
    requires n <= |targets|
  {
    Report(
      Planned(schema, data, targets, cat, n, {Renames}), Planned(schema, data, targets, cat, n, {Creates}),
      Planned(schema, data, targets, cat, n, {Correct, Redundant}), Planned(schema, data, targets, cat, n, {Skipped}),
      Planned(schema, data, targets, cat, n, {Redundant}), Planned(schema, data, targets, cat, n, {Blocks}))
  }

  datatype Preflight = Preflight(
    willRename: seq<string>, willCreate: seq<string>, willDrop: seq<string>, blocked: seq<string>)

  class TenantIndexes {
    const schema: string
    const targets: seq<Target>
    var catalog: Catalog

    ghost predicate Valid()
      reads this
    {
      Separate(targets) && WellFormed(schema, targets, catalog)
    }

    constructor (schema: string, targets: seq<Target>, catalog: Catalog)
      requires Separate(targets) && WellFormed(schema, targets, catalog)
      ensures Valid() && this.schema == schema && this.targets == targets && this.catalog == catalog
    {
      this.schema, this.targets, this.catalog := schema, targets, catalog;
    }

    /** The indexes of a table, in whatever order the catalog query returns them. */
    method LoadExistingIndexes(table: Table) returns (rows: seq<string>)
      ensures IsListing(catalog, table, rows)
    {
      rows := [];
      var left := set n | n in catalog && catalog[n].table == table;
      while left != {}
        invariant forall n :: n in left ==> n in catalog && catalog[n].table == table && n !in rows
        invariant forall n :: n in rows ==> n in catalog && catalog[n].table == table
        invariant forall n :: n in catalog && catalog[n].table == table ==> n in left || n in rows
        invariant forall i, j :: 0 <= i < j < |rows| ==> rows[i] != rows[j]
      {
        var n :| n in left;
        rows := rows + [n];
        left := left - {n};
      }
    }

    /** Decide and carry out one target. */
    method ReconcileTarget(data: Data, t: Target) returns (action: Action)
      requires Valid() && t in targets
      modifies this
      ensures Valid() && Acts(schema, data, old(catalog), t, catalog)
      ensures KindOfAction(action) == KindOf(schema, data, old(catalog), t)
    {
      var rows := LoadExistingIndexes(t.shape.table);
      action := Plan(schema, data, catalog, t, rows);
      StepFailsIff(schema, data, catalog, t, rows);
      PlanHasKind(schema, data, catalog, t, rows);
      ghost var before := catalog;
      match action {
        case Skip =>
        case AlreadyCorrect(redundant) =>
          if redundant.Some? {
            catalog := catalog - {redundant.value};
          }
        case Rename(from, to) =>
          catalog := (catalog - {from})[to := catalog[from]];
        case Blocked =>
        case Create(name) =>
          catalog := catalog[name := t.shape];
      }
      assert Apply(before, t, action) == Ok(catalog);
      assert Acts(schema, data, before, t, catalog);
      ActsKeepsCatalog(schema, data, targets, before, t, catalog);
    }

    /**
     * Reconciliation re-plans after every change, and still does exactly what
     * the catalog called for at the start.
     */
    method ReconcileTenantIndexNames(data: Data) returns (r: Report)
      requires Valid()
      modifies this
      ensures Valid()
      ensures r == ReportOf(schema, data, targets, old(catalog), |targets|)
      ensures forall shape :: HasShape(old(catalog), shape) ==> HasShape(catalog, shape)
      ensures exists cats :: IsRun(schema, data, targets, cats, |targets|) && cats[0] == old(catalog) && cats[|targets|] == catalog
    {
      hide KindOf, Acts, Record;
      r := Report([], [], [], [], [], []);
      ghost var cats := [catalog];
      for i := 0 to |targets|
        invariant Valid() && IsRun(schema, data, targets, cats, i)
        invariant cats[0] == old(catalog) && cats[i] == catalog
        invariant r == ReportOf(schema, data, targets, old(catalog), i)
      {
        RunFollowsFirstPlan(schema, data, targets, cats, i, data, i);
        var target := targets[i];
        var action := ReconcileTarget(data, target);
        ghost var longer := cats + [catalog];
        RunExtends(schema, data, targets, cats, i, catalog);
        r := Record(r, target.suffix, action);
        RecordFollows(schema, data, targets, cats[0], i, action);
        cats := longer;
      }
      if |targets| > 0 {
        RunFollowsFirstPlan(schema, data, targets, cats, |targets|, data, 0);
      }
    }

    /** The report, changing nothing. */
    method PreflightTenantIndexNames(data: Data) returns (p: Preflight)
      requires Valid()
      ensures p == PreflightOf(ReportOf(schema, data, targets, catalog, |targets|))
    {
      p := Preflight([], [], [], []);
      ghost var r := Report([], [], [], [], [], []);
      for i := 0 to |targets|
        invariant r == ReportOf(schema, data, targets, catalog, i) && p == PreflightOf(r)
      {
        var rows := LoadExistingIndexes(targets[i].shape.table);
        var action := Plan(schema, data, catalog, targets[i], rows);
        PlanHasKind(schema, data, catalog, targets[i], rows);
        RecordFollows(schema, data, targets, catalog, i, action);
        r := Record(r, targets[i].suffix, action);
        match action {
          case Skip =>
          case AlreadyCorrect(redundant) =>
            if redundant.Some? {
              p := p.(willDrop := p.willDrop + [targets[i].suffix]);
            }
          case Rename(_, _) => p := p.(willRename := p.willRename + [targets[i].suffix]);
          case Blocked => p := p.(blocked := p.blocked + [targets[i].suffix]);
          case Create(_) => p := p.(willCreate := p.willCreate + [targets[i].suffix]);
        }
      }
    }

    /** What preflight announces is what reconciliation then does. */
    method PreflightThenReconcile(data: Data) returns (p: Preflight, r: Report)
      requires Valid()
      modifies this
      ensures p == PreflightOf(r)
    {
      p := PreflightTenantIndexNames(data);
      r := ReconcileTenantIndexNames(data);
    }
  }

  /** The report over several schemas, row by row. */
  method PreflightSchemas(tenants: seq<TenantIndexes>, data: seq<Data>) returns (report: seq<(string, Preflight)>)
    requires |tenants| == |data| && forall i :: 0 <= i < |tenants| ==> tenants[i].Valid()
    ensures |report| == |tenants|
    ensures forall i :: 0 <= i < |tenants| ==>
              var ix := tenants[i];
              report[i] == (ix.schema, PreflightOf(ReportOf(ix.schema, data[i], ix.targets, ix.catalog, |ix.targets|)))
  {
    report := [];
    for i := 0 to |tenants|
      invariant |report| == i
      invariant forall k :: 0 <= k < i ==>
                  var ix := tenants[k];
                  report[k] == (ix.schema, PreflightOf(ReportOf(ix.schema, data[k], ix.targets, ix.catalog, |ix.targets|)))
    {
      var row := tenants[i].PreflightTenantIndexNames(data[i]);
      report := report + [(tenants[i].schema, row)];
    }
  }

  function PreflightOf(r: Report): Preflight {
    Preflight(r.renamed, r.created, r.droppedRedundant, r.blocked)
  }

  /** The bookkeeping of one action. */
  function Record(r: Report, suffix: string, a: Action): Report {
    match a
    case Skip => r.(skipped := r.skipped + [suffix])
    case AlreadyCorrect(redundant) =>
      r.(droppedRedundant := if redundant.Some? then r.droppedRedundant + [suffix] else r.droppedRedundant,
         alreadyCorrect := r.alreadyCorrect + [suffix])
    case Rename(_, _) => r.(renamed := r.renamed + [suffix])
    case Blocked => r.(blocked := r.blocked + [suffix])
    case Create(_) => r.(created := r.created + [suffix])
  }

  lemma RecordFollows(schema: string, data: Data, targets: seq<Target>, cat: Catalog, i: nat, a: Action)
    requires i < |targets| && KindOfAction(a) == KindOf(schema, data, cat, targets[i])
    ensures Record(ReportOf(schema, data, targets, cat, i), targets[i].suffix, a) == ReportOf(schema, data, targets, cat, i + 1)
  {}

  lemma RunExtends(schema: string, data: Data, targets: seq<Target>, cats: seq<Catalog>, i: nat, next: Catalog)
    requires i < |targets| && IsRun(schema, data, targets, cats, i) && Acts(schema, data, cats[i], targets[i], next)
    ensures IsRun(schema, data, targets, cats + [next], i + 1)
  {
    var longer := cats + [next];
    forall k | 0 <= k < i + 1 ensures Acts(schema, data, longer[k], targets[k], longer[k + 1]) {
      assert k < i ==> longer[k] == cats[k] && longer[k + 1] == cats[k + 1];
    }
  }

  // --------------------------------------------------- catalogs not well formed

  /**
   * Over any catalog, a step that goes through loses a shape exactly when it
   * drops a duplicate of a canonical name that, by its name alone, passed for
   * correct, and no index left has that shape.
   */
  lemma StepLosesShapeIff(schema: string, data: Data, cat: Catalog, t: Target, rows: seq<string>)
    requires IsListing(cat, t.shape.table, rows) && Apply(cat, t, Plan(schema, data, cat, t, rows)).Ok?
    ensures var next := Apply(cat, t, Plan(schema, data, cat, t, rows)).value;
            (exists shape :: HasShape(cat, shape) && !HasShape(next, shape)) <==>
            (KindOf(schema, data, cat, t) == Redundant && !HasShape(cat - {LegacyIdentifier(schema, t)}, t.shape))
  {
    PlanHasKind(schema, data, cat, t, rows);
    var action := Plan(schema, data, cat, t, rows);
    var next := Apply(cat, t, action).value;
    var legacy := LegacyIdentifier(schema, t);
    if KindOf(schema, data, cat, t) == Redundant {
      assert next == cat - {legacy};
      assert HasShape(cat, t.shape) by { assert cat[legacy] == t.shape; }
      forall shape | HasShape(cat, shape) && shape != t.shape ensures HasShape(next, shape) {
        var n :| n in cat && cat[n] == shape;
        assert n in next && next[n] == shape;
      }
    } else {
      forall shape | HasShape(cat, shape) ensures HasShape(next, shape) {
        var n :| n in cat && cat[n] == shape;
        if action.Rename? && n == action.from {
          assert next[action.to] == shape;
        } else {
          assert n in next && next[n] == shape;
        }
      }
    }
  }

  /**
   * A catalog in which reconciliation does lose a shape: the canonical name is
   * on the table with another shape, and the historical name holds the only
   * index of the target's. For every target that the two names tell apart.
   */
  lemma WrongShapeCostsTheIndex(schema: string, data: Data, t: Target, wrong: Index)
    requires Present(data, t) && wrong.table == t.shape.table && wrong != t.shape
    requires LegacyIdentifier(schema, t) != TargetIdentifier(schema, t)
    ensures var desired, legacy := TargetIdentifier(schema, t), LegacyIdentifier(schema, t);
            var cat := map[desired := wrong, legacy := t.shape];
            && HasShape(cat, t.shape)
            && (exists next :: Acts(schema, data, cat, t, next))
            && (forall next :: Acts(schema, data, cat, t, next) ==> next == map[desired := wrong] && !HasShape(next, t.shape))
  {
    var desired, legacy := TargetIdentifier(schema, t), LegacyIdentifier(schema, t);
    var cat := map[desired := wrong, legacy := t.shape];
    assert cat[legacy] == t.shape;
    var rows := [desired, legacy];
    assert IsListing(cat, t.shape.table, rows);
    assert Acts(schema, data, cat, t, cat - {legacy});
    forall next | Acts(schema, data, cat, t, next) ensures next == map[desired := wrong] {
      var any :| IsListing(cat, t.shape.table, any) && Apply(cat, t, Plan(schema, data, cat, t, any)) == Ok(next);
      PlanHasKind(schema, data, cat, t, any);
    }
  }
}
