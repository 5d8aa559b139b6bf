/**
 * What the reconciler promises of repeated runs and of the order of its
 * targets: a second run changes nothing, and the catalogs a reconciliation may
 * end in, like the kinds it reports, do not depend on the order.
 */
module TenantIndexOrder {
  import opened Wrappers
  import opened TenantIndexNames

  // -------------------------------------------------------------- idempotence

  ghost predicate IsIdle(k: Kind) {
    k in {Skipped, Blocks, Correct}
  }

  lemma IdleActs(schema: string, data: Data, cat: Catalog, t: Target, next: Catalog)
    requires Acts(schema, data, cat, t, next) && IsIdle(KindOf(schema, data, cat, t))
    ensures next == cat
  {
    var rows :| IsListing(cat, t.shape.table, rows) && Apply(cat, t, Plan(schema, data, cat, t, rows)) == Ok(next);
    PlanHasKind(schema, data, cat, t, rows);
  }

  /** A run that finds nothing to do for any target changes nothing. */
  lemma {:induction false} IdleRun(schema: string, data: Data, targets: seq<Target>, cats: seq<Catalog>, n: nat)
    requires IsRun(schema, data, targets, cats, n)
    requires forall j :: 0 <= j < n ==> IsIdle(KindOf(schema, data, cats[0], targets[j]))
    ensures cats[n] == cats[0]
    decreases n
  {
    if n > 0 {
      RunStarts(schema, data, targets, cats, n);
      IdleRun(schema, data, targets, cats[..n], n - 1);
      IdleActs(schema, data, cats[n - 1], targets[n - 1], cats[n]);
    }
  }

  /** Once a run has passed a target, there is nothing left to do for it. */
  lemma {:induction false} PassedIsIdle(schema: string, data: Data, targets: seq<Target>, cats: seq<Catalog>, n: nat, j: nat)
    requires Separate(targets) && IsRun(schema, data, targets, cats, n) && WellFormed(schema, targets, cats[0]) && j < n
    ensures IsIdle(KindOf(schema, data, cats[n], targets[j]))
    decreases n
  {
    var t, u, before, after := targets[n - 1], targets[j], cats[n - 1], cats[n];
    RunStarts(schema, data, targets, cats, n);
    RunFollowsFirstPlan(schema, data, targets, cats[..n], n - 1, data, j);
    if j < n - 1 {
      PassedIsIdle(schema, data, targets, cats[..n], n - 1, j);
      PlanOfOthersIsUnchanged(schema, data, targets, before, t, after, data, u);
    } else if IsIdle(KindOf(schema, data, before, u)) {
      IdleActs(schema, data, before, u, after);
    } else {
      ActedIsCorrect(schema, data, targets, before, u, after, data);
    }
  }

  /**
   * From any well-formed catalog, with tables missing and targets blocked or
   * not: a second reconciliation over the same data changes nothing.
   */
  lemma SecondRunIsIdle(schema: string, data: Data, targets: seq<Target>, cats: seq<Catalog>, again: seq<Catalog>)
    requires Separate(targets) && IsRun(schema, data, targets, cats, |targets|) && WellFormed(schema, targets, cats[0])
    requires IsRun(schema, data, targets, again, |targets|) && again[0] == cats[|targets|]
    ensures again[|targets|] == cats[|targets|]
  {
    forall j | 0 <= j < |targets| ensures IsIdle(KindOf(schema, data, again[0], targets[j])) {
      PassedIsIdle(schema, data, targets, cats, |targets|, j);
    }
    IdleRun(schema, data, targets, again, |targets|);
  }

  // ------------------------------------------------------- the kinds reported

  lemma {:induction false} PlannedAre(schema: string, data: Data, targets: seq<Target>, cat: Catalog, n: nat, kinds: set<Kind>,
                                      suffix: string)
    requires n <= |targets|
    ensures suffix in Planned(schema, data, targets, cat, n, kinds) <==>
            exists t :: t in targets[..n] && t.suffix == suffix && KindOf(schema, data, cat, t) in kinds
  {
    if n > 0 {
      PlannedAre(schema, data, targets, cat, n - 1, kinds, suffix);
      assert targets[..n] == targets[..n - 1] + [targets[n - 1]];
      assert targets[n - 1] in targets[..n];
    }
  }

  lemma ReportedAre(schema: string, data: Data, targets: seq<Target>, cat: Catalog, kinds: set<Kind>, t: Target)
    requires Separate(targets) && t in targets
    ensures t.suffix in Planned(schema, data, targets, cat, |targets|, kinds) <==> KindOf(schema, data, cat, t) in kinds
  {
    PlannedAre(schema, data, targets, cat, |targets|, kinds, t.suffix);
    assert targets[..|targets|] == targets;
    forall u | u in targets && u.suffix == t.suffix ensures u == t {
      if u != t {
        DifferentTargets(targets, t, u);
      }
    }
  }

  /**
   * What a preflight announces of a target whose table and columns are there,
   * list by list, in terms of the catalog.
   */
  lemma PreflightMeans(schema: string, data: Data, targets: seq<Target>, cat: Catalog, t: Target)
    requires Separate(targets) && t in targets
    requires t.shape.table in data.columns && forall c :: c in t.shape.columns ==> c in data.columns[t.shape.table]
    ensures var r := ReportOf(schema, data, targets, cat, |targets|);
            var p := PreflightOf(r);
            && (t.suffix in r.alreadyCorrect <==> Taken(schema, cat, t)) && t.suffix !in r.skipped
            && (t.suffix in p.willCreate <==>
                  && !Taken(schema, cat, t) && (forall n :: n in cat ==> cat[n] != t.shape)
                  && !(t.shape.unique && t.suffix in data.conflicts))
            && (t.suffix in p.willRename <==> !Taken(schema, cat, t) && exists n :: n in cat && cat[n] == t.shape)
            && (t.suffix in p.willDrop <==>
                  && Taken(schema, cat, t) && HistoricalHolds(schema, cat, t)
                  && LegacyIdentifier(schema, t) != TargetIdentifier(schema, t))
            && (t.suffix in p.blocked <==>
                  && !Taken(schema, cat, t) && (forall n :: n in cat ==> cat[n] != t.shape)
                  && t.shape.unique && t.suffix in data.conflicts)
  {
    hide KindOf, Taken, HistoricalHolds;
    KindMeans(schema, data, cat, t);
    SkippedIff(schema, data, cat, t);
    ReportedAre(schema, data, targets, cat, {Correct, Redundant}, t);
    ReportedAre(schema, data, targets, cat, {Skipped}, t);
    ReportedAre(schema, data, targets, cat, {Creates}, t);
    ReportedAre(schema, data, targets, cat, {Renames}, t);
    ReportedAre(schema, data, targets, cat, {Redundant}, t);
    ReportedAre(schema, data, targets, cat, {Blocks}, t);
  }

  /** A target whose table or column is missing is in no list but that of the skipped. */
  lemma MissingIsSkipped(schema: string, data: Data, targets: seq<Target>, cat: Catalog, t: Target)
    requires Separate(targets) && t in targets
    requires t.shape.table !in data.columns || exists c :: c in t.shape.columns && c !in data.columns[t.shape.table]
    ensures var r := ReportOf(schema, data, targets, cat, |targets|);
            && t.suffix in r.skipped
            && t.suffix !in r.created && t.suffix !in r.renamed && t.suffix !in r.droppedRedundant
            && t.suffix !in r.blocked && t.suffix !in r.alreadyCorrect
  {
    SkippedIff(schema, data, cat, t);
    hide KindOf;
    ReportedAre(schema, data, targets, cat, {Skipped}, t);
    ReportedAre(schema, data, targets, cat, {Creates}, t);
    ReportedAre(schema, data, targets, cat, {Renames}, t);
    ReportedAre(schema, data, targets, cat, {Redundant}, t);
    ReportedAre(schema, data, targets, cat, {Blocks}, t);
    ReportedAre(schema, data, targets, cat, {Correct, Redundant}, t);
  }

  /** Each list names its targets in their order, and none twice. */
  lemma {:induction false} PlannedInOrder(schema: string, data: Data, targets: seq<Target>, cat: Catalog, n: nat, kinds: set<Kind>)
    returns (at: seq<nat>)
    requires n <= |targets|
    ensures var planned := Planned(schema, data, targets, cat, n, kinds);
            && |at| == |planned|
            && (forall k :: 0 <= k < |at| ==> at[k] < n && planned[k] == targets[at[k]].suffix)
            && forall j, k :: 0 <= j < k < |at| ==> at[j] < at[k]
  {
    at := [];
    if n > 0 {
      at := PlannedInOrder(schema, data, targets, cat, n - 1, kinds);
      if KindOf(schema, data, cat, targets[n - 1]) in kinds {
        at := at + [n - 1];
      }
    }
  }

  /** Each target is reported under the same kinds, in whatever order the targets come. */
  lemma ReportIsOrderIndependent(schema: string, data: Data, targets: seq<Target>, permuted: seq<Target>, cat: Catalog,
                                 kinds: set<Kind>, suffix: string)
    requires multiset(permuted) == multiset(targets)
    ensures suffix in Planned(schema, data, permuted, cat, |permuted|, kinds) <==>
            suffix in Planned(schema, data, targets, cat, |targets|, kinds)
  {
    PlannedAre(schema, data, targets, cat, |targets|, kinds, suffix);
    PlannedAre(schema, data, permuted, cat, |permuted|, kinds, suffix);
    assert targets[..|targets|] == targets && permuted[..|permuted|] == permuted;
    forall t ensures t in permuted <==> t in targets {
      assert t in multiset(permuted) <==> t in multiset(targets);
    }
  }

  // -------------------------------------------------------- one step as a delta

  /** Names taken away and indexes brought in. */
  datatype Delta = Delta(gone: set<string>, come: Catalog)

  function Changed(cat: Catalog, d: Delta): Catalog {
    (cat - d.gone) + d.come
  }

  /** What acting on `t` may do to the catalog. */
  ghost predicate MayDo(schema: string, data: Data, cat: Catalog, t: Target, d: Delta) {
    var desired, legacy := TargetIdentifier(schema, t), LegacyIdentifier(schema, t);
    match KindOf(schema, data, cat, t)
    case Redundant => d == Delta({legacy}, map[])
    case Creates => d == Delta({}, map[desired := t.shape])
    case Renames => d.come == map[desired := t.shape] && exists from :: Removable(schema, data, cat, t, from) && d.gone == {from}
    case _ => d == Delta({}, map[])
  }

  lemma ActsAsDelta(schema: string, data: Data, cat: Catalog, t: Target, next: Catalog) returns (d: Delta)
    requires OnTable(schema, cat, t) && Acts(schema, data, cat, t, next)
    ensures MayDo(schema, data, cat, t, d) && next == Changed(cat, d)
  {
    var rows :| IsListing(cat, t.shape.table, rows) && Apply(cat, t, Plan(schema, data, cat, t, rows)) == Ok(next);
    PlanHasKind(schema, data, cat, t, rows);
    match Plan(schema, data, cat, t, rows)
    case AlreadyCorrect(Some(r)) => d := Delta({r}, map[]);
    case Rename(from, to) =>
      d := Delta({from}, map[to := t.shape]);
      assert Removable(schema, data, cat, t, from);
    case Create(name) => d := Delta({}, map[name := t.shape]);
    case _ => d := Delta({}, map[]);
  }

  lemma DeltaActs(schema: string, data: Data, cat: Catalog, t: Target, d: Delta)
    requires OnTable(schema, cat, t) && MayDo(schema, data, cat, t, d)
    ensures Acts(schema, data, cat, t, Changed(cat, d))
  {
    var next;
    if KindOf(schema, data, cat, t) == Renames {
      var from :| Removable(schema, data, cat, t, from) && d.gone == {from};
      next := ActRemoving(schema, data, cat, t, from);
    } else {
      next := SomeAct(schema, data, cat, t);
    }
    var rows :| IsListing(cat, t.shape.table, rows) && Apply(cat, t, Plan(schema, data, cat, t, rows)) == Ok(next);
    PlanHasKind(schema, data, cat, t, rows);
    assert next == Changed(cat, d);
  }

  /** A delta touches only its own target's name and indexes. */
  lemma DeltaIsLocal(schema: string, data: Data, cat: Catalog, t: Target, d: Delta)
    requires MayDo(schema, data, cat, t, d)
    ensures d.come.Keys <= {TargetIdentifier(schema, t)}
    ensures forall n :: n in d.gone ==> n in cat && cat[n] == t.shape
  {}

  lemma MayDoAlike(schema: string, data: Data, targets: seq<Target>, cat: Catalog, t: Target, next: Catalog, u: Target, d: Delta)
    requires Separate(targets) && WellFormed(schema, targets, cat)
    requires t in targets && u in targets && t != u && Acts(schema, data, cat, t, next)
    ensures MayDo(schema, data, next, u, d) <==> MayDo(schema, data, cat, u, d)
  {
    PlanOfOthersIsUnchanged(schema, data, targets, cat, t, next, data, u);
    forall name ensures Removable(schema, data, next, u, name) <==> Removable(schema, data, cat, u, name) {
      OthersRemovableAlike(schema, data, targets, cat, t, next, u, name);
    }
  }

  lemma DeltasCommute(cat: Catalog, d: Delta, e: Delta)
    requires d.gone !! e.come.Keys && e.gone !! d.come.Keys && d.come.Keys !! e.come.Keys
    ensures Changed(Changed(cat, d), e) == Changed(Changed(cat, e), d)
  {}

  /** Two steps for different targets can be taken in either order. */
  lemma StepsCommute(schema: string, data: Data, targets: seq<Target>, cat: Catalog, t: Target, mid: Catalog, u: Target,
                     end: Catalog)
    returns (other: Catalog)
    requires Separate(targets) && WellFormed(schema, targets, cat) && t in targets && u in targets && t != u
    requires Acts(schema, data, cat, t, mid) && Acts(schema, data, mid, u, end)
    ensures Acts(schema, data, cat, u, other) && Acts(schema, data, other, t, end)
  {
    hide MayDo, Acts, KindOf;
    ActsKeepsCatalog(schema, data, targets, cat, t, mid);
    DifferentTargets(targets, t, u);
    SuffixDecides(schema, t, u);
    var d := ActsAsDelta(schema, data, cat, t, mid);
    var e := ActsAsDelta(schema, data, mid, u, end);
    MayDoAlike(schema, data, targets, cat, t, mid, u, e);
    DeltaActs(schema, data, cat, u, e);
    other := Changed(cat, e);
    ActsKeepsCatalog(schema, data, targets, cat, u, other);
    MayDoAlike(schema, data, targets, cat, u, other, t, d);
    DeltaActs(schema, data, other, t, d);
    DeltaIsLocal(schema, data, cat, t, d);
    DeltaIsLocal(schema, data, cat, u, e);
    DeltasCommute(cat, d, e);
  }

  // ----------------------------------------------------------- order of targets

  /** Acting on the targets one after the other may lead from `cat` to `end`. */
  ghost predicate Reaches(schema: string, data: Data, targets: seq<Target>, cat: Catalog, end: Catalog)
    decreases |targets|
  {
    if targets == [] then end == cat
    else exists mid :: Acts(schema, data, cat, targets[0], mid) && Reaches(schema, data, targets[1..], mid, end)
  }

  ghost predicate Among(some: seq<Target>, all: seq<Target>) {
    && (forall t :: t in some ==> t in all)
    && forall i, j :: 0 <= i < j < |some| ==> some[i] != some[j]
  }

  /** A target in the middle can be acted on first. */
  lemma {:induction false} BringForward(schema: string, data: Data, all: seq<Target>, a: seq<Target>, t: Target, b: seq<Target>,
                                        cat: Catalog, end: Catalog)
    returns (mid: Catalog)
    requires Separate(all) && WellFormed(schema, all, cat) && Among(a + [t] + b, all)
    requires Reaches(schema, data, a + [t] + b, cat, end)
    ensures Acts(schema, data, cat, t, mid) && Reaches(schema, data, a + b, mid, end)
    decreases |a|
  {
    var whole := a + [t] + b;
    mid :| Acts(schema, data, cat, whole[0], mid) && Reaches(schema, data, whole[1..], mid, end);
    if a == [] {
      assert whole[1..] == b && a + b == b;
    } else {
      var first, later := a[0], mid;
      assert whole[1..] == a[1..] + [t] + b && whole[0] == first && whole[|a|] == t;
      AmongTail(whole, all);
      ActsKeepsCatalog(schema, data, all, cat, first, later);
      var next := BringForward(schema, data, all, a[1..], t, b, later, end);
      mid := StepsCommute(schema, data, all, cat, first, later, t, next);
      assert (a + b)[0] == first && (a + b)[1..] == a[1..] + b;
    }
  }

  lemma AmongTail(some: seq<Target>, all: seq<Target>)
    requires some != [] && Among(some, all)
    ensures Among(some[1..], all) && some[0] in all
  {}

  lemma {:induction false} ReachesPermuted(schema: string, data: Data, all: seq<Target>, targets: seq<Target>,
                                           permuted: seq<Target>, cat: Catalog, end: Catalog)
    requires Separate(all) && WellFormed(schema, all, cat) && Among(targets, all)
    requires multiset(permuted) == multiset(targets) && Reaches(schema, data, targets, cat, end)
    ensures Reaches(schema, data, permuted, cat, end)
    decreases |permuted|
  {
    if permuted == [] {
      assert |multiset(targets)| == 0;
    } else {
      var j := PlaceOf(targets, permuted);
      var t, a, b := permuted[0], targets[..j], targets[j + 1..];
      hide Reaches, Acts, Among;
      var mid := BringForward(schema, data, all, a, t, b, cat, end);
      AmongWithout(a, t, b, all);
      ActsKeepsCatalog(schema, data, all, cat, t, mid);
      ReachesPermuted(schema, data, all, a + b, permuted[1..], mid, end);
      ReachesFirst(schema, data, permuted, cat, mid, end);
    }
  }

  lemma ReachesFirst(schema: string, data: Data, targets: seq<Target>, cat: Catalog, mid: Catalog, end: Catalog)
    requires targets != [] && Acts(schema, data, cat, targets[0], mid) && Reaches(schema, data, targets[1..], mid, end)
    ensures Reaches(schema, data, targets, cat, end)
  {}

  /** Where the first of the permuted targets stands, and what is left without it. */
  lemma PlaceOf(targets: seq<Target>, permuted: seq<Target>) returns (j: nat)
    requires permuted != [] && multiset(permuted) == multiset(targets)
    ensures j < |targets| && targets == targets[..j] + [permuted[0]] + targets[j + 1..]
    ensures permuted[0] in targets && multiset(permuted[1..]) == multiset(targets[..j] + targets[j + 1..])
  {
    var t := permuted[0];
    assert t in multiset(permuted);
    j :| 0 <= j < |targets| && targets[j] == t;
    assert targets == targets[..j] + [t] + targets[j + 1..];
    assert permuted == [t] + permuted[1..];
    assert multiset(permuted[1..]) == multiset(permuted) - multiset{t};
  }

  lemma AmongWithout(a: seq<Target>, t: Target, b: seq<Target>, all: seq<Target>)
    requires Among(a + [t] + b, all)
    ensures t in all && Among(a + b, all)
  {
    var some, whole := a + b, a + [t] + b;
    assert whole[|a|] == t;
    forall i | 0 <= i < |some| ensures some[i] in all {
      assert some[i] == whole[if i < |a| then i else i + 1];
    }
    forall i, j | 0 <= i < j < |some| ensures some[i] != some[j] {
      assert some[i] == whole[if i < |a| then i else i + 1] && some[j] == whole[if j < |a| then j else j + 1];
    }
  }

  /** A reconciliation of `targets` may lead from `cat` to `end`. */
  ghost predicate MayEndIn(schema: string, data: Data, targets: seq<Target>, cat: Catalog, end: Catalog) {
    exists cats :: IsRun(schema, data, targets, cats, |targets|) && cats[0] == cat && cats[|targets|] == end
  }

  lemma {:induction false} RunReaches(schema: string, data: Data, targets: seq<Target>, cats: seq<Catalog>, n: nat)
    requires IsRun(schema, data, targets, cats, |targets|) && n <= |targets|
    ensures Reaches(schema, data, targets[n..], cats[n], cats[|targets|])
    decreases |targets| - n
  {
    if n < |targets| {
      RunReaches(schema, data, targets, cats, n + 1);
      assert Acts(schema, data, cats[n], targets[n], cats[n + 1]);
      assert targets[n..][0] == targets[n] && targets[n..][1..] == targets[n + 1..];
    }
  }

  lemma {:induction false} ReachesRun(schema: string, data: Data, targets: seq<Target>, cat: Catalog, end: Catalog)
    returns (cats: seq<Catalog>)
    requires Reaches(schema, data, targets, cat, end)
    ensures IsRun(schema, data, targets, cats, |targets|) && cats[0] == cat && cats[|targets|] == end
    decreases |targets|
  {
    if targets == [] {
      return [cat];
    }
    var mid :| Acts(schema, data, cat, targets[0], mid) && Reaches(schema, data, targets[1..], mid, end);
    var rest := ReachesRun(schema, data, targets[1..], mid, end);
    cats := [cat] + rest;
    forall i | 0 <= i < |targets| ensures Acts(schema, data, cats[i], targets[i], cats[i + 1]) {
      if i > 0 {
        assert Acts(schema, data, rest[i - 1], targets[1..][i - 1], rest[i - 1 + 1]);
      }
    }
  }

  /** From any well-formed catalog, the catalogs a reconciliation may end in do not depend on the order of the targets. */
  lemma EndIsOrderIndependent(schema: string, data: Data, targets: seq<Target>, permuted: seq<Target>, cat: Catalog, end: Catalog)
    requires Separate(targets) && WellFormed(schema, targets, cat) && multiset(permuted) == multiset(targets)
    ensures MayEndIn(schema, data, permuted, cat, end) <==> MayEndIn(schema, data, targets, cat, end)
  {
    SeparateIsAmong(targets, permuted);
    if MayEndIn(schema, data, targets, cat, end) {
      EndsAlike(schema, data, targets, targets, permuted, cat, end);
    }
    if MayEndIn(schema, data, permuted, cat, end) {
      EndsAlike(schema, data, targets, permuted, targets, cat, end);
    }
  }

  lemma EndsAlike(schema: string, data: Data, all: seq<Target>, targets: seq<Target>, permuted: seq<Target>, cat: Catalog,
                  end: Catalog)
    requires Separate(all) && WellFormed(schema, all, cat) && Among(targets, all) && multiset(permuted) == multiset(targets)
    requires MayEndIn(schema, data, targets, cat, end)
    ensures MayEndIn(schema, data, permuted, cat, end)
  {
    var cats :| IsRun(schema, data, targets, cats, |targets|) && cats[0] == cat && cats[|targets|] == end;
    RunReaches(schema, data, targets, cats, 0);
    assert targets[0..] == targets;
    ReachesPermuted(schema, data, all, targets, permuted, cat, end);
    var others := ReachesRun(schema, data, permuted, cat, end);
  }

  lemma SeparateIsAmong(targets: seq<Target>, permuted: seq<Target>)
    requires Separate(targets) && multiset(permuted) == multiset(targets)
    ensures Among(targets, targets) && Among(permuted, targets)
  {
    forall t ensures t in permuted ==> t in targets {
      assert t in multiset(permuted) <==> t in multiset(targets);
    }
    forall i, j | 0 <= i < j < |permuted| ensures permuted[i] != permuted[j] {
      AtMostOnce(targets, permuted[i]);
      TwiceCounts(permuted, i, j);
    }
  }

  lemma TwiceCounts(s: seq<Target>, i: nat, j: nat)
    requires i < j < |s|
    ensures s[i] == s[j] ==> multiset(s)[s[i]] >= 2
  {
    assert s == s[..i] + [s[i]] + s[i + 1..j] + [s[j]] + s[j + 1..];
  }

  lemma {:induction false} AtMostOnce(targets: seq<Target>, t: Target)
    requires forall i, j :: 0 <= i < j < |targets| ==> targets[i] != targets[j]
    ensures multiset(targets)[t] <= 1
  {
    if targets != [] {
      AtMostOnce(targets[1..], t);
      assert targets == [targets[0]] + targets[1..];
      assert targets[0] !in targets[1..];
    }
  }
}
