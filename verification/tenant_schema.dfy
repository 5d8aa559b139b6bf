/**
 * One index pass over a tenant schema: a list of index requests, several of
 * them under historical over-length names, and then the reconciler.
 */
module TenantSchema {
  import opened Wrappers
  import opened TenantIndexNames

  /** A request: the name asked for, what to index, and what rows would violate it. */
  datatype Request = Request(name: string, shape: Index, conflict: string)

  function FindTarget(schema: string, targets: seq<Target>, requested: string): Option<Target> {
    if targets == [] then None
    else if schema + targets[0].legacySuffix == requested then Some(targets[0])
    else FindTarget(schema, targets[1..], requested)
  }

  datatype Resolved = Resolved(create: string, satisfiedBy: seq<string>)

  function ResolveIndexName(schema: string, targets: seq<Target>, requested: string): Resolved {
    match FindTarget(schema, targets, requested)
    case None => Resolved(requested, [requested])
    case Some(t) =>
      var canonical := TargetIdentifier(schema, t);
      Resolved(canonical, [canonical, LegacyIdentifier(schema, t)])
  }

  /** The catalog, the names believed to exist, the creates issued, and whether one failed. */
  datatype Ensuring = Ensuring(catalog: Catalog, existing: set<string>, issued: seq<string>, failed: bool)

  predicate Satisfied(r: Resolved, existing: set<string>) {
    exists i :: 0 <= i < |r.satisfiedBy| && r.satisfiedBy[i] in existing
  }

  /** `CREATE INDEX IF NOT EXISTS`, which fails on rows that conflict. */
  function EnsureStep(schema: string, targets: seq<Target>, data: Data, st: Ensuring, r: Request): Ensuring {
    var resolved := ResolveIndexName(schema, targets, r.name);
    if st.failed || Satisfied(resolved, st.existing) then st
    else
      var name := Truncate(resolved.create);
      if name !in st.catalog && r.shape.unique && r.conflict in data.conflicts then
        st.(issued := st.issued + [resolved.create], failed := true)
      else
        Ensuring(if name in st.catalog then st.catalog else st.catalog[name := r.shape],
                 st.existing + {resolved.create}, st.issued + [resolved.create], false)
  }

  function EnsureAll(schema: string, targets: seq<Target>, data: Data, cat: Catalog, requests: seq<Request>): Ensuring {
    if requests == [] then Ensuring(cat, cat.Keys, [], false)
    else
      EnsureStep(schema, targets, data,
                 EnsureAll(schema, targets, data, cat, requests[..|requests| - 1]), requests[|requests| - 1])
  }

  /**
   * One of the names that satisfy a request is known: for a target's historical
   * name its canonical one or what the historical one was cut to, else the name.
   */
  ghost predicate Known(schema: string, targets: seq<Target>, requested: string, names: set<string>) {
    || (exists t :: t in targets && requested == schema + t.legacySuffix &&
          (TargetIdentifier(schema, t) in names || LegacyIdentifier(schema, t) in names))
    || ((forall t :: t in targets ==> requested != schema + t.legacySuffix) && requested in names)
  }

  /** The name a request creates: the canonical one for a target's historical name, else the name itself. */
  ghost predicate Wants(schema: string, targets: seq<Target>, requested: string, name: string) {
    || (exists t :: t in targets && requested == schema + t.legacySuffix && name == TargetIdentifier(schema, t))
    || ((forall t :: t in targets ==> requested != schema + t.legacySuffix) && name == requested)
  }

  lemma ResolvesToKnown(schema: string, targets: seq<Target>, requested: string, names: set<string>)
    requires Separate(targets)
    ensures var resolved := ResolveIndexName(schema, targets, requested);
            && (Satisfied(resolved, names) <==> Known(schema, targets, requested, names))
            && forall name :: Wants(schema, targets, requested, name) <==> name == resolved.create
  {
    var resolved := ResolveIndexName(schema, targets, requested);
    FoundTarget(schema, targets, requested);
    forall t | t in targets && requested == schema + t.legacySuffix ensures FindTarget(schema, targets, requested) == Some(t) {
      OwnNameResolves(schema, targets, t);
    }
    if Satisfied(resolved, names) {
      assert Known(schema, targets, requested, names);
    }
    if Known(schema, targets, requested, names) {
      assert exists i :: 0 <= i < |resolved.satisfiedBy| && resolved.satisfiedBy[i] in names by {
        match FindTarget(schema, targets, requested)
        case None => assert resolved.satisfiedBy[0] in names;
        case Some(t) => assert resolved.satisfiedBy[0] in names || resolved.satisfiedBy[1] in names;
      }
    }
  }

  /** A request, when reached, must be created and cannot: it is unique and the rows conflict. */
  ghost predicate Conflicts(schema: string, targets: seq<Target>, data: Data, st: Ensuring, r: Request, name: string) {
    && !Known(schema, targets, r.name, st.existing) && Wants(schema, targets, r.name, name)
    && Truncate(name) !in st.catalog && r.shape.unique && r.conflict in data.conflicts
  }

  /** What one request does, in full. */
  lemma RequestDoes(schema: string, targets: seq<Target>, data: Data, st: Ensuring, r: Request, name: string)
    requires Separate(targets) && !st.failed && Wants(schema, targets, r.name, name)
    ensures var next := EnsureStep(schema, targets, data, st, r);
            if Known(schema, targets, r.name, st.existing) then next == st
            else
              && next.issued == st.issued + [name]
              && (next.failed <==> Conflicts(schema, targets, data, st, r, name))
              && next.existing == (if next.failed then st.existing else st.existing + {name})
              && next.catalog ==
                 if next.failed || Truncate(name) in st.catalog then st.catalog else st.catalog[Truncate(name) := r.shape]
  {
    ResolvesToKnown(schema, targets, r.name, st.existing);
  }

  /** The requests fail if and only if one of them, when reached, meets rows that conflict with it. */
  lemma {:induction false} EnsureFailsIff(schema: string, targets: seq<Target>, data: Data, cat: Catalog, requests: seq<Request>)
    requires Separate(targets)
    ensures EnsureAll(schema, targets, data, cat, requests).failed <==>
            exists i, name :: 0 <= i < |requests| && MeetsConflict(schema, targets, data, cat, requests, i, name)
  {
    if requests != [] {
      var earlier, r := requests[..|requests| - 1], requests[|requests| - 1];
      var st := EnsureAll(schema, targets, data, cat, earlier);
      EnsureFailsIff(schema, targets, data, cat, earlier);
      ResolvesToKnown(schema, targets, r.name, st.existing);
      var create := ResolveIndexName(schema, targets, r.name).create;
      forall i, name | 0 <= i < |earlier|
        ensures MeetsConflict(schema, targets, data, cat, requests, i, name) <==>
                MeetsConflict(schema, targets, data, cat, earlier, i, name)
      {
        assert requests[..i] == earlier[..i] && requests[i] == earlier[i];
      }
      if EnsureAll(schema, targets, data, cat, requests).failed {
        if st.failed {
          var i, name :| 0 <= i < |earlier| && MeetsConflict(schema, targets, data, cat, earlier, i, name);
          assert MeetsConflict(schema, targets, data, cat, requests, i, name);
        } else {
          assert MeetsConflict(schema, targets, data, cat, requests, |requests| - 1, create);
        }
      }
      forall i, name | 0 <= i < |requests| && MeetsConflict(schema, targets, data, cat, requests, i, name)
        ensures EnsureAll(schema, targets, data, cat, requests).failed
      {
        if i < |earlier| {
          assert MeetsConflict(schema, targets, data, cat, earlier, i, name);
        } else {
          assert name == create;
        }
      }
    }
  }

  ghost predicate MeetsConflict(schema: string, targets: seq<Target>, data: Data, cat: Catalog, requests: seq<Request>, i: int,
                                name: string)
    requires 0 <= i < |requests|
  {
    Conflicts(schema, targets, data, EnsureAll(schema, targets, data, cat, requests[..i]), requests[i], name)
  }

  /** No index comes from a request whose rows conflict with it. */
  lemma {:induction false} CreatedWithoutConflict(schema: string, targets: seq<Target>, data: Data, cat: Catalog,
                                                  requests: seq<Request>, n: string)
    requires Separate(targets)
    requires var st := EnsureAll(schema, targets, data, cat, requests); n in st.catalog && n !in cat
    ensures var st := EnsureAll(schema, targets, data, cat, requests);
            exists r :: r in requests && st.catalog[n] == r.shape && !(r.shape.unique && r.conflict in data.conflicts)
  {
    var earlier, r := requests[..|requests| - 1], requests[|requests| - 1];
    var st := EnsureAll(schema, targets, data, cat, earlier);
    assert requests == earlier + [r];
    if n in st.catalog {
      CreatedWithoutConflict(schema, targets, data, cat, earlier, n);
      assert EnsureAll(schema, targets, data, cat, requests).catalog[n] == st.catalog[n];
    } else {
      ResolvesToKnown(schema, targets, r.name, st.existing);
      assert r in requests;
    }
  }

  /** A target whose index stands under its cut historical name is left for the reconciler to rename. */
  lemma HistoricalSatisfies(schema: string, targets: seq<Target>, data: Data, st: Ensuring, r: Request, t: Target)
    requires Separate(targets) && t in targets && r.name == schema + t.legacySuffix
    requires LegacyIdentifier(schema, t) in st.existing
    ensures EnsureStep(schema, targets, data, st, r) == st
  {
    ResolvesToKnown(schema, targets, r.name, st.existing);
    assert Known(schema, targets, r.name, st.existing);
  }

  /** A request under a target's historical name asks for that target's index; no other asks for one. */
  ghost predicate GoodRequest(schema: string, targets: seq<Target>, r: Request) {
    match FindTarget(schema, targets, r.name)
    case Some(t) => r.shape == t.shape && Truncate(TargetIdentifier(schema, t)) == TargetIdentifier(schema, t)
    case None =>
      && Truncate(r.name) == r.name
      && forall t :: t in targets ==> r.name != TargetIdentifier(schema, t) && r.shape != t.shape
  }

  ghost predicate GoodRequests(schema: string, targets: seq<Target>, requests: seq<Request>) {
    forall r :: r in requests ==> GoodRequest(schema, targets, r)
  }

  ghost predicate AllPresent(data: Data, targets: seq<Target>) {
    forall t :: t in targets ==> Present(data, t)
  }

  /** Names that are requested but belong to no target do not hold a target's index. */
  ghost predicate OthersApart(schema: string, targets: seq<Target>, requests: seq<Request>, cat: Catalog) {
    forall r, t :: r in requests && t in targets && FindTarget(schema, targets, r.name).None? && r.name in cat ==>
      cat[r.name] != t.shape
  }

  /** Every target is there under its canonical name, with no duplicate. */
  ghost predicate Settled(schema: string, targets: seq<Target>, cat: Catalog) {
    forall data, t {:trigger KindOf(schema, data, cat, t)} :: t in targets && Present(data, t) ==>
      KindOf(schema, data, cat, t) == Correct
  }

  lemma {:induction false} FoundTarget(schema: string, targets: seq<Target>, requested: string)
    ensures var t := FindTarget(schema, targets, requested);
            if t.Some? then t.value in targets && schema + t.value.legacySuffix == requested
            else forall u :: u in targets ==> schema + u.legacySuffix != requested
  {
    if targets != [] && schema + targets[0].legacySuffix != requested {
      FoundTarget(schema, targets[1..], requested);
      assert targets == [targets[0]] + targets[1..];
    }
  }

  /** A target's own historical name resolves to that target, although truncated names may coincide. */
  lemma OwnNameResolves(schema: string, targets: seq<Target>, t: Target)
    requires Separate(targets) && t in targets
    ensures FindTarget(schema, targets, schema + t.legacySuffix) == Some(t)
  {
    FoundTarget(schema, targets, schema + t.legacySuffix);
    var u := FindTarget(schema, targets, schema + t.legacySuffix).value;
    assert (schema + u.legacySuffix)[|schema|..] == u.legacySuffix;
    assert (schema + t.legacySuffix)[|schema|..] == t.legacySuffix;
    if u != t {
      DifferentTargets(targets, t, u);
    }
  }

  // ----------------------------------------------------------- the ensure phase

  ghost predicate EnsureInv(schema: string, targets: seq<Target>, cat: Catalog, st: Ensuring) {
    && WellFormed(schema, targets, st.catalog)
    && st.existing == st.catalog.Keys
    && (forall n :: n in cat ==> n in st.catalog && st.catalog[n] == cat[n])
  }

  lemma {:induction false} EnsureKeepsCatalog(schema: string, targets: seq<Target>, data: Data, cat: Catalog, requests: seq<Request>)
    requires Separate(targets) && WellFormed(schema, targets, cat) && GoodRequests(schema, targets, requests)
    ensures EnsureInv(schema, targets, cat, EnsureAll(schema, targets, data, cat, requests))
  {
    if requests != [] {
      var earlier, r := requests[..|requests| - 1], requests[|requests| - 1];
      EnsureKeepsCatalog(schema, targets, data, cat, earlier);
      assert r in requests;
      EnsureStepKeeps(schema, targets, data, cat, EnsureAll(schema, targets, data, cat, earlier), r);
    }
  }

  lemma EnsureStepKeeps(schema: string, targets: seq<Target>, data: Data, cat: Catalog, st: Ensuring, r: Request)
    requires Separate(targets) && GoodRequest(schema, targets, r) && EnsureInv(schema, targets, cat, st)
    ensures EnsureInv(schema, targets, cat, EnsureStep(schema, targets, data, st, r))
  {
    FoundTarget(schema, targets, r.name);
    var create := ResolveIndexName(schema, targets, r.name).create;
    assert Truncate(create) == create;
    forall u | u in targets && TargetIdentifier(schema, u) == create ensures r.shape == u.shape {
      var t := FindTarget(schema, targets, r.name);
      if t.Some? && t.value != u {
        DifferentTargets(targets, t.value, u);
        SuffixDecides(schema, t.value, u);
      }
    }
  }

  /** In a settled schema no request creates a canonical name, and the schema stays settled. */
  lemma {:induction false} EnsureIsQuiet(schema: string, targets: seq<Target>, data: Data, cat: Catalog, requests: seq<Request>,
                                         some: Data)
    requires Separate(targets) && WellFormed(schema, targets, cat) && GoodRequests(schema, targets, requests)
    requires Settled(schema, targets, cat) && AllPresent(some, targets)
    ensures var st := EnsureAll(schema, targets, data, cat, requests);
            && Settled(schema, targets, st.catalog)
            && forall t, n :: t in targets && n in st.issued ==> n != TargetIdentifier(schema, t)
  {
    if requests != [] {
      var earlier, r := requests[..|requests| - 1], requests[|requests| - 1];
      EnsureKeepsCatalog(schema, targets, data, cat, earlier);
      EnsureIsQuiet(schema, targets, data, cat, earlier, some);
      assert r in requests;
      QuietStep(schema, targets, data, EnsureAll(schema, targets, data, cat, earlier), r, some);
    }
  }

  lemma QuietStep(schema: string, targets: seq<Target>, data: Data, st: Ensuring, r: Request, some: Data)
    requires GoodRequest(schema, targets, r) && WellFormed(schema, targets, st.catalog)
    requires Settled(schema, targets, st.catalog) && AllPresent(some, targets) && st.existing == st.catalog.Keys
    ensures var next := EnsureStep(schema, targets, data, st, r);
            && Settled(schema, targets, next.catalog)
            && (next.issued == st.issued ||
                (next.issued == st.issued + [r.name] && FindTarget(schema, targets, r.name).None?))
  {
    FoundTarget(schema, targets, r.name);
    var resolved := ResolveIndexName(schema, targets, r.name);
    match FindTarget(schema, targets, r.name)
    case Some(t) =>
      assert KindOf(schema, some, st.catalog, t) == Correct;
      assert resolved.satisfiedBy[0] in st.existing;
    case None =>
      var next := EnsureStep(schema, targets, data, st, r);
      forall d, t | t in targets && Present(d, t) ensures KindOf(schema, d, next.catalog, t) == Correct {
        assert KindOf(schema, d, st.catalog, t) == Correct;
      }
  }

  // ------------------------------------------------------------- the whole pass

  lemma {:induction false} NonePlanned(schema: string, data: Data, targets: seq<Target>, cat: Catalog, n: nat, kinds: set<Kind>)
    requires n <= |targets|
    ensures Planned(schema, data, targets, cat, n, kinds) == [] <==>
            forall j :: 0 <= j < n ==> KindOf(schema, data, cat, targets[j]) !in kinds
  {
    if n > 0 {
      NonePlanned(schema, data, targets, cat, n - 1, kinds);
    }
  }

  /** A reconciliation that blocks nothing, with every table and column there, settles the schema. */
  lemma RunSettles(schema: string, data: Data, targets: seq<Target>, cats: seq<Catalog>)
    requires Separate(targets) && IsRun(schema, data, targets, cats, |targets|) && WellFormed(schema, targets, cats[0])
    requires AllPresent(data, targets) && Planned(schema, data, targets, cats[0], |targets|, {Blocks}) == []
    ensures WellFormed(schema, targets, cats[|targets|]) && Settled(schema, targets, cats[|targets|])
  {
    NonePlanned(schema, data, targets, cats[0], |targets|, {Blocks});
    forall other, t | t in targets && Present(other, t) ensures KindOf(schema, other, cats[|targets|], t) == Correct {
      var j :| 0 <= j < |targets| && targets[j] == t;
      RunFollowsFirstPlan(schema, data, targets, cats, |targets|, other, j);
    }
    forall t | t in targets && TargetIdentifier(schema, t) in cats[|targets|]
      ensures cats[|targets|][TargetIdentifier(schema, t)] == t.shape
    {
      var j :| 0 <= j < |targets| && targets[j] == t;
      RunFollowsFirstPlan(schema, data, targets, cats, |targets|, data, j);
    }
  }

  /** In a settled schema the reconciler finds every target correct and changes nothing. */
  lemma SettledReport(schema: string, data: Data, targets: seq<Target>, cat: Catalog)
    requires Settled(schema, targets, cat) && AllPresent(data, targets)
    ensures var r := ReportOf(schema, data, targets, cat, |targets|);
            r.renamed == [] && r.created == [] && r.droppedRedundant == [] && r.blocked == [] && r.skipped == []
  {
    var n := |targets|;
    NonePlanned(schema, data, targets, cat, n, {Renames});
    NonePlanned(schema, data, targets, cat, n, {Creates});
    NonePlanned(schema, data, targets, cat, n, {Redundant});
    NonePlanned(schema, data, targets, cat, n, {Blocks});
    NonePlanned(schema, data, targets, cat, n, {Skipped});
  }

  /** A name that no target's plan may take away outlasts a reconciliation, with what it indexes. */
  lemma {:induction false} RunKeepsUnremovable(schema: string, data: Data, targets: seq<Target>, cats: seq<Catalog>, n: nat,
                                               name: string, j: nat)
    requires Separate(targets) && IsRun(schema, data, targets, cats, n) && WellFormed(schema, targets, cats[0])
    requires name in cats[0] && forall t :: t in targets ==> !Removable(schema, data, cats[0], t, name)
    ensures name in cats[n] && cats[n][name] == cats[0][name]
    ensures n <= j < |targets| ==> !Removable(schema, data, cats[n], targets[j], name)
    decreases n
  {
    if n > 0 {
      var t, before, after := targets[n - 1], cats[n - 1], cats[n];
      RunStarts(schema, data, targets, cats, n);
      RunKeepsUnremovable(schema, data, targets, cats[..n], n - 1, name, n - 1);
      RunKeepsUnremovable(schema, data, targets, cats[..n], n - 1, name, j);
      RunFollowsFirstPlan(schema, data, targets, cats[..n], n - 1, data, n - 1);
      ActsRemovesOnlyRemovable(schema, data, before, t, after, name);
      if n <= j < |targets| {
        assert n - 1 < j && t != targets[j];
        OthersRemovableAlike(schema, data, targets, before, t, after, targets[j], name);
      }
    }
  }

  /** If some target's plan may take a name away, some reconciliation does. */
  lemma RunThatRemoves(schema: string, data: Data, targets: seq<Target>, cat: Catalog, t: Target, name: string)
    returns (cats: seq<Catalog>)
    requires Separate(targets) && WellFormed(schema, targets, cat) && t in targets && Removable(schema, data, cat, t, name)
    ensures IsRun(schema, data, targets, cats, |targets|) && cats[0] == cat && name !in cats[|targets|]
  {
    var j: nat :| j < |targets| && targets[j] == t;
    cats := RunRemovingAt(schema, data, targets, cat, j, name, |targets|);
  }

  lemma {:induction false} RunRemovingAt(schema: string, data: Data, targets: seq<Target>, cat: Catalog, j: nat, name: string,
                                         n: nat)
    returns (cats: seq<Catalog>)
    requires Separate(targets) && WellFormed(schema, targets, cat) && j < |targets| && n <= |targets|
    requires Removable(schema, data, cat, targets[j], name)
    ensures IsRun(schema, data, targets, cats, n) && cats[0] == cat && WellFormed(schema, targets, cats[n])
    ensures if n <= j then Removable(schema, data, cats[n], targets[j], name) else name !in cats[n]
    decreases n
  {
    if n == 0 {
      return [cat];
    }
    cats := RunRemovingAt(schema, data, targets, cat, j, name, n - 1);
    var t, before := targets[n - 1], cats[n - 1];
    var next;
    if n - 1 == j {
      next := ActRemoving(schema, data, before, t, name);
    } else {
      next := SomeAct(schema, data, before, t);
    }
    ActsKeepsCatalog(schema, data, targets, before, t, next);
    if n - 1 < j {
      assert t != targets[j];
      OthersRemovableAlike(schema, data, targets, before, t, next, targets[j], name);
    } else if j < n - 1 {
      assert t != targets[j] && t.shape != targets[j].shape;
      ActsTouchesOwnShape(schema, data, before, t, next);
      assert name != TargetIdentifier(schema, t);
    }
    RunExtends(schema, data, targets, cats, n - 1, next);
    cats := cats + [next];
  }

  /** A reconciliation from one catalog to another. */
  ghost predicate LeadsTo(schema: string, data: Data, targets: seq<Target>, cats: seq<Catalog>, from: Catalog, to: Catalog) {
    IsRun(schema, data, targets, cats, |targets|) && cats[0] == from && cats[|targets|] == to
  }

  datatype Pass = Failed | Finished(issued: seq<string>, report: Report)

  /** The requests, then the reconciler; fails on a failing create or a blocked target. */
  method IndexPass(ix: TenantIndexes, data: Data, requests: seq<Request>) returns (p: Pass)
    requires ix.Valid() && GoodRequests(ix.schema, ix.targets, requests)
    modifies ix
    ensures ix.Valid()
    ensures var st := EnsureAll(ix.schema, ix.targets, data, old(ix.catalog), requests);
            var report := ReportOf(ix.schema, data, ix.targets, st.catalog, |ix.targets|);
            && p == (if st.failed || report.blocked != [] then Failed else Finished(st.issued, report))
            && (st.failed ==> ix.catalog == st.catalog)
            && (!st.failed ==> exists cats :: LeadsTo(ix.schema, data, ix.targets, cats, st.catalog, ix.catalog))
  {
    var st := EnsureIndexes(ix, data, requests);
    EnsureKeepsCatalog(ix.schema, ix.targets, data, old(ix.catalog), requests);
    ix.catalog := st.catalog;
    if st.failed {
      return Failed;
    }
    var report := ix.ReconcileTenantIndexNames(data);
    ghost var cats :| IsRun(ix.schema, data, ix.targets, cats, |ix.targets|) && cats[0] == st.catalog &&
      cats[|ix.targets|] == ix.catalog;
    assert LeadsTo(ix.schema, data, ix.targets, cats, st.catalog, ix.catalog);
    if report.blocked != [] {
      return Failed;
    }
    p := Finished(st.issued, report);
  }

  method EnsureIndexes(ix: TenantIndexes, data: Data, requests: seq<Request>) returns (st: Ensuring)
    ensures st == EnsureAll(ix.schema, ix.targets, data, ix.catalog, requests)
  {
    st := Ensuring(ix.catalog, ix.catalog.Keys, [], false);
    for i := 0 to |requests|
      invariant st == EnsureAll(ix.schema, ix.targets, data, ix.catalog, requests[..i])
    {
      assert requests[..i + 1][..i] == requests[..i];
      if !st.failed {
        var resolved := ResolveIndexName(ix.schema, ix.targets, requests[i].name);
        if !Satisfied(resolved, st.existing) {
          var name := Truncate(resolved.create);
          st := st.(issued := st.issued + [resolved.create]);
          if name in st.catalog {
            st := st.(existing := st.existing + {resolved.create});
          } else if requests[i].shape.unique && requests[i].conflict in data.conflicts {
            st := st.(failed := true);
          } else {
            st := st.(catalog := st.catalog[name := requests[i].shape], existing := st.existing + {resolved.create});
          }
        }
      }
    }
    assert requests[..|requests|] == requests;
  }

  /**
   * Once a pass has gone through, another one, over any later data, creates,
   * renames and drops nothing for any target.
   */
  lemma SecondPassIsQuiet(schema: string, targets: seq<Target>, data: Data, cats: seq<Catalog>, later: Data, requests: seq<Request>)
    requires Separate(targets) && GoodRequests(schema, targets, requests)
    requires AllPresent(data, targets) && AllPresent(later, targets)
    requires IsRun(schema, data, targets, cats, |targets|) && WellFormed(schema, targets, cats[0])
    requires ReportOf(schema, data, targets, cats[0], |targets|).blocked == []
    ensures var st := EnsureAll(schema, targets, later, cats[|targets|], requests);
            var report := ReportOf(schema, later, targets, st.catalog, |targets|);
            && (forall t, n :: t in targets && n in st.issued ==> n != TargetIdentifier(schema, t))
            && report.created == [] && report.renamed == [] && report.droppedRedundant == [] && report.blocked == []
  {
    RunSettles(schema, data, targets, cats);
    EnsureIsQuiet(schema, targets, later, cats[|targets|], requests, later);
    SettledReport(schema, later, targets, EnsureAll(schema, targets, later, cats[|targets|], requests).catalog);
  }

  // ------------------------------------------------------------ a silent pass

  /** Once the requests have gone through, every requested name that is no target's is there. */
  lemma {:induction false} EnsureHoldsOthers(schema: string, targets: seq<Target>, data: Data, cat: Catalog,
                                             requests: seq<Request>)
    requires Separate(targets) && WellFormed(schema, targets, cat) && GoodRequests(schema, targets, requests)
    requires !EnsureAll(schema, targets, data, cat, requests).failed
    ensures var st := EnsureAll(schema, targets, data, cat, requests);
            forall r :: r in requests && FindTarget(schema, targets, r.name).None? ==> r.name in st.catalog
  {
    if requests != [] {
      var earlier, r := requests[..|requests| - 1], requests[|requests| - 1];
      var st := EnsureAll(schema, targets, data, cat, earlier);
      EnsureKeepsCatalog(schema, targets, data, cat, earlier);
      EnsureHoldsOthers(schema, targets, data, cat, earlier);
      assert GoodRequest(schema, targets, r) && requests == earlier + [r];
      HeldStays(schema, targets, data, st, r);
    }
  }

  lemma HeldStays(schema: string, targets: seq<Target>, data: Data, st: Ensuring, r: Request)
    requires GoodRequest(schema, targets, r) && st.existing == st.catalog.Keys
    ensures var next := EnsureStep(schema, targets, data, st, r);
            && (forall n :: n in st.catalog ==> n in next.catalog)
            && (!next.failed && FindTarget(schema, targets, r.name).None? ==> r.name in next.catalog)
  {}

  /** Requests create no index of a target's shape under another requested name. */
  lemma {:induction false} EnsureKeepsOthersApart(schema: string, targets: seq<Target>, data: Data, cat: Catalog,
                                                  requests: seq<Request>, all: seq<Request>)
    requires Separate(targets) && WellFormed(schema, targets, cat) && GoodRequests(schema, targets, all)
    requires OthersApart(schema, targets, all, cat) && forall r :: r in requests ==> r in all
    ensures OthersApart(schema, targets, all, EnsureAll(schema, targets, data, cat, requests).catalog)
  {
    if requests != [] {
      var earlier, r := requests[..|requests| - 1], requests[|requests| - 1];
      EnsureKeepsOthersApart(schema, targets, data, cat, earlier, all);
      assert r in requests;
      OthersStep(schema, targets, data, EnsureAll(schema, targets, data, cat, earlier), r, all);
    }
  }

  lemma OthersStep(schema: string, targets: seq<Target>, data: Data, st: Ensuring, r: Request, all: seq<Request>)
    requires GoodRequests(schema, targets, all) && r in all && OthersApart(schema, targets, all, st.catalog)
    ensures OthersApart(schema, targets, all, EnsureStep(schema, targets, data, st, r).catalog)
  {
    var next := EnsureStep(schema, targets, data, st, r);
    var found := FindTarget(schema, targets, r.name);
    FoundTarget(schema, targets, r.name);
    assert GoodRequest(schema, targets, r);
    forall q, t | q in all && t in targets && FindTarget(schema, targets, q.name).None? && q.name in next.catalog
      ensures next.catalog[q.name] != t.shape
    {
      assert GoodRequest(schema, targets, q);
      assert found.Some? ==> q.name != TargetIdentifier(schema, found.value);
    }
  }

  lemma {:induction false} SatisfiedRequestsIssueNothing(schema: string, targets: seq<Target>, data: Data, cat: Catalog,
                                                         requests: seq<Request>)
    requires forall r :: r in requests ==> Satisfied(ResolveIndexName(schema, targets, r.name), cat.Keys)
    ensures EnsureAll(schema, targets, data, cat, requests) == Ensuring(cat, cat.Keys, [], false)
  {
    if requests != [] {
      SatisfiedRequestsIssueNothing(schema, targets, data, cat, requests[..|requests| - 1]);
      assert requests[|requests| - 1] in requests;
    }
  }

  lemma {:induction false} NothingIssuedIsNothingDone(schema: string, targets: seq<Target>, data: Data, cat: Catalog,
                                                      requests: seq<Request>)
    requires EnsureAll(schema, targets, data, cat, requests).issued == []
    ensures EnsureAll(schema, targets, data, cat, requests) == Ensuring(cat, cat.Keys, [], false)
    ensures forall r :: r in requests && FindTarget(schema, targets, r.name).None? ==> r.name in cat
  {
    if requests != [] {
      NothingIssuedIsNothingDone(schema, targets, data, cat, requests[..|requests| - 1]);
      assert requests == requests[..|requests| - 1] + [requests[|requests| - 1]];
    }
  }

  /** No requested name that is no target's is one the reconciler may rename or drop. */
  ghost predicate OthersStay(schema: string, targets: seq<Target>, data: Data, requests: seq<Request>, cat: Catalog) {
    forall r, t :: r in requests && t in targets && FindTarget(schema, targets, r.name).None? ==>
      !Removable(schema, data, cat, t, r.name)
  }

  /** Enough for that before the first request: no index under such a name has a target's shape. */
  lemma ApartBeforeStay(schema: string, targets: seq<Target>, data: Data, cat: Catalog, requests: seq<Request>)
    requires Separate(targets) && WellFormed(schema, targets, cat) && GoodRequests(schema, targets, requests)
    requires OthersApart(schema, targets, requests, cat)
    ensures OthersStay(schema, targets, data, requests, EnsureAll(schema, targets, data, cat, requests).catalog)
  {
    EnsureKeepsOthersApart(schema, targets, data, cat, requests, requests);
  }

  /** What every request finds at the end of a pass, when the other names are still there. */
  lemma SettledIsSilent(schema: string, targets: seq<Target>, end: Catalog, later: Data, requests: seq<Request>, some: Data)
    requires Settled(schema, targets, end) && AllPresent(some, targets)
    requires forall r :: r in requests && FindTarget(schema, targets, r.name).None? ==> r.name in end
    ensures EnsureAll(schema, targets, later, end, requests) == Ensuring(end, end.Keys, [], false)
  {
    forall r | r in requests ensures Satisfied(ResolveIndexName(schema, targets, r.name), end.Keys) {
      FoundTarget(schema, targets, r.name);
      var resolved := ResolveIndexName(schema, targets, r.name);
      match FindTarget(schema, targets, r.name)
      case Some(t) =>
        assert KindOf(schema, some, end, t) == Correct;
        assert resolved.satisfiedBy[0] in end.Keys;
      case None =>
        assert resolved.satisfiedBy[0] in end.Keys;
    }
    SatisfiedRequestsIssueNothing(schema, targets, later, end, requests);
  }

  /** When the other requested names stay, the second pass issues no create at all. */
  lemma SecondPassIsSilent(schema: string, targets: seq<Target>, data: Data, start: Catalog, cats: seq<Catalog>,
                           end: Catalog, later: Data, requests: seq<Request>)
    requires Separate(targets) && GoodRequests(schema, targets, requests) && AllPresent(data, targets)
    requires WellFormed(schema, targets, start) && !EnsureAll(schema, targets, data, start, requests).failed
    requires LeadsTo(schema, data, targets, cats, EnsureAll(schema, targets, data, start, requests).catalog, end)
    requires OthersStay(schema, targets, data, requests, cats[0])
    requires ReportOf(schema, data, targets, cats[0], |targets|).blocked == []
    ensures EnsureAll(schema, targets, later, end, requests) == Ensuring(end, end.Keys, [], false)
  {
    EnsureKeepsCatalog(schema, targets, data, start, requests);
    EnsureHoldsOthers(schema, targets, data, start, requests);
    RunSettles(schema, data, targets, cats);
    forall r | r in requests && FindTarget(schema, targets, r.name).None? ensures r.name in end {
      RunKeepsUnremovable(schema, data, targets, cats, |targets|, r.name, 0);
    }
    SettledIsSilent(schema, targets, end, later, requests, data);
  }

  /**
   * After a pass that succeeded, the requests of the next one issue nothing,
   * whatever order the reconciler read the indexes in, if and only if it could
   * not have renamed or dropped an index under another requested name.
   */
  lemma SecondPassIsSilentIff(schema: string, targets: seq<Target>, data: Data, start: Catalog, later: Data,
                              requests: seq<Request>)
    requires Separate(targets) && GoodRequests(schema, targets, requests) && AllPresent(data, targets)
    requires WellFormed(schema, targets, start) && !EnsureAll(schema, targets, data, start, requests).failed
    requires var asked := EnsureAll(schema, targets, data, start, requests).catalog;
             ReportOf(schema, data, targets, asked, |targets|).blocked == []
    ensures var asked := EnsureAll(schema, targets, data, start, requests).catalog;
            (forall cats, end :: LeadsTo(schema, data, targets, cats, asked, end) ==>
              EnsureAll(schema, targets, later, end, requests).issued == [])
            <==> OthersStay(schema, targets, data, requests, asked)
  {
    var asked := EnsureAll(schema, targets, data, start, requests).catalog;
    EnsureKeepsCatalog(schema, targets, data, start, requests);
    if OthersStay(schema, targets, data, requests, asked) {
      forall cats, end | LeadsTo(schema, data, targets, cats, asked, end)
        ensures EnsureAll(schema, targets, later, end, requests).issued == []
      {
        SecondPassIsSilent(schema, targets, data, start, cats, end, later, requests);
      }
    } else {
      var r, t :| r in requests && t in targets && FindTarget(schema, targets, r.name).None? &&
        Removable(schema, data, asked, t, r.name);
      var cats := RunThatRemoves(schema, data, targets, asked, t, r.name);
      assert LeadsTo(schema, data, targets, cats, asked, cats[|targets|]);
      if EnsureAll(schema, targets, later, cats[|targets|], requests).issued == [] {
        NothingIssuedIsNothingDone(schema, targets, later, cats[|targets|], requests);
      }
    }
  }

  lemma {:induction false} SettledRunIsIdle(schema: string, data: Data, targets: seq<Target>, cats: seq<Catalog>, n: nat)
    requires IsRun(schema, data, targets, cats, n) && Settled(schema, targets, cats[0]) && AllPresent(data, targets)
    ensures cats[n] == cats[0]
    decreases n
  {
    if n > 0 {
      RunStarts(schema, data, targets, cats, n);
      SettledRunIsIdle(schema, data, targets, cats[..n], n - 1);
      var t := targets[n - 1];
      var rows :| IsListing(cats[n - 1], t.shape.table, rows) &&
        Apply(cats[n - 1], t, Plan(schema, data, cats[n - 1], t, rows)) == Ok(cats[n]);
      PlanHasKind(schema, data, cats[n - 1], t, rows);
      assert KindOf(schema, data, cats[n - 1], t) == Correct;
    }
  }

  /**
   * Two passes in a row. If the first goes through, the second does nothing for
   * any target, and can fail only in creating another index; if moreover the
   * other requested names stay, it goes through and issues no statement.
   */
  method PassTwice(ix: TenantIndexes, data: Data, later: Data, requests: seq<Request>) returns (first: Pass, second: Pass)
    requires ix.Valid() && GoodRequests(ix.schema, ix.targets, requests)
    requires AllPresent(data, ix.targets) && AllPresent(later, ix.targets)
    modifies ix
    ensures ix.Valid()
    ensures first.Finished? ==> Settled(ix.schema, ix.targets, ix.catalog)
    ensures first.Finished? && second.Finished? ==>
              && (forall t, n :: t in ix.targets && n in second.issued ==> n != TargetIdentifier(ix.schema, t))
              && DoesNothing(second.report)
    ensures var asked := EnsureAll(ix.schema, ix.targets, data, old(ix.catalog), requests).catalog;
            first.Finished? && OthersStay(ix.schema, ix.targets, data, requests, asked) ==>
              second.Finished? && second.issued == [] && DoesNothing(second.report)
  {
    ghost var start := ix.catalog;
    first := IndexPass(ix, data, requests);
    ghost var between := ix.catalog;
    second := IndexPass(ix, later, requests);
    if first.Finished? {
      ghost var asked := EnsureAll(ix.schema, ix.targets, data, start, requests).catalog;
      ghost var cats :| LeadsTo(ix.schema, data, ix.targets, cats, asked, between);
      EnsureKeepsCatalog(ix.schema, ix.targets, data, start, requests);
      RunSettles(ix.schema, data, ix.targets, cats);
      EnsureIsQuiet(ix.schema, ix.targets, later, between, requests, later);
      ghost var again := EnsureAll(ix.schema, ix.targets, later, between, requests).catalog;
      SettledReport(ix.schema, later, ix.targets, again);
      if second.Finished? {
        ghost var idle :| LeadsTo(ix.schema, later, ix.targets, idle, again, ix.catalog);
        SettledRunIsIdle(ix.schema, later, ix.targets, idle, |ix.targets|);
      }
      if OthersStay(ix.schema, ix.targets, data, requests, asked) {
        SecondPassIsSilent(ix.schema, ix.targets, data, start, cats, between, later, requests);
      }
    }
  }

  /** A report of a reconciliation that issued no statement and skipped no target. */
  predicate DoesNothing(r: Report) {
    r.renamed == [] && r.created == [] && r.droppedRedundant == [] && r.blocked == [] && r.skipped == []
  }
}
