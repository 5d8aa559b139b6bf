/**
 * When preflight and reconciliation agree. Preflight plans every target against
 * the catalog as it is, reconciliation against the catalog it is changing, and
 * in a catalog where one target's canonical name holds another target's index
 * the two can differ.
 */
module TenantIndexAgreement {
  import opened Wrappers
  import opened TenantIndexNames

  ghost predicate NamesOnTable(schema: string, targets: seq<Target>, cat: Catalog) {
    forall t :: t in targets ==> OnTable(schema, cat, t)
  }

  /** Acting on `t` may take away the canonical name by which `u` passes for correct. */
  ghost predicate Theft(schema: string, data: Data, cat: Catalog, t: Target, u: Target) {
    var name := TargetIdentifier(schema, u);
    && Present(data, u) && name in cat && cat[name].table == u.shape.table
    && Removable(schema, data, cat, t, name)
  }

  /** None of the first `n` targets may do that to a later one. */
  ghost predicate Honest(schema: string, data: Data, targets: seq<Target>, cat: Catalog, n: nat) {
    forall i, j :: 0 <= i < n && i < j < |targets| ==> !Theft(schema, data, cat, targets[i], targets[j])
  }

  lemma WellFormedIsHonest(schema: string, data: Data, targets: seq<Target>, cat: Catalog)
    requires Separate(targets) && WellFormed(schema, targets, cat)
    ensures NamesOnTable(schema, targets, cat) && Honest(schema, data, targets, cat, |targets|)
  {
    forall i, j | 0 <= i < |targets| && i < j < |targets|
      ensures !Theft(schema, data, cat, targets[i], targets[j])
    {
      assert targets[j] in targets && targets[i].shape != targets[j].shape;
    }
  }

  /** Over any catalog: a step changes the kind of another target's plan exactly when it takes its canonical name away. */
  lemma StepChangesPlanIff(schema: string, data: Data, cat: Catalog, t: Target, next: Catalog, u: Target)
    requires Acts(schema, data, cat, t, next) && t.suffix != u.suffix && t.shape != u.shape
    ensures var name := TargetIdentifier(schema, u);
            KindOf(schema, data, next, u) != KindOf(schema, data, cat, u) <==>
            Present(data, u) && name in cat && cat[name].table == u.shape.table && name !in next
  {
    ActsTouchesOwnShape(schema, data, cat, t, next);
    SuffixDecides(schema, t, u);
    SameHolders(schema, data, cat, t, next, u);
  }

  /** Acting on a target leaves the indexes of any other shape where they are. */
  lemma SameHolders(schema: string, data: Data, cat: Catalog, t: Target, next: Catalog, u: Target)
    requires Acts(schema, data, cat, t, next) && t.shape != u.shape
    ensures forall n :: n in cat && cat[n] == u.shape <==> n in next && next[n] == u.shape
    ensures HasShape(cat, u.shape) <==> HasShape(next, u.shape)
  {
    ActsTouchesOwnShape(schema, data, cat, t, next);
    assert forall n :: n in cat && cat[n] == u.shape <==> n in next && next[n] == u.shape;
  }

  /** The canonical name of a target that is not robbed is there after a step exactly when it was before. */
  lemma NameStays(schema: string, data: Data, cat: Catalog, t: Target, next: Catalog, u: Target)
    requires Acts(schema, data, cat, t, next) && t.suffix != u.suffix
    requires OnTable(schema, cat, u) && Present(data, u) && !Theft(schema, data, cat, t, u)
    ensures TargetIdentifier(schema, u) in cat <==> TargetIdentifier(schema, u) in next
  {
    ActsTouchesOwnShape(schema, data, cat, t, next);
    SuffixDecides(schema, t, u);
    var name := TargetIdentifier(schema, u);
    if name in cat && name !in next {
      assert !Removable(schema, data, cat, t, name);
      ActsRemovesOnlyRemovable(schema, data, cat, t, next, name);
    }
  }

  lemma TheftAlike(schema: string, data: Data, cat: Catalog, t: Target, next: Catalog, u: Target, w: Target)
    requires Acts(schema, data, cat, t, next)
    requires t.suffix != u.suffix && t.suffix != w.suffix && t.shape != u.shape
    requires OnTable(schema, cat, u) && !Theft(schema, data, cat, t, u)
    ensures Theft(schema, data, next, u, w) <==> Theft(schema, data, cat, u, w)
  {
    SameHolders(schema, data, cat, t, next, u);
    if Present(data, u) {
      NameStays(schema, data, cat, t, next, u);
    }
  }

  lemma StaysOnTable(schema: string, data: Data, targets: seq<Target>, cat: Catalog, t: Target, next: Catalog)
    requires Separate(targets) && t in targets && NamesOnTable(schema, targets, cat) && Acts(schema, data, cat, t, next)
    ensures NamesOnTable(schema, targets, next)
  {
    ActsTouchesOwnShape(schema, data, cat, t, next);
    forall u | u in targets ensures OnTable(schema, next, u) {
      if u != t {
        DifferentTargets(targets, t, u);
        SuffixDecides(schema, t, u);
      }
    }
  }

  /** What a step on target `n` keeps for the ones after it, when it cannot rob them. */
  lemma HonestStep(schema: string, data: Data, targets: seq<Target>, cat: Catalog, n: nat, next: Catalog)
    requires Separate(targets) && n < |targets| && NamesOnTable(schema, targets, cat)
    requires Acts(schema, data, cat, targets[n], next)
    requires forall j :: n < j < |targets| ==> !Theft(schema, data, cat, targets[n], targets[j])
    ensures NamesOnTable(schema, targets, next)
    ensures forall j :: n < j < |targets| ==> KindOf(schema, data, next, targets[j]) == KindOf(schema, data, cat, targets[j])
    ensures forall i, j :: n < i < j < |targets| ==>
              (Theft(schema, data, next, targets[i], targets[j]) <==> Theft(schema, data, cat, targets[i], targets[j]))
  {
    var t := targets[n];
    StaysOnTable(schema, data, targets, cat, t, next);
    forall j | n < j < |targets| ensures KindOf(schema, data, next, targets[j]) == KindOf(schema, data, cat, targets[j]) {
      assert targets[j] in targets;
      StepChangesPlanIff(schema, data, cat, t, next, targets[j]);
      if Present(data, targets[j]) {
        NameStays(schema, data, cat, t, next, targets[j]);
      }
    }
    forall i, j | n < i < j < |targets|
      ensures Theft(schema, data, next, targets[i], targets[j]) <==> Theft(schema, data, cat, targets[i], targets[j])
    {
      assert targets[i] in targets;
      TheftAlike(schema, data, cat, t, next, targets[i], targets[j]);
    }
  }

  /** While no theft is possible, reconciliation follows the first catalog. */
  lemma {:induction false} HonestRun(schema: string, data: Data, targets: seq<Target>, cats: seq<Catalog>, n: nat)
    requires Separate(targets) && IsRun(schema, data, targets, cats, n)
    requires NamesOnTable(schema, targets, cats[0]) && Honest(schema, data, targets, cats[0], n)
    ensures NamesOnTable(schema, targets, cats[n])
    ensures forall j :: n <= j < |targets| ==> KindOf(schema, data, cats[n], targets[j]) == KindOf(schema, data, cats[0], targets[j])
    ensures forall i, j :: n <= i < j < |targets| ==>
              (Theft(schema, data, cats[n], targets[i], targets[j]) <==> Theft(schema, data, cats[0], targets[i], targets[j]))
    decreases n
  {
    if n > 0 {
      RunStarts(schema, data, targets, cats, n);
      HonestRun(schema, data, targets, cats[..n], n - 1);
      HonestStep(schema, data, targets, cats[n - 1], n - 1, cats[n]);
    }
  }

  /** Any run can be taken further, where names are on their tables; a name no target brings in stays away. */
  lemma {:induction false} RunGoesOn(schema: string, data: Data, targets: seq<Target>, cats: seq<Catalog>, n: nat, m: nat,
                                     name: string)
    returns (longer: seq<Catalog>)
    requires Separate(targets) && n <= m <= |targets|
    requires IsRun(schema, data, targets, cats, n) && NamesOnTable(schema, targets, cats[n])
    ensures IsRun(schema, data, targets, longer, m) && longer[..n + 1] == cats && NamesOnTable(schema, targets, longer[m])
    ensures name !in cats[n] && (forall k :: n <= k < m ==> name != TargetIdentifier(schema, targets[k])) ==> name !in longer[m]
    decreases m
  {
    if m == n {
      return cats;
    }
    longer := RunGoesOn(schema, data, targets, cats, n, m - 1, name);
    var t, before := targets[m - 1], longer[m - 1];
    var next := SomeAct(schema, data, before, t);
    StaysOnTable(schema, data, targets, before, t, next);
    ActsTouchesOwnShape(schema, data, before, t, next);
    RunExtends(schema, data, targets, longer, m - 1, next);
    longer := longer + [next];
  }

  /** Every run plans each target, when it comes to it, as the first catalog does. */
  ghost predicate AlwaysAgrees(schema: string, data: Data, targets: seq<Target>, cat: Catalog) {
    forall cats, n: nat :: n < |targets| && IsRun(schema, data, targets, cats, n) && cats[0] == cat ==>
      KindOf(schema, data, cats[n], targets[n]) == KindOf(schema, data, cat, targets[n])
  }

  /** A theft shows: some run comes to the robbed target with another plan. */
  lemma TheftShows(schema: string, data: Data, targets: seq<Target>, cat: Catalog, i: nat, j: nat)
    requires Separate(targets) && NamesOnTable(schema, targets, cat) && i < j < |targets|
    requires Honest(schema, data, targets, cat, i) && Theft(schema, data, cat, targets[i], targets[j])
    ensures !AlwaysAgrees(schema, data, targets, cat)
  {
    var u, name := targets[j], TargetIdentifier(schema, targets[j]);
    var cats := RunGoesOn(schema, data, targets, [cat], 0, i, name);
    assert cats[0] == cats[..1][0] == cat;
    HonestRun(schema, data, targets, cats, i);
    assert targets[i] in targets;
    var next := ActRemoving(schema, data, cats[i], targets[i], name);
    StaysOnTable(schema, data, targets, cats[i], targets[i], next);
    RunExtends(schema, data, targets, cats, i, next);
    cats := cats + [next];
    forall k | i + 1 <= k < j ensures name != TargetIdentifier(schema, targets[k]) {
      SuffixDecides(schema, targets[k], u);
    }
    var longer := RunGoesOn(schema, data, targets, cats, i + 1, j, name);
    assert longer[0] == longer[..i + 2][0] == cat;
    assert KindOf(schema, data, cat, u) in {Correct, Redundant} && KindOf(schema, data, longer[j], u) !in {Correct, Redundant};
  }

  /**
   * Preflight is right about every order in which reconciliation may read the
   * indexes, if and only if no target's canonical name, as the catalog stands,
   * may be taken away by an earlier target. For catalogs whose canonical names
   * are on their tables, so that no statement fails.
   */
  lemma AgreementIff(schema: string, data: Data, targets: seq<Target>, cat: Catalog)
    requires Separate(targets) && NamesOnTable(schema, targets, cat)
    ensures AlwaysAgrees(schema, data, targets, cat) <==> Honest(schema, data, targets, cat, |targets|)
  {
    if Honest(schema, data, targets, cat, |targets|) {
      forall cats, n: nat | n < |targets| && IsRun(schema, data, targets, cats, n) && cats[0] == cat
        ensures KindOf(schema, data, cats[n], targets[n]) == KindOf(schema, data, cat, targets[n])
      {
        HonestRun(schema, data, targets, cats, n);
      }
    } else {
      var i := FirstThief(schema, data, targets, cat, |targets|);
      var j :| i < j < |targets| && Theft(schema, data, cat, targets[i], targets[j]);
      TheftShows(schema, data, targets, cat, i, j);
    }
  }

  lemma {:induction false} FirstThief(schema: string, data: Data, targets: seq<Target>, cat: Catalog, n: nat) returns (i: nat)
    requires n <= |targets| && !Honest(schema, data, targets, cat, n)
    ensures i < n && Honest(schema, data, targets, cat, i)
    ensures exists j :: i < j < |targets| && Theft(schema, data, cat, targets[i], targets[j])
  {
    if Honest(schema, data, targets, cat, n - 1) {
      i := n - 1;
    } else {
      i := FirstThief(schema, data, targets, cat, n - 1);
    }
  }

  /**
   * A catalog about which preflight is wrong: `t`'s only index stands under the
   * canonical name of `u`. Preflight announces a rename for `t` and finds `u`
   * correct; once `t` is renamed, `u` is to be created, or blocks the migration.
   */
  lemma PreflightMisleads(schema: string, data: Data, t: Target, u: Target)
    requires t.suffix != u.suffix && t.shape != u.shape && t.shape.table == u.shape.table
    requires Present(data, t) && Present(data, u)
    ensures var cat := map[TargetIdentifier(schema, u) := t.shape];
            && KindOf(schema, data, cat, t) == Renames && KindOf(schema, data, cat, u) == Correct
            && (exists next :: Acts(schema, data, cat, t, next))
            && (forall next :: Acts(schema, data, cat, t, next) ==>
                  KindOf(schema, data, next, u) == if u.shape.unique && u.suffix in data.conflicts then Blocks else Creates)
  {
    SuffixDecides(schema, t, u);
    var cat := map[TargetIdentifier(schema, u) := t.shape];
    assert cat[TargetIdentifier(schema, u)] == t.shape;
    var some := SomeAct(schema, data, cat, t);
    forall next | Acts(schema, data, cat, t, next)
      ensures KindOf(schema, data, next, u) == if u.shape.unique && u.suffix in data.conflicts then Blocks else Creates
    {
      var rows :| IsListing(cat, t.shape.table, rows) && Apply(cat, t, Plan(schema, data, cat, t, rows)) == Ok(next);
      PlanHasKind(schema, data, cat, t, rows);
    }
  }

  /** So for any two targets of one table, the later of them robbed by the earlier. */
  lemma MisledFrom(schema: string, data: Data, targets: seq<Target>, i: nat, j: nat)
    requires Separate(targets) && i < j < |targets| && targets[i].shape.table == targets[j].shape.table
    requires Present(data, targets[i]) && Present(data, targets[j])
    ensures !AlwaysAgrees(schema, data, targets, map[TargetIdentifier(schema, targets[j]) := targets[i].shape])
  {
    var t, u := targets[i], targets[j];
    var cat := map[TargetIdentifier(schema, u) := t.shape];
    SuffixDecides(schema, t, u);
    forall w | w in targets ensures OnTable(schema, cat, w) {
      if w != u {
        DifferentTargets(targets, w, u);
        SuffixDecides(schema, w, u);
      }
    }
    assert Theft(schema, data, cat, t, u);
    AgreementIff(schema, data, targets, cat);
  }
}
