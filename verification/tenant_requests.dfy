/** The index requests a tenant schema's reconciliation makes, and why the theorems about passes apply to them. */
module TenantRequests {
  import opened TenantIndexNames
  import opened TenantIndexTargets
  import opened TenantSchema

  datatype OtherIndex = OtherIndex(suffix: string, shape: Index)

  /** The requests whose name was never over-length. */
  const OTHER_INDEXES: seq<OtherIndex> := [
    OtherIndex("_ct_tag_contact_idx", Index(OtherTable("contact_tags"), [OtherColumn("tag_id"), ContactId], false)),
    OtherIndex("_qr_shortcut_uidx", Index(OtherTable("quick_replies"), [OtherColumn("shortcut")], true)),
    OtherIndex("_sm_auto_reply_uidx", Index(ScheduledMessages, [ContactId], true)),
    OtherIndex("_pci_due_idx", Index(OtherTable("purge_cleanup_items"), [NextAttemptAt, CreatedAt], false)),
    OtherIndex("_pci_media_key_idx", Index(OtherTable("purge_cleanup_items"), [OtherColumn("media_key")], false)),
    OtherIndex("_cc_active_uidx", Index(OtherTable("conversation_cases"), [ContactId], true)),
    OtherIndex("_cc_contact_idx", Index(OtherTable("conversation_cases"), [ContactId, CreatedAt], false)),
    OtherIndex("_cc_status_idx", Index(OtherTable("conversation_cases"), [Status], false)),
    OtherIndex("_cc_resolved_idx", Index(OtherTable("conversation_cases"), [ResolvedAt], false)),
    OtherIndex("_messages_case_idx", Index(Messages, [OtherColumn("case_id"), OtherColumn("seq")], false)),
    OtherIndex("_ca_active_uidx", Index(OtherTable("contact_assignments"), [ContactId], true)),
    OtherIndex("_cs_active_idx", Index(ConversationStates, [OtherColumn("active_case_id")], false)),
    OtherIndex("_gp_jid_idx", Index(OtherTable("group_participants"), [OtherColumn("participant_jid")], false)),
    OtherIndex("_gp_group_idx", Index(OtherTable("group_participants"), [OtherColumn("group_id")], false)),
    OtherIndex("_gjr_group_jid_uidx",
               Index(OtherTable("group_join_requests"), [OtherColumn("group_id"), OtherColumn("requester_jid")], true)),
    OtherIndex("_msg_dl_claim_idx", Index(Messages, [OtherColumn("media_downloaded_at")], false))
  ]

  /** Short, and not the one canonical suffix it could be. */
  predicate ApartSuffix(s: string) {
    && 9 < |s| <= PG_IDENTIFIER_MAX_BYTES - TENANT_SCHEMA_NAME_LENGTH
    && 0 <= SuffixIndex(s) < |TENANT_INDEX_TARGETS|
    && var c := TENANT_INDEX_TARGETS[SuffixIndex(s)].suffix;
       |c| > 9 && (|c| != |s| || c[1] != s[1] || c[2] != s[2] || c[4] != s[4])
  }

  predicate ApartShape(x: Index) {
    var k := ShapeIndex(x);
    0 <= k < |TENANT_INDEX_TARGETS| ==> TENANT_INDEX_TARGETS[k].shape != x
  }

  lemma OthersAreApart0(i: nat)
    requires i < 4
    ensures ApartSuffix(OTHER_INDEXES[i].suffix)
  {}

  lemma OthersAreApart4(i: nat)
    requires 4 <= i < 8
    ensures ApartSuffix(OTHER_INDEXES[i].suffix)
  {}

  lemma OthersAreApart8(i: nat)
    requires 8 <= i < 12
    ensures ApartSuffix(OTHER_INDEXES[i].suffix)
  {}

  lemma OthersAreApart12(i: nat)
    requires 12 <= i < 14
    ensures ApartSuffix(OTHER_INDEXES[i].suffix)
  {}

  lemma OthersAreApart14(i: nat)
    requires 14 <= i < 16
    ensures ApartSuffix(OTHER_INDEXES[i].suffix)
  {}

  lemma OtherShapesAreApart(i: nat)
    requires i < |OTHER_INDEXES|
    ensures ApartShape(OTHER_INDEXES[i].shape)
  {}

  lemma OthersAreApart(i: nat)
    requires i < |OTHER_INDEXES|
    ensures ApartSuffix(OTHER_INDEXES[i].suffix) && ApartShape(OTHER_INDEXES[i].shape)
  {
    OtherShapesAreApart(i);
    if i < 4 {
      OthersAreApart0(i);
    } else if i < 8 {
      OthersAreApart4(i);
    } else if i < 12 {
      OthersAreApart8(i);
    } else if i < 14 {
      OthersAreApart12(i);
    } else {
      OthersAreApart14(i);
    }
  }

  /** A request of the source: for a target under its historical name, or for another index. */
  ghost predicate IsSourceRequest(schema: string, r: Request) {
    || (exists t :: t in TENANT_INDEX_TARGETS && r == Request(schema + t.legacySuffix, t.shape, t.suffix))
    || (exists i :: 0 <= i < |OTHER_INDEXES| && r.name == schema + OTHER_INDEXES[i].suffix && r.shape == OTHER_INDEXES[i].shape)
  }

  lemma ApartIsNoTarget(schema: string, suffix: string, shape: Index, t: Target)
    requires ApartSuffix(suffix) && ApartShape(shape) && t in TENANT_INDEX_TARGETS
    ensures schema + suffix != TargetIdentifier(schema, t) && schema + suffix != schema + t.legacySuffix && shape != t.shape
  {
    var i :| 0 <= i < |TENANT_INDEX_TARGETS| && TENANT_INDEX_TARGETS[i] == t;
    SuffixesAreNumbered(i);
    ShapesAreNumbered(i);
    LegacyNamesAreLong(i);
    assert (schema + suffix)[|schema|..] == suffix;
    assert (schema + t.suffix)[|schema|..] == t.suffix;
    assert (schema + t.legacySuffix)[|schema|..] == t.legacySuffix;
  }

  lemma LegacyNamesAreLong(i: nat)
    requires i < |TENANT_INDEX_TARGETS|
    ensures |TENANT_INDEX_TARGETS[i].legacySuffix| > PG_IDENTIFIER_MAX_BYTES - TENANT_SCHEMA_NAME_LENGTH
  {}

  /** Every request the source makes meets what the theorems about passes ask of requests. */
  lemma SourceRequestsAreGood(schema: string, r: Request)
    requires |schema| == TENANT_SCHEMA_NAME_LENGTH && IsSourceRequest(schema, r)
    ensures GoodRequest(schema, TENANT_INDEX_TARGETS, r)
  {
    hide ApartSuffix, ApartShape, TENANT_INDEX_TARGETS, OTHER_INDEXES, FindTarget;
    TargetsAreSeparate();
    FoundTarget(schema, TENANT_INDEX_TARGETS, r.name);
    if t :| t in TENANT_INDEX_TARGETS && r == Request(schema + t.legacySuffix, t.shape, t.suffix) {
      OwnNameResolves(schema, TENANT_INDEX_TARGETS, t);
      CanonicalNamesFit(schema, t);
    } else {
      var i :| 0 <= i < |OTHER_INDEXES| && r.name == schema + OTHER_INDEXES[i].suffix && r.shape == OTHER_INDEXES[i].shape;
      OthersAreApart(i);
      forall t | t in TENANT_INDEX_TARGETS
        ensures r.name != TargetIdentifier(schema, t) && r.name != schema + t.legacySuffix && r.shape != t.shape
      {
        ApartIsNoTarget(schema, OTHER_INDEXES[i].suffix, OTHER_INDEXES[i].shape, t);
      }
    }
  }

  // ----------------------------------------------- the theorems, at the source's own lists

  ghost predicate SourceRequests(schema: string, requests: seq<Request>) {
    |schema| == TENANT_SCHEMA_NAME_LENGTH && forall r :: r in requests ==> IsSourceRequest(schema, r)
  }

  /** The migration over the 21 targets: preflight announces what is done, and no shape is lost. */
  method MigrateTenantIndexes(schema: string, catalog: Catalog, data: Data)
    returns (p: Preflight, r: Report, migrated: Catalog)
    requires WellFormed(schema, TENANT_INDEX_TARGETS, catalog)
    ensures p == PreflightOf(r) && r == ReportOf(schema, data, TENANT_INDEX_TARGETS, catalog, |TENANT_INDEX_TARGETS|)
    ensures WellFormed(schema, TENANT_INDEX_TARGETS, migrated)
    ensures forall shape :: HasShape(catalog, shape) ==> HasShape(migrated, shape)
  {
    hide TENANT_INDEX_TARGETS;
    TargetsAreSeparate();
    var ix := new TenantIndexes(schema, TENANT_INDEX_TARGETS, catalog);
    p := ix.PreflightTenantIndexNames(data);
    r := ix.ReconcileTenantIndexNames(data);
    migrated := ix.catalog;
  }

  /**
   * Two passes of the source's own requests over the 21 targets. Whether the
   * second is silent can be told from the catalog before the first.
   */
  method ReconcileTenantSchemaTwice(schema: string, catalog: Catalog, data: Data, later: Data, requests: seq<Request>)
    returns (first: Pass, second: Pass, end: Catalog)
    requires SourceRequests(schema, requests) && WellFormed(schema, TENANT_INDEX_TARGETS, catalog)
    requires AllPresent(data, TENANT_INDEX_TARGETS) && AllPresent(later, TENANT_INDEX_TARGETS)
    ensures first.Finished? ==> Settled(schema, TENANT_INDEX_TARGETS, end)
    ensures first.Finished? && second.Finished? ==> DoesNothing(second.report)
    ensures var asked := EnsureAll(schema, TENANT_INDEX_TARGETS, data, catalog, requests).catalog;
            first.Finished? && OthersStay(schema, TENANT_INDEX_TARGETS, data, requests, asked) ==>
              second.Finished? && second.issued == [] && DoesNothing(second.report)
    ensures first.Finished? && OthersApart(schema, TENANT_INDEX_TARGETS, requests, catalog) ==>
              second.Finished? && second.issued == [] && DoesNothing(second.report)
  {
    hide TENANT_INDEX_TARGETS;
    TargetsAreSeparate();
    forall r | r in requests ensures GoodRequest(schema, TENANT_INDEX_TARGETS, r) {
      SourceRequestsAreGood(schema, r);
    }
    var ix := new TenantIndexes(schema, TENANT_INDEX_TARGETS, catalog);
    if OthersApart(schema, TENANT_INDEX_TARGETS, requests, catalog) {
      ApartBeforeStay(schema, TENANT_INDEX_TARGETS, data, catalog, requests);
    }
    first, second := PassTwice(ix, data, later, requests);
    end := ix.catalog;
  }

  /**
   * The other requested names do not always stay: where one of them holds the
   * only index of a target, the reconciler adopts it, and the next pass asks for
   * the lost name again.
   */
  lemma OtherNameIsLost(schema: string, data: Data, later: Data, i: nat, t: Target)
    requires |schema| == TENANT_SCHEMA_NAME_LENGTH && i < |OTHER_INDEXES| && t in TENANT_INDEX_TARGETS
    requires AllPresent(data, TENANT_INDEX_TARGETS)
    ensures var name := schema + OTHER_INDEXES[i].suffix;
            var requests, cat := [Request(name, OTHER_INDEXES[i].shape, name)], map[name := t.shape];
            && WellFormed(schema, TENANT_INDEX_TARGETS, cat)
            && exists cats, end :: LeadsTo(schema, data, TENANT_INDEX_TARGETS, cats, cat, end) &&
                 EnsureAll(schema, TENANT_INDEX_TARGETS, later, end, requests).issued != []
  {
    hide TENANT_INDEX_TARGETS, OTHER_INDEXES, ApartSuffix, ApartShape, FindTarget, Plan, KindOf;
    var name := schema + OTHER_INDEXES[i].suffix;
    var r := Request(name, OTHER_INDEXES[i].shape, name);
    var requests, cat := [r], map[name := t.shape];
    TargetsAreSeparate();
    SourceRequestsAreGood(schema, r);
    OthersAreApart(i);
    FoundTarget(schema, TENANT_INDEX_TARGETS, name);
    forall u | u in TENANT_INDEX_TARGETS
      ensures name != TargetIdentifier(schema, u) && name != schema + u.legacySuffix
    {
      ApartIsNoTarget(schema, OTHER_INDEXES[i].suffix, OTHER_INDEXES[i].shape, u);
    }
    assert FindTarget(schema, TENANT_INDEX_TARGETS, name).None?;
    assert Removable(schema, data, cat, t, name);
    var cats := RunThatRemoves(schema, data, TENANT_INDEX_TARGETS, cat, t, name);
    var end := cats[|TENANT_INDEX_TARGETS|];
    assert LeadsTo(schema, data, TENANT_INDEX_TARGETS, cats, cat, end);
    assert r in requests;
    if EnsureAll(schema, TENANT_INDEX_TARGETS, later, end, requests).issued == [] {
      NothingIssuedIsNothingDone(schema, TENANT_INDEX_TARGETS, later, end, requests);
    }
  }
}
