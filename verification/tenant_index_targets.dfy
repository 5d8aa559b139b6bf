/** The 21 index targets of every tenant schema, and why the reconciler's theorems apply to them. */
module TenantIndexTargets {
  import opened TenantIndexNames
  import opened TenantIndexAgreement

  const TENANT_INDEX_TARGETS: seq<Target> := [
    Target("_bj_idem_uidx", "_bulk_jobs_idempotency_uidx", Index(BulkJobs, [IdempotencyKey], true)),
    Target("_bj_status_idx", "_bulk_jobs_status_idx", Index(BulkJobs, [Status, ScheduledAt], false)),
    Target("_cp_ccp_uidx", "_catalog_products_connection_catalog_product_uidx",
           Index(CatalogProducts, [ConnectionId, CatalogId, ProductId], true)),
    Target("_ct_conn_jid_uidx", "_contacts_connection_jid_uidx", Index(Contacts, [ConnectionId, Jid], true)),
    Target("_cs_resolved_idx", "_conv_states_resolved_idx", Index(ConversationStates, [ResolvedAt], false)),
    Target("_cs_status_idx", "_conv_states_status_idx", Index(ConversationStates, [Status], false)),
    Target("_msg_ct_ts_id_idx", "_messages_contact_timestamp_id_idx",
           Index(Messages, [ContactId, Timestamp, RowId], false)),
    Target("_msg_media_pend_idx", "_idx_messages_media_pending",
           Index(Messages, [MediaDownloadStatus, CreatedAt], false)),
    Target("_msg_wa_uniq", "_messages_unique_wa_message", Index(Messages, [ConnectionId, MessageId], true)),
    Target("_outbox_pending_idx", "_nats_outbox_pending_idx",
           Index(NatsOutbox, [Status, NextAttemptAt, CreatedAt], false)),
    Target("_push_subs_user_idx", "_push_subscriptions_user_idx", Index(PushSubscriptions, [UserId], false)),
    Target("_sm_bulk_job_idx", "_scheduled_messages_bulk_job_idx", Index(ScheduledMessages, [BulkJobId, Status], false)),
    Target("_sm_contact_idx", "_scheduled_messages_contact_idx",
           Index(ScheduledMessages, [ContactId, ScheduledAt], false)),
    Target("_sm_due_idx", "_scheduled_messages_due_idx", Index(ScheduledMessages, [NextAttemptAt], false)),
    Target("_was_account_idx", "_wa_sessions_account_idx",
           Index(WhatsappConnectionSessions, [ConnectionId, CreatedAt], false)),
    Target("_was_active_uidx", "_wa_sessions_active_uidx", Index(WhatsappConnectionSessions, [ConnectionId], true)),
    Target("_wc_conn_cat_uidx", "_whatsapp_catalogs_connection_catalog_uidx",
           Index(WhatsappCatalogs, [ConnectionId, CatalogId], true)),
    Target("_wconn_phone_uidx", "_whatsapp_connections_phone_uidx", Index(WhatsappConnections, [PhoneNumber], true)),
    Target("_wconn_status_idx", "_whatsapp_connections_status_idx", Index(WhatsappConnections, [Status], false)),
    Target("_wl_conn_label_uidx", "_whatsapp_labels_connection_label_uidx",
           Index(WhatsappLabels, [ConnectionId, LabelId], true)),
    Target("_wl_conn_tag_uidx", "_whatsapp_labels_connection_tag_uidx",
           Index(WhatsappLabels, [ConnectionId, SyncedTagId], true))
  ]

  // `SuffixIndex`, `LegacyIndex` and `ShapeIndex` are left inverses of the list:
  // they give each target's parts its position back, which makes them distinct.

  /** Which target a canonical suffix belongs to, read off a few of its characters. */
  function SuffixIndex(s: string): int
    requires |s| > 9
  {
    match s[1]
    case 'b' => if s[4] == 'i' then 0 else 1
    case 'c' => if s[2] == 'p' then 2 else if s[2] == 't' then 3 else if s[4] == 'r' then 4 else 5
    case 'm' => if s[5] == 'c' then 6 else if s[5] == 'm' then 7 else 8
    case 'o' => 9
    case 'p' => 10
    case 's' => if s[4] == 'b' then 11 else if s[4] == 'c' then 12 else 13
    case _ =>
      if s[2] == 'a' then if s[7] == 'c' then 14 else 15
      else if s[2] == 'c' then if s[3] == '_' then 16 else if s[7] == 'p' then 17 else 18
      else if s[9] == 'l' then 19 else 20
  }

  /** The same for a historical suffix, by its length and its fifth character from the end. */
  function LegacyIndex(s: string): int {
    match |s|
    case 21 => 1
    case 23 => 5
    case 24 => if s[19] == 'g' then 9 else if s[19] == 't' then 14 else 15
    case 25 => 4
    case 27 => if s[22] == '_' then 0 else if s[22] == 'n' then 7 else if s[22] == 's' then 8 else 13
    case 28 => 10
    case 29 => 3
    case 31 => 12
    case 32 => if s[27] == 'b' then 11 else if s[27] == '_' then 17 else 18
    case 34 => 6
    case 36 => 20
    case 38 => 19
    case 42 => 16
    case _ => 2
  }

  /** The same for what a target indexes. */
  function ShapeIndex(x: Index): int {
    match x.table
    case BulkJobs => if x.unique then 0 else 1
    case CatalogProducts => 2
    case Contacts => 3
    case ConversationStates => if x.columns == [ResolvedAt] then 4 else 5
    case Messages => if x.unique then 8 else if |x.columns| == 3 then 6 else 7
    case NatsOutbox => 9
    case PushSubscriptions => 10
    case ScheduledMessages => if x.columns == [NextAttemptAt] then 13 else if x.columns == [BulkJobId, Status] then 11 else 12
    case WhatsappConnectionSessions => if x.unique then 15 else 14
    case WhatsappCatalogs => 16
    case WhatsappConnections => if x.unique then 17 else 18
    case WhatsappLabels => if x.columns == [ConnectionId, LabelId] then 19 else 20
    case OtherTable(_) => -1
  }

  lemma SuffixNumbers0(i: nat)
    requires 0 <= i < 7
    ensures var s := TENANT_INDEX_TARGETS[i].suffix;
            9 < |s| <= PG_IDENTIFIER_MAX_BYTES - TENANT_SCHEMA_NAME_LENGTH && SuffixIndex(s) == i
  {}

  lemma SuffixNumbers7(i: nat)
    requires 7 <= i < 14
    ensures var s := TENANT_INDEX_TARGETS[i].suffix;
            9 < |s| <= PG_IDENTIFIER_MAX_BYTES - TENANT_SCHEMA_NAME_LENGTH && SuffixIndex(s) == i
  {}

  lemma SuffixNumbers14(i: nat)
    requires 14 <= i < 21
    ensures var s := TENANT_INDEX_TARGETS[i].suffix;
            9 < |s| <= PG_IDENTIFIER_MAX_BYTES - TENANT_SCHEMA_NAME_LENGTH && SuffixIndex(s) == i
  {}

  lemma SuffixesAreNumbered(i: nat)
    requires i < |TENANT_INDEX_TARGETS|
    ensures var s := TENANT_INDEX_TARGETS[i].suffix;
            9 < |s| <= PG_IDENTIFIER_MAX_BYTES - TENANT_SCHEMA_NAME_LENGTH && SuffixIndex(s) == i
  {
    if i < 7 {
      SuffixNumbers0(i);
    } else if i < 14 {
      SuffixNumbers7(i);
    } else {
      SuffixNumbers14(i);
    }
  }

  lemma LegacyNumbers0(i: nat)
    requires 0 <= i < 7
    ensures LegacyIndex(TENANT_INDEX_TARGETS[i].legacySuffix) == i
  {}

  lemma LegacyNumbers7(i: nat)
    requires 7 <= i < 14
    ensures LegacyIndex(TENANT_INDEX_TARGETS[i].legacySuffix) == i
  {}

  lemma LegacyNumbers14(i: nat)
    requires 14 <= i < 21
    ensures LegacyIndex(TENANT_INDEX_TARGETS[i].legacySuffix) == i
  {}

  lemma LegacyNamesAreNumbered(i: nat)
    requires i < |TENANT_INDEX_TARGETS|
    ensures LegacyIndex(TENANT_INDEX_TARGETS[i].legacySuffix) == i
  {
    if i < 7 {
      LegacyNumbers0(i);
    } else if i < 14 {
      LegacyNumbers7(i);
    } else {
      LegacyNumbers14(i);
    }
  }

  lemma ShapesAreNumbered(i: nat)
    requires i < |TENANT_INDEX_TARGETS|
    ensures ShapeIndex(TENANT_INDEX_TARGETS[i].shape) == i
  {}

  /** No two targets share a name or index the same columns of the same table. */
  lemma TargetsAreSeparate()
    ensures Separate(TENANT_INDEX_TARGETS)
  {
    forall i, j | 0 <= i < j < |TENANT_INDEX_TARGETS|
      ensures TENANT_INDEX_TARGETS[i].suffix != TENANT_INDEX_TARGETS[j].suffix
      ensures TENANT_INDEX_TARGETS[i].legacySuffix != TENANT_INDEX_TARGETS[j].legacySuffix
      ensures TENANT_INDEX_TARGETS[i].shape != TENANT_INDEX_TARGETS[j].shape
    {
      SuffixesAreNumbered(i);
      SuffixesAreNumbered(j);
      LegacyNamesAreNumbered(i);
      LegacyNamesAreNumbered(j);
      ShapesAreNumbered(i);
      ShapesAreNumbered(j);
    }
  }

  /** Every canonical name of a tenant schema fits, so it is stored as it is written. */
  lemma CanonicalNamesFit(schema: string, t: Target)
    requires |schema| <= TENANT_SCHEMA_NAME_LENGTH && t in TENANT_INDEX_TARGETS
    ensures Truncate(TargetIdentifier(schema, t)) == TargetIdentifier(schema, t)
  {
    var i :| 0 <= i < |TENANT_INDEX_TARGETS| && TENANT_INDEX_TARGETS[i] == t;
    SuffixesAreNumbered(i);
  }

  /** The two label indexes were once asked for under names that truncate to the same one. */
  lemma LabelNamesCollide(schema: string)
    requires |schema| == TENANT_SCHEMA_NAME_LENGTH
    ensures LegacyIdentifier(schema, TENANT_INDEX_TARGETS[19]) == LegacyIdentifier(schema, TENANT_INDEX_TARGETS[20])
            == schema + "_whatsapp_labels_con"
  {}

  lemma NamesDiffer0(i: nat)
    requires 0 <= i < 7
    ensures NamesDiffer(TENANT_INDEX_TARGETS[i])
  {}

  lemma NamesDiffer7(i: nat)
    requires 7 <= i < 14
    ensures NamesDiffer(TENANT_INDEX_TARGETS[i])
  {}

  lemma NamesDiffer14(i: nat)
    requires 14 <= i < 21
    ensures NamesDiffer(TENANT_INDEX_TARGETS[i])
  {}

  /** The suffixes part within their first eleven characters, before any name is cut. */
  predicate NamesDiffer(t: Target) {
    var s, l := t.suffix, t.legacySuffix;
    |s| > 10 && |l| > 10 && (s[2] != l[2] || s[3] != l[3] || s[10] != l[10])
  }

  /** No target's historical name is its canonical one, not even once truncated. */
  lemma HistoricalNamesDiffer(schema: string, t: Target)
    requires |schema| <= TENANT_SCHEMA_NAME_LENGTH && t in TENANT_INDEX_TARGETS
    ensures LegacyIdentifier(schema, t) != TargetIdentifier(schema, t)
  {
    var i :| 0 <= i < |TENANT_INDEX_TARGETS| && TENANT_INDEX_TARGETS[i] == t;
    if i < 7 {
      NamesDiffer0(i);
    } else if i < 14 {
      NamesDiffer7(i);
    } else {
      NamesDiffer14(i);
    }
    hide TENANT_INDEX_TARGETS;
    var s, l := t.suffix, t.legacySuffix;
    assert forall k :: 0 <= k < 11 ==> LegacyIdentifier(schema, t)[|schema| + k] == l[k];
    assert forall k :: 0 <= k < 11 ==> TargetIdentifier(schema, t)[|schema| + k] == s[k];
  }

  /** Any target of any tenant schema can lose its index, to any other index under its canonical name. */
  lemma AnyTargetCanLoseItsIndex(schema: string, data: Data, t: Target, wrong: Index)
    requires |schema| == TENANT_SCHEMA_NAME_LENGTH && t in TENANT_INDEX_TARGETS
    requires Present(data, t) && wrong.table == t.shape.table && wrong != t.shape
    ensures var cat := map[TargetIdentifier(schema, t) := wrong, LegacyIdentifier(schema, t) := t.shape];
            && HasShape(cat, t.shape)
            && (exists next :: Acts(schema, data, cat, t, next))
            && (forall next :: Acts(schema, data, cat, t, next) ==> !HasShape(next, t.shape))
  {
    HistoricalNamesDiffer(schema, t);
    WrongShapeCostsTheIndex(schema, data, t, wrong);
  }

  /** Preflight can be wrong about any two targets of one table, the one that comes later being robbed. */
  lemma AnyTwoCanDisagree(schema: string, data: Data, i: nat, j: nat)
    requires i < j < |TENANT_INDEX_TARGETS|
    requires TENANT_INDEX_TARGETS[i].shape.table == TENANT_INDEX_TARGETS[j].shape.table
    requires Present(data, TENANT_INDEX_TARGETS[i]) && Present(data, TENANT_INDEX_TARGETS[j])
    ensures var cat := map[TargetIdentifier(schema, TENANT_INDEX_TARGETS[j]) := TENANT_INDEX_TARGETS[i].shape];
            !AlwaysAgrees(schema, data, TENANT_INDEX_TARGETS, cat)
  {
    hide TENANT_INDEX_TARGETS;
    TargetsAreSeparate();
    MisledFrom(schema, data, TENANT_INDEX_TARGETS, i, j);
  }
}
