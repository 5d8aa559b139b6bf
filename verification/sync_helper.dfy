/**
 * Generic entity synchronisation: bring a keyed store to the incoming items by
 * inserting, updating and removing one item at a time.
 */
module SyncHelper {
  datatype Item<Id, V> = Item(id: Id, value: V)

  datatype SyncResult = SyncResult(added: nat, updated: nat, removed: nat, total: nat)

  /** The rows an item list stands for; the last item of an id counts. */
  function Rows<Id(==), V>(items: seq<Item<Id, V>>): map<Id, V> {
    if items == [] then map[]
    else Rows(items[..|items| - 1])[items[|items| - 1].id := items[|items| - 1].value]
  }

  ghost predicate DistinctIds<Id, V>(items: seq<Item<Id, V>>) {
    forall i, j :: 0 <= i < j < |items| ==> items[i].id != items[j].id
  }

  /** The rows once every incoming item was inserted or updated, unchanged ones left as they were. */
  function Upserted<Id(==), V>(rows: map<Id, V>, incoming: seq<Item<Id, V>>, skip: (V, V) -> bool): map<Id, V> {
    if incoming == [] then rows
    else
      var before := Upserted(rows, incoming[..|incoming| - 1], skip);
      var item := incoming[|incoming| - 1];
      if item.id in rows && skip(item.value, rows[item.id]) then before else before[item.id := item.value]
  }

  /** How many items have an id outside `ids`. */
  function CountOutside<Id(==), V>(items: seq<Item<Id, V>>, ids: set<Id>): nat {
    if items == [] then 0
    else CountOutside(items[..|items| - 1], ids) + if items[|items| - 1].id in ids then 0 else 1
  }

  function CountChanged<Id(==), V>(rows: map<Id, V>, items: seq<Item<Id, V>>, skip: (V, V) -> bool): nat {
    if items == [] then 0
    else
      var item := items[|items| - 1];
      CountChanged(rows, items[..|items| - 1], skip) +
      if item.id in rows && !skip(item.value, rows[item.id]) then 1 else 0
  }

  /** The store after a synchronisation, as a function of the two lists. */
  function Synced<Id(==), V>(existing: seq<Item<Id, V>>, incoming: seq<Item<Id, V>>, skip: (V, V) -> bool): map<Id, V> {
    Upserted(Rows(existing), incoming, skip) - (Rows(existing).Keys - Rows(incoming).Keys)
  }

  /** A table with one row per id; the callbacks are its operations. */
  class KeyedStore<Id(==), V> {
    var rows: map<Id, V>

    method Put(id: Id, value: V)
      modifies this
      ensures rows == old(rows)[id := value]
    {
      rows := rows[id := value];
    }

    method Remove(id: Id)
      modifies this
      ensures rows == old(rows) - {id}
    {
      rows := rows - {id};
    }
  }

  method SyncEntities<Id(==), V>(store: KeyedStore<Id, V>, existingItems: seq<Item<Id, V>>,
                                 incomingItems: seq<Item<Id, V>>, isUnchanged: (V, V) -> bool)
    returns (r: SyncResult)
    requires store.rows == Rows(existingItems)
    modifies store
    ensures store.rows == Synced(existingItems, incomingItems, isUnchanged)
    ensures r == SyncResult(
              CountOutside(incomingItems, Rows(existingItems).Keys),
              CountChanged(Rows(existingItems), incomingItems, isUnchanged),
              CountOutside(existingItems, Rows(incomingItems).Keys),
              |incomingItems|)
  {
    var existingMap := ById(existingItems);
    var incomingIds := IdsOf(incomingItems);
    var added, updated := InsertOrUpdate(store, existingMap, incomingItems, isUnchanged);
    var removed := RemoveGone(store, existingItems, incomingIds);
    r := SyncResult(added, updated, removed, |incomingItems|);
  }

  method ById<Id(==), V>(items: seq<Item<Id, V>>) returns (byId: map<Id, V>)
    ensures byId == Rows(items)
  {
    byId := map[];
    for i := 0 to |items|
      invariant byId == Rows(items[..i])
    {
      assert items[..i + 1][..i] == items[..i];
      byId := byId[items[i].id := items[i].value];
    }
    assert items[..|items|] == items;
  }

  method IdsOf<Id(==), V>(items: seq<Item<Id, V>>) returns (ids: set<Id>)
    ensures ids == Rows(items).Keys
  {
    ids := {};
    for i := 0 to |items|
      invariant ids == Rows(items[..i]).Keys
    {
      assert items[..i + 1][..i] == items[..i];
      ids := ids + {items[i].id};
    }
    assert items[..|items|] == items;
  }

  method InsertOrUpdate<Id(==), V>(store: KeyedStore<Id, V>, existing: map<Id, V>, incomingItems: seq<Item<Id, V>>,
                                   isUnchanged: (V, V) -> bool)
    returns (added: nat, updated: nat)
    requires store.rows == existing
    modifies store
    ensures store.rows == Upserted(existing, incomingItems, isUnchanged)
    ensures added == CountOutside(incomingItems, existing.Keys)
    ensures updated == CountChanged(existing, incomingItems, isUnchanged)
  {
    added, updated := 0, 0;
    for i := 0 to |incomingItems|
      invariant store.rows == Upserted(existing, incomingItems[..i], isUnchanged)
      invariant added == CountOutside(incomingItems[..i], existing.Keys)
      invariant updated == CountChanged(existing, incomingItems[..i], isUnchanged)
    {
      assert incomingItems[..i + 1][..i] == incomingItems[..i];
      var incoming := incomingItems[i];
      if incoming.id in existing {
        if isUnchanged(incoming.value, existing[incoming.id]) {
          continue;
        }
        store.Put(incoming.id, incoming.value);
        updated := updated + 1;
      } else {
        store.Put(incoming.id, incoming.value);
        added := added + 1;
      }
    }
    assert incomingItems[..|incomingItems|] == incomingItems;
  }

  method RemoveGone<Id(==), V>(store: KeyedStore<Id, V>, existingItems: seq<Item<Id, V>>, incomingIds: set<Id>)
    returns (removed: nat)
    modifies store
    ensures store.rows == old(store.rows) - (Rows(existingItems).Keys - incomingIds)
    ensures removed == CountOutside(existingItems, incomingIds)
  {
    removed := 0;
    for i := 0 to |existingItems|
      invariant store.rows == old(store.rows) - (Rows(existingItems[..i]).Keys - incomingIds)
      invariant removed == CountOutside(existingItems[..i], incomingIds)
    {
      assert existingItems[..i + 1][..i] == existingItems[..i];
      if existingItems[i].id !in incomingIds {
        store.Remove(existingItems[i].id);
        removed := removed + 1;
      }
    }
    assert existingItems[..|existingItems|] == existingItems;
  }

  // ------------------------------------------------------------------ effect

  lemma {:induction false} RowsHoldItems<Id, V>(items: seq<Item<Id, V>>, id: Id)
    ensures id in Rows(items) <==> exists i :: 0 <= i < |items| && items[i].id == id
    ensures id in Rows(items) ==> exists i :: 0 <= i < |items| && items[i] == Item(id, Rows(items)[id])
    ensures DistinctIds(items) ==> forall i :: 0 <= i < |items| && items[i].id == id ==> Rows(items)[id] == items[i].value
  {
    if items != [] {
      var init, last := items[..|items| - 1], items[|items| - 1];
      RowsHoldItems(init, id);
      assert forall i :: 0 <= i < |init| ==> items[i] == init[i];
      if last.id == id {
        assert items[|items| - 1] == Item(id, Rows(items)[id]);
      } else if id in Rows(init) {
        var i :| 0 <= i < |init| && init[i] == Item(id, Rows(init)[id]);
        assert items[i] == Item(id, Rows(items)[id]);
      }
    }
  }

  /** What is left of a row once the incoming items of `id` have come: the last one not skipped, if any. */
  function LastKept<Id(==), V>(row: V, incoming: seq<Item<Id, V>>, skip: (V, V) -> bool, id: Id): V {
    if incoming == [] then row
    else
      var item := incoming[|incoming| - 1];
      if item.id == id && !skip(item.value, row) then item.value
      else LastKept(row, incoming[..|incoming| - 1], skip, id)
  }

  /** What the upserts leave under `id`: an incoming item is skipped against the row as first read. */
  lemma {:induction false} UpsertedAt<Id, V>(rows: map<Id, V>, incoming: seq<Item<Id, V>>, skip: (V, V) -> bool, id: Id)
    ensures var u, wanted := Upserted(rows, incoming, skip), Rows(incoming);
            && (id in u <==> id in rows || id in wanted)
            && (id in rows ==> u[id] == LastKept(rows[id], incoming, skip, id))
            && (id !in rows && id in wanted ==> u[id] == wanted[id])
  {
    if incoming != [] {
      UpsertedAt(rows, incoming[..|incoming| - 1], skip, id);
    }
  }

  /** Every id on both sides is left with its last incoming value. */
  ghost predicate LastItemsKept<Id, V>(rows: map<Id, V>, incoming: seq<Item<Id, V>>, skip: (V, V) -> bool) {
    forall id :: id in Rows(incoming).Keys && id in rows ==> LastKept(rows[id], incoming, skip, id) == Rows(incoming)[id]
  }

  /**
   * The store ends as exactly the incoming items, for any lists, if and only if
   * for every id on both sides the last item not skipped as unchanged, or the
   * row if all are, has the value of the last item.
   */
  lemma SyncedIsIncomingIff<Id(!new), V>(existing: seq<Item<Id, V>>, incoming: seq<Item<Id, V>>, skip: (V, V) -> bool)
    ensures Synced(existing, incoming, skip) == Rows(incoming) <==> LastItemsKept(Rows(existing), incoming, skip)
  {
    var rows, wanted, synced := Rows(existing), Rows(incoming), Synced(existing, incoming, skip);
    forall id
      ensures id in synced <==> id in wanted
      ensures id in wanted.Keys ==>
                synced[id] == if id in rows then LastKept(rows[id], incoming, skip, id) else wanted[id]
    {
      UpsertedAt(rows, incoming, skip, id);
    }
    assert synced.Keys == wanted.Keys;
    if LastItemsKept(rows, incoming, skip) {
      assert forall id :: id in wanted.Keys ==> synced[id] == wanted[id];
    }
  }

  // ------------------------------------------------- skipping what is equal

  /** Item `j` is the last of its id and brings back the row's value, after item `i` brought another. */
  ghost predicate RevertsAt<Id, V>(rows: map<Id, V>, incoming: seq<Item<Id, V>>, i: int, j: int) {
    && 0 <= i < j < |incoming| && incoming[i].id == incoming[j].id && incoming[j].id in rows
    && incoming[j].value == rows[incoming[j].id] && incoming[i].value != rows[incoming[j].id]
    && forall k :: j < k < |incoming| ==> incoming[k].id != incoming[j].id
  }

  /**
   * With an exact comparison the store ends as the incoming items if and only if
   * no id is first changed and then brought back to the value it had.
   */
  lemma SyncedByEqualityIff<Id(!new), V>(existing: seq<Item<Id, V>>, incoming: seq<Item<Id, V>>, skip: (V, V) -> bool)
    requires forall a, b :: skip(a, b) <==> a == b
    ensures Synced(existing, incoming, skip) == Rows(incoming) <==>
            !exists i, j :: RevertsAt(Rows(existing), incoming, i, j)
  {
    SyncedIsIncomingIff(existing, incoming, skip);
    var rows := Rows(existing);
    forall id | id in Rows(incoming).Keys && id in rows
      ensures LastKept(rows[id], incoming, skip, id) != Rows(incoming)[id] ==> exists i, j :: RevertsAt(rows, incoming, i, j)
    {
      RowIsLastItem(incoming, id);
      KeptByEquality(rows[id], incoming, skip, id);
      if LastKept(rows[id], incoming, skip, id) != Rows(incoming)[id] {
        var j :| LastAt(incoming, id, j);
        var i :| 0 <= i < |incoming| && incoming[i].id == id && incoming[i].value != rows[id];
        assert RevertsAt(rows, incoming, i, j);
      }
    }
    forall i, j | RevertsAt(rows, incoming, i, j) ensures !LastItemsKept(rows, incoming, skip) {
      var id := incoming[j].id;
      RowIsLastItem(incoming, id);
      KeptByEquality(rows[id], incoming, skip, id);
      assert LastAt(incoming, id, j) && id in Rows(incoming).Keys;
    }
  }

  ghost predicate LastAt<Id, V>(items: seq<Item<Id, V>>, id: Id, j: int) {
    0 <= j < |items| && items[j].id == id && forall k :: j < k < |items| ==> items[k].id != id
  }

  lemma {:induction false} RowIsLastItem<Id, V>(items: seq<Item<Id, V>>, id: Id)
    ensures id in Rows(items) <==> exists j :: LastAt(items, id, j)
    ensures forall j :: LastAt(items, id, j) ==> Rows(items)[id] == items[j].value
  {
    if items != [] {
      var init, last := items[..|items| - 1], items[|items| - 1];
      RowIsLastItem(init, id);
      if last.id == id {
        assert LastAt(items, id, |items| - 1);
      } else {
        forall j ensures LastAt(items, id, j) <==> LastAt(init, id, j) {
          assert LastAt(items, id, j) ==> j != |items| - 1;
          assert forall k :: 0 <= k < |init| ==> items[k] == init[k];
        }
        if id in Rows(init) {
          var j :| LastAt(init, id, j);
          assert LastAt(items, id, j);
        }
      }
    }
  }

  /** By equality, what is kept is the row's value only while every item repeats it. */
  lemma {:induction false} KeptByEquality<Id, V>(row: V, incoming: seq<Item<Id, V>>, skip: (V, V) -> bool, id: Id)
    requires forall a, b :: skip(a, b) <==> a == b
    ensures LastKept(row, incoming, skip, id) == row <==>
            forall i :: 0 <= i < |incoming| && incoming[i].id == id ==> incoming[i].value == row
    ensures id in Rows(incoming) && Rows(incoming)[id] != row ==> LastKept(row, incoming, skip, id) == Rows(incoming)[id]
  {
    if incoming != [] {
      var init := incoming[..|incoming| - 1];
      KeptByEquality(row, init, skip, id);
      assert forall k :: 0 <= k < |init| ==> incoming[k] == init[k];
    }
  }

  // ---------------------------------------------------- distinct incoming ids

  /** No item is skipped as unchanged that differs from its row. */
  ghost predicate SkipsOnlyEqual<Id, V>(existing: map<Id, V>, incoming: map<Id, V>, skip: (V, V) -> bool) {
    forall id :: id in incoming.Keys && id in existing && skip(incoming[id], existing[id]) ==>
      incoming[id] == existing[id]
  }

  /** With distinct incoming ids: when and only when no differing item is skipped. */
  lemma SyncedDistinctIff<Id(!new), V>(existing: seq<Item<Id, V>>, incoming: seq<Item<Id, V>>, skip: (V, V) -> bool)
    requires DistinctIds(incoming)
    ensures Synced(existing, incoming, skip) == Rows(incoming)
            <==> SkipsOnlyEqual(Rows(existing), Rows(incoming), skip)
  {
    SyncedIsIncomingIff(existing, incoming, skip);
    var rows, wanted := Rows(existing), Rows(incoming);
    forall id | id in wanted.Keys && id in rows
      ensures LastKept(rows[id], incoming, skip, id) == if skip(wanted[id], rows[id]) then rows[id] else wanted[id]
    {
      KeptOfDistinct(rows[id], incoming, skip, id);
    }
  }

  lemma {:induction false} KeptOfDistinct<Id, V>(row: V, incoming: seq<Item<Id, V>>, skip: (V, V) -> bool, id: Id)
    requires DistinctIds(incoming)
    ensures LastKept(row, incoming, skip, id) ==
            if id in Rows(incoming) && !skip(Rows(incoming)[id], row) then Rows(incoming)[id] else row
  {
    if incoming != [] {
      var init, last := incoming[..|incoming| - 1], incoming[|incoming| - 1];
      KeptOfDistinct(row, init, skip, id);
      RowsHoldItems(init, last.id);
    }
  }

  /** With a repeated incoming id the store can end on a stale value although only equal rows are skipped. */
  lemma RepeatedIdGoesStale(id: int, a: int, b: int)
    requires a != b
    ensures var existing, incoming := [Item(id, b)], [Item(id, a), Item(id, b)];
            var same := (x: int, y: int) => x == y;
            && SkipsOnlyEqual(Rows(existing), Rows(incoming), same)
            && Synced(existing, incoming, same) == map[id := a]
            && Rows(incoming) == map[id := b]
  {
    var existing, incoming := [Item(id, b)], [Item(id, a), Item(id, b)];
    assert incoming[..1] == [Item(id, a)] && incoming[..1][..0] == [] && existing[..0] == [];
    assert Rows(existing) == map[id := b];
    assert Rows(incoming[..1]) == map[id := a];
    assert Rows(incoming) == map[id := b];
    var same := (x: int, y: int) => x == y;
    assert Upserted(Rows(existing), incoming[..1], same) == map[id := a];
  }

  lemma {:induction false} CountsAreSets<Id, V>(items: seq<Item<Id, V>>, ids: set<Id>)
    requires DistinctIds(items)
    ensures |Rows(items).Keys| == |items|
    ensures CountOutside(items, ids) == |Rows(items).Keys - ids|
  {
    if items != [] {
      var init, last := items[..|items| - 1], items[|items| - 1];
      CountsAreSets(init, ids);
      RowsHoldItems(init, last.id);
      assert Rows(items).Keys == Rows(init).Keys + {last.id};
      if last.id in ids {
        assert Rows(items).Keys - ids == Rows(init).Keys - ids;
      } else {
        assert Rows(items).Keys - ids == (Rows(init).Keys - ids) + {last.id};
      }
    } else {
      assert Rows(items).Keys - ids == {};
    }
  }

  // -------------------------------------------------------------- the answer

  predicate IsNew<Id(==), V>(items: seq<Item<Id, V>>, ids: set<Id>, i: int) {
    0 <= i < |items| && items[i].id !in ids
  }

  /** Item `i` differs from its row, as `skip` sees it. */
  predicate IsChanged<Id(==), V>(rows: map<Id, V>, items: seq<Item<Id, V>>, skip: (V, V) -> bool, i: int) {
    0 <= i < |items| && items[i].id in rows && !skip(items[i].value, rows[items[i].id])
  }

  predicate IsSkipped<Id(==), V>(rows: map<Id, V>, items: seq<Item<Id, V>>, skip: (V, V) -> bool, i: int) {
    0 <= i < |items| && items[i].id in rows && skip(items[i].value, rows[items[i].id])
  }

  /** How many of the first `n` positions have the property. */
  ghost function HowMany(n: nat, p: int -> bool): nat {
    |set i | 0 <= i < n && p(i)|
  }

  lemma OneMorePosition(n: nat, p: int -> bool)
    ensures HowMany(0, p) == 0
    ensures HowMany(n + 1, p) == HowMany(n, p) + if p(n) then 1 else 0
  {
    assert (set i | 0 <= i < 0 && p(i)) == {};
    assert (set i | 0 <= i < n + 1 && p(i)) == (set i | 0 <= i < n && p(i)) + if p(n) then {n} else {};
  }

  lemma {:induction false} NewArePositions<Id, V>(items: seq<Item<Id, V>>, ids: set<Id>, n: nat)
    requires n <= |items|
    ensures CountOutside(items[..n], ids) == HowMany(n, i => IsNew(items, ids, i))
  {
    var p := i => IsNew(items, ids, i);
    if n == 0 {
      OneMorePosition(0, p);
    } else {
      NewArePositions(items, ids, n - 1);
      OneMorePosition(n - 1, p);
      assert items[..n][..n - 1] == items[..n - 1];
    }
  }

  lemma {:induction false} ChangedArePositions<Id, V>(rows: map<Id, V>, items: seq<Item<Id, V>>, skip: (V, V) -> bool, n: nat)
    requires n <= |items|
    ensures CountChanged(rows, items[..n], skip) == HowMany(n, i => IsChanged(rows, items, skip, i))
  {
    var p := i => IsChanged(rows, items, skip, i);
    if n == 0 {
      OneMorePosition(0, p);
    } else {
      ChangedArePositions(rows, items, skip, n - 1);
      OneMorePosition(n - 1, p);
      assert items[..n][..n - 1] == items[..n - 1];
    }
  }

  lemma {:induction false} RestIsSkipped<Id, V>(rows: map<Id, V>, items: seq<Item<Id, V>>, skip: (V, V) -> bool, n: nat)
    requires n <= |items|
    ensures CountOutside(items[..n], rows.Keys) + CountChanged(rows, items[..n], skip)
            + HowMany(n, i => IsSkipped(rows, items, skip, i)) == n
  {
    var p := i => IsSkipped(rows, items, skip, i);
    if n == 0 {
      OneMorePosition(0, p);
    } else {
      RestIsSkipped(rows, items, skip, n - 1);
      OneMorePosition(n - 1, p);
      assert items[..n][..n - 1] == items[..n - 1];
    }
  }

  /**
   * For any lists: the answer counts the incoming positions whose id is new, those
   * whose item differs from the row as first read, and the existing positions that
   * are not incoming; the incoming positions it does not count are those skipped.
   */
  lemma AnswerCounts<Id, V>(existing: seq<Item<Id, V>>, incoming: seq<Item<Id, V>>, skip: (V, V) -> bool)
    ensures var rows, ids := Rows(existing), Rows(incoming).Keys;
            var added, updated := CountOutside(incoming, rows.Keys), CountChanged(rows, incoming, skip);
            && added == HowMany(|incoming|, i => IsNew(incoming, rows.Keys, i))
            && updated == HowMany(|incoming|, i => IsChanged(rows, incoming, skip, i))
            && CountOutside(existing, ids) == HowMany(|existing|, i => IsNew(existing, ids, i))
            && added + updated + HowMany(|incoming|, i => IsSkipped(rows, incoming, skip, i)) == |incoming|
  {
    var rows, ids := Rows(existing), Rows(incoming).Keys;
    assert incoming[..|incoming|] == incoming && existing[..|existing|] == existing;
    NewArePositions(incoming, rows.Keys, |incoming|);
    NewArePositions(existing, ids, |existing|);
    ChangedArePositions(rows, incoming, skip, |incoming|);
    RestIsSkipped(rows, incoming, skip, |incoming|);
  }

  /** With distinct incoming ids, `updated` is the number of ids on both sides whose item is not skipped. */
  lemma {:induction false} UpdatedIsChangedIds<Id(!new), V>(rows: map<Id, V>, incoming: seq<Item<Id, V>>, skip: (V, V) -> bool)
    requires DistinctIds(incoming)
    ensures CountChanged(rows, incoming, skip) ==
            |set id | id in Rows(incoming).Keys && id in rows && !skip(Rows(incoming)[id], rows[id])|
  {
    var ids := set id | id in Rows(incoming).Keys && id in rows && !skip(Rows(incoming)[id], rows[id]);
    if incoming == [] {
      assert ids == {};
    } else {
      var init, last := incoming[..|incoming| - 1], incoming[|incoming| - 1];
      UpdatedIsChangedIds(rows, init, skip);
      RowsHoldItems(init, last.id);
      var before := set id | id in Rows(init).Keys && id in rows && !skip(Rows(init)[id], rows[id]);
      assert ids == before + if last.id in rows && !skip(last.value, rows[last.id]) then {last.id} else {};
    }
  }

  /** Existing plus added minus removed is incoming. */
  lemma CountsBalance<Id, V>(existing: seq<Item<Id, V>>, incoming: seq<Item<Id, V>>)
    requires DistinctIds(existing) && DistinctIds(incoming)
    ensures |existing| + CountOutside(incoming, Rows(existing).Keys)
            - CountOutside(existing, Rows(incoming).Keys) == |incoming|
  {
    var e, i := Rows(existing).Keys, Rows(incoming).Keys;
    CountsAreSets(existing, i);
    CountsAreSets(incoming, e);
    SplitCard(e, i);
    SplitCard(i, e);
    assert e * i == i * e;
  }

  lemma SplitCard<T>(a: set<T>, b: set<T>)
    ensures |a| == |a - b| + |a * b|
  {
    assert a == (a - b) + (a * b);
  }
}
