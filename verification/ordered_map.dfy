/**
 * A JavaScript `Map`: a finite map that iterates in insertion order. Setting a
 * present key keeps its place; deleting and setting it again moves it to the end.
 */
module OrderedMaps {
  datatype OrderedMap<K(==,!new), V> = OrderedMap(keys: seq<K>, vals: map<K, V>) {
    ghost predicate Wf() {
      Distinct(keys) && forall k :: k in keys <==> k in vals
    }

    function Delete(k: K): OrderedMap<K, V> {
      OrderedMap(Without(keys, k), map x | x in vals && x != k :: vals[x])
    }

    function Set(k: K, v: V): OrderedMap<K, V> {
      OrderedMap(if k in vals then keys else keys + [k], vals[k := v])
    }

    function DropOldest(n: nat): OrderedMap<K, V>
      requires n <= |keys|
    {
      OrderedMap(keys[n..], map x | x in vals && x !in keys[..n] :: vals[x])
    }

    /** Drop the oldest keys over the cap. */
    function Evicted(maxItems: int): OrderedMap<K, V> {
      if |keys| > Cap(maxItems) then DropOldest(|keys| - Cap(maxItems)) else this
    }
  }

  function Without<K(==)>(keys: seq<K>, k: K): seq<K> {
    if keys == [] then []
    else if keys[0] == k then Without(keys[1..], k)
    else [keys[0]] + Without(keys[1..], k)
  }

  function Empty<K(==,!new), V>(): OrderedMap<K, V> {
    OrderedMap([], map[])
  }

  function Cap(maxItems: int): nat {
    if maxItems < 0 then 0 else maxItems
  }

  /** Move `k` to the end with value `v`, then drop the oldest keys over the cap. */
  function Touch<K(==,!new), V>(m: OrderedMap<K, V>, k: K, v: V, maxItems: int): OrderedMap<K, V> {
    m.Delete(k).Set(k, v).Evicted(maxItems)
  }

  ghost predicate Distinct<K>(keys: seq<K>) {
    forall i, j :: 0 <= i < j < |keys| ==> keys[i] != keys[j]
  }

  lemma {:induction false} WithoutKeepsOthers<K(!new)>(keys: seq<K>, k: K)
    requires Distinct(keys)
    ensures Distinct(Without(keys, k))
    ensures forall x :: x in Without(keys, k) <==> x in keys && x != k
    ensures |Without(keys, k)| == if k in keys then |keys| - 1 else |keys|
  {
    if keys != [] {
      WithoutKeepsOthers(keys[1..], k);
      assert keys == [keys[0]] + keys[1..];
      assert keys[0] !in keys[1..];
      var w := Without(keys[1..], k);
      assert keys[0] !in w;
    }
  }

  lemma {:induction false} WithoutAbsent<K(!new)>(keys: seq<K>, k: K)
    requires k !in keys
    ensures Without(keys, k) == keys
  {
    if keys != [] {
      WithoutAbsent(keys[1..], k);
    }
  }

  lemma DeleteAbsent<K(!new), V>(m: OrderedMap<K, V>, k: K)
    requires k !in m.keys && k !in m.vals
    ensures m.Delete(k) == m
  {
    WithoutAbsent(m.keys, k);
    assert m.Delete(k).vals == m.vals;
  }

  lemma DeleteWf<K(!new), V>(m: OrderedMap<K, V>, k: K)
    requires m.Wf()
    ensures m.Delete(k).Wf() && k !in m.Delete(k).vals
    ensures |m.Delete(k).keys| == if k in m.vals then |m.keys| - 1 else |m.keys|
  {
    WithoutKeepsOthers(m.keys, k);
  }

  lemma DropOldestWf<K(!new), V>(m: OrderedMap<K, V>, n: nat)
    requires m.Wf() && n <= |m.keys|
    ensures m.DropOldest(n).Wf()
  {
    var kept := m.keys[n..];
    assert m.keys == m.keys[..n] + kept;
    assert forall x :: x in m.keys <==> x in m.keys[..n] || x in kept;
    forall x | x in kept ensures x !in m.keys[..n] {
      var i :| n <= i < |m.keys| && m.keys[i] == x;
    }
  }

  lemma SetWf<K(!new), V>(m: OrderedMap<K, V>, k: K, v: V)
    requires m.Wf()
    ensures m.Set(k, v).Wf()
  {}

  lemma TouchWf<K(!new), V>(m: OrderedMap<K, V>, k: K, v: V, maxItems: int)
    requires m.Wf()
    ensures Touch(m, k, v, maxItems).Wf()
    ensures |Touch(m, k, v, maxItems).keys| <= Cap(maxItems)
  {
    DeleteWf(m, k);
    SetWf(m.Delete(k), k, v);
    var moved := m.Delete(k).Set(k, v);
    var over := |moved.keys| - Cap(maxItems);
    if over > 0 {
      DropOldestWf(moved, over);
    }
  }

  /** Deleting and setting a key again is touching it, while the map is within its cap. */
  lemma ReplaceIsTouch<K(!new), V>(m: OrderedMap<K, V>, k: K, v: V, maxItems: int)
    requires m.Wf() && k in m.vals && |m.keys| <= Cap(maxItems)
    ensures m.Delete(k).Set(k, v) == Touch(m, k, v, maxItems)
  {
    DeleteWf(m, k);
  }

  /** So is setting a deleted or new key and dropping the oldest one when that is one too many. */
  lemma MoveIsTouch<K(!new), V>(m: OrderedMap<K, V>, k: K, v: V, maxItems: int)
    requires m.Wf() && |m.keys| <= Cap(maxItems)
    ensures var moved := m.Delete(k).Set(k, v);
            && Touch(m, k, v, maxItems) == (if |moved.keys| > Cap(maxItems) then moved.DropOldest(1) else moved)
  {
    DeleteWf(m, k);
  }

  /** Every key that comes after `k` is one of `others`. */
  ghost predicate FollowedBy<K>(keys: seq<K>, k: K, others: set<K>) {
    forall i, j :: 0 <= i < j < |keys| && keys[i] == k ==> keys[j] in others
  }

  lemma {:induction false} WithoutFollowedBy<K(!new)>(keys: seq<K>, j: K, k: K, others: set<K>)
    requires Distinct(keys) && FollowedBy(keys, k, others)
    ensures FollowedBy(Without(keys, j), k, others)
  {
    if keys != [] {
      assert keys[1..] + [] == keys[1..];
      forall a, b | 0 <= a < b < |keys[1..]| && keys[1..][a] == k ensures keys[1..][b] in others {
        assert keys[a + 1] == k;
      }
      WithoutFollowedBy(keys[1..], j, k, others);
      WithoutKeepsOthers(keys[1..], j);
      var w := Without(keys[1..], j);
      if keys[0] == k && keys[0] != j {
        forall x | x in w ensures x in others {
          assert x in keys[1..];
        }
      }
    }
  }

  lemma {:induction false} DistinctCard<K(!new)>(keys: seq<K>, s: set<K>)
    requires Distinct(keys) && forall k :: k in keys ==> k in s
    ensures |keys| <= |s|
  {
    if keys != [] {
      forall k | k in keys[1..] ensures k in s - {keys[0]} {}
      DistinctCard(keys[1..], s - {keys[0]});
    }
  }

  lemma MovedKeeps<K(!new), V>(m: OrderedMap<K, V>, j: K, v: V, k: K, others: set<K>)
    requires m.Wf() && j != k && FollowedBy(m.keys, k, others)
    ensures var moved := m.Delete(j).Set(j, v);
            && moved.Wf() && FollowedBy(moved.keys, k, others + {j})
            && (k in moved.vals <==> k in m.vals) && (k in m.vals ==> moved.vals[k] == m.vals[k])
  {
    DeleteWf(m, j);
    SetWf(m.Delete(j), j, v);
    WithoutFollowedBy(m.keys, j, k, others);
  }

  lemma FollowersDropped<K(!new)>(keys: seq<K>, n: nat, k: K, others: set<K>)
    requires Distinct(keys) && n <= |keys| && FollowedBy(keys, k, others)
    ensures FollowedBy(keys[n..], k, others)
    ensures k in keys[..n] ==> |keys| - n <= |others|
  {
    var kept := keys[n..];
    forall a, b | 0 <= a < b < |kept| && kept[a] == k ensures kept[b] in others {
      assert keys[n + a] == k && keys[n + b] == kept[b];
    }
    if k in keys[..n] {
      var i :| 0 <= i < n && keys[i] == k;
      forall x | x in kept ensures x in others {
        var b :| n <= b < |keys| && keys[b] == x;
      }
      DistinctCard(kept, others);
    }
  }

  /**
   * Touching `j` leaves another key `k` in place with its value until as many
   * other keys follow it as the map may hold.
   */
  lemma TouchKeeps<K(!new), V>(m: OrderedMap<K, V>, j: K, v: V, maxItems: int, k: K, others: set<K>)
    requires m.Wf() && j != k && FollowedBy(m.keys, k, others)
    ensures var t := Touch(m, j, v, maxItems);
            && FollowedBy(t.keys, k, others + {j})
            && (k in t.vals ==> k in m.vals && t.vals[k] == m.vals[k])
            && (k in m.vals && |others + {j}| < maxItems ==> k in t.vals)
  {
    MovedKeeps(m, j, v, k, others);
    var moved := m.Delete(j).Set(j, v);
    var over := |moved.keys| - Cap(maxItems);
    if over > 0 {
      FollowersDropped(moved.keys, over, k, others + {j});
    }
  }

  lemma CardSubset<T>(a: set<T>, b: set<T>)
    requires a <= b
    ensures |a| <= |b|
  {
    assert b == a + (b - a);
  }

  /** A touched key is last, so nothing follows it. */
  lemma TouchedIsLast<K(!new), V>(m: OrderedMap<K, V>, k: K, v: V, maxItems: int)
    requires m.Wf()
    ensures var t := Touch(m, k, v, maxItems);
            && FollowedBy(t.keys, k, {})
            && (k in t.vals <==> maxItems > 0)
            && (k in t.vals ==> t.vals[k] == v)
  {
    WithoutKeepsOthers(m.keys, k);
    var moved := m.Delete(k).Set(k, v);
    assert moved.keys == Without(m.keys, k) + [k];
    TouchWf(m, k, v, maxItems);
    var over := |moved.keys| - Cap(maxItems);
    if over > 0 && maxItems > 0 {
      assert moved.keys[over..][|moved.keys| - 1 - over] == k;
      assert k !in moved.keys[..over];
    }
  }

  lemma DeleteFollowedBy<K(!new), V>(m: OrderedMap<K, V>, j: K, k: K, others: set<K>)
    requires m.Wf() && FollowedBy(m.keys, k, others)
    ensures FollowedBy(m.Delete(j).keys, k, others)
  {
    WithoutFollowedBy(m.keys, j, k, others);
  }

  /** The keys come in ascending `rank`. */
  ghost predicate Ascending<K>(keys: seq<K>, rank: K -> int) {
    forall i, j :: 0 <= i < j < |keys| ==> rank(keys[i]) < rank(keys[j])
  }

  lemma {:induction false} WithoutAscending<K(!new)>(keys: seq<K>, k: K, rank: K -> int)
    requires Distinct(keys) && Ascending(keys, rank)
    ensures Ascending(Without(keys, k), rank)
  {
    if keys != [] {
      WithoutAscending(keys[1..], k, rank);
      WithoutKeepsOthers(keys[1..], k);
      forall x | x in Without(keys[1..], k) ensures rank(keys[0]) < rank(x) {
        assert x in keys[1..];
      }
    }
  }

  // --------------------------------------------------------------------- order

  ghost predicate Precedes<K>(keys: seq<K>, x: K, y: K) {
    exists i, j :: 0 <= i < j < |keys| && keys[i] == x && keys[j] == y
  }

  lemma {:induction false} WithoutKeepsOrder<K(!new)>(keys: seq<K>, k: K, x: K, y: K)
    requires x != k && y != k
    ensures Precedes(Without(keys, k), x, y) <==> Precedes(keys, x, y)
  {
    if keys != [] {
      WithoutKeepsOrder(keys[1..], k, x, y);
      PrecedesUnfolds(keys, x, y);
      if keys[0] != k {
        var w := Without(keys[1..], k);
        PrecedesUnfolds([keys[0]] + w, x, y);
        assert ([keys[0]] + w)[1..] == w;
        WithoutHolds(keys[1..], k, y);
      }
    }
  }

  lemma PrecedesUnfolds<K(!new)>(keys: seq<K>, x: K, y: K)
    requires keys != []
    ensures Precedes(keys, x, y) <==> (keys[0] == x && y in keys[1..]) || Precedes(keys[1..], x, y)
  {
    var rest := keys[1..];
    if keys[0] == x && y in rest {
      var j :| 0 <= j < |rest| && rest[j] == y;
      assert keys[0] == x && keys[j + 1] == y;
    }
    if Precedes(rest, x, y) {
      var i, j :| 0 <= i < j < |rest| && rest[i] == x && rest[j] == y;
      assert keys[i + 1] == x && keys[j + 1] == y;
    }
    if Precedes(keys, x, y) {
      var i, j :| 0 <= i < j < |keys| && keys[i] == x && keys[j] == y;
      assert rest[j - 1] == y;
      assert i > 0 ==> rest[i - 1] == x;
    }
  }

  lemma {:induction false} WithoutHolds<K(!new)>(keys: seq<K>, k: K, x: K)
    requires x != k
    ensures x in Without(keys, k) <==> x in keys
  {
    if keys != [] {
      WithoutHolds(keys[1..], k, x);
      assert keys == [keys[0]] + keys[1..];
    }
  }

  /**
   * Touching keeps the other keys in their order, puts the touched one last,
   * and drops only keys that precede all that stay.
   */
  lemma TouchKeepsOrder<K(!new), V>(m: OrderedMap<K, V>, k: K, v: V, maxItems: int, x: K, y: K)
    requires m.Wf() && x != k && y != k
    ensures var t := Touch(m, k, v, maxItems);
            && (x in t.keys && y in t.keys ==> (Precedes(t.keys, x, y) <==> Precedes(m.keys, x, y)))
            && (t.keys != [] ==> t.keys[|t.keys| - 1] == k)
            && (x in m.keys && x !in t.keys && y in t.keys ==> Precedes(m.keys, x, y))
  {
    var moved := m.Delete(k).Set(k, v);
    MovedKeys(m, k, v);
    hide Precedes, Without, OrderedMap.Delete, OrderedMap.Set;
    WithoutKeepsOrder(m.keys, k, x, y);
    WithoutHolds(m.keys, k, x);
    AppendKeepsOrder(Without(m.keys, k), k, x, y);
    if |moved.keys| > Cap(maxItems) {
      DropKeepsOrder(moved.keys, |moved.keys| - Cap(maxItems), x, y);
    }
  }

  lemma MovedKeys<K(!new), V>(m: OrderedMap<K, V>, k: K, v: V)
    requires m.Wf()
    ensures m.Delete(k).Set(k, v).Wf() && m.Delete(k).Set(k, v).keys == Without(m.keys, k) + [k]
  {
    DeleteWf(m, k);
    SetWf(m.Delete(k), k, v);
  }

  lemma AppendKeepsOrder<K(!new)>(keys: seq<K>, k: K, x: K, y: K)
    requires y != k
    ensures Precedes(keys + [k], x, y) <==> Precedes(keys, x, y)
  {
    if Precedes(keys, x, y) {
      var i, j :| 0 <= i < j < |keys| && keys[i] == x && keys[j] == y;
      assert (keys + [k])[i] == x && (keys + [k])[j] == y;
    }
  }

  lemma DropKeepsOrder<K(!new)>(keys: seq<K>, n: nat, x: K, y: K)
    requires Distinct(keys) && n <= |keys|
    ensures x in keys[n..] && y in keys[n..] ==> (Precedes(keys[n..], x, y) <==> Precedes(keys, x, y))
    ensures x in keys && x !in keys[n..] && y in keys[n..] ==> Precedes(keys, x, y)
  {
    var kept := keys[n..];
    if x in keys && y in kept {
      var i :| 0 <= i < |keys| && keys[i] == x;
      var j :| 0 <= j < |kept| && kept[j] == y;
      assert keys[n + j] == y;
      assert i >= n ==> kept[i - n] == x;
    }
  }
}
