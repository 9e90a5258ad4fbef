/**
 * The relational store with the SQL engine abstracted away.
 *
 * A dimension table (university, school, degree/programme, survey year) maps
 * each natural key, declared UNIQUE, to an autoincrement id. A fact table
 * holds one row per (dimension id, year id), the UNIQUE pair of every
 * variant of the schema, and is written by one of three statements: the ORM
 * upsert (update in place), INSERT OR REPLACE (delete, then insert with a new
 * id) and INSERT OR IGNORE (keep what is there).
 */
module Tables {
  import opened Wrappers

  // ---------------------------------------------------------------------
  // Dimension tables
  // ---------------------------------------------------------------------

  /** `ids` maps a natural key to its row id; `next` is the id the next
      insert receives (SQLite's AUTOINCREMENT counter). */
  datatype KeyedTable<K> = KeyedTable(ids: map<K, nat>, next: nat)

  /** Keys `k` and `k'` share an id only when they are the same key. */
  ghost predicate DistinctIds<K>(t: KeyedTable<K>, k: K, k': K) {
    k in t.ids && k' in t.ids && t.ids[k] == t.ids[k'] ==> k == k'
  }

  /** Ids are positive, below the counter, and distinct. The last conjunct
      is used only where a proof names the two keys. */
  ghost predicate Valid<K>(t: KeyedTable<K>) {
    && 1 <= t.next
    && (forall k :: k in t.ids ==> 1 <= t.ids[k] < t.next)
    && (forall k, k' {:trigger DistinctIds(t, k, k')} :: k in t.ids && k' in t.ids ==> DistinctIds(t, k, k'))
  }

  /** `t'` is `t` with rows added: every key keeps its id. */
  ghost predicate Extends<K>(t: KeyedTable<K>, t': KeyedTable<K>) {
    && t.next <= t'.next
    && (forall k :: k in t.ids ==> k in t'.ids && t'.ids[k] == t.ids[k])
  }

  lemma ExtendsTransitive<K>(t: KeyedTable<K>, t': KeyedTable<K>, t'': KeyedTable<K>)
    requires Extends(t, t') && Extends(t', t'')
    ensures Extends(t, t'')
  {
  }

  function EmptyTable<K>(): (t: KeyedTable<K>)
    ensures Valid(t) && t.ids == map[]
  {
    KeyedTable(map[], 1)
  }

  /** SELECT id ... WHERE key = k, then INSERT when nothing came back:
      returns the table afterwards and the id of the row holding `k`. */
  function GetOrInsert<K>(t: KeyedTable<K>, k: K): (r: (KeyedTable<K>, nat))
    ensures k in r.0.ids && r.0.ids[k] == r.1
    ensures k in t.ids ==> r.0 == t
  {
    if k in t.ids then (t, t.ids[k])
    else (KeyedTable(t.ids[k := t.next], t.next + 1), t.next)
  }

  /** A get-or-insert keeps the ids distinct and only adds: a missing key is
      added under the next id, and nothing else changes. */
  lemma GetOrInsertFacts<K>(t: KeyedTable<K>, k: K)
    requires Valid(t)
    ensures var r := GetOrInsert(t, k);
      && Valid(r.0) && Extends(t, r.0)
      && (k !in t.ids ==> r.0.ids.Keys == t.ids.Keys + {k} && r.1 == t.next && r.0.next == t.next + 1)
  {
    if k !in t.ids {
      InsertFreshValid(t, k);
    }
  }

  /** A new key under the next id keeps ids distinct. */
  lemma InsertFreshValid<K>(t: KeyedTable<K>, k: K)
    requires Valid(t) && k !in t.ids
    ensures Valid(KeyedTable(t.ids[k := t.next], t.next + 1))
  {
    var t' := KeyedTable(t.ids[k := t.next], t.next + 1);
    forall a, b | a in t'.ids && b in t'.ids
      ensures DistinctIds(t', a, b)
    {
      if a != k && b != k {
        assert DistinctIds(t, a, b);
      }
    }
  }

  /** A second get-or-insert of the same key changes nothing and returns the same id. */
  lemma GetOrInsertIdempotent<K>(t: KeyedTable<K>, k: K)
    ensures GetOrInsert(GetOrInsert(t, k).0, k) == GetOrInsert(t, k)
  {
  }

  /** `executemany("INSERT OR IGNORE ...", ks)`: each key not yet present is
      inserted, in order; the keys afterwards are the old ones and `ks`. */
  function InsertAllOrIgnore<K>(t: KeyedTable<K>, ks: seq<K>): (r: KeyedTable<K>)
    ensures r.ids.Keys == t.ids.Keys + set k | k in ks
    decreases |ks|
  {
    if ks == [] then t
    else
      var r := InsertAllOrIgnore(GetOrInsert(t, ks[0]).0, ks[1..]);
      assert GetOrInsert(t, ks[0]).0.ids.Keys == t.ids.Keys + {ks[0]};
      assert (set k | k in ks) == {ks[0]} + set k | k in ks[1..];
      r
  }

  /** The batch keeps ids distinct and every existing key keeps its id. */
  lemma {:induction false} InsertAllOrIgnoreValid<K>(t: KeyedTable<K>, ks: seq<K>)
    requires Valid(t)
    ensures Valid(InsertAllOrIgnore(t, ks)) && Extends(t, InsertAllOrIgnore(t, ks))
    decreases |ks|
  {
    if ks != [] {
      var t1 := GetOrInsert(t, ks[0]).0;
      GetOrInsertFacts(t, ks[0]);
      InsertAllOrIgnoreValid(t1, ks[1..]);
      ExtendsTransitive(t, t1, InsertAllOrIgnore(t1, ks[1..]));
    }
  }

  lemma {:induction false} InsertAllOrIgnorePresent<K>(t: KeyedTable<K>, ks: seq<K>)
    requires forall k :: k in ks ==> k in t.ids
    ensures InsertAllOrIgnore(t, ks) == t
    decreases |ks|
  {
    if ks != [] {
      InsertAllOrIgnorePresent(t, ks[1..]);
    }
  }

  /** Loading the same keys twice leaves the table as the first load left it. */
  lemma InsertAllOrIgnoreIdempotent<K>(t: KeyedTable<K>, ks: seq<K>)
    ensures InsertAllOrIgnore(InsertAllOrIgnore(t, ks), ks) == InsertAllOrIgnore(t, ks)
  {
    InsertAllOrIgnorePresent(InsertAllOrIgnore(t, ks), ks);
  }

  // ---------------------------------------------------------------------
  // Fact tables
  // ---------------------------------------------------------------------

  type FactKey = (nat, nat)

  datatype Fact<V> = Fact(id: nat, key: FactKey, values: V)

  datatype FactTable<V> = FactTable(rows: seq<Fact<V>>, next: nat)

  /** Rows `i` and `j` hold different keys and different ids. */
  ghost predicate RowsDiffer<V>(rows: seq<Fact<V>>, i: int, j: int) {
    0 <= i < j < |rows| ==> rows[i].key != rows[j].key && rows[i].id != rows[j].id
  }

  /** Distinct rows differ in key and in id; used only where a proof names
      the two positions. */
  ghost predicate KeysUnique<V>(rows: seq<Fact<V>>) {
    forall i, j {:trigger RowsDiffer(rows, i, j)} :: RowsDiffer(rows, i, j)
  }

  /** UNIQUE (dimension id, year id), and distinct ids below the counter. */
  ghost predicate ValidFacts<V>(t: FactTable<V>) {
    && KeysUnique(t.rows)
    && (forall i :: 0 <= i < |t.rows| ==> t.rows[i].id < t.next)
  }

  function EmptyFacts<V>(): (t: FactTable<V>)
    ensures ValidFacts(t) && t.rows == []
  {
    FactTable([], 1)
  }

  /** Position of the row holding `key`. */
  function Find<V>(rows: seq<Fact<V>>, key: FactKey): (r: Option<nat>)
    ensures r.Some? ==> r.value < |rows| && rows[r.value].key == key
    ensures r.None? ==> forall i :: 0 <= i < |rows| ==> rows[i].key != key
  {
    if rows == [] then None
    else if rows[|rows| - 1].key == key then Some(|rows| - 1)
    else Find(rows[..|rows| - 1], key)
  }

  lemma {:induction false} FindUnique<V>(rows: seq<Fact<V>>, i: nat, key: FactKey)
    requires KeysUnique(rows) && i < |rows| && rows[i].key == key
    ensures Find(rows, key) == Some(i)
    decreases |rows|
  {
    var n := |rows| - 1;
    if i < n {
      assert RowsDiffer(rows, i, n);
      var init := rows[..n];
      assert KeysUnique(init) by {
        forall a, b
          ensures RowsDiffer(init, a, b)
        {
          assert RowsDiffer(rows, a, b);
        }
      }
      FindUnique(init, i, key);
    }
  }

  /** SELECT values WHERE (dimension id, year id) = key. */
  function ValueAt<V>(t: FactTable<V>, key: FactKey): Option<V> {
    match Find(t.rows, key)
    case Some(i) => Some(t.rows[i].values)
    case None => None
  }

  /** The values stored at `key` are those of the row whose key it is. */
  lemma ValueAtRow<V>(t: FactTable<V>, i: nat)
    requires KeysUnique(t.rows) && i < |t.rows|
    ensures ValueAt(t, t.rows[i].key) == Some(t.rows[i].values)
  {
    FindUnique(t.rows, i, t.rows[i].key);
  }

  /** Under UNIQUE a present key is held by exactly one row. */
  lemma ExactlyOneRow<V>(t: FactTable<V>, key: FactKey)
    requires ValidFacts(t) && ValueAt(t, key).Some?
    ensures |set i | 0 <= i < |t.rows| && t.rows[i].key == key| == 1
  {
    var i := Find(t.rows, key).value;
    forall j | 0 <= j < |t.rows| && t.rows[j].key == key
      ensures j == i
    {
      assert RowsDiffer(t.rows, j, i) && RowsDiffer(t.rows, i, j);
    }
    assert (set i | 0 <= i < |t.rows| && t.rows[i].key == key) == {i};
  }

  /** The ORM upsert: when a row holds `key` its values are overwritten in
      place (it keeps its id), otherwise a row is added. */
  function Upsert<V>(t: FactTable<V>, key: FactKey, v: V): FactTable<V> {
    match Find(t.rows, key)
    case Some(i) => FactTable(t.rows[i := t.rows[i].(values := v)], t.next)
    case None => Append(t, key, v)
  }

  /** After an upsert `key` holds `v` and every other key holds what it
      held; an existing row keeps its position and id, a new row gets the
      next id. */
  lemma UpsertFacts<V>(t: FactTable<V>, key: FactKey, v: V)
    requires ValidFacts(t)
    ensures var r := Upsert(t, key, v);
      && ValidFacts(r)
      && ValueAt(r, key) == Some(v)
      && (forall k :: k != key ==> ValueAt(r, k) == ValueAt(t, k))
      && (ValueAt(t, key).Some? ==> |r.rows| == |t.rows| && r.next == t.next)
      && (ValueAt(t, key).Some? ==> forall i :: 0 <= i < |t.rows| ==> r.rows[i].id == t.rows[i].id && r.rows[i].key == t.rows[i].key)
      && (ValueAt(t, key).None? ==> r.rows == t.rows + [Fact(t.next, key, v)])
  {
    match Find(t.rows, key)
    case Some(i) => UpdateValues(t, i, v);
    case None => AppendValues(t, key, v);
  }

  lemma UpdateValues<V>(t: FactTable<V>, i: nat, v: V)
    requires ValidFacts(t) && i < |t.rows|
    ensures var r := FactTable(t.rows[i := t.rows[i].(values := v)], t.next);
      && ValidFacts(r)
      && ValueAt(r, t.rows[i].key) == Some(v)
      && forall k :: k != t.rows[i].key ==> ValueAt(r, k) == ValueAt(t, k)
  {
    var r := FactTable(t.rows[i := t.rows[i].(values := v)], t.next);
    assert KeysUnique(r.rows) by {
      forall a, b
        ensures RowsDiffer(r.rows, a, b)
      {
        assert RowsDiffer(t.rows, a, b);
      }
    }
    ValueAtRow(r, i);
    forall k | k != t.rows[i].key
      ensures ValueAt(r, k) == ValueAt(t, k)
    {
      match Find(t.rows, k)
      case Some(j) => ValueAtRow(r, j);
      case None =>
    }
  }

  /** A new row with the next id. */
  function Append<V>(t: FactTable<V>, key: FactKey, v: V): FactTable<V> {
    FactTable(t.rows + [Fact(t.next, key, v)], t.next + 1)
  }

  /** Appending a key no row holds keeps UNIQUE, stores `v` at the key and
      leaves every other key alone. */
  lemma AppendValues<V>(t: FactTable<V>, key: FactKey, v: V)
    requires ValidFacts(t) && ValueAt(t, key).None?
    ensures var r := Append(t, key, v);
      && ValidFacts(r)
      && ValueAt(r, key) == Some(v)
      && forall k :: k != key ==> ValueAt(r, k) == ValueAt(t, k)
  {
    var r := Append(t, key, v);
    assert KeysUnique(r.rows) by {
      forall a, b
        ensures RowsDiffer(r.rows, a, b)
      {
        if b < |t.rows| {
          assert RowsDiffer(t.rows, a, b);
        }
      }
    }
    ValueAtRow(r, |t.rows|);
    forall k | k != key
      ensures ValueAt(r, k) == ValueAt(t, k)
    {
      match Find(t.rows, k)
      case Some(j) => ValueAtRow(r, j);
      case None =>
    }
  }

  /** The rows without the one at position `i`. */
  function RemoveAt<V>(t: FactTable<V>, i: nat): FactTable<V>
    requires i < |t.rows|
  {
    FactTable(t.rows[..i] + t.rows[i + 1..], t.next)
  }

  lemma RemoveAtRows<V>(t: FactTable<V>, i: nat)
    requires i < |t.rows|
    ensures |RemoveAt(t, i).rows| == |t.rows| - 1
    ensures forall j :: 0 <= j < |t.rows| - 1 ==> RemoveAt(t, i).rows[j] == if j < i then t.rows[j] else t.rows[j + 1]
  {
  }

  /** Removing a row keeps UNIQUE, leaves its key without values and every
      other key alone. */
  lemma RemoveValues<V>(t: FactTable<V>, i: nat)
    requires ValidFacts(t) && i < |t.rows|
    ensures var r := RemoveAt(t, i);
      && ValidFacts(r) && |r.rows| == |t.rows| - 1
      && ValueAt(r, t.rows[i].key).None?
      && forall k :: k != t.rows[i].key ==> ValueAt(r, k) == ValueAt(t, k)
  {
    var r := RemoveAt(t, i);
    RemoveAtRows(t, i);
    assert KeysUnique(r.rows) by {
      forall a, b
        ensures RowsDiffer(r.rows, a, b)
      {
        var a', b' := if a < i then a else a + 1, if b < i then b else b + 1;
        assert RowsDiffer(t.rows, a', b');
      }
    }
    forall j | 0 <= j < |r.rows|
      ensures r.rows[j].key != t.rows[i].key
    {
      if j < i {
        assert RowsDiffer(t.rows, j, i);
      } else {
        assert RowsDiffer(t.rows, i, j + 1);
      }
    }
    forall k | k != t.rows[i].key
      ensures ValueAt(r, k) == ValueAt(t, k)
    {
      match Find(t.rows, k)
      case Some(j) =>
        var j' := if j < i then j else j - 1;
        ValueAtRow(r, j');
      case None =>
    }
  }

  /** INSERT OR REPLACE: a row already holding `key` is deleted and a new row
      with a fresh id is inserted, so the last write wins. */
  function InsertOrReplace<V>(t: FactTable<V>, key: FactKey, v: V): FactTable<V> {
    match Find(t.rows, key)
    case Some(i) => Append(RemoveAt(t, i), key, v)
    case None => Append(t, key, v)
  }

  /** After INSERT OR REPLACE `key` holds `v` in a new last row with the
      next id, and every other key holds what it held. */
  lemma InsertOrReplaceFacts<V>(t: FactTable<V>, key: FactKey, v: V)
    requires ValidFacts(t)
    ensures var r := InsertOrReplace(t, key, v);
      && ValidFacts(r)
      && ValueAt(r, key) == Some(v)
      && (forall k :: k != key ==> ValueAt(r, k) == ValueAt(t, k))
      && r.rows[|r.rows| - 1] == Fact(t.next, key, v) && r.next == t.next + 1
  {
    match Find(t.rows, key)
    case Some(i) =>
      RemoveValues(t, i);
      AppendValues(RemoveAt(t, i), key, v);
    case None =>
      AppendValues(t, key, v);
  }

  /** INSERT OR IGNORE: nothing happens when a row already holds `key`, so
      the first write wins. */
  function InsertOrIgnore<V>(t: FactTable<V>, key: FactKey, v: V): FactTable<V> {
    if Find(t.rows, key).Some? then t else Append(t, key, v)
  }

  /** After INSERT OR IGNORE a present key keeps its values, a missing key
      holds `v`, and every other key holds what it held. */
  lemma InsertOrIgnoreFacts<V>(t: FactTable<V>, key: FactKey, v: V)
    requires ValidFacts(t)
    ensures var r := InsertOrIgnore(t, key, v);
      && ValidFacts(r)
      && ValueAt(r, key) == (if ValueAt(t, key).Some? then ValueAt(t, key) else Some(v))
      && forall k :: k != key ==> ValueAt(r, k) == ValueAt(t, k)
  {
    if Find(t.rows, key).None? {
      AppendValues(t, key, v);
    }
  }

  /** The values of the first item carrying `key`. */
  function FirstValue<V>(items: seq<(FactKey, V)>, key: FactKey): Option<V> {
    if items == [] then None
    else if items[0].0 == key then Some(items[0].1)
    else FirstValue(items[1..], key)
  }

  /** `executemany("INSERT OR IGNORE ...", items)` */
  function InsertAllOrIgnoreFacts<V>(t: FactTable<V>, items: seq<(FactKey, V)>): FactTable<V>
    decreases |items|
  {
    if items == [] then t
    else InsertAllOrIgnoreFacts(InsertOrIgnore(t, items[0].0, items[0].1), items[1..])
  }

  /** A batch of INSERT OR IGNORE keeps every natural key unique. */
  lemma {:induction false} InsertAllOrIgnoreFactsValid<V>(t: FactTable<V>, items: seq<(FactKey, V)>)
    requires ValidFacts(t)
    ensures ValidFacts(InsertAllOrIgnoreFacts(t, items))
    decreases |items|
  {
    if items != [] {
      InsertOrIgnoreFacts(t, items[0].0, items[0].1);
      InsertAllOrIgnoreFactsValid(InsertOrIgnore(t, items[0].0, items[0].1), items[1..]);
    }
  }

  /** The first item carrying `key` is one of the items. */
  lemma {:induction false} FirstValueIn<V>(items: seq<(FactKey, V)>, key: FactKey)
    ensures FirstValue(items, key).Some? ==> (key, FirstValue(items, key).value) in items
    decreases |items|
  {
    if items != [] && items[0].0 != key {
      FirstValueIn(items[1..], key);
    }
  }

  /** After a batch of INSERT OR IGNORE a key keeps the values it had, and a
      new key holds the values of the first item that carried it. */
  lemma {:induction false} FirstWins<V>(t: FactTable<V>, items: seq<(FactKey, V)>, key: FactKey)
    requires ValidFacts(t)
    ensures ValueAt(InsertAllOrIgnoreFacts(t, items), key)
         == if ValueAt(t, key).Some? then ValueAt(t, key) else FirstValue(items, key)
    decreases |items|
  {
    if items != [] {
      InsertOrIgnoreFacts(t, items[0].0, items[0].1);
      FirstWins(InsertOrIgnore(t, items[0].0, items[0].1), items[1..], key);
    }
  }

  // ---------------------------------------------------------------------
  // Loading row by row with upserts: the last row with a natural key wins
  // ---------------------------------------------------------------------

  /** The values of the last item whose natural key is `nk`. */
  function LastValue<NK(==), V>(items: seq<(NK, V)>, nk: NK): Option<V> {
    if items == [] then None
    else if items[|items| - 1].0 == nk then Some(items[|items| - 1].1)
    else LastValue(items[..|items| - 1], nk)
  }

  /** Every loaded item's natural key resolves, through `resolve`, to a fact
      holding the values of the last item loaded with that natural key. */
  ghost predicate LastWins<NK, V>(t: FactTable<V>, resolve: map<NK, FactKey>, items: seq<(NK, V)>) {
    forall j :: 0 <= j < |items| ==>
      items[j].0 in resolve && ValueAt(t, resolve[items[j].0]) == LastValue(items, items[j].0)
  }

  /** Distinct natural keys resolve to distinct fact keys. */
  ghost predicate Injective<NK>(resolve: map<NK, FactKey>) {
    forall n, n' :: n in resolve && n' in resolve && resolve[n] == resolve[n'] ==> n == n'
  }

  /** Loading one more item, whose natural key resolves to a fact key that
      only it owns, by a write that leaves every other fact key alone, keeps
      the last-wins property. */
  lemma LastWinsStep<NK, V>(t: FactTable<V>, t': FactTable<V>, resolve: map<NK, FactKey>,
                            resolve': map<NK, FactKey>, items: seq<(NK, V)>, nk: NK, v: V)
    requires LastWins(t, resolve, items)
    requires forall n :: n in resolve ==> n in resolve' && resolve'[n] == resolve[n]
    requires nk in resolve' && Injective(resolve')
    requires ValueAt(t', resolve'[nk]) == Some(v)
    requires forall k :: k != resolve'[nk] ==> ValueAt(t', k) == ValueAt(t, k)
    ensures LastWins(t', resolve', items + [(nk, v)])
  {
    var items' := items + [(nk, v)];
    forall j | 0 <= j < |items'|
      ensures items'[j].0 in resolve' && ValueAt(t', resolve'[items'[j].0]) == LastValue(items', items'[j].0)
    {
      assert items'[..|items'| - 1] == items;
      if j < |items| {
        assert items'[j] == items[j];
      }
    }
  }
}
