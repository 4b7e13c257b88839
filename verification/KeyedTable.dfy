/** A table with a primary key, and the finite map its rows stand for.

A reading gives the value of a row, if it has one; a value is filed under a logical key.  The lemmas
need only know, for the key an operation works on, that rows carry its column form exactly when their
values carry its logical form.
*/
module KeyedTable {
  import opened Options

  datatype Keyed<K, C> = Keyed(id: K, columns: C)

  ghost predicate UniqueKeys<K, C>(t: seq<Keyed<K, C>>) {
    forall i, j :: 0 <= i < j < |t| ==> t[i].id != t[j].id
  }

  predicate Exists<K(==), C>(t: seq<Keyed<K, C>>, k: K) { exists i :: 0 <= i < |t| && t[i].id == k }

  /** Every column but the key is set; the key is only compared. */
  function Overwritten<K(==), C>(t: seq<Keyed<K, C>>, row: Keyed<K, C>): (u: seq<Keyed<K, C>>)
    ensures |u| == |t|
  {
    seq(|t|, i requires 0 <= i < |t| => if t[i].id == row.id then row else t[i])
  }

  function Without<K(==), C>(t: seq<Keyed<K, C>>, k: K): seq<Keyed<K, C>> {
    if t == [] then []
    else (if t[0].id == k then [] else [t[0]]) + Without(t[1..], k)
  }

  /** What is left after a removal: the other rows. */
  lemma {:induction false} WithoutFacts<K, C>(t: seq<Keyed<K, C>>, k: K)
    requires UniqueKeys(t)
    ensures UniqueKeys(Without(t, k))
    ensures forall row :: row in Without(t, k) ==> row in t && row.id != k
    ensures forall row :: row in t && row.id != k ==> row in Without(t, k)
  {
    if t != [] {
      var tail := t[1..];
      var rest := Without(tail, k);
      assert t == [t[0]] + tail;
      WithoutFacts(tail, k);
      forall row | row in tail ensures row.id != t[0].id {
        var i :| 0 <= i < |tail| && tail[i] == row;
        assert row == t[i + 1];
      }
      assert forall row :: row in rest ==> row in tail;
      forall j | 0 <= j < |rest| ensures rest[j].id != t[0].id { assert rest[j] in tail; }
    }
  }

  // ---------- the map ----------

  ghost predicate Listed<K(!new), C(!new), V(!new)>(t: seq<Keyed<K, C>>, read: Keyed<K, C> -> Option<V>, v: V) {
    exists i :: 0 <= i < |t| && read(t[i]) == Some(v)
  }

  ghost predicate InMap<K(!new), C(!new), L(!new), V(!new)>(
    row: Keyed<K, C>, read: Keyed<K, C> -> Option<V>, id: V -> L, m: map<L, V>)
  {
    read(row).Some? && id(read(row).value) in m && m[id(read(row).value)] == read(row).value
  }

  /** The table holds exactly the entries of the map. */
  ghost predicate Represents<K(!new), C(!new), L(!new), V(!new)>(
    t: seq<Keyed<K, C>>, read: Keyed<K, C> -> Option<V>, id: V -> L, m: map<L, V>)
  {
    && UniqueKeys(t)
    && (forall i :: 0 <= i < |t| ==> InMap(t[i], read, id, m))
    && (forall l :: l in m ==> id(m[l]) == l && Listed(t, read, m[l]))
  }

  /** `k` is the column form of the logical key `l`. */
  ghost predicate Files<K(!new), C(!new), L(!new), V(!new)>(read: Keyed<K, C> -> Option<V>, id: V -> L, k: K, l: L) {
    forall row :: read(row).Some? ==> (row.id == k <==> id(read(row).value) == l)
  }

  lemma ExistsIffInMap<K(!new), C(!new), L(!new), V(!new)>(
    t: seq<Keyed<K, C>>, read: Keyed<K, C> -> Option<V>, id: V -> L, m: map<L, V>, k: K, l: L)
    requires Represents(t, read, id, m) && Files(read, id, k, l)
    ensures Exists(t, k) <==> l in m
  {
    if l in m { assert Listed(t, read, m[l]); }
    if Exists(t, k) {
      var i :| 0 <= i < |t| && t[i].id == k;
      assert InMap(t[i], read, id, m);
    }
  }

  lemma InsertRefines<K(!new), C(!new), L(!new), V(!new)>(
    t: seq<Keyed<K, C>>, read: Keyed<K, C> -> Option<V>, id: V -> L, m: map<L, V>, row: Keyed<K, C>, v: V)
    requires Represents(t, read, id, m) && Files(read, id, row.id, id(v)) && read(row) == Some(v) && id(v) !in m
    ensures Represents(t + [row], read, id, m[id(v) := v])
  {
    ExistsIffInMap(t, read, id, m, row.id, id(v));
    var u, after := t + [row], m[id(v) := v];
    forall i | 0 <= i < |u| ensures InMap(u[i], read, id, after) {
      if i < |t| { assert InMap(t[i], read, id, m); }
    }
    forall l | l in after ensures id(after[l]) == l && Listed(u, read, after[l]) {
      if l == id(v) {
        assert read(u[|t|]) == Some(v);
      } else {
        assert Listed(t, read, m[l]);
        var i :| 0 <= i < |t| && read(t[i]) == Some(m[l]);
        assert read(u[i]) == Some(m[l]);
      }
    }
  }

  lemma OverwriteRefines<K(!new), C(!new), L(!new), V(!new)>(
    t: seq<Keyed<K, C>>, read: Keyed<K, C> -> Option<V>, id: V -> L, m: map<L, V>, row: Keyed<K, C>, v: V)
    requires Represents(t, read, id, m) && Files(read, id, row.id, id(v)) && read(row) == Some(v) && id(v) in m
    ensures Represents(Overwritten(t, row), read, id, m[id(v) := v])
  {
    var u, after := Overwritten(t, row), m[id(v) := v];
    assert forall i :: 0 <= i < |t| ==> u[i].id == t[i].id;
    forall i | 0 <= i < |u| ensures InMap(u[i], read, id, after) { assert InMap(t[i], read, id, m); }
    forall l | l in after ensures id(after[l]) == l && Listed(u, read, after[l]) {
      assert Listed(t, read, m[l]);
      var i :| 0 <= i < |t| && read(t[i]) == Some(m[l]);
      assert read(u[i]) == Some(after[l]);
    }
  }

  lemma RemoveRefines<K(!new), C(!new), L(!new), V(!new)>(
    t: seq<Keyed<K, C>>, read: Keyed<K, C> -> Option<V>, id: V -> L, m: map<L, V>, k: K, l: L)
    requires Represents(t, read, id, m) && Files(read, id, k, l)
    ensures Represents(Without(t, k), read, id, m - {l})
  {
    var u, after := Without(t, k), m - {l};
    WithoutFacts(t, k);
    forall i | 0 <= i < |u| ensures InMap(u[i], read, id, after) {
      assert u[i] in u;
      var j :| 0 <= j < |t| && t[j] == u[i];
      assert InMap(t[j], read, id, m);
    }
    forall l0 | l0 in after ensures id(after[l0]) == l0 && Listed(u, read, after[l0]) {
      assert Listed(t, read, m[l0]);
      var j :| 0 <= j < |t| && read(t[j]) == Some(m[l0]);
      assert t[j] in u;
      var i :| 0 <= i < |u| && u[i] == t[j];
      assert read(u[i]) == Some(after[l0]);
    }
  }
}
