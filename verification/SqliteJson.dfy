/** The JSON text the local stores write and read back. */
module SqliteJson {
  import opened Options
  import opened Utf16
  import opened ObjectGraph
  import opened Entries
  import CanonicalRecord
  import Json
  import JsonNumber
  import JsonString
  import Sorting

  /** `JSON.stringify(value) ?? 'null'` for a value that is not an object. */
  function ScalarText(v: Value): Text {
    match v
    case Boolean(b) => if b then Json.TRUE_TEXT else Json.FALSE_TEXT
    case String(s) => JsonString.Quote(s)
    case Number(Finite(d)) => JsonNumber.Print(d)
    case Number(NegativeZero) => JsonNumber.Print(JsonNumber.Zero)
    case _ => Json.NULL_TEXT
  }

  function Children(keys: seq<Text>, children: seq<Tree>): (r: seq<Entry<Tree>>)
    requires |keys| == |children|
    ensures |r| == |keys| && forall i :: 0 <= i < |r| ==> r[i] == Entry(keys[i], children[i])
  {
    seq(|keys|, i requires 0 <= i < |keys| => Entry(keys[i], children[i]))
  }

  lemma SortedChildren(keys: seq<Text>, children: seq<Tree>)
    requires |keys| == |children|
    ensures forall e :: e in SortByKey(Children(keys, children)) ==> e.value in children
  {
    var es := Children(keys, children);
    Sorting.SortPermutes((a: Entry<Tree>, b: Entry<Tree>) => KeyAtMost(a, b), es);
    Sorting.SameElements(SortByKey(es), es);
  }

  /** The store's serializer: entries are sorted by key, then printed in that order. */
  function CanonicalJson(t: Tree): Text {
    match t
    case Leaf(v) => ScalarText(v)
    case Branch(ArrayShape, children) =>
      Json.Bracketed(Json.OPEN_ARRAY,
        seq(|children|, i requires 0 <= i < |children| => CanonicalJson(children[i])), Json.CLOSE_ARRAY)
    case Branch(ObjectShape(_, keys), children) =>
      if |keys| != |children| then Json.NULL_TEXT
      else
        SortedChildren(keys, children);
        var sorted := SortByKey(Children(keys, children));
        Json.Bracketed(Json.OPEN_OBJECT,
          seq(|sorted|, i requires 0 <= i < |sorted| =>
            Json.Member(sorted[i].key, (assert sorted[i] in sorted; CanonicalJson(sorted[i].value)))),
          Json.CLOSE_OBJECT)
  }


  /** Values the stores accept: JSON data with no `undefined` anywhere. */
  ghost predicate IsJsonSafe(t: Tree) {
    match t
    case Leaf(v) => IsScalar(v) && !v.Undefined?
    case Branch(shape, children) =>
      && (shape.ObjectShape? ==> !shape.prototype.OtherPrototype? && |shape.keys| == |children| && Distinct(shape.keys))
      && forall i :: 0 <= i < |children| ==> IsJsonSafe(children[i])
  }

  lemma {:induction false} SafeTreesHaveJson(t: Tree)
    requires IsJsonSafe(t)
    ensures CanonicalRecord.Regular(t) && CanonicalRecord.JsonOf(t).Some? && t != Leaf(Undefined)
  {
    if t.Branch? {
      forall i | 0 <= i < |t.children| { SafeTreesHaveJson(t.children[i]); }
    }
  }

  /** On JSON-safe values the store writes exactly the canonical record text. */
  lemma {:induction false} SameTextAsCanonicalRecord(t: Tree)
    requires IsJsonSafe(t)
    ensures CanonicalRecord.JsonOf(t).Some?
    ensures CanonicalJson(t) == Json.Print(CanonicalRecord.JsonOf(t).value)
    decreases t, 1
  {
    SafeTreesHaveJson(t);
    if t.Branch? && t.shape.ArrayShape? {
      var items := CanonicalRecord.JsonOf(t).value.items;
      forall i | 0 <= i < |t.children| ensures CanonicalJson(t.children[i]) == Json.ItemParts(items)[i] {
        SameTextAsCanonicalRecord(t.children[i]);
      }
      Json.PrintArray(items);
      assert seq(|t.children|, i requires 0 <= i < |t.children| => CanonicalJson(t.children[i])) == Json.ItemParts(items);
    } else if t.Branch? {
      SameObjectText(t);
    }
  }

  lemma {:induction false} SameObjectText(t: Tree)
    requires IsJsonSafe(t) && t.Branch? && t.shape.ObjectShape?
    ensures CanonicalRecord.JsonOf(t).Some?
    ensures CanonicalJson(t) == Json.Print(CanonicalRecord.JsonOf(t).value)
    decreases t, 0
  {
    SafeTreesHaveJson(t);
    CanonicalRecord.ObjectFields(t);
    var fields := CanonicalRecord.JsonOf(t).value.fields;
    var entries := Children(t.shape.keys, t.children);
    var sorted := SortByKey(entries);
    SortedChildren(t.shape.keys, t.children);
    ChildKeys(t, fields);
    var parts := seq(|sorted|, i requires 0 <= i < |sorted| =>
      Json.Member(sorted[i].key, (assert sorted[i] in sorted; CanonicalJson(sorted[i].value))));
    var keys := Json.SortedKeys(fields.Keys);
    forall i | 0 <= i < |sorted| ensures parts[i] == Json.MemberParts(keys, fields)[i] {
      assert keys[i] == KeysOf(sorted)[i] == sorted[i].key;
      var m := SortedChildAt(t, i);
      SameTextAsCanonicalRecord(t.children[m]);
    }
    assert |parts| == |KeysOf(sorted)| == |keys|;
    assert parts == Json.MemberParts(keys, fields);
    Json.PrintObject(fields);
  }

  lemma SortedChildAt(t: Tree, i: nat) returns (m: nat)
    requires IsJsonSafe(t) && t.Branch? && t.shape.ObjectShape?
    requires i < |SortByKey(Children(t.shape.keys, t.children))|
    ensures m < |t.children| && CanonicalRecord.Has(t, m, SortByKey(Children(t.shape.keys, t.children))[i].key)
    ensures t.children[m] == SortByKey(Children(t.shape.keys, t.children))[i].value
  {
    var entries := Children(t.shape.keys, t.children);
    var e := SortByKey(entries)[i];
    SortByKeyLists(entries);
    assert e in SortByKey(entries);
    m :| 0 <= m < |entries| && entries[m] == e;
    SafeTreesHaveJson(t.children[m]);
  }

  lemma ChildKeys(t: Tree, fields: map<Text, Json.Json>)
    requires IsJsonSafe(t) && t.Branch? && t.shape.ObjectShape?
    requires forall k :: k in fields <==> CanonicalRecord.HasKey(t, k)
    ensures KeysOf(SortByKey(Children(t.shape.keys, t.children))) == Json.SortedKeys(fields.Keys)
  {
    var keys := t.shape.keys;
    var entries := Children(keys, t.children);
    var sorted := SortByKey(entries);
    SortByKeyLists(entries);
    var listing := KeysOf(sorted);
    forall k ensures k in listing <==> k in fields.Keys {
      if k in listing {
        var m :| 0 <= m < |sorted| && sorted[m].key == k;
        assert sorted[m] in sorted;
        var i :| 0 <= i < |entries| && entries[i] == sorted[m];
        SafeTreesHaveJson(t.children[i]);
        assert CanonicalRecord.Has(t, i, k);
      }
      if CanonicalRecord.HasKey(t, k) {
        var i :| CanonicalRecord.Has(t, i, k);
        assert entries[i] in entries && entries[i] in sorted;
        var m :| 0 <= m < |sorted| && sorted[m] == entries[i];
        assert listing[m] == k;
      }
    }
    Json.SortedKeysAreSorted(fields.Keys);
    Json.SortedListingUnique(listing, Json.SortedKeys(fields.Keys));
  }

  /** Stored text that is a JSON object, or nothing. */
  function ParseStoredObject(text: Text): Option<map<Text, Json.Json>> {
    var j :- Json.Parse(text);
    if j.Obj? then Some(j.fields) else None
  }

  /** An object the store printed is the object it reads. */
  lemma StoredObjectRoundTrip(fields: map<Text, Json.Json>)
    ensures ParseStoredObject(Json.Print(Json.Obj(fields))) == Some(fields)
  {
    Json.ParsePrint(Json.Obj(fields));
  }
}
