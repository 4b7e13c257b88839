/** Canonical text of an untrusted object graph.

The walker shares one mutable set of ancestors along the current path and restores it on every exit.
Its meaning is `CanonicalText`: unfold the graph, drop what JSON drops, and print the canonical text.
*/
module CanonicalRecord {
  import opened Options
  import opened Utf16
  import opened ObjectGraph
  import opened Entries
  import Json
  import JsonNumber
  import JsonString
  import Spelling

  // ---------- meaning ----------

  /** The fields of an object whose entry `i` is absent when `values[i]` is `None`. */
  function Fields(keys: seq<Text>, values: seq<Option<Json.Json>>): map<Text, Json.Json>
    requires |keys| == |values|
  {
    if keys == [] then map[]
    else
      var n := |keys| - 1;
      var before := Fields(keys[..n], values[..n]);
      if values[n].None? then before else before[keys[n] := values[n].value]
  }

  /** The JSON value a tree stands for; a property that is `undefined` is absent. */
  function JsonOf(t: Tree): Option<Json.Json> {
    match t
    case Leaf(Null) => Some(Json.Null)
    case Leaf(Boolean(b)) => Some(Json.Bool(b))
    case Leaf(String(s)) => Some(Json.Str(s))
    case Leaf(Number(Finite(d))) => Some(Json.Num(d))
    case Leaf(Number(NegativeZero)) => Some(Json.Num(JsonNumber.Zero))
    case Leaf(_) => None
    case Branch(ArrayShape, children) =>
      if forall i :: 0 <= i < |children| ==> JsonOf(children[i]).Some? then
        Some(Json.Arr(seq(|children|, i requires 0 <= i < |children| => JsonOf(children[i]).value)))
      else None
    case Branch(ObjectShape(_, keys), children) =>
      if |keys| == |children| &&
         forall i :: 0 <= i < |children| && children[i] != Leaf(Undefined) ==> JsonOf(children[i]).Some?
      then
        Some(Json.Obj(Fields(keys, seq(|children|, i requires 0 <= i < |children| => JsonOf(children[i])))))
      else None
  }

  function JsonOfValue(h: Heap, v: Value, ancestors: set<Address>): Option<Json.Json> {
    var t :- Unfold(h, v, ancestors);
    JsonOf(t)
  }

  function CanonicalText(h: Heap, v: Value, ancestors: set<Address>): Option<Text> {
    var j :- JsonOfValue(h, v, ancestors);
    Some(Json.Print(j))
  }

  /** The text of one node's contents, with the node itself already among the ancestors. */
  function ContentsText(h: Heap, node: Node, ancestors: set<Address>): Option<Text> {
    var view :- Inspect(node);
    var children :- UnfoldAll(h, view.children, ancestors);
    var j :- JsonOf(Branch(view.shape, children));
    Some(Json.Print(j))
  }

  lemma ContentsTextOf(h: Heap, v: Value, ancestors: set<Address>)
    requires v.Ref? && v.address in h && v.address !in ancestors
    ensures CanonicalText(h, v, ancestors) == ContentsText(h, h[v.address], ancestors + {v.address})
  {
  }

  // ---------- own properties ----------

  /** Own property names are distinct in every object. */
  ghost predicate NamesDistinct(h: Heap) {
    forall a :: a in h && h[a].ObjectNode? ==> Distinct(NamesOf(h[a].properties))
  }

  function NamesOf(properties: seq<Named>): seq<Text> {
    seq(|properties|, i requires 0 <= i < |properties| => properties[i].key)
  }

  method OwnArrayItems(symbolKeys: bool, length: Length, elements: map<nat, Property>) returns (items: Option<seq<Value>>)
    ensures items == (if symbolKeys || length.Unreadable? then None else ItemsUpTo(elements, length.n))
  {
    if symbolKeys || length.Unreadable? { return None; }
    var read: seq<Value> := [];
    var index := 0;
    while index < length.n
      invariant index <= length.n && ItemsUpTo(elements, index) == Some(read)
    {
      if index !in elements {
        read := read + [Undefined];
      } else if elements[index].Accessor? {
        ItemsStayRefused(elements, index + 1, length.n);
        return None;
      } else {
        read := read + [elements[index].value];
      }
      index := index + 1;
    }
    return Some(read);
  }

  lemma {:induction false} ItemsStayRefused(elements: map<nat, Property>, i: nat, n: nat)
    requires i <= n && ItemsUpTo(elements, i).None?
    ensures ItemsUpTo(elements, n).None?
  {
    if i < n { ItemsStayRefused(elements, i, n - 1); }
  }

  method OwnDataEntries(symbolKeys: bool, properties: seq<Named>) returns (entries: Option<(seq<Text>, seq<Value>)>)
    ensures entries == (if symbolKeys then None else EntriesOf(properties))
  {
    if symbolKeys { return None; }
    var keys: seq<Text>, values: seq<Value> := [], [];
    var i := 0;
    while i < |properties|
      invariant i <= |properties| && EntriesOf(properties[..i]) == Some((keys, values))
    {
      var p := properties[i];
      assert properties[..i + 1][..i] == properties[..i];
      if p.property.Accessor? {
        EntriesStayRefused(properties, i + 1);
        return None;
      }
      if p.property.enumerable {
        keys, values := keys + [p.key], values + [p.property.value];
      }
      i := i + 1;
    }
    assert properties[..i] == properties;
    return Some((keys, values));
  }

  lemma {:induction false} EntriesStayRefused(properties: seq<Named>, i: nat)
    requires i <= |properties| && EntriesOf(properties[..i]).None?
    ensures EntriesOf(properties).None?
    decreases |properties|
  {
    if i == |properties| {
      assert properties[..i] == properties;
    } else {
      var p := properties[..|properties| - 1];
      assert p[..i] == properties[..i];
      EntriesStayRefused(p, i);
    }
  }

  /** Enumerable keys are distinct when property names are. */
  lemma {:induction false} EntryKeysDistinct(properties: seq<Named>)
    requires Distinct(NamesOf(properties)) && EntriesOf(properties).Some?
    ensures Distinct(EntriesOf(properties).value.0)
    ensures forall k :: k in EntriesOf(properties).value.0 ==> k in NamesOf(properties)
  {
    if properties != [] {
      var n := |properties| - 1;
      var p := properties[..n];
      assert forall i :: 0 <= i < n ==> NamesOf(p)[i] == NamesOf(properties)[i];
      EntryKeysDistinct(p);
      assert NamesOf(properties)[n] !in NamesOf(p);
      assert forall k :: k in NamesOf(p) ==> k in NamesOf(properties);
      assert NamesOf(properties)[n] in NamesOf(properties);
    }
  }

  // ---------- the text of arrays and objects ----------

  lemma ArrayContents(h: Heap, vs: seq<Value>, ancestors: set<Address>, texts: seq<Text>)
    requires |texts| == |vs|
    requires forall i :: 0 <= i < |vs| ==> CanonicalText(h, vs[i], ancestors) == Some(texts[i])
    ensures var trees := UnfoldAll(h, vs, ancestors);
      && trees.Some? && JsonOf(Branch(ArrayShape, trees.value)).Some?
      && Json.Print(JsonOf(Branch(ArrayShape, trees.value)).value)
         == Json.Bracketed(Json.OPEN_ARRAY, texts, Json.CLOSE_ARRAY)
  {
    forall i | 0 <= i < |vs| ensures Unfold(h, vs[i], ancestors).Some? && JsonOfValue(h, vs[i], ancestors).Some? {
      assert CanonicalText(h, vs[i], ancestors).Some?;
    }
    var trees := UnfoldAll(h, vs, ancestors).value;
    forall i | 0 <= i < |vs| ensures JsonOf(trees[i]).Some? && Json.Print(JsonOf(trees[i]).value) == texts[i] {
      assert CanonicalText(h, vs[i], ancestors) == Some(texts[i]);
    }
    var items := JsonOf(Branch(ArrayShape, trees)).value.items;
    Json.PrintArray(items);
    assert Json.ItemParts(items) == texts;
  }

  lemma ContentsRefused(h: Heap, vs: seq<Value>, ancestors: set<Address>, shape: Shape, i: nat)
    requires i < |vs| && CanonicalText(h, vs[i], ancestors).None?
    requires shape.ObjectShape? ==> vs[i] != Undefined
    ensures var trees := UnfoldAll(h, vs, ancestors); trees.None? || JsonOf(Branch(shape, trees.value)).None?
  {
    var trees := UnfoldAll(h, vs, ancestors);
    if trees.Some? {
      assert Unfold(h, vs[i], ancestors) == Some(trees.value[i]);
      assert JsonOf(trees.value[i]).None?;
      assert trees.value[i] == Leaf(Undefined) ==> vs[i] == Undefined;
    }
  }

  /** The entries that are not `undefined`, in order. */
  function Defined(keys: seq<Text>, values: seq<Value>): seq<Entry<Value>>
    requires |keys| == |values|
  {
    if keys == [] then []
    else
      var n := |keys| - 1;
      Defined(keys[..n], values[..n]) + (if values[n].Undefined? then [] else [Entry(keys[n], values[n])])
  }

  lemma {:induction false} DefinedEntries(keys: seq<Text>, values: seq<Value>)
    requires |keys| == |values|
    ensures forall e :: e in Defined(keys, values) <==>
      exists i :: 0 <= i < |keys| && e == Entry(keys[i], values[i]) && !values[i].Undefined?
    ensures Distinct(keys) ==> forall i, j :: 0 <= i < j < |Defined(keys, values)| ==>
      Defined(keys, values)[i].key != Defined(keys, values)[j].key
  {
    if keys != [] {
      var n := |keys| - 1;
      DefinedEntries(keys[..n], values[..n]);
      forall e ensures e in Defined(keys, values) <==>
        exists i :: 0 <= i < |keys| && e == Entry(keys[i], values[i]) && !values[i].Undefined?
      {
        if e in Defined(keys[..n], values[..n]) {
          var i :| 0 <= i < n && e == Entry(keys[..n][i], values[..n][i]) && !values[..n][i].Undefined?;
          assert e == Entry(keys[i], values[i]);
        }
        if i :| 0 <= i < n && e == Entry(keys[i], values[i]) && !values[i].Undefined? {
          assert e == Entry(keys[..n][i], values[..n][i]);
        }
      }
      if Distinct(keys) {
        assert forall e :: e in Defined(keys[..n], values[..n]) ==> e.key != keys[n];
        assert forall i :: 0 <= i < |Defined(keys[..n], values[..n])| ==>
          Defined(keys[..n], values[..n])[i] in Defined(keys[..n], values[..n]);
      }
    }
  }

  /** Key `k` is listed with a value. */
  ghost predicate Listed(keys: seq<Text>, values: seq<Option<Json.Json>>, i: int, k: Text)
    requires |keys| == |values|
  {
    0 <= i < |keys| && keys[i] == k && values[i].Some?
  }

  lemma {:induction false} FieldsAt(keys: seq<Text>, values: seq<Option<Json.Json>>)
    requires |keys| == |values| && Distinct(keys)
    ensures forall k :: k in Fields(keys, values) <==> exists i :: Listed(keys, values, i, k)
    ensures forall i, k :: Listed(keys, values, i, k) ==> k in Fields(keys, values) && Fields(keys, values)[k] == values[i].value
  {
    if keys != [] {
      var n := |keys| - 1;
      var ks, vs := keys[..n], values[..n];
      FieldsAt(ks, vs);
      assert forall i, k :: 0 <= i < n ==> (Listed(keys, values, i, k) <==> Listed(ks, vs, i, k));
      forall k ensures k in Fields(keys, values) <==> exists i :: Listed(keys, values, i, k) {
        if k in Fields(ks, vs) {
          var i :| Listed(ks, vs, i, k);
          assert Listed(keys, values, i, k);
        }
        if i :| Listed(keys, values, i, k) {
          if i == n { assert values[n].Some?; } else { assert Listed(ks, vs, i, k); }
        }
        if values[n].Some? { assert Listed(keys, values, n, keys[n]); }
      }
    }
  }

  /** The defined entries of an object as the printer lists them. */
  function Listing(keys: seq<Text>, values: seq<Value>): seq<Entry<Value>>
    requires |keys| == |values|
  {
    SortByKey(Defined(keys, values))
  }

  lemma ListingIsSorted(keys: seq<Text>, values: seq<Value>)
    requires |keys| == |values| && Distinct(keys)
    ensures Json.StrictlySorted(KeysOf(Listing(keys, values)))
    ensures forall e :: e in Listing(keys, values) <==>
      exists i :: 0 <= i < |keys| && e == Entry(keys[i], values[i]) && !values[i].Undefined?
  {
    DefinedEntries(keys, values);
    SortByKeyLists(Defined(keys, values));
  }

  /** The fields of an object hold exactly its defined entries. */
  lemma DefinedFields(h: Heap, keys: seq<Text>, vs: seq<Value>, ancestors: set<Address>, trees: seq<Tree>)
    requires |keys| == |vs| == |trees| && Distinct(keys)
    requires forall i :: 0 <= i < |vs| ==> Unfold(h, vs[i], ancestors) == Some(trees[i])
    requires forall i :: 0 <= i < |vs| && !vs[i].Undefined? ==> JsonOf(trees[i]).Some?
    ensures var j := JsonOf(Branch(ObjectShape(ObjectPrototype, keys), trees));
      && j.Some? && j.value.Obj?
      && (forall k :: k in j.value.fields <==> exists i :: 0 <= i < |keys| && keys[i] == k && !vs[i].Undefined?)
      && (forall i :: 0 <= i < |keys| && !vs[i].Undefined? ==>
            keys[i] in j.value.fields && Some(j.value.fields[keys[i]]) == JsonOf(trees[i]))
  {
    forall i | 0 <= i < |vs| ensures (trees[i] == Leaf(Undefined) <==> vs[i].Undefined?)
                          ensures JsonOf(trees[i]).Some? <==> !vs[i].Undefined? {}
    var js := seq(|trees|, i requires 0 <= i < |trees| => JsonOf(trees[i]));
    FieldsAt(keys, js);
    forall i | 0 <= i < |keys| && !vs[i].Undefined? ensures Listed(keys, js, i, keys[i]) {}
    assert forall i, k :: Listed(keys, js, i, k) ==> !vs[i].Undefined?;
  }

  function Members(entries: seq<Entry<Value>>, texts: seq<Text>): seq<Text>
    requires |entries| == |texts|
  {
    seq(|entries|, i requires 0 <= i < |entries| => Json.Member(entries[i].key, texts[i]))
  }

  lemma ObjectContents(h: Heap, prototype: Prototype, keys: seq<Text>, vs: seq<Value>, ancestors: set<Address>, texts: seq<Text>)
    requires |keys| == |vs| && Distinct(keys) && |texts| == |Listing(keys, vs)|
    requires forall i :: 0 <= i < |texts| ==> CanonicalText(h, Listing(keys, vs)[i].value, ancestors) == Some(texts[i])
    ensures var trees := UnfoldAll(h, vs, ancestors);
      && trees.Some? && JsonOf(Branch(ObjectShape(prototype, keys), trees.value)).Some?
      && Json.Print(JsonOf(Branch(ObjectShape(prototype, keys), trees.value)).value)
         == Json.Bracketed(Json.OPEN_OBJECT, Members(Listing(keys, vs), texts), Json.CLOSE_OBJECT)
  {
    var sorted := Listing(keys, vs);
    ListingIsSorted(keys, vs);
    forall i | 0 <= i < |vs|
      ensures Unfold(h, vs[i], ancestors).Some?
      ensures !vs[i].Undefined? ==> JsonOfValue(h, vs[i], ancestors).Some?
    {
      if !vs[i].Undefined? {
        assert Entry(keys[i], vs[i]) in sorted;
        var m :| 0 <= m < |sorted| && sorted[m] == Entry(keys[i], vs[i]);
        assert CanonicalText(h, sorted[m].value, ancestors).Some?;
      }
    }
    var trees := UnfoldAll(h, vs, ancestors).value;
    forall i | 0 <= i < |vs| && !vs[i].Undefined? ensures JsonOf(trees[i]).Some? {
      assert JsonOfValue(h, vs[i], ancestors).Some?;
    }
    DefinedFields(h, keys, vs, ancestors, trees);
    var fields := JsonOf(Branch(ObjectShape(ObjectPrototype, keys), trees)).value.fields;
    assert JsonOf(Branch(ObjectShape(prototype, keys), trees)) == Some(Json.Obj(fields));
    ListedMembers(h, keys, vs, ancestors, texts, fields);
    Json.PrintObject(fields);
  }

  /** `fields` are the defined entries `keys[i]: vs[i]`. */
  ghost predicate HoldsEntries(h: Heap, keys: seq<Text>, vs: seq<Value>, ancestors: set<Address>, fields: map<Text, Json.Json>)
    requires |keys| == |vs|
  {
    && (forall k :: k in fields <==> exists i :: 0 <= i < |keys| && keys[i] == k && !vs[i].Undefined?)
    && (forall i :: 0 <= i < |keys| && !vs[i].Undefined? ==>
          keys[i] in fields && Some(fields[keys[i]]) == JsonOfValue(h, vs[i], ancestors))
  }

  lemma ListedKeys(h: Heap, keys: seq<Text>, vs: seq<Value>, ancestors: set<Address>, fields: map<Text, Json.Json>)
    requires |keys| == |vs| && Distinct(keys) && HoldsEntries(h, keys, vs, ancestors, fields)
    ensures KeysOf(Listing(keys, vs)) == Json.SortedKeys(fields.Keys)
  {
    var sorted := Listing(keys, vs);
    var listing := KeysOf(sorted);
    ListingIsSorted(keys, vs);
    forall k ensures k in listing <==> k in fields.Keys {
      if k in listing {
        var m :| 0 <= m < |sorted| && sorted[m].key == k;
        assert sorted[m] in sorted;
      }
      if i :| 0 <= i < |keys| && keys[i] == k && !vs[i].Undefined? {
        assert Entry(keys[i], vs[i]) in sorted;
        var m :| 0 <= m < |sorted| && sorted[m] == Entry(keys[i], vs[i]);
        assert listing[m] == k;
      }
    }
    Json.SortedKeysAreSorted(fields.Keys);
    Json.SortedListingUnique(listing, Json.SortedKeys(fields.Keys));
  }

  lemma ListedMembers(h: Heap, keys: seq<Text>, vs: seq<Value>, ancestors: set<Address>, texts: seq<Text>, fields: map<Text, Json.Json>)
    requires |keys| == |vs| && Distinct(keys) && |texts| == |Listing(keys, vs)|
    requires forall i :: 0 <= i < |texts| ==> CanonicalText(h, Listing(keys, vs)[i].value, ancestors) == Some(texts[i])
    requires HoldsEntries(h, keys, vs, ancestors, fields)
    ensures Json.MemberParts(Json.SortedKeys(fields.Keys), fields) == Members(Listing(keys, vs), texts)
  {
    var sorted, names := Listing(keys, vs), Json.SortedKeys(fields.Keys);
    ListedKeys(h, keys, vs, ancestors, fields);
    assert |names| == |sorted|;
    forall m | 0 <= m < |sorted| ensures names[m] == sorted[m].key && Json.Print(fields[names[m]]) == texts[m] {
      ListedMember(h, keys, vs, ancestors, texts, fields, m);
      assert names[m] in names;
    }
  }

  lemma ListedMember(h: Heap, keys: seq<Text>, vs: seq<Value>, ancestors: set<Address>, texts: seq<Text>, fields: map<Text, Json.Json>, m: nat)
    requires |keys| == |vs| && Distinct(keys) && |texts| == |Listing(keys, vs)| && m < |texts|
    requires CanonicalText(h, Listing(keys, vs)[m].value, ancestors) == Some(texts[m])
    requires HoldsEntries(h, keys, vs, ancestors, fields)
    ensures |Json.SortedKeys(fields.Keys)| == |texts| && Json.SortedKeys(fields.Keys)[m] == Listing(keys, vs)[m].key
    ensures Listing(keys, vs)[m].key in fields && Json.Print(fields[Listing(keys, vs)[m].key]) == texts[m]
  {
    var sorted := Listing(keys, vs);
    ListingIsSorted(keys, vs);
    ListedKeys(h, keys, vs, ancestors, fields);
    assert KeysOf(sorted)[m] == sorted[m].key;
    assert sorted[m] in sorted;
  }

  // ---------- the walker ----------

  /** The objects on the current path, shared by the whole walk. */
  class Ancestors {
    var members: set<Address>

    constructor ()
      ensures members == {}
    {
      members := {};
    }
  }

  method Canonicalize(h: Heap, v: Value, ancestors: Ancestors) returns (json: Option<Text>)
    requires NamesDistinct(h)
    modifies ancestors
    ensures ancestors.members == old(ancestors.members)
    ensures json == CanonicalText(h, v, old(ancestors.members))
    decreases h.Keys - ancestors.members, 0
  {
    match v
    case Null => json := Some(Json.NULL_TEXT);
    case String(s) => json := Some(JsonString.Quote(s));
    case Boolean(b) => json := Some(if b then Json.TRUE_TEXT else Json.FALSE_TEXT);
    case Number(n) =>
      json := match n
        case Finite(d) => Some(JsonNumber.Print(d))
        case NegativeZero => Some(JsonNumber.Print(JsonNumber.Zero))
        case NotFinite => None;
    case Undefined => json := None;
    case BigInt => json := None;
    case Symbol => json := None;
    case Function => json := None;
    case Ref(address) =>
      if address in ancestors.members || address !in h { return None; }
      var node := h[address];
      if node.ThrowingNode? || (node.ObjectNode? && node.prototype.OtherPrototype?) { return None; }
      ContentsTextOf(h, v, ancestors.members);
      ancestors.members := ancestors.members + {address};
      json := CanonicalizeContents(h, address, ancestors);
      ancestors.members := ancestors.members - {address};
  }

  /** The guarded part of the walk: whatever it answers, the caller removes the node again. */
  method CanonicalizeContents(h: Heap, address: Address, ancestors: Ancestors) returns (json: Option<Text>)
    requires NamesDistinct(h) && address in h && !h[address].ThrowingNode?
    requires h[address].ObjectNode? ==> !h[address].prototype.OtherPrototype?
    modifies ancestors
    ensures ancestors.members == old(ancestors.members)
    ensures json == ContentsText(h, h[address], old(ancestors.members))
    decreases h.Keys - ancestors.members, 3
  {
    ghost var path := ancestors.members;
    match h[address]
    case ArrayNode(symbolKeys, length, elements) =>
      var read := OwnArrayItems(symbolKeys, length, elements);
      if read.None? { return None; }
      var items := read.value;
      var parts: seq<Text> := [];
      var i := 0;
      while i < |items|
        invariant i == |parts| <= |items| && ancestors.members == path
        invariant forall k :: 0 <= k < i ==> CanonicalText(h, items[k], path) == Some(parts[k])
      {
        if items[i].Undefined? {
          ContentsRefused(h, items, path, ArrayShape, i);
          return None;
        }
        var part := Canonicalize(h, items[i], ancestors);
        if part.None? {
          ContentsRefused(h, items, path, ArrayShape, i);
          return None;
        }
        parts := parts + [part.value];
        i := i + 1;
      }
      ArrayContents(h, items, path, parts);
      return Some(Json.Bracketed(Json.OPEN_ARRAY, parts, Json.CLOSE_ARRAY));
    case ObjectNode(prototype, symbolKeys, properties) =>
      var own := OwnDataEntries(symbolKeys, properties);
      if own.None? { return None; }
      EntryKeysDistinct(properties);
      json := CanonicalizeEntries(h, prototype, own.value.0, own.value.1, ancestors);
  }

  /** Sorts the defined entries of an object and prints them. */
  method CanonicalizeEntries(h: Heap, ghost prototype: Prototype, keys: seq<Text>, values: seq<Value>, ancestors: Ancestors)
    returns (json: Option<Text>)
    requires NamesDistinct(h) && |keys| == |values| && Distinct(keys)
    modifies ancestors
    ensures ancestors.members == old(ancestors.members)
    ensures var trees := UnfoldAll(h, values, old(ancestors.members));
      json == if trees.Some? && JsonOf(Branch(ObjectShape(prototype, keys), trees.value)).Some? then
                Some(Json.Print(JsonOf(Branch(ObjectShape(prototype, keys), trees.value)).value))
              else None
    decreases h.Keys - ancestors.members, 2
  {
    ghost var path := ancestors.members;
    var entries := SortByKey(Defined(keys, values));
    var parts, texts, refused := CanonicalizeMembers(h, entries, ancestors);
    if parts.None? {
      EntryRefused(h, prototype, keys, values, path, refused);
      return None;
    }
    ObjectContents(h, prototype, keys, values, path, texts);
    assert parts.value == Members(entries, texts);
    return Some(Json.Bracketed(Json.OPEN_OBJECT, parts.value, Json.CLOSE_OBJECT));
  }

  /** Prints each entry, or finds the first that has no canonical text. */
  method CanonicalizeMembers(h: Heap, entries: seq<Entry<Value>>, ancestors: Ancestors)
    returns (parts: Option<seq<Text>>, ghost texts: seq<Text>, ghost refused: nat)
    requires NamesDistinct(h)
    modifies ancestors
    ensures ancestors.members == old(ancestors.members)
    ensures parts.None? ==> refused < |entries| && CanonicalText(h, entries[refused].value, old(ancestors.members)).None?
    ensures parts.Some? ==> |parts.value| == |texts| == |entries|
    ensures parts.Some? ==> forall k :: 0 <= k < |entries| ==>
      CanonicalText(h, entries[k].value, old(ancestors.members)) == Some(texts[k]) && parts.value[k] == Json.Member(entries[k].key, texts[k])
    decreases h.Keys - ancestors.members, 1
  {
    ghost var path := ancestors.members;
    var done: seq<Text> := [];
    texts, refused := [], 0;
    var i := 0;
    while i < |entries|
      invariant i == |done| == |texts| <= |entries| && ancestors.members == path
      invariant forall k :: 0 <= k < i ==> CanonicalText(h, entries[k].value, path) == Some(texts[k])
      invariant forall k :: 0 <= k < i ==> done[k] == Json.Member(entries[k].key, texts[k])
    {
      var part := Canonicalize(h, entries[i].value, ancestors);
      if part.None? {
        return None, texts, i;
      }
      done, texts := done + [Json.Member(entries[i].key, part.value)], texts + [part.value];
      i := i + 1;
    }
    return Some(done), texts, 0;
  }

  lemma EntryRefused(h: Heap, prototype: Prototype, keys: seq<Text>, values: seq<Value>, ancestors: set<Address>, i: nat)
    requires |keys| == |values| && Distinct(keys) && i < |Listing(keys, values)|
    requires CanonicalText(h, Listing(keys, values)[i].value, ancestors).None?
    ensures var trees := UnfoldAll(h, values, ancestors);
      trees.None? || JsonOf(Branch(ObjectShape(prototype, keys), trees.value)).None?
  {
    ListingIsSorted(keys, values);
    var e := Listing(keys, values)[i];
    assert e in Listing(keys, values);
    var m :| 0 <= m < |keys| && e == Entry(keys[m], values[m]) && !values[m].Undefined?;
    ContentsRefused(h, values, ancestors, ObjectShape(prototype, keys), m);
  }

  // ---------- the text of a leaf ----------

  /** The text of a value that is not an object, unit by unit; what has no JSON form has none. */
  lemma LeafText(h: Heap, v: Value, ancestors: set<Address>)
    requires !v.Ref?
    ensures CanonicalText(h, v, ancestors) ==
      match v
      case Null => Some([110, 117, 108, 108])
      case Boolean(b) => Some(if b then [116, 114, 117, 101] else [102, 97, 108, 115, 101])
      case String(s) => Some([34] + (Spelling.SpelledFrom(s, 0) + [34]))
      case Number(Finite(d)) => Some(JsonNumber.Print(d))
      case Number(NegativeZero) => Some([48])
      case _ => None
  {
    if v.String? { Spelling.QuoteIsSpelled(v.s); }
  }

  // ---------- what succeeds, and when two texts agree ----------

  /** Trees that unfolding produces: scalar leaves, one distinct key for each child. */
  ghost predicate Regular(t: Tree) {
    match t
    case Leaf(v) => IsScalar(v)
    case Branch(shape, children) =>
      && (shape.ObjectShape? ==> !shape.prototype.OtherPrototype? && |shape.keys| == |children| && Distinct(shape.keys))
      && forall i :: 0 <= i < |children| ==> Regular(children[i])
  }

  lemma {:induction false} UnfoldIsRegular(h: Heap, v: Value, ancestors: set<Address>)
    requires NamesDistinct(h) && Unfold(h, v, ancestors).Some?
    ensures Regular(Unfold(h, v, ancestors).value)
    decreases h.Keys - ancestors
  {
    if v.Ref? {
      var children := Inspect(h[v.address]).value.children;
      forall i | 0 <= i < |children| { UnfoldIsRegular(h, children[i], ancestors + {v.address}); }
      if h[v.address].ObjectNode? { EntryKeysDistinct(h[v.address].properties); }
    }
  }

  /** A tree has a JSON value exactly when `undefined` occurs only as a property value. */
  lemma {:induction false} JsonOfSucceeds(t: Tree)
    requires Regular(t)
    ensures JsonOf(t).Some? <==> t != Leaf(Undefined) && ArraysDefined(t)
  {
    if t.Branch? {
      forall i | 0 <= i < |t.children|
        ensures JsonOf(t.children[i]).Some? <==> t.children[i] != Leaf(Undefined) && ArraysDefined(t.children[i])
        ensures t.children[i] in t.children
      {
        JsonOfSucceeds(t.children[i]);
      }
      assert forall c :: c in t.children ==> exists i :: 0 <= i < |t.children| && t.children[i] == c;
    }
  }

  lemma CanonicalSucceeds(h: Heap, v: Value)
    requires NamesDistinct(h)
    ensures CanonicalText(h, v, {}).Some? <==> !v.Undefined? && IsJsonGraph(h, v, true)
  {
    UnfoldsIffJsonGraph(h, v, true);
    var t := Unfold(h, v, {});
    if t.Some? {
      UnfoldIsRegular(h, v, {});
      JsonOfSucceeds(t.value);
    }
  }

  /** Canonicalizes an untrusted value with a fresh set of ancestors. */
  method TryCanonicalRecordJson(h: Heap, v: Value) returns (attempt: Option<Text>)
    requires NamesDistinct(h)
    ensures attempt.Some? <==> !v.Undefined? && IsJsonGraph(h, v, true)
    ensures attempt == CanonicalText(h, v, {})
  {
    var ancestors := new Ancestors();
    attempt := Canonicalize(h, v, ancestors);
    CanonicalSucceeds(h, v);
  }

  /** Property `k` is present and not `undefined` in an object tree. */
  ghost predicate Has(t: Tree, i: int, k: Text) {
    && t.Branch? && t.shape.ObjectShape? && 0 <= i < |t.shape.keys| && i < |t.children|
    && t.shape.keys[i] == k && t.children[i] != Leaf(Undefined)
  }

  ghost predicate HasKey(t: Tree, k: Text) { exists i :: Has(t, i, k) }

  predicate SameScalar(x: Value, y: Value) {
    x == y || (IsZero(x) && IsZero(y))
  }

  predicate IsZero(v: Value) {
    v == Number(NegativeZero) || v == Number(Finite(JsonNumber.Zero))
  }

  /** One record up to the order of keys, keys whose value is `undefined`, the kind of plain
  prototype, and the sign of zero. */
  ghost predicate SameRecord(a: Tree, b: Tree) {
    match a
    case Leaf(x) => b.Leaf? && SameScalar(x, b.value)
    case Branch(ArrayShape, children) =>
      && b.Branch? && b.shape.ArrayShape? && |children| == |b.children|
      && forall i :: 0 <= i < |children| ==> SameRecord(children[i], b.children[i])
    case Branch(ObjectShape(_, _), children) =>
      && b.Branch? && b.shape.ObjectShape?
      && (forall k :: HasKey(a, k) <==> HasKey(b, k))
      && forall i, j, k :: 0 <= i < |children| && Has(a, i, k) && Has(b, j, k) ==> SameRecord(children[i], b.children[j])
  }

  /** The fields of an object tree, looked up by its keys. */
  lemma ObjectFields(t: Tree)
    requires Regular(t) && t.Branch? && t.shape.ObjectShape? && JsonOf(t).Some?
    ensures JsonOf(t).value.Obj?
    ensures forall k :: k in JsonOf(t).value.fields <==> HasKey(t, k)
    ensures forall i, k :: Has(t, i, k) ==> k in JsonOf(t).value.fields && JsonOf(t.children[i]) == Some(JsonOf(t).value.fields[k])
  {
    var keys, children := t.shape.keys, t.children;
    var js := seq(|children|, i requires 0 <= i < |children| => JsonOf(children[i]));
    FieldsAt(keys, js);
    forall k ensures k in Fields(keys, js) <==> HasKey(t, k) {
      if i :| Listed(keys, js, i, k) { assert Has(t, i, k); }
      if i :| Has(t, i, k) { assert Listed(keys, js, i, k); }
    }
    assert forall i, k :: Has(t, i, k) ==> Listed(keys, js, i, k);
  }

  lemma {:induction false} SameRecordIffSameJson(a: Tree, b: Tree)
    requires Regular(a) && Regular(b) && JsonOf(a).Some? && JsonOf(b).Some?
    ensures SameRecord(a, b) <==> JsonOf(a) == JsonOf(b)
    decreases a, 1
  {
    if a.Branch? && b.Branch? && a.shape.ArrayShape? && b.shape.ArrayShape? {
      SameArrays(a, b);
    } else if a.Branch? && b.Branch? && a.shape.ObjectShape? && b.shape.ObjectShape? {
      SameObjects(a, b);
    }
  }

  lemma {:induction false} SameArrays(a: Tree, b: Tree)
    requires Regular(a) && Regular(b) && JsonOf(a).Some? && JsonOf(b).Some?
    requires a.Branch? && b.Branch? && a.shape.ArrayShape? && b.shape.ArrayShape?
    ensures SameRecord(a, b) <==> JsonOf(a) == JsonOf(b)
    decreases a, 0
  {
    var x, y := JsonOf(a).value.items, JsonOf(b).value.items;
    if |a.children| == |b.children| {
      forall i | 0 <= i < |a.children|
        ensures SameRecord(a.children[i], b.children[i]) <==> x[i] == y[i]
      {
        SameRecordIffSameJson(a.children[i], b.children[i]);
      }
      if SameRecord(a, b) { assert x == y; }
    } else {
      assert |x| != |y|;
    }
  }

  lemma {:induction false} SameObjects(a: Tree, b: Tree)
    requires Regular(a) && Regular(b) && JsonOf(a).Some? && JsonOf(b).Some?
    requires a.Branch? && b.Branch? && a.shape.ObjectShape? && b.shape.ObjectShape?
    ensures SameRecord(a, b) <==> JsonOf(a) == JsonOf(b)
    decreases a, 0
  {
    ObjectFields(a);
    ObjectFields(b);
    var x, y := JsonOf(a).value.fields, JsonOf(b).value.fields;
    forall i, j, k | 0 <= i < |a.children| && Has(a, i, k) && Has(b, j, k)
      ensures SameRecord(a.children[i], b.children[j]) <==> x[k] == y[k]
    {
      SameRecordIffSameJson(a.children[i], b.children[j]);
    }
    if SameRecord(a, b) {
      forall k | k in x ensures k in y && x[k] == y[k] {
        assert HasKey(a, k) && HasKey(b, k);
        var i :| Has(a, i, k);
        var j :| Has(b, j, k);
        assert SameRecord(a.children[i], b.children[j]);
      }
      assert x.Keys == y.Keys;
      assert x == y;
    }
    if x == y {
      forall k ensures HasKey(a, k) <==> HasKey(b, k) {
        assert k in x <==> k in y;
      }
      assert SameRecord(a, b);
    }
  }

  /** Two accepted values have the same canonical text exactly when they are the same record. */
  lemma CanonicalTextDecides(h: Heap, v: Value, g: Heap, w: Value)
    requires NamesDistinct(h) && NamesDistinct(g)
    requires CanonicalText(h, v, {}).Some? && CanonicalText(g, w, {}).Some?
    ensures CanonicalText(h, v, {}) == CanonicalText(g, w, {})
      <==> SameRecord(Unfold(h, v, {}).value, Unfold(g, w, {}).value)
  {
    UnfoldIsRegular(h, v, {});
    UnfoldIsRegular(g, w, {});
    SameRecordIffSameJson(Unfold(h, v, {}).value, Unfold(g, w, {}).value);
    Json.PrintInjective(JsonOfValue(h, v, {}).value, JsonOfValue(g, w, {}).value);
  }

  /** Canonical text reads back as the record's JSON value. */
  lemma CanonicalTextParses(h: Heap, v: Value)
    requires CanonicalText(h, v, {}).Some?
    ensures Json.Parse(CanonicalText(h, v, {}).value) == JsonOfValue(h, v, {})
  {
    Json.ParsePrint(JsonOfValue(h, v, {}).value);
  }
}
