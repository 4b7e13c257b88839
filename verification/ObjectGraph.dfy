/** An explicit heap of untrusted JavaScript objects, and what reading it passively can see.

References may form cycles and may be shared.  `Unfold` is the meaning of one untrusted value: the
finite tree it stands for, or `None` where reading it has to be refused.
*/
module ObjectGraph {
  import opened Options
  import opened Utf16
  import JsonNumber

  type Address = nat

  datatype Numeric = Finite(decimal: JsonNumber.Finite) | NegativeZero | NotFinite

  /** A JavaScript value; `Ref` is the only kind whose `typeof` is "object". */
  datatype Value =
    | Undefined
    | Null
    | Boolean(b: bool)
    | Number(n: Numeric)
    | String(s: Text)
    | BigInt
    | Symbol
    | Function
    | Ref(address: Address)

  /** One own string-keyed property, as its descriptor reports it. */
  datatype Property = Data(value: Value, enumerable: bool) | Accessor(enumerable: bool)
  datatype Named = Named(key: Text, property: Property)

  datatype Prototype = ObjectPrototype | NullPrototype | OtherPrototype

  /** `Unreadable` covers a `length` that is missing, an accessor, or not a safe count. */
  datatype Length = Count(n: nat) | Unreadable

  datatype Node =
    | ArrayNode(symbolKeys: bool, length: Length, elements: map<nat, Property>)
    | ObjectNode(prototype: Prototype, symbolKeys: bool, properties: seq<Named>)
    | ThrowingNode  // a proxy whose reflection throws

  type Heap = map<Address, Node>

  // ---------- own data, read without running any accessor ----------

  /** The first `n` elements, a hole reading as `undefined`; refused at the first accessor. */
  function ItemsUpTo(elements: map<nat, Property>, n: nat): Option<seq<Value>> {
    if n == 0 then Some([])
    else
      var before :- ItemsUpTo(elements, n - 1);
      if n - 1 !in elements then Some(before + [Undefined])
      else if elements[n - 1].Accessor? then None
      else Some(before + [elements[n - 1].value])
  }

  /** Own enumerable data properties in order; refused at the first accessor, enumerable or not. */
  function EntriesOf(properties: seq<Named>): (r: Option<(seq<Text>, seq<Value>)>)
    ensures r.Some? ==> |r.value.0| == |r.value.1|
  {
    if properties == [] then Some(([], []))
    else
      var last := properties[|properties| - 1];
      var (keys, values) :- EntriesOf(properties[..|properties| - 1]);
      if last.property.Accessor? then None
      else if !last.property.enumerable then Some((keys, values))
      else Some((keys + [last.key], values + [last.property.value]))
  }

  /** What kind of container a node is, and the keys an object lists. */
  datatype Shape = ArrayShape | ObjectShape(prototype: Prototype, keys: seq<Text>)

  datatype View = View(shape: Shape, children: seq<Value>)

  /** Everything a walker may read of one node. */
  function Inspect(node: Node): (r: Option<View>)
    ensures r.Some? && r.value.shape.ObjectShape? ==> |r.value.shape.keys| == |r.value.children|
  {
    match node
    case ThrowingNode => None
    case ArrayNode(symbolKeys, length, elements) =>
      if symbolKeys || length.Unreadable? then None
      else
        var items :- ItemsUpTo(elements, length.n);
        Some(View(ArrayShape, items))
    case ObjectNode(prototype, symbolKeys, properties) =>
      if prototype.OtherPrototype? || symbolKeys then None
      else
        var (keys, values) :- EntriesOf(properties);
        Some(View(ObjectShape(prototype, keys), values))
  }

  // ---------- unfolding ----------

  datatype Tree = Leaf(value: Value) | Branch(shape: Shape, children: seq<Tree>)

  /** A value that a copy may carry as it is. */
  predicate IsScalar(v: Value) {
    match v
    case Undefined => true
    case Null => true
    case Boolean(_) => true
    case String(_) => true
    case Number(n) => !n.NotFinite?
    case _ => false
  }

  /** The tree `v` stands for, when the objects in `ancestors` are already being visited. */
  function Unfold(h: Heap, v: Value, ancestors: set<Address>): Option<Tree>
    decreases h.Keys - ancestors, 0, 0
  {
    if IsScalar(v) then Some(Leaf(v))
    else if !v.Ref? || v.address in ancestors || v.address !in h then None
    else
      var view :- Inspect(h[v.address]);
      var children :- UnfoldAll(h, view.children, ancestors + {v.address});
      Some(Branch(view.shape, children))
  }

  /** Of the values that are no objects, a number that is not finite, a big integer, a symbol and a function stand for
  nothing; every other stands for itself. */
  lemma ValueUnfolds(h: Heap, v: Value, ancestors: set<Address>)
    requires !v.Ref?
    ensures Unfold(h, v, ancestors) ==
      if v == Number(NotFinite) || v.BigInt? || v.Symbol? || v.Function? then None else Some(Leaf(v))
  {
  }

  function UnfoldAll(h: Heap, vs: seq<Value>, ancestors: set<Address>): (r: Option<seq<Tree>>)
    ensures r.Some? ==> |r.value| == |vs|
    ensures r.Some? <==> forall i :: 0 <= i < |vs| ==> Unfold(h, vs[i], ancestors).Some?
    ensures r.Some? ==> forall i :: 0 <= i < |vs| ==> Unfold(h, vs[i], ancestors) == Some(r.value[i])
    decreases h.Keys - ancestors, 1, |vs|
  {
    if vs == [] then Some([])
    else
      var last := |vs| - 1;
      var before := UnfoldAll(h, vs[..last], ancestors);
      var tree := Unfold(h, vs[last], ancestors);
      if before.None? || tree.None? then None else Some(before.value + [tree.value])
  }

  // ---------- which values can be unfolded ----------

  /** A hole has the value `undefined`. */
  function ElementValue(elements: map<nat, Property>, i: nat): Value {
    if i in elements && elements[i].Data? then elements[i].value else Undefined
  }

  /** `w` is a value a walker meets directly below `v`. */
  ghost predicate Below(h: Heap, v: Value, w: Value) {
    v.Ref? && v.address in h &&
    match h[v.address]
    case ThrowingNode => false
    case ArrayNode(_, length, elements) =>
      length.Count? && exists i :: 0 <= i < length.n && w == ElementValue(elements, i)
    case ObjectNode(_, _, properties) =>
      exists i :: 0 <= i < |properties| && properties[i].property == Data(w, true)
  }

  /** A walk down the graph. */
  ghost predicate Walk(h: Heap, w: seq<Value>) {
    w != [] && forall i :: 0 <= i < |w| - 1 ==> Below(h, w[i], w[i + 1])
  }

  /** The JSON data rule for one value on its own.  `strict` also refuses an array with a hole or an
  explicit `undefined`, which has no JSON form. */
  ghost predicate IsJsonData(h: Heap, v: Value, strict: bool) {
    if !v.Ref? then IsScalar(v)
    else
      && v.address in h
      && match h[v.address]
         case ThrowingNode => false
         case ArrayNode(symbolKeys, length, elements) =>
           && !symbolKeys && length.Count?
           && (forall i :: 0 <= i < length.n && i in elements ==> elements[i].Data?)
           && (strict ==> forall i :: 0 <= i < length.n ==> i in elements && !elements[i].value.Undefined?)
         case ObjectNode(prototype, symbolKeys, properties) =>
           && !prototype.OtherPrototype? && !symbolKeys
           && forall i :: 0 <= i < |properties| ==> properties[i].property.Data?
  }

  ghost predicate Repeats(w: seq<Value>, i: int, j: int) {
    0 <= i < j < |w| && w[i].Ref? && w[i] == w[j]
  }

  /** No cycle is reachable from `v`, and every value reachable from it is JSON data. */
  ghost predicate IsJsonGraph(h: Heap, v: Value, strict: bool) {
    forall w :: Walk(h, w) && w[0] == v ==>
      IsJsonData(h, w[|w| - 1], strict) && forall i, j :: !Repeats(w, i, j)
  }

  /** The same while `ancestors` are being visited. */
  ghost predicate IsClear(h: Heap, v: Value, ancestors: set<Address>, strict: bool) {
    forall w :: Walk(h, w) && w[0] == v ==> IsFresh(h, w, ancestors, strict)
  }

  ghost predicate IsFresh(h: Heap, w: seq<Value>, ancestors: set<Address>, strict: bool)
    requires w != []
  {
    var last := w[|w| - 1];
    IsJsonData(h, last, strict) && (last.Ref? ==> last.address !in ancestors && last !in w[..|w| - 1])
  }

  /** No array of the tree holds `undefined`. */
  predicate ArraysDefined(t: Tree) {
    t.Branch? ==> forall c :: c in t.children ==>
      ArraysDefined(c) && (t.shape.ArrayShape? ==> c != Leaf(Undefined))
  }

  // ---------- reading agrees with the declarative rule ----------

  lemma {:induction false} ItemsAgree(elements: map<nat, Property>, n: nat)
    ensures var r := ItemsUpTo(elements, n);
      && (r.Some? <==> forall i :: 0 <= i < n && i in elements ==> elements[i].Data?)
      && (r.Some? ==> |r.value| == n && forall i :: 0 <= i < n ==> r.value[i] == ElementValue(elements, i))
  {
    if n > 0 { ItemsAgree(elements, n - 1); }
  }

  lemma {:induction false} EntriesAgree(properties: seq<Named>)
    ensures var r := EntriesOf(properties);
      && (r.Some? <==> forall i :: 0 <= i < |properties| ==> properties[i].property.Data?)
      && (r.Some? ==> forall w :: w in r.value.1 <==>
            exists i :: 0 <= i < |properties| && properties[i].property == Data(w, true))
  {
    if properties != [] {
      var n := |properties| - 1;
      var p := properties[..n];
      EntriesAgree(p);
      var r := EntriesOf(properties);
      if r.Some? {
        forall w ensures w in r.value.1 <==> exists i :: 0 <= i <= n && properties[i].property == Data(w, true) {
          if w in EntriesOf(p).value.1 {
            var i :| 0 <= i < |p| && p[i].property == Data(w, true);
            assert properties[i].property == Data(w, true);
          }
          if i :| 0 <= i < n && properties[i].property == Data(w, true) {
            assert p[i].property == Data(w, true);
          }
        }
      }
    }
  }

  /** A node can be inspected exactly when it is JSON data, and then its children are what lies below. */
  lemma InspectAgrees(h: Heap, v: Value)
    requires v.Ref? && v.address in h
    ensures Inspect(h[v.address]).Some? <==> IsJsonData(h, v, false)
    ensures Inspect(h[v.address]).Some? ==> forall w :: w in Inspect(h[v.address]).value.children <==> Below(h, v, w)
    ensures IsJsonData(h, v, true) <==>
      IsJsonData(h, v, false) &&
      !(Inspect(h[v.address]).value.shape.ArrayShape? && Undefined in Inspect(h[v.address]).value.children)
  {
    match h[v.address]
    case ThrowingNode =>
    case ArrayNode(symbolKeys, length, elements) =>
      if length.Count? {
        ItemsAgree(elements, length.n);
        var r := Inspect(h[v.address]);
        if r.Some? {
          assert forall i :: 0 <= i < length.n ==> r.value.children[i] == ElementValue(elements, i);
          forall w ensures w in r.value.children <==> Below(h, v, w) {
            if w in r.value.children {
              var i :| 0 <= i < length.n && r.value.children[i] == w;
              assert w == ElementValue(elements, i);
            }
            if i :| 0 <= i < length.n && w == ElementValue(elements, i) {
              assert r.value.children[i] == w;
            }
          }
          forall i | 0 <= i < length.n
            ensures r.value.children[i] in r.value.children
            ensures r.value.children[i] == Undefined <==> !(i in elements && !elements[i].value.Undefined?)
          {}
        }
      }
    case ObjectNode(prototype, symbolKeys, properties) =>
      EntriesAgree(properties);
  }

  // ---------- unfolding succeeds exactly on acyclic JSON data ----------

  /** `Unfold` succeeds and, if `strict`, its arrays hold no `undefined`. */
  ghost predicate Unfolds(h: Heap, v: Value, ancestors: set<Address>, strict: bool) {
    var t := Unfold(h, v, ancestors);
    t.Some? && (strict ==> ArraysDefined(t.value))
  }

  lemma {:induction false} UnfoldingIsClear(h: Heap, v: Value, ancestors: set<Address>, strict: bool, w: seq<Value>)
    requires Unfolds(h, v, ancestors, strict)
    requires Walk(h, w) && w[0] == v
    ensures IsFresh(h, w, ancestors, strict)
    decreases |w|
  {
    if v.Ref? {
      InspectAgrees(h, v);
      var t := Unfold(h, v, ancestors).value;
      var children := Inspect(h[v.address]).value.children;
      var below := ancestors + {v.address};
      forall i | 0 <= i < |children| ensures Unfolds(h, children[i], below, strict) && t.children[i] in t.children {}
      if |w| == 1 {
        if strict && t.shape.ArrayShape? {
          forall i | 0 <= i < |children| ensures children[i] != Undefined {
            assert t.children[i] in t.children && t.children[i] != Leaf(Undefined);
          }
        }
      } else {
        assert Below(h, w[0], w[1]);
        UnfoldingIsClear(h, w[1], below, strict, w[1..]);
        assert w == [w[0]] + w[1..];
        assert w[..|w| - 1] == [w[0]] + w[1..][..|w| - 2];
      }
    } else {
      assert |w| > 1 ==> Below(h, w[0], w[1]);
    }
  }

  lemma {:induction false} ClearUnfolds(h: Heap, v: Value, ancestors: set<Address>, strict: bool)
    requires IsClear(h, v, ancestors, strict)
    ensures Unfolds(h, v, ancestors, strict)
    decreases h.Keys - ancestors
  {
    assert Walk(h, [v]) && IsFresh(h, [v], ancestors, strict);
    if v.Ref? {
      InspectAgrees(h, v);
      var view := Inspect(h[v.address]).value;
      var below := ancestors + {v.address};
      forall i | 0 <= i < |view.children| ensures Unfolds(h, view.children[i], below, strict) {
        ClearBelow(h, v, view.children[i], ancestors, strict);
        ClearUnfolds(h, view.children[i], below, strict);
      }
    }
  }

  lemma ClearBelow(h: Heap, v: Value, child: Value, ancestors: set<Address>, strict: bool)
    requires IsClear(h, v, ancestors, strict) && v.Ref? && Below(h, v, child)
    ensures IsClear(h, child, ancestors + {v.address}, strict)
  {
    forall w: seq<Value> | Walk(h, w) && w[0] == child ensures IsFresh(h, w, ancestors + {v.address}, strict) {
      var longer := [v] + w;
      assert Walk(h, longer) && IsFresh(h, longer, ancestors, strict);
      assert longer[..|w|] == [v] + w[..|w| - 1];
    }
  }

  lemma WalkPrefix(h: Heap, w: seq<Value>, j: nat)
    requires Walk(h, w) && j < |w|
    ensures Walk(h, w[..j + 1])
  {
  }

  lemma ClearIsJsonGraph(h: Heap, v: Value, strict: bool)
    ensures IsClear(h, v, {}, strict) <==> IsJsonGraph(h, v, strict)
  {
    if IsClear(h, v, {}, strict) {
      forall w: seq<Value> | Walk(h, w) && w[0] == v
        ensures IsJsonData(h, w[|w| - 1], strict) && forall i, j :: !Repeats(w, i, j)
      {
        assert IsFresh(h, w, {}, strict);
        forall i, j | 0 <= i < j < |w| && w[i].Ref? ensures w[i] != w[j] {
          var p := w[..j + 1];
          WalkPrefix(h, w, j);
          assert IsFresh(h, p, {}, strict);
          assert p[j] == w[j] && p[..j][i] == w[i];
        }
      }
    }
    if IsJsonGraph(h, v, strict) {
      forall w: seq<Value> | Walk(h, w) && w[0] == v ensures IsFresh(h, w, {}, strict) {
        var n := |w| - 1;
        forall i | 0 <= i < n && w[i].Ref? ensures w[i] != w[n] { assert !Repeats(w, i, n); }
      }
    }
  }

  /** Reading terminates on every heap, and succeeds exactly when no cycle is reachable and every
  reachable value is JSON data.  A node shared between branches is not a cycle and is accepted. */
  lemma UnfoldsIffJsonGraph(h: Heap, v: Value, strict: bool)
    ensures Unfolds(h, v, {}, strict) <==> IsJsonGraph(h, v, strict)
  {
    ClearIsJsonGraph(h, v, strict);
    if Unfolds(h, v, {}, strict) {
      forall w: seq<Value> | Walk(h, w) && w[0] == v ensures IsFresh(h, w, {}, strict) {
        UnfoldingIsClear(h, v, {}, strict, w);
      }
    }
    if IsClear(h, v, {}, strict) { ClearUnfolds(h, v, {}, strict); }
  }
}
