/** Structural copies of untrusted object graphs.

The copy of a tree is laid out by allocation order: a node is allocated before its children, so the
copy of tree `t` made when `lo` is the next free address occupies exactly `lo .. lo + Size(t)`.
*/
module RecordCopy {
  import opened Options
  import opened Utf16
  import opened ObjectGraph
  import opened CanonicalRecord
  import Entries

  /** The mutable heap a copy is allocated in. */
  class ObjectHeap {
    var nodes: Heap
    var next: Address

    constructor (nodes: Heap, next: Address)
      ensures this.nodes == nodes && this.next == next
    {
      this.nodes, this.next := nodes, next;
    }

    ghost predicate Valid()
      reads this
    {
      forall a :: a in nodes ==> a < next
    }

    method Allocate(node: Node) returns (address: Address)
      requires Valid()
      modifies this
      ensures Valid() && address == old(next) && next == address + 1
      ensures nodes == old(nodes)[address := node]
    {
      address := next;
      nodes, next := nodes[address := node], address + 1;
    }

    /** `array.push(value)`. */
    method Push(target: Address, value: Value)
      requires Valid() && target in nodes && nodes[target].ArrayNode? && nodes[target].length.Count?
      modifies this`nodes
      ensures Valid()
      ensures nodes == old(nodes)[target := Pushed(old(nodes)[target], value)]
    {
      nodes := nodes[target := Pushed(nodes[target], value)];
    }

    /** `Object.defineProperty` with an enumerable data descriptor, for any key. */
    method DefineOwn(target: Address, key: Text, value: Value)
      requires Valid() && target in nodes && nodes[target].ObjectNode?
      modifies this`nodes
      ensures Valid()
      ensures nodes == old(nodes)[target := WithOwn(old(nodes)[target], key, value)]
    {
      nodes := nodes[target := WithOwn(nodes[target], key, value)];
    }
  }

  function Pushed(node: Node, value: Value): Node
    requires node.ArrayNode? && node.length.Count?
  {
    var n := node.length.n;
    node.(length := Count(n + 1), elements := node.elements[n := Data(value, true)])
  }

  /** A property that exists is replaced in place; a new one comes last. */
  function WithOwn(node: Node, key: Text, value: Value): Node
    requires node.ObjectNode?
  {
    node.(properties := Replaced(node.properties, key, value))
  }

  function Replaced(properties: seq<Named>, key: Text, value: Value): seq<Named> {
    if properties == [] then [Named(key, Data(value, true))]
    else if properties[0].key == key then [Named(key, Data(value, true))] + properties[1..]
    else [properties[0]] + Replaced(properties[1..], key, value)
  }

  lemma {:induction false} NewKeyComesLast(properties: seq<Named>, key: Text, value: Value)
    requires key !in NamesOf(properties)
    ensures Replaced(properties, key, value) == properties + [Named(key, Data(value, true))]
  {
    if properties != [] {
      assert NamesOf(properties)[0] == properties[0].key;
      assert forall k :: k in NamesOf(properties[1..]) ==> k in NamesOf(properties) by {
        assert forall i :: 0 <= i < |properties| - 1 ==> NamesOf(properties[1..])[i] == NamesOf(properties)[i + 1];
      }
      NewKeyComesLast(properties[1..], key, value);
    }
  }

  lemma NamesOfTail(properties: seq<Named>)
    requires properties != []
    ensures NamesOf(properties) == [properties[0].key] + NamesOf(properties[1..])
  {
  }

  /** Defining a property keeps the names, or adds the new one at the end. */
  lemma {:induction false} DefinedNames(properties: seq<Named>, key: Text, value: Value)
    ensures var names := NamesOf(properties);
      NamesOf(Replaced(properties, key, value)) == if key in names then names else names + [key]
  {
    if properties == [] {
      assert NamesOf([Named(key, Data(value, true))]) == [key];
    } else {
      var tail, after := properties[1..], Replaced(properties, key, value);
      NamesOfTail(properties);
      NamesOfTail(after);
      if properties[0].key != key {
        DefinedNames(tail, key, value);
        assert after[1..] == Replaced(tail, key, value);
      } else {
        assert after[1..] == tail;
      }
    }
  }

  /** Entry `i` becomes the value when its name is the defined one, and is not touched otherwise. */
  lemma {:induction false} DefinedEntry(properties: seq<Named>, key: Text, value: Value, i: nat)
    requires Entries.Distinct(NamesOf(properties)) && i < |properties|
    ensures i < |Replaced(properties, key, value)|
    ensures Replaced(properties, key, value)[i] == if properties[i].key == key then Named(key, Data(value, true)) else properties[i]
  {
    if properties[0].key == key {
      assert i > 0 ==> NamesOf(properties)[i] != NamesOf(properties)[0];
    } else if i > 0 {
      NamesOfTail(properties);
      var names, tail := NamesOf(properties), NamesOf(properties[1..]);
      assert forall j :: 0 <= j < |tail| ==> tail[j] == names[j + 1];
      DefinedEntry(properties[1..], key, value, i - 1);
    }
  }

  /** What defining a property does to an object whose names are distinct, for any key: its entry becomes the
  value, where it stood or else last, and every other entry stays as and where it was. */
  lemma DefinedInPlace(properties: seq<Named>, key: Text, value: Value)
    requires Entries.Distinct(NamesOf(properties))
    ensures var names, after := NamesOf(properties), Replaced(properties, key, value);
      && NamesOf(after) == (if key in names then names else names + [key])
      && Entries.Distinct(NamesOf(after))
      && (forall i :: 0 <= i < |properties| ==>
            after[i] == if properties[i].key == key then Named(key, Data(value, true)) else properties[i])
      && (key !in names ==> after[|properties|] == Named(key, Data(value, true)))
  {
    var names, after := NamesOf(properties), Replaced(properties, key, value);
    DefinedNames(properties, key, value);
    assert |after| == |NamesOf(after)|;
    forall i | 0 <= i < |properties|
      ensures after[i] == if properties[i].key == key then Named(key, Data(value, true)) else properties[i]
    {
      DefinedEntry(properties, key, value, i);
    }
    if key !in names { NewKeyComesLast(properties, key, value); }
  }

  // ---------- layout of a copy ----------

  /** How many nodes the copy of a tree allocates. */
  function Size(t: Tree): nat {
    match t
    case Leaf(_) => 0
    case Branch(_, children) => 1 + SizeAll(children)
  }

  function SizeAll(ts: seq<Tree>): nat {
    if ts == [] then 0 else SizeAll(ts[..|ts| - 1]) + Size(ts[|ts| - 1])
  }

  /** The value standing for `t` when its copy starts at `lo`. */
  function Placed(t: Tree, lo: Address): Value {
    match t
    case Leaf(v) => v
    case Branch(_, _) => Ref(lo)
  }

  function PlacedAll(ts: seq<Tree>, lo: Address): (vs: seq<Value>)
    ensures |vs| == |ts|
  {
    if ts == [] then []
    else
      var n := |ts| - 1;
      PlacedAll(ts[..n], lo) + [Placed(ts[n], lo + SizeAll(ts[..n]))]
  }

  /** A node created by the copier: plain data only, all of it enumerable. */
  function NewNode(shape: Shape, values: seq<Value>): Node
    requires shape.ObjectShape? ==> |shape.keys| == |values|
  {
    match shape
    case ArrayShape =>
      ArrayNode(false, Count(|values|), map i | 0 <= i < |values| :: Data(values[i], true))
    case ObjectShape(prototype, keys) =>
      ObjectNode(prototype, false, seq(|values|, i requires 0 <= i < |values| => Named(keys[i], Data(values[i], true))))
  }

  /** The heap holds a copy of `t` starting at `lo`. */
  ghost predicate Realizes(h: Heap, t: Tree, lo: Address) {
    match t
    case Leaf(_) => true
    case Branch(shape, children) =>
      && (shape.ObjectShape? ==> |shape.keys| == |children|)
      && lo in h && h[lo] == NewNode(shape, PlacedAll(children, lo + 1))
      && RealizesAll(h, children, lo + 1)
  }

  ghost predicate RealizesAll(h: Heap, ts: seq<Tree>, lo: Address) {
    ts == [] ||
    (var n := |ts| - 1; RealizesAll(h, ts[..n], lo) && Realizes(h, ts[n], lo + SizeAll(ts[..n])))
  }

  /** Only the addresses of the copy matter to it. */
  lemma {:induction false} RealizesFrame(h: Heap, g: Heap, t: Tree, lo: Address)
    requires Realizes(h, t, lo)
    requires forall a :: lo <= a < lo + Size(t) && a in h ==> a in g && g[a] == h[a]
    ensures Realizes(g, t, lo)
    decreases t, 0
  {
    if t.Branch? { RealizesAllFrame(h, g, t.children, lo + 1); }
  }

  lemma {:induction false} RealizesAllFrame(h: Heap, g: Heap, ts: seq<Tree>, lo: Address)
    requires RealizesAll(h, ts, lo)
    requires forall a :: lo <= a < lo + SizeAll(ts) && a in h ==> a in g && g[a] == h[a]
    ensures RealizesAll(g, ts, lo)
    decreases ts, 1
  {
    if ts != [] {
      var n := |ts| - 1;
      RealizesAllFrame(h, g, ts[..n], lo);
      RealizesFrame(h, g, ts[n], lo + SizeAll(ts[..n]));
    }
  }

  // ---------- the copier ----------

  /** The copier's source: closed under reading, and untouched by allocation. */
  ghost predicate Closed(h: Heap) {
    NamesDistinct(h) &&
    forall a, w :: a in h && Below(h, Ref(a), w) && w.Ref? ==> w.address in h
  }

  ghost predicate Extends(h: Heap, g: Heap) {
    forall a :: a in h ==> a in g && g[a] == h[a]
  }

  /** A container copied up to its first children. */
  ghost predicate Partial(h: Heap, shape: Shape, trees: seq<Tree>, lo: Address) {
    && (shape.ObjectShape? ==> |shape.keys| == |trees|)
    && lo in h && h[lo] == NewNode(shape, PlacedAll(trees, lo + 1))
    && RealizesAll(h, trees, lo + 1)
  }

  /** Adding one copied child to a partial container. */
  lemma PartialStep(before: Heap, after: Heap, g: Heap, shape: Shape, longer: Shape, trees: seq<Tree>, t: Tree, lo: Address)
    requires Partial(before, shape, trees, lo) && Extends(before, after)
    requires Realizes(after, t, lo + 1 + SizeAll(trees))
    requires longer.ObjectShape? ==> |longer.keys| == |trees| + 1
    requires g == after[lo := NewNode(longer, PlacedAll(trees + [t], lo + 1))]
    ensures Partial(g, longer, trees + [t], lo)
  {
    var all := trees + [t];
    assert all[..|trees|] == trees;
    RealizesAllFrame(before, g, trees, lo + 1);
    RealizesFrame(after, g, t, lo + 1 + SizeAll(trees));
  }

  lemma SizeStep(trees: seq<Tree>, t: Tree, lo: Address)
    ensures SizeAll(trees + [t]) == SizeAll(trees) + Size(t)
    ensures PlacedAll(trees + [t], lo) == PlacedAll(trees, lo) + [Placed(t, lo + SizeAll(trees))]
  {
    assert (trees + [t])[..|trees|] == trees;
  }

  function BranchOf(shape: Shape, trees: Option<seq<Tree>>): Option<Tree> {
    if trees.None? then None else Some(Branch(shape, trees.value))
  }

  /** What a copier promises about the tree it copied, started when `lo` was the next free address. */
  ghost predicate IsCopied(t: Option<Tree>, copy: Option<Value>, lo: Address, nodes: Heap, next: Address) {
    match t
    case None => copy == None
    case Some(t) => copy == Some(Placed(t, lo)) && next == lo + Size(t) && Realizes(nodes, t, lo)
  }

  /** The container at `result` holds copies of `trees` so far. */
  ghost predicate Copying(start: Heap, nodes: Heap, next: Address, shape: Shape, trees: seq<Tree>, result: Address) {
    && Extends(start, nodes) && result !in start
    && next == result + 1 + SizeAll(trees)
    && Partial(nodes, shape, trees, result)
  }

  function EmptyNode(shape: Shape): Node {
    if shape.ArrayShape? then ArrayNode(false, Count(0), map[]) else ObjectNode(shape.prototype, false, [])
  }

  lemma CopyStart(start: Heap, result: Address, shape: Shape)
    requires result !in start && (shape.ObjectShape? ==> shape.keys == [])
    ensures Copying(start, start[result := EmptyNode(shape)], result + 1, shape, [], result)
  {
    assert EmptyNode(shape) == NewNode(shape, []);
  }

  lemma CopyStep(start: Heap, before: Heap, next: Address, shape: Shape, trees: seq<Tree>, result: Address,
      t: Tree, after: Heap, nextAfter: Address, longer: Shape, g: Heap)
    requires Copying(start, before, next, shape, trees, result) && Extends(before, after)
    requires IsCopied(Some(t), Some(Placed(t, next)), next, after, nextAfter)
    requires longer.ObjectShape? ==> |longer.keys| == |trees| + 1
    requires g == after[result := NewNode(longer, PlacedAll(trees, result + 1) + [Placed(t, next)])]
    ensures Copying(start, g, nextAfter, longer, trees + [t], result)
  {
    SizeStep(trees, t, result + 1);
    PartialStep(before, after, g, shape, longer, trees, t, result);
    ExtendsBeside(start, before, after, result, g[result]);
  }

  lemma ExtendsBeside(start: Heap, before: Heap, after: Heap, result: Address, node: Node)
    requires Extends(start, before) && Extends(before, after) && result !in start
    ensures Extends(start, after[result := node])
  {
  }

  method CloneUntrusted(heap: ObjectHeap, v: Value, ancestors: Ancestors, ghost source: Heap) returns (copy: Option<Value>)
    requires heap.Valid() && Closed(source) && Extends(source, heap.nodes)
    requires v.Ref? ==> v.address in source
    modifies heap, ancestors
    ensures heap.Valid() && Extends(old(heap.nodes), heap.nodes)
    ensures ancestors.members == old(ancestors.members)
    ensures IsCopied(Unfold(source, v, old(ancestors.members)), copy, old(heap.next), heap.nodes, heap.next)
    decreases source.Keys - ancestors.members, 0
  {
    match v
    case Undefined => copy := Some(v);
    case Null => copy := Some(v);
    case String(_) => copy := Some(v);
    case Boolean(_) => copy := Some(v);
    case Number(n) => copy := if n.NotFinite? then None else Some(v);
    case BigInt => copy := None;
    case Symbol => copy := None;
    case Function => copy := None;
    case Ref(address) =>
      if address in ancestors.members { return None; }
      var node := heap.nodes[address];
      if node.ThrowingNode? || (node.ObjectNode? && node.prototype.OtherPrototype?) { return None; }
      ancestors.members := ancestors.members + {address};
      copy := CloneContents(heap, address, ancestors, source);
      ancestors.members := ancestors.members - {address};
  }

  /** The tree of one node's contents, with the node itself already among the ancestors. */
  function UnfoldContents(h: Heap, node: Node, ancestors: set<Address>): Option<Tree> {
    var view :- Inspect(node);
    BranchOf(view.shape, UnfoldAll(h, view.children, ancestors))
  }

  method CloneContents(heap: ObjectHeap, address: Address, ancestors: Ancestors, ghost source: Heap) returns (copy: Option<Value>)
    requires heap.Valid() && Closed(source) && Extends(source, heap.nodes)
    requires address in source && !source[address].ThrowingNode?
    requires source[address].ObjectNode? ==> !source[address].prototype.OtherPrototype?
    modifies heap, ancestors
    ensures heap.Valid() && Extends(old(heap.nodes), heap.nodes)
    ensures ancestors.members == old(ancestors.members)
    ensures IsCopied(UnfoldContents(source, source[address], old(ancestors.members)), copy, old(heap.next), heap.nodes, heap.next)
    decreases source.Keys - ancestors.members, 2
  {
    InspectAgrees(source, Ref(address));
    match heap.nodes[address]
    case ArrayNode(symbolKeys, length, elements) =>
      var read := OwnArrayItems(symbolKeys, length, elements);
      if read.None? { return None; }
      copy := CloneItems(heap, read.value, ancestors, source);
    case ObjectNode(prototype, symbolKeys, properties) =>
      var own := OwnDataEntries(symbolKeys, properties);
      if own.None? { return None; }
      EntryKeysDistinct(properties);
      copy := CloneEntries(heap, prototype, own.value.0, own.value.1, ancestors, source);
  }

  /** The first `i` values unfold to `trees`. */
  ghost predicate UnfoldedUpTo(h: Heap, vs: seq<Value>, ancestors: set<Address>, i: nat, trees: seq<Tree>) {
    i <= |vs| && UnfoldAll(h, vs[..i], ancestors) == Some(trees)
  }

  lemma UnfoldNext(h: Heap, vs: seq<Value>, ancestors: set<Address>, i: nat, trees: seq<Tree>)
    requires i < |vs| && UnfoldedUpTo(h, vs, ancestors, i, trees)
    ensures var t := Unfold(h, vs[i], ancestors);
      if t.Some? then UnfoldedUpTo(h, vs, ancestors, i + 1, trees + [t.value]) else UnfoldAll(h, vs, ancestors).None?
  {
    assert vs[..i + 1][..i] == vs[..i];
  }

  lemma UnfoldedEntirely(h: Heap, vs: seq<Value>, ancestors: set<Address>, trees: seq<Tree>)
    requires UnfoldedUpTo(h, vs, ancestors, |vs|, trees)
    ensures UnfoldAll(h, vs, ancestors) == Some(trees)
  {
    assert vs[..|vs|] == vs;
  }

  method CloneItems(heap: ObjectHeap, items: seq<Value>, ancestors: Ancestors, ghost source: Heap) returns (copy: Option<Value>)
    requires heap.Valid() && Closed(source) && Extends(source, heap.nodes)
    requires forall w :: w in items && w.Ref? ==> w.address in source
    modifies heap, ancestors
    ensures heap.Valid() && Extends(old(heap.nodes), heap.nodes)
    ensures ancestors.members == old(ancestors.members)
    ensures IsCopied(BranchOf(ArrayShape, UnfoldAll(source, items, old(ancestors.members))), copy, old(heap.next), heap.nodes, heap.next)
    decreases source.Keys - ancestors.members, 1, 2
  {
    ghost var start := heap.nodes;
    var result := heap.Allocate(ArrayNode(false, Count(0), map[]));
    CopyStart(start, result, ArrayShape);
    var copied := PushCopies(heap, items, result, ancestors, source, start);
    copy := if copied then Some(Ref(result)) else None;
  }

  /** The copying loop over the items of one array. */
  method PushCopies(heap: ObjectHeap, items: seq<Value>, result: Address, ancestors: Ancestors, ghost source: Heap, ghost start: Heap)
    returns (copied: bool)
    requires heap.Valid() && Closed(source) && Extends(source, start)
    requires forall w :: w in items && w.Ref? ==> w.address in source
    requires Copying(start, heap.nodes, heap.next, ArrayShape, [], result)
    modifies heap, ancestors
    ensures heap.Valid() && Extends(start, heap.nodes)
    ensures ancestors.members == old(ancestors.members)
    ensures copied <==> UnfoldAll(source, items, ancestors.members).Some?
    ensures copied ==> Copying(start, heap.nodes, heap.next, ArrayShape, UnfoldAll(source, items, ancestors.members).value, result)
    decreases source.Keys - ancestors.members, 1, 1
  {
    ghost var path, trees: seq<Tree> := ancestors.members, [];
    var i := 0;
    while i < |items|
      invariant i <= |items| && heap.Valid() && ancestors.members == path
      invariant UnfoldedUpTo(source, items, path, i, trees)
      invariant Copying(start, heap.nodes, heap.next, ArrayShape, trees, result)
    {
      UnfoldNext(source, items, path, i, trees);
      var next := CloneNextItem(heap, items, i, result, ancestors, source, start, trees);
      if !next { return false; }
      trees := trees + [Unfold(source, items[i], path).value];
      i := i + 1;
    }
    UnfoldedEntirely(source, items, path, trees);
    return true;
  }

  /** One round of the loop: copies item `i` and pushes it. */
  method CloneNextItem(heap: ObjectHeap, items: seq<Value>, i: nat, result: Address, ancestors: Ancestors,
      ghost source: Heap, ghost start: Heap, ghost trees: seq<Tree>)
    returns (copied: bool)
    requires heap.Valid() && Closed(source) && Extends(source, start)
    requires i < |items| && (items[i].Ref? ==> items[i].address in source)
    requires Copying(start, heap.nodes, heap.next, ArrayShape, trees, result)
    modifies heap, ancestors
    ensures heap.Valid() && Extends(start, heap.nodes)
    ensures ancestors.members == old(ancestors.members)
    ensures copied <==> Unfold(source, items[i], ancestors.members).Some?
    ensures copied ==> Copying(start, heap.nodes, heap.next, ArrayShape,
      trees + [Unfold(source, items[i], ancestors.members).value], result)
    decreases source.Keys - ancestors.members, 1, 0
  {
    ghost var before, next := heap.nodes, heap.next;
    var copy := CloneUntrusted(heap, items[i], ancestors, source);
    if copy.None? { return false; }
    ghost var after := heap.nodes;
    assert after[result] == NewNode(ArrayShape, PlacedAll(trees, result + 1));
    PushedNode(PlacedAll(trees, result + 1), copy.value);
    heap.Push(result, copy.value);
    CopyStep(start, before, next, ArrayShape, trees, result,
      Unfold(source, items[i], ancestors.members).value, after, heap.next, ArrayShape, heap.nodes);
    return true;
  }

  lemma PushedNode(values: seq<Value>, v: Value)
    ensures Pushed(NewNode(ArrayShape, values), v) == NewNode(ArrayShape, values + [v])
  {
  }

  method CloneEntries(heap: ObjectHeap, prototype: Prototype, keys: seq<Text>, values: seq<Value>, ancestors: Ancestors, ghost source: Heap)
    returns (copy: Option<Value>)
    requires heap.Valid() && Closed(source) && Extends(source, heap.nodes)
    requires |keys| == |values| && Entries.Distinct(keys)
    requires forall w :: w in values && w.Ref? ==> w.address in source
    modifies heap, ancestors
    ensures heap.Valid() && Extends(old(heap.nodes), heap.nodes)
    ensures ancestors.members == old(ancestors.members)
    ensures IsCopied(BranchOf(ObjectShape(prototype, keys), UnfoldAll(source, values, old(ancestors.members))), copy,
      old(heap.next), heap.nodes, heap.next)
    decreases source.Keys - ancestors.members, 1, 2
  {
    ghost var start := heap.nodes;
    var result := heap.Allocate(ObjectNode(prototype, false, []));
    CopyStart(start, result, ObjectShape(prototype, []));
    var copied := DefineCopies(heap, prototype, keys, values, result, ancestors, source, start);
    copy := if copied then Some(Ref(result)) else None;
  }

  /** The copying loop over the entries of one object. */
  method DefineCopies(heap: ObjectHeap, ghost prototype: Prototype, keys: seq<Text>, values: seq<Value>, result: Address,
      ancestors: Ancestors, ghost source: Heap, ghost start: Heap)
    returns (copied: bool)
    requires heap.Valid() && Closed(source) && Extends(source, start)
    requires |keys| == |values| && Entries.Distinct(keys)
    requires forall w :: w in values && w.Ref? ==> w.address in source
    requires Copying(start, heap.nodes, heap.next, ObjectShape(prototype, []), [], result)
    modifies heap, ancestors
    ensures heap.Valid() && Extends(start, heap.nodes)
    ensures ancestors.members == old(ancestors.members)
    ensures copied <==> UnfoldAll(source, values, ancestors.members).Some?
    ensures copied ==> Copying(start, heap.nodes, heap.next, ObjectShape(prototype, keys),
      UnfoldAll(source, values, ancestors.members).value, result)
    decreases source.Keys - ancestors.members, 1, 1
  {
    ghost var path, trees: seq<Tree> := ancestors.members, [];
    var i := 0;
    assert keys[..0] == [];
    while i < |keys|
      invariant i <= |keys| && heap.Valid() && ancestors.members == path
      invariant UnfoldedUpTo(source, values, path, i, trees)
      invariant Copying(start, heap.nodes, heap.next, ObjectShape(prototype, keys[..i]), trees, result)
    {
      UnfoldNext(source, values, path, i, trees);
      var next := CloneNextEntry(heap, prototype, keys, values, i, result, ancestors, source, start, trees);
      if !next { return false; }
      trees := trees + [Unfold(source, values[i], path).value];
      i := i + 1;
    }
    assert keys[..i] == keys;
    UnfoldedEntirely(source, values, path, trees);
    return true;
  }

  /** One round of the loop: copies entry `i` and defines it. */
  method CloneNextEntry(heap: ObjectHeap, ghost prototype: Prototype, keys: seq<Text>, values: seq<Value>, i: nat,
      result: Address, ancestors: Ancestors, ghost source: Heap, ghost start: Heap, ghost trees: seq<Tree>)
    returns (copied: bool)
    requires heap.Valid() && Closed(source) && Extends(source, start)
    requires i < |keys| == |values| && Entries.Distinct(keys)
    requires values[i].Ref? ==> values[i].address in source
    requires Copying(start, heap.nodes, heap.next, ObjectShape(prototype, keys[..i]), trees, result)
    modifies heap, ancestors
    ensures heap.Valid() && Extends(start, heap.nodes)
    ensures ancestors.members == old(ancestors.members)
    ensures copied <==> Unfold(source, values[i], ancestors.members).Some?
    ensures copied ==> Copying(start, heap.nodes, heap.next,
      ObjectShape(prototype, keys[..i + 1]), trees + [Unfold(source, values[i], ancestors.members).value], result)
    decreases source.Keys - ancestors.members, 1, 0
  {
    ghost var before, next := heap.nodes, heap.next;
    ghost var shape, longer := ObjectShape(prototype, keys[..i]), ObjectShape(prototype, keys[..i + 1]);
    var copy := CloneUntrusted(heap, values[i], ancestors, source);
    if copy.None? { return false; }
    ghost var after := heap.nodes;
    assert after[result] == NewNode(shape, PlacedAll(trees, result + 1));
    DefinedNode(prototype, keys, i, PlacedAll(trees, result + 1), copy.value);
    heap.DefineOwn(result, keys[i], copy.value);
    CopyStep(start, before, next, shape, trees, result,
      Unfold(source, values[i], ancestors.members).value, after, heap.next, longer, heap.nodes);
    return true;
  }

  lemma DefinedNode(prototype: Prototype, keys: seq<Text>, i: nat, values: seq<Value>, v: Value)
    requires i < |keys| && |values| == i && Entries.Distinct(keys)
    ensures WithOwn(NewNode(ObjectShape(prototype, keys[..i]), values), keys[i], v)
         == NewNode(ObjectShape(prototype, keys[..i + 1]), values + [v])
  {
    var properties := NewNode(ObjectShape(prototype, keys[..i]), values).properties;
    assert NamesOf(properties) == keys[..i];
    NewKeyComesLast(properties, keys[i], v);
  }

  // ---------- the copy stands for the same tree ----------

  lemma {:induction false} SizeGrows(ts: seq<Tree>, i: nat, j: nat)
    requires i < j <= |ts|
    ensures SizeAll(ts[..i]) + Size(ts[i]) <= SizeAll(ts[..j])
    decreases j
  {
    assert ts[..j][..j - 1] == ts[..j - 1];
    if i < j - 1 { SizeGrows(ts, i, j - 1); }
  }

  lemma {:induction false} ChildAt(h: Heap, ts: seq<Tree>, lo: Address, i: nat)
    requires i < |ts|
    ensures PlacedAll(ts, lo)[i] == Placed(ts[i], lo + SizeAll(ts[..i]))
    ensures RealizesAll(h, ts, lo) ==> Realizes(h, ts[i], lo + SizeAll(ts[..i]))
    decreases |ts|
  {
    var n := |ts| - 1;
    if i < n {
      ChildAt(h, ts[..n], lo, i);
      assert ts[..n][..i] == ts[..i];
    }
  }

  lemma {:induction false} NewElements(values: seq<Value>, n: nat)
    requires n <= |values|
    ensures ItemsUpTo(map i | 0 <= i < |values| :: Data(values[i], true), n) == Some(values[..n])
  {
    if n > 0 {
      NewElements(values, n - 1);
      assert values[..n] == values[..n - 1] + [values[n - 1]];
    }
  }

  lemma {:induction false} NewProperties(keys: seq<Text>, values: seq<Value>, properties: seq<Named>)
    requires |keys| == |values| == |properties|
    requires forall i :: 0 <= i < |keys| ==> properties[i] == Named(keys[i], Data(values[i], true))
    ensures EntriesOf(properties) == Some((keys, values))
  {
    if properties != [] {
      var n := |properties| - 1;
      NewProperties(keys[..n], values[..n], properties[..n]);
      assert keys == keys[..n] + [keys[n]] && values == values[..n] + [values[n]];
    }
  }

  /** A created node reads back as exactly what was put in it. */
  lemma InspectNewNode(shape: Shape, values: seq<Value>)
    requires shape.ObjectShape? ==> |shape.keys| == |values| && !shape.prototype.OtherPrototype?
    ensures Inspect(NewNode(shape, values)) == Some(View(shape, values))
  {
    match shape
    case ArrayShape =>
      NewElements(values, |values|);
      assert values[..|values|] == values;
    case ObjectShape(_, keys) =>
      NewProperties(keys, values, NewNode(shape, values).properties);
  }

  function ChildStart(t: Tree, lo: Address, i: nat): Address
    requires t.Branch? && i <= |t.children|
  {
    lo + 1 + SizeAll(t.children[..i])
  }

  /** What the copy of a branch looks like at its root, and where its children are. */
  lemma CopyRoot(h: Heap, t: Tree, lo: Address)
    requires Realizes(h, t, lo) && Regular(t) && t.Branch?
    ensures lo in h && Inspect(h[lo]) == Some(View(t.shape, PlacedAll(t.children, lo + 1)))
  {
    InspectNewNode(t.shape, PlacedAll(t.children, lo + 1));
  }

  lemma CopyChild(h: Heap, t: Tree, lo: Address, i: nat)
    requires Realizes(h, t, lo) && Regular(t) && t.Branch? && i < |t.children|
    ensures PlacedAll(t.children, lo + 1)[i] == Placed(t.children[i], ChildStart(t, lo, i))
    ensures Realizes(h, t.children[i], ChildStart(t, lo, i)) && Regular(t.children[i])
    ensures lo < ChildStart(t, lo, i) && ChildStart(t, lo, i) + Size(t.children[i]) <= lo + Size(t)
  {
    ChildAt(h, t.children, lo + 1, i);
    SizeGrows(t.children, i, |t.children|);
    assert t.children[..|t.children|] == t.children;
  }

  /** The copy unfolds to the very tree it was made from. */
  lemma {:induction false} CopyUnfolds(h: Heap, t: Tree, lo: Address, ancestors: set<Address>)
    requires Realizes(h, t, lo) && Regular(t)
    requires forall a :: a in ancestors ==> a < lo
    ensures Unfold(h, Placed(t, lo), ancestors) == Some(t)
    decreases t
  {
    if t.Branch? {
      var values := PlacedAll(t.children, lo + 1);
      CopyRoot(h, t, lo);
      forall i | 0 <= i < |t.children| ensures Unfold(h, values[i], ancestors + {lo}) == Some(t.children[i]) {
        CopyChild(h, t, lo, i);
        CopyUnfolds(h, t.children[i], ChildStart(t, lo, i), ancestors + {lo});
      }
      var all := UnfoldAll(h, values, ancestors + {lo}).value;
      assert all == t.children;
    }
  }

  // ---------- paths ----------

  /** The value reached from `v` by taking child `path[0]`, then child `path[1]`, and so on. */
  function Follow(h: Heap, v: Value, path: seq<nat>): Option<Value>
    decreases |path|
  {
    if path == [] then Some(v)
    else if !v.Ref? || v.address !in h then None
    else
      var view :- Inspect(h[v.address]);
      if path[0] < |view.children| then Follow(h, view.children[path[0]], path[1..]) else None
  }

  function Subtree(t: Tree, path: seq<nat>): Option<Tree>
    decreases |path|
  {
    if path == [] then Some(t)
    else if t.Branch? && path[0] < |t.children| then Subtree(t.children[path[0]], path[1..])
    else None
  }

  /** A value and the root of the tree it unfolds to look alike: the same scalar, or a container of
  the same kind with the same prototype and the same keys in the same order. */
  predicate LooksLike(h: Heap, v: Value, t: Tree) {
    match t
    case Leaf(x) => v == x
    case Branch(shape, children) =>
      v.Ref? && v.address in h && Inspect(h[v.address]).Some? &&
      Inspect(h[v.address]).value.shape == shape && |Inspect(h[v.address]).value.children| == |children|
  }

  lemma {:induction false} FollowUnfold(h: Heap, v: Value, ancestors: set<Address>, path: seq<nat>)
    requires Unfold(h, v, ancestors).Some?
    ensures var t := Unfold(h, v, ancestors).value;
      && (Follow(h, v, path).Some? <==> Subtree(t, path).Some?)
      && (Follow(h, v, path).Some? ==> LooksLike(h, Follow(h, v, path).value, Subtree(t, path).value))
    decreases |path|
  {
    if path != [] && v.Ref? {
      var children := Inspect(h[v.address]).value.children;
      if path[0] < |children| { FollowUnfold(h, children[path[0]], ancestors + {v.address}, path[1..]); }
    }
  }

  /** Every object reached inside a copy lies in the copy's own address range. */
  lemma {:induction false} CopyIsFresh(h: Heap, t: Tree, lo: Address, path: seq<nat>)
    requires Realizes(h, t, lo) && Regular(t)
    requires Follow(h, Placed(t, lo), path).Some? && Follow(h, Placed(t, lo), path).value.Ref?
    ensures lo <= Follow(h, Placed(t, lo), path).value.address < lo + Size(t)
    decreases |path|
  {
    if t.Branch? && path != [] {
      CopyRoot(h, t, lo);
      CopyChild(h, t, lo, path[0]);
      CopyIsFresh(h, t.children[path[0]], ChildStart(t, lo, path[0]), path[1..]);
    }
  }

  ghost predicate SameObject(h: Heap, v: Value, p: seq<nat>, q: seq<nat>) {
    Follow(h, v, p).Some? && Follow(h, v, p).value.Ref? && Follow(h, v, p) == Follow(h, v, q)
  }

  /** No object of a copy is reached by two different paths: branches of the copy share nothing. */
  lemma {:induction false} CopyIsUnshared(h: Heap, t: Tree, lo: Address, p: seq<nat>, q: seq<nat>)
    requires Realizes(h, t, lo) && Regular(t)
    requires SameObject(h, Placed(t, lo), p, q)
    ensures p == q
    decreases |p|
  {
    if t.Branch? && p != [] && q != [] {
      SameFirstChild(h, t, lo, p, q);
      CopyIsUnshared(h, t.children[p[0]], ChildStart(t, lo, p[0]), p[1..], q[1..]);
      assert p == [p[0]] + p[1..] && q == [q[0]] + q[1..];
    } else if t.Branch? {
      if p != [] { BelowRoot(h, t, lo, p); }
      if q != [] { BelowRoot(h, t, lo, q); }
    }
  }

  lemma SameFirstChild(h: Heap, t: Tree, lo: Address, p: seq<nat>, q: seq<nat>)
    requires Realizes(h, t, lo) && Regular(t) && t.Branch? && p != [] && q != []
    requires SameObject(h, Placed(t, lo), p, q)
    ensures p[0] == q[0] < |t.children|
    ensures var from, child := ChildStart(t, lo, p[0]), t.children[p[0]];
      Realizes(h, child, from) && Regular(child) && SameObject(h, Placed(child, from), p[1..], q[1..])
  {
    BelowRoot(h, t, lo, p);
    BelowRoot(h, t, lo, q);
    if p[0] < q[0] { SizeGrows(t.children, p[0], q[0]); }
    if q[0] < p[0] { SizeGrows(t.children, q[0], p[0]); }
  }

  /** What a non-empty path reaches lies inside the range of its first child. */
  lemma BelowRoot(h: Heap, t: Tree, lo: Address, path: seq<nat>)
    requires Realizes(h, t, lo) && Regular(t) && t.Branch? && path != []
    requires Follow(h, Placed(t, lo), path).Some? && Follow(h, Placed(t, lo), path).value.Ref?
    ensures path[0] < |t.children|
    ensures var from, child := ChildStart(t, lo, path[0]), t.children[path[0]];
      && lo < from && Realizes(h, child, from) && Regular(child)
      && Follow(h, Placed(t, lo), path) == Follow(h, Placed(child, from), path[1..])
      && from <= Follow(h, Placed(t, lo), path).value.address < from + Size(child)
  {
    CopyRoot(h, t, lo);
    CopyChild(h, t, lo, path[0]);
    CopyIsFresh(h, t.children[path[0]], ChildStart(t, lo, path[0]), path[1..]);
  }

  // ---------- copying as a whole ----------

  /** `copy` is an exact, unaliased copy in `g` of what `v` is in `h`. */
  ghost predicate IsIsolatedCopy(h: Heap, v: Value, g: Heap, copy: Value) {
    && Unfold(g, copy, {}) == Unfold(h, v, {})
    && (forall p :: Follow(g, copy, p).Some? && Follow(g, copy, p).value.Ref? ==> Follow(g, copy, p).value.address !in h)
    && (forall p, q :: SameObject(g, copy, p, q) ==> p == q)
  }

  method TryCloneJsonRecord(heap: ObjectHeap, v: Value) returns (copy: Option<Value>)
    requires heap.Valid() && Closed(heap.nodes)
    requires v.Ref? ==> v.address in heap.nodes
    modifies heap
    ensures heap.Valid() && Extends(old(heap.nodes), heap.nodes)
    ensures copy.Some? <==> IsJsonGraph(old(heap.nodes), v, false)
    ensures copy.Some? ==> IsIsolatedCopy(old(heap.nodes), v, heap.nodes, copy.value)
  {
    ghost var source, lo := heap.nodes, heap.next;
    var ancestors := new Ancestors();
    copy := CloneUntrusted(heap, v, ancestors, source);
    UnfoldsIffJsonGraph(source, v, false);
    if copy.Some? {
      UnfoldIsRegular(source, v, {});
      IsolatedCopy(source, v, heap.nodes, Unfold(source, v, {}).value, lo);
    }
  }

  lemma IsolatedCopy(h: Heap, v: Value, g: Heap, t: Tree, lo: Address)
    requires Unfold(h, v, {}) == Some(t) && Regular(t) && Realizes(g, t, lo)
    requires forall a :: a in h ==> a < lo
    ensures IsIsolatedCopy(h, v, g, Placed(t, lo))
  {
    CopyUnfolds(g, t, lo, {});
    forall p | Follow(g, Placed(t, lo), p).Some? && Follow(g, Placed(t, lo), p).value.Ref?
      ensures Follow(g, Placed(t, lo), p).value.address !in h
    {
      CopyIsFresh(g, t, lo, p);
    }
    forall p, q | SameObject(g, Placed(t, lo), p, q) ensures p == q { CopyIsUnshared(g, t, lo, p, q); }
  }

  /** Whenever a value canonicalizes it can be copied. */
  lemma CanonicalImpliesCopyable(h: Heap, v: Value)
    requires NamesDistinct(h) && CanonicalText(h, v, {}).Some?
    ensures IsJsonGraph(h, v, false)
  {
    UnfoldsIffJsonGraph(h, v, false);
  }

  /** A copy has the canonical text of its source, and along every path it shows the same scalars, the
  same prototypes and the same keys in the same order - including keys whose value is `undefined`. */
  lemma CopyIsEqual(h: Heap, v: Value, g: Heap, copy: Value, path: seq<nat>)
    requires Unfold(h, v, {}).Some? && IsIsolatedCopy(h, v, g, copy)
    ensures CanonicalText(g, copy, {}) == CanonicalText(h, v, {})
    ensures Follow(g, copy, path).Some? <==> Follow(h, v, path).Some?
    ensures Follow(h, v, path).Some? ==>
      var t := Subtree(Unfold(h, v, {}).value, path);
      t.Some? && LooksLike(h, Follow(h, v, path).value, t.value) && LooksLike(g, Follow(g, copy, path).value, t.value)
  {
    FollowUnfold(h, v, {}, path);
    FollowUnfold(g, copy, {}, path);
  }
}
