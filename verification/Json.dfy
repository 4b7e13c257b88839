/** JSON values, their canonical text and a reader of the grammar in RFC 8259.

Two spellings that differ only in key order, in spacing or in -0 against 0 are one value: an object
is a map, and a number is a `JsonNumber.Finite`.  The canonical text writes no spaces and sorts keys
by code unit.
*/
module Json {
  import opened Options
  import opened Utf16
  import JsonNumber
  import JsonString

  datatype Json =
    | Null
    | Bool(b: bool)
    | Num(n: JsonNumber.Finite)
    | Str(s: Text)
    | Arr(items: seq<Json>)
    | Obj(fields: map<Text, Json>)

  const NULL_TEXT: Text := [110, 117, 108, 108]
  const TRUE_TEXT: Text := [116, 114, 117, 101]
  const FALSE_TEXT: Text := [102, 97, 108, 115, 101]
  const COMMA: CodeUnit := 44
  const COLON: CodeUnit := 58
  const OPEN_ARRAY: CodeUnit := 91
  const CLOSE_ARRAY: CodeUnit := 93
  const OPEN_OBJECT: CodeUnit := 123
  const CLOSE_OBJECT: CodeUnit := 125

  // ---------- sorted keys ----------

  ghost predicate StrictlySorted(keys: seq<Text>) {
    forall i, j :: 0 <= i < j < |keys| ==> Less(keys[i], keys[j])
  }

  ghost predicate IsLeast(keys: set<Text>, k: Text) {
    k in keys && forall l :: l in keys ==> AtMost(k, l)
  }

  lemma {:induction false} LeastExists(keys: set<Text>)
    requires keys != {}
    ensures exists k :: IsLeast(keys, k)
    decreases keys
  {
    AtMostIsTotalOrder();
    var x :| x in keys;
    if keys == {x} {
      assert IsLeast(keys, x);
    } else {
      LeastExists(keys - {x});
      var y :| IsLeast(keys - {x}, y);
      assert IsLeast(keys, if AtMost(x, y) then x else y);
    }
  }

  lemma LeastIsUnique(keys: set<Text>)
    ensures forall k, l :: IsLeast(keys, k) && IsLeast(keys, l) ==> k == l
  {
    AtMostIsTotalOrder();
  }

  function Least(keys: set<Text>): (k: Text)
    requires keys != {}
    ensures IsLeast(keys, k)
  {
    LeastExists(keys);
    LeastIsUnique(keys);
    var k: Text :| k in keys && forall l :: l in keys ==> AtMost(k, l);
    assert forall m: Text :: (m in keys && forall l :: l in keys ==> AtMost(m, l)) ==> IsLeast(keys, m);
    k
  }

  /** The keys of an object in the order its canonical text lists them. */
  function SortedKeys(keys: set<Text>): (s: seq<Text>)
    ensures forall k :: k in s <==> k in keys
    decreases keys
  {
    if keys == {} then [] else var k := Least(keys); [k] + SortedKeys(keys - {k})
  }

  lemma {:induction false} SortedKeysAreSorted(keys: set<Text>)
    ensures StrictlySorted(SortedKeys(keys))
    decreases keys
  {
    if keys != {} {
      var k := Least(keys);
      SortedKeysAreSorted(keys - {k});
      assert forall l :: l in SortedKeys(keys - {k}) ==> Less(k, l);
    }
  }

  /** There is only one strictly sorted listing of a set of keys. */
  lemma {:induction false} SortedListingUnique(a: seq<Text>, b: seq<Text>)
    requires StrictlySorted(a) && StrictlySorted(b)
    requires forall k :: k in a <==> k in b
    ensures a == b
  {
    assert a != [] ==> a[0] in a && a[0] in b;
    assert b != [] ==> b[0] in b && b[0] in a;
    if a != [] {
      assert a[0] == b[0] by { FirstOfListing(a, b[0]); FirstOfListing(b, a[0]); LessTrichotomy(a[0], b[0]); }
      assert a == [a[0]] + a[1..] && b == [b[0]] + b[1..];
      TailOfListing(a);
      TailOfListing(b);
      SortedListingUnique(a[1..], b[1..]);
    }
  }

  lemma FirstOfListing(a: seq<Text>, k: Text)
    requires StrictlySorted(a) && k in a
    ensures a[0] == k || Less(a[0], k)
  {
    var i :| 0 <= i < |a| && a[i] == k;
  }

  lemma TailOfListing(a: seq<Text>)
    requires StrictlySorted(a) && a != []
    ensures forall k :: k in a[1..] <==> k in a && k != a[0]
  {
    forall k ensures k in a[1..] <==> k in a && k != a[0] {
      LessTrichotomy(a[0], a[0]);
      if k in a && k != a[0] {
        var i :| 0 <= i < |a| && a[i] == k;
        assert a[1..][i - 1] == k;
      }
    }
  }

  // ---------- printing ----------

  function Join(parts: seq<Text>): Text {
    if parts == [] then []
    else if |parts| == 1 then parts[0]
    else parts[0] + ([COMMA] + Join(parts[1..]))
  }

  function Member(key: Text, text: Text): Text {
    JsonString.Quote(key) + ([COLON] + text)
  }

  function Bracketed(open: CodeUnit, parts: seq<Text>, close: CodeUnit): Text {
    [open] + (Join(parts) + [close])
  }

  /** The canonical text of a value. */
  function Print(j: Json): Text {
    match j
    case Null => NULL_TEXT
    case Bool(b) => if b then TRUE_TEXT else FALSE_TEXT
    case Num(n) => JsonNumber.Print(n)
    case Str(s) => JsonString.Quote(s)
    case Arr(items) =>
      Bracketed(OPEN_ARRAY, seq(|items|, i requires 0 <= i < |items| => Print(items[i])), CLOSE_ARRAY)
    case Obj(fields) =>
      var keys := SortedKeys(fields.Keys);
      Bracketed(OPEN_OBJECT,
        seq(|keys|, i requires 0 <= i < |keys| => Member(keys[i], (assert keys[i] in keys; Print(fields[keys[i]])))),
        CLOSE_OBJECT)
  }

  // ---------- reading ----------

  predicate IsSpace(c: CodeUnit) { c == 9 || c == 10 || c == 13 || c == 32 }

  function SkipSpace(t: Text): (r: Text)
    ensures |r| <= |t|
  {
    if t != [] && IsSpace(t[0]) then SkipSpace(t[1..]) else t
  }

  function ReadValue(t: Text): (r: Option<(Json, Text)>)
    ensures r.Some? ==> |r.value.1| < |t|
    decreases |t|, 0
  {
    var u := SkipSpace(t);
    if u == [] then None
    else if u[0] == JsonString.QUOTE then
      var (s, rest) :- JsonString.ReadBody(u[1..]);
      Some((Str(s), rest))
    else if u[0] == OPEN_ARRAY then
      var v := SkipSpace(u[1..]);
      if v != [] && v[0] == CLOSE_ARRAY then Some((Arr([]), v[1..]))
      else
        var (items, rest) :- ReadItems(u[1..]);
        Some((Arr(items), rest))
    else if u[0] == OPEN_OBJECT then
      var v := SkipSpace(u[1..]);
      if v != [] && v[0] == CLOSE_OBJECT then Some((Obj(map[]), v[1..]))
      else
        var (fields, rest) :- ReadMembers(u[1..]);
        Some((Obj(fields), rest))
    else if NULL_TEXT <= u then Some((Null, u[4..]))
    else if TRUE_TEXT <= u then Some((Bool(true), u[4..]))
    else if FALSE_TEXT <= u then Some((Bool(false), u[5..]))
    else
      var (n, rest) :- JsonNumber.Read(u);
      Some((Num(n), rest))
  }

  function ReadItems(t: Text): (r: Option<(seq<Json>, Text)>)
    ensures r.Some? ==> |r.value.1| < |t|
    decreases |t|, 1
  {
    var (item, after) :- ReadValue(t);
    var u := SkipSpace(after);
    if u == [] then None
    else if u[0] == CLOSE_ARRAY then Some(([item], u[1..]))
    else if u[0] == COMMA then
      var (items, rest) :- ReadItems(u[1..]);
      Some(([item] + items, rest))
    else None
  }

  /** A repeated key keeps its last value. */
  function ReadMembers(t: Text): (r: Option<(map<Text, Json>, Text)>)
    ensures r.Some? ==> |r.value.1| < |t|
    decreases |t|, 1
  {
    var q := SkipSpace(t);
    if q == [] || q[0] != JsonString.QUOTE then None
    else
      var (key, afterKey) :- JsonString.ReadBody(q[1..]);
      var c := SkipSpace(afterKey);
      if c == [] || c[0] != COLON then None
      else
        var (value, after) :- ReadValue(c[1..]);
        var u := SkipSpace(after);
        if u == [] then None
        else if u[0] == CLOSE_OBJECT then Some((map[key := value], u[1..]))
        else if u[0] == COMMA then
          var (fields, rest) :- ReadMembers(u[1..]);
          Some((map[key := value] + fields, rest))
        else None
  }

  /** `JSON.parse`: one value and nothing but spaces after it. */
  function Parse(t: Text): Option<Json> {
    var (j, rest) :- ReadValue(t);
    if SkipSpace(rest) == [] then Some(j) else None
  }

  // ---------- the reader undoes the printer ----------

  /** The printed parts of an array or an object. */
  function ItemParts(items: seq<Json>): seq<Text> {
    seq(|items|, i requires 0 <= i < |items| => Print(items[i]))
  }

  function MemberParts(keys: seq<Text>, fields: map<Text, Json>): seq<Text>
    requires forall k :: k in keys ==> k in fields
  {
    seq(|keys|, i requires 0 <= i < |keys| => Member(keys[i], (assert keys[i] in keys; Print(fields[keys[i]]))))
  }

  lemma PrintArray(items: seq<Json>)
    ensures Print(Arr(items)) == Bracketed(OPEN_ARRAY, ItemParts(items), CLOSE_ARRAY)
  {
    assert ItemParts(items) == seq(|items|, i requires 0 <= i < |items| => Print(items[i]));
  }

  lemma PrintObject(fields: map<Text, Json>)
    ensures Print(Obj(fields)) == Bracketed(OPEN_OBJECT, MemberParts(SortedKeys(fields.Keys), fields), CLOSE_OBJECT)
  {
    var keys := SortedKeys(fields.Keys);
    assert MemberParts(keys, fields)
        == seq(|keys|, i requires 0 <= i < |keys| => Member(keys[i], (assert keys[i] in keys; Print(fields[keys[i]]))));
  }

  /** A printed value starts with neither a space nor a closing bracket. */
  lemma FirstUnit(j: Json)
    ensures Print(j) != []
    ensures !IsSpace(Print(j)[0]) && Print(j)[0] != CLOSE_ARRAY && Print(j)[0] != CLOSE_OBJECT
  {
  }

  lemma {:induction false} ValueRoundTrip(j: Json, rest: Text)
    requires JsonNumber.EndsNumber(rest)
    ensures ReadValue(Print(j) + rest) == Some((j, rest))
    decreases j, 1, 0
  {
    match j
    case Null => LiteralRoundTrip(j, rest);
    case Bool(_) => LiteralRoundTrip(j, rest);
    case Num(n) => NumberValueRoundTrip(n, rest);
    case Str(s) => StringValueRoundTrip(s, rest);
    case Arr(items) => ArrayRoundTrip(items, rest);
    case Obj(fields) => ObjectRoundTrip(fields, rest);
  }

  lemma NumberValueRoundTrip(n: JsonNumber.Finite, rest: Text)
    requires JsonNumber.EndsNumber(rest)
    ensures ReadValue(Print(Num(n)) + rest) == Some((Num(n), rest))
  {
    NumberStarts(n);
    JsonNumber.NumberRoundTrip(n, rest);
    ReadNumberValue(Print(Num(n)) + rest, n, rest);
  }

  lemma NumberStarts(n: JsonNumber.Finite)
    ensures var t := Print(Num(n)); t != [] && (JsonNumber.IsDigit(t[0]) || t[0] == JsonNumber.MINUS)
  {
    FirstUnit(Num(n));
  }

  lemma ReadNumberValue(t: Text, n: JsonNumber.Finite, rest: Text)
    requires t != [] && (JsonNumber.IsDigit(t[0]) || t[0] == JsonNumber.MINUS) && JsonNumber.Read(t) == Some((n, rest))
    ensures ReadValue(t) == Some((Num(n), rest))
  {
    assert SkipSpace(t) == t;
  }

  lemma LiteralRoundTrip(j: Json, rest: Text)
    requires j.Null? || j.Bool?
    ensures ReadValue(Print(j) + rest) == Some((j, rest))
  {
    if j.Null? {
      assert (NULL_TEXT + rest)[4..] == rest;
    } else if j.b {
      assert (TRUE_TEXT + rest)[4..] == rest;
    } else {
      assert (FALSE_TEXT + rest)[5..] == rest;
    }
  }

  lemma StringValueRoundTrip(s: Text, rest: Text)
    ensures ReadValue(JsonString.Quote(s) + rest) == Some((Str(s), rest))
  {
    var q := [JsonString.QUOTE];
    JsonString.QuoteRoundTrip(s, rest);
    Associative(q, JsonString.QuoteBody(s) + q, rest);
    Associative(JsonString.QuoteBody(s), q, rest);
    var u := JsonString.QuoteBody(s) + (q + rest);
    assert (q + u)[1..] == u;
  }

  lemma {:induction false} ArrayRoundTrip(items: seq<Json>, rest: Text)
    ensures ReadValue(Print(Arr(items)) + rest) == Some((Arr(items), rest))
    decreases Arr(items), 0, |items| + 1
  {
    var parts := ItemParts(items);
    var body := Join(parts) + ([CLOSE_ARRAY] + rest);
    PrintArray(items);
    BracketedThen(OPEN_ARRAY, parts, CLOSE_ARRAY, rest);
    assert ([OPEN_ARRAY] + body)[1..] == body;
    if items == [] {
      assert parts == [] && body == [CLOSE_ARRAY] + rest && body[1..] == rest;
    } else {
      assert parts[0..] == parts && items[0..] == items;
      ItemsRoundTrip(items, 0, rest);
      FirstUnit(items[0]);
      assert body[0] == Print(items[0])[0];
    }
  }

  lemma JoinStep(parts: seq<Text>, i: nat, end: Text)
    requires i + 1 < |parts|
    ensures Join(parts[i..]) + end == parts[i] + ([COMMA] + (Join(parts[i + 1..]) + end))
  {
    assert parts[i..][1..] == parts[i + 1..];
    Associative(parts[i], [COMMA] + Join(parts[i + 1..]), end);
    Associative([COMMA], Join(parts[i + 1..]), end);
  }

  /** Reading the printed items from index `i` on gives those items. */
  lemma {:induction false} ItemsRoundTrip(items: seq<Json>, i: nat, rest: Text)
    requires i < |items|
    ensures ReadItems(Join(ItemParts(items)[i..]) + ([CLOSE_ARRAY] + rest)) == Some((items[i..], rest))
    decreases Arr(items), 0, |items| - i
  {
    var parts := ItemParts(items);
    var end := [CLOSE_ARRAY] + rest;
    assert end[1..] == rest;
    if i + 1 == |items| {
      assert parts[i..] == [parts[i]] && items[i..] == [items[i]];
      ValueRoundTrip(items[i], end);
    } else {
      var more := Join(parts[i + 1..]) + end;
      JoinStep(parts, i, end);
      assert items[i..] == [items[i]] + items[i + 1..];
      assert ([COMMA] + more)[1..] == more;
      ValueRoundTrip(items[i], [COMMA] + more);
      ItemsRoundTrip(items, i + 1, rest);
    }
  }

  lemma ReadOpenObject(body: Text)
    requires body != [] && !IsSpace(body[0])
    ensures body[0] == CLOSE_OBJECT ==> ReadValue([OPEN_OBJECT] + body) == Some((Obj(map[]), body[1..]))
    ensures body[0] != CLOSE_OBJECT && ReadMembers(body).Some? ==>
      ReadValue([OPEN_OBJECT] + body) == Some((Obj(ReadMembers(body).value.0), ReadMembers(body).value.1))
  {
    assert ([OPEN_OBJECT] + body)[1..] == body;
  }

  lemma BracketedThen(open: CodeUnit, parts: seq<Text>, close: CodeUnit, rest: Text)
    ensures Bracketed(open, parts, close) + rest == [open] + (Join(parts) + ([close] + rest))
  {
    Associative([open], Join(parts) + [close], rest);
    Associative(Join(parts), [close], rest);
  }

  lemma {:induction false} ObjectRoundTrip(fields: map<Text, Json>, rest: Text)
    ensures ReadValue(Print(Obj(fields)) + rest) == Some((Obj(fields), rest))
    decreases Obj(fields), 0, |SortedKeys(fields.Keys)| + 1
  {
    var keys := SortedKeys(fields.Keys);
    var parts := MemberParts(keys, fields);
    var end := [CLOSE_OBJECT] + rest;
    PrintObject(fields);
    RestrictedAll(fields);
    BracketedThen(OPEN_OBJECT, parts, CLOSE_OBJECT, rest);
    if keys == [] {
      assert parts == [] && Join(parts) + end == end && end[1..] == rest;
      ReadOpenObject(end);
    } else {
      assert parts[0..] == parts && keys[0..] == keys;
      MembersRoundTrip(fields, 0, rest);
      FirstOfMembers(keys, fields, end);
      ReadOpenObject(Join(parts) + end);
    }
  }

  lemma RestrictedAll(fields: map<Text, Json>)
    ensures Restricted(fields, SortedKeys(fields.Keys)) == fields
    ensures SortedKeys(fields.Keys) == [] ==> fields == map[]
  {
    var keys := SortedKeys(fields.Keys);
    assert forall k :: k in keys <==> k in fields.Keys;
    if keys == [] { assert forall k :: k !in fields.Keys; }
  }

  lemma FirstOfMembers(keys: seq<Text>, fields: map<Text, Json>, end: Text)
    requires keys != [] && forall k :: k in keys ==> k in fields
    ensures var body := Join(MemberParts(keys, fields)) + end; body != [] && body[0] == JsonString.QUOTE
  {
  }

  function Restricted(fields: map<Text, Json>, keys: seq<Text>): map<Text, Json> {
    map k | k in fields && k in keys :: fields[k]
  }

  /** Reading one printed member and going on with `tail`. */
  lemma ReadMember(key: Text, value: Json, tail: Text)
    requires JsonNumber.EndsNumber(tail) && tail != [] && !IsSpace(tail[0])
    requires ReadValue(Print(value) + tail) == Some((value, tail))
    ensures ReadMembers(Member(key, Print(value)) + tail) ==
      if tail[0] == CLOSE_OBJECT then Some((map[key := value], tail[1..]))
      else if tail[0] == COMMA && ReadMembers(tail[1..]).Some? then
        Some((map[key := value] + ReadMembers(tail[1..]).value.0, ReadMembers(tail[1..]).value.1))
      else None
  {
    var q := [JsonString.QUOTE];
    var v := [COLON] + (Print(value) + tail);
    var u := JsonString.QuoteBody(key) + (q + v);
    JsonString.QuoteRoundTrip(key, v);
    Associative(JsonString.Quote(key), [COLON] + Print(value), tail);
    Associative([COLON], Print(value), tail);
    Associative(q, JsonString.QuoteBody(key) + q, v);
    Associative(JsonString.QuoteBody(key), q, v);
    assert Member(key, Print(value)) + tail == q + u;
    assert (q + u)[1..] == u;
    assert v[1..] == Print(value) + tail;
    assert SkipSpace(tail) == tail && SkipSpace(v) == v;
  }

  lemma RestrictedCons(fields: map<Text, Json>, k: Text, keys: seq<Text>)
    requires k in fields
    ensures Restricted(fields, [k] + keys) == map[k := fields[k]] + Restricted(fields, if k in keys then [k] + keys else keys)
  {
    assert forall x :: x in [k] + keys <==> x == k || x in keys;
  }

  lemma RestrictedStep(fields: map<Text, Json>, i: nat)
    requires i < |SortedKeys(fields.Keys)|
    ensures var keys := SortedKeys(fields.Keys);
      && keys[i] in keys && keys[i] in fields
      && Restricted(fields, keys[i..]) == map[keys[i] := fields[keys[i]]] + Restricted(fields, keys[i + 1..])
      && (i + 1 == |keys| ==> Restricted(fields, keys[i..]) == map[keys[i] := fields[keys[i]]])
  {
    var keys := SortedKeys(fields.Keys);
    assert keys[i] in keys;
    KeyNotRepeated(fields.Keys, i);
    RestrictedCons(fields, keys[i], keys[i + 1..]);
    assert keys[i..] == [keys[i]] + keys[i + 1..];
  }

  lemma {:induction false} MembersRoundTrip(fields: map<Text, Json>, i: nat, rest: Text)
    requires i < |SortedKeys(fields.Keys)|
    ensures ReadMembers(Join(MemberParts(SortedKeys(fields.Keys), fields)[i..]) + ([CLOSE_OBJECT] + rest))
         == Some((Restricted(fields, SortedKeys(fields.Keys)[i..]), rest))
    decreases Obj(fields), 0, |SortedKeys(fields.Keys)| - i
  {
    var keys := SortedKeys(fields.Keys);
    var parts := MemberParts(keys, fields);
    var end := [CLOSE_OBJECT] + rest;
    var k := keys[i];
    assert k in keys && fields[k] < Obj(fields);
    assert end[1..] == rest;
    if i + 1 == |keys| {
      assert parts[i..] == [parts[i]];
      ValueRoundTrip(fields[k], end);
      ReadMember(k, fields[k], end);
      RestrictedStep(fields, i);
    } else {
      var more := Join(parts[i + 1..]) + end;
      JoinStep(parts, i, end);
      assert ([COMMA] + more)[1..] == more;
      ValueRoundTrip(fields[k], [COMMA] + more);
      ReadMember(k, fields[k], [COMMA] + more);
      MembersRoundTrip(fields, i + 1, rest);
      RestrictedStep(fields, i);
    }
  }

  lemma KeyNotRepeated(keys: set<Text>, i: nat)
    requires i < |SortedKeys(keys)|
    ensures SortedKeys(keys)[i] !in SortedKeys(keys)[i + 1..]
  {
    SortedKeysAreSorted(keys);
    var s := SortedKeys(keys);
    LessTrichotomy(s[i], s[i]);
    var tail := s[i + 1..];
    forall m | 0 <= m < |tail| ensures tail[m] != s[i] { assert Less(s[i], s[i + 1 + m]); }
  }

  /** The reader is a left inverse of the printer on every value. */
  lemma ParsePrint(j: Json)
    ensures Parse(Print(j)) == Some(j)
  {
    ValueRoundTrip(j, []);
    assert Print(j) + [] == Print(j);
  }

  /** Canonical text decides equality: it is the same exactly for the same value. */
  lemma PrintInjective(a: Json, b: Json)
    ensures Print(a) == Print(b) <==> a == b
  {
    ParsePrint(a);
    ParsePrint(b);
  }

  // ---------- canonical text is well-formed UTF-16 ----------

  lemma {:induction false} JoinIsWellFormed(parts: seq<Text>)
    requires forall i :: 0 <= i < |parts| ==> WellFormed(parts[i])
    ensures WellFormed(Join(parts))
  {
    if |parts| > 1 {
      JoinIsWellFormed(parts[1..]);
      PlainIsWellFormed([COMMA]);
      WellFormedConcat([COMMA], Join(parts[1..]));
      WellFormedConcat(parts[0], [COMMA] + Join(parts[1..]));
    }
  }

  lemma BracketedIsWellFormed(open: CodeUnit, parts: seq<Text>, close: CodeUnit)
    requires open < 128 && close < 128
    requires forall i :: 0 <= i < |parts| ==> WellFormed(parts[i])
    ensures WellFormed(Bracketed(open, parts, close))
  {
    JoinIsWellFormed(parts);
    PlainIsWellFormed([open]);
    PlainIsWellFormed([close]);
    WellFormedConcat(Join(parts), [close]);
    WellFormedConcat([open], Join(parts) + [close]);
  }

  /** Canonical text holds no lone surrogate, whatever strings the value holds. */
  lemma {:induction false} PrintIsWellFormed(j: Json)
    ensures WellFormed(Print(j))
  {
    match j
    case Null => PlainIsWellFormed(NULL_TEXT);
    case Bool(b) => PlainIsWellFormed(Print(j));
    case Num(n) => JsonNumber.PrintIsWellFormed(n);
    case Str(s) => JsonString.QuoteIsWellFormed(s);
    case Arr(items) =>
      forall i | 0 <= i < |items| ensures WellFormed(ItemParts(items)[i]) { PrintIsWellFormed(items[i]); }
      PrintArray(items);
      BracketedIsWellFormed(OPEN_ARRAY, ItemParts(items), CLOSE_ARRAY);
    case Obj(fields) =>
      var keys := SortedKeys(fields.Keys);
      forall i | 0 <= i < |keys| ensures WellFormed(MemberParts(keys, fields)[i]) {
        assert keys[i] in keys;
        PrintIsWellFormed(fields[keys[i]]);
        JsonString.QuoteIsWellFormed(keys[i]);
        PlainIsWellFormed([COLON]);
        WellFormedConcat([COLON], Print(fields[keys[i]]));
        WellFormedConcat(JsonString.Quote(keys[i]), [COLON] + Print(fields[keys[i]]));
      }
      PrintObject(fields);
      BracketedIsWellFormed(OPEN_OBJECT, MemberParts(keys, fields), CLOSE_OBJECT);
  }
}
