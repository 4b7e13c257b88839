/** The local audit store for compilation traces: one row for each compilation identifier, written
once and never changed. */
module TraceStore {
  import opened Options
  import opened Results
  import opened Utf16
  import opened Scopes
  import opened StoredCells
  import Json
  import JsonNumber
  import SqliteJson

  // ---------- records and rows ----------

  datatype Record = Record(
    schemaVersion: int, scope: Scope, compilationId: Text, traceVersion: int, payload: map<Text, Json.Json>)
  {
    /** What the store accepts. */
    predicate Valid() {
      schemaVersion == 1 && scope.Valid() && !IsBlank(compilationId) && IsSafeInteger(traceVersion)
    }
  }

  /** A stored row.  The identifier is the primary key and always text; the other columns may hold
  anything somebody else put there. */
  datatype Row = Row(
    id: StoredText, scopeKey: Cell, scopeJson: Cell, traceVersion: Cell, envelopeVersion: Cell, traceJson: Cell)

  type Table = seq<Row>

  /** The primary key. */
  ghost predicate UniqueIds(t: Table) {
    forall i, j :: 0 <= i < j < |t| ==> t[i].id != t[j].id
  }

  function TextColumn(t: Text): Cell { TextCell(Bind(t)) }

  function ToRow(r: Record): Row {
    Row(Bind(r.compilationId), TextColumn(ScopeKey(r.scope)), TextColumn(ScopeJson(r.scope)),
        IntegerCell(r.traceVersion), IntegerCell(1), TextColumn(Json.Print(Json.Obj(r.payload))))
  }

  /** The scope of a row; its two scope columns must describe one scope. */
  function StoredScope(row: Row): Result<Scope, Failure> {
    var text :- RequiredText(row.scopeJson);
    var fields := SqliteJson.ParseStoredObject(text);
    if fields.None? then Err(InvalidStoredData)
    else
      var scope := ReadScope(fields.value);
      if scope.None? then Err(InvalidStoredData)
      else
        var key :- RequiredText(row.scopeKey);
        if ScopeKey(scope.value) != key then Err(InvalidStoredData) else Ok(scope.value)
  }

  function StoredPayload(row: Row): Result<map<Text, Json.Json>, Failure> {
    var text :- RequiredText(row.traceJson);
    var payload := SqliteJson.ParseStoredObject(text);
    if payload.None? then Err(InvalidStoredData) else Ok(payload.value)
  }

  /** The only way from a row to a record. */
  function ReadStored(row: Row): Result<Record, Failure> {
    var envelopeVersion :- RequiredInteger(row.envelopeVersion);
    if envelopeVersion != 1 then Err(InvalidStoredData)
    else
      var scope :- StoredScope(row);
      var payload :- StoredPayload(row);
      var id :- RequiredText(TextCell(row.id));
      var traceVersion :- RequiredInteger(row.traceVersion);
      Ok(Record(1, scope, id, traceVersion, payload))
  }

  const ENVELOPE_VERSION: Text := Ascii("envelopeSchemaVersion")
  const COMPILATION_ID: Text := Ascii("compilationId")
  const SCOPE: Text := Ascii("scope")
  const TRACE_VERSION: Text := Ascii("traceSchemaVersion")
  const PAYLOAD: Text := Ascii("payload")

  function EnvelopeFields(r: Record): map<Text, Json.Json> {
    map[ENVELOPE_VERSION := Json.Num(JsonNumber.OfInt(1)),
        COMPILATION_ID := Json.Str(r.compilationId),
        SCOPE := Json.Obj(ScopeFields(r.scope)),
        TRACE_VERSION := Json.Num(JsonNumber.OfInt(r.traceVersion)),
        PAYLOAD := Json.Obj(r.payload)]
  }

  /** The text two records are compared by. */
  function Envelope(r: Record): Text { Json.Print(Json.Obj(EnvelopeFields(r))) }

  lemma EnvelopeNamesDiffer()
    ensures COMPILATION_ID != SCOPE && COMPILATION_ID != TRACE_VERSION && COMPILATION_ID != PAYLOAD && COMPILATION_ID != ENVELOPE_VERSION
    ensures SCOPE != TRACE_VERSION && SCOPE != PAYLOAD && SCOPE != ENVELOPE_VERSION
    ensures TRACE_VERSION != PAYLOAD && TRACE_VERSION != ENVELOPE_VERSION && PAYLOAD != ENVELOPE_VERSION
  {
    assert COMPILATION_ID[0] == 'c' as int && SCOPE[0] == 's' as int && TRACE_VERSION[0] == 't' as int;
    assert PAYLOAD[0] == 'p' as int && ENVELOPE_VERSION[0] == 'e' as int;
  }

  /** Two records have the same envelope text exactly when every field agrees, the payloads up to key
  order. */
  lemma EnvelopeDecides(a: Record, b: Record)
    requires a.schemaVersion == b.schemaVersion
    ensures Envelope(a) == Envelope(b) <==> a == b
  {
    Json.PrintInjective(Json.Obj(EnvelopeFields(a)), Json.Obj(EnvelopeFields(b)));
    if EnvelopeFields(a) == EnvelopeFields(b) {
      EnvelopeNamesDiffer();
      var x, y := EnvelopeFields(a), EnvelopeFields(b);
      assert x[COMPILATION_ID] == y[COMPILATION_ID] && x[SCOPE] == y[SCOPE];
      assert x[TRACE_VERSION] == y[TRACE_VERSION] && x[PAYLOAD] == y[PAYLOAD];
      ScopeFieldsInjective(a.scope, b.scope);
      JsonNumber.IntRoundTrip(a.traceVersion);
      JsonNumber.IntRoundTrip(b.traceVersion);
    }
  }

  /** A column whose text is canonical JSON reads back unchanged. */
  lemma JsonColumn(j: Json.Json)
    ensures Bind(Json.Print(j)) == Json.Print(j) && TextColumn(Json.Print(j)) == TextCell(Json.Print(j))
    ensures Json.Print(j) != [] && RequiredText(TextColumn(Json.Print(j))) == Ok(Json.Print(j))
  {
    Json.PrintIsWellFormed(j);
    BindIsIdentity(Json.Print(j));
    Json.FirstUnit(j);
  }

  lemma ScopeColumns(r: Record)
    requires r.scope.Valid()
    ensures StoredScope(ToRow(r)) == Ok(r.scope)
  {
    JsonColumn(Json.Obj(ScopeFields(r.scope)));
    JsonColumn(Json.Obj(KeyFields(r.scope)));
    SqliteJson.StoredObjectRoundTrip(ScopeFields(r.scope));
    ScopeRoundTrip(r.scope);
  }

  lemma PayloadColumn(r: Record)
    ensures StoredPayload(ToRow(r)) == Ok(r.payload)
  {
    JsonColumn(Json.Obj(r.payload));
    SqliteJson.StoredObjectRoundTrip(r.payload);
  }

  /** A record comes back from its row with the identifier the column could keep. */
  lemma RowRoundTrip(r: Record)
    requires r.Valid()
    ensures ReadStored(ToRow(r)) == Ok(r.(compilationId := Bind(r.compilationId)))
  {
    ScopeColumns(r);
    PayloadColumn(r);
    ReplaceLoneKeepsBlank(r.compilationId);
    assert RequiredText(TextCell(Bind(r.compilationId))) == Ok(Bind(r.compilationId));
  }

  /** What a readable row says about its own columns. */
  lemma ReadStoredFacts(row: Row)
    requires ReadStored(row).Ok?
    ensures var r := ReadStored(row).value;
      && r.schemaVersion == 1 && r.scope.Valid() && r.compilationId == row.id
      && row.scopeKey == TextCell(ScopeKey(r.scope)) && IsSafeInteger(r.traceVersion)
      && row.envelopeVersion == IntegerCell(1) && row.traceVersion == IntegerCell(r.traceVersion)
  {
  }

  // ---------- the two operations on a table ----------

  function Select(t: Table, id: Text): Option<Row> {
    if t == [] then None else if t[0].id == id then Some(t[0]) else Select(t[1..], id)
  }

  lemma {:induction false} SelectFinds(t: Table, id: Text)
    ensures Select(t, id).Some? ==> Select(t, id).value in t && Select(t, id).value.id == id
    ensures Select(t, id).None? <==> forall row :: row in t ==> row.id != id
    ensures UniqueIds(t) ==> forall row :: row in t && row.id == id ==> Select(t, id) == Some(row)
  {
    if t != [] {
      SelectFinds(t[1..], id);
      assert t == [t[0]] + t[1..];
      if UniqueIds(t) {
        assert UniqueIds(t[1..]);
        assert forall row :: row in t[1..] ==> row.id != t[0].id;
      }
    }
  }

  datatype Decision = Insert(row: Row) | AlreadyStored | Refuse(failure: Failure)

  /** What one write decides after reading the table inside its transaction. */
  function Decide(t: Table, r: Record): Decision {
    var existing := Select(t, Bind(r.compilationId));
    if existing.None? then Insert(ToRow(r))
    else
      var stored := ReadStored(existing.value);
      if stored.Err? then Refuse(stored.error)
      else if Envelope(stored.value) != Envelope(r) then Refuse(TraceConflict)
      else AlreadyStored
  }

  /** `Stored` for an insert and for an identical record that was there already. */
  datatype Outcome = Stored | Failed(failure: Failure)

  function Put(t: Table, r: Record): (Table, Outcome) {
    if !r.Valid() then (t, Failed(InvalidInput))
    else
      match Decide(t, r)
      case Insert(row) => (t + [row], Stored)
      case AlreadyStored => (t, Stored)
      case Refuse(f) => (t, Failed(f))
  }

  function Get(t: Table, scope: Scope, id: Text): Result<Option<Record>, Failure> {
    if !scope.Valid() || IsBlank(id) then Err(InvalidInput)
    else
      var found := Select(t, Bind(id));
      if found.None? || found.value.scopeKey != TextColumn(ScopeKey(scope)) then Ok(None)
      else
        var record :- ReadStored(found.value);
        if record.scope != scope then Err(InvalidStoredData) else Ok(Some(record))
  }

  // ---------- which input is refused ----------

  /** A write is refused as invalid input exactly unless the record has version 1, names its scope and its compilation,
  and its trace version is a safe integer. */
  lemma InputRefused(t: Table, r: Record)
    ensures Put(t, r).1 == Failed(InvalidInput) <==>
      !(r.schemaVersion == 1 && IsNamed(r.scope) && HasText(r.compilationId) && -0x1F_FFFF_FFFF_FFFF <= r.traceVersion <= 0x1F_FFFF_FFFF_FFFF)
  {
    ValidIffNamed(r.scope);
    BlankIff(r.compilationId);
    if r.Valid() && Decide(t, r).Refuse? { RefusedAsStored(t, r); }
  }

  lemma RefusedAsStored(t: Table, r: Record)
    requires Decide(t, r).Refuse?
    ensures Decide(t, r).failure == InvalidStoredData || Decide(t, r).failure == TraceConflict
  {
  }

  /** A read is refused as invalid input exactly unless the scope and the compilation are named. */
  lemma QueryRefused(t: Table, scope: Scope, id: Text)
    ensures Get(t, scope, id) == Err(InvalidInput) <==> !(IsNamed(scope) && HasText(id))
  {
    ValidIffNamed(scope);
    BlankIff(id);
  }

  // ---------- put and get agree ----------

  lemma SelectAppended(t: Table, row: Row)
    requires Select(t, row.id).None?
    ensures Select(t + [row], row.id) == Some(row)
  {
    if t != [] {
      assert (t + [row])[1..] == t[1..] + [row];
      SelectAppended(t[1..], row);
    }
  }

  /** After a successful write the stored row reads as the record, except that an inserted identifier
  is the one the column could keep. */
  lemma PutStores(t: Table, r: Record)
    requires Put(t, r).1.Stored?
    ensures var row := Select(Put(t, r).0, Bind(r.compilationId));
      && row.Some? && row.value.scopeKey == TextColumn(ScopeKey(r.scope))
      && ReadStored(row.value) == Ok(r.(compilationId := Bind(r.compilationId)))
    ensures Decide(t, r).AlreadyStored? ==> WellFormed(r.compilationId)
  {
    match Decide(t, r)
    case Insert(row) =>
      SelectAppended(t, row);
      RowRoundTrip(r);
    case AlreadyStored =>
      var row := Select(t, Bind(r.compilationId)).value;
      SelectFinds(t, Bind(r.compilationId));
      ReadStoredFacts(row);
      EnvelopeDecides(ReadStored(row).value, r);
      JsonColumn(Json.Obj(KeyFields(r.scope)));
      BindIsIdentity(r.compilationId);
  }

  /** After a successful write, reading under the record's own scope and identifier answers a record;
  it is the record that was written exactly when the identifier is well-formed text. */
  lemma PutThenGet(t: Table, r: Record)
    requires Put(t, r).1.Stored?
    ensures Get(Put(t, r).0, r.scope, r.compilationId) == Ok(Some(r.(compilationId := Bind(r.compilationId))))
    ensures Get(Put(t, r).0, r.scope, r.compilationId) == Ok(Some(r)) <==> WellFormed(r.compilationId)
  {
    PutStores(t, r);
    BindIsIdentity(r.compilationId);
  }

  /** A concrete identifier that comes back changed, and whose own record then conflicts with itself. */
  lemma LoneSurrogateIdentifier(t: Table, scope: Scope, payload: map<Text, Json.Json>)
    requires scope.Valid() && Select(t, [0xFFFD]).None?
    ensures var r := Record(1, scope, [0xD800], 1, payload);
      && Put(t, r).1.Stored?
      && Get(Put(t, r).0, scope, [0xD800]) == Ok(Some(r.(compilationId := [0xFFFD])))
      && Put(Put(t, r).0, r).1 == Failed(TraceConflict)
  {
    var r := Record(1, scope, [0xD800], 1, payload);
    assert Bind([0xD800]) == [0xFFFD];
    assert Decide(t, r) == Insert(ToRow(r));
    PutThenGet(t, r);
    PutStores(t, r);
    EnvelopeDecides(r.(compilationId := [0xFFFD]), r);
  }

  /** Writing a stored record again succeeds and changes nothing, exactly when its identifier is
  well-formed; otherwise it conflicts with itself. */
  lemma PutTwice(t: Table, r: Record)
    requires Put(t, r).1.Stored?
    ensures var after := Put(t, r).0;
      Put(after, r) == (after, if WellFormed(r.compilationId) then Stored else Failed(TraceConflict))
  {
    PutStores(t, r);
    EnvelopeDecides(r.(compilationId := Bind(r.compilationId)), r);
    BindIsIdentity(r.compilationId);
  }

  /** Storing back what was read succeeds and changes nothing, over any stored rows. */
  lemma GetThenPut(t: Table, scope: Scope, id: Text)
    requires Get(t, scope, id).Ok? && Get(t, scope, id).value.Some?
    ensures Put(t, Get(t, scope, id).value.value) == (t, Stored)
  {
    var row := Select(t, Bind(id)).value;
    SelectFinds(t, Bind(id));
    ReadStoredFacts(row);
    var r := ReadStored(row).value;
    ReplaceLoneKeepsBlank(id);
    BindIsIdentity(row.id);
  }

  /** A row filed under another scope key reads as absent, whatever else it holds, even if it cannot be
  read; and that is the only row that does. */
  lemma OtherScopeReadsAbsent(t: Table, scope: Scope, id: Text)
    requires scope.Valid() && !IsBlank(id) && Select(t, Bind(id)).Some?
    ensures var row := Select(t, Bind(id)).value;
      Get(t, scope, id) == Ok(None) <==> row.scopeKey != TextColumn(ScopeKey(scope))
  {
    var row := Select(t, Bind(id)).value;
    JsonColumn(Json.Obj(KeyFields(scope)));
  }

  /** A stored record reads as absent under every scope but its own. */
  lemma StoredReadsUnderItsScope(t: Table, r: Record, scope: Scope)
    requires Put(t, r).1.Stored? && scope.Valid()
    ensures Get(Put(t, r).0, scope, r.compilationId) == Ok(None) <==> scope != r.scope
  {
    PutStores(t, r);
    PutThenGet(t, r);
    OtherScopeReadsAbsent(Put(t, r).0, scope, r.compilationId);
    JsonColumn(Json.Obj(KeyFields(scope)));
    JsonColumn(Json.Obj(KeyFields(r.scope)));
    ScopeKeyInjective(scope, r.scope);
  }

  /** An existing row that cannot be read never yields success, and the table is left as it was. */
  lemma UnreadableRowRefused(t: Table, r: Record)
    requires r.Valid() && Select(t, Bind(r.compilationId)).Some?
    requires ReadStored(Select(t, Bind(r.compilationId)).value).Err?
    ensures Put(t, r) == (t, Failed(InvalidStoredData))
  {
  }

  /** The final scope comparison of a read never fails: the scope key has decided it. */
  lemma ScopeKeyDecides(t: Table, scope: Scope, id: Text)
    requires Get(t, scope, id) == Err(InvalidStoredData)
    ensures Select(t, Bind(id)).Some? && ReadStored(Select(t, Bind(id)).value) == Err(InvalidStoredData)
  {
    var row := Select(t, Bind(id)).value;
    if ReadStored(row).Ok? {
      ReadStoredFacts(row);
      ScopeKeyInjective(scope, ReadStored(row).value.scope);
      JsonColumn(Json.Obj(KeyFields(scope)));
    }
  }

  /** A write only ever appends, at most one row, and only under a fresh identifier. */
  lemma PutAppends(t: Table, r: Record)
    requires UniqueIds(t)
    ensures var after := Put(t, r).0;
      && (after == t || (after == t + [ToRow(r)] && forall row :: row in t ==> row.id != Bind(r.compilationId)))
      && UniqueIds(after)
  {
    SelectFinds(t, Bind(r.compilationId));
  }
}
