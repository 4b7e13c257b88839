/** The local registry of sources: rows keyed by exact scope, source type, namespace and key. */
module ControlStore {
  import opened Options
  import opened Results
  import opened Utf16
  import opened Scopes
  import opened StoredCells
  import Json
  import JsonString
  import KeyedTable
  import Spelling
  import SqliteJson
  import Timestamps

  // ---------- registrations and rows ----------

  datatype LogicalKey = LogicalKey(scope: Scope, sourceType: Text, namespace: Text, key: Text) {
    predicate Valid() {
      scope.Valid() && IsSourceType(sourceType) && !IsBlank(namespace) && !IsBlank(key)
    }
  }

  datatype Registration = Registration(
    schemaVersion: int, id: LogicalKey, locator: Text, title: OptionalText,
    createdAt: OptionalText, updatedAt: OptionalText, metadata: map<Text, Json.Json>)
  {
    /** What a write accepts.  Any title will do, and a timestamp need only not be blank. */
    predicate Valid() {
      && schemaVersion == 1 && id.Valid() && !IsBlank(locator)
      && NotBlank(createdAt) && NotBlank(updatedAt)
    }

    /** What a read accepts beyond that. */
    predicate HasTimestamps() { IsInstant(createdAt) && IsInstant(updatedAt) }

    /** The columns bound as raw text lose nothing. */
    predicate HasWellFormedText() {
      && WellFormed(id.namespace) && WellFormed(id.key) && WellFormed(locator)
      && (createdAt.Present? ==> WellFormed(createdAt.text)) && (updatedAt.Present? ==> WellFormed(updatedAt.text))
    }
  }

  predicate NotBlank(t: OptionalText) { t.Present? ==> !IsBlank(t.text) }

  predicate IsInstant(t: OptionalText) { t.Present? ==> Timestamps.IsTimestamp(t.text) }

  const MARKDOWN: Text := Ascii("markdown")
  const PLAIN_TEXT: Text := Ascii("text")
  const CONVERSATION: Text := Ascii("conversation")

  predicate IsSourceType(t: Text) { t == MARKDOWN || t == PLAIN_TEXT || t == CONVERSATION }

  /** The primary key. */
  datatype RowKey = RowKey(scopeKey: StoredText, sourceType: StoredText, namespace: StoredText, key: StoredText)

  datatype Columns = Columns(
    scopeJson: Cell, locator: Cell, titleJson: Cell, createdAt: Cell, updatedAt: Cell,
    metadataJson: Cell, schemaVersion: Cell)

  type Row = KeyedTable.Keyed<RowKey, Columns>

  type Table = seq<Row>

  function TextColumn(t: Text): Cell { TextCell(Bind(t)) }

  function OptionalColumn(t: OptionalText): Cell { if t.Present? then TextColumn(t.text) else NullCell }

  function ToRowKey(k: LogicalKey): RowKey {
    RowKey(Bind(ScopeKey(k.scope)), Bind(k.sourceType), Bind(k.namespace), Bind(k.key))
  }

  // ---------- the title codec ----------

  /** An absent title is NULL; a present one is the text of a JSON string. */
  function TitleColumn(title: OptionalText): Cell {
    if title.Present? then TextColumn(JsonString.Quote(title.text)) else NullCell
  }

  function StoredTitle(c: Cell): Result<OptionalText, Failure> {
    var text :- OptionalStoredText(c);
    match text
    case Absent => Ok(Absent)
    case Present(t) =>
      var decoded := Json.Parse(t);
      if decoded.Some? && decoded.value.Str? then Ok(Present(decoded.value.s)) else Err(InvalidStoredData)
  }

  lemma QuotedTitle(t: Text)
    ensures Bind(JsonString.Quote(t)) == JsonString.Quote(t)
    ensures Json.Parse(JsonString.Quote(t)) == Some(Json.Str(t))
  {
    JsonString.QuoteIsWellFormed(t);
    BindIsIdentity(JsonString.Quote(t));
    Json.ParsePrint(Json.Str(t));
  }

  /** The codec returns every title unchanged, lone surrogates and the empty string included, although
  its column can only hold well-formed text. */
  lemma TitleRoundTrip(title: OptionalText)
    ensures StoredTitle(TitleColumn(title)) == Ok(title)
    ensures title.Present? ==> TitleColumn(title).TextCell? && TitleColumn(title).text == JsonString.Quote(title.text)
  {
    if title.Present? {
      QuotedTitle(title.text);
      ParsedTitle(TitleColumn(title).text, Json.Str(title.text));
    }
  }

  /** The column holds the title between quotes, unit by unit; as it is exactly when nothing has to be escaped. */
  lemma TitleText(title: Text)
    ensures TitleColumn(Present(title)).TextCell?
    ensures var text := TitleColumn(Present(title)).text;
      && text == [34] + (Spelling.SpelledFrom(title, 0) + [34])
      && (text == [34] + (title + [34]) <==> forall i :: 0 <= i < |title| ==> Spelling.IsPlain(title, i))
  {
    TitleRoundTrip(Present(title));
    Spelling.QuoteIsSpelled(title);
    Spelling.UnescapedIffPlain(title);
  }

  /** Of all JSON texts a column may hold, exactly the strings are titles. */
  lemma OnlyStringsAreTitles(j: Json.Json)
    ensures Bind(Json.Print(j)) == Json.Print(j)
    ensures StoredTitle(TextColumn(Json.Print(j))) == if j.Str? then Ok(Present(j.s)) else Err(InvalidStoredData)
  {
    Json.PrintIsWellFormed(j);
    BindIsIdentity(Json.Print(j));
    Json.ParsePrint(j);
    ParsedTitle(Json.Print(j), j);
  }

  lemma ParsedTitle(stored: StoredText, j: Json.Json)
    requires Json.Parse(stored) == Some(j)
    ensures StoredTitle(TextCell(stored)) == if j.Str? then Ok(Present(j.s)) else Err(InvalidStoredData)
  {
  }

  /** Binding the title itself would lose exactly the titles that hold a lone surrogate. */
  lemma RawTitleLosesLoneSurrogates(title: Text)
    ensures OptionalStoredText(TextColumn(title)) == Ok(Present(title)) <==> WellFormed(title)
  {
    BindIsIdentity(title);
  }

  // ---------- rows and registrations ----------

  function ToRow(r: Registration): Row {
    KeyedTable.Keyed(ToRowKey(r.id), Columns(
      TextColumn(ScopeJson(r.id.scope)), TextColumn(r.locator), TitleColumn(r.title),
      OptionalColumn(r.createdAt), OptionalColumn(r.updatedAt),
      TextColumn(Json.Print(Json.Obj(r.metadata))), IntegerCell(1)))
  }

  function StoredTimestamp(c: Cell): Result<OptionalText, Failure> {
    var text :- OptionalStoredText(c);
    if IsInstant(text) then Ok(text) else Err(InvalidStoredData)
  }

  function StoredObject(c: Cell): Result<map<Text, Json.Json>, Failure> {
    var text :- RequiredText(c);
    var fields := SqliteJson.ParseStoredObject(text);
    if fields.None? then Err(InvalidStoredData) else Ok(fields.value)
  }

  function StoredScope(c: Cell): Result<Scope, Failure> {
    var fields :- StoredObject(c);
    var scope := ReadScope(fields);
    if scope.None? then Err(InvalidStoredData) else Ok(scope.value)
  }

  /** Reads the columns of a row, given how its timestamps are read. */
  function Assemble(row: Row, created: Result<OptionalText, Failure>, updated: Result<OptionalText, Failure>): Result<Registration, Failure> {
    var version :- RequiredInteger(row.columns.schemaVersion);
    if version != 1 then Err(InvalidStoredData)
    else
      var metadata :- StoredObject(row.columns.metadataJson);
      var sourceType :- RequiredText(TextCell(row.id.sourceType));
      if !IsSourceType(sourceType) then Err(InvalidStoredData)
      else
        var title :- StoredTitle(row.columns.titleJson);
        var createdAt :- created;
        var updatedAt :- updated;
        var scope :- StoredScope(row.columns.scopeJson);
        var namespace :- RequiredText(TextCell(row.id.namespace));
        var key :- RequiredText(TextCell(row.id.key));
        var locator :- RequiredText(row.columns.locator);
        Ok(Registration(1, LogicalKey(scope, sourceType, namespace, key), locator, title, createdAt, updatedAt, metadata))
  }

  function ToRegistration(row: Row): Result<Registration, Failure> {
    Assemble(row, StoredTimestamp(row.columns.createdAt), StoredTimestamp(row.columns.updatedAt))
  }

  /** What a row holds, whether or not its timestamps are real instants. */
  function Decode(row: Row): Result<Registration, Failure> {
    Assemble(row, OptionalStoredText(row.columns.createdAt), OptionalStoredText(row.columns.updatedAt))
  }

  /** How the timestamps are read decides nothing else. */
  lemma AssembleFacts(row: Row, created: Result<OptionalText, Failure>, updated: Result<OptionalText, Failure>)
    requires (created.Err? ==> created.error == InvalidStoredData) && (updated.Err? ==> updated.error == InvalidStoredData)
    ensures var r, base := Assemble(row, created, updated), Assemble(row, Ok(Absent), Ok(Absent));
      if created.Ok? && updated.Ok? && base.Ok?
        then r == Ok(base.value.(createdAt := created.value, updatedAt := updated.value))
        else r == Err(InvalidStoredData)
  {
  }

  lemma ReadsInstant(c: Cell)
    ensures StoredTimestamp(c) ==
      (var text := OptionalStoredText(c); if text.Ok? && IsInstant(text.value) then text else Err(InvalidStoredData))
    ensures OptionalStoredText(c).Err? ==> OptionalStoredText(c).error == InvalidStoredData
  {
  }

  /** A row can be read exactly when it can be decoded and its timestamps are real instants. */
  lemma ReadIffInstants(row: Row)
    ensures ToRegistration(row).Ok? <==> Decode(row).Ok? && Decode(row).value.HasTimestamps()
    ensures ToRegistration(row).Ok? ==> ToRegistration(row) == Decode(row)
    ensures ToRegistration(row).Err? ==> ToRegistration(row).error == InvalidStoredData
  {
    ReadsInstant(row.columns.createdAt);
    ReadsInstant(row.columns.updatedAt);
    AssembleFacts(row, StoredTimestamp(row.columns.createdAt), StoredTimestamp(row.columns.updatedAt));
    AssembleFacts(row, OptionalStoredText(row.columns.createdAt), OptionalStoredText(row.columns.updatedAt));
  }

  /** What a row that can be decoded says about its own columns. */
  lemma DecodeFacts(row: Row)
    requires Decode(row).Ok?
    ensures row.columns.schemaVersion == IntegerCell(1)
    ensures var id := Decode(row).value.id;
      && id.scope.Valid() && IsSourceType(id.sourceType)
      && id.sourceType == row.id.sourceType && id.namespace == row.id.namespace && id.key == row.id.key
      && WellFormed(id.namespace) && WellFormed(id.key)
  {
  }

  function KeptText(t: OptionalText): OptionalText { if t.Present? then Present(Bind(t.text)) else Absent }

  /** What the raw text columns keep of a registration. */
  function Kept(r: Registration): Registration {
    r.(id := r.id.(namespace := Bind(r.id.namespace), key := Bind(r.id.key)), locator := Bind(r.locator),
       createdAt := KeptText(r.createdAt), updatedAt := KeptText(r.updatedAt))
  }

  lemma JsonColumn(fields: map<Text, Json.Json>)
    ensures StoredObject(TextColumn(Json.Print(Json.Obj(fields)))) == Ok(fields)
    ensures Bind(Json.Print(Json.Obj(fields))) == Json.Print(Json.Obj(fields))
  {
    Json.PrintIsWellFormed(Json.Obj(fields));
    BindIsIdentity(Json.Print(Json.Obj(fields)));
    Json.FirstUnit(Json.Obj(fields));
    SqliteJson.StoredObjectRoundTrip(fields);
  }

  lemma ScopeColumns(s: Scope)
    requires s.Valid()
    ensures StoredScope(TextColumn(ScopeJson(s))) == Ok(s) && Bind(ScopeKey(s)) == ScopeKey(s)
  {
    JsonColumn(ScopeFields(s));
    JsonColumn(KeyFields(s));
    ScopeRoundTrip(s);
  }

  lemma SourceTypeColumn(t: Text)
    requires IsSourceType(t)
    ensures Bind(t) == t && RequiredText(TextCell(Bind(t))) == Ok(t)
  {
    PlainIsWellFormed(t);
    BindIsIdentity(t);
  }

  lemma RequiredColumn(t: Text)
    requires !IsBlank(t)
    ensures RequiredText(TextColumn(t)) == Ok(Bind(t)) && !IsBlank(Bind(t))
  {
    ReplaceLoneKeepsBlank(t);
  }

  /** Binding neither makes nor breaks a real instant, and changes none. */
  lemma TimestampColumn(t: OptionalText)
    ensures OptionalStoredText(OptionalColumn(t)) == Ok(KeptText(t))
    ensures IsInstant(KeptText(t)) <==> IsInstant(t)
    ensures IsInstant(t) ==> KeptText(t) == t
  {
    if t.Present? { Timestamps.ReplacedTimestamp(t.text); }
  }

  /** Every accepted registration can be decoded from its row. */
  lemma RowDecodes(r: Registration)
    requires r.Valid()
    ensures Decode(ToRow(r)) == Ok(Kept(r))
    ensures Kept(r).HasTimestamps() <==> r.HasTimestamps()
  {
    JsonColumn(r.metadata);
    ScopeColumns(r.id.scope);
    SourceTypeColumn(r.id.sourceType);
    TitleRoundTrip(r.title);
    TimestampColumn(r.createdAt);
    TimestampColumn(r.updatedAt);
    RequiredColumn(r.id.namespace);
    RequiredColumn(r.id.key);
    RequiredColumn(r.locator);
  }

  /** Reading back what a write stored: it succeeds exactly when both timestamps are real instants. */
  lemma RowRoundTrip(r: Registration)
    requires r.Valid()
    ensures ToRegistration(ToRow(r)) == if r.HasTimestamps() then Ok(Kept(r)) else Err(InvalidStoredData)
  {
    RowDecodes(r);
    ReadIffInstants(ToRow(r));
  }

  /** A registration is kept as written exactly when its raw text is well-formed. */
  lemma KeptIffWellFormed(r: Registration)
    ensures Kept(r) == r <==> r.HasWellFormedText()
  {
    BindIsIdentity(r.id.namespace);
    BindIsIdentity(r.id.key);
    BindIsIdentity(r.locator);
    if r.createdAt.Present? { BindIsIdentity(r.createdAt.text); }
    if r.updatedAt.Present? { BindIsIdentity(r.updatedAt.text); }
  }

  /** A registration comes back as it was exactly when its timestamps are real instants and its raw
  text columns are well-formed. */
  lemma FaithfulIff(r: Registration)
    requires r.Valid()
    ensures ToRegistration(ToRow(r)) == Ok(r) <==> r.HasTimestamps() && r.HasWellFormedText()
  {
    RowRoundTrip(r);
    KeptIffWellFormed(r);
  }
}
